/** Files given up on the way, and what the receiver makes of a transmission. */
module Cancelling {
  import opened Wrappers
  import opened Bytes
  import opened Codec
  import opened Packets
  import opened TextMode
  import opened Framing
  import opened Stations
  import opened Transaction

  // -------------------------------------------------------------- the sender

  /** A refused file is given up with a discard, and leaves no trace in what follows. */
  lemma RefusedFile(c: Config, st: Sending, data: seq<byte>)
    requires st.src.Valid() && st.phase == SsAtt && Objects(st.phase, data)
    ensures AfterAck(c, st, data) == Some(Move(Pkt(90, [68]), st.(phase := SsEof)))
  {
  }

  /** A cancelled file is given up with a discard; X is remembered for this file, Z for all. */
  lemma CancelledFile(c: Config, st: Sending, data: seq<byte>)
    requires st.src.Valid() && st.phase == SsDat && !st.cx && !st.cz && Objects(st.phase, data)
    ensures AfterAck(c, st, data)
         == Some(Move(Pkt(90, [68]), st.(phase := SsEof, cx := data[0] == 88, cz := data[0] == 90)))
  {
  }

  /** After Z no file is sent any more. */
  lemma CancelledBatch(c: Config, st: Sending, data: seq<byte>)
    requires st.src.Valid() && st.phase == SsEof && st.cz
    ensures AfterAck(c, st, data) == Some(Move(Pkt(66, []), st.(phase := SsEot)))
  {
  }

  /**
   * X is meant for one file, but the sender never forgets it: every file behind
   * is announced, described, and ended at once without a discard, so that a receiver
   * keeps it, empty. `a` and `b` acknowledge its header and its attributes.
   */
  lemma FilesBehindAreEmpty(c: Config, st: Sending, r: Receiving, f: seq<byte>, a: seq<byte>, b: seq<byte>)
    requires st.src.Valid() && st.phase == SsEof && st.cx && !st.cz && st.left != []
    requires r.stage == SrFil && !Objects(SsAtt, b)
    ensures var job := st.left[0];
            var head := AfterAck(c, st, f).value;
            && AfterAck(c, st, f).Some? && head.st.src.Valid()
            && var next := AfterAck(c, head.st, a).value;
               && AfterAck(c, head.st, a).Some? && next.st.src.Valid()
               && var packets := if c.attributes then [head.pkt, next.pkt, AfterAck(c, next.st, b).value.pkt] else [head.pkt, next.pkt];
                  && (c.attributes ==> AfterAck(c, next.st, b).Some?)
                  && packets == [Pkt(70, job.name)] + (if c.attributes then [Pkt(65, job.attrs)] else []) + [Pkt(90, [])]
                  && DeliverAll(c, r, packets)
                     == Some(r.(done := r.done + [Stored(job.name, [])], name := job.name, out := [], cx := false))
  {
    hide GetPkt, Decode;
    var job := st.left[0];
    var head := AfterAck(c, st, f).value;
    var next := AfterAck(c, head.st, a).value;
    assert head.pkt == Pkt(70, job.name);
    var r1 := r.(stage := SrAtt, name := job.name, out := [], cx := false);
    assert Deliver(c, r, head.pkt) == Some(r1);
    var z := [Pkt(90, [])];
    assert z[1..] == [];
    assert DeliverAll(c, r1, z) == Some(r.(done := r.done + [Stored(job.name, [])], name := job.name, out := [], cx := false));
    if c.attributes {
      var rest := [Pkt(65, job.attrs)] + z;
      assert rest[1..] == z && ([head.pkt] + rest)[1..] == rest;
      assert DeliverAll(c, r1, rest) == DeliverAll(c, r1, z);
      assert [head.pkt, next.pkt, AfterAck(c, next.st, b).value.pkt] == [head.pkt] + rest;
    } else {
      assert ([head.pkt] + z)[1..] == z;
      assert [head.pkt, next.pkt] == [head.pkt] + z;
    }
  }

  // ------------------------------------------------------------ the receiver

  /** A list of packets of the right numbers, taken one by one. */
  function DeliverAll(c: Config, r: Receiving, pkts: seq<Pkt>): Option<Receiving>
    decreases |pkts|
  {
    if pkts == [] then Some(r)
    else
      match Deliver(c, r, pkts[0])
      case None => None
      case Some(r') => DeliverAll(c, r', pkts[1..])
  }

  /** Which packet may come behind which; the transmission begins as behind the end of a file. */
  predicate MayFollow(last: byte, kind: byte) {
    if last == 90 then kind == 70 || kind == 66
    else if last == 70 || last == 65 then kind == 65 || kind == 68 || kind == 90
    else if last == 68 then kind == 68 || kind == 90
    else false
  }

  /** A transmission as the protocol wants it, and data that decode. */
  predicate WellFormed(c: Config, last: byte, pkts: seq<Pkt>)
    decreases |pkts|
  {
    pkts != [] ==>
      && MayFollow(last, pkts[0].kind)
      && (pkts[0].kind == 68 ==> Decode(c.p, c.text, pkts[0].data, 0).ok)
      && WellFormed(c, pkts[0].kind, pkts[1..])
  }

  function LastKind(stage: Stage): byte {
    match stage
    case SrFil => 90
    case SrAtt => 70
    case SrDat => 68
    case Ended => 66
  }

  /** The receiver takes exactly the transmissions that are well-formed, and nothing behind the end of one. */
  lemma {:induction false} TakesExactly(c: Config, r: Receiving, pkts: seq<Pkt>)
    ensures DeliverAll(c, r, pkts).Some? <==> WellFormed(c, LastKind(r.stage), pkts)
    decreases |pkts|
  {
    hide Decode;
    if pkts != [] {
      var d := Deliver(c, r, pkts[0]);
      if d.Some? {
        TakesExactly(c, d.value, pkts[1..]);
        AttributesDoNotShow(c, pkts[1..]);
      }
    }
  }

  /** Behind a header and behind attributes the same may come. */
  lemma AttributesDoNotShow(c: Config, pkts: seq<Pkt>)
    ensures WellFormed(c, 65, pkts) <==> WellFormed(c, 70, pkts)
  {
    hide Decode;
  }

  /** A file ended with a discard is dropped, any other is kept under its name with all that was decoded. */
  lemma EndOfFile(c: Config, r: Receiving, data: seq<byte>)
    requires r.stage == SrAtt || r.stage == SrDat
    ensures var d := Deliver(c, r, Pkt(90, data));
            && d.Some? && d.value.stage == SrFil
            && d.value.done == if r.cx || (data != [] && data[0] == 68) then r.done else r.done + [Stored(r.name, r.out)]
  {
    hide Decode;
  }
}

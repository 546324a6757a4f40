/**
 * Two ends and two lines. Each line keeps the order of packets but may lose,
 * repeat or damage them; each end may time out whenever it listens. Whatever
 * happens, the receiver stores the sender's files and nothing else.
 */
module Protocol {
  import opened Wrappers
  import opened Bytes
  import opened Packets
  import opened Framing
  import opened Stations
  import opened Transaction

  /** Both ends, what is on the lines, and the history of packets first sent and accepted. */
  datatype System = System(
    snd: Side, st: Sending, pkt: Pkt, rcv: Side, rs: Receiving,
    fwd: seq<seq<byte>>, back: seq<seq<byte>>,
    sent: seq<Pkt>, accepted: seq<Pkt>)

  // ------------------------------------------------------------------- steps

  /** An end listens: it hears the first burst on the line, or nothing. */
  ghost predicate Listens(m: LineMode, q: seq<seq<byte>>, a: Arrival, q': seq<seq<byte>>)
    requires m.Valid()
  {
    || (a == Silence && q' == q)
    || (q != [] && Heard(m, q[0], a) && q' == q[1..])
  }

  /** What an end does about an arrival it does not accept. */
  function Wait(m: LineMode, s: Side, a: Arrival): Act
    requires m.Valid() && m.spadn == 0 && s.num < 64
  {
    if a.Hangup? then Act(s.(status := Failed), []) else Resend(m, s)
  }

  function Protest(m: LineMode, s: Side): Act
    requires m.Valid() && m.spadn == 0 && s.num < 64
  {
    var message := Ascii("Unknown packet type");
    MessageSendable(m, ERROR, message);
    ErrPkt(m, s, message)
  }

  /** The sender hears something, or times out. */
  ghost predicate SenderStep(c: Config, s: System, s': System, a: Arrival)
    requires ValidConfig(c)
  {
    && s.snd.status == Running && s.snd.num < 64 && s.st.src.Valid()
    && Listens(c.m, s.back, a, s'.back)
    && s'.rcv == s.rcv && s'.rs == s.rs && s'.accepted == s.accepted
    && if !Accepts(s.snd, a) then
         var act := Wait(c.m, s.snd, a);
         s'.snd == act.side && s'.fwd == s.fwd + act.out && s'.st == s.st && s'.pkt == s.pkt && s'.sent == s.sent
       else if a.r.kind == ERROR then
         s'.snd == s.snd.(status := Failed) && s'.fwd == s.fwd && s'.st == s.st && s'.pkt == s.pkt && s'.sent == s.sent
       else if a.r.kind != ACK then
         var act := Protest(c.m, s.snd);
         s'.snd == act.side && s'.fwd == s.fwd + act.out && s'.st == s.st && s'.pkt == s.pkt && s'.sent == s.sent
       else
         match AfterAck(c, s.st, a.r.data)
         case None =>
           s'.snd == s.snd.(status := Finished) && s'.fwd == s.fwd && s'.st == s.st && s'.pkt == s.pkt && s'.sent == s.sent
         case Some(mv) =>
           && Sendable(c.m, mv.pkt.kind, mv.pkt.data)
           && var act := Send(c.m, NxtPkt(s.snd), mv.pkt.kind, mv.pkt.data);
              s'.snd == act.side && s'.fwd == s.fwd + act.out && s'.st == mv.st && s'.pkt == mv.pkt && s'.sent == s.sent + [mv.pkt]
  }

  /** The receiver hears something, or times out. `data` goes into its acknowledgement. */
  ghost predicate ReceiverStep(c: Config, s: System, s': System, a: Arrival, data: seq<byte>)
    requires ValidConfig(c)
  {
    && s.rcv.status == Running && s.rcv.num < 64
    && Listens(c.m, s.fwd, a, s'.fwd)
    && s'.snd == s.snd && s'.st == s.st && s'.pkt == s.pkt && s'.sent == s.sent
    && if !Accepts(s.rcv, a) then
         var act := Wait(c.m, s.rcv, a);
         s'.rcv == act.side && s'.back == s.back + act.out && s'.rs == s.rs && s'.accepted == s.accepted
       else if a.r.kind == ERROR then
         s'.rcv == s.rcv.(status := Failed) && s'.back == s.back && s'.rs == s.rs && s'.accepted == s.accepted
       else
         var got := Pkt(a.r.kind, a.r.data);
         match Deliver(c, s.rs, got)
         case None =>
           var act := Protest(c.m, s.rcv);
           s'.rcv == act.side && s'.back == s.back + act.out && s'.rs == s.rs && s'.accepted == s.accepted
         case Some(rs) =>
           && AckFor(got.kind, data) && Sendable(c.m, ACK, data)
           && var act := Send(c.m, s.rcv, ACK, data);
              && s'.rcv == NxtPkt(act.side).(status := if rs.stage == Ended then Finished else Running)
              && s'.back == s.back + act.out && s'.rs == rs && s'.accepted == s.accepted + [got]
  }

  /** Nothing heard, a damaged packet, a NAK, a timeout report, or a packet of another number. */
  predicate Trouble(num: nat, a: Arrival) {
    || a == Silence
    || (a.Packet? && (a.r.Bad? || a.r.number != num || a.r.kind in {78, 81, 84}))
  }

  /** The sender answers all of these by sending its packet again and counting, up to the tenth time. */
  lemma SenderRepeats(c: Config, s: System, s': System, a: Arrival)
    requires ValidConfig(c) && SenderStep(c, s, s', a) && Trouble(s.snd.num, a) && s.snd.sndpkt != []
    ensures s.snd.retries < 10 ==>
              s' == s.(back := s'.back, fwd := s.fwd + [s.snd.sndpkt], snd := s.snd.(retries := s.snd.retries + 1))
    ensures s.snd.retries >= 10 ==>
              && s'.snd.status == Failed && s'.st == s.st && s'.sent == s.sent
              && s.snd.num < 64 && Sendable(c.m, 69, Complaint())
              && s'.fwd == s.fwd + [Wire(c.m, s.snd.num, 69, Complaint())]
  {
    hide Wire, Heard, Sendable, Complaint;
    MessageSendable(c.m, ERROR, Complaint());
  }

  /** So does the receiver, whose packet is an acknowledgement, or a NAK if it has none yet. */
  lemma ReceiverRepeats(c: Config, s: System, s': System, a: Arrival, data: seq<byte>)
    requires ValidConfig(c) && ReceiverStep(c, s, s', a, data) && Trouble(s.rcv.num, a)
    ensures s.rcv.retries < 10 && s.rcv.sndpkt != [] ==>
              s' == s.(fwd := s'.fwd, back := s.back + [s.rcv.sndpkt], rcv := s.rcv.(retries := s.rcv.retries + 1))
    ensures s.rcv.retries < 10 && s.rcv.sndpkt == [] ==>
              && s'.rs == s.rs && s'.accepted == s.accepted && Sendable(c.m, 78, [])
              && s'.back == s.back + [Wire(c.m, s.rcv.num, 78, [])] && s'.rcv.num == s.rcv.num && s'.rcv.status == Running
    ensures s.rcv.retries >= 10 ==> s'.rcv.status == Failed && s'.rs == s.rs && s'.accepted == s.accepted
  {
    hide Wire, Heard;
    MessageSendable(c.m, NAK, []);
  }

  /** A packet accepted is acknowledged under its number, with a Y. */
  lemma ReceiverAcknowledges(c: Config, s: System, s': System, a: Arrival, data: seq<byte>)
    requires ValidConfig(c) && ReceiverStep(c, s, s', a, data) && Accepts(s.rcv, a) && a.r.kind != 69
    requires Deliver(c, s.rs, Pkt(a.r.kind, a.r.data)).Some?
    ensures a.r.number == s.rcv.num && a.r.kind != 78
    ensures Sendable(c.m, 89, data) && s'.back == s.back + [Wire(c.m, s.rcv.num, 89, data)]
    ensures s'.rcv.num == (s.rcv.num + 1) % 64 && s'.rcv.retries == 0
    ensures Some(s'.rs) == Deliver(c, s.rs, Pkt(a.r.kind, a.r.data))
  {
    hide Wire, Heard, Sendable, Deliver;
  }

  /** A line loses a burst, repeats one, or damages one, but not so that it becomes another packet. */
  ghost predicate Disturbed(m: LineMode, q: seq<seq<byte>>, q': seq<seq<byte>>, i: nat, burst: seq<byte>)
    requires m.Valid()
  {
    && i < |q|
    && (|| q' == q[..i] + q[i + 1..]
        || q' == q[..i + 1] + q[i..]
        || (Harmless(m, q[i], burst) && q' == q[i := burst]))
  }

  ghost predicate LineStep(c: Config, s: System, s': System, i: nat, burst: seq<byte>)
    requires ValidConfig(c)
  {
    || (Disturbed(c.m, s.fwd, s'.fwd, i, burst) && s' == s.(fwd := s'.fwd))
    || (Disturbed(c.m, s.back, s'.back, i, burst) && s' == s.(back := s'.back))
  }

  ghost predicate Next(c: Config, s: System, s': System)
    requires ValidConfig(c)
  {
    || (exists a :: SenderStep(c, s, s', a))
    || (exists a, data :: ReceiverStep(c, s, s', a, data))
    || (exists i: nat, burst :: LineStep(c, s, s', i, burst))
  }

  /**
   * The first packet after the exchange of parameters has just been sent. The
   * receiver holds its acknowledgement of the packet before, if any.
   */
  ghost predicate Init(c: Config, jobs: seq<Job>, s: System)
    requires ValidConfig(c)
  {
    && (forall job <- jobs :: Healthy(c, job))
    && var idle := Sending(SsEof, Start([]), Job([], [], []), jobs, false, false);
       var mv := NextFile(c, idle);
       && Sendable(c.m, mv.pkt.kind, mv.pkt.data)
       && s.st == mv.st && s.pkt == mv.pkt
       && s.snd.num < 64
       && s.snd == Side(s.snd.num, 0, Wire(c.m, s.snd.num, mv.pkt.kind, mv.pkt.data), Running)
       && s.fwd == [s.snd.sndpkt] && s.back == []
       && s.rcv == Side(s.snd.num, 0, s.rcv.sndpkt, Running)
       && (s.rcv.sndpkt != [] ==> Reply(c.m, s.snd.num, s.pkt, s.rcv.sndpkt, false))
       && s.rs == Receiving(SrFil, [], [], [], false)
       && s.sent == [s.pkt] && s.accepted == []
  }

  // --------------------------------------------------------------- invariant

  /** What may be heard on the way to the receiver: the sender's packet, or one before it. */
  predicate FromSender(num: nat, pkt: Pkt, r: Received, current: bool)
    requires r.Good?
  {
    || r.kind == ERROR
    || (r.number == (if current then num else (num + 63) % 64) && (current ==> r.kind == pkt.kind && r.data == pkt.data))
  }

  /** And on the way back: an acknowledgement of that packet, or of one before it. */
  predicate FromReceiver(num: nat, pkt: Pkt, r: Received, current: bool)
    requires r.Good?
  {
    || r.kind == ERROR || r.kind == NAK
    || (r.number == (if current then num else (num + 63) % 64) && (current ==> r.kind == ACK && AckFor(pkt.kind, r.data)))
  }

  ghost predicate Copy(m: LineMode, num: nat, pkt: Pkt, burst: seq<byte>, current: bool)
    requires m.Valid()
  {
    forall a :: Heard(m, burst, a) && a.Packet? && a.r.Good? ==> FromSender(num, pkt, a.r, current)
  }

  ghost predicate Reply(m: LineMode, num: nat, pkt: Pkt, burst: seq<byte>, current: bool)
    requires m.Valid()
  {
    forall a :: Heard(m, burst, a) && a.Packet? && a.r.Good? ==> FromReceiver(num, pkt, a.r, current)
  }

  /** Older packets come before current ones. */
  predicate Ordered(tags: seq<bool>) {
    forall i, j :: 0 <= i < j < |tags| && tags[i] ==> tags[j]
  }

  predicate AllTags(tags: seq<bool>, t: bool) {
    forall i :: 0 <= i < |tags| ==> tags[i] == t
  }

  ghost predicate Copies(m: LineMode, num: nat, pkt: Pkt, q: seq<seq<byte>>, tags: seq<bool>)
    requires m.Valid()
  {
    |q| == |tags| && Ordered(tags) && forall i :: 0 <= i < |q| ==> Copy(m, num, pkt, q[i], tags[i])
  }

  ghost predicate Replies(m: LineMode, num: nat, pkt: Pkt, q: seq<seq<byte>>, tags: seq<bool>)
    requires m.Valid()
  {
    |q| == |tags| && Ordered(tags) && forall i :: 0 <= i < |q| ==> Reply(m, num, pkt, q[i], tags[i])
  }

  /** The receiver has accepted the sender's current packet. */
  predicate CaughtUp(s: System) {
    s.rcv.num != s.snd.num
  }

  /** An acknowledgement of the packet with this number and type. */
  ghost predicate IsAck(m: LineMode, num: nat, kind: byte, burst: seq<byte>)
    requires num < 64
  {
    exists data :: AckFor(kind, data) && Sendable(m, ACK, data) && burst == Wire(m, num, ACK, data)
  }

  /** Both ends by themselves: numbers, retries, and the packets they would send again. */
  ghost predicate EndsInv(c: Config, s: System)
    requires ValidConfig(c)
  {
    && s.snd.num < 64 && s.rcv.num < 64
    && (CaughtUp(s) ==> s.rcv.num == (s.snd.num + 1) % 64)
    && s.snd.retries <= MAX_TRY + 1 && s.rcv.retries <= MAX_TRY + 1
    && (s.snd.status == Running ==> s.snd.retries <= MAX_TRY)
    && (s.rcv.status == Running ==> s.rcv.retries <= MAX_TRY)
    && Sendable(c.m, s.pkt.kind, s.pkt.data)
    && (s.snd.status == Running ==> s.snd.sndpkt == Wire(c.m, s.snd.num, s.pkt.kind, s.pkt.data))
    && (s.rcv.status == Running && s.rcv.sndpkt != [] ==> Reply(c.m, s.snd.num, s.pkt, s.rcv.sndpkt, CaughtUp(s)))
    && (s.rcv.status == Running && CaughtUp(s) ==> IsAck(c.m, s.snd.num, s.pkt.kind, s.rcv.sndpkt))
  }

  /** What the two ends have done together. */
  ghost predicate FilesInv(c: Config, jobs: seq<Job>, s: System) {
    && s.pkt.kind == KindOf(s.st.phase)
    && OnScript(c, jobs, s.sent, s.st)
    && (if CaughtUp(s) then s.sent == s.accepted && InStep(c, jobs, s.st, s.rs)
        else
          && s.sent == s.accepted + [s.pkt]
          && Deliver(c, s.rs, s.pkt).Some? && InStep(c, jobs, s.st, Deliver(c, s.rs, s.pkt).value))
    && (s.snd.status == Finished ==> CaughtUp(s) && s.st.phase == SsEot)
    && (s.rcv.status == Finished ==> CaughtUp(s) && s.rs.stage == Ended)
    && (s.rcv.status == Running ==> s.rs.stage != Ended)
  }

  ghost predicate Inv(c: Config, jobs: seq<Job>, s: System, tf: seq<bool>, tb: seq<bool>)
    requires ValidConfig(c)
  {
    && EndsInv(c, s)
    && FilesInv(c, jobs, s)
    && Copies(c.m, s.snd.num, s.pkt, s.fwd, tf) && (CaughtUp(s) ==> AllTags(tf, true))
    && Replies(c.m, s.snd.num, s.pkt, s.back, tb) && (!CaughtUp(s) ==> AllTags(tb, false))
  }

  // ------------------------------------------------------ lemmas about lines

  /** What an end puts on the line itself is one of these. */
  lemma WireIsCopy(m: LineMode, num: nat, pkt: Pkt)
    requires num < 64 && Sendable(m, pkt.kind, pkt.data)
    ensures Copy(m, num, pkt, Wire(m, num, pkt.kind, pkt.data), true)
  {
    hide Wire, Heard;
    var w := Wire(m, num, pkt.kind, pkt.data);
    forall a | Heard(m, w, a) && a.Packet? && a.r.Good?
      ensures FromSender(num, pkt, a.r, true)
    {
      WireIsHeard(m, num, pkt.kind, pkt.data, a);
    }
  }

  lemma WireIsReply(m: LineMode, num: nat, pkt: Pkt, data: seq<byte>)
    requires num < 64 && Sendable(m, ACK, data) && AckFor(pkt.kind, data)
    ensures Reply(m, num, pkt, Wire(m, num, ACK, data), true)
  {
    hide Wire, Heard;
    var w := Wire(m, num, ACK, data);
    forall a | Heard(m, w, a) && a.Packet? && a.r.Good?
      ensures FromReceiver(num, pkt, a.r, true)
    {
      WireIsHeard(m, num, ACK, data, a);
    }
  }

  lemma ErrorIsHarmless(m: LineMode, n: nat, message: seq<byte>, num: nat, pkt: Pkt, current: bool)
    requires n < 64 && Sendable(m, ERROR, message)
    ensures Copy(m, num, pkt, Wire(m, n, ERROR, message), current)
    ensures Reply(m, num, pkt, Wire(m, n, ERROR, message), current)
  {
    hide Wire, Heard;
    var w := Wire(m, n, ERROR, message);
    forall a | Heard(m, w, a)
      ensures a == Packet(Good(ERROR, n, message))
    {
      WireIsHeard(m, n, ERROR, message, a);
    }
  }

  lemma NakIsReply(m: LineMode, n: nat, num: nat, pkt: Pkt, current: bool)
    requires n < 64 && Sendable(m, NAK, [])
    ensures Reply(m, num, pkt, Wire(m, n, NAK, []), current)
  {
    hide Wire, Heard;
    var w := Wire(m, n, NAK, []);
    forall a | Heard(m, w, a)
      ensures a == Packet(Good(NAK, n, []))
    {
      WireIsHeard(m, n, NAK, [], a);
    }
  }

  /** Once the sender goes on, everything about its packet is about the one before. */
  lemma Ages(m: LineMode, num: nat, pkt: Pkt, pkt': Pkt, burst: seq<byte>)
    requires m.Valid() && num < 64
    ensures Copy(m, num, pkt, burst, true) ==> Copy(m, (num + 1) % 64, pkt', burst, false)
    ensures Reply(m, num, pkt, burst, true) ==> Reply(m, (num + 1) % 64, pkt', burst, false)
  {
    hide Heard;
    assert ((num + 1) % 64 + 63) % 64 == num;
  }

  lemma CopiesAppend(m: LineMode, num: nat, pkt: Pkt, q: seq<seq<byte>>, tags: seq<bool>, burst: seq<byte>, t: bool)
    requires m.Valid() && Copies(m, num, pkt, q, tags) && Copy(m, num, pkt, burst, t) && (!t ==> AllTags(tags, false))
    ensures Copies(m, num, pkt, q + [burst], tags + [t])
  {
    hide Copy;
  }

  lemma RepliesAppend(m: LineMode, num: nat, pkt: Pkt, q: seq<seq<byte>>, tags: seq<bool>, burst: seq<byte>, t: bool)
    requires m.Valid() && Replies(m, num, pkt, q, tags) && Reply(m, num, pkt, burst, t) && (!t ==> AllTags(tags, false))
    ensures Replies(m, num, pkt, q + [burst], tags + [t])
  {
    hide Reply;
  }

  /** The tags of a line after a disturbance. */
  function Retag(q: seq<seq<byte>>, q': seq<seq<byte>>, tags: seq<bool>, i: nat): seq<bool>
    requires |q| == |tags| && i < |q|
  {
    if |q'| < |q| then tags[..i] + tags[i + 1..]
    else if |q'| > |q| then tags[..i + 1] + tags[i..]
    else tags
  }

  lemma RetagOrdered(q: seq<seq<byte>>, q': seq<seq<byte>>, tags: seq<bool>, i: nat, t: bool)
    requires |q| == |tags| && i < |q| && Ordered(tags)
    ensures Ordered(Retag(q, q', tags, i))
    ensures AllTags(tags, t) ==> AllTags(Retag(q, q', tags, i), t)
  {
  }

  lemma HarmlessKeeps(m: LineMode, num: nat, pkt: Pkt, was: seq<byte>, burst: seq<byte>, t: bool)
    requires m.Valid() && Harmless(m, was, burst)
    ensures Copy(m, num, pkt, was, t) ==> Copy(m, num, pkt, burst, t)
    ensures Reply(m, num, pkt, was, t) ==> Reply(m, num, pkt, burst, t)
  {
    hide Heard;
  }

  /** Where a burst on a disturbed line comes from. */
  function Origin(q: seq<seq<byte>>, q': seq<seq<byte>>, i: nat, j: nat): (k: nat) {
    if |q'| < |q| && j >= i then j + 1
    else if |q'| > |q| && j > i then j - 1
    else j
  }

  lemma RetagFollows(m: LineMode, q: seq<seq<byte>>, q': seq<seq<byte>>, tags: seq<bool>, i: nat, burst: seq<byte>)
    requires m.Valid() && |q| == |tags| && i < |q| && Disturbed(m, q, q', i, burst)
    ensures |Retag(q, q', tags, i)| == |q'|
    ensures forall j :: 0 <= j < |q'| ==>
              var k := Origin(q, q', i, j);
              && k < |q| && Retag(q, q', tags, i)[j] == tags[k]
              && (q'[j] == q[k] || (q'[j] == burst && Harmless(m, q[k], burst)))
  {
    hide Harmless;
  }

  lemma InLine(m: LineMode, q: seq<seq<byte>>, q': seq<seq<byte>>, i: nat, burst: seq<byte>)
    requires m.Valid() && Disturbed(m, q, q', i, burst)
    ensures i < |q|
  {
  }

  lemma DisturbedCopies(m: LineMode, num: nat, pkt: Pkt, q: seq<seq<byte>>, q': seq<seq<byte>>, tags: seq<bool>, i: nat, burst: seq<byte>)
    requires m.Valid() && Copies(m, num, pkt, q, tags) && Disturbed(m, q, q', i, burst)
    ensures Copies(m, num, pkt, q', Retag(q, q', tags, i))
  {
    hide Copy, Harmless, Disturbed, Retag, Ordered;
    InLine(m, q, q', i, burst);
    RetagOrdered(q, q', tags, i, true);
    RetagFollows(m, q, q', tags, i, burst);
    forall j | 0 <= j < |q'|
      ensures Copy(m, num, pkt, q'[j], Retag(q, q', tags, i)[j])
    {
      var k := Origin(q, q', i, j);
      assert Copy(m, num, pkt, q[k], tags[k]);
      if q'[j] != q[k] {
        HarmlessKeeps(m, num, pkt, q[k], burst, tags[k]);
      }
    }
  }

  lemma DisturbedReplies(m: LineMode, num: nat, pkt: Pkt, q: seq<seq<byte>>, q': seq<seq<byte>>, tags: seq<bool>, i: nat, burst: seq<byte>)
    requires m.Valid() && Replies(m, num, pkt, q, tags) && Disturbed(m, q, q', i, burst)
    ensures Replies(m, num, pkt, q', Retag(q, q', tags, i))
  {
    hide Reply, Harmless, Disturbed, Retag, Ordered;
    InLine(m, q, q', i, burst);
    RetagOrdered(q, q', tags, i, true);
    RetagFollows(m, q, q', tags, i, burst);
    forall j | 0 <= j < |q'|
      ensures Reply(m, num, pkt, q'[j], Retag(q, q', tags, i)[j])
    {
      var k := Origin(q, q', i, j);
      assert Reply(m, num, pkt, q[k], tags[k]);
      if q'[j] != q[k] {
        HarmlessKeeps(m, num, pkt, q[k], burst, tags[k]);
      }
    }
  }
}

/** One end of the line: packet numbers, retries and the last packet sent. */
module Stations {
  import opened Bytes
  import opened Crc
  import opened Parity
  import opened Framing

  const MAX_TRY := 10
  const MAX_PACKET := 9000

  const ACK: byte := 89      // Y
  const NAK: byte := 78      // N
  const ERROR: byte := 69    // E
  const TIMEOUT: byte := 84  // T
  const DAMAGED: byte := 81  // Q

  datatype Status = Running | Finished | Failed

  /** seq, retries, sndpkt, and whether the program still runs. */
  datatype Side = Side(num: nat, retries: nat, sndpkt: seq<byte>, status: Status)

  /** A side after an action, and what it put on the line. */
  datatype Act = Act(side: Side, out: seq<seq<byte>>)

  /** A data field that a packet can carry on this line. */
  predicate Sendable(m: LineMode, kind: byte, data: seq<byte>) {
    && m.Valid() && m.spadn == 0
    && |data| + m.bctu + 7 <= MAX_PACKET
    && Carried(m.par, [kind]) && Carried(m.par, data)
  }

  /** The octets of a packet as they go over the line. */
  function Wire(m: LineMode, n: nat, kind: byte, data: seq<byte>): (r: seq<byte>)
    requires Sendable(m, kind, data) && n < 64
    ensures r != []
  {
    OnLine(m.par, Packed(m, CR, n, kind, data))
  }

  /** spacket(). */
  function Send(m: LineMode, s: Side, kind: byte, data: seq<byte>): Act
    requires Sendable(m, kind, data) && s.num < 64
  {
    var w := Wire(m, s.num, kind, data);
    Act(s.(sndpkt := w), [w])
  }

  /** nxtpkt(). */
  function NxtPkt(s: Side): Side {
    s.(retries := 0, num := (s.num + 1) % 64)
  }

  function Octet(c: char): (b: byte)
    requires ' ' <= c <= '~'
    ensures 32 <= b < 127
  {
    c as int
  }

  /** A message for the other end. */
  function Ascii(t: string): (r: seq<byte>)
    requires |t| <= 100 && forall i :: 0 <= i < |t| ==> ' ' <= t[i] <= '~'
    ensures Printable(r) && |r| == |t|
  {
    seq(|t|, i requires 0 <= i < |t| => Octet(t[i]))
  }

  function Complaint(): (r: seq<byte>)
    ensures Printable(r) && |r| <= 100
  {
    Ascii("Too many retries")
  }

  /** errpkt(): tells the other end and exits. */
  function ErrPkt(m: LineMode, s: Side, message: seq<byte>): Act
    requires Sendable(m, ERROR, message) && s.num < 64
  {
    var a := Send(m, s, ERROR, message);
    a.(side := a.side.(status := Failed))
  }

  lemma MessageSendable(m: LineMode, kind: byte, message: seq<byte>)
    requires m.Valid() && m.spadn == 0 && |message| <= 100 && Printable(message) && 32 <= kind < 127
    ensures Sendable(m, kind, message)
  {
    PrintableCarried(m.par, message);
    PrintableCarried(m.par, [kind]);
  }

  function TooManyRetries(m: LineMode, s: Side): Act
    requires m.Valid() && m.spadn == 0 && s.num < 64
  {
    var message := Complaint();
    MessageSendable(m, ERROR, message);
    ErrPkt(m, s, message)
  }

  /** nak(). */
  function Nak(m: LineMode, s: Side): Act
    requires m.Valid() && m.spadn == 0 && s.num < 64
  {
    var t := s.(retries := s.retries + 1);
    MessageSendable(m, NAK, []);
    if t.retries > MAX_TRY then TooManyRetries(m, t) else Send(m, t, NAK, [])
  }

  /** resend(). */
  function Resend(m: LineMode, s: Side): Act
    requires m.Valid() && m.spadn == 0 && s.num < 64
  {
    if s.sndpkt == [] then Nak(m, s)
    else
      var t := s.(retries := s.retries + 1);
      if t.retries > MAX_TRY then TooManyRetries(m, t) else Act(t, [s.sndpkt])
  }

  // ---------------------------------------------------------------- listening

  /** What rpacket() reports: a timeout, the loss of the line, or a packet. */
  datatype Arrival = Silence | Hangup | Packet(r: Received)

  /**
   * Whether a burst of octets may be reported as `a`. A packet is examined in a
   * buffer that still holds older octets behind it.
   */
  ghost predicate Heard(m: LineMode, burst: seq<byte>, a: Arrival)
    requires m.Valid()
  {
    match TtInl(m.par, MAX_PACKET, 0, burst)
    case Got(pkt, _) => exists buf: seq<byte> :: |pkt| <= |buf| && buf[..|pkt|] == pkt && a == Packet(Parse(m, buf, |pkt|))
    case Starved => a == Silence
    case _ => a == Hangup
  }

  /** input()'s test for leaving its loop: the right number, and not a timeout, an error or a NAK. */
  predicate Accepts(s: Side, a: Arrival) {
    a.Packet? && a.r.Good? && a.r.number == s.num && a.r.kind !in {TIMEOUT, DAMAGED, NAK, NUL}
  }

  lemma WireIsFrame(m: LineMode, n: nat, kind: byte, data: seq<byte>)
    requires Sendable(m, kind, data) && n < 64
    ensures |Frame(m, n, kind, data)| <= MAX_PACKET
    ensures Wire(m, n, kind, data) == [] + (OnLine(m.par, Frame(m, n, kind, data)) + [DoPar(m.par, CR)])
  {
    hide Frame, DoPar;
    FrameLength(m, n, kind, data);
    assert Rep(m.spadc, 0) == [];
    assert Packed(m, CR, n, kind, data) == Frame(m, n, kind, data) + [CR];
  }

  /** A packet put on the line undamaged is heard as it was sent, and only so. */
  lemma WireIsHeard(m: LineMode, n: nat, kind: byte, data: seq<byte>, a: Arrival)
    requires Sendable(m, kind, data) && n < 64 && Heard(m, Wire(m, n, kind, data), a)
    ensures a == Packet(Good(kind, n, data))
  {
    hide Frame, Parse, TtInl, Wire, DoPar;
    var f := Frame(m, n, kind, data);
    WireIsFrame(m, n, kind, data);
    FrameIsRead(m, n, kind, data, [], [DoPar(m.par, CR)], MAX_PACKET);
    var buf: seq<byte> :| |f| <= |buf| && buf[..|f|] == f && a == Packet(Parse(m, buf, |f|));
    FrameRoundTrip(m, n, kind, data, buf);
  }

  /** The acknowledgement of packet 0 as it goes over a line without parity. */
  lemma FirstAckOnTheLine(m: LineMode)
    requires m.bctu == 1 && m.par == NoParity && m.spadn == 0
    ensures Sendable(m, 89, []) && Wire(m, 0, 89, []) == [1, 35, 32, 89, 62, 13]
  {
    hide Frame;
    MessageSendable(m, 89, []);
    FirstAckShort(m);
    var w := Wire(m, 0, 89, []);
    WireIsFrame(m, 0, 89, []);
    assert w == [1, 35, 32, 89, 62] + [13];
  }

  /** Damage that makes no other packet of what was sent: if any packet is heard, it is one that was heard before. */
  ghost predicate Harmless(m: LineMode, was: seq<byte>, burst: seq<byte>)
    requires m.Valid()
  {
    forall a :: Heard(m, burst, a) && a.Packet? && a.r.Good? ==> Heard(m, was, a)
  }

  /**
   * With the CRC, damage to at most two adjacent octets of a packet, its length
   * apart, is of this kind.
   */
  lemma SmallDamageIsHarmless(m: LineMode, n: nat, kind: byte, data: seq<byte>, at: nat, hit: seq<byte>)
    requires Sendable(m, kind, data) && n < 64 && m.bctu == 3
    requires |hit| <= 2 && Readable(m.par, hit)
    requires OffLength(m, |data|, at, |hit|) && at + |hit| <= |Frame(m, n, kind, data)|
    ensures Harmless(m, Wire(m, n, kind, data),
                     OnLine(m.par, Damaged(Frame(m, n, kind, data), at, hit)) + [DoPar(m.par, CR)])
  {
    var f := Frame(m, n, kind, data);
    var g := Damaged(f, at, hit);
    var burst := OnLine(m.par, g) + [DoPar(m.par, CR)];
    FrameLength(m, n, kind, data);
    DamagedIsRead(m, n, kind, data, at, hit, [DoPar(m.par, CR)], MAX_PACKET);
    WireCanBeHeard(m, n, kind, data);
    hide Frame, Parse, TtInl, Damaged, DoPar, Wire;
    forall a | Heard(m, burst, a) && a.Packet? && a.r.Good?
      ensures a == Packet(Good(kind, n, data))
    {
      var buf: seq<byte> :| |g| <= |buf| && buf[..|g|] == g && a == Packet(Parse(m, buf, |g|));
      DamageIsHarmless(m, n, kind, data, at, hit, buf);
    }
  }

  /** Heard as sent is one way of hearing. */
  lemma WireCanBeHeard(m: LineMode, n: nat, kind: byte, data: seq<byte>)
    requires Sendable(m, kind, data) && n < 64
    ensures Heard(m, Wire(m, n, kind, data), Packet(Good(kind, n, data)))
  {
    hide Wire;
    var a := SomethingHeard(m, Wire(m, n, kind, data));
    WireIsHeard(m, n, kind, data, a);
  }

  lemma SomethingHeard(m: LineMode, burst: seq<byte>) returns (a: Arrival)
    requires m.Valid()
    ensures Heard(m, burst, a)
  {
    hide TtInl, Parse;
    match TtInl(m.par, MAX_PACKET, 0, burst)
    case Got(pkt, _) =>
      a := Packet(Parse(m, pkt, |pkt|));
      assert pkt[..|pkt|] == pkt;
    case Starved => a := Silence;
    case Overflow => a := Hangup;
    case Interrupted => a := Hangup;
  }

  // --------------------------------------------------------------- in place

  /** The same end with its variables changed in place. */
  class Station {
    const m: LineMode
    var num: nat
    var retries: nat
    var sndpkt: seq<byte>
    var status: Status
    var out: seq<seq<byte>>  // everything put on the line

    ghost predicate Valid()
      reads this
    {
      m.Valid() && m.spadn == 0 && num < 64
    }

    ghost function Value(): Side
      reads this
    {
      Side(num, retries, sndpkt, status)
    }

    constructor (m: LineMode, s: Side)
      requires m.Valid() && m.spadn == 0 && s.num < 64
      ensures Valid() && Value() == s && this.m == m && out == []
    {
      this.m := m;
      num, retries, sndpkt, status, out := s.num, s.retries, s.sndpkt, s.status, [];
    }

    method Spacket(kind: byte, data: seq<byte>)
      requires Valid() && Sendable(m, kind, data)
      modifies this`sndpkt, this`out
      ensures Act(Value(), out) == var a := Send(m, old(Value()), kind, data); Act(a.side, old(out) + a.out)
    {
      sndpkt := Wire(m, num, kind, data);
      out := out + [sndpkt];
    }

    method Nxtpkt()
      requires Valid()
      modifies this`num, this`retries
      ensures Valid() && Value() == NxtPkt(old(Value()))
    {
      retries := 0;
      num := (num + 1) % 64;
    }

    method Errpkt(message: seq<byte>)
      requires Valid() && Sendable(m, ERROR, message)
      modifies this`sndpkt, this`out, this`status
      ensures Act(Value(), out) == var a := ErrPkt(m, old(Value()), message); Act(a.side, old(out) + a.out)
    {
      Spacket(ERROR, message);
      status := Failed;
    }

    /** ack1(), and ack() with no data. */
    method Ack1(data: seq<byte>)
      requires Valid() && Sendable(m, ACK, data)
      modifies this`num, this`retries, this`sndpkt, this`out
      ensures Valid()
      ensures var a := Send(m, old(Value()), ACK, data); Value() == NxtPkt(a.side) && out == old(out) + a.out
    {
      Spacket(ACK, data);
      Nxtpkt();
    }

    method GiveUp()
      requires Valid()
      modifies this`sndpkt, this`out, this`status
      ensures Act(Value(), out) == var a := TooManyRetries(m, old(Value())); Act(a.side, old(out) + a.out)
    {
      MessageSendable(m, ERROR, Complaint());
      Errpkt(Complaint());
    }

    method SendNak()
      requires Valid()
      modifies this`retries, this`sndpkt, this`out, this`status
      ensures Act(Value(), out) == var a := Nak(m, old(Value())); Act(a.side, old(out) + a.out)
    {
      retries := retries + 1;
      if retries > MAX_TRY {
        GiveUp();
      } else {
        MessageSendable(m, NAK, []);
        Spacket(NAK, []);
      }
    }

    method SendAgain()
      requires Valid()
      modifies this`retries, this`sndpkt, this`out, this`status
      ensures Act(Value(), out) == var a := Resend(m, old(Value())); Act(a.side, old(out) + a.out)
    {
      if sndpkt != [] {
        retries := retries + 1;
        if retries > MAX_TRY {
          GiveUp();
        } else {
          out := out + [sndpkt];
        }
      } else {
        SendNak();
      }
    }

    /** input(), on the reports of successive rpacket() calls: how many it used up. */
    method Input(arrivals: seq<Arrival>) returns (used: nat)
      requires Valid() && status == Running
      modifies this`retries, this`sndpkt, this`out, this`status
      ensures Valid() && used <= |arrivals|
      ensures forall i :: 0 <= i < used ==> !Accepts(old(Value()), arrivals[i])
      ensures Act(Value(), out) == Waits(m, old(Value()), arrivals[..used], old(out))
      ensures used < |arrivals| ==> arrivals[used].Hangup? || status != Running || Accepts(Value(), arrivals[used])
    {
      used := 0;
      while used < |arrivals| && status == Running && !arrivals[used].Hangup? && !Accepts(Side(num, retries, sndpkt, status), arrivals[used])
        invariant Valid() && used <= |arrivals| && num == old(num)
        invariant forall i :: 0 <= i < used ==> !Accepts(old(Value()), arrivals[i])
        invariant Act(Value(), out) == Waits(m, old(Value()), arrivals[..used], old(out))
      {
        SendAgain();
        used := used + 1;
        assert arrivals[..used][..used - 1] == arrivals[..used - 1];
      }
    }
  }

  /** A side that answers each of some unacceptable arrivals by sending again. */
  function Waits(m: LineMode, s: Side, arrivals: seq<Arrival>, out: seq<seq<byte>>): (r: Act)
    requires m.Valid() && m.spadn == 0 && s.num < 64
    ensures r.side.num == s.num
  {
    if arrivals == [] then Act(s, out)
    else
      var before := Waits(m, s, arrivals[..|arrivals| - 1], out);
      var a := Resend(m, before.side);
      Act(a.side, before.out + a.out)
  }

  function Times(packet: seq<byte>, n: nat): (r: seq<seq<byte>>)
    ensures |r| == n && forall i :: 0 <= i < n ==> r[i] == packet
  {
    if n == 0 then [] else Times(packet, n - 1) + [packet]
  }

  lemma GivingUpFails(m: LineMode, s: Side)
    requires m.Valid() && m.spadn == 0 && s.num < 64
    ensures TooManyRetries(m, s).side.status == Failed
  {
  }

  /**
   * A packet is sent again for each of the first ten arrivals that are no
   * answer to it, unchanged; at the eleventh the program says so and gives up.
   */
  lemma {:induction false} GivesUpAtTheEleventh(m: LineMode, s: Side, arrivals: seq<Arrival>, out: seq<seq<byte>>)
    requires m.Valid() && m.spadn == 0 && s.num < 64 && s.status == Running && s.retries == 0 && s.sndpkt != []
    requires |arrivals| <= MAX_TRY + 1
    ensures var a := Waits(m, s, arrivals, out);
            if |arrivals| <= MAX_TRY then
              a == Act(s.(retries := |arrivals|), out + Times(s.sndpkt, |arrivals|))
            else
              var g := TooManyRetries(m, s.(retries := MAX_TRY + 1));
              a == Act(g.side, out + Times(s.sndpkt, MAX_TRY) + g.out) && g.side.status == Failed
    decreases |arrivals|
  {
    hide TooManyRetries, Nak, Accepts;
    GivingUpFails(m, s.(retries := MAX_TRY + 1));
    if arrivals == [] {
      assert out + [] == out;
    } else {
      var before := arrivals[..|arrivals| - 1];
      GivesUpAtTheEleventh(m, s, before, out);
      assert out + Times(s.sndpkt, |before|) + [s.sndpkt] == out + (Times(s.sndpkt, |before|) + [s.sndpkt]);
    }
  }
}

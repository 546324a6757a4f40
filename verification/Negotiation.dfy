/** The exchange of protocol parameters: rpar() and spar(). */
module Negotiation {
  import opened Bytes
  import opened Codec

  const MAX_SP := 9000
  const MAX_RP := 9000
  const YES: byte := 89
  const AMPERSAND: byte := 38
  const TILDE: byte := 126
  const NUMBER_SIGN: byte := 35

  /** What the command line sets: parity, receive lengths, and whether the transfer mode is fixed. */
  datatype Local = Local(parity: bool, rpsiz: nat, urpsiz: nat, manual: bool) {
    /** Receive lengths as the -e option allows them. */
    predicate Configured() {
      40 <= urpsiz <= MAX_RP && rpsiz == (if urpsiz > 94 then 94 else urpsiz)
    }
  }

  /** How to send to the other end: limit, timeout, padding, terminator, and its control prefix. */
  datatype Basic = Basic(spsiz: int, timint: int, spadn: int, spadc: byte, seol: byte, rctlq: byte)

  /** 8th-bit prefixing: the bids received and sent, the flag of the last bid, the prefix, and whether it is on. */
  datatype Eighth = Eighth(rq: byte, sq: byte, rqf: int, ebq: byte, on: bool)

  /** Block check type and repeat prefix. */
  datatype Checks = Checks(bctr: int, rptq: byte, rptOn: bool)

  datatype Features = Features(attributes: bool, longpackets: bool, streamok: int, text: bool, literal: bool)

  // ------------------------------------------------------------------- rpar

  /** The 8th-bit bid of rpar(). */
  function Bid(l: Local, e: Eighth): Eighth {
    if (e.rqf == -1 || e.rqf == 1) && l.parity then e.(ebq := AMPERSAND, sq := AMPERSAND) else e
  }

  function WhatAmI(f: Features): (x: nat)
    ensures 32 <= x < 64
  {
    32 + (if f.literal then 4 else 0) + (if f.text then 0 else 2) + (if f.streamok > -1 then 8 else 0)
  }

  /**
   * The string rpar() leaves in xdata. With a short receive length the two
   * octets of the long length stay NUL in a fresh buffer, so the string ends there.
   */
  function Offer(l: Local, e: Eighth, c: Checks, f: Features): (r: seq<byte>)
    requires l.urpsiz <= MAX_RP && 1 <= c.bctr <= 3
    ensures |r| == if l.urpsiz > 94 then 22 else 11
  {
    OfferShort(l, e, c) + (if l.urpsiz > 94 then OfferLong(l, f) else [])
  }

  function OfferShort(l: Local, e: Eighth, c: Checks): (r: seq<byte>)
    requires 1 <= c.bctr <= 3
    ensures |r| == 11
  {
    [ToChar(if l.rpsiz > 94 then 94 else l.rpsiz), ToChar(7), ToChar(0), Ctl(0), ToChar(CR), NUMBER_SIGN, e.sq, c.bctr + 48,
     if c.rptOn then c.rptq else TILDE, ToChar(10), ToChar(1)]
  }

  function OfferLong(l: Local, f: Features): (r: seq<byte>)
    requires l.urpsiz <= MAX_RP
    ensures |r| == 11
  {
    [ToChar(l.urpsiz / 95), ToChar(l.urpsiz % 95), 48, 43, 43, 43, ToChar(WhatAmI(f)), ToChar(2), 85, 49,
     ToChar(32 + if l.manual then 1 else 0)]
  }

  // ------------------------------------------------------------------- spar

  /** s[k] of a NUL-terminated field list numbered from 1. */
  function Field(d: seq<byte>, k: int): byte {
    if 1 <= k <= |d| then d[k - 1] else NUL
  }

  function Num(d: seq<byte>, k: int): int {
    UnChar(Field(d, k))
  }

  /** Fields 1 to 6. */
  function BasicOf(b: Basic, d: seq<byte>): Basic {
    var rln := |d|;
    var size := if rln >= 1 then Num(d, 1) else 80;
    var time := if rln >= 2 then Num(d, 2) else 5;
    var eol: int := if rln >= 5 then Num(d, 5) else CR;
    var x := if rln >= 6 then Field(d, 6) else NUMBER_SIGN;
    Basic(if size < 10 then 80 else size,
          if b.timint > 0 then (if time < 0 then 5 else time) else b.timint,
          if rln >= 3 then Num(d, 3) else 0,
          if rln >= 4 then Ctl(Field(d, 4)) else NUL,
          if 2 <= eol <= 31 then eol else CR,
          if PrefixChar(x) then x else NUMBER_SIGN)
  }

  /** Field 7: a bid of 'Y' is agreement, a prefix character a demand, anything else refusal. */
  function EighthOf(l: Local, e: Eighth, rq: byte): Eighth {
    if rq == YES then
      if l.parity then e.(rq := rq, rqf := 1, on := true, ebq := AMPERSAND) else e.(rq := rq, rqf := 1)
    else if PrefixChar(rq) then
      if e.ebq == e.sq || e.sq == YES then e.(rq := rq, rqf := 2, on := true, ebq := rq)
      else e.(rq := rq, rqf := 2, on := false)
    else
      e.(rq := rq, rqf := 0, on := false)
  }

  /** Fields 8 and 9. */
  function ChecksOf(c: Checks, d: seq<byte>): Checks {
    var asked := if |d| >= 8 && 1 <= Field(d, 8) - 48 <= 3 then Field(d, 8) - 48 else 1;
    var bctr := if c.bctr > 1 && c.bctr != asked then 1 else asked;
    if |d| >= 9 then Checks(bctr, Field(d, 9), PrefixChar(Field(d, 9))) else Checks(bctr, c.rptq, false)
  }

  /** The last octet of the capability mask, from field k on. */
  function CapasEnd(d: seq<byte>, k: nat): (r: nat)
    ensures r >= k
    decreases |d| + 1 - k
  {
    if k <= |d| && Num(d, k) % 2 == 1 then CapasEnd(d, k + 1) else k
  }

  /** Where the fields after the capabilities are counted from. */
  function Last(d: seq<byte>): nat {
    if |d| >= 10 then CapasEnd(d, 10) else |d|
  }

  /** Field 10, and the fields that follow the capability mask. */
  function FeaturesOf(l: Local, f: Features, d: seq<byte>): Features {
    var k := Last(d);
    var x := if |d| >= 10 then Num(d, 10) else 0;
    var peer := IsPeer(l, d, k);
    Features(f.attributes || x / 8 % 2 == 1, f.longpackets || x / 2 % 2 == 1,
             if |d| > k + 7 && f.streamok > -1 && Num(d, k + 8) / 32 % 2 == 1 && Num(d, k + 8) / 8 % 2 == 1 then 1
             else f.streamok,
             f.text && !peer, f.literal || peer)
  }

  /** The other end names itself a UNIX system, and the transfer mode is not fixed. */
  predicate IsPeer(l: Local, d: seq<byte>, k: nat) {
    |d| > k + 8 &&
    var x := Num(d, k + 9);
    && 2 <= x < 16 && |d| >= k + 9 + x && !l.manual
    && Field(d, k + 10) == 85 && Field(d, k + 11) == 49 && (x == 2 || Field(d, k + 12) == NUL)
  }

  /** The packet length after the long-packet fields. */
  function LengthOf(spsiz: int, longpackets: bool, d: seq<byte>): int {
    var k := Last(d);
    if |d| > k + 1 && longpackets then
      var x := Num(d, k + 2) * 95 + Num(d, k + 3);
      var size := if x > MAX_SP then MAX_SP else x;
      if size < 10 then 80 else size
    else spsiz
  }

  // ------------------------------------------------------------- the two ends

  /** The parameters of one end as a value. */
  datatype Settings = Settings(local: Local, basic: Basic, eighth: Eighth, checks: Checks, features: Features)

  /** tinit(), as far as it concerns the parameters. */
  function Fresh(s: Settings): Settings {
    s.(eighth := s.eighth.(on := false, sq := YES, rqf := -1), checks := s.checks.(rptOn := false))
  }

  function OfferOf(s: Settings): seq<byte>
    requires s.local.Configured() && 1 <= s.checks.bctr <= 3
  {
    Offer(s.local, s.eighth, s.checks, s.features)
  }

  /** spar() on a received field list. */
  function Adopt(s: Settings, d: seq<byte>): Settings {
    var basic := BasicOf(s.basic, d);
    var features := FeaturesOf(s.local, s.features, d);
    Settings(s.local, basic.(spsiz := LengthOf(basic.spsiz, features.longpackets, d)),
             EighthOf(s.local, s.eighth, if |d| >= 7 then Field(d, 7) else NUL),
             ChecksOf(s.checks, d), features)
  }

  /** The same parameters, changed in place. */
  class Negotiator {
    const local: Local
    var basic: Basic
    var eighth: Eighth
    var checks: Checks
    var features: Features

    ghost function Value(): Settings
      reads this
    {
      Settings(local, basic, eighth, checks, features)
    }

    constructor (s: Settings)
      ensures Value() == s
    {
      local, basic, eighth, checks, features := s.local, s.basic, s.eighth, s.checks, s.features;
    }

    method TInit()
      modifies this
      ensures Value() == Fresh(old(Value()))
    {
      eighth := eighth.(on := false);
      checks := checks.(rptOn := false);
      eighth := eighth.(sq := YES, rqf := -1);
    }

    /** rpar() into a fresh buffer, read back as a string. */
    method RPar() returns (fields: seq<byte>)
      requires local.urpsiz <= MAX_RP && 1 <= checks.bctr <= 3
      modifies this`eighth
      ensures eighth == Bid(local, old(eighth)) && fields == Offer(local, eighth, checks, features)
    {
      if eighth.rqf == -1 || eighth.rqf == 1 {
        if local.parity {
          eighth := eighth.(ebq := AMPERSAND, sq := AMPERSAND);
        }
      }
      var rpt := TILDE;
      if checks.rptOn {
        rpt := checks.rptq;
      }
      var short := local.rpsiz;
      if short > 94 {
        short := 94;
      }
      fields := [ToChar(short), ToChar(7), ToChar(0), Ctl(0), ToChar(CR),
                 NUMBER_SIGN, eighth.sq, checks.bctr + 48, rpt, ToChar(2 + 8), ToChar(1)];
      assert fields == OfferShort(local, eighth, checks);
      if local.urpsiz > 94 {
        var x := 32;
        if features.literal {
          x := x + 4;
        }
        if !features.text {
          x := x + 2;
        }
        if features.streamok > -1 {
          x := x + 8;
        }
        var y := 32;
        if local.manual {
          y := y + 1;
        }
        var more := [ToChar(local.urpsiz / 95), ToChar(local.urpsiz % 95), 48, 43, 43, 43,
                     ToChar(x), ToChar(2), 85, 49, ToChar(y)];
        assert more == OfferLong(local, features);
        fields := fields + more;
      }
    }

    /** The switch on rqf in spar(). */
    method SetEighth(rq: byte)
      modifies this`eighth
      ensures eighth == EighthOf(local, old(eighth), rq)
    {
      eighth := eighth.(rq := rq);
      if rq == YES {
        eighth := eighth.(rqf := 1);
        if local.parity {
          eighth := eighth.(on := true, ebq := AMPERSAND);
        }
      } else if PrefixChar(rq) {
        eighth := eighth.(rqf := 2);
        eighth := eighth.(on := eighth.ebq == eighth.sq || eighth.sq == YES);
        if eighth.on {
          eighth := eighth.(ebq := rq);
        }
      } else {
        eighth := eighth.(rqf := 0, on := false);
      }
    }

    /** Block check and repeat prefix in spar(). */
    method SetChecks(d: seq<byte>)
      modifies this`checks
      ensures checks == ChecksOf(old(checks), d)
    {
      var x: int := 1;
      if |d| >= 8 {
        x := Field(d, 8) - 48;
        if x < 1 || x > 3 {
          x := 1;
        }
      }
      if checks.bctr > 1 && checks.bctr != x {
        x := 1;
      }
      checks := checks.(bctr := x);
      if |d| >= 9 {
        checks := checks.(rptq := Field(d, 9));
        checks := checks.(rptOn := PrefixChar(checks.rptq));
      } else {
        checks := checks.(rptOn := false);
      }
    }

    /** Capabilities and what follows them in spar(). */
    method SetFeatures(d: seq<byte>)
      modifies this`features, this`basic
      ensures features == FeaturesOf(local, old(features), d)
      ensures basic == old(basic).(spsiz := LengthOf(old(basic).spsiz, features.longpackets, d))
    {
      var rln := |d|;
      var k := rln;
      if rln >= 10 {
        var x := Num(d, 10);
        if x / 8 % 2 == 1 {
          features := features.(attributes := true);
        }
        if x / 2 % 2 == 1 {
          features := features.(longpackets := true);
        }
        k := 10;
        while rln >= k && Num(d, k) % 2 == 1
          invariant k >= 10 && CapasEnd(d, 10) == CapasEnd(d, k)
          decreases rln + 1 - k
        {
          k := k + 1;
        }
      }
      assert k == Last(d);
      if rln > k + 1 {
        if features.longpackets {
          var x := Num(d, k + 2) * 95 + Num(d, k + 3);
          basic := basic.(spsiz := if x > MAX_SP then MAX_SP else x);
          if basic.spsiz < 10 {
            basic := basic.(spsiz := 80);
          }
        }
      }
      if rln > k + 7 {
        var x := Num(d, k + 8);
        if features.streamok > -1 && x / 32 % 2 == 1 && x / 8 % 2 == 1 {
          features := features.(streamok := 1);
        }
      }
      if IsPeer(local, d, k) {
        features := features.(text := false, literal := true);
      }
    }

    /** spar(). */
    method SPar(d: seq<byte>)
      modifies this
      ensures Value() == Adopt(old(Value()), d)
    {
      hide BasicOf, EighthOf, ChecksOf, FeaturesOf, LengthOf;
      basic := BasicOf(basic, d);
      SetEighth(if |d| >= 7 then Field(d, 7) else NUL);
      SetChecks(d);
      SetFeatures(d);
    }
  }

  // -------------------------------------------------- what the exchange gives

  /** Both ends after the S packet and its acknowledgement. */
  datatype Pair = Pair(sender: Settings, receiver: Settings)

  function Bidding(s: Settings): Settings {
    s.(eighth := Bid(s.local, s.eighth))
  }

  predicate Ready(s: Settings) {
    s.local.Configured() && 1 <= s.checks.bctr <= 3
  }

  lemma AdoptReady(s: Settings, d: seq<byte>)
    requires Ready(s)
    ensures Ready(Adopt(s, d)) && Adopt(s, d).local == s.local
  {
    hide BasicOf, EighthOf, FeaturesOf, LengthOf;
  }

  function Receive(r: Settings, offer: seq<byte>): (r': Settings)
    requires Ready(r)
    ensures Ready(r')
  {
    AdoptReady(r, offer);
    Bidding(Adopt(r, offer))
  }

  /** The sender's rpar(), the receiver's spar() and rpar(), the sender's spar(). */
  function Exchange(s: Settings, r: Settings): Pair
    requires Ready(s) && Ready(r)
  {
    var s1 := Bidding(Fresh(s));
    var r1 := Receive(Fresh(r), OfferOf(s1));
    Pair(Adopt(s1, OfferOf(r1)), r1)
  }

  /** The exchange as the two programs run it, on their own variables. */
  method RunExchange(s: Negotiator, r: Negotiator)
    requires s != r && Ready(s.Value()) && Ready(r.Value())
    modifies s, r
    ensures Pair(s.Value(), r.Value()) == Exchange(old(s.Value()), old(r.Value()))
  {
    hide Adopt, Offer, Bid;
    s.TInit();
    r.TInit();
    var offer := s.RPar();
    AdoptReady(r.Value(), offer);
    r.SPar(offer);
    var answer := r.RPar();
    s.SPar(answer);
  }

  /** An offer is understood as it was meant. */
  lemma OfferFields(s: Settings)
    requires Ready(s)
    ensures var d := OfferOf(s);
            && |d| >= 11 && Last(d) == 10
            && Num(d, 1) == s.local.rpsiz && Num(d, 3) == 0 && Num(d, 5) == CR && Field(d, 6) == NUMBER_SIGN
            && Field(d, 7) == s.eighth.sq && Field(d, 8) == s.checks.bctr + 48
            && Field(d, 9) == (if s.checks.rptOn then s.checks.rptq else TILDE)
            && Num(d, 10) == 10
            && (s.local.urpsiz > 94 ==> |d| > 11 && Num(d, 12) * 95 + Num(d, 13) == s.local.urpsiz)
            && (s.local.urpsiz <= 94 ==> |d| == 11)
  {
    var d := OfferOf(s);
    var short := OfferShort(s.local, s.eighth, s.checks);
    assert forall k :: 1 <= k <= 11 ==> Field(d, k) == short[k - 1];
    assert Num(d, 10) == 10;
    assert CapasEnd(d, 10) == 10;
    if s.local.urpsiz > 94 {
      var long := OfferLong(s.local, s.features);
      assert Field(d, 12) == long[0] && Field(d, 13) == long[1];
    }
  }

  /** What an end learns from an offer. */
  lemma OfferAdopted(t: Settings, s: Settings)
    requires Ready(t) && Ready(s)
    ensures var a := Adopt(t, OfferOf(s));
            && a.local == t.local
            && a.basic.spsiz == s.local.urpsiz && a.basic.spadn == 0 && a.basic.seol == CR && a.basic.rctlq == NUMBER_SIGN
            && a.eighth == EighthOf(t.local, t.eighth, s.eighth.sq)
            && a.checks.bctr == (if t.checks.bctr > 1 && t.checks.bctr != s.checks.bctr then 1 else s.checks.bctr)
            && a.checks.rptq == (if s.checks.rptOn then s.checks.rptq else TILDE)
            && a.checks.rptOn == PrefixChar(a.checks.rptq)
            && a.features.longpackets
  {
    hide OfferOf, EighthOf, IsPeer, Last;
    OfferFields(s);
  }

  /** The prefixes an end uses, as sender or as receiver. */
  function PrefixesOf(s: Settings): Prefixes {
    Prefixes(s.basic.rctlq, s.eighth.on, s.eighth.ebq, s.checks.rptOn, s.checks.rptq)
  }

  /**
   * Two ends with any parity, receive lengths and block check preferences agree
   * on everything the data phase depends on. 8th-bit prefixing is on at both
   * exactly when one of them uses parity, run-length encoding always; the prefixes
   * are distinct; and each may send what the other said it can receive.
   */
  lemma EndsAgree(s: Settings, r: Settings)
    requires Ready(s) && Ready(r) && s.eighth.ebq == AMPERSAND && r.eighth.ebq == AMPERSAND
    ensures var p := Exchange(s, r);
            && PrefixesOf(p.sender) == PrefixesOf(p.receiver) && PrefixesOf(p.sender).Usable()
            && p.sender.basic.rctlq == NUMBER_SIGN
            && p.sender.eighth.on == (s.local.parity || r.local.parity)
            && p.sender.checks == p.receiver.checks && p.sender.checks.rptOn
            && p.sender.checks.bctr == (if r.checks.bctr == 1 || r.checks.bctr == s.checks.bctr then s.checks.bctr else 1)
            && p.sender.basic.spadn == p.receiver.basic.spadn == 0
            && p.sender.basic.spsiz == r.local.urpsiz && p.receiver.basic.spsiz == s.local.urpsiz
  {
    hide Adopt, OfferOf;
    var s1 := Bidding(Fresh(s));
    OfferAdopted(Fresh(r), s1);
    var r1 := Receive(Fresh(r), OfferOf(s1));
    OfferAdopted(s1, r1);
  }

  /**
   * Ends that prefer different block checks fall back to type 1, as the manual
   * says, exactly if it is not the receiver alone that prefers type 1: a receiver
   * that does takes over what the sender prefers.
   */
  lemma DisagreeingEndsFallBack(s: Settings, r: Settings)
    requires Ready(s) && Ready(r) && s.eighth.ebq == AMPERSAND && r.eighth.ebq == AMPERSAND
    requires s.checks.bctr != r.checks.bctr
    ensures var p := Exchange(s, r);
            p.sender.checks.bctr == p.receiver.checks.bctr == 1 <==> r.checks.bctr != 1
  {
    hide Exchange;
    EndsAgree(s, r);
  }

  /** The input on which they do not: a sender that prefers the CRC, and a receiver that prefers the checksum. */
  lemma NoFallBackFromOne(s: Settings, r: Settings)
    requires Ready(s) && Ready(r) && s.eighth.ebq == AMPERSAND && r.eighth.ebq == AMPERSAND
    requires s.checks.bctr == 3 && r.checks.bctr == 1
    ensures Exchange(s, r).sender.checks.bctr == Exchange(s, r).receiver.checks.bctr == 3
  {
    hide Exchange;
    EndsAgree(s, r);
  }
}

/** What spar() makes of the offers of other programs, field by field, and what two of its own kind learn. */
module Offers {
  import opened Bytes
  import opened Codec
  import opened Negotiation

  /** No fields at all: the defaults of the protocol. */
  lemma EmptyOffer(t: Settings)
    ensures var a := Adopt(t, []);
            && a.basic == Basic(80, if t.basic.timint > 0 then 5 else t.basic.timint, 0, 0, 13, 35)
            && !a.eighth.on && a.checks.bctr == 1 && !a.checks.rptOn && a.features == t.features
  {
  }

  /** The nine fields of an offer without capabilities, as another program writes them. */
  function NineFields(maxl: nat, time: nat, npad: nat, padc: byte, eol: nat, qctl: byte, qbin: byte, chkt: nat, rept: byte): (d: seq<byte>)
    requires maxl <= 94 && time <= 94 && npad <= 94 && eol <= 94 && chkt <= 9
    ensures |d| == 9
  {
    [32 + maxl, 32 + time, 32 + npad, Ctl(padc), 32 + eol, qctl, qbin, 48 + chkt, rept]
  }

  lemma CtlTwice(b: byte)
    ensures Ctl(Ctl(b)) == b
  {
  }

  /** Each is understood: what is out of range gives way to its default. */
  lemma NineFieldsAdopted(t: Settings, maxl: nat, time: nat, npad: nat, padc: byte, eol: nat, qctl: byte, qbin: byte, chkt: nat, rept: byte)
    requires maxl <= 94 && time <= 94 && npad <= 94 && eol <= 94 && chkt <= 9
    ensures var a := Adopt(t, NineFields(maxl, time, npad, padc, eol, qctl, qbin, chkt, rept));
            && a.basic.spsiz == (if maxl >= 10 then maxl else 80)
            && a.basic.timint == (if t.basic.timint > 0 then time else t.basic.timint)
            && a.basic.spadn == npad && a.basic.spadc == padc
            && a.basic.seol == (if 2 <= eol <= 31 then eol else 13)
            && a.basic.rctlq == (if 33 <= qctl <= 62 || 96 <= qctl <= 126 then qctl else 35)
            && a.eighth == EighthOf(t.local, t.eighth, qbin)
            && (1 <= chkt <= 3 && (t.checks.bctr <= 1 || t.checks.bctr == chkt) ==> a.checks.bctr == chkt)
            && (chkt < 1 || chkt > 3 || (t.checks.bctr > 1 && t.checks.bctr != chkt) ==> a.checks.bctr == 1)
            && a.checks.rptq == rept && a.checks.rptOn == (33 <= rept <= 62 || 96 <= rept <= 126)
            && a.features == t.features
  {
    hide EighthOf, Ctl;
    CtlTwice(padc);
    var d := NineFields(maxl, time, npad, padc, eol, qctl, qbin, chkt, rept);
    assert Field(d, 1) == 32 + maxl && Field(d, 2) == 32 + time && Field(d, 3) == 32 + npad;
    assert Field(d, 4) == Ctl(padc) && Field(d, 5) == 32 + eol && Field(d, 6) == qctl;
    assert Field(d, 7) == qbin && Field(d, 8) == 48 + chkt && Field(d, 9) == rept;
  }

  /** An end that has made its bid for 8th-bit prefixing: Y if it does without, an ampersand if it needs it. */
  predicate HasBid(t: Settings) {
    t.eighth.ebq == 38 && t.eighth.sq == if t.local.parity then 38 else 89
  }

  /** It is on if the other end demands it, or agrees to a demand; the prefix is the one the other end names. */
  lemma EighthBitBid(t: Settings, qbin: byte)
    requires HasBid(t)
    ensures var e := EighthOf(t.local, t.eighth, qbin);
            && (33 <= qbin <= 62 || 96 <= qbin <= 126 ==> e.on && e.ebq == qbin)
            && (qbin == 89 && t.local.parity ==> e.on && e.ebq == 38)
            && (qbin == 89 && !t.local.parity ==> e.on == t.eighth.on)
            && (!(33 <= qbin <= 62 || 96 <= qbin <= 126 || qbin == 89) ==> !e.on)
  {
  }

  lemma BidAgrees(s: Settings)
    requires Ready(s) && s.eighth.ebq == 38
    ensures HasBid(Bidding(Fresh(s))) && !Bidding(Fresh(s)).eighth.on
  {
  }

  /** Whatever comes, what is adopted can be used. */
  lemma AdoptIsUsable(t: Settings, d: seq<byte>)
    requires PrefixChar(t.eighth.ebq)
    ensures var a := Adopt(t, d);
            && 10 <= a.basic.spsiz <= 9000 && 2 <= a.basic.seol <= 31 && PrefixChar(a.basic.rctlq)
            && 1 <= a.checks.bctr <= 3 && (a.checks.rptOn ==> PrefixChar(a.checks.rptq)) && PrefixChar(a.eighth.ebq)
  {
    hide FeaturesOf;
  }

  // ------------------------------------------------- capabilities and beyond

  /** A capability mask of n octets: all but the last have their lowest bit set. */
  predicate MaskOf(d: seq<byte>, n: nat) {
    && n >= 1 && |d| >= 9 + n
    && (forall i :: 9 <= i < 8 + n ==> d[i] % 2 == 1)
    && d[8 + n] % 2 == 0
  }

  lemma {:induction false} MaskEnds(d: seq<byte>, n: nat, k: nat)
    requires MaskOf(d, n) && 10 <= k <= 9 + n
    ensures CapasEnd(d, k) == 9 + n
    decreases 9 + n - k
  {
    assert Field(d, k) == d[k - 1];
    if k < 9 + n {
      MaskEnds(d, n, k + 1);
    }
  }

  /** The bits for attributes (8) and long packets (2) count in the first octet of the mask, however long it is. */
  lemma CapabilitiesAdopted(t: Settings, d: seq<byte>, n: nat)
    requires MaskOf(d, n)
    ensures var a := Adopt(t, d);
            && a.features.attributes == (t.features.attributes || d[9] / 8 % 2 == 1)
            && a.features.longpackets == (t.features.longpackets || d[9] / 2 % 2 == 1)
  {
    hide IsPeer, Last, BasicOf, EighthOf, ChecksOf, LengthOf;
    assert Field(d, 10) == d[9];
  }

  /** The long packet length stands two and three places behind the mask; it counts if long packets are possible. */
  lemma LongLengthAdopted(t: Settings, d: seq<byte>, n: nat)
    requires MaskOf(d, n) && |d| >= 12 + n && Adopt(t, d).features.longpackets && d[10 + n] >= 32 && d[11 + n] >= 32
    ensures var x: int := 95 * UnChar(d[10 + n]) + UnChar(d[11 + n]);
            Adopt(t, d).basic.spsiz == if x > 9000 then 9000 else if x < 10 then 80 else x
  {
    MaskEnds(d, n, 10);
    hide FeaturesOf, BasicOf;
    assert Field(d, 11 + n) == d[10 + n] && Field(d, 12 + n) == d[11 + n];
  }

  // ------------------------------------------------------- two of one kind

  /**
   * Attributes and long packets are agreed on by any two ends. Streaming and the
   * recognition of a peer, which gives binary mode and literal names, stand behind
   * the long packet length, so an end learns of them only from one that can
   * receive more than 94 octets.
   */
  lemma FeaturesLearned(s: Settings, r: Settings)
    requires Ready(s) && Ready(r) && s.eighth.ebq == 38 && r.eighth.ebq == 38
    ensures var p := Exchange(s, r);
            && p.sender.features == Learned(s, r)
            && p.receiver.features == Learned(r, s)
            && p.sender.basic.timint == (if s.basic.timint > 0 then 7 else s.basic.timint)
            && p.receiver.basic.timint == (if r.basic.timint > 0 then 7 else r.basic.timint)
  {
    hide Adopt, OfferOf;
    var s1 := Bidding(Fresh(s));
    LearnsFrom(Fresh(r), s1);
    var r1 := Receive(Fresh(r), OfferOf(s1));
    AdoptReady(Fresh(r), OfferOf(s1));
    LearnsFrom(s1, r1);
  }

  /** What `t` has learned from `s`. */
  function Learned(t: Settings, s: Settings): Features {
    var long, peer := s.local.urpsiz > 94, s.local.urpsiz > 94 && !t.local.manual;
    Features(true, true,
             if long && t.features.streamok > -1 && s.features.streamok > -1 then 1 else t.features.streamok,
             t.features.text && !peer, t.features.literal || peer)
  }

  lemma LearnsFrom(t: Settings, s: Settings)
    requires Ready(t) && Ready(s)
    ensures var a := Adopt(t, OfferOf(s));
            && a.features == Learned(t, s) && a.local == t.local
            && a.basic.timint == if t.basic.timint > 0 then 7 else t.basic.timint
  {
    hide EighthOf, ChecksOf, LengthOf;
    OfferFields(s);
    var d := OfferOf(s);
    var short := OfferShort(s.local, s.eighth, s.checks);
    assert Field(d, 2) == short[1];
    if s.local.urpsiz > 94 {
      var long := OfferLong(s.local, s.features);
      assert d == short + long;
      assert Field(d, 18) == long[6] && Field(d, 19) == long[7] && Field(d, 20) == long[8] && Field(d, 21) == long[9];
      WhatBits(s.features);
    }
  }

  lemma WhatBits(f: Features)
    ensures var x := WhatAmI(f); x / 32 % 2 == 1 && x / 8 % 2 == (if f.streamok > -1 then 1 else 0)
  {
  }
}

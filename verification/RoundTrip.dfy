/**
 * What the codec and the packet cutter promise together: every file comes back,
 * packet by packet, exactly when the prefixes are distinct and packets are not
 * too small.
 */
module RoundTrip {
  import opened Bytes
  import opened Codec
  import opened Packets

  /** Each data field decoded on its own, in order, and the outputs joined. */
  function DecodeEach(p: Prefixes, text: bool, packets: seq<seq<byte>>): Decoded {
    if packets == [] then Decoded([], true)
    else
      var first := Decode(p, text, packets[0], 0);
      var others := DecodeEach(p, text, packets[1..]);
      Decoded(first.out + others.out, first.ok && others.ok)
  }

  /** The data fields sent for a file. */
  function Sent(p: Prefixes, maxlen: nat, f: seq<byte>): seq<seq<byte>> {
    SendAll(p, maxlen, Start(f))
  }

  predicate WithinLimit(packets: seq<seq<byte>>, maxlen: nat) {
    forall d <- packets :: 1 <= |d| <= maxlen
  }

  /** Every packet of a split decodes alone, and nothing is lost or doubled at a cut. */
  lemma {:induction false} SplitDecodes(p: Prefixes, text: bool, us: seq<Unit>, maxlen: nat)
    requires p.Usable() && Spellable(p, us) && SingleReturns(text, us) && maxlen >= Room(p)
    ensures DecodeEach(p, text, SpellEach(p, Split(p, us, maxlen))) == Decoded(Kept(text, TextOf(us)), true)
    ensures WithinLimit(SpellEach(p, Split(p, us, maxlen)), maxlen)
    decreases |us|
  {
    hide Spell, Code, Fitting, Decode, Kept;
    if us == [] {
      assert TextOf(us) == [];
      KeptRep(text, 0, 0);
      assert Rep(0, 0) == [];
    } else {
      FirstFits(p, us, maxlen);
      var k := Fitting(p, us, maxlen);
      var now, later := us[..k], us[k..];
      assert us == now + later;
      FittingFits(p, us, maxlen);
      SpellEmpty(p, now);
      DecodeUnits(p, text, now, 0);
      SplitDecodes(p, text, later, maxlen);
      TextAppend(now, later);
      KeptAppend(text, TextOf(now), TextOf(later));
      assert SpellEach(p, Split(p, us, maxlen)) == [SpellAll(p, now)] + SpellEach(p, Split(p, later, maxlen));
    }
  }

  /**
   * Whatever the file, decoding the packets one by one gives it back, less the
   * carriage returns that text mode drops, without a decoding error.
   */
  lemma FileRoundTrip(p: Prefixes, text: bool, maxlen: nat, f: seq<byte>)
    requires p.Usable() && maxlen >= Room(p) && SingleReturns(text, Units(p, f))
    ensures DecodeEach(p, text, Sent(p, maxlen, f)) == Decoded(Kept(text, f), true)
    ensures WithinLimit(Sent(p, maxlen, f), maxlen)
  {
    PacketsAreGreedy(p, maxlen, f);
    UnitsSpellable(p, f);
    UnitsText(p, f);
    SplitDecodes(p, text, Units(p, f), maxlen);
  }

  /** The packets joined are the code of the whole file: cutting does not change it. */
  lemma {:induction false} SplitJoins(p: Prefixes, us: seq<Unit>, maxlen: nat)
    requires Spellable(p, us) && maxlen >= Room(p)
    ensures Join(SpellEach(p, Split(p, us, maxlen))) == SpellAll(p, us)
    decreases |us|
  {
    hide Spell, Code, Fitting;
    if us != [] {
      FirstFits(p, us, maxlen);
      var k := Fitting(p, us, maxlen);
      assert us == us[..k] + us[k..];
      SpellAppend(p, us[..k], us[k..]);
      SplitJoins(p, us[k..], maxlen);
      assert SpellEach(p, Split(p, us, maxlen)) == [SpellAll(p, us[..k])] + SpellEach(p, Split(p, us[k..], maxlen));
    }
  }

  lemma CuttingKeepsTheCode(p: Prefixes, maxlen: nat, f: seq<byte>)
    requires maxlen >= Room(p)
    ensures Join(Sent(p, maxlen, f)) == SpellAll(p, Units(p, f))
  {
    PacketsAreGreedy(p, maxlen, f);
    UnitsSpellable(p, f);
    SplitJoins(p, Units(p, f), maxlen);
  }

  // ------------------------------------------------------------ exactly when

  ghost predicate Faithful(p: Prefixes, maxlen: nat) {
    forall f: seq<byte> :: DecodeEach(p, false, Sent(p, maxlen, f)) == Decoded(f, true)
  }

  /** The octet with the longest code. */
  function Wide(p: Prefixes): byte {
    if p.ebqOn then 129 else 1
  }

  lemma WideCode(p: Prefixes)
    ensures Code(p, Wide(p)) == if p.ebqOn then [p.ebq, p.ctlq, 65] else [p.ctlq, 65]
  {
  }

  /** Too small for one code: the first packet is empty, which the sender takes for the end of the file. */
  lemma TooSmallForACode(p: Prefixes, maxlen: nat)
    requires maxlen < p.Widest()
    ensures Sent(p, maxlen, [Wide(p)]) == []
  {
    WideCode(p);
    var f := [Wide(p)];
    assert f[1..] == [];
    assert Encode(p, maxlen, Encoding([], 0, 0), f[0], -1).data == Code(p, f[0]);
    assert GetPkt(p, maxlen, Start(f)).data == [];
  }

  /** A file of one octet is one packet with its code. */
  lemma OneOctet(p: Prefixes, maxlen: nat, a: byte)
    requires maxlen >= p.Widest()
    ensures Sent(p, maxlen, [a]) == [Code(p, a)]
  {
    hide Code;
    var f := [a];
    assert f[1..] == [];
    var e := Encode(p, maxlen, Encoding([], 0, 0), a, -1);
    assert e.data == Code(p, a);
    var s := Source([], a, [], -1);
    assert GetPkt(p, maxlen, Start(f)) == Filled(Code(p, a), s);
    assert SendAll(p, maxlen, s) == [];
  }

  lemma DecodeEachOne(p: Prefixes, d: seq<byte>)
    ensures DecodeEach(p, false, [d]) == Decode(p, false, d, 0)
  {
    assert [d][1..] == [];
  }

  /** A character serving as two prefixes spoils some file of one octet. */
  lemma SharedPrefixFails(p: Prefixes, maxlen: nat)
    requires p.InRange() && !p.Distinct() && maxlen >= p.Widest()
    ensures !Faithful(p, maxlen)
  {
    var a: byte := if p.ebqOn && p.ebq == p.ctlq then 1 else if p.rptOn && p.rptq == p.ctlq then 1 else 129;
    OneOctet(p, maxlen, a);
    DecodeEachOne(p, Code(p, a));
    var d := Code(p, a);
    if p.rptOn && p.rptq == p.ctlq && a == 1 {
      assert d == [p.ctlq, 65];
      assert TakeItem(p, d).Broken?;
    } else if a == 1 {
      assert d == [p.ctlq, 65];
      assert d[1..] == [65];
      assert TakeChar(p, false, 0, true, [65]) == Item(false, 0, 193, []);
      assert Decode(p, false, d, 0).out == Rep(193, 1) + [];
      assert Decode(p, false, d, 0).out[0] == 193;
    } else {
      assert d == [p.ebq, p.ctlq, 65];
      assert d[2..] == [65];
      assert TakeShifted(p, true, UnChar(d[1]), [65]) == Item(true, UnChar(d[1]), 65, []);
      assert Decode(p, false, d, 0).out == Rep(65, UnChar(d[1])) + [];
      assert Decode(p, false, d, 0).out[0] == 65;
    }
    assert DecodeEach(p, false, Sent(p, maxlen, [a])) != Decoded([a], true);
  }

  /** `k` different capital letters, which need no prefix. */
  function Filler(k: nat): (s: seq<byte>)
    requires k <= 4
    ensures |s| == k
    ensures forall i :: 0 <= i < k ==> s[i] == 64 + k - i
  {
    if k == 0 then [] else [64 + k] + Filler(k - 1)
  }

  /** An octet that is its own code and is not followed by itself just goes into the packet. */
  lemma FillPlain(p: Prefixes, maxlen: nat, data: seq<byte>, a: byte, rest: seq<byte>)
    requires Code(p, a) == [a] && rest != [] && rest[0] != a && |data| + 1 < maxlen
    ensures Fill(p, maxlen, Encoding(data, |data|, 0), a, rest)
         == Fill(p, maxlen, Encoding(data + [a], |data| + 1, 0), rest[0], rest[1..])
  {
    hide Code;
    assert Encode(p, maxlen, Encoding(data, |data|, 0), a, rest[0]).data == data + [a];
  }

  lemma LetterCode(p: Prefixes, a: byte)
    requires p.InRange() && 65 <= a <= 90
    ensures Code(p, a) == [a]
  {
  }

  /** Such octets go into the packet one by one as long as there is room. */
  lemma {:induction false} FillLetters(p: Prefixes, maxlen: nat, data: seq<byte>, f: seq<byte>, k: nat)
    requires k < |f| && |data| + k < maxlen
    requires forall i :: 0 <= i < k ==> Code(p, f[i]) == [f[i]] && f[i + 1] != f[i]
    ensures Fill(p, maxlen, Encoding(data, |data|, 0), f[0], f[1..])
         == Fill(p, maxlen, Encoding(data + f[..k], |data| + k, 0), f[k], f[k + 1..])
    decreases k
  {
    hide Code, Fill, Encode;
    if k == 0 {
      assert data + f[..0] == data;
    } else {
      var g := f[1..];
      assert g[0] == f[1] && g[1..] == f[2..];
      FillPlain(p, maxlen, data, f[0], g);
      FillLetters(p, maxlen, data + [f[0]], g, k - 1);
      assert data + [f[0]] + g[..k - 1] == data + f[..k];
      assert g[k..] == f[k + 1..];
    }
  }

  /** The file on which a packet size below Room loses an octet. */
  function Spoiler(p: Prefixes, maxlen: nat): seq<byte>
    requires p.Widest() <= maxlen <= 2 * p.Widest()
  {
    Filler(maxlen - p.Widest() + 1) + [Wide(p), Wide(p), 90, 90, 90]
  }

  /** A pair that does not fit is left over with both its codes. */
  lemma PairOverflows(p: Prefixes, maxlen: nat, data: seq<byte>, x: byte)
    requires p.rptOn && x != 90 && |data| < maxlen < |data| + |Code(p, x)|
    ensures Fill(p, maxlen, Encoding(data, |data|, 0), x, [x, 90, 90, 90])
         == Filled(data, Source(Code(p, x) + Code(p, x), 90, [90, 90], 0))
  {
    hide Code;
    var k := |data|;
    var tail := [x, 90, 90, 90];
    assert tail[1..] == [90, 90, 90] && tail[1..][1..] == [90, 90];
    var e := Encode(p, maxlen, Encoding(data, k, 1), x, 90);
    assert e.osize == k && e.data == data + Code(p, x) + Code(p, x);
    assert e.data[..k] == data && e.data[k..] == Code(p, x) + Code(p, x);
    assert Fill(p, maxlen, Encoding(data, k, 1), x, tail[1..])
        == Filled(data, Source(Code(p, x) + Code(p, x), 90, [90, 90], 0));
  }

  /** First packet: the letters. Both codes of the pair are left over. */
  lemma SpoilerFirst(p: Prefixes, maxlen: nat)
    requires p.InRange() && p.rptOn && p.Widest() <= maxlen <= 2 * p.Widest()
    ensures var x := Wide(p);
            GetPkt(p, maxlen, Start(Spoiler(p, maxlen)))
            == Filled(Filler(maxlen - p.Widest() + 1), Source(Code(p, x) + Code(p, x), 90, [90, 90], 0))
  {
    WideCode(p);
    hide Code, Fill, Encode;
    var k, x, f := maxlen - p.Widest() + 1, Wide(p), Spoiler(p, maxlen);
    forall i | 0 <= i < k
      ensures Code(p, f[i]) == [f[i]] && f[i + 1] != f[i]
    {
      LetterCode(p, f[i]);
    }
    FillLetters(p, maxlen, [], f, k);
    assert [] + f[..k] == Filler(k);
    assert f[k] == x && f[k + 1..] == [x, 90, 90, 90];
    PairOverflows(p, maxlen, Filler(k), x);
  }

  /** Second packet: the leftover fills it, so it ends while a run is being counted. */
  lemma SpoilerSecond(p: Prefixes, maxlen: nat)
    requires p.rptOn && maxlen <= 2 * p.Widest()
    ensures var r := Code(p, Wide(p)) + Code(p, Wide(p));
            GetPkt(p, maxlen, Source(r, 90, [90, 90], 0)) == Filled(r, Source([], 90, [90], 0))
  {
    WideCode(p);
    var r, rest := Code(p, Wide(p)) + Code(p, Wide(p)), [90, 90];
    assert rest[1..] == [90];
    assert r[..|r|] == r && r[|r|..] == [];
  }

  /** Third packet: only two of the three letters are still there. */
  lemma SpoilerThird(p: Prefixes, maxlen: nat)
    requires p.InRange() && p.rptOn && maxlen >= 2
    ensures SendAll(p, maxlen, Source([], 90, [90], 0)) == [[90, 90]]
  {
    var rest := [90];
    assert rest[1..] == [];
    assert Code(p, 90) == [90];
    var done := Source([], 90, [], -1);
    assert GetPkt(p, maxlen, Source([], 90, [90], 0)) == Filled([90, 90], done);
    assert SendAll(p, maxlen, done) == [];
  }

  lemma {:induction false} FillerDecodes(p: Prefixes, k: nat)
    requires p.Usable() && k <= 4
    ensures Decode(p, false, Filler(k), 0) == Decoded(Filler(k), true)
  {
    if k > 0 {
      hide Code, TakeItem;
      var a: byte := 64 + k;
      LetterCode(p, a);
      UnitParses(p, Unit(1, a), Filler(k - 1));
      FillerDecodes(p, k - 1);
      assert Spell(p, Unit(1, a)) == [a];
      assert Rep(a, 1) + Filler(k - 1) == Filler(k);
    }
  }

  /** Below Room, but not too small for one code: an octet of the run of three is lost. */
  lemma TooSmallForAPair(p: Prefixes, maxlen: nat)
    requires p.Usable() && p.rptOn && p.Widest() <= maxlen <= 2 * p.Widest()
    ensures !Faithful(p, maxlen)
  {
    hide Decode, Code, GetPkt, Fill;
    var k, x := maxlen - p.Widest() + 1, Wide(p);
    var f, r := Spoiler(p, maxlen), Code(p, Wide(p)) + Code(p, Wide(p));
    SpoilerFirst(p, maxlen);
    SpoilerSecond(p, maxlen);
    SpoilerThird(p, maxlen);
    var rest := SendAll(p, maxlen, Source(r, 90, [90, 90], 0));
    assert rest == [r] + [[90, 90]];
    assert Sent(p, maxlen, f) == [Filler(k)] + rest;
    FillerDecodes(p, k);
    PairDecodes(p, x);
    PairDecodes(p, 90);
    PlainNinety(p);
    DecodeEachOne(p, [90, 90]);
    assert DecodeEach(p, false, rest).out == [x, x] + [90, 90];
    assert |DecodeEach(p, false, Sent(p, maxlen, f)).out| == k + 4 < |f|;
  }

  lemma PlainNinety(p: Prefixes)
    requires p.InRange()
    ensures Code(p, 90) + Code(p, 90) == [90, 90]
  {
  }

  lemma PairDecodes(p: Prefixes, a: byte)
    requires p.Usable()
    ensures Decode(p, false, Code(p, a) + Code(p, a), 0) == Decoded([a, a], true)
  {
    hide Code;
    UnitParses(p, Unit(1, a), Code(p, a));
    UnitParses(p, Unit(1, a), []);
    assert Code(p, a) + [] == Code(p, a);
    assert Decode(p, false, [], 0) == Decoded([], true);
    assert Rep(a, 1) == [a];
    assert Decode(p, false, Code(p, a), 0) == Decoded([a], true);
  }

  /**
   * Every file survives exactly when no character serves as two prefixes and a
   * packet can hold two of the longest codes and one octet more (one code, if
   * run-length encoding is off).
   */
  lemma FaithfulExactly(p: Prefixes, maxlen: nat)
    requires p.InRange()
    ensures Faithful(p, maxlen) <==> p.Distinct() && maxlen >= Room(p)
  {
    if maxlen < p.Widest() {
      TooSmallForACode(p, maxlen);
      assert DecodeEach(p, false, Sent(p, maxlen, [Wide(p)])) != Decoded([Wide(p)], true);
    } else if !p.Distinct() {
      SharedPrefixFails(p, maxlen);
    } else if maxlen < Room(p) {
      TooSmallForAPair(p, maxlen);
    } else {
      forall f: seq<byte>
        ensures DecodeEach(p, false, Sent(p, maxlen, f)) == Decoded(f, true)
      {
        FileRoundTrip(p, false, maxlen, f);
      }
    }
  }
}

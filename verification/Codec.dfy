/**
 * The data-field code of G-Kermit: run-length, 8th-bit and control prefixing.
 *
 * The file is cut into units, each a run of one octet; a unit is spelled either
 * as one code or as a repeat prefix, a count and one code. Units is the simple
 * description of what encode() produces over a whole file, and Decode is what
 * the receiver does to one data field.
 */
module Codec {
  import opened Bytes

  /** The prefixes in force at an endpoint (sctlq/rctlq, ebqflg, ebq, rptflg, rptq). */
  datatype Prefixes = Prefixes(ctlq: byte, ebqOn: bool, ebq: byte, rptOn: bool, rptq: byte) {

    /** Each prefix in use passes the range test spar() applies. */
    predicate InRange() {
      && PrefixChar(ctlq)
      && (ebqOn ==> PrefixChar(ebq))
      && (rptOn ==> PrefixChar(rptq))
    }

    /** No character serves as two prefixes. */
    predicate Distinct() {
      && (ebqOn ==> ebq != ctlq)
      && (rptOn ==> rptq != ctlq)
      && (ebqOn && rptOn ==> ebq != rptq)
    }

    predicate Usable() {
      InRange() && Distinct()
    }

    /** The longest code of one octet. */
    function Widest(): nat {
      if ebqOn then 3 else 2
    }
  }

  predicate PrefixChar(b: byte) {
    32 < b < 63 || 95 < b < 127
  }

  predicate Control(a7: byte) {
    a7 < 32 || a7 == 127
  }

  // ---------------------------------------------------------------- encoding

  /** The longest run one repeat count can carry. */
  const MAX_RUN := 94

  /** `count` copies of `ch`. */
  datatype Unit = Unit(count: nat, ch: byte)

  predicate Countable(u: Unit) {
    1 <= u.count <= MAX_RUN
  }

  /** Control prefixing of `b`, whose low seven bits decide; `b` is the octet still to be sent. */
  function Quoted(p: Prefixes, b: byte): (s: seq<byte>)
    ensures 1 <= |s| <= 2
  {
    var b7 := b % 128;
    if Control(b7) then [p.ctlq, Ctl(b)]
    else if b7 == p.ctlq || (p.ebqOn && b7 == p.ebq) || (p.rptOn && b7 == p.rptq) then [p.ctlq, b]
    else [b]
  }

  /** The code of one octet, without run-length encoding. */
  function Code(p: Prefixes, a: byte): (s: seq<byte>)
    ensures 1 <= |s| <= p.Widest()
  {
    if p.ebqOn && a >= 128 then [p.ebq] + Quoted(p, a - 128) else Quoted(p, a)
  }

  function Spell(p: Prefixes, u: Unit): (s: seq<byte>)
    requires Countable(u)
    ensures |s| >= 1
  {
    if u.count == 1 then Code(p, u.ch) else [p.rptq, ToChar(u.count)] + Code(p, u.ch)
  }

  predicate AllCountable(us: seq<Unit>) {
    forall u <- us :: Countable(u)
  }

  function SpellAll(p: Prefixes, us: seq<Unit>): seq<byte>
    requires AllCountable(us)
  {
    if us == [] then [] else Spell(p, us[0]) + SpellAll(p, us[1..])
  }

  /** The octets a list of units stands for. */
  function TextOf(us: seq<Unit>): seq<byte> {
    if us == [] then [] else Rep(us[0].ch, us[0].count) + TextOf(us[1..])
  }

  /** The length of the run that starts a nonempty file. */
  function RunLength(f: seq<byte>): (n: nat)
    requires f != []
    ensures 1 <= n <= |f|
    ensures forall i :: 0 <= i < n ==> f[i] == f[0]
    ensures n < |f| ==> f[n] != f[0]
  {
    if |f| > 1 && f[1] == f[0] then 1 + RunLength(f[1..]) else 1
  }

  /** How many octets the first units of a file cover. */
  function Chunk(p: Prefixes, f: seq<byte>): (n: nat)
    requires f != []
    ensures 1 <= n <= |f| && n <= MAX_RUN
    ensures forall i :: 0 <= i < n ==> f[i] == f[0]
  {
    if !p.rptOn then 1
    else if RunLength(f) > MAX_RUN then MAX_RUN
    else RunLength(f)
  }

  /** The units of a run of `n`: a pair is sent as two single octets. */
  function RunUnits(a: byte, n: nat): (us: seq<Unit>)
    requires 1 <= n <= MAX_RUN
    ensures AllCountable(us)
    ensures 1 <= |us| <= 2
  {
    if n == 2 then [Unit(1, a), Unit(1, a)] else [Unit(n, a)]
  }

  /** The units of a whole file: the longest runs first, cut at 94. */
  function Units(p: Prefixes, f: seq<byte>): (us: seq<Unit>)
    ensures AllCountable(us)
  {
    if f == [] then []
    else
      var n := Chunk(p, f);
      RunUnits(f[0], n) + Units(p, f[n..])
  }

  // ---------------------------------------------------------------- decoding

  /** One code taken off the front of a data field; a missing repeat prefix leaves count at 0. */
  datatype Item = Broken | Item(prefixed: bool, count: int, ch: byte, rest: seq<byte>)

  /** Undoes control prefixing at the front of `d` and sets the 8th bit if asked. */
  function TakeChar(p: Prefixes, prefixed: bool, count: int, shifted: bool, d: seq<byte>): (r: Item)
    requires d != []
    ensures r.Item? ==> |r.rest| < |d|
  {
    if d[0] == p.ctlq then
      if |d| < 2 then Broken
      else
        var a := if 62 < d[1] % 128 < 96 then Ctl(d[1]) else d[1];
        Item(prefixed, count, if shifted && a < 128 then a + 128 else a, d[2..])
    else
      Item(prefixed, count, if shifted && d[0] < 128 then d[0] + 128 else d[0], d[1..])
  }

  function TakeShifted(p: Prefixes, prefixed: bool, count: int, d: seq<byte>): (r: Item)
    requires d != []
    ensures r.Item? ==> |r.rest| < |d|
  {
    if p.ebqOn && d[0] == p.ebq then
      if |d| < 2 then Broken else TakeChar(p, prefixed, count, true, d[1..])
    else
      TakeChar(p, prefixed, count, false, d)
  }

  function TakeItem(p: Prefixes, d: seq<byte>): (r: Item)
    requires d != []
    ensures r.Item? ==> |r.rest| < |d|
  {
    if p.rptOn && d[0] == p.rptq then
      if |d| < 3 then Broken else TakeShifted(p, true, UnChar(d[1]), d[2..])
    else
      TakeShifted(p, false, 0, d)
  }

  /** What decode() wrote, and whether it reported success. */
  datatype Decoded = Decoded(out: seq<byte>, ok: bool)

  /** The repeat count in force for an item, given the one left over from before. */
  function Count(item: Item, carry: int): int
    requires item.Item?
  {
    var n := if item.prefixed then item.count else carry;
    if n == 0 then 1 else n
  }

  /** Whether text mode drops this character. */
  predicate Dropped(text: bool, ch: byte) {
    text && ch == CR
  }

  /**
   * decode(): `carry` is rpt, which a dropped carriage return leaves standing
   * and which a negative count leaves negative.
   */
  function Decode(p: Prefixes, text: bool, d: seq<byte>, carry: int): Decoded
    decreases |d|
  {
    if d == [] then Decoded([], true)
    else
      var item := TakeItem(p, d);
      if item.Broken? then Decoded([], false)
      else
        var n := Count(item, carry);
        if Dropped(text, item.ch) then Decode(p, text, item.rest, n)
        else if n > 0 then
          var r := Decode(p, text, item.rest, 0);
          Decoded(Rep(item.ch, n) + r.out, r.ok)
        else Decode(p, text, item.rest, n)
  }

  // ------------------------------------------------------------- round trip

  /** Control prefixing is undone, whatever follows; the first octet is no other prefix. */
  lemma QuotedParses(p: Prefixes, b: byte, rest: seq<byte>, prefixed: bool, count: int, shifted: bool)
    requires p.Usable() && (shifted ==> b < 128)
    ensures TakeChar(p, prefixed, count, shifted, Quoted(p, b) + rest)
         == Item(prefixed, count, if shifted then b + 128 else b, rest)
  {
    var d := Quoted(p, b) + rest;
    if |Quoted(p, b)| == 2 {
      assert d[0] == p.ctlq && d[2..] == rest;
      if Control(b % 128) {
        assert d[1] == Ctl(b) && 62 < Ctl(b) % 128 < 96 && Ctl(Ctl(b)) == b;
      } else {
        assert d[1] == b;
      }
    } else {
      assert d[0] == b != p.ctlq && d[1..] == rest;
    }
  }

  /** A quoted octet never begins with the 8th-bit or the repeat prefix. */
  lemma QuotedStarts(p: Prefixes, b: byte)
    requires p.Usable()
    ensures p.ebqOn ==> Quoted(p, b)[0] != p.ebq
    ensures p.rptOn ==> Quoted(p, b)[0] != p.rptq
  {
  }

  /** One code parses back to its octet and leaves the rest alone. */
  lemma CodeParses(p: Prefixes, a: byte, rest: seq<byte>, prefixed: bool, count: int)
    requires p.Usable()
    ensures TakeShifted(p, prefixed, count, Code(p, a) + rest) == Item(prefixed, count, a, rest)
    ensures p.rptOn ==> Code(p, a)[0] != p.rptq
  {
    if p.ebqOn && a >= 128 {
      QuotedParses(p, a - 128, rest, prefixed, count, true);
      assert (Code(p, a) + rest)[1..] == Quoted(p, a - 128) + rest;
    } else {
      QuotedParses(p, a, rest, prefixed, count, false);
      QuotedStarts(p, a);
    }
  }

  /** A spelled unit parses back to its octet and count, whatever follows it. */
  lemma UnitParses(p: Prefixes, u: Unit, rest: seq<byte>)
    requires p.Usable() && Countable(u) && (u.count > 1 ==> p.rptOn)
    ensures TakeItem(p, Spell(p, u) + rest)
         == Item(u.count > 1, if u.count > 1 then u.count else 0, u.ch, rest)
  {
    if u.count == 1 {
      CodeParses(p, u.ch, rest, false, 0);
    } else {
      CodeParses(p, u.ch, rest, true, u.count);
      assert (Spell(p, u) + rest)[2..] == Code(p, u.ch) + rest;
    }
  }

  /** Runs longer than one octet occur only under run-length encoding. */
  predicate Spellable(p: Prefixes, us: seq<Unit>) {
    AllCountable(us) && forall u <- us :: u.count > 1 ==> p.rptOn
  }

  /** What text mode keeps of a string. */
  function Kept(text: bool, s: seq<byte>): (r: seq<byte>)
    ensures !text ==> r == s
    ensures text ==> CR !in r
  {
    if s == [] then []
    else (if Dropped(text, s[0]) then [] else [s[0]]) + Kept(text, s[1..])
  }

  lemma {:induction false} KeptAppend(text: bool, a: seq<byte>, b: seq<byte>)
    ensures Kept(text, a + b) == Kept(text, a) + Kept(text, b)
  {
    if a == [] {
      assert a + b == b;
    } else {
      assert (a + b)[1..] == a[1..] + b;
      KeptAppend(text, a[1..], b);
    }
  }

  lemma {:induction false} KeptRep(text: bool, a: byte, n: nat)
    ensures Kept(text, Rep(a, n)) == if Dropped(text, a) then [] else Rep(a, n)
  {
    if n > 0 {
      assert Rep(a, n)[1..] == Rep(a, n - 1);
      KeptRep(text, a, n - 1);
      assert [a] + Rep(a, n - 1) == Rep(a, n);
    }
  }

  /** No carriage return is sent under a repeat count while text mode is on. */
  predicate SingleReturns(text: bool, us: seq<Unit>) {
    text ==> forall u <- us :: u.ch == CR ==> u.count == 1
  }

  /** Decoding any list of spelled units gives their text, minus what text mode drops. */
  lemma {:induction false} DecodeUnits(p: Prefixes, text: bool, us: seq<Unit>, carry: int)
    requires p.Usable() && Spellable(p, us) && SingleReturns(text, us) && 0 <= carry <= 1
    ensures Decode(p, text, SpellAll(p, us), carry) == Decoded(Kept(text, TextOf(us)), true)
  {
    if us != [] {
      var u, rest := us[0], SpellAll(p, us[1..]);
      UnitParses(p, u, rest);
      KeptAppend(text, Rep(u.ch, u.count), TextOf(us[1..]));
      KeptRep(text, u.ch, u.count);
      DecodeUnits(p, text, us[1..], if Dropped(text, u.ch) then 1 else 0);
    }
  }
}

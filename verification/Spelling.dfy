/** How octets are spelled and what the receiver makes of other spellings, in numbers. */
module Spelling {
  import opened Bytes
  import opened Codec
  import opened Packets

  // ---------------------------------------------------------------- encoding

  /** Octets that have to be quoted: control characters, and the prefixes in use, with either 8th bit. */
  predicate NeedsQuote(p: Prefixes, a: byte) {
    var a7 := a % 128;
    a7 <= 31 || a7 == 127 || a7 == p.ctlq || (p.ebqOn && a7 == p.ebq) || (p.rptOn && a7 == p.rptq)
  }

  /** A code has a prefix for each reason there is for one, and no other; its last octet tells the octet meant. */
  lemma CodeHasNoMore(p: Prefixes, a: byte)
    ensures var s := Code(p, a);
            && |s| == 1 + (if NeedsQuote(p, a) then 1 else 0) + (if p.ebqOn && a >= 128 then 1 else 0)
            && (p.ebqOn && a >= 128 ==> s[0] == p.ebq)
            && (NeedsQuote(p, a) ==> s[|s| - 2] == p.ctlq)
            && s[|s| - 1] % 64 == a % 64
            && (s[|s| - 1] % 128 == a % 128 <==> !(a % 128 <= 31 || a % 128 == 127))
            && (p.ebqOn ==> s[|s| - 1] < 128) && (!p.ebqOn ==> s[|s| - 1] / 128 == a / 128)
  {
  }

  /** Counted runs are of three to 94 octets, and only with run-length encoding. */
  lemma {:induction false} RunsCounted(p: Prefixes, f: seq<byte>)
    ensures forall u <- Units(p, f) :: u.count == 1 || (p.rptOn && 3 <= u.count <= 94)
    decreases |f|
  {
    if f != [] {
      RunsCounted(p, f[Chunk(p, f)..]);
    }
  }

  /**
   * With run-length encoding no run is broken up more than it has to be: neighbours
   * of one octet are a run of 94 and what goes on behind it, or a pair.
   */
  lemma {:induction false} RunsAreWhole(p: Prefixes, f: seq<byte>)
    requires p.rptOn
    ensures var us := Units(p, f);
            && (f != [] ==> us != [] && us[0].ch == f[0])
            && (forall i :: 0 <= i < |us| - 1 && us[i].ch == us[i + 1].ch ==> us[i].count == 94 || us[i].count == us[i + 1].count == 1)
            && (forall i :: 0 <= i < |us| - 2 && us[i].count == us[i + 1].count == 1 && us[i].ch == us[i + 1].ch ==> us[i + 2].ch != us[i].ch)
    decreases |f|
  {
    hide RunLength;
    if f != [] {
      var n := Chunk(p, f);
      RunsAreWhole(p, f[n..]);
      var run, rest := RunUnits(f[0], n), Units(p, f[n..]);
      assert n < 94 && n < |f| ==> f[n] != f[0] by {
        ChunkEnds(p, f);
      }
      assert Units(p, f) == run + rest;
    }
  }

  lemma ChunkEnds(p: Prefixes, f: seq<byte>)
    requires p.rptOn && f != []
    ensures var n := Chunk(p, f); n < 94 && n < |f| ==> f[n] != f[0]
  {
  }

  // ---------------------------------------------------------------- decoding

  /** A character that is no prefix stands for itself, bare control characters and NUL included. */
  lemma BareCharacter(p: Prefixes, a: byte, rest: seq<byte>)
    requires a != p.ctlq && (p.ebqOn ==> a != p.ebq) && (p.rptOn ==> a != p.rptq)
    ensures TakeItem(p, [a] + rest) == Item(false, 0, a, rest)
  {
    assert ([a] + rest)[1..] == rest;
  }

  /** Behind the control prefix, 63 to 95 stand for the control characters, with either 8th bit; all else for itself. */
  lemma QuotedCharacter(p: Prefixes, c: byte, rest: seq<byte>)
    requires p.Usable()
    ensures var item := TakeItem(p, [p.ctlq, c] + rest);
            && item.Item? && !item.prefixed && item.rest == rest && item.ch / 128 == c / 128
            && (63 <= c % 128 <= 95 ==> item.ch % 128 == (if c % 128 == 63 then 127 else c % 128 - 64))
            && (!(63 <= c % 128 <= 95) ==> item.ch == c)
  {
    var d := [p.ctlq, c] + rest;
    assert d[2..] == rest;
    assert Ctl(c) == if c % 128 < 64 then c + 64 else c - 64;
  }

  /** The 8th-bit prefix sets the 8th bit of what follows, quoted or not. */
  lemma ShiftedCharacter(p: Prefixes, c: byte, rest: seq<byte>)
    requires p.Usable() && p.ebqOn
    ensures c != p.ctlq ==> TakeItem(p, [p.ebq, c] + rest) == Item(false, 0, if c < 128 then c + 128 else c, rest)
    ensures var item := TakeItem(p, [p.ebq, p.ctlq, c] + rest);
            && item.Item? && !item.prefixed && item.rest == rest && item.ch >= 128
            && (63 <= c % 128 <= 95 ==> item.ch % 128 == (if c % 128 == 63 then 127 else c % 128 - 64))
            && (!(63 <= c % 128 <= 95) ==> item.ch % 128 == c % 128)
  {
    var d, e := [p.ebq, c] + rest, [p.ebq, p.ctlq, c] + rest;
    assert d[1..] == [c] + rest && d[1..][1..] == rest;
    assert e[1..] == [p.ctlq, c] + rest && e[1..][2..] == rest;
    assert Ctl(c) == if c % 128 < 64 then c + 64 else c - 64;
  }

  /** The repeat prefix gives what follows the count behind it, whatever the count. */
  lemma CountedCharacter(p: Prefixes, n: byte, a: byte, rest: seq<byte>)
    requires p.Usable() && p.rptOn && a != p.ctlq && (p.ebqOn ==> a != p.ebq)
    ensures TakeItem(p, [p.rptq, n, a] + rest) == Item(true, n - 32, a, rest)
  {
    var d := [p.rptq, n, a] + rest;
    assert d[2..] == [a] + rest && d[2..][1..] == rest;
  }

  /** A data field that ends within the code of an octet or a run is reported. */
  lemma TruncatedIsBroken(p: Prefixes, u: Unit, k: nat)
    requires p.Usable() && Countable(u) && (u.count > 1 ==> p.rptOn) && 1 <= k < |Spell(p, u)|
    ensures TakeItem(p, Spell(p, u)[..k]).Broken?
    ensures !Decode(p, false, Spell(p, u)[..k], 0).ok
  {
    TruncatedCode(p, u.ch);
    var d := Spell(p, u)[..k];
    if u.count > 1 && k >= 3 {
      assert d[2..] == Code(p, u.ch)[..k - 2];
    }
  }

  lemma TruncatedCode(p: Prefixes, a: byte)
    requires p.Usable()
    ensures forall k, prefixed, count :: 1 <= k < |Code(p, a)| ==> TakeShifted(p, prefixed, count, Code(p, a)[..k]).Broken?
    ensures p.rptOn ==> Code(p, a)[0] != p.rptq
  {
  }
}

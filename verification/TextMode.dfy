/** The buffered input file of gunixio.c and text mode from one end to the other. */
module TextMode {
  import opened Bytes
  import opened Codec
  import opened Packets
  import opened RoundTrip

  /** A file as text mode sends it: every linefeed becomes a carriage return and a linefeed. */
  function CrLf(f: seq<byte>): seq<byte> {
    if f == [] then [] else (if f[0] == LF then [CR, LF] else [f[0]]) + CrLf(f[1..])
  }

  /** The buffer takes over the next character of a line. */
  lemma CrLfStep(taken: seq<byte>, line: seq<byte>)
    requires line != []
    ensures taken + CrLf(line) == taken + (if line[0] == LF then [CR, LF] else [line[0]]) + CrLf(line[1..])
  {
    var head, rest := if line[0] == LF then [CR, LF] else [line[0]], CrLf(line[1..]);
    assert CrLf(line) == head + rest;
    Grouped(taken, head, rest);
  }

  lemma Grouped<T>(a: seq<T>, b: seq<T>, c: seq<T>)
    ensures a + (b + c) == a + b + c
  {
  }

  /** What zgetc() delivers of a file. */
  function Delivered(text: bool, f: seq<byte>): seq<byte> {
    if text then CrLf(f) else f
  }

  /** zinbuf, zincnt and zinptr over an open file. */
  class InputFile {
    const maxRecord: nat
    const zinbuf: array<byte>
    var zincnt: int
    var zinptr: nat
    const disk: seq<byte>
    var pos: nat

    ghost predicate Valid()
      reads this, zinbuf
    {
      && maxRecord >= 2 && zinbuf.Length == maxRecord + 1
      && 0 <= zincnt && zinptr + zincnt <= zinbuf.Length
      && pos <= |disk|
    }

    /** The characters still to be delivered. */
    ghost function Remaining(text: bool): seq<byte>
      requires Valid()
      reads this, zinbuf
    {
      zinbuf[zinptr..zinptr + zincnt] + Delivered(text, disk[pos..])
    }

    /** zopeni() on a file with this content. */
    constructor (maxRecord: nat, disk: seq<byte>)
      requires maxRecord >= 2
      ensures Valid() && fresh(zinbuf) && this.disk == disk
      ensures Remaining(true) == CrLf(disk) && Remaining(false) == disk
    {
      this.maxRecord := maxRecord;
      this.disk := disk;
      zinbuf := new byte[maxRecord + 1](_ => 0);
      zincnt, zinptr, pos := 0, 0, 0;
    }

    /** getc(): -1 at the end of the file. */
    method Getc() returns (c: int)
      requires pos <= |disk|
      modifies this`pos
      ensures if old(pos) == |disk| then c == -1 && pos == old(pos) else c == disk[old(pos)] && pos == old(pos) + 1
    {
      if pos == |disk| {
        c := -1;
      } else {
        c := disk[pos];
        pos := pos + 1;
      }
    }

    /** The line-reading loop of zfillbuf(): a record, or a line with its end replaced. */
    method FillText()
      requires maxRecord >= 2 && zinbuf.Length == maxRecord + 1 && pos <= |disk|
      modifies this`zincnt, this`pos, zinbuf
      ensures 0 <= zincnt <= maxRecord && old(pos) <= pos <= |disk|
      ensures zinbuf[..zincnt] + CrLf(disk[pos..]) == CrLf(disk[old(pos)..])
      ensures zincnt == 0 ==> disk[old(pos)..] == []
    {
      hide CrLf;
      var c := 0;
      zincnt := 0;
      assert zinbuf[..zincnt] == [];
      while zincnt < maxRecord - 1
        invariant 0 <= zincnt <= maxRecord - 1 && old(pos) <= pos <= |disk| && c != LF
        invariant zincnt == 0 ==> pos == old(pos)
        invariant zinbuf[..zincnt] + CrLf(disk[pos..]) == CrLf(disk[old(pos)..])
      {
        ghost var before, line := zinbuf[..zincnt], disk[pos..];
        c := Getc();
        if c == -1 || c == LF {
          break;
        }
        zinbuf[zincnt] := c;
        zincnt := zincnt + 1;
        assert zinbuf[..zincnt] == before + [line[0]];
        assert line[1..] == disk[pos..];
        CrLfStep(before, line);
      }
      if c == LF {
        ghost var before, line := zinbuf[..zincnt], disk[pos - 1..];
        zinbuf[zincnt], zinbuf[zincnt + 1] := CR, LF;
        zincnt := zincnt + 2;
        assert zinbuf[..zincnt] == before + [CR, LF];
        assert line[1..] == disk[pos..];
        CrLfStep(before, line);
      }
    }

    /** The raw-buffer branch of zfillbuf(): fread() of up to a record. */
    method FillBinary()
      requires maxRecord >= 2 && zinbuf.Length == maxRecord + 1 && pos <= |disk|
      modifies this`zincnt, this`pos, zinbuf
      ensures 0 <= zincnt <= maxRecord && old(pos) <= pos <= |disk|
      ensures zinbuf[..zincnt] + disk[pos..] == disk[old(pos)..]
      ensures zincnt == 0 ==> disk[old(pos)..] == []
    {
      zincnt := if |disk| - pos < maxRecord then |disk| - pos else maxRecord;
      forall i | 0 <= i < zincnt {
        zinbuf[i] := disk[pos + i];
      }
      pos := pos + zincnt;
    }

    /** zfillbuf(): refills an empty buffer and returns its first character. */
    method Zfillbuf(text: bool) returns (c: int)
      requires maxRecord >= 2 && zinbuf.Length == maxRecord + 1 && pos <= |disk| && zincnt < 1
      modifies this, zinbuf
      ensures Valid()
      ensures var r := Delivered(text, disk[old(pos)..]);
              if r == [] then c == -1 && Remaining(text) == [] else c == r[0] && Remaining(text) == r[1..]
    {
      if text {
        FillText();
      } else {
        FillBinary();
      }
      zinbuf[zincnt] := NUL;
      ghost var r := Delivered(text, disk[old(pos)..]);
      assert zinbuf[..zincnt] + Delivered(text, disk[pos..]) == r;
      if zincnt == 0 {
        c, zinptr := -1, 0;
        assert r == [];
      } else {
        zinptr := 1;
        zincnt := zincnt - 1;
        c := zinbuf[0];
        assert zinbuf[..zincnt + 1][1..] == zinbuf[1..1 + zincnt];
      }
    }

    /** zgetc(): the next character of the delivered file, or -1. */
    method Zgetc(text: bool) returns (c: int)
      requires Valid()
      modifies this, zinbuf
      ensures Valid()
      ensures var r := old(Remaining(text));
              if r == [] then c == -1 && Remaining(text) == [] else c == r[0] && Remaining(text) == r[1..]
    {
      hide Delivered;
      zincnt := zincnt - 1;
      if zincnt >= 0 {
        ghost var b := zinbuf[zinptr..zinptr + zincnt + 1];
        c := zinbuf[zinptr];
        zinptr := zinptr + 1;
        assert b[1..] == zinbuf[zinptr..zinptr + zincnt];
      } else {
        assert old(zinbuf[zinptr..zinptr + zincnt]) == [];
        c := Zfillbuf(text);
      }
    }
  }

  // -------------------------------------------------------- text mode whole

  /** No three carriage returns in a row. */
  predicate ReturnsApart(s: seq<byte>) {
    forall i :: 0 <= i < |s| - 2 ==> !(s[i] == CR && s[i + 1] == CR && s[i + 2] == CR)
  }

  lemma {:induction false} ReturnsSentSingly(p: Prefixes, s: seq<byte>)
    requires ReturnsApart(s)
    ensures SingleReturns(true, Units(p, s))
    decreases |s|
  {
    if s != [] {
      var n := Chunk(p, s);
      assert n >= 3 ==> s[0] == s[1] == s[2];
      ReturnsSentSingly(p, s[n..]);
    }
  }

  /** Turning line ends into pairs makes no run of returns where the file has none. */
  lemma {:induction false} CrLfReturnsApart(f: seq<byte>)
    requires CR !in f
    ensures ReturnsApart(CrLf(f)) && (f != [] && f[0] != LF ==> CrLf(f)[0] != CR)
  {
    if f != [] {
      CrLfReturnsApart(f[1..]);
    }
  }

  /** A CR stands at i exactly if an LF stands behind. */
  predicate ReturnAt(d: seq<byte>, i: nat)
    requires i < |d|
  {
    d[i] == 13 <==> i + 1 < |d| && d[i + 1] == 10
  }

  /** In front of each LF there is a CR, and nowhere else. */
  predicate Paired(d: seq<byte>) {
    forall i :: 0 <= i < |d| ==> ReturnAt(d, i)
  }

  lemma PairedBehind(d: seq<byte>, a: byte)
    requires Paired(d) && (a == 13 <==> d != [] && d[0] == 10)
    ensures Paired([a] + d)
  {
    var e := [a] + d;
    forall i | 0 <= i < |e|
      ensures ReturnAt(e, i)
    {
      if i > 0 {
        assert ReturnAt(d, i - 1);
        assert e[i] == d[i - 1] && (i < |d| ==> e[i + 1] == d[i]);
      } else {
        assert d != [] ==> e[1] == d[0];
      }
    }
  }

  /** In what is delivered of a file without CRs, there is exactly one in front of each LF, and none elsewhere. */
  lemma {:induction false} CrLfPlaces(f: seq<byte>)
    requires 13 !in f
    ensures Paired(CrLf(f)) && (f != [] ==> CrLf(f) != [] && CrLf(f)[0] == if f[0] == 10 then 13 else f[0])
  {
    if f != [] {
      CrLfPlaces(f[1..]);
      var rest := CrLf(f[1..]);
      hide Paired;
      if f[0] == 10 {
        PairedBehind(rest, 10);
        PairedBehind([10] + rest, 13);
        assert [13] + ([10] + rest) == [13, 10] + rest;
      } else {
        PairedBehind(rest, f[0]);
      }
    } else {
      assert CrLf(f) == [];
    }
  }

  lemma {:induction false} CrLfKept(f: seq<byte>)
    ensures Kept(true, CrLf(f)) == Kept(true, f)
  {
    if f != [] {
      CrLfKept(f[1..]);
      if f[0] == LF {
        assert [CR, LF][1..] == [LF] && [LF][1..] == [];
        assert Kept(true, [LF]) == [LF];
        assert Kept(true, [CR, LF]) == [LF];
        KeptAppend(true, [CR, LF], CrLf(f[1..]));
      } else {
        KeptAppend(true, [f[0]], CrLf(f[1..]));
        KeptRep(true, f[0], 1);
        assert [f[0]] == Rep(f[0], 1);
      }
    }
  }

  lemma {:induction false} KeptAll(f: seq<byte>)
    requires CR !in f
    ensures Kept(true, f) == f
  {
    if f != [] {
      KeptAll(f[1..]);
    }
  }

  /** Text mode never writes a carriage return. */
  lemma {:induction false} NoReturnsWritten(p: Prefixes, d: seq<byte>, carry: int)
    ensures CR !in Decode(p, true, d, carry).out
    decreases |d|
  {
    hide TakeItem;
    if d != [] {
      var item := TakeItem(p, d);
      if item.Item? {
        var n := Count(item, carry);
        NoReturnsWritten(p, item.rest, if Dropped(true, item.ch) || n <= 0 then n else 0);
      }
    }
  }

  lemma {:induction false} NoReturnsWrittenByAny(p: Prefixes, packets: seq<seq<byte>>)
    ensures CR !in DecodeEach(p, true, packets).out
  {
    if packets != [] {
      NoReturnsWritten(p, packets[0], 0);
      NoReturnsWrittenByAny(p, packets[1..]);
    }
  }

  /** A text file survives the transfer exactly when it holds no carriage return. */
  lemma TextRoundTripExactly(p: Prefixes, maxlen: nat, f: seq<byte>)
    requires p.Usable() && maxlen >= Room(p)
    ensures DecodeEach(p, true, Sent(p, maxlen, CrLf(f))) == Decoded(f, true) <==> CR !in f
  {
    if CR !in f {
      CrLfReturnsApart(f);
      ReturnsSentSingly(p, CrLf(f));
      FileRoundTrip(p, true, maxlen, CrLf(f));
      CrLfKept(f);
      KeptAll(f);
    } else {
      NoReturnsWrittenByAny(p, Sent(p, maxlen, CrLf(f)));
    }
  }

  /** More generally text mode gives the file without its carriage returns, if none come in threes. */
  lemma ReturnsAreDropped(p: Prefixes, maxlen: nat, f: seq<byte>)
    requires p.Usable() && maxlen >= Room(p) && ReturnsApart(CrLf(f))
    ensures DecodeEach(p, true, Sent(p, maxlen, CrLf(f))) == Decoded(Kept(true, f), true)
  {
    ReturnsSentSingly(p, CrLf(f));
    FileRoundTrip(p, true, maxlen, CrLf(f));
    CrLfKept(f);
  }

  /** Where they do, the count of the dropped run is spent on the next character. */
  lemma ReturnRunRepeatsNext(p: Prefixes, n: nat, a: byte)
    requires p.Usable() && p.rptOn && 3 <= n <= MAX_RUN && a != CR
    ensures Units(p, Rep(CR, n) + [a]) == [Unit(n, CR), Unit(1, a)]
    ensures Decode(p, true, SpellAll(p, Units(p, Rep(CR, n) + [a])), 0) == Decoded(Rep(a, n), true)
  {
    var one := [Unit(1, a)];
    var us := [Unit(n, CR)] + one;
    UnitsStep(p, CR, n, [a]);
    UnitsStep(p, a, 1, []);
    assert Rep(a, 1) + [] == [a];
    assert us[1..] == one && one[1..] == [];
    hide Spell, Units;
    var second := SpellAll(p, one);
    assert second == Spell(p, one[0]) + SpellAll(p, one[1..]);
    UnitParses(p, us[0], second);
    UnitParses(p, one[0], []);
    assert Decode(p, true, [], 0) == Decoded([], true);
    assert TakeItem(p, second) == Item(false, 0, a, []);
    assert Decode(p, true, second, n) == Decoded(Rep(a, n) + [], true);
  }
}

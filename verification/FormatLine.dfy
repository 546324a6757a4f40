/** format_line(): a line of text as the cells of a screen row. */
module FormatLine {
  import opened Bytes
  import opened Lines
  import opened View

  const TILDE: byte := 126
  const DOT: byte := 46
  const CARET: byte := 94
  const QUESTION: byte := 63

  /** How a screen is laid out; `high` holds the printable characters with the 8th bit. */
  datatype Layout = Layout(columns: nat, tabstop: nat, offset: nat, high: set<byte>) {
    predicate Valid() {
      columns >= 2 && tabstop >= 1
    }
  }

  // ------------------------------------------------ the simple description

  /** The cells of a character that starts in column co. */
  function Glyph(l: Layout, co: nat, c: byte): (g: seq<byte>)
    requires l.Valid()
    ensures co + |g| == Advance(l.tabstop, co, c)
  {
    if c == View.TAB then Rep(SP, l.tabstop - co % l.tabstop)
    else if c == DEL then [CARET, QUESTION]
    else if c < 32 then [CARET, c + 64]
    else if c >= 128 && c !in l.high then [DOT]
    else [c]
  }

  /** All cells of a line, from column 0. */
  function Expand(l: Layout, s: seq<byte>): (e: seq<byte>)
    requires l.Valid()
    ensures |e| == ColumnAfter(l.tabstop, s)
  {
    if s == [] then []
    else
      var before := Expand(l, s[..|s| - 1]);
      before + Glyph(l, |before|, s[|s| - 1])
  }

  /** The part of a row of cells that shows: `columns` cells from `offset` on, padded with spaces. */
  function Visible(l: Layout, cells: seq<byte>): (r: seq<byte>)
    ensures |r| == l.columns
  {
    seq(l.columns, i requires 0 <= i < l.columns => if l.offset + i < |cells| then cells[l.offset + i] else SP)
  }

  /** The text of the line from position p on. */
  function LineFrom(t: seq<byte>, p: nat): seq<byte>
    requires p < |t|
  {
    t[p..EndLine(t, p)]
  }

  /** The row for position p: behind the text it is a tilde. */
  function Row(l: Layout, t: seq<byte>, p: nat): (r: seq<byte>)
    requires l.Valid() && p <= |t|
    ensures |r| == l.columns
  {
    Visible(l, if p < |t| then Expand(l, LineFrom(t, p)) else [TILDE])
  }

  /**
   * What each character looks like: a tab is spaces up to the next multiple of the
   * tabstop; a control character is a caret and the character ctl() makes of it;
   * octets with the 8th bit that the terminal does not print are dots.
   */
  lemma GlyphMeans(l: Layout, co: nat, c: byte)
    requires l.Valid()
    ensures var g := Glyph(l, co, c);
            if c == 9 then 1 <= |g| <= l.tabstop && (co + |g|) % l.tabstop == 0 && forall i :: 0 <= i < |g| ==> g[i] == 32
            else if c < 32 || c == 127 then |g| == 2 && g[0] == 94 && Ctl(g[1]) == c
            else g == [if c >= 128 && c !in l.high then 46 else c]
  {
    if c == 9 {
      NextStop(co, l.tabstop);
    }
  }

  lemma NextStop(co: nat, m: nat)
    requires m >= 1
    ensures (co + (m - co % m)) % m == 0
  {
    assert co == co / m * m + co % m;
    ModUnique(co + (m - co % m), co / m + 1, 0, m);
  }

  /** A row behind the text is a tilde in column 0, and otherwise blank. */
  lemma FillerRow(l: Layout, t: seq<byte>, k: nat)
    requires l.Valid() && k < l.columns
    ensures Row(l, t, |t|)[k] == if l.offset + k == 0 then 126 else 32
  {
  }

  // --------------------------------------- how far format_line() reads a line

  /** What discarding scrolled-off cells leaves: the cells in the buffer and the offset still due. */
  function Discard(l: Layout, co: nat, ofs: nat): (nat, nat) {
    if ofs >= l.tabstop && co >= l.tabstop then (co - l.tabstop, ofs - l.tabstop) else (co, ofs)
  }

  /** How many characters of a line the main loop takes in before the buffer is full. */
  function Scan(l: Layout, s: seq<byte>, i: nat, co: nat, ofs: nat): (n: nat)
    requires l.Valid() && i <= |s|
    ensures i <= n <= |s|
    decreases |s| - i
  {
    if co >= l.columns + l.tabstop || i == |s| then i
    else
      var (co', ofs') := Discard(l, Advance(l.tabstop, co, s[i]), ofs);
      Scan(l, s, i + 1, co', ofs')
  }

  /** The row format_line() makes for position p: what shows of the part of the line it reads. */
  function Drawn(l: Layout, t: seq<byte>, p: nat): (r: seq<byte>)
    requires l.Valid() && p <= |t|
    ensures |r| == l.columns
  {
    Visible(l, if p == |t| then [TILDE] else Expand(l, LineFrom(t, p)[..Scan(l, LineFrom(t, p), 0, 0, l.offset)]))
  }

  // ------------------------------------------------------------ the algorithm

  lemma ExpandNext(l: Layout, s: seq<byte>, i: nat)
    requires l.Valid() && i < |s|
    ensures Expand(l, s[..i + 1]) == Expand(l, s[..i]) + Glyph(l, |Expand(l, s[..i])|, s[i])
  {
    assert s[..i + 1][..i] == s[..i];
  }

  /** A tab stops at the same place whether or not whole tabstops were discarded before it. */
  lemma GlyphShift(l: Layout, co: nat, dropped: nat, c: byte)
    requires l.Valid() && dropped % l.tabstop == 0 && dropped <= co
    ensures Glyph(l, co - dropped, c) == Glyph(l, co, c)
  {
    ModShift(co, dropped, l.tabstop);
  }

  lemma ModShift(a: nat, b: nat, m: nat)
    requires m > 0 && b % m == 0 && b <= a
    ensures (a - b) % m == a % m
  {
    var q, r := a / m, a % m;
    var k := b / m;
    assert a - b == (q - k) * m + r;
    ModUnique(a - b, q - k, r, m);
  }

  lemma ModUnique(x: nat, q: int, r: nat, m: nat)
    requires m > 0 && r < m && x == q * m + r
    ensures x % m == r
  {
    var d := x / m - q;
    assert d * m == r - x % m;
    if d >= 1 {
      MulAtLeast(d, m);
    } else if d <= -1 {
      MulAtLeast(-d, m);
    }
  }

  lemma MulAtLeast(d: int, m: nat)
    requires d >= 1
    ensures d * m >= m
  {
  }

  const MAX_SCR_COLS := 4096
  const MAX_TABSTOP := 32

  /** The size of scr_out_buf. */
  const SCR_OUT := MAX_SCR_COLS + 2 * MAX_TABSTOP

  /**
   * The screen is within the limits, and scr_out_buf has room for its rows. It
   * has for tabstops of two and more; at one, the offset can move a row as far
   * behind the start of the buffer as the row is long.
   */
  predicate Fits(columns: nat, tabstop: nat) {
    && 2 <= columns <= MAX_SCR_COLS && 1 <= tabstop <= MAX_TABSTOP
    && (tabstop == 1 ==> 2 * columns + 2 <= SCR_OUT)
  }

  class Formatter {
    const l: Layout
    const buf: array<byte>

    ghost predicate Valid() {
      l.Valid() && Fits(l.columns, l.tabstop) && buf.Length == SCR_OUT
    }

    constructor (l: Layout)
      requires l.Valid() && Fits(l.columns, l.tabstop)
      ensures Valid() && this.l == l && fresh(buf)
    {
      this.l := l;
      buf := new byte[SCR_OUT](_ => 0);
    }

    method Put(co: nat, c: byte) returns (co': nat)
      requires co < buf.Length
      modifies buf
      ensures co' == co + 1 && buf[..co'] == old(buf[..co]) + [c]
    {
      buf[co] := c;
      co' := co + 1;
    }

    /** One character into the buffer. */
    method PutChar(co0: nat, c0: byte) returns (co: nat)
      requires Valid() && Advance(l.tabstop, co0, c0) <= buf.Length && c0 != LF
      modifies buf
      ensures co == co0 + |Glyph(l, co0, c0)| <= buf.Length
      ensures buf[..co] == old(buf[..co0]) + Glyph(l, co0, c0)
    {
      var c := c0;
      co := co0;
      if c >= 128 && c !in l.high {
        c := DOT;
      }
      if c < 32 || c == DEL {
        if c == View.TAB {
          c := SP;
          ghost var start := buf[..co];
          ghost var width := l.tabstop - co0 % l.tabstop;
          while co % l.tabstop != l.tabstop - 1
            invariant co0 <= co <= co0 + width - 1
            invariant co == co0 + width - 1 ==> co % l.tabstop == l.tabstop - 1
            invariant buf[..co] == start + Rep(SP, co - co0)
            decreases co0 + width - co
          {
            StillBefore(co0, co, l.tabstop);
            co := Put(co, c);
            StillBefore(co0, co, l.tabstop);
          }
          StillBefore(co0, co, l.tabstop);
          assert Rep(SP, width) == Rep(SP, width - 1) + [SP];
        } else {
          co := Put(co, CARET);
          if c == DEL {
            c := QUESTION;
          } else {
            c := c + 64;
          }
        }
      }
      co := Put(co, c);
    }

    /** The first `co` cells of buf are those of `cells` that are left when the first `dropped` are gone. */
    ghost predicate Holds(co: nat, cells: seq<byte>, dropped: nat)
      requires co <= buf.Length
      reads buf
    {
      dropped <= |cells| && buf[..co] == cells[dropped..]
    }

    /** One pass of the main loop: a character goes in, and a tabstop's worth may go out. */
    method Take(co0: nat, ofs0: nat, c: byte, ghost cells: seq<byte>, ghost dropped: nat) returns (co: nat, ofs: nat)
      requires Valid() && co0 < l.columns + l.tabstop && c != LF
      requires Holds(co0, cells, dropped) && dropped % l.tabstop == 0 && dropped + ofs0 == l.offset
      modifies buf
      ensures (co, ofs) == Discard(l, Advance(l.tabstop, co0, c), ofs0)
      ensures co <= buf.Length && ofs <= l.offset && (l.offset - ofs) % l.tabstop == 0
      ensures Holds(co, cells + Glyph(l, |cells|, c), l.offset - ofs)
    {
      hide Glyph;
      AdvanceBound(l, co0, c);
      GlyphShift(l, |cells|, dropped, c);
      ghost var more := cells + Glyph(l, |cells|, c);
      co := PutChar(co0, c);
      assert buf[..co] == more[dropped..];
      co, ofs := Drop(co, ofs0, more, dropped);
    }

    /** The discard of a tabstop's worth of cells that are scrolled off. */
    method Drop(co0: nat, ofs0: nat, ghost cells: seq<byte>, ghost dropped: nat) returns (co: nat, ofs: nat)
      requires Valid() && co0 <= buf.Length && Holds(co0, cells, dropped)
      requires dropped % l.tabstop == 0 && dropped + ofs0 == l.offset
      modifies buf
      ensures (co, ofs) == Discard(l, co0, ofs0)
      ensures co <= buf.Length && ofs <= l.offset && (l.offset - ofs) % l.tabstop == 0
      ensures Holds(co, cells, l.offset - ofs)
    {
      co, ofs := co0, ofs0;
      if ofs >= l.tabstop && co >= l.tabstop {
        ghost var before := buf[..co];
        // the move also copies what is behind the cells, which does not matter
        forall i | 0 <= i < co - l.tabstop {
          buf[i] := buf[i + l.tabstop];
        }
        co := co - l.tabstop;
        ofs := ofs - l.tabstop;
        assert buf[..co] == before[l.tabstop..];
        ModStep(dropped, l.tabstop);
      }
    }

    /** The main loop on a line that exists. */
    method TakeLine(t: seq<byte>, src0: nat) returns (co: nat, ofs: nat)
      requires Valid() && IsText(t) && src0 < |t|
      modifies buf
      ensures var line := LineFrom(t, src0);
              var cells := Expand(l, line[..Scan(l, line, 0, 0, l.offset)]);
              co <= buf.Length && ofs <= l.offset && InStep(l, co, ofs) && co < l.columns + 2 * l.tabstop + 1
              && Holds(co, cells, l.offset - ofs)
    {
      hide Glyph, Expand, Advance;
      EndLineSpec(t, src0);
      ghost var line := LineFrom(t, src0);
      var src := src0;
      co, ofs := 0, l.offset;
      EmptyCells(l, line);
      while co < l.columns + l.tabstop
        invariant src0 <= src <= src0 + |line| && ofs <= l.offset && (l.offset - ofs) % l.tabstop == 0
        invariant InStep(l, co, ofs) && co < l.columns + 2 * l.tabstop + 1
        invariant Holds(co, Expand(l, line[..src - src0]), l.offset - ofs)
        invariant src < |t|
        invariant Scan(l, line, 0, 0, l.offset) == Scan(l, line, src - src0, co, ofs)
        decreases |t| - src
      {
        var c := t[src];
        src := src + 1;
        if c == LF {
          AtEnd(t, src0, src - 1);
          return;
        }
        NotAtEnd(t, src0, src - 1);
        ExpandNext(l, line, src - 1 - src0);
        AdvanceBound(l, co, c);
        InStepKept(l, co, ofs, c);
        co, ofs := Take(co, ofs, c, Expand(l, line[..src - 1 - src0]), l.offset - ofs);
        if src >= |t| {
          break;
        }
      }
    }

    /** format_line(): the row is the visible part of what the main loop took in. */
    method FormatLine(t: seq<byte>, src: nat) returns (row: seq<byte>)
      requires Valid() && IsText(t) && src <= |t|
      modifies buf
      ensures row == Drawn(l, t, src)
    {
      hide Expand, Scan;
      var co, ofs := 0, l.offset;
      ghost var cells := [TILDE];
      if src < |t| {
        co, ofs := TakeLine(t, src);
        cells := Expand(l, LineFrom(t, src)[..Scan(l, LineFrom(t, src), 0, 0, l.offset)]);
      } else {
        co := Put(0, TILDE);
        if ofs >= l.tabstop && co >= l.tabstop {
          co := co - l.tabstop;
          ofs := ofs - l.tabstop;
        }
      }
      assert Holds(co, cells, l.offset - ofs);
      row := Finish(co, ofs, cells);
    }

    /** The end of format_line(): the last partial discard, and the padding. */
    method Finish(co0: nat, ofs0: nat, ghost cells: seq<byte>) returns (row: seq<byte>)
      requires Valid() && co0 <= buf.Length && InStep(l, co0, ofs0) && Holds(co0, cells, l.offset - ofs0)
      requires l.tabstop == 1 ==> co0 <= l.columns + 2
      modifies buf
      ensures row == Visible(l, cells)
    {
      var co, ofs, dest := co0, ofs0, 0;
      if co < ofs {
        ofs := co;
      }
      co := co - ofs;
      dest := dest + ofs;
      ghost var shown := buf[dest..dest + co];
      assert co0 >= ofs0 ==> shown == cells[l.offset..];
      assert co0 < ofs0 ==> shown == [] && |cells| < l.offset;
      if co < l.columns {
        forall i | dest + co <= i < dest + l.columns {
          buf[i] := SP;
        }
      }
      row := buf[dest..dest + l.columns];
      forall i | 0 <= i < l.columns
        ensures row[i] == if i < co then shown[i] else SP
      {
        assert row[i] == buf[dest + i];
      }
      PaddedIsVisible(l, cells, shown, row);
    }
  }

  lemma PaddedIsVisible(l: Layout, cells: seq<byte>, shown: seq<byte>, row: seq<byte>)
    requires shown == (if l.offset <= |cells| then cells[l.offset..] else []) && |row| == l.columns
    requires forall i :: 0 <= i < |shown| && i < l.columns ==> row[i] == shown[i]
    requires forall i :: |shown| <= i < l.columns ==> row[i] == SP
    ensures row == Visible(l, cells)
  {
  }

  lemma ModStep(a: nat, m: nat)
    requires m > 0 && a % m == 0
    ensures (a + m) % m == 0
  {
    ModUnique(a + m, a / m + 1, 0, m);
  }

  lemma EmptyCells(l: Layout, line: seq<byte>)
    requires l.Valid()
    ensures Expand(l, line[..0]) == []
  {
  }

  lemma AdvanceBound(l: Layout, co: nat, c: byte)
    requires l.Valid()
    ensures co < Advance(l.tabstop, co, c)
    ensures Advance(l.tabstop, co, c) <= co + if l.tabstop == 1 then 2 else l.tabstop
  {
  }

  /** The loop meets the newline where the line ends. */
  lemma AtEnd(t: seq<byte>, src: nat, p: nat)
    requires IsText(t) && src < |t| && src <= p <= EndLine(t, src) && t[p] == LF
    ensures p - src == |LineFrom(t, src)|
  {
    EndLineSpec(t, src);
  }

  lemma NotAtEnd(t: seq<byte>, src: nat, p: nat)
    requires IsText(t) && src < |t| && src <= p <= EndLine(t, src) && t[p] != LF
    ensures p - src < |LineFrom(t, src)| && LineFrom(t, src)[p - src] == t[p]
  {
    EndLineSpec(t, src);
  }

  // ----------------------------------------- reading that far is far enough

  /** What the loop has discarded keeps step with the offset, and no character can outrun a tabstop of two or more. */
  predicate InStep(l: Layout, co: nat, ofs: nat) {
    && ofs <= l.offset
    && (l.tabstop >= 2 && ofs >= l.tabstop ==> co < l.tabstop)
    && (l.tabstop == 1 && ofs >= 1 ==> co + ofs <= l.offset && co <= l.columns + 1)
  }

  lemma AdvanceFromStart(m: nat, co: nat, c: byte)
    requires m >= 2 && co < m
    ensures co < Advance(m, co, c) <= m + 1
  {
    ModUnique(co, 0, co, m);
  }

  lemma AdvanceByOne(co: nat, c: byte)
    ensures co + 1 <= Advance(1, co, c) <= co + 2
  {
  }

  lemma InStepKept(l: Layout, co: nat, ofs: nat, c: byte)
    requires l.Valid() && InStep(l, co, ofs) && co < l.columns + l.tabstop
    ensures var (co', ofs') := Discard(l, Advance(l.tabstop, co, c), ofs);
            InStep(l, co', ofs')
  {
    hide Advance;
    if l.tabstop == 1 {
      AdvanceByOne(co, c);
    } else if ofs >= l.tabstop {
      AdvanceFromStart(l.tabstop, co, c);
    }
  }

  /** When the loop stops, the line is used up or the window is covered. */
  lemma {:induction false} ScanCovers(l: Layout, s: seq<byte>, i: nat, co: nat, ofs: nat)
    requires l.Valid() && i <= |s| && (l.tabstop >= 2 || l.offset <= l.columns + 2)
    requires InStep(l, co, ofs) && |Expand(l, s[..i])| == co + l.offset - ofs && (l.offset - ofs) % l.tabstop == 0
    ensures var n := Scan(l, s, i, co, ofs);
            n == |s| || |Expand(l, s[..n])| >= l.offset + l.columns
    decreases |s| - i
  {
    hide Expand, Glyph;
    if !(co >= l.columns + l.tabstop || i == |s|) {
      InStepKept(l, co, ofs, s[i]);
      ExpandNext(l, s, i);
      AdvanceShift(l, co, l.offset - ofs, s[i]);
      if ofs >= l.tabstop {
        ModStep(l.offset - ofs, l.tabstop);
      }
      var (co', ofs') := Discard(l, Advance(l.tabstop, co, s[i]), ofs);
      ScanCovers(l, s, i + 1, co', ofs');
    }
  }

  lemma AdvanceShift(l: Layout, co: nat, dropped: nat, c: byte)
    requires l.Valid() && dropped % l.tabstop == 0
    ensures Advance(l.tabstop, co + dropped, c) == Advance(l.tabstop, co, c) + dropped
  {
    ModShift(co + dropped, dropped, l.tabstop);
  }

  lemma {:induction false} ExpandPrefix(l: Layout, s: seq<byte>, n: nat)
    requires l.Valid() && n <= |s|
    ensures Expand(l, s[..n]) <= Expand(l, s)
    decreases |s| - n
  {
    hide Expand, Glyph;
    if n == |s| {
      assert s[..n] == s;
    } else {
      ExpandNext(l, s, n);
      ExpandPrefix(l, s, n + 1);
    }
  }

  /** The row format_line() makes is the one wanted for this line. */
  ghost predicate Exact(l: Layout, line: seq<byte>)
    requires l.Valid()
  {
    Visible(l, Expand(l, line[..Scan(l, line, 0, 0, l.offset)])) == Visible(l, Expand(l, line))
  }

  lemma ExactInside(l: Layout, line: seq<byte>)
    requires l.Valid() && (l.tabstop >= 2 || l.offset <= l.columns + 2)
    ensures Exact(l, line)
  {
    hide Expand, Glyph, Scan;
    EmptyCells(l, line);
    ScanCovers(l, line, 0, 0, l.offset);
    var n := Scan(l, line, 0, 0, l.offset);
    ExpandPrefix(l, line, n);
    assert line[..|line|] == line;
  }

  /** format_line() draws the row it should. */
  lemma DrawnIsRow(l: Layout, t: seq<byte>, p: nat)
    requires l.Valid() && p <= |t| && (l.tabstop >= 2 || l.offset <= l.columns + 2)
    ensures Drawn(l, t, p) == Row(l, t, p)
  {
    hide Expand, Scan, Visible;
    if p < |t| {
      ExactInside(l, LineFrom(t, p));
    }
  }

  /** A line of control characters and then letters, on which a tabstop of one falls behind. */
  function Laggard(l: Layout): seq<byte> {
    Rep(1, l.columns + 1) + Rep(120, l.offset + l.columns)
  }

  lemma {:induction false} LaggardScan(l: Layout, i: nat)
    requires l.Valid() && l.tabstop == 1 && l.offset >= l.columns + 3 && i <= l.columns + 1
    ensures Scan(l, Laggard(l), i, i, l.offset - i) == l.columns + 1
    decreases l.columns + 1 - i
  {
    if i < l.columns + 1 {
      assert Laggard(l)[i] == 1;
      LaggardScan(l, i + 1);
    }
  }

  predicate Letters(cells: seq<byte>, from: nat) {
    forall k :: from <= k < |cells| ==> cells[k] == 120
  }

  lemma LettersAppend(cells: seq<byte>, g: seq<byte>, from: nat)
    requires Letters(cells, from) && (g == [120] || |cells| + |g| <= from)
    ensures Letters(cells + g, from)
  {
  }

  lemma LaggardAt(l: Layout, i: nat)
    requires i < |Laggard(l)|
    ensures Laggard(l)[i] == if i < l.columns + 1 then 1 else 120
  {
  }

  lemma {:induction false} LaggardCells(l: Layout, n: nat)
    requires l.Valid() && n <= |Laggard(l)|
    ensures |Expand(l, Laggard(l)[..n])| == n + if n <= l.columns + 1 then n else l.columns + 1
    ensures Letters(Expand(l, Laggard(l)[..n]), 2 * (l.columns + 1))
  {
    hide Expand, Glyph, Laggard, Letters;
    if n == 0 {
      EmptyCells(l, Laggard(l));
      assert Letters([], 2 * (l.columns + 1)) by {
        NoLetters(2 * (l.columns + 1));
      }
    } else {
      LaggardCells(l, n - 1);
      ExpandNext(l, Laggard(l), n - 1);
      var before := Expand(l, Laggard(l)[..n - 1]);
      LaggardGlyphs(l, |before|);
      LaggardAt(l, n - 1);
      LettersAppend(before, Glyph(l, |before|, Laggard(l)[n - 1]), 2 * (l.columns + 1));
    }
  }

  lemma NoLetters(from: nat)
    ensures Letters([], from)
  {
  }

  lemma LaggardGlyphs(l: Layout, co: nat)
    requires l.Valid()
    ensures |Glyph(l, co, 1)| == 2 && Glyph(l, co, 120) == [120]
  {
  }

  lemma ExactOutside(l: Layout)
    requires l.Valid() && l.tabstop == 1 && l.offset >= l.columns + 3
    ensures !Exact(l, Laggard(l))
  {
    hide Expand, Scan, Laggard;
    var line := Laggard(l);
    LaggardLength(l);
    LaggardScan(l, 0);
    LaggardCells(l, l.columns + 1);
    LaggardCells(l, |line|);
    assert line[..|line|] == line;
    var i := l.columns - 1;
    assert Visible(l, Expand(l, line))[i] == 120;
    assert Visible(l, Expand(l, line[..l.columns + 1]))[i] == SP;
  }

  lemma LaggardLength(l: Layout)
    ensures |Laggard(l)| == 2 * l.columns + 1 + l.offset
  {
  }

  /** Every line is drawn as it should be exactly when tabstops are at least two apart or little is scrolled off. */
  lemma ExactForAllLines(l: Layout)
    requires l.Valid()
    ensures (forall line :: Exact(l, line)) <==> l.tabstop >= 2 || l.offset <= l.columns + 2
  {
    hide Exact;
    if l.tabstop >= 2 || l.offset <= l.columns + 2 {
      forall line: seq<byte>
        ensures Exact(l, line)
      {
        ExactInside(l, line);
      }
    } else {
      ExactOutside(l);
    }
  }

  /** The first cell of the character at position d is drawn where the cursor is put for d. */
  lemma CursorIsOnItsCharacter(l: Layout, t: seq<byte>, d: nat, col: nat)
    requires l.Valid() && IsText(t) && d < |t| && t[d] != LF
    requires col < l.columns && l.offset + col == ColumnOf(l.tabstop, t, d)
    ensures Row(l, t, BeginLine(t, d))[col] == Glyph(l, l.offset + col, t[d])[0]
  {
    hide Glyph, Expand, Advance, ColumnAfter;
    var b := BeginLine(t, d);
    BeginLineSpec(t, d);
    SameEnd(t, b, d);
    var line := LineFrom(t, b);
    EndLineSpec(t, d);
    PieceOf(t, b, d, EndLine(t, b));
    ExpandNext(l, line, d - b);
    GlyphNotEmpty(l, l.offset + col, t[d]);
    assert Expand(l, line[..d - b + 1])[l.offset + col] == Glyph(l, l.offset + col, t[d])[0];
    ExpandPrefix(l, line, d - b + 1);
  }

  lemma PieceOf<T>(t: seq<T>, b: nat, d: nat, e: nat)
    requires b <= d < e <= |t|
    ensures t[b..e][..d - b] == t[b..d] && t[b..e][d - b] == t[d]
  {
  }

  lemma GlyphNotEmpty(l: Layout, co: nat, c: byte)
    requires l.Valid()
    ensures |Glyph(l, co, c)| >= 1
  {
  }

  lemma {:induction false} SameEnd(t: seq<byte>, b: nat, d: nat)
    requires b <= d < |t| && forall i :: b <= i < d ==> t[i] != LF
    ensures EndLine(t, b) == EndLine(t, d)
    decreases d - b
  {
    if b < d {
      SameEnd(t, b + 1, d);
    }
  }

  /** Within the tab's own cells the column number runs up to the last one before the stop. */
  lemma StillBefore(co0: nat, co: nat, m: nat)
    requires m > 0 && co0 <= co <= co0 + (m - co0 % m) - 1
    ensures co % m == co0 % m + (co - co0)
  {
    ModUnique(co, co0 / m, co0 % m + (co - co0), m);
  }
}

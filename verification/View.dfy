/** The window on the text: sync_cursor() keeps the cursor's line and column on the screen. */
module View {
  import opened Bytes
  import opened Lines

  const TAB: byte := 9
  const DEL: byte := 127

  /** The column behind a character that starts in column co. */
  function Advance(tabstop: nat, co: nat, c: byte): nat
    requires tabstop > 0
  {
    if c == TAB then co + (tabstop - 1 - co % tabstop) + 1
    else if c < 32 || c == DEL then co + 2
    else co + 1
  }

  /** The column behind a piece of a line. */
  function ColumnAfter(tabstop: nat, s: seq<byte>): nat
    requires tabstop > 0
  {
    if s == [] then 0 else Advance(tabstop, ColumnAfter(tabstop, s[..|s| - 1]), s[|s| - 1])
  }

  /** Where the cursor belongs: the column of position d in its line. */
  function ColumnOf(tabstop: nat, t: seq<byte>, d: nat): nat
    requires tabstop > 0 && d < |t|
  {
    ColumnAfter(tabstop, t[BeginLine(t, d)..d])
  }

  /** The line of b is one of the `n` lines shown from position top. */
  predicate Shown(t: seq<byte>, top: nat, n: nat, b: nat)
    requires top <= |t| && b <= |t|
  {
    top <= b && LineOf(t, b) < LineOf(t, top) + n
  }

  /**
   * Where the top of the screen goes for a cursor in `line`: as little as can be
   * if that is no more than half a screen, otherwise so that the cursor is in the
   * middle. `above` says that the line starts before the screen does.
   */
  predicate Scrolled(rows: nat, line: nat, top: nat, above: bool, now: nat)
    requires rows >= 2
  {
    var half := (rows - 1) / 2;
    var middle := if line >= half then line - half else 0;
    if above then now == if top - line + 1 <= half then line else middle
    else if line > top + rows - 2 then now == if line - (top + rows - 2) + 1 <= half then line - (rows - 2) else middle
    else now == top
  }

  class Window {
    const rows: nat
    const columns: nat
    const tabstop: nat
    var screenbegin: nat
    var offset: nat

    ghost predicate Valid(t: seq<byte>)
      reads this
    {
      rows >= 2 && columns >= 2 && tabstop >= 1 && IsText(t) && screenbegin < |t|
    }

    constructor (rows: nat, columns: nat, tabstop: nat)
      requires rows >= 2 && columns >= 2 && tabstop >= 1
      ensures this.rows == rows && this.columns == columns && this.tabstop == tabstop
      ensures screenbegin == 0 && offset == 0
    {
      this.rows, this.columns, this.tabstop := rows, columns, tabstop;
      screenbegin, offset := 0, 0;
    }

    /** end_screen(): the newline of the last line shown. */
    method EndScreen(t: seq<byte>) returns (q: nat)
      requires Valid(t)
      ensures q < |t| && q == EndLine(t, Steps(t, screenbegin, rows - 2))
    {
      q := screenbegin;
      for cnt := 0 to rows - 2
        invariant q == Steps(t, screenbegin, cnt)
      {
        q := NextLine(t, q);
      }
      q := EndLine(t, q);
    }

    /** Label sc1: the cursor line becomes the top line, or the middle one if that is a long way. */
    method MoveTop(t: seq<byte>, beg: nat, cnt: nat)
      requires Valid(t) && IsLineStart(t, beg)
      modifies this`screenbegin
      ensures Valid(t) && IsLineStart(t, screenbegin) && screenbegin <= beg
      ensures var up := if cnt > (rows - 1) / 2 then (rows - 1) / 2 else 0;
              LineOf(t, screenbegin) == if LineOf(t, beg) >= up then LineOf(t, beg) - up else 0
    {
      screenbegin := beg;
      if cnt > (rows - 1) / 2 {
        for i := 0 to (rows - 1) / 2
          invariant IsLineStart(t, screenbegin) && screenbegin <= beg
          invariant LineOf(t, screenbegin) == if LineOf(t, beg) >= i then LineOf(t, beg) - i else 0
        {
          PrevLineSpec(t, screenbegin);
          screenbegin := PrevLine(t, screenbegin);
        }
      }
    }

    /** The screen follows the cursor down by a few lines. */
    method ScrollDown(t: seq<byte>, beg: nat, cnt: nat, bottom: nat)
      requires Valid(t) && IsLineStart(t, beg) && bottom < |t| && 2 <= cnt <= (rows - 1) / 2
      requires LineOf(t, screenbegin) + (rows - 2) + (cnt - 1) == LineOf(t, beg)
      modifies this`screenbegin
      ensures Valid(t) && screenbegin <= beg
      ensures LineOf(t, screenbegin) + (rows - 2) == LineOf(t, beg)
    {
      var end_scr: nat := bottom;
      LineInRange(t, beg);
      for ro := 0 to cnt - 1
        invariant Valid(t) && end_scr < |t|
        invariant LineOf(t, screenbegin) == LineOf(t, old(screenbegin)) + ro
      {
        NextLineSpec(t, screenbegin);
        screenbegin := NextLine(t, screenbegin);
        end_scr := NextLine(t, end_scr);
        end_scr := EndLine(t, end_scr);
      }
      InLine(t, beg, screenbegin);
    }

    /** The first half of sync_cursor(): moves the screen until the cursor line is on it. */
    method ShowLine(t: seq<byte>, beg: nat)
      requires Valid(t) && IsLineStart(t, beg)
      modifies this`screenbegin
      ensures Valid(t) && Shown(t, screenbegin, rows - 1, beg)
      ensures old(Shown(t, screenbegin, rows - 1, beg)) ==> screenbegin == old(screenbegin)
      ensures var line, top, now := LineOf(t, beg), LineOf(t, old(screenbegin)), LineOf(t, screenbegin);
              Scrolled(rows, line, top, old(beg < screenbegin), now)
    {
      if beg < screenbegin {
        var cnt := CountLines(t, beg, screenbegin);
        MoveTop(t, beg, cnt);
      } else {
        var end_scr := EndScreen(t);
        BottomSpec(t, screenbegin, rows - 2, beg);
        if beg > end_scr {
          var cnt := CountLines(t, end_scr, beg);
          if cnt > (rows - 1) / 2 {
            MoveTop(t, beg, cnt);
          } else {
            ScrollDown(t, beg, cnt, end_scr);
          }
        }
      }
    }

    /** The loop that looks for the cursor line among the lines shown. */
    method FindRow(t: seq<byte>, beg: nat) returns (ro: nat, tp: nat)
      requires Valid(t) && IsLineStart(t, beg) && Shown(t, screenbegin, rows - 1, beg)
      ensures ro < rows - 1 && tp == beg && Steps(t, screenbegin, ro) == beg
      ensures LineOf(t, screenbegin) + ro == LineOf(t, beg)
    {
      tp := screenbegin;
      ro := 0;
      ghost var n := LineOf(t, beg) - LineOf(t, screenbegin);
      LineInRange(t, beg);
      LineOfMonotone(t, screenbegin, beg);
      while ro < rows - 1
        invariant ro <= n && tp == Steps(t, screenbegin, ro) && tp < |t|
      {
        StepsSpec(t, screenbegin, ro);
        if ro == n && ro > 0 {
          LineStartOrder(t, tp, beg);
        } else if ro == n {
          SameLineStart(t, screenbegin, beg);
        }
        if tp == beg {
          break;
        }
        tp := NextLine(t, tp);
        ro := ro + 1;
      }
    }

    /** The loop that measures the column of d from the start of its line. */
    method FindColumn(t: seq<byte>, beg: nat, d: nat) returns (co: nat)
      requires tabstop >= 1 && beg <= d < |t| && forall i :: beg <= i < d ==> t[i] != LF
      ensures co == ColumnAfter(tabstop, t[beg..d])
    {
      co := 0;
      var tp := beg;
      while tp < d
        invariant beg <= tp <= d && co == ColumnAfter(tabstop, t[beg..tp])
      {
        if t[tp] == LF {
          break;
        }
        assert t[beg..tp + 1][..tp - beg] == t[beg..tp];
        if t[tp] == TAB {
          co := co + (tabstop - 1 - co % tabstop);
        } else if t[tp] < 32 || t[tp] == DEL {
          co := co + 1;
        }
        co := co + 1;
        tp := tp + 1;
      }
    }

    /**
     * sync_cursor(d): d's line is on the screen, `row` lines below its top, and
     * d's column is in the window. What is already in view is not moved.
     */
    method SyncCursor(t: seq<byte>, d: nat) returns (row: nat, col: nat)
      requires Valid(t) && d < |t|
      modifies this
      ensures Valid(t)
      ensures row < rows - 1 && Steps(t, screenbegin, row) == BeginLine(t, d)
      ensures LineOf(t, screenbegin) + row == LineOf(t, d)
      ensures col < columns && offset + col == ColumnOf(tabstop, t, d)
      ensures old(Shown(t, screenbegin, rows - 1, BeginLine(t, d))) ==> screenbegin == old(screenbegin)
      ensures Scrolled(rows, LineOf(t, d), LineOf(t, old(screenbegin)), old(BeginLine(t, d) < screenbegin), LineOf(t, screenbegin))
      ensures d == BeginLine(t, d) && t[d] == TAB ==> offset == 0 && col == ColumnOf(tabstop, t, d)
      ensures !(d == BeginLine(t, d) && t[d] == TAB) && ColumnOf(tabstop, t, d) < old(offset) ==> col == 0
      ensures !(d == BeginLine(t, d) && t[d] == TAB) && ColumnOf(tabstop, t, d) >= old(offset) + columns ==> col == columns - 1
      ensures !(d == BeginLine(t, d) && t[d] == TAB) && old(offset) <= ColumnOf(tabstop, t, d) < old(offset) + columns
              ==> offset == old(offset)
    {
      var beg_cur := BeginLine(t, d);
      BeginLineSpec(t, d);
      ShowLine(t, beg_cur);
      var ro, tp := FindRow(t, beg_cur);
      var co := FindColumn(t, tp, d);
      if co < 0 + offset {
        offset := co;
      }
      if co >= columns + offset {
        offset := co - columns + 1;
      }
      if d == beg_cur && t[d] == TAB {
        offset := 0;
      }
      assert d == beg_cur ==> t[beg_cur..d] == [];
      co := co - offset;
      row, col := ro, co;
    }
  }

  /** A line start that is in the line of the top of the screen, and not above it, is the top. */
  lemma SameLineStart(t: seq<byte>, top: nat, beg: nat)
    requires IsText(t) && top <= beg && IsLineStart(t, beg) && LineOf(t, top) == LineOf(t, beg)
    ensures top == beg
  {
    if top < beg {
      LineOfStrict(t, top, beg - 1, beg);
    }
  }

  /** A line below the last line shown lies behind its newline, and only such a line. */
  lemma BottomSpec(t: seq<byte>, top: nat, n: nat, beg: nat)
    requires IsText(t) && top < |t| && IsLineStart(t, beg) && top <= beg
    ensures var q := EndLine(t, Steps(t, top, n));
            beg > q <==> LineOf(t, beg) > LineOf(t, top) + n
    ensures var q := EndLine(t, Steps(t, top, n));
            beg > q ==> LineOf(t, q) == LineOf(t, top) + n
  {
    var s := Steps(t, top, n);
    StepsSpec(t, top, n);
    LineInRange(t, beg);
    LineInRange(t, s);
    EndLineSpec(t, s);
    var q := EndLine(t, s);
    if beg > q {
      LineOfStrict(t, q, q, beg);
    } else {
      LineOfMonotone(t, beg, q);
    }
  }
}

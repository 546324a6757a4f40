/** refresh(): only what differs is sent, and yet the terminal shows the whole text. */
module Display {
  import opened Bytes
  import opened Lines
  import opened View
  import opened FormatLine

  // ------------------------------------------------- rows of a flat buffer

  /** Row li of a screen `columns` wide. */
  function RowOf(s: seq<byte>, columns: nat, li: nat): seq<byte> {
    if 0 <= li * columns && li * columns + columns <= |s| then s[li * columns..li * columns + columns] else []
  }

  lemma RowFits(rows: nat, columns: nat, li: nat)
    requires li < rows
    ensures 0 <= li * columns && li * columns + columns <= rows * columns
  {
    MulMonotone(li + 1, rows, columns);
  }

  lemma MulMonotone(a: nat, b: nat, c: nat)
    requires a <= b
    ensures a * c <= b * c
  {
    MulNonNegative(b - a, c);
    assert b * c == a * c + (b - a) * c;
  }

  lemma MulNonNegative(a: nat, c: nat)
    ensures a * c >= 0
  {
  }

  /** Other rows lie wholly before or wholly behind. */
  lemma RowsApart(columns: nat, a: nat, b: nat)
    ensures a < b ==> a * columns + columns <= b * columns
    ensures b < a ==> b * columns + columns <= a * columns
  {
    if a < b {
      MulMonotone(a + 1, b, columns);
    } else if b < a {
      MulMonotone(b + 1, a, columns);
    }
  }

  /** A change inside row li leaves the other rows alone. */
  lemma OtherRowsSame(s: seq<byte>, s': seq<byte>, columns: nat, li: nat, other: nat)
    requires |s| == |s'| && other != li
    requires forall i :: 0 <= i < |s| && !(li * columns <= i < li * columns + columns) ==> s[i] == s'[i]
    ensures RowOf(s, columns, other) == RowOf(s', columns, other)
  {
    RowsApart(columns, li, other);
  }

  // ------------------------------------------------------------ what to show

  /** Where the text line for screen row n starts, counting from position top; behind the text, its end. */
  function RowStart(t: seq<byte>, top: nat, n: nat): (p: nat)
    requires top <= |t|
    ensures p <= |t|
  {
    if n == 0 then top
    else
      var p := RowStart(t, top, n - 1);
      if p < |t| then EndLine(t, p) + 1 else p
  }

  /** As long as there are lines, these are the positions next_line() steps to. */
  lemma {:induction false} RowStartIsStep(t: seq<byte>, top: nat, n: nat)
    requires IsText(t) && top < |t| && LineOf(t, top) + n < LineCount(t)
    ensures RowStart(t, top, n) == Steps(t, top, n)
    decreases n
  {
    if n > 0 {
      RowStartIsStep(t, top, n - 1);
      StepsSpec(t, top, n - 1);
      var p := Steps(t, top, n - 1);
      EndLineSpec(t, p);
      NextLineSpec(t, p);
      LineCountPositive(t);
    }
  }

  /** What is written in one go, and from which cell of the screen on. */
  datatype Span = Span(at: nat, cells: seq<byte>)

  /**
   * What is sent for a row that showed `row` and is to show `out_buf`: from the
   * first difference to the last; the whole row if only the offset has changed; else
   * nothing.
   */
  ghost predicate Economical(row: seq<byte>, out_buf: seq<byte>, scrolled: bool, base: nat, spans: seq<Span>)
    requires |row| == |out_buf|
  {
    if row == out_buf then spans == if scrolled then [Span(base, out_buf)] else []
    else exists cs: nat, ce: nat :: FromFirstToLast(row, out_buf, cs, ce) && spans == [Span(base + cs, out_buf[cs..ce + 1])]
  }

  ghost predicate FromFirstToLast(row: seq<byte>, out_buf: seq<byte>, cs: nat, ce: nat)
    requires |row| == |out_buf|
  {
    && cs <= ce < |row| && row[cs] != out_buf[cs] && row[ce] != out_buf[ce]
    && row[..cs] == out_buf[..cs] && row[ce + 1..] == out_buf[ce + 1..]
  }

  class Screen {
    const rows: nat
    const columns: nat
    const tabstop: nat
    const high: set<byte>
    const window: Window
    const screen: array<byte>
    var old_offset: nat
    var terminal: seq<byte>  // what the terminal shows
    var sent: seq<Span>      // what has been written to it

    ghost predicate Valid()
      reads this, screen
    {
      && rows >= 2 && Fits(columns, tabstop)
      && window.rows == rows && window.columns == columns && window.tabstop == tabstop
      && screen.Length == rows * columns
      && |terminal| == rows * columns
    }

    /** The terminal shows the virtual screen. */
    ghost predicate Synced()
      reads this, screen
    {
      terminal == screen[..]
    }

    /** new_screen() and a cleared terminal. */
    constructor (window: Window, high: set<byte>)
      requires window.rows >= 2 && Fits(window.columns, window.tabstop)
      ensures Valid() && Synced() && fresh(screen) && this.window == window && this.high == high
    {
      this.window, this.high := window, high;
      rows, columns, tabstop := window.rows, window.columns, window.tabstop;
      screen := new byte[window.rows * window.columns](_ => SP);
      old_offset := 0;
      terminal, sent := [], [];
      new;
      terminal := screen[..];
    }

    /** The columns of the first and the last difference; `changed` says whether there is one. */
    method Differences(base: nat, out_buf: seq<byte>) returns (changed: bool, cs: int, ce: int)
      requires base + columns <= screen.Length && |out_buf| == columns
      ensures 0 <= cs <= columns && -1 <= ce < columns
      ensures changed <==> screen[base..base + columns] != out_buf
      ensures changed ==> cs <= ce
      ensures !changed ==> cs > ce
      ensures forall k :: 0 <= k < columns && !(cs <= k <= ce) ==> screen[base + k] == out_buf[k]
      ensures changed ==> FromFirstToLast(screen[base..base + columns], out_buf, cs, ce)
      ensures !changed ==> cs == columns && ce == columns - 1
    {
      changed := false;
      cs, ce := 0, columns - 1;
      while cs <= ce
        invariant 0 <= cs <= columns && ce == columns - 1 && !changed
        invariant forall k :: 0 <= k < cs ==> screen[base + k] == out_buf[k]
      {
        if out_buf[cs] != screen[base + cs] {
          changed := true;
          break;
        }
        cs := cs + 1;
      }
      while ce >= cs
        invariant cs - 1 <= ce < columns
        invariant changed ==> cs <= ce && out_buf[cs] != screen[base + cs]
        invariant !changed ==> cs == columns && ce == columns - 1
        invariant forall k :: ce < k < columns ==> screen[base + k] == out_buf[k]
        decreases ce
      {
        if out_buf[ce] != screen[base + ce] {
          changed := true;
          break;
        }
        ce := ce - 1;
      }
      if !changed {
        assert forall k :: 0 <= k < columns ==> screen[base..base + columns][k] == out_buf[k];
      } else {
        assert out_buf[ce] != screen[base + ce];
        assert screen[base..base + columns][cs] != out_buf[cs];
        assert screen[base..base + columns][..cs] == out_buf[..cs];
        assert screen[base..base + columns][ce + 1..] == out_buf[ce + 1..];
      }
    }

    /** Copies columns cs to ce into the virtual screen and sends them to the terminal. */
    method Send(base: nat, out_buf: seq<byte>, cs: nat, ce: nat)
      requires Valid() && Synced() && base + columns <= screen.Length && |out_buf| == columns && cs <= ce < columns
      requires forall k :: 0 <= k < columns && !(cs <= k <= ce) ==> screen[base + k] == out_buf[k]
      modifies this`terminal, this`sent, screen
      ensures Valid() && Synced()
      ensures screen[base..base + columns] == out_buf
      ensures sent == old(sent) + [Span(base + cs, out_buf[cs..ce + 1])]
      ensures forall i :: 0 <= i < screen.Length && !(base <= i < base + columns) ==> screen[i] == old(screen[i])
    {
      forall k | cs <= k < ce + 1 {
        screen[base + k] := out_buf[k];
      }
      assert screen[base + cs..base + ce + 1] == out_buf[cs..ce + 1];
      sent := sent + [Span(base + cs, screen[base + cs..base + ce + 1])];
      terminal := terminal[..base + cs] + screen[base + cs..base + ce + 1] + terminal[base + ce + 1..];
      forall k | 0 <= k < columns
        ensures screen[base + k] == out_buf[k]
      {
      }
    }

    /** The body of refresh()'s loop for screen row li. */
    method UpdateRow(li: nat, out_buf: seq<byte>)
      requires Valid() && Synced() && li < rows && |out_buf| == columns
      modifies this`terminal, this`sent, screen
      ensures Valid() && Synced()
      ensures RowOf(screen[..], columns, li) == out_buf
      ensures |old(RowOf(screen[..], columns, li))| == columns && old(sent) <= sent
      ensures Economical(old(RowOf(screen[..], columns, li)), out_buf, window.offset != old_offset, li * columns, sent[|old(sent)|..])
      ensures forall k: nat :: k != li ==> RowOf(screen[..], columns, k) == old(RowOf(screen[..], columns, k))
    {
      ghost var before := screen[..];
      RowFits(rows, columns, li);
      var base := li * columns;
      var changed, cs, ce := Differences(base, out_buf);
      if window.offset != old_offset {
        changed := true;
      }
      if cs < 0 {
        cs := 0;
      }
      if ce > columns - 1 {
        ce := columns - 1;
      }
      if cs > ce {
        cs, ce := 0, columns - 1;
      }
      assert RowOf(before, columns, li) == screen[base..base + columns];
      if changed {
        Send(base, out_buf, cs, ce);
        assert out_buf[0..columns] == out_buf;
      }
      assert screen[..][base..base + columns] == screen[base..base + columns];
      forall k: nat | k != li
        ensures RowOf(screen[..], columns, k) == RowOf(before, columns, k)
      {
        OtherRowsSame(before, screen[..], columns, li, k);
      }
    }

    function LayoutNow(): Layout
      reads window
    {
      Layout(columns, tabstop, window.offset, high)
    }

    /** Row li of the screen is the text line that belongs there. */
    ghost predicate Shows(t: seq<byte>, top: nat, l: Layout, li: nat)
      requires l.Valid() && top <= |t|
      reads this, screen
    {
      RowOf(screen[..], columns, li) == Drawn(l, t, RowStart(t, top, li))
    }

    /** One pass of refresh()'s loop: formats the line at tp, updates row li, and moves on to the next line. */
    method DrawRow(t: seq<byte>, li: nat, tp: nat, ghost top: nat, ghost l: Layout) returns (next: nat)
      requires Valid() && Synced() && IsText(t) && li < rows && top <= |t| && tp == RowStart(t, top, li)
      requires l == LayoutNow()
      modifies this`terminal, this`sent, screen
      ensures Valid() && Synced() && next == RowStart(t, top, li + 1)
      ensures Shows(t, top, l, li)
      ensures |old(RowOf(screen[..], columns, li))| == columns && old(sent) <= sent
      ensures Economical(old(RowOf(screen[..], columns, li)), Drawn(l, t, tp), window.offset != old_offset, li * columns,
                         sent[|old(sent)|..])
      ensures forall k: nat :: k != li ==> RowOf(screen[..], columns, k) == old(RowOf(screen[..], columns, k))
    {
      hide Drawn, RowOf;
      var f := new Formatter(Layout(columns, tabstop, window.offset, high));
      var out_buf := f.FormatLine(t, tp);
      next := tp;
      if tp < |t| {
        next := EndLine(t, tp) + 1;
      }
      UpdateRow(li, out_buf);
    }

    /** The loop of refresh(), from the top of the screen until a key is pressed. */
    method DrawRows(t: seq<byte>, waiting: seq<bool>) returns (li: nat)
      requires Valid() && Synced() && window.Valid(t) && |waiting| == rows - 1
      modifies this`terminal, this`sent, screen
      ensures Valid() && Synced() && li <= rows - 1
      ensures (forall k :: 0 <= k < li ==> !waiting[k]) && (li < rows - 1 ==> waiting[li])
      ensures forall k :: 0 <= k < li ==> Shows(t, window.screenbegin, LayoutNow(), k)
      ensures window.offset == old_offset && old(forall k :: 0 <= k < rows - 1 ==> Shows(t, window.screenbegin, LayoutNow(), k))
              ==> sent == old(sent)
      ensures forall k: nat :: k >= li ==> RowOf(screen[..], columns, k) == old(RowOf(screen[..], columns, k))
    {
      hide Drawn, RowOf;
      var tp := window.screenbegin;
      ghost var top, l := window.screenbegin, LayoutNow();
      li := 0;
      while li < rows - 1 && !waiting[li]
        invariant li <= rows - 1 && Valid() && Synced() && tp == RowStart(t, top, li)
        invariant forall k :: 0 <= k < li ==> !waiting[k] && Shows(t, top, l, k)
        invariant forall k: nat :: k >= li ==> RowOf(screen[..], columns, k) == old(RowOf(screen[..], columns, k))
        invariant window.offset == old_offset && old(forall k :: 0 <= k < rows - 1 ==> Shows(t, window.screenbegin, LayoutNow(), k))
                  ==> sent == old(sent)
      {
        assert old(Shows(t, window.screenbegin, LayoutNow(), li)) ==>
            RowOf(screen[..], columns, li) == Drawn(l, t, tp);
        tp := DrawRow(t, li, tp, top, l);
        li := li + 1;
      }
    }

    /**
     * refresh(): `busy` says whether input is waiting at the start, `waiting[li]`
     * whether it is before row li is drawn.
     */
    method Refresh(t: seq<byte>, dot: nat, busy: bool, waiting: seq<bool>) returns (done: nat, crow: nat, ccol: nat)
      requires Valid() && Synced() && window.Valid(t) && dot < |t| && |waiting| == rows - 1
      modifies this`terminal, this`sent, this`old_offset, screen, window
      ensures Valid() && Synced() && window.Valid(t) && done <= rows - 1
      ensures busy ==> done == 0 && sent == old(sent) && old_offset == old(old_offset)
      ensures !busy ==> old_offset == window.offset
      ensures forall k: nat :: k >= done ==> RowOf(screen[..], columns, k) == old(RowOf(screen[..], columns, k))
      ensures !busy ==>
                && (forall k :: 0 <= k < done ==> !waiting[k]) && (done < rows - 1 ==> waiting[done])
                && (forall k :: 0 <= k < done ==> Shows(t, window.screenbegin, LayoutNow(), k))
                && CursorAt(t, dot, crow, ccol)
    {
      hide Drawn, RowOf;
      done, crow, ccol := 0, 0, 0;
      if busy {
        return;
      }
      crow, ccol := window.SyncCursor(t, dot);
      done := DrawRows(t, waiting);
      label Painted:
      old_offset := window.offset;
      forall k | 0 <= k < done
        ensures Shows(t, window.screenbegin, LayoutNow(), k)
      {
        assert old@Painted(Shows(t, window.screenbegin, LayoutNow(), k));
      }
    }

    /** The cursor is placed for position dot. */
    ghost predicate CursorAt(t: seq<byte>, dot: nat, crow: nat, ccol: nat)
      requires dot < |t| && tabstop >= 1 && window.screenbegin < |t|
      reads window
    {
      && crow < rows - 1 && Steps(t, window.screenbegin, crow) == BeginLine(t, dot)
      && LineOf(t, window.screenbegin) + crow == LineOf(t, dot)
      && ccol < columns && window.offset + ccol == ColumnOf(tabstop, t, dot)
    }
  }

  /** After an uninterrupted refresh the terminal shows, row by row, the text lines and then the filler. */
  lemma WholeTextShown(s: Screen, t: seq<byte>)
    requires s.Valid() && s.Synced() && s.window.Valid(t)
    requires s.tabstop >= 2 || s.window.offset <= s.columns + 2
    requires forall k :: 0 <= k < s.rows - 1 ==> s.Shows(t, s.window.screenbegin, s.LayoutNow(), k)
    ensures forall k :: 0 <= k < s.rows - 1 ==>
              RowOf(s.terminal, s.columns, k) == Row(s.LayoutNow(), t, RowStart(t, s.window.screenbegin, k))
  {
    hide Drawn, Row, RowOf;
    forall k | 0 <= k < s.rows - 1
      ensures RowOf(s.terminal, s.columns, k) == Row(s.LayoutNow(), t, RowStart(t, s.window.screenbegin, k))
    {
      assert s.Shows(t, s.window.screenbegin, s.LayoutNow(), k);
      DrawnIsRow(s.LayoutNow(), t, RowStart(t, s.window.screenbegin, k));
    }
  }

  /** And the cursor stands on the first cell of its character. */
  lemma CursorShown(s: Screen, t: seq<byte>, dot: nat, crow: nat, ccol: nat)
    requires s.Valid() && s.Synced() && s.window.Valid(t) && dot < |t| && t[dot] != LF
    requires s.tabstop >= 2 || s.window.offset <= s.columns + 2
    requires s.CursorAt(t, dot, crow, ccol) && s.Shows(t, s.window.screenbegin, s.LayoutNow(), crow)
    ensures |RowOf(s.terminal, s.columns, crow)| == s.columns
    ensures RowOf(s.terminal, s.columns, crow)[ccol] == Glyph(s.LayoutNow(), s.window.offset + ccol, t[dot])[0]
  {
    hide Drawn, Row, Glyph, Expand, RowOf;
    LineInRange(t, dot);
    RowStartIsStep(t, s.window.screenbegin, crow);
    DrawnIsRow(s.LayoutNow(), t, BeginLine(t, dot));
    GlyphNotEmpty(s.LayoutNow(), s.window.offset + ccol, t[dot]);
    CursorIsOnItsCharacter(s.LayoutNow(), t, dot, ccol);
  }
}

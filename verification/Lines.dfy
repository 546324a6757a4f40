/**
 * Lines of the vi text buffer. A position is an offset into the text; the text
 * is not empty and ends in a newline.
 */
module Lines {
  import opened Bytes

  predicate IsText(t: seq<byte>) {
    t != [] && t[|t| - 1] == LF
  }

  // -------------------------------------------------- the movement routines

  /** begin_line(): behind the last newline before p, or the start of the text. */
  function BeginLine(t: seq<byte>, p: nat): (b: nat)
    requires p <= |t|
    ensures b <= p
  {
    if p == 0 || t[p - 1] == LF then p else BeginLine(t, p - 1)
  }

  /** end_line(): the next newline at or behind p, but not behind the last octet. */
  function EndLine(t: seq<byte>, p: nat): (e: nat)
    requires p < |t|
    ensures p <= e < |t|
    decreases |t| - p
  {
    if p < |t| - 1 && t[p] != LF then EndLine(t, p + 1) else p
  }

  /** prev_line(). */
  function PrevLine(t: seq<byte>, p: nat): (b: nat)
    requires p <= |t|
    ensures b <= p
  {
    var q := BeginLine(t, p);
    BeginLine(t, if q > 0 && t[q - 1] == LF then q - 1 else q)
  }

  /** next_line(). */
  function NextLine(t: seq<byte>, p: nat): (q: nat)
    requires p < |t|
    ensures p <= q < |t|
  {
    var e := EndLine(t, p);
    if e < |t| - 1 && t[e] == LF then e + 1 else e
  }

  // ------------------------------------------------------------ line numbers

  /** The number of newlines before p, which is the number of the line p is in, from 0. */
  function LineOf(t: seq<byte>, p: nat): nat
    requires p <= |t|
  {
    if p == 0 then 0 else LineOf(t, p - 1) + if t[p - 1] == LF then 1 else 0
  }

  function LineCount(t: seq<byte>): nat {
    LineOf(t, |t|)
  }

  predicate IsLineStart(t: seq<byte>, p: nat) {
    p < |t| && (p == 0 || t[p - 1] == LF)
  }

  lemma {:induction false} LineOfMonotone(t: seq<byte>, p: nat, q: nat)
    requires p <= q <= |t|
    ensures LineOf(t, p) <= LineOf(t, q)
    decreases q - p
  {
    if p < q {
      LineOfMonotone(t, p, q - 1);
    }
  }

  /** A newline in between separates lines. */
  lemma LineOfStrict(t: seq<byte>, p: nat, n: nat, q: nat)
    requires p <= n < q <= |t| && t[n] == LF
    ensures LineOf(t, p) < LineOf(t, q)
  {
    LineOfMonotone(t, p, n);
    LineOfMonotone(t, n + 1, q);
  }

  lemma {:induction false} BeginLineSpec(t: seq<byte>, p: nat)
    requires p <= |t|
    ensures var b := BeginLine(t, p);
            && (b == 0 || t[b - 1] == LF) && LineOf(t, b) == LineOf(t, p)
            && (forall i :: b <= i < p ==> t[i] != LF)
            && BeginLine(t, b) == b
  {
    if !(p == 0 || t[p - 1] == LF) {
      BeginLineSpec(t, p - 1);
    }
  }

  lemma {:induction false} EndLineSpec(t: seq<byte>, p: nat)
    requires IsText(t) && p < |t|
    ensures var e := EndLine(t, p);
            && t[e] == LF && LineOf(t, e) == LineOf(t, p)
            && (forall i :: p <= i < e ==> t[i] != LF)
    decreases |t| - p
  {
    if p < |t| - 1 && t[p] != LF {
      EndLineSpec(t, p + 1);
    }
  }

  /** Line starts are as the numbers of their lines. */
  lemma LineStartOrder(t: seq<byte>, a: nat, b: nat)
    requires IsLineStart(t, a) && IsLineStart(t, b)
    ensures a < b <==> LineOf(t, a) < LineOf(t, b)
    ensures a == b <==> LineOf(t, a) == LineOf(t, b)
  {
    if a < b {
      LineOfStrict(t, a, b - 1, b);
    } else if b < a {
      LineOfStrict(t, b, a - 1, a);
    }
  }

  /** A position is in a line if it is not before its start and not behind its end. */
  lemma InLine(t: seq<byte>, a: nat, p: nat)
    requires IsText(t) && IsLineStart(t, a) && p < |t|
    ensures LineOf(t, p) < LineOf(t, a) ==> p < a
    ensures LineOf(t, p) > LineOf(t, a) ==> EndLine(t, a) < p
    ensures LineOf(t, p) == LineOf(t, a) <==> a <= p <= EndLine(t, a)
  {
    EndLineSpec(t, a);
    var e := EndLine(t, a);
    if p < a {
      LineOfStrict(t, p, a - 1, a);
    } else if p <= e {
      LineOfMonotone(t, a, p);
      LineOfMonotone(t, p, e);
    } else {
      LineOfStrict(t, a, e, p);
    }
  }

  lemma LineCountPositive(t: seq<byte>)
    requires IsText(t)
    ensures LineCount(t) == LineOf(t, |t| - 1) + 1
  {
  }

  lemma LineInRange(t: seq<byte>, p: nat)
    requires IsText(t) && p < |t|
    ensures LineOf(t, p) < LineCount(t)
  {
    LineCountPositive(t);
    LineOfMonotone(t, p, |t| - 1);
  }

  /** next_line() goes to the start of the next line; in the last line it goes to its newline. */
  lemma NextLineSpec(t: seq<byte>, p: nat)
    requires IsText(t) && p < |t|
    ensures LineOf(t, p) + 1 < LineCount(t) ==>
              IsLineStart(t, NextLine(t, p)) && LineOf(t, NextLine(t, p)) == LineOf(t, p) + 1
    ensures LineOf(t, p) + 1 == LineCount(t) ==>
              NextLine(t, p) == |t| - 1 && LineOf(t, NextLine(t, p)) == LineOf(t, p)
  {
    EndLineSpec(t, p);
    LineCountPositive(t);
    var e := EndLine(t, p);
    if e < |t| - 1 {
      LineInRange(t, e + 1);
    }
  }

  /** prev_line() goes to the start of the line before, or stays at the start of the text. */
  lemma PrevLineSpec(t: seq<byte>, p: nat)
    requires IsText(t) && p < |t|
    ensures IsLineStart(t, PrevLine(t, p))
    ensures LineOf(t, PrevLine(t, p)) == if LineOf(t, p) == 0 then 0 else LineOf(t, p) - 1
  {
    BeginLineSpec(t, p);
    var q := BeginLine(t, p);
    if q > 0 {
      BeginLineSpec(t, q - 1);
    }
  }

  // --------------------------------------------------- counting and finding

  /** count_lines(). */
  method CountLines(t: seq<byte>, start: nat, stop: nat) returns (cnt: nat)
    requires IsText(t) && start < |t| && stop < |t|
    ensures var lo, hi := if stop < start then stop else start, if stop < start then start else stop;
            cnt == LineOf(t, hi) - LineOf(t, lo) + 1
  {
    var start, stop := start, stop;
    if stop < start {
      start, stop := stop, start;
    }
    ghost var from := start;
    LineOfMonotone(t, start, stop);
    EndLineSpec(t, stop);
    cnt := 0;
    stop := EndLine(t, stop);
    while start <= stop && start <= |t| - 1
      invariant from <= start <= stop + 1 <= |t| && t[stop] == LF
      invariant cnt == LineOf(t, start) - LineOf(t, from)
    {
      EndLineSpec(t, start);
      var e := EndLine(t, start);
      start := e;
      if t[start] == LF {
        cnt := cnt + 1;
      }
      start := start + 1;
    }
    assert start == stop + 1;
  }

  function Steps(t: seq<byte>, p: nat, n: nat): (q: nat)
    requires p < |t|
    ensures p <= q < |t|
  {
    if n == 0 then p else NextLine(t, Steps(t, p, n - 1))
  }

  /** find_line(): line numbers count from 1; anything below means the first line. */
  method FindLine(t: seq<byte>, li: int) returns (q: nat)
    requires IsText(t)
    ensures q < |t| && q == Steps(t, 0, if li > 1 then li - 1 else 0)
  {
    q := 0;
    var n := li;
    while n > 1
      invariant li >= 1 ==> 1 <= n <= li
      invariant li < 1 ==> n == li
      invariant q < |t| && q == Steps(t, 0, if li > 1 then li - n else 0)
    {
      q := NextLine(t, q);
      n := n - 1;
    }
  }

  /** Stepping by lines adds to the line number until the last line is reached. */
  lemma {:induction false} StepsSpec(t: seq<byte>, p: nat, n: nat)
    requires IsText(t) && p < |t|
    ensures var q, k := Steps(t, p, n), LineOf(t, p) + n;
            if k < LineCount(t) then LineOf(t, q) == k && (n > 0 ==> IsLineStart(t, q))
            else LineOf(t, q) == LineCount(t) - 1
    ensures LineOf(t, p) + n >= LineCount(t) ==> Steps(t, p, n) == |t| - 1
    decreases n
  {
    LineInRange(t, p);
    if n > 0 {
      StepsSpec(t, p, n - 1);
      NextLineSpec(t, Steps(t, p, n - 1));
    }
  }

  /** The number count_lines() gives from the start of the text to p leads find_line() back to p's line. */
  lemma FindCounted(t: seq<byte>, p: nat)
    requires IsText(t) && p < |t|
    ensures Steps(t, 0, LineOf(t, p)) == BeginLine(t, p)
  {
    var n := LineOf(t, p);
    StepsSpec(t, 0, n);
    LineInRange(t, p);
    BeginLineSpec(t, p);
    LineStartOrder(t, Steps(t, 0, n), BeginLine(t, p));
  }

  /** The line find_line() finds has the number it was asked for, if there is such a line. */
  lemma CountFound(t: seq<byte>, n: nat)
    requires IsText(t) && 1 <= n <= LineCount(t)
    ensures IsLineStart(t, Steps(t, 0, n - 1)) && LineOf(t, Steps(t, 0, n - 1)) - LineOf(t, 0) + 1 == n
  {
    StepsSpec(t, 0, n - 1);
  }

  /** Both ways round, as the program runs them. */
  method LineNumberRoundTrip(t: seq<byte>, p: nat, n: nat) returns (there: nat, back: nat)
    requires IsText(t) && p < |t| && 1 <= n <= LineCount(t)
    ensures there == BeginLine(t, p)
    ensures back == n
  {
    var k := CountLines(t, 0, p);
    there := FindLine(t, k);
    FindCounted(t, p);
    var q := FindLine(t, n);
    back := CountLines(t, 0, q);
    CountFound(t, n);
  }
}

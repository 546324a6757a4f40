/** The colon command `:b,e s/find/replace/g`, line by line. */
module LineRanges {
  import opened Bytes
  import opened Lines
  import opened TextBuffer
  import opened Substitution

  predicate Whole(t: seq<byte>) {
    t == [] || IsText(t)
  }

  /** The lines of a text, without their newlines. */
  ghost function LinesOf(t: seq<byte>): seq<seq<byte>>
    requires Whole(t)
  {
    if t == [] then [] else var e := EndLine(t, 0); [t[..e]] + LinesOf(t[e + 1..])
  }

  ghost function Unlines(ls: seq<seq<byte>>): seq<byte> {
    if ls == [] then [] else ls[0] + [LF] + Unlines(ls[1..])
  }

  lemma LinesOfOne(line: seq<byte>, rest: seq<byte>)
    requires LF !in line && Whole(rest)
    ensures Whole(line + [LF] + rest) && LinesOf(line + [LF] + rest) == [line] + LinesOf(rest)
  {
    var t := line + [LF] + rest;
    EndLineIs(t, 0, 0, |line|);
    assert t[..|line|] == line && t[|line| + 1..] == rest;
  }

  lemma NoText()
    ensures LinesOf([]) == []
  {
  }

  lemma UnlinesOne(line: seq<byte>, ls: seq<seq<byte>>)
    ensures Unlines([line] + ls) == line + [LF] + Unlines(ls)
  {
    assert ([line] + ls)[1..] == ls;
  }

  /** The lines say all there is to say about a text. */
  lemma {:induction false} UnlinesLines(t: seq<byte>)
    requires Whole(t)
    ensures Unlines(LinesOf(t)) == t
    decreases |t|
  {
    hide LinesOf, EndLine;
    if t == [] {
      NoText();
    } else {
      EndLineSpec(t, 0);
      var line, rest := t[..EndLine(t, 0)], t[EndLine(t, 0) + 1..];
      assert t == line + [LF] + rest;
      UnlinesLines(rest);
      LinesOfOne(line, rest);
      UnlinesOne(line, LinesOf(rest));
    }
  }

  lemma {:induction false} LinesOfJoined(a: seq<byte>, b: seq<byte>)
    requires Whole(a) && Whole(b)
    ensures Whole(a + b) && LinesOf(a + b) == LinesOf(a) + LinesOf(b)
    decreases |a|
  {
    hide LinesOf, EndLine;
    if a == [] {
      assert a + b == b;
      NoText();
    } else {
      EndLineSpec(a, 0);
      var e := EndLine(a, 0);
      var more := a[e + 1..];
      LinesOfJoined(more, b);
      LinesOfOne(a[..e], more);
      LinesOfOne(a[..e], more + b);
      assert a == a[..e] + [LF] + more;
      assert a + b == a[..e] + [LF] + (more + b);
    }
  }

  lemma {:induction false} LineOfPrefix(a: seq<byte>, b: seq<byte>, p: nat)
    requires p <= |a|
    ensures LineOf(a + b, p) == LineOf(a, p)
  {
    if p > 0 {
      LineOfPrefix(a, b, p - 1);
    }
  }

  lemma {:induction false} LineOfJoined(a: seq<byte>, b: seq<byte>, p: nat)
    requires p <= |b|
    ensures LineOf(a + b, |a| + p) == LineOf(a, |a|) + LineOf(b, p)
  {
    if p == 0 {
      LineOfPrefix(a, b, |a|);
    } else {
      LineOfJoined(a, b, p - 1);
      assert (a + b)[|a| + p - 1] == b[p - 1];
    }
  }

  lemma {:induction false} NoLines(a: seq<byte>, p: nat)
    requires p <= |a| && LF !in a
    ensures LineOf(a, p) == 0
  {
    if p > 0 {
      NoLines(a, p - 1);
    }
  }

  lemma OneNewline()
    ensures LineOf([LF], 1) == 1
  {
    assert LineOf([LF], 0) == 0;
  }

  /** A line in front makes one more. */
  lemma CountOne(line: seq<byte>, rest: seq<byte>)
    requires LF !in line
    ensures LineCount(line + [LF] + rest) == 1 + LineCount(rest)
  {
    hide LineOf;
    OneNewline();
    NoLines(line, |line|);
    LineOfJoined(line, [LF], 1);
    LineOfJoined(line + [LF], rest, |rest|);
  }

  /** count_lines() counts them. */
  lemma {:induction false} LinesCounted(t: seq<byte>)
    requires Whole(t)
    ensures |LinesOf(t)| == LineCount(t)
    decreases |t|
  {
    hide LineCount, EndLine, LinesOf;
    if t == [] {
      NoText();
      NoCount();
    } else {
      EndLineSpec(t, 0);
      var e := EndLine(t, 0);
      assert t == t[..e] + [LF] + t[e + 1..];
      LinesCounted(t[e + 1..]);
      LinesOfOne(t[..e], t[e + 1..]);
      CountOne(t[..e], t[e + 1..]);
    }
  }

  lemma NoCount()
    ensures LineCount([]) == 0
  {
  }

  /** The text around the line at q, and its lines. */
  lemma Around(t: seq<byte>, q: nat)
    requires IsText(t) && IsLineStart(t, q)
    ensures var e := EndLine(t, q);
            && Whole(t[..q]) && Whole(t[e + 1..]) && LF !in t[q..e]
            && LinesOf(t) == LinesOf(t[..q]) + [t[q..e]] + LinesOf(t[e + 1..])
            && |LinesOf(t[..q])| == LineOf(t, q)
  {
    hide LinesOf, LineOf;
    EndLineSpec(t, q);
    var e := EndLine(t, q);
    LinesOfOne(t[q..e], t[e + 1..]);
    LinesOfJoined(t[..q], t[q..e] + [LF] + t[e + 1..]);
    assert t == t[..q] + (t[q..e] + [LF] + t[e + 1..]);
    LinesCounted(t[..q]);
    LineOfPrefix(t[..q], t[q..], q);
    assert t == t[..q] + t[q..];
  }

  /** Where the next line is searched when k lines lie before: at its start, or at the last newline. */
  predicate AtLine(t: seq<byte>, q: nat, k: nat) {
    IsText(t) && if k < LineCount(t) then IsLineStart(t, q) && LineOf(t, q) == k else q == |t| - 1
  }

  /** A line is exchanged. */
  lemma Exchanged(t: seq<byte>, t': seq<byte>, q: nat, k: nat, new_line: seq<byte>)
    requires k < LineCount(t) && AtLine(t, q, k) && LF !in new_line
    requires t' == t[..q] + new_line + t[EndLine(t, q)..]
    ensures IsText(t') && k < |LinesOf(t)| && LinesOf(t)[k] == t[q..EndLine(t, q)]
    ensures LinesOf(t') == LinesOf(t)[k := new_line]
    ensures IsLineStart(t', q) && LineOf(t', q) == k
  {
    hide LinesOf, LineOf, EndLine;
    Around(t, q);
    EndLineSpec(t, q);
    var before, after := t[..q], t[EndLine(t, q) + 1..];
    assert t[EndLine(t, q)..] == [LF] + after;
    assert t' == before + (new_line + [LF] + after);
    LinesOfOne(new_line, after);
    LinesOfJoined(before, new_line + [LF] + after);
    SamePrefix(t, t', q);
  }

  lemma SamePrefix(t: seq<byte>, t': seq<byte>, q: nat)
    requires q <= |t| && q <= |t'| && t[..q] == t'[..q]
    ensures LineOf(t, q) == LineOf(t', q)
  {
    LineOfPrefix(t[..q], t[q..], q);
    LineOfPrefix(t'[..q], t'[q..], q);
    assert t == t[..q] + t[q..] && t' == t'[..q] + t'[q..];
  }

  /** The next round of the loop is at the next line. */
  lemma AtNextLine(t: seq<byte>, q: nat, k: nat)
    requires q < |t| && AtLine(t, q, k)
    ensures AtLine(t, NextLine(t, q), k + 1)
  {
    LineInRange(t, q);
    LineCountPositive(t);
    NextLineSpec(t, q);
  }

  /** What the command does to the lines: those with numbers from..from + n - 1, from 0, are substituted. */
  ghost predicate OnlyTheRange(before: seq<seq<byte>>, after: seq<seq<byte>>, from: nat, n: nat,
                               pat: seq<byte>, rep: seq<byte>, g: bool, ic: bool)
    requires pat != []
  {
    && |after| == |before|
    && forall k :: 0 <= k < |before| ==>
         after[k] == if from <= k < from + n then Replaced(ic, before[k], pat, rep, g) else before[k]
  }

  /** What a round does to the lines: it substitutes line k, or nothing when all lines are done. */
  lemma RoundOnLines(t: seq<byte>, t': seq<byte>, q: nat, k: nat, pat: seq<byte>, rep: seq<byte>, g: bool, ic: bool)
    requires pat != [] && Replacement(rep) && q < |t| && AtLine(t, q, k)
    requires t' == Outcome(t, q, EndLine(t, q), pat, rep, g, ic)
    ensures IsText(t') && q < |t'| && AtLine(t', q, k)
    ensures LinesOf(t') == if k < |LinesOf(t)| then LinesOf(t)[k := Replaced(ic, LinesOf(t)[k], pat, rep, g)] else LinesOf(t)
  {
    hide LinesOf, LineOf, EndLine, Replaced, NextLine;
    LinesCounted(t);
    EndLineSpec(t, q);
    var line := t[q..EndLine(t, q)];
    ReplacedKeepsTheLine(ic, line, pat, rep, g);
    if k < LineCount(t) {
      Exchanged(t, t', q, k, Replaced(ic, line, pat, rep, g));
      LinesCounted(t');
    } else {
      EmptyLine(ic, pat, rep, g);
      assert line == [] && t' == t;
    }
  }

  /** The loop over the lines does one more. */
  lemma OneLineMore(before: seq<byte>, t: seq<byte>, t': seq<byte>, q: nat, from: nat, n: nat,
                    pat: seq<byte>, rep: seq<byte>, g: bool, ic: bool)
    requires pat != [] && Replacement(rep) && IsText(before) && LineCount(t) == LineCount(before)
    requires AtLine(t, q, from + n) && OnlyTheRange(LinesOf(before), LinesOf(t), from, n, pat, rep, g, ic)
    requires q < |t| && t' == Outcome(t, q, EndLine(t, q), pat, rep, g, ic)
    ensures IsText(t') && q < |t'| && LineCount(t') == LineCount(before)
    ensures AtLine(t', NextLine(t', q), from + n + 1)
    ensures OnlyTheRange(LinesOf(before), LinesOf(t'), from, n + 1, pat, rep, g, ic)
  {
    hide LinesOf, LineCount, EndLine, Replaced, NextLine, Outcome, Replacement, LineOf;
    RoundOnLines(t, t', q, from + n, pat, rep, g, ic);
    LinesCounted(before);
    LinesCounted(t);
    LinesCounted(t');
    AtNextLine(t', q, from + n);
  }

  lemma EmptyLine(ic: bool, pat: seq<byte>, rep: seq<byte>, g: bool)
    requires pat != []
    ensures Replaced(ic, [], pat, rep, g) == []
  {
  }

  /** The range the addresses stand for: -1 for an address not given. Line numbers count from 1. */
  ghost function FirstOf(t: seq<byte>, dot: nat, b: int): nat
    requires IsText(t) && dot < |t|
  {
    if b < 0 then LineOf(t, dot)
    else if b <= 1 then 0
    else if b <= LineCount(t) then b - 1 else (LineCountPositive(t); LineCount(t) - 1)
  }

  ghost function Rounds(t: seq<byte>, dot: nat, b: int, e: int): nat
    requires IsText(t) && dot < |t|
  {
    var b' := if b < 0 then LineOf(t, dot) + 1 else b;
    var e' := if e < 0 then b' else e;
    if e' < b' then 0 else e' - b' + 1
  }

  /** Line number k, counting from 1, is in the range. */
  ghost predicate InRange(t: seq<byte>, dot: nat, b: int, e: int, k: nat)
    requires IsText(t) && dot < |t|
  {
    var from := FirstOf(t, dot, b);
    from < k <= from + Rounds(t, dot, b, e)
  }

  /** With addresses of lines that exist, the range is what they say. */
  lemma RangeMeans(t: seq<byte>, dot: nat, b: int, e: int, k: nat)
    requires IsText(t) && dot < |t| && 1 <= k <= LineCount(t)
    ensures 1 <= b <= LineCount(t) && e >= 0 ==> (InRange(t, dot, b, e, k) <==> b <= k <= e)
    ensures 1 <= b <= LineCount(t) && e < 0 ==> (InRange(t, dot, b, e, k) <==> k == b)
    ensures b < 0 && e < 0 ==> (InRange(t, dot, b, e, k) <==> k == LineOf(t, dot) + 1)
    ensures b < 0 && e >= 0 ==> (InRange(t, dot, b, e, k) <==> LineOf(t, dot) + 1 <= k <= e)
    ensures b == 0 && e >= 0 ==> (InRange(t, dot, b, e, k) <==> k <= e + 1)
    ensures b > LineCount(t) ==> (InRange(t, dot, b, e, k) <==> k == LineCount(t) && (e < 0 || b <= e))
  {
    hide LineOf;
    LineCountPositive(t);
  }

  /** Where the command starts. */
  lemma FirstLineFound(t: seq<byte>, dot: nat, b: int)
    requires IsText(t) && dot < |t|
    ensures b < 0 ==> AtLine(t, BeginLine(t, dot), FirstOf(t, dot, b))
    ensures b >= 0 ==> AtLine(t, BeginLine(t, Steps(t, 0, if b > 1 then b - 1 else 0)), FirstOf(t, dot, b))
  {
    hide LineOf;
    var p := if b < 0 then dot else Steps(t, 0, if b > 1 then b - 1 else 0);
    LineInRange(t, p);
    LineCountPositive(t);
    BeginLineSpec(t, p);
    if b >= 0 {
      NoNewlinesBefore(t);
      StepsSpec(t, 0, if b > 1 then b - 1 else 0);
    }
  }

  lemma NoNewlinesBefore(t: seq<byte>)
    ensures LineOf(t, 0) == 0
  {
  }

  lemma NothingYet(t: seq<byte>, from: nat, pat: seq<byte>, rep: seq<byte>, g: bool, ic: bool)
    requires pat != [] && IsText(t)
    ensures OnlyTheRange(LinesOf(t), LinesOf(t), from, 0, pat, rep, g, ic)
  {
  }

  /** One line more, and where the next one is. */
  method SubstituteAndNext(buf: Buffer, ls: nat, pat: seq<byte>, rep: seq<byte>, g: bool, ic: bool,
                           ghost before: seq<byte>, ghost from: nat, ghost n: nat) returns (q: nat)
    requires buf.Valid() && Pattern(pat) && Replacement(rep) && pat != [] && IsText(before)
    requires var t := buf.Contents();
             && LineCount(t) == LineCount(before) && ls < |t| && AtLine(t, ls, from + n)
             && OnlyTheRange(LinesOf(before), LinesOf(t), from, n, pat, rep, g, ic)
    modifies buf`text, buf`end, buf`file_modified, buf.text
    ensures buf.Valid() && (buf.text == old(buf.text) || fresh(buf.text))
    ensures var t := buf.Contents();
            && IsText(t) && LineCount(t) == LineCount(before) && q < |t| && AtLine(t, q, from + n + 1)
            && OnlyTheRange(LinesOf(before), LinesOf(t), from, n + 1, pat, rep, g, ic)
  {
    hide LinesOf, LineCount, OnlyTheRange, Outcome, EndLine, NextLine, Replacement, Pattern;
    ghost var t := buf.Contents();
    SubstituteLine(buf, ls, pat, rep, g, ic);
    OneLineMore(before, t, buf.Contents(), ls, from, n, pat, rep, g, ic);
    q := NextLine(buf.text[..buf.end], ls);
  }

  /** The addresses: where the first line starts, and the line numbers of the range. */
  method Addressed(t: seq<byte>, dot: nat, b: int, e: int) returns (q: nat, b': int, e': int)
    requires IsText(t) && dot < |t|
    ensures q < |t| && AtLine(t, q, FirstOf(t, dot, b))
    ensures Rounds(t, dot, b, e) == if b' <= e' then e' - b' + 1 else 0
  {
    hide LineOf, LineCount, Steps, AtLine, FirstOf, BeginLine;
    FirstLineFound(t, dot, b);
    b', e', q := b, e, 0;
    if b >= 0 {
      q := FindLine(t, b);
    }
    q := BeginLine(t, q);
    if b' < 0 {
      q := BeginLine(t, dot);
      b' := CountLines(t, 0, q);
      BeginLineSpec(t, dot);
      NoNewlinesBefore(t);
    }
    if e' < 0 {
      e' := b';
    }
  }

  /** The colon command: exactly the lines of the range are substituted, and no line is added or lost. */
  method Substitute(buf: Buffer, b: int, e: int, pat: seq<byte>, rep: seq<byte>, g: bool, ic: bool)
    requires buf.Valid() && IsText(buf.Contents()) && buf.dot < buf.end && Pattern(pat) && Replacement(rep)
    modifies buf`text, buf`end, buf`file_modified, buf.text
    ensures buf.Valid() && IsText(buf.Contents()) && pat != []
    ensures var t := old(buf.Contents());
            OnlyTheRange(LinesOf(t), LinesOf(buf.Contents()), FirstOf(t, old(buf.dot), b), Rounds(t, old(buf.dot), b, e),
                         pat, rep, g, ic)
  {
    hide LinesOf, LineCount, OnlyTheRange, AtLine, Replacement, FirstOf, Rounds;
    ghost var before := buf.Contents();
    ghost var from := FirstOf(before, buf.dot, b);
    NothingYet(before, from, pat, rep, g, ic);
    var q: nat, b': int, e': int := Addressed(buf.text[..buf.end], buf.dot, b, e);
    var i := b';
    ghost var n := 0;
    while i <= e'
      invariant buf.Valid() && (buf.text == old(buf.text) || fresh(buf.text))
      invariant n == i - b' && (n == 0 || i <= e' + 1)
      invariant IsText(buf.Contents()) && LineCount(buf.Contents()) == LineCount(before)
      invariant q < buf.end && AtLine(buf.Contents(), q, from + n)
      invariant OnlyTheRange(LinesOf(before), LinesOf(buf.Contents()), from, n, pat, rep, g, ic)
    {
      q := SubstituteAndNext(buf, q, pat, rep, g, ic, before, from, n);
      i, n := i + 1, n + 1;
    }
  }
}

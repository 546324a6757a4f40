/** Searching, and the substitution of a pattern in one line of the text buffer. */
module Substitution {
  import opened Bytes
  import opened Lines
  import opened TextBuffer

  // --------------------------------------------------------------- searching

  function Lower(c: byte): byte {
    if 65 <= c <= 90 then c + 32 else c
  }

  /** mycmp() on one character. */
  predicate Alike(ignorecase: bool, a: byte, b: byte) {
    if ignorecase then Lower(a) == Lower(b) else a == b
  }

  predicate MatchAt(ic: bool, t: seq<byte>, i: nat, pat: seq<byte>) {
    i + |pat| <= |t| && forall k :: 0 <= k < |pat| ==> Alike(ic, t[i + k], pat[k])
  }

  /** A search pattern typed on the command line. */
  predicate Pattern(pat: seq<byte>) {
    pat != [] && LF !in pat && NUL !in pat
  }

  /** The first match of a pattern in a line, or the length of the line. */
  function FirstMatch(ic: bool, s: seq<byte>, pat: seq<byte>, from: nat): (i: nat)
    requires from <= |s|
    ensures from <= i <= |s|
    ensures i < |s| ==> MatchAt(ic, s, i, pat)
    ensures forall k :: from <= k < i ==> !MatchAt(ic, s, k, pat)
    decreases |s| - from
  {
    if from == |s| || MatchAt(ic, s, from, pat) then from else FirstMatch(ic, s, pat, from + 1)
  }

  /** char_search(): -1 when there is no match in the range searched. */
  method CharSearch(ic: bool, t: seq<byte>, p: nat, pat: seq<byte>, forward: bool, limited: bool) returns (q: int)
    requires IsText(t) && p < |t| && Pattern(pat)
    ensures var stop := if !forward then (if limited then PrevLine(t, p) else 0)
                        else if limited then NextLine(t, p) else |t| - 1;
            if forward then
              if q == -1 then forall k :: p <= k < stop ==> !MatchAt(ic, t, k, pat)
              else p <= q < stop && MatchAt(ic, t, q, pat) && forall k :: p <= k < q ==> !MatchAt(ic, t, k, pat)
            else
              if q == -1 then forall k: nat :: stop <= k && k + |pat| <= p ==> !MatchAt(ic, t, k, pat)
              else stop <= q && q + |pat| <= p && MatchAt(ic, t, q, pat)
                   && forall k :: q < k && k + |pat| <= p ==> !MatchAt(ic, t, k, pat)
  {
    if forward {
      var stop := |t| - 1;
      if limited {
        stop := NextLine(t, p);
      }
      q := p;
      while q < stop
        invariant p <= q
        invariant forall k :: p <= k < q ==> !MatchAt(ic, t, k, pat)
        invariant stop <= q ==> q == stop || stop < p
      {
        if MatchAt(ic, t, q, pat) {
          return;
        }
        q := q + 1;
      }
      q := -1;
    } else {
      var stop := 0;
      if limited {
        stop := PrevLine(t, p);
      }
      q := p - |pat|;
      while q >= stop
        invariant q <= p - |pat|
        invariant forall k: nat :: q < k && k + |pat| <= p ==> !MatchAt(ic, t, k, pat)
        decreases q
      {
        if MatchAt(ic, t, q, pat) {
          return;
        }
        q := q - 1;
      }
      q := -1;
    }
  }

  // ------------------------------------------------------------ substitution

  /** One line after :s: the first match replaced, or with `g` all of them from left to right. */
  function Replaced(ic: bool, line: seq<byte>, pat: seq<byte>, rep: seq<byte>, g: bool): seq<byte>
    requires pat != []
    decreases |line|
  {
    var i := FirstMatch(ic, line, pat, 0);
    if i == |line| then line
    else
      var rest := line[i + |pat|..];
      line[..i] + rep + if g then Replaced(ic, rest, pat, rep, g) else rest
  }

  /** What can be typed as a replacement. */
  predicate Replacement(rep: seq<byte>) {
    LF !in rep && NUL !in rep
  }

  /** No match starts between two places. */
  ghost predicate NoMatch(ic: bool, line: seq<byte>, pat: seq<byte>, from: nat, to: nat) {
    forall k :: from <= k < to ==> !MatchAt(ic, line, k, pat)
  }

  /** Places in a line: the matches found from left to right, each search starting behind the match before. */
  ghost predicate LeftToRight(ic: bool, line: seq<byte>, pat: seq<byte>, from: nat, at: seq<nat>)
    decreases |at|
  {
    if at == [] then NoMatch(ic, line, pat, from, |line|)
    else
      && from <= at[0] && NoMatch(ic, line, pat, from, at[0]) && MatchAt(ic, line, at[0], pat)
      && LeftToRight(ic, line, pat, at[0] + |pat|, at[1..])
  }

  /** The line from `from` on, with the pattern at each of these places replaced. */
  ghost function PutAt(line: seq<byte>, from: nat, at: seq<nat>, n: nat, rep: seq<byte>): seq<byte>
    decreases |at|
  {
    if at == [] then (if from <= |line| then line[from..] else [])
    else (if from <= at[0] <= |line| then line[from..at[0]] else []) + rep + PutAt(line, at[0] + n, at[1..], n, rep)
  }

  lemma MatchShift(ic: bool, line: seq<byte>, pat: seq<byte>, from: nat, k: nat)
    requires from <= k && from <= |line|
    ensures MatchAt(ic, line[from..], k - from, pat) <==> MatchAt(ic, line, k, pat)
  {
    forall i | 0 <= i < |pat| && k + |pat| <= |line|
      ensures Alike(ic, line[from..][k - from + i], pat[i]) <==> Alike(ic, line[k + i], pat[i])
    {
    }
  }

  lemma FirstPlace(ic: bool, line: seq<byte>, pat: seq<byte>, from: nat, at: seq<nat>)
    requires pat != [] && from <= |line| && LeftToRight(ic, line, pat, from, at)
    ensures FirstMatch(ic, line[from..], pat, 0) == (if at == [] then |line| else at[0]) - from
    ensures at != [] ==> from <= at[0] && at[0] + |pat| <= |line|
  {
    var i := FirstMatch(ic, line[from..], pat, 0);
    if at != [] {
      MatchShift(ic, line, pat, from, at[0]);
    }
    MatchShift(ic, line, pat, from, from + i);
  }

  /** With `g` exactly the matches found from left to right are replaced. */
  lemma {:induction false} ReplacedFromLeftToRight(ic: bool, line: seq<byte>, pat: seq<byte>, rep: seq<byte>,
                                                   from: nat, at: seq<nat>)
    requires pat != [] && from <= |line| && LeftToRight(ic, line, pat, from, at)
    ensures Replaced(ic, line[from..], pat, rep, true) == PutAt(line, from, at, |pat|, rep)
    decreases |at|
  {
    hide MatchAt, NoMatch, FirstMatch, Replaced;
    var s := line[from..];
    FirstPlace(ic, line, pat, from, at);
    if at == [] {
      ReplacedStop(ic, s, pat, rep, true);
    } else {
      ReplacedStep(ic, s, pat, rep, true);
      ReplacedFromLeftToRight(ic, line, pat, rep, at[0] + |pat|, at[1..]);
      assert s[at[0] - from + |pat|..] == line[at[0] + |pat|..];
      assert s[..at[0] - from] == line[from..at[0]];
    }
  }

  /** There are such places in every line. */
  lemma {:induction false} PlacesExist(ic: bool, line: seq<byte>, pat: seq<byte>, from: nat) returns (at: seq<nat>)
    requires pat != [] && from <= |line|
    ensures LeftToRight(ic, line, pat, from, at)
    decreases |line| - from
  {
    var m := FirstMatch(ic, line, pat, from);
    if m == |line| {
      return [];
    }
    assert MatchAt(ic, line, m, pat);
    var rest := PlacesExist(ic, line, pat, m + |pat|);
    at := [m] + rest;
    assert at[1..] == rest;
  }

  /** Without `g` the first of them is. */
  lemma OnlyTheFirst(ic: bool, line: seq<byte>, pat: seq<byte>, rep: seq<byte>, at: seq<nat>)
    requires pat != [] && LeftToRight(ic, line, pat, 0, at)
    ensures at == [] ==> Replaced(ic, line, pat, rep, false) == line
    ensures at != [] ==>
              at[0] + |pat| <= |line| && Replaced(ic, line, pat, rep, false) == line[..at[0]] + rep + line[at[0] + |pat|..]
  {
    hide MatchAt, NoMatch, FirstMatch, LeftToRight, Replaced;
    FirstPlace(ic, line, pat, 0, at);
    assert line[0..] == line;
    ReplacedStop(ic, line, pat, rep, false);
    ReplacedStep(ic, line, pat, rep, false);
  }

  /** Ignoring case, letters are alike that differ in nothing else; other characters only if they are the same. */
  lemma AlikeExactly(a: byte, b: byte)
    ensures Alike(false, a, b) <==> a == b
    ensures Alike(true, a, b) <==> a == b || (65 <= a <= 90 && b == a + 32) || (65 <= b <= 90 && a == b + 32)
  {
  }

  /** Replacing a pattern by itself changes nothing, if case counts. */
  lemma {:induction false} ReplacedByItself(line: seq<byte>, pat: seq<byte>, g: bool)
    requires pat != []
    ensures Replaced(false, line, pat, pat, g) == line
    decreases |line|
  {
    var i := FirstMatch(false, line, pat, 0);
    if i < |line| {
      assert line[i..i + |pat|] == pat;
      assert line == line[..i] + line[i..i + |pat|] + line[i + |pat|..];
      if g {
        ReplacedByItself(line[i + |pat|..], pat, g);
      }
    }
  }

  /** Matches in a line are matches in the text, and none reaches across the newline. */
  lemma MatchInLine(ic: bool, t: seq<byte>, q: nat, e: nat, k: nat, pat: seq<byte>)
    requires q <= k <= e < |t| && t[e] == LF && Pattern(pat)
    ensures MatchAt(ic, t, k, pat) <==> MatchAt(ic, t[q..e], k - q, pat)
  {
    if e < k + |pat| {
      assert pat[e - k] != LF && t[k + (e - k)] == LF;
      assert !Alike(ic, t[k + (e - k)], pat[e - k]);
    }
    if MatchAt(ic, t, k, pat) {
      forall i | 0 <= i < |pat| ensures Alike(ic, t[q..e][k - q + i], pat[i]) {
        assert Alike(ic, t[k + i], pat[i]);
      }
    }
    if MatchAt(ic, t[q..e], k - q, pat) {
      forall i | 0 <= i < |pat| ensures Alike(ic, t[k + i], pat[i]) {
        assert Alike(ic, t[q..e][k - q + i], pat[i]);
      }
    }
  }

  /** A search limited to the line finds the first match in what is left of the line. */
  lemma SearchInLine(ic: bool, t: seq<byte>, q: nat, pat: seq<byte>, found: int)
    requires IsText(t) && q < |t| && Pattern(pat)
    requires if found == -1 then forall k :: q <= k < NextLine(t, q) ==> !MatchAt(ic, t, k, pat)
             else q <= found < NextLine(t, q) && MatchAt(ic, t, found, pat)
                  && forall k :: q <= k < found ==> !MatchAt(ic, t, k, pat)
    ensures var s := t[q..EndLine(t, q)];
            FirstMatch(ic, s, pat, 0) == if found == -1 then |s| else found - q
    ensures found != -1 ==> q <= found && found + |pat| <= EndLine(t, q)
  {
    EndLineSpec(t, q);
    var e := EndLine(t, q);
    var s := t[q..e];
    var i := FirstMatch(ic, s, pat, 0);
    MatchInLine(ic, t, q, e, q + i, pat);
    if found != -1 {
      MatchInLine(ic, t, q, e, if found <= e then found else e, pat);
    }
  }

  /** The line that starts at `a` ends at `e`. */
  predicate LineAt(t: seq<byte>, a: nat, e: nat) {
    IsText(t) && a <= e < |t| && t[e] == LF && forall i :: a <= i < e ==> t[i] != LF
  }

  /** end_line() from any place in the line. */
  lemma EndLineIs(t: seq<byte>, a: nat, p: nat, e: nat)
    requires LineAt(t, a, e) && a <= p <= e
    ensures IsText(t) && p <= e < |t| && EndLine(t, p) == e
  {
    EndLineSpec(t, p);
  }

  /** The first match in the line behind q has been replaced, if there is one. */
  ghost predicate Once(t: seq<byte>, t': seq<byte>, q: nat, pat: seq<byte>, rep: seq<byte>, ic: bool, buf1: int)
    requires q < |t|
  {
    var s := t[q..EndLine(t, q)];
    var i := FirstMatch(ic, s, pat, 0);
    if i == |s| then buf1 == -1 && t' == t
    else buf1 == q + i && i + |pat| <= |s| && t' == t[..buf1] + rep + t[buf1 + |pat|..]
  }

  /** Searches the rest of the line once, and replaces what it finds. */
  method SubstituteOnce(buf: Buffer, q: nat, pat: seq<byte>, rep: seq<byte>, ic: bool) returns (buf1: int)
    requires buf.Valid() && IsText(buf.Contents()) && q < buf.end && Pattern(pat)
    modifies buf`text, buf`end, buf`file_modified, buf.text
    ensures buf.Valid() && (buf.text == old(buf.text) || fresh(buf.text))
    ensures buf1 >= -1 && Once(old(buf.Contents()), buf.Contents(), q, pat, rep, ic, buf1)
  {
    hide MatchAt, FirstMatch, EndLine, NextLine;
    ghost var t := buf.Contents();
    buf1 := CharSearch(ic, buf.text[..buf.end], q, pat, true, true);
    SearchInLine(ic, t, q, pat, buf1);
    if buf1 == -1 {
      return;
    }
    var p := buf.HoleDelete(buf1, buf1 + |pat| - 1);
    ghost var c := buf.Contents();
    assert c[..buf1] == t[..buf1] && c[buf1..] == t[buf1 + |pat|..];
    p := buf.StringInsert(buf1, rep);
  }

  /** One replacement in the rest of a line. */
  lemma ReplacedStep(ic: bool, s: seq<byte>, pat: seq<byte>, rep: seq<byte>, g: bool)
    requires pat != []
    ensures var i := FirstMatch(ic, s, pat, 0);
            i < |s| ==>
              (&& i + |pat| <= |s|
               && Replaced(ic, s, pat, rep, g)
                  == s[..i] + rep + (if g then Replaced(ic, s[i + |pat|..], pat, rep, g) else s[i + |pat|..]))
  {
  }

  lemma ReplacedStop(ic: bool, s: seq<byte>, pat: seq<byte>, rep: seq<byte>, g: bool)
    requires pat != []
    ensures FirstMatch(ic, s, pat, 0) == |s| ==> Replaced(ic, s, pat, rep, g) == s
  {
  }

  lemma {:induction false} ReplacedKeepsTheLine(ic: bool, line: seq<byte>, pat: seq<byte>, rep: seq<byte>, g: bool)
    requires pat != [] && LF !in line && LF !in rep
    ensures LF !in Replaced(ic, line, pat, rep, g)
    decreases |line|
  {
    hide Replaced, FirstMatch, MatchAt;
    var i := FirstMatch(ic, line, pat, 0);
    ReplacedStep(ic, line, pat, rep, g);
    ReplacedStop(ic, line, pat, rep, g);
    if i < |line| {
      var rest := line[i + |pat|..];
      assert LF !in rest && LF !in line[..i];
      if g {
        ReplacedKeepsTheLine(ic, rest, pat, rep, g);
      }
    }
  }

  /** A line between `a` and `e` in which n octets at m have been replaced. */
  lemma Spliced(c: seq<byte>, c': seq<byte>, a: nat, e: nat, m: nat, n: nat, rep: seq<byte>)
    requires LineAt(c, a, e) && a <= m && m + n <= e && Replacement(rep)
    requires c' == c[..m] + rep + c[m + n..]
    ensures LineAt(c', a, e - n + |rep|)
  {
    var q' := m + |rep|;
    forall k | 0 <= k < |c'|
      ensures c'[k] == if k < m then c[k] else if k < q' then rep[k - m] else c[k - |rep| + n]
    {
    }
  }

  lemma Recut<T>(c: seq<T>, c': seq<T>, q: nat, e: nat, m: nat, n: nat, rep: seq<T>)
    requires q <= m && m + n <= e <= |c| && c' == c[..m] + rep + c[m + n..]
    ensures var q', e' := m + |rep|, e - n + |rep|;
            && q' <= e' <= |c'| && c'[e'..] == c[e..]
            && c'[..q'] == c[..q] + (c[q..e][..m - q] + rep)
            && c'[q'..e'] == c[q..e][m - q + n..]
  {
    var q', e' := m + |rep|, e - n + |rep|;
    assert forall k :: 0 <= k < m ==> c'[k] == c[k];
    assert forall k :: m <= k < q' ==> c'[k] == rep[k - m];
    assert forall k :: q' <= k < |c'| ==> c'[k] == c[k - |rep| + n];
  }

  /** Whatever becomes of the rest of the line, it is the same before and after the exchange. */
  lemma Assembled<T>(c: seq<T>, c': seq<T>, q: nat, e: nat, m: nat, n: nat, rep: seq<T>, more: seq<T>)
    requires q <= m && m + n <= e <= |c| && c' == c[..m] + rep + c[m + n..]
    ensures var q', e' := m + |rep|, e - n + |rep|;
            && q' <= e' <= |c'| && c'[q'..e'] == c[q..e][m - q + n..]
            && c[..q] + (c[q..e][..m - q] + rep + more) + c[e..] == c'[..q'] + more + c'[e'..]
  {
    Recut(c, c', q, e, m, n, rep);
    Regrouped(c[..q], c[q..e][..m - q], rep, more);
  }

  lemma AssembledAsIs<T>(c: seq<T>, c': seq<T>, q: nat, e: nat, m: nat, n: nat, rep: seq<T>)
    requires q <= m && m + n <= e <= |c| && c' == c[..m] + rep + c[m + n..]
    ensures c[..q] + (c[q..e][..m - q] + rep + c[q..e][m - q + n..]) + c[e..] == c'
  {
    Assembled(c, c', q, e, m, n, rep, c[q..e][m - q + n..]);
    Thirds(c', m + |rep|, e - n + |rep|);
  }

  lemma Regrouped<T>(a: seq<T>, b: seq<T>, c: seq<T>, d: seq<T>)
    ensures a + (b + c) + d == a + (b + c + d)
  {
  }

  /** The text with what is between q and e replaced. */
  ghost function Outcome(c: seq<byte>, q: nat, e: nat, pat: seq<byte>, rep: seq<byte>, g: bool, ic: bool): seq<byte>
    requires pat != [] && q <= e <= |c|
  {
    c[..q] + Replaced(ic, c[q..e], pat, rep, g) + c[e..]
  }

  lemma OutcomeOfNothing(c: seq<byte>, q: nat, e: nat, pat: seq<byte>, rep: seq<byte>, g: bool, ic: bool)
    requires pat != [] && q <= e <= |c| && FirstMatch(ic, c[q..e], pat, 0) == e - q
    ensures Outcome(c, q, e, pat, rep, g, ic) == c
  {
    ReplacedStop(ic, c[q..e], pat, rep, g);
    hide Replaced, FirstMatch;
    assert c == c[..q] + c[q..e] + c[e..];
  }

  /** With `g` one replacement does not change the outcome. */
  lemma OutcomeKept(c: seq<byte>, c': seq<byte>, q: nat, e: nat, m: nat, pat: seq<byte>, rep: seq<byte>, ic: bool)
    requires pat != [] && q <= m < e <= |c|
    requires m - q == FirstMatch(ic, c[q..e], pat, 0) && m + |pat| <= e
    requires c' == c[..m] + rep + c[m + |pat|..]
    ensures var q', e' := m + |rep|, e - |pat| + |rep|;
            q' <= e' <= |c'| && Outcome(c, q, e, pat, rep, true, ic) == Outcome(c', q', e', pat, rep, true, ic)
  {
    hide Replaced, FirstMatch, MatchAt;
    var s := c[q..e];
    ReplacedStep(ic, s, pat, rep, true);
    Assembled(c, c', q, e, m, |pat|, rep, Replaced(ic, s[m - q + |pat|..], pat, rep, true));
  }

  /** Without, it is the outcome. */
  lemma OutcomeReached(c: seq<byte>, c': seq<byte>, q: nat, e: nat, m: nat, pat: seq<byte>, rep: seq<byte>, ic: bool)
    requires pat != [] && q <= m < e <= |c|
    requires m - q == FirstMatch(ic, c[q..e], pat, 0) && m + |pat| <= e
    requires c' == c[..m] + rep + c[m + |pat|..]
    ensures Outcome(c, q, e, pat, rep, false, ic) == c'
  {
    hide Replaced, FirstMatch, MatchAt;
    var s := c[q..e];
    ReplacedStep(ic, s, pat, rep, false);
    AssembledAsIs(c, c', q, e, m, |pat|, rep);
  }

  lemma OnceInLine(c: seq<byte>, c': seq<byte>, a: nat, q: nat, e: nat, pat: seq<byte>, rep: seq<byte>, ic: bool, buf1: int)
    requires LineAt(c, a, e) && a <= q <= e && Once(c, c', q, pat, rep, ic, buf1)
    ensures buf1 == -1 ==> FirstMatch(ic, c[q..e], pat, 0) == e - q && c' == c
    ensures buf1 != -1 ==>
              && q <= buf1 < e && buf1 + |pat| <= e && buf1 - q == FirstMatch(ic, c[q..e], pat, 0)
              && c' == c[..buf1] + rep + c[buf1 + |pat|..]
  {
    EndLineIs(c, a, q, e);
    hide LineAt, MatchAt, EndLine, FirstMatch;
  }

  lemma NothingLeft(ic: bool, c: seq<byte>, e: nat, pat: seq<byte>)
    requires e <= |c|
    ensures FirstMatch(ic, c[e..e], pat, 0) == 0
  {
  }

  /** With the line at `a` ending at e, and all of it up to q done, the goal is still the outcome. */
  ghost predicate Pending(c: seq<byte>, a: nat, q: nat, e: nat,
                          pat: seq<byte>, rep: seq<byte>, g: bool, ic: bool, goal: seq<byte>)
  {
    pat != [] && Replacement(rep) && LineAt(c, a, e) && a <= q <= e && Outcome(c, q, e, pat, rep, g, ic) == goal
  }

  lemma PendingStarts(c: seq<byte>, a: nat, pat: seq<byte>, rep: seq<byte>, g: bool, ic: bool)
    requires IsText(c) && a < |c| && pat != [] && Replacement(rep)
    ensures Pending(c, a, a, EndLine(c, a), pat, rep, g, ic, Outcome(c, a, EndLine(c, a), pat, rep, g, ic))
  {
    EndLineSpec(c, a);
    hide Outcome, EndLine, Replacement;
  }

  lemma PendingText(c: seq<byte>, a: nat, q: nat, e: nat,
                    pat: seq<byte>, rep: seq<byte>, g: bool, ic: bool, goal: seq<byte>)
    requires Pending(c, a, q, e, pat, rep, g, ic, goal)
    ensures IsText(c) && a <= q <= e < |c| && pat != []
  {
    hide Outcome, Replacement;
  }

  /** One round of the loop below: nothing is found, */
  lemma RoundFails(c: seq<byte>, c': seq<byte>, a: nat, q: nat, e: nat,
                   pat: seq<byte>, rep: seq<byte>, g: bool, ic: bool, goal: seq<byte>)
    requires Pending(c, a, q, e, pat, rep, g, ic, goal) && Once(c, c', q, pat, rep, ic, -1)
    ensures c' == goal
  {
    OnceInLine(c, c', a, q, e, pat, rep, ic, -1);
    hide Outcome, FirstMatch, Once, MatchAt, Replacement;
    OutcomeOfNothing(c, q, e, pat, rep, g, ic);
  }

  /** or the one match is replaced that is asked for, */
  lemma RoundEnds(c: seq<byte>, c': seq<byte>, a: nat, q: nat, e: nat, buf1: nat,
                  pat: seq<byte>, rep: seq<byte>, ic: bool, goal: seq<byte>)
    requires Pending(c, a, q, e, pat, rep, false, ic, goal) && Once(c, c', q, pat, rep, ic, buf1)
    ensures c' == goal
  {
    OnceInLine(c, c', a, q, e, pat, rep, ic, buf1);
    hide Outcome, FirstMatch, Once, MatchAt, Replacement, LineAt;
    EndLineIs(c, a, q, e);
    OutcomeReached(c, c', q, e, buf1, pat, rep, ic);
  }

  /** or it goes on behind the replacement, */
  lemma RoundGoesOn(c: seq<byte>, c': seq<byte>, a: nat, q: nat, e: nat, buf1: nat,
                    pat: seq<byte>, rep: seq<byte>, ic: bool, goal: seq<byte>)
    requires Pending(c, a, q, e, pat, rep, true, ic, goal) && Once(c, c', q, pat, rep, ic, buf1)
    ensures q <= buf1 && buf1 + |pat| <= e && pat != []
    ensures Pending(c', a, buf1 + |rep|, e - |pat| + |rep|, pat, rep, true, ic, goal)
    ensures IsText(c') && a < |c'| && EndLine(c', a) == e - |pat| + |rep|
  {
    OnceInLine(c, c', a, q, e, pat, rep, ic, buf1);
    hide Outcome, FirstMatch, Once, MatchAt, Replacement, LineAt;
    EndLineIs(c, a, q, e);
    OutcomeKept(c, c', q, e, buf1, pat, rep, ic);
    Spliced(c, c', a, e, buf1, |pat|, rep);
    EndLineIs(c', a, a, e - |pat| + |rep|);
  }

  /** until it comes to the end of the line. */
  lemma RoundAtTheEnd(c: seq<byte>, a: nat, e: nat, pat: seq<byte>, rep: seq<byte>, g: bool, ic: bool, goal: seq<byte>)
    requires Pending(c, a, e, e, pat, rep, g, ic, goal)
    ensures c == goal
  {
    EndLineIs(c, a, e, e);
    NothingLeft(ic, c, e, pat);
    hide Outcome, FirstMatch, Replacement, LineAt;
    OutcomeOfNothing(c, e, e, pat, rep, g, ic);
  }

  /** The test at the end of a round, and what it decides. */
  lemma RoundDecides(c: seq<byte>, c': seq<byte>, a: nat, q: nat, e: nat, buf1: nat,
                     pat: seq<byte>, rep: seq<byte>, ic: bool, goal: seq<byte>)
    requires Pending(c, a, q, e, pat, rep, true, ic, goal) && Once(c, c', q, pat, rep, ic, buf1)
    ensures IsText(c') && a < |c'|
    ensures var next, e' := buf1 + |rep|, EndLine(c', a);
            && (next >= e' ==> c' == goal)
            && (next < e' ==> Pending(c', a, next, e', pat, rep, true, ic, goal) && e' - next < e - q)
  {
    hide *;
    RoundGoesOn(c, c', a, q, e, buf1, pat, rep, ic, goal);
    var next, e' := buf1 + |rep|, e - |pat| + |rep|;
    PendingText(c', a, next, e', pat, rep, true, ic, goal);
    if next == e' {
      RoundAtTheEnd(c', a, e', pat, rep, true, ic, goal);
    }
  }

  /** One round: where the search goes on, or -1 when the line is done. */
  method SubstituteNext(buf: Buffer, ls: nat, q: nat, pat: seq<byte>, rep: seq<byte>, g: bool, ic: bool,
                        ghost e: nat, ghost goal: seq<byte>) returns (next: int, ghost e': nat)
    requires buf.Valid() && Pending(buf.Contents(), ls, q, e, pat, rep, g, ic, goal) && Pattern(pat)
    modifies buf`text, buf`end, buf`file_modified, buf.text
    ensures buf.Valid() && (buf.text == old(buf.text) || fresh(buf.text))
    ensures next < 0 ==> buf.Contents() == goal
    ensures next >= 0 ==> Pending(buf.Contents(), ls, next, e', pat, rep, g, ic, goal) && e' - next < e - q
  {
    hide EndLine, Once, Pending, Pattern, IsText;
    ghost var c := buf.Contents();
    PendingText(c, ls, q, e, pat, rep, g, ic, goal);
    var buf1 := SubstituteOnce(buf, q, pat, rep, ic);
    next, e' := -1, 0;
    if buf1 == -1 {
      RoundFails(c, buf.Contents(), ls, q, e, pat, rep, g, ic, goal);
    } else if !g {
      RoundEnds(c, buf.Contents(), ls, q, e, buf1, pat, rep, ic, goal);
    } else {
      RoundDecides(c, buf.Contents(), ls, q, e, buf1, pat, rep, ic, goal);
      if buf1 + |rep| < EndLine(buf.text[..buf.end], ls) {
        next, e' := buf1 + |rep|, EndLine(buf.Contents(), ls);
      }
    }
  }

  /**
   * The find-and-replace loop on one line. It ends even if the replacement
   * contains the pattern, because a replacement is never searched.
   */
  method SubstituteLine(buf: Buffer, ls: nat, pat: seq<byte>, rep: seq<byte>, g: bool, ic: bool)
    requires buf.Valid() && IsText(buf.Contents()) && ls < buf.end && Pattern(pat) && Replacement(rep)
    modifies buf`text, buf`end, buf`file_modified, buf.text
    ensures buf.Valid() && (buf.text == old(buf.text) || fresh(buf.text))
    ensures var t := old(buf.Contents());
            buf.Contents() == Outcome(t, ls, EndLine(t, ls), pat, rep, g, ic)
  {
    hide EndLine, Outcome, Pending, Replacement, IsText;
    ghost var c := buf.Contents();
    ghost var e: nat := EndLine(c, ls);
    ghost var goal := Outcome(c, ls, e, pat, rep, g, ic);
    PendingStarts(c, ls, pat, rep, g, ic);
    var q: int := ls;
    while q >= 0
      invariant buf.Valid() && (buf.text == old(buf.text) || fresh(buf.text))
      invariant q >= 0 ==> Pending(buf.Contents(), ls, q, e, pat, rep, g, ic, goal)
      invariant q < 0 ==> buf.Contents() == goal
      decreases if q < 0 then -1 else e - q
    {
      PendingText(buf.Contents(), ls, q, e, pat, rep, g, ic, goal);
      q, e := SubstituteNext(buf, ls, q, pat, rep, g, ic, e, goal);
      if q >= 0 {
        PendingText(buf.Contents(), ls, q, e, pat, rep, g, ic, goal);
      }
    }
  }
}

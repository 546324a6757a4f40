/** Matching brackets in the vi text buffer. */
module Pairs {
  import opened Bytes
  import opened Lines

  predicate IsOpening(c: byte) {
    c == 40 || c == 91 || c == 123      // ( [ {
  }

  predicate IsClosing(c: byte) {
    c == 41 || c == 93 || c == 125      // ) ] }
  }

  /** What find_pair() looks for; a character that is no bracket looks forward for a round one. */
  function Match(c: byte): (m: byte) {
    if c == 40 then 41 else if c == 41 then 40
    else if c == 91 || c == 123 then c + 2
    else if c == 93 || c == 125 then c - 2
    else 41
  }

  /** How many more `c` than `m` there are between two positions. */
  ghost function Surplus(t: seq<byte>, c: byte, m: byte, from: nat, to: nat): int
    requires from <= to <= |t|
  {
    if from == to then 0
    else Surplus(t, c, m, from, to - 1) + (if t[to - 1] == c then 1 else if t[to - 1] == m then -1 else 0)
  }

  /** The levels entered and not left from p up to and including k, in the direction of the search. */
  ghost function Level(t: seq<byte>, p: nat, k: nat): int
    requires p < |t| && k < |t| && (if IsClosing(t[p]) then k <= p else p <= k)
  {
    var c, m := t[p], Match(t[p]);
    if IsClosing(c) then Surplus(t, c, m, k, p + 1) else Surplus(t, c, m, p, k + 1)
  }

  /** q is the nearest place, in the direction of the search, where all levels entered since p are left. */
  ghost predicate Paired(t: seq<byte>, p: nat, q: nat) {
    && p < |t| && q < |t|
    && if IsClosing(t[p])
       then q < p && Level(t, p, q) == 0 && forall k: nat :: q < k <= p ==> Level(t, p, k) > 0
       else p < q && Level(t, p, q) == 0 && forall k: nat :: p <= k < q ==> Level(t, p, k) > 0
  }

  lemma {:induction false} SurplusSplit(t: seq<byte>, c: byte, m: byte, a: nat, b: nat, d: nat)
    requires a <= b <= d <= |t|
    ensures Surplus(t, c, m, a, d) == Surplus(t, c, m, a, b) + Surplus(t, c, m, b, d)
  {
    if b < d {
      SurplusSplit(t, c, m, a, b, d - 1);
    }
  }

  lemma {:induction false} SurplusTurned(t: seq<byte>, c: byte, m: byte, a: nat, b: nat)
    requires a <= b <= |t| && c != m
    ensures Surplus(t, c, m, a, b) == -Surplus(t, m, c, a, b)
  {
    if a < b {
      SurplusTurned(t, c, m, a, b - 1);
    }
  }

  /** find_pair(), as it is called: c is the character at p. -1 if there is no match. */
  method FindPair(t: seq<byte>, p: nat) returns (q: int)
    requires p < |t|
    ensures q >= 0 ==> Paired(t, p, q)
    ensures q >= -1 && (q == -1 ==> forall k :: !Paired(t, p, k))
  {
    var c := t[p];
    var match_, level, dir := Match(c), 1, if IsClosing(c) then -1 else 1;
    q := p + dir;
    ghost var last := p;
    LevelStep(t, p, p);
    while 0 <= q < |t|
      invariant q == last + dir && last < |t|
      invariant if IsClosing(c) then last <= p else p <= last
      invariant level == Level(t, p, last) > 0
      invariant forall k: nat {:trigger Level(t, p, k)} ::
                  (if IsClosing(c) then last <= k <= p else p <= k <= last) ==> Level(t, p, k) > 0
      decreases if IsClosing(c) then q else |t| - q
    {
      LevelStep(t, p, q);
      if t[q] == c {
        level := level + 1;
      }
      if t[q] == match_ {
        level := level - 1;
      }
      if level == 0 {
        return;
      }
      last := q;
      q := q + dir;
    }
    q := -1;
  }

  /** The level from one place to the next. */
  lemma LevelStep(t: seq<byte>, p: nat, k: nat)
    requires p < |t| && k < |t| && (if IsClosing(t[p]) then k <= p else p <= k)
    ensures k == p ==> Level(t, p, k) == 1
    ensures k != p ==>
              var before := if IsClosing(t[p]) then k + 1 else k - 1;
              Level(t, p, k) == Level(t, p, before) + (if t[k] == t[p] then 1 else if t[k] == Match(t[p]) then -1 else 0)
  {
    var c, m := t[p], Match(t[p]);
    if IsClosing(c) {
      SurplusSplit(t, c, m, k, k + 1, p + 1);
      assert Surplus(t, c, m, k, k) == 0;
    } else {
      assert Surplus(t, c, m, k, k) == 0;
    }
  }

  /** What stands at the two ends of a pair. */
  lemma PairedEnds(t: seq<byte>, p: nat, q: nat)
    requires Paired(t, p, q)
    ensures t[q] == Match(t[p])
  {
    LevelStep(t, p, q);
    var before: nat := if IsClosing(t[p]) then q + 1 else q - 1;
    assert Level(t, p, before) > 0;
  }

  /** Searching back from the match leads to where the search began, exactly if that was a bracket. */
  lemma PairedBack(t: seq<byte>, p: nat, q: nat)
    requires Paired(t, p, q)
    ensures Paired(t, q, p) <==> IsOpening(t[p]) || IsClosing(t[p])
  {
    PairedEnds(t, p, q);
    if IsOpening(t[p]) || IsClosing(t[p]) {
      LevelsTurned(t, p, q);
    } else if Paired(t, q, p) {
      PairedEnds(t, q, p);
    }
  }

  /** Between the ends of a pair, the level seen from one end is the level seen from the other, one place on. */
  lemma LevelsTurned(t: seq<byte>, p: nat, q: nat)
    requires Paired(t, p, q) && t[q] == Match(t[p]) && (IsOpening(t[p]) || IsClosing(t[p]))
    ensures Paired(t, q, p)
  {
    var c, m := t[p], t[q];
    assert Level(t, p, q) == 0;
    if IsOpening(c) {
      SurplusTurned(t, c, m, p, q + 1);
      forall k: nat | p < k <= q ensures Level(t, q, k) > 0 {
        assert Level(t, p, k - 1) > 0;
        SurplusSplit(t, c, m, p, k, q + 1);
        SurplusTurned(t, c, m, k, q + 1);
      }
    } else {
      SurplusTurned(t, c, m, q, p + 1);
      forall k: nat | q <= k < p ensures Level(t, q, k) > 0 {
        assert Level(t, p, k + 1) > 0;
        SurplusSplit(t, c, m, q, k + 1, p + 1);
        SurplusTurned(t, c, m, q, k + 1);
      }
    }
  }

  /** There is one match at most. */
  lemma PairedOnce(t: seq<byte>, p: nat, q: nat, q': nat)
    requires Paired(t, p, q) && Paired(t, p, q')
    ensures q == q'
  {
    assert Level(t, p, q) == 0 && Level(t, p, q') == 0;
  }

  /** Pairs of one kind of bracket do not cross: one is inside the other, or outside. */
  lemma PairsNest(t: seq<byte>, p: nat, q: nat, p': nat, q': nat)
    requires Paired(t, p, q) && Paired(t, p', q') && IsOpening(t[p]) && t[p'] == t[p]
    requires p < p' < q
    ensures p < p' < q' < q
  {
    SurplusSplit(t, t[p], Match(t[p]), p, p', q + 1);
    assert Level(t, p', q) == Level(t, p, q) - Level(t, p, p' - 1) < 0;
  }

  /** Pairs of different kinds may cross: only one kind is counted at a time. */
  lemma KindsCross()
    ensures var t := [40, 91, 41, 93];      // ( [ ) ]
            Paired(t, 0, 2) && Paired(t, 1, 3)
  {
    var t: seq<byte> := [40, 91, 41, 93];
    LevelStep(t, 0, 0);
    LevelStep(t, 0, 1);
    LevelStep(t, 0, 2);
    LevelStep(t, 1, 1);
    LevelStep(t, 1, 2);
    LevelStep(t, 1, 3);
  }

  /** strchr() on the six brackets, which finds the terminating NUL too. */
  predicate HalfOfAPair(c: byte) {
    IsOpening(c) || IsClosing(c) || c == NUL
  }

  /** The first half of a pair at or behind dot in its line, or the end of the line. */
  ghost predicate NextHalf(t: seq<byte>, dot: nat, q: nat) {
    && dot <= q < |t| && (HalfOfAPair(t[q]) || t[q] == LF)
    && forall i :: dot <= i < q ==> !HalfOfAPair(t[i]) && t[i] != LF
  }

  /** The % command: moves dot to the match of the first bracket at or behind it in its line. */
  method Percent(t: seq<byte>, dot: nat) returns (dot': nat, error: bool)
    requires IsText(t) && dot < |t|
    ensures dot' < |t| && (error ==> dot' == dot)
    ensures exists q: nat :: NextHalf(t, dot, q)
    ensures forall q: nat :: NextHalf(t, dot, q) ==>
              if error then t[q] == LF || (forall k :: !Paired(t, q, k)) else Paired(t, q, dot')
  {
    dot', error := dot, false;
    var q := dot;
    while q < |t| && t[q] != LF
      invariant dot <= q < |t|
      invariant forall i :: dot <= i < q ==> !HalfOfAPair(t[i]) && t[i] != LF
      invariant dot' == dot && !error
    {
      if HalfOfAPair(t[q]) {
        var p := FindPair(t, q);
        if p < 0 {
          error := true;
        } else {
          dot' := p;
        }
        break;
      }
      q := q + 1;
    }
    if t[q] == LF {
      error := true;
    }
    assert NextHalf(t, dot, q);
  }

  /** From a bracket with a match, % and % again is back where it was. */
  method PercentTwice(t: seq<byte>, dot: nat) returns (there: nat, back: nat, error: bool)
    requires IsText(t) && dot < |t| && (IsOpening(t[dot]) || IsClosing(t[dot]))
    ensures !error ==> Paired(t, dot, there) && back == dot
    ensures error <==> forall k :: !Paired(t, dot, k)
  {
    there, error := Percent(t, dot);
    assert NextHalf(t, dot, dot);
    back := there;
    if !error {
      PairedEnds(t, dot, there);
      PairedBack(t, dot, there);
      assert NextHalf(t, there, there);
      back, error := Percent(t, there);
      if !error {
        PairedOnce(t, there, dot, back);
      }
    }
  }
}

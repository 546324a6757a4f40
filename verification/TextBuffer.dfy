/** The vi text buffer: holes opened and closed in place, yanking, deleting, inserting. */
module TextBuffer {
  import opened Bytes

  /** What a C string copy takes of a stretch of text: everything before the first NUL. */
  function UpToNul(s: seq<byte>): (r: seq<byte>)
    ensures NUL !in s ==> r == s
  {
    if s == [] || s[0] == NUL then [] else [s[0]] + UpToNul(s[1..])
  }

  lemma {:induction false} UpToNulIs(s: seq<byte>, k: nat)
    requires k <= |s| && NUL !in s[..k] && (k == |s| || s[k] == NUL)
    ensures UpToNul(s) == s[..k]
  {
    if k > 0 {
      assert s[0] == s[..k][0] && s[1..][..k - 1] == s[..k][1..];
      UpToNulIs(s[1..], k - 1);
      assert s[..k] == [s[0]] + s[1..][..k - 1];
    }
  }

  lemma Halves<T>(c: seq<T>, q: nat)
    requires q <= |c|
    ensures c == c[..q] + c[q..]
  {
  }

  lemma Thirds<T>(c: seq<T>, q: nat, e: nat)
    requires q <= e <= |c|
    ensures c == c[..q] + c[q..e] + c[e..]
  {
  }

  /** The last position yank_delete() takes: with dist <= 0 it stops short of a newline behind `start`. */
  function SpanEnd(t: seq<byte>, start: nat, stop: nat, dist: int): (e: nat)
    requires start <= stop < |t|
    ensures start <= e <= stop
    decreases stop - start
  {
    if dist > 0 || start == stop || t[start + 1] == LF then (if dist > 0 then stop else start)
    else SpanEnd(t, start + 1, stop, dist)
  }

  /** It is the end of the span asked for, or the end of the line if that is nearer. */
  lemma {:induction false} SpanEndSpec(t: seq<byte>, start: nat, stop: nat, dist: int)
    requires start <= stop < |t|
    ensures var e := SpanEnd(t, start, stop, dist);
            && (dist > 0 ==> e == stop)
            && (dist <= 0 ==> forall i :: start < i <= e ==> t[i] != LF)
            && (dist <= 0 && e < stop ==> t[e + 1] == LF)
    decreases stop - start
  {
    if dist <= 0 && start < stop && t[start + 1] != LF {
      SpanEndSpec(t, start + 1, stop, dist);
    }
  }

  /** The text and the register after yank_delete() on the span lo through hi. */
  ghost predicate YankedAndDeleted(t: seq<byte>, t': seq<byte>, reg: seq<byte>, reg': seq<byte>,
                                   lo: nat, hi: nat, dist: int, keep: bool)
    requires lo <= hi < |t|
  {
    var e := SpanEnd(t, lo, hi, dist);
    if dist <= 0 && t[lo] == LF then t' == t && reg' == reg
    else reg' == UpToNul(t[lo..e + 1]) && t' == if keep then t else t[..lo] + t[e + 1..]
  }

  lemma NothingYanked(t: seq<byte>, reg: seq<byte>, lo: nat, hi: nat, dist: int, keep: bool)
    requires lo <= hi < |t| && dist <= 0 && t[lo] == LF
    ensures YankedAndDeleted(t, t, reg, reg, lo, hi, dist, keep)
  {
  }

  lemma SpanYanked(t: seq<byte>, t': seq<byte>, reg: seq<byte>, reg': seq<byte>, lo: nat, hi: nat, dist: int, keep: bool)
    requires lo <= hi < |t| && (dist <= 0 ==> t[lo] != LF)
    requires var e := if dist <= 0 then SpanEnd(t, lo, hi, 0) else hi;
             && reg' == UpToNul(t[lo..e + 1])
             && t' == if keep then t else t[..lo] + t[e + 1..]
    ensures YankedAndDeleted(t, t', reg, reg', lo, hi, dist, keep)
  {
    hide UpToNul, SpanEnd;
    if dist <= 0 {
      SpanEndSign(t, lo, hi, dist);
    } else {
      SpanEndSpec(t, lo, hi, dist);
    }
  }

  /** Only the sign of dist matters. */
  lemma {:induction false} SpanEndSign(t: seq<byte>, start: nat, stop: nat, dist: int)
    requires start <= stop < |t| && dist <= 0
    ensures SpanEnd(t, start, stop, dist) == SpanEnd(t, start, stop, 0)
    decreases stop - start
  {
    if start < stop {
      SpanEndSign(t, start + 1, stop, dist);
    }
  }

  class Buffer {
    var text: array<byte>
    var end: nat
    var dot: nat
    var screenbegin: nat
    var reg: seq<byte>
    var file_modified: nat

    ghost predicate Valid()
      reads this
    {
      end < text.Length
    }

    ghost function Contents(): (s: seq<byte>)
      requires Valid()
      reads this, text
      ensures |s| == end
    {
      text[..end]
    }

    constructor (contents: seq<byte>)
      ensures Valid() && Contents() == contents && fresh(text)
    {
      text := new byte[|contents| + 10240](i => if 0 <= i < |contents| then contents[i] else 0);
      end, dot, screenbegin, reg, file_modified := |contents|, 0, 0, [], 0;
    }

    /** The reallocation of text_hole_make(). */
    method Grow()
      requires end >= text.Length
      modifies this`text
      ensures fresh(text) && text.Length == end + 10240
      ensures text[..old(text.Length)] == old(text[..])
    {
      var new_text := new byte[end + 10240];
      forall i | 0 <= i < text.Length {
        new_text[i] := text[i];
      }
      text := new_text;
    }

    /** The memmove() and memset() of text_hole_make(), with `end` already moved. */
    method Shift(p: nat, size: nat)
      requires p + size <= end <= text.Length
      modifies text
      ensures text[..p] == old(text[..p])
      ensures text[p..p + size] == Rep(SP, size)
      ensures text[p + size..end] == old(text[p..end - size])
    {
      forall i | p + size <= i < end {
        text[i] := text[i - size];
      }
      forall i | p <= i < p + size {
        text[i] := SP;
      }
    }

    /** text_hole_make(): opens a hole of spaces at p; the buffer grows when it is full. */
    method HoleMake(p: nat, size: int) returns (q: nat)
      requires Valid() && p <= end
      modifies this`text, this`end, this`file_modified, text
      ensures Valid() && q == p && (text == old(text) || fresh(text))
      ensures Contents() == old(Contents()[..p]) + Rep(SP, if size > 0 then size else 0) + old(Contents()[p..])
      ensures file_modified == old(file_modified) + if size > 0 then 1 else 0
    {
      q := p;
      if size <= 0 {
        assert Contents() == Contents()[..p] + Rep(SP, 0) + Contents()[p..];
        return;
      }
      ghost var t := Contents();
      end := end + size;
      if end >= text.Length {
        Grow();
        assert text[..|t|] == text[..old(text.Length)][..|t|] == t;
      }
      assert text[..p] == text[..|t|][..p] == t[..p];
      assert text[p..end - size] == text[..|t|][p..] == t[p..];
      Shift(p, size);
      assert text[..end] == text[..p] + text[p..p + size] + text[p + size..end];
      file_modified := file_modified + 1;
    }

    /** The memmove() of text_hole_delete(). */
    method MoveDown(dest: nat, src: nat)
      requires dest <= src <= end <= text.Length
      modifies text
      ensures text[..dest] == old(text[..dest])
      ensures text[dest..dest + (end - src)] == old(text[src..end])
    {
      forall i | dest <= i < dest + (end - src) {
        text[i] := text[i + (src - dest)];
      }
    }

    /**
     * text_hole_delete(p, q): removes p through q. What lies outside the text is
     * left alone. With q before p the octets behind p move to q, but the size of the
     * hole comes out negative or zero, and the text ends no earlier than before.
     */
    method HoleDelete(p: nat, q: nat) returns (dest: nat)
      requires Valid()
      modifies this`end, this`file_modified, text
      ensures p <= q ==> Valid()
      ensures p <= q ==>
                Contents() == if q < old(end) then old(Contents()[..p]) + old(Contents()[q + 1..]) else old(Contents())
      ensures p <= q ==> file_modified == old(file_modified) + if q < old(end) then 1 else 0
      ensures p <= q ==> dest == if q >= old(end) || p < end then p else if end > 0 then end - 1 else 0
      ensures q < p ==> dest == q && end == old(end) + if p < old(end) then p - q - 1 else 0
      ensures q < p < old(end) ==> text[..q + (old(end) - p - 1)] == old(text[..q]) + old(text[p + 1..end])
    {
      var src := q + 1;
      dest := p;
      if q < p {
        src := p + 1;
        dest := q;
      }
      var hole_size := q - p + 1;
      ghost var t := Contents();
      if src > end || dest >= end {
        return;
      }
      ghost var kept := end - src;
      assert t[..dest] == text[..dest] && t[src..] == text[src..end];
      if src < end {
        MoveDown(dest, src);
      }
      Halves(text[..dest + kept], dest);
      assert text[..dest + kept][..dest] == text[..dest] && text[..dest + kept][dest..] == text[dest..dest + kept];
      assert text[..dest + kept] == t[..dest] + t[src..];
      end := end - hole_size;
      if dest >= end {
        dest := if end > 0 then end - 1 else 0;
      }
      file_modified := file_modified + 1;
    }

    /** text_yank(): the register takes p through q, copied as strncpy() copies. */
    method Yank(p: nat, q: nat)
      requires Valid() && p <= q < end
      modifies this`reg
      ensures reg == UpToNul(Contents()[p..q + 1])
    {
      hide UpToNul;
      ghost var span := Contents()[p..q + 1];
      reg := [];
      var i := p;
      while i <= q && text[i] != NUL
        invariant p <= i <= q + 1 && span == Contents()[p..q + 1]
        invariant reg == span[..i - p] && NUL !in reg
      {
        reg := reg + [text[i]];
        i := i + 1;
      }
      assert i <= q ==> span[i - p] == text[i];
      UpToNulIs(span, i - p);
    }

    /** The loop of yank_delete() that stops the span short of a newline. */
    method Trim(start: nat, stop: nat) returns (e: nat)
      requires Valid() && start <= stop < end
      ensures e == SpanEnd(Contents(), start, stop, 0)
    {
      var p := start;
      while p + 1 <= stop
        invariant start <= p <= stop
        invariant SpanEnd(Contents(), start, stop, 0) == SpanEnd(Contents(), p, stop, 0)
      {
        if text[p + 1] == LF {
          return p;
        }
        p := p + 1;
      }
      e := stop;
    }

    /** The second half of yank_delete(): start <= stop, and stop is where it should be. */
    method TakeOut(start: nat, stop: nat, keep: bool) returns (p: nat)
      requires Valid() && start <= stop < end
      modifies this`reg, this`end, this`file_modified, text
      ensures Valid()
      ensures reg == UpToNul(old(Contents()[start..stop + 1]))
      ensures Contents() == if keep then old(Contents()) else old(Contents()[..start]) + old(Contents()[stop + 1..])
      ensures file_modified == old(file_modified) + if keep then 0 else 1
      ensures p == if keep || start < end then start else if end > 0 then end - 1 else 0
    {
      p := start;
      Yank(start, stop);
      if !keep {
        p := HoleDelete(start, stop);
      }
    }

    /**
     * yank_delete(): yanks, and unless `keep`, deletes the span between two
     * positions; with dist <= 0 no newline goes with it.
     */
    method YankDelete(start: nat, stop: nat, dist: int, keep: bool) returns (p: nat)
      requires Valid() && start < end && stop < end
      modifies this`reg, this`end, this`file_modified, text
      ensures Valid()
      ensures var lo, hi := if start > stop then stop else start, if start > stop then start else stop;
              && YankedAndDeleted(old(Contents()), Contents(), old(reg), reg, lo, hi, dist, keep)
              && p == (if lo < end then lo else if end > 0 then end - 1 else 0)
              && file_modified == old(file_modified) + if keep || (dist <= 0 && old(Contents())[lo] == LF) then 0 else 1
    {
      hide UpToNul, SpanEnd, YankedAndDeleted;
      var start, stop := start, stop;
      if start > stop {
        start, stop := stop, start;
      }
      ghost var t, hi := Contents(), stop;
      if dist <= 0 {
        if text[start] == LF {
          NothingYanked(t, reg, start, stop, dist, keep);
          return start;
        }
        stop := Trim(start, stop);
      }
      p := TakeOut(start, stop, keep);
      SpanYanked(t, Contents(), old(reg), reg, start, hi, dist, keep);
    }

    /** The strncpy() of string_insert(). */
    method CopyIn(p: nat, s: seq<byte>)
      requires Valid() && p + |s| <= end
      modifies text
      ensures Valid() && Contents() == old(Contents()[..p]) + s + old(Contents()[p + |s|..])
    {
      forall i | 0 <= i < |s| {
        text[p + i] := s[i];
      }
      ghost var was := old(Contents());
      forall k | 0 <= k < end
        ensures Contents()[k] == (was[..p] + s + was[p + |s|..])[k]
      {
      }
    }

    /** string_insert(): puts a string into the text at p. */
    method StringInsert(p: nat, s: seq<byte>) returns (q: nat)
      requires Valid() && p <= end
      modifies this`text, this`end, this`file_modified, text
      ensures Valid() && q == p && (text == old(text) || fresh(text))
      ensures Contents() == old(Contents()[..p]) + s + old(Contents()[p..])
      ensures file_modified == old(file_modified) + if s != [] then 1 else 0
    {
      hide Rep;
      ghost var t := Contents();
      q := HoleMake(p, |s|);
      ghost var h := Contents();
      assert h == t[..p] + Rep(SP, |s|) + t[p..];
      assert h[..p] == t[..p] && h[p + |s|..] == t[p..];
      CopyIn(p, s);
    }

    /**
     * Deleting NUL-free text and putting the register back restores it, however
     * the buffer has grown. The position yank_delete() returns is the start of the
     * span, unless nothing was left behind it.
     */
    method DeleteAndPutBack(start: nat, stop: nat, dist: int) returns (moved: bool)
      requires Valid() && start < end && stop < end && NUL !in Contents()
      requires !(dist <= 0 && Contents()[if start > stop then stop else start] == LF)
      modifies this`reg, this`text, this`end, this`file_modified, text
      ensures Valid() && Contents() == old(Contents())
      ensures moved ==> reg == old(Contents()[if start > stop then stop else start..])
    {
      ghost var t := Contents();
      var at := if start > stop then stop else start;
      var q := YankDelete(start, stop, dist, false);
      moved := q != at;
      ghost var e := SpanEnd(t, at, if start > stop then start else stop, dist);
      assert q != at ==> t[at..e + 1] == t[at..];
      q := StringInsert(if moved then at else q, reg);
      assert t == t[..at] + t[at..e + 1] + t[e + 1..];
    }
  }
}

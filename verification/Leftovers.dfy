/** How large the buffer for getpkt()'s leftover has to be. */
module Leftovers {
  import opened Bytes
  import opened Codec
  import opened Packets
  import opened RoundTrip

  /** What successive getpkt() calls leave over. */
  function LeftOver(p: Prefixes, maxlen: nat, s: Source): (r: seq<seq<byte>>)
    requires s.Valid()
    ensures |r| >= 1
    decreases s.Weight()
  {
    var r := GetPkt(p, maxlen, s);
    [r.src.remain] + if r.data == [] then [] else LeftOver(p, maxlen, r.src)
  }

  /** Every leftover of every file, with its terminator, fits a buffer of this size. */
  ghost predicate Suffices(p: Prefixes, maxlen: nat, cells: nat) {
    forall f: seq<byte> :: Hold(LeftOver(p, maxlen, Start(f)), cells)
  }

  predicate Hold(left: seq<seq<byte>>, cells: nat) {
    forall r <- left :: |r| + 1 <= cells
  }

  lemma {:induction false} FillLeavesLittle(p: Prefixes, maxlen: nat, s: Encoding, cur: byte, rest: seq<byte>)
    requires s.rpt < MAX_RUN && s.osize == |s.data|
    ensures |Fill(p, maxlen, s, cur, rest).src.remain| + 1 <= Cells(p)
    decreases |rest|
  {
    hide Encode, Cells;
    var next := NextOf(rest);
    EncodeGrowth(p, maxlen, s, cur, next);
    var e := Encode(p, maxlen, s, cur, next);
    if |e.data| < maxlen && rest != [] {
      FillLeavesLittle(p, maxlen, e.(osize := |e.data|), rest[0], rest[1..]);
    }
  }

  lemma {:induction false} AllHold(p: Prefixes, maxlen: nat, s: Source)
    requires s.Valid()
    ensures Hold(LeftOver(p, maxlen, s), Cells(p))
    decreases s.Weight()
  {
    hide Fill;
    var r := GetPkt(p, maxlen, s);
    if s.first != -1 && s.Ahead() != [] {
      if s.first == 1 {
        FillLeavesLittle(p, maxlen, Encoding([], 0, 0), s.rest[0], s.rest[1..]);
      } else {
        FillLeavesLittle(p, maxlen, Encoding(s.remain, |s.remain|, 0), s.cur, s.rest);
      }
    }
    assert |r.src.remain| + 1 <= Cells(p);
    if r.data != [] {
      AllHold(p, maxlen, r.src);
    }
  }

  /** `k` letters of which no two in a row are the same. */
  function Alternating(k: nat): (s: seq<byte>)
    ensures |s| == k
    ensures forall i :: 0 <= i < k ==> s[i] == 65 + (k - i) % 2
  {
    if k == 0 then [] else [65 + k % 2] + Alternating(k - 1)
  }

  /** A file whose first packet is full but for one octet when the longest code comes, or two of it. */
  function Bulky(p: Prefixes, maxlen: nat): seq<byte>
    requires maxlen >= 1
  {
    Alternating(maxlen - 1) + Bulk(p)
  }

  function Bulk(p: Prefixes): (s: seq<byte>)
    ensures s != [] && s[0] == Wide(p)
  {
    if p.rptOn then [Wide(p), Wide(p), 90, 90, 90] else [Wide(p)]
  }

  lemma LettersFirst(p: Prefixes, maxlen: nat)
    requires p.InRange() && maxlen >= 1
    ensures GetPkt(p, maxlen, Start(Bulky(p, maxlen)))
         == Fill(p, maxlen, Encoding(Alternating(maxlen - 1), maxlen - 1, 0), Wide(p), Bulk(p)[1..])
  {
    hide Code, Fill, Encode;
    var k, f := maxlen - 1, Bulky(p, maxlen);
    forall i | 0 <= i < k
      ensures Code(p, f[i]) == [f[i]] && f[i + 1] != f[i]
    {
      LetterCode(p, f[i]);
    }
    FillLetters(p, maxlen, [], f, k);
    assert [] + f[..k] == Alternating(k) && f[k..] == Bulk(p);
    assert f[k + 1..] == f[k..][1..];
  }

  lemma BulkyLeaves(p: Prefixes, maxlen: nat)
    requires p.InRange() && maxlen >= 1
    ensures |GetPkt(p, maxlen, Start(Bulky(p, maxlen))).src.remain| + 1 == Cells(p)
  {
    hide Code, Fill, Encode, GetPkt, Bulky;
    WideCode(p);
    LettersFirst(p, maxlen);
    if p.rptOn {
      assert Bulk(p)[1..] == [Wide(p), 90, 90, 90];
      PairOverflows(p, maxlen, Alternating(maxlen - 1), Wide(p));
    } else {
      assert Bulk(p)[1..] == [];
      LastOverflows(p, maxlen, Alternating(maxlen - 1), Wide(p));
    }
  }

  lemma LastOverflows(p: Prefixes, maxlen: nat, data: seq<byte>, x: byte)
    requires !p.rptOn && |data| < maxlen < |data| + |Code(p, x)|
    ensures Fill(p, maxlen, Encoding(data, |data|, 0), x, []).src.remain == Code(p, x)
  {
    hide Code;
    var e := Encode(p, maxlen, Encoding(data, |data|, 0), x, -1);
    assert e.data[e.osize..] == Code(p, x);
  }

  /** The least buffer for the leftovers of all files is Cells(p), whatever the packet size. */
  lemma CellsExactly(p: Prefixes, maxlen: nat, cells: nat)
    requires p.InRange() && maxlen >= 1
    ensures Suffices(p, maxlen, cells) <==> cells >= Cells(p)
  {
    hide Cells, GetPkt;
    if cells >= Cells(p) {
      forall f: seq<byte>
        ensures Hold(LeftOver(p, maxlen, Start(f)), cells)
      {
        AllHold(p, maxlen, Start(f));
      }
    } else {
      BulkyLeaves(p, maxlen);
      var left := LeftOver(p, maxlen, Start(Bulky(p, maxlen)));
      assert left[0] in left;
    }
  }

  /** The six cells of the source are enough unless run-length encoding and 8th-bit prefixing are both on. */
  lemma SixCellsExactly(p: Prefixes, maxlen: nat)
    requires p.InRange() && maxlen >= 1
    ensures Suffices(p, maxlen, 6) <==> !(p.rptOn && p.ebqOn)
  {
    hide Suffices;
    CellsExactly(p, maxlen, 6);
  }

  /** Where they are not, a file leaves six octets over, whose terminator is outside. */
  lemma SixOctetsLeft(p: Prefixes, maxlen: nat)
    requires p.InRange() && p.rptOn && p.ebqOn && maxlen >= 1
    ensures |GetPkt(p, maxlen, Start(Bulky(p, maxlen))).src.remain| == 6
  {
    hide GetPkt;
    BulkyLeaves(p, maxlen);
  }
}

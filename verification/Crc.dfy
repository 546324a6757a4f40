/** Block check type 3: the tableless 16-bit CRC, against bit-by-bit division. */
module Crc {
  import opened Bytes
  import opened Octets

  /** Half a pass of the loop of chk3(): four bits at once. */
  function NibbleStep(crc: bv16, c: bv16): bv16 {
    var q := (crc ^ c) & 15;
    (crc >> 4) ^ Times(q)
  }

  /** The multiplication by 010201 that stands for a table of sixteen entries. */
  function Times(q: bv16): bv16 {
    q * 0x1081
  }

  function ByteStep(crc: bv16, c: bv16): bv16 {
    NibbleStep(NibbleStep(crc, c), c >> 4)
  }

  /** The octet chk3() and chksum() work on: with parity in use, only its low seven bits. */
  function Masked(parity: bool, b: byte): byte {
    if parity then b % 128 else b
  }

  /** The CRC of a string, from a given register. */
  function Fold(parity: bool, crc: bv16, s: seq<byte>): bv16
    decreases |s|
  {
    if s == [] then crc
    else Fold(parity, ByteStep(crc, Octet(Masked(parity, s[0]))), s[1..])
  }

  lemma {:induction false} FoldSnoc(parity: bool, crc: bv16, s: seq<byte>, b: byte)
    ensures Fold(parity, crc, s + [b]) == ByteStep(Fold(parity, crc, s), Octet(Masked(parity, b)))
    decreases |s|
  {
    hide ByteStep, Octet;
    if s == [] {
      assert [b][1..] == [];
    } else {
      assert (s + [b])[1..] == s[1..] + [b];
      FoldSnoc(parity, ByteStep(crc, Octet(Masked(parity, s[0]))), s[1..], b);
    }
  }

  lemma ByteStepNibbles(crc: bv16, c: bv16)
    ensures ByteStep(crc, c) == NibbleStep(NibbleStep(crc, c), c >> 4)
  {
  }

  /** chk3(s, len). */
  method Chk3(parity: bool, s: array<byte>, start: nat, len: nat) returns (crc: bv16)
    requires start + len <= s.Length
    ensures crc == Fold(parity, 0, s[start..start + len])
  {
    hide ByteStep, NibbleStep, Octet;
    crc := 0;
    for i := 0 to len
      invariant crc == Fold(parity, 0, s[start..start + i])
    {
      var c := Octet(s[start + i]);
      if parity {
        c := Octet(s[start + i] % 128);
      }
      FoldSnoc(parity, 0, s[start..start + i], s[start + i]);
      assert s[start..start + i + 1] == s[start..start + i] + [s[start + i]];
      var before := crc;
      crc := NibbleStep(crc, c);
      crc := NibbleStep(crc, c >> 4);
      assert crc == ByteStep(before, c) by {
        ByteStepNibbles(before, c);
      }
    }
  }

  // ------------------------------------------------------- bit by bit

  /**
   * One bit of division by x^16 + x^12 + x^5 + 1, low-order bit first: 0x8408 is
   * the divisor without its leading term, reflected.
   */
  function BitStep(crc: bv16, bit: bool): bv16 {
    Sum(Half(crc), Feedback(Odd(crc) != bit))
  }

  /** Addition of registers, which are polynomials over the two-element field. */
  function Sum(c: bv16, d: bv16): bv16 {
    c ^ d
  }

  function Half(c: bv16): bv16 {
    c >> 1
  }

  predicate Odd(c: bv16) {
    c & 1 == 1
  }

  function Feedback(on: bool): bv16 {
    if on then 0x8408 else 0
  }

  function Divide(crc: bv16, bits: seq<bool>): bv16
    decreases |bits|
  {
    if bits == [] then crc else Divide(BitStep(crc, bits[0]), bits[1..])
  }

  function Bit(c: bv16, mask: bv16): bool {
    c & mask != 0
  }

  /** The bits of one octet, low-order bit first. */
  function Bits8(c: bv16): (s: seq<bool>)
    ensures |s| == 8
  {
    [Bit(c, 1), Bit(c, 2), Bit(c, 4), Bit(c, 8), Bit(c, 16), Bit(c, 32), Bit(c, 64), Bit(c, 128)]
  }

  function BitsOf(parity: bool, s: seq<byte>): (r: seq<bool>)
    ensures |r| == 8 * |s|
  {
    if s == [] then [] else Bits8(Octet(Masked(parity, s[0]))) + BitsOf(parity, s[1..])
  }

  lemma {:induction false} DivideAppend(crc: bv16, a: seq<bool>, b: seq<bool>)
    ensures Divide(crc, a + b) == Divide(Divide(crc, a), b)
    decreases |a|
  {
    hide BitStep;
    if a == [] {
      assert a + b == b;
    } else {
      assert (a + b)[1..] == a[1..] + b;
      DivideAppend(BitStep(crc, a[0]), a[1..], b);
    }
  }

  /** Four bits at once, by one multiplication, are four bits in turn. */
  lemma NibbleIsFourBits(crc: bv16, c: bv16)
    ensures NibbleStep(crc, c)
         == BitStep(BitStep(BitStep(BitStep(crc, Bit(c, 1)), Bit(c, 2)), Bit(c, 4)), Bit(c, 8))
  {
  }

  lemma HighNibble(c: bv16)
    ensures Bit(c >> 4, 1) == Bit(c, 16) && Bit(c >> 4, 2) == Bit(c, 32)
    ensures Bit(c >> 4, 4) == Bit(c, 64) && Bit(c >> 4, 8) == Bit(c, 128)
  {
  }

  lemma Divide4(crc: bv16, b0: bool, b1: bool, b2: bool, b3: bool)
    ensures Divide(crc, [b0, b1, b2, b3]) == BitStep(BitStep(BitStep(BitStep(crc, b0), b1), b2), b3)
  {
    hide BitStep;
    var s, s1, s2, s3 := [b0, b1, b2, b3], [b1, b2, b3], [b2, b3], [b3];
    assert s[1..] == s1 && s1[1..] == s2 && s2[1..] == s3 && s3[1..] == [];
    var c1 := BitStep(crc, b0);
    var c2 := BitStep(c1, b1);
    assert Divide(crc, s) == Divide(c1, s1) == Divide(c2, s2);
    var c3 := BitStep(c2, b2);
    assert Divide(c2, s2) == Divide(c3, s3);
    assert Divide(c3, s3) == Divide(BitStep(c3, b3), []);
  }

  lemma ByteIsEightBits(crc: bv16, c: bv16)
    ensures ByteStep(crc, c) == Divide(crc, Bits8(c))
  {
    hide NibbleStep, BitStep, Bit;
    var lo := [Bit(c, 1), Bit(c, 2), Bit(c, 4), Bit(c, 8)];
    var hi := [Bit(c, 16), Bit(c, 32), Bit(c, 64), Bit(c, 128)];
    assert Bits8(c) == lo + hi;
    DivideAppend(crc, lo, hi);
    Divide4(crc, lo[0], lo[1], lo[2], lo[3]);
    NibbleIsFourBits(crc, c);
    Divide4(NibbleStep(crc, c), hi[0], hi[1], hi[2], hi[3]);
    NibbleIsFourBits(NibbleStep(crc, c), c >> 4);
    HighNibble(c);
  }

  /** The nibble-at-a-time CRC of a string is the remainder of dividing its bits. */
  lemma {:induction false} CrcIsDivision(parity: bool, crc: bv16, s: seq<byte>)
    ensures Fold(parity, crc, s) == Divide(crc, BitsOf(parity, s))
    decreases |s|
  {
    hide ByteStep, Bits8, Octet;
    if s != [] {
      var c := Octet(Masked(parity, s[0]));
      ByteIsEightBits(crc, c);
      DivideAppend(crc, Bits8(c), BitsOf(parity, s[1..]));
      CrcIsDivision(parity, ByteStep(crc, c), s[1..]);
    }
  }

  // --------------------------------------------------------- what it detects

  function Xor(a: seq<bool>, b: seq<bool>): (r: seq<bool>)
    requires |a| == |b|
    ensures |r| == |a| && forall i :: 0 <= i < |a| ==> r[i] == (a[i] != b[i])
  {
    seq(|a|, i requires 0 <= i < |a| => a[i] != b[i])
  }

  lemma OddSum(c: bv16, d: bv16)
    ensures Odd(Sum(c, d)) == (Odd(c) != Odd(d))
  {
  }

  lemma HalfSum(c: bv16, d: bv16)
    ensures Half(Sum(c, d)) == Sum(Half(c), Half(d))
  {
  }

  lemma FeedbackSum(f: bool, g: bool)
    ensures Feedback(f != g) == Sum(Feedback(f), Feedback(g))
  {
  }

  lemma SumCommutes(a: bv16, b: bv16)
    ensures Sum(a, b) == Sum(b, a)
  {
  }

  lemma SumAssociates(a: bv16, b: bv16, c: bv16)
    ensures Sum(Sum(a, b), c) == Sum(a, Sum(b, c))
  {
  }

  lemma Regroup(a: bv16, b: bv16, x: bv16, y: bv16)
    ensures Sum(Sum(a, b), Sum(x, y)) == Sum(Sum(a, x), Sum(b, y))
  {
    hide Sum;
    calc {
      Sum(Sum(a, b), Sum(x, y));
      { SumAssociates(a, b, Sum(x, y)); }
      Sum(a, Sum(b, Sum(x, y)));
      { SumAssociates(b, x, y); SumCommutes(b, x); SumAssociates(x, b, y); }
      Sum(a, Sum(x, Sum(b, y)));
      { SumAssociates(a, x, Sum(b, y)); }
      Sum(Sum(a, x), Sum(b, y));
    }
  }

  lemma StepLinear(c: bv16, d: bv16, x: bool, y: bool)
    ensures BitStep(Sum(c, d), x != y) == Sum(BitStep(c, x), BitStep(d, y))
  {
    hide Sum, Half, Odd, Feedback;
    OddSum(c, d);
    HalfSum(c, d);
    FeedbackSum(Odd(c) != x, Odd(d) != y);
    Regroup(Half(c), Half(d), Feedback(Odd(c) != x), Feedback(Odd(d) != y));
    assert ((Odd(c) != Odd(d)) != (x != y)) == ((Odd(c) != x) != (Odd(d) != y));
  }

  /** The remainder of a sum is the sum of the remainders. */
  lemma {:induction false} DivideLinear(c: bv16, d: bv16, a: seq<bool>, b: seq<bool>)
    requires |a| == |b|
    ensures Divide(Sum(c, d), Xor(a, b)) == Sum(Divide(c, a), Divide(d, b))
    decreases |a|
  {
    hide BitStep, Sum;
    if a != [] {
      StepLinear(c, d, a[0], b[0]);
      assert Xor(a, b)[0] == (a[0] != b[0]) && Xor(a, b)[1..] == Xor(a[1..], b[1..]);
      DivideLinear(BitStep(c, a[0]), BitStep(d, b[0]), a[1..], b[1..]);
    }
  }

  lemma Bits8Sum(x: bv16, y: bv16)
    ensures Xor(Bits8(x), Bits8(y)) == Bits8(Sum(x, y))
  {
    hide Sum, Bits8;
    forall k | 0 <= k < 8
      ensures Bits8(Sum(x, y))[k] == (Bits8(x)[k] != Bits8(y)[k])
    {
      Bits8At(x, k);
      Bits8At(y, k);
      Bits8At(Sum(x, y), k);
      BitSum(x, y, MaskAt(k));
    }
  }

  /** The mask of one bit of an octet. */
  function MaskAt(k: nat): (m: bv16)
    requires k < 8
    ensures m == 1 || m == 2 || m == 4 || m == 8 || m == 16 || m == 32 || m == 64 || m == 128
  {
    if k == 0 then 1 else if k == 1 then 2 else if k == 2 then 4 else if k == 3 then 8
    else if k == 4 then 16 else if k == 5 then 32 else if k == 6 then 64 else 128
  }

  lemma Bits8At(x: bv16, k: nat)
    requires k < 8
    ensures Bits8(x)[k] == Bit(x, MaskAt(k))
  {
    hide Bit;
  }

  lemma BitSum(x: bv16, y: bv16, m: bv16)
    requires m == 1 || m == 2 || m == 4 || m == 8 || m == 16 || m == 32 || m == 64 || m == 128
    ensures Bit(Sum(x, y), m) == (Bit(x, m) != Bit(y, m))
  {
    SingleBit(x, m);
    SingleBit(y, m);
    SumUnderMask(x, y, m);
  }

  lemma SingleBit(x: bv16, m: bv16)
    requires m == 1 || m == 2 || m == 4 || m == 8 || m == 16 || m == 32 || m == 64 || m == 128
    ensures m != 0 && (x & m == 0 || x & m == m)
  {
  }

  lemma SumUnderMask(x: bv16, y: bv16, m: bv16)
    ensures Sum(x, y) & m == Sum(x & m, y & m)
  {
  }

  /** Two octets after the same text: the difference of the registers is the CRC of their difference. */
  lemma ByteStepLinear(c: bv16, x: bv16, y: bv16)
    ensures Sum(ByteStep(c, x), ByteStep(c, y)) == ByteStep(0, Sum(x, y))
  {
    hide ByteStep, Bits8, Sum, Divide;
    ByteIsEightBits(c, x);
    ByteIsEightBits(c, y);
    ByteIsEightBits(0, Sum(x, y));
    DivideLinear(c, c, Bits8(x), Bits8(y));
    Bits8Sum(x, y);
    SumSelf(c);
  }

  lemma SumSelf(c: bv16)
    ensures Sum(c, c) == 0
  {
  }

  lemma SumParts(a: bv16, b: bv16)
    ensures a & 0xFFF == b & 0xFFF ==> Sum(a, b) & 0xFFF == 0
    ensures a & 0xFF00 == 0 && b & 0xFF00 == 0 ==> Sum(a, b) & 0xFF00 == 0
    ensures Sum(a, b) == 0 ==> a == b
  {
  }

  lemma OctetShows(z: bv16)
    requires z & 0xFF00 == 0 && ByteStep(0, z) & 0xFFF == 0
    ensures z == 0
  {
  }

  function LowTwelve(c: bv16): bv16 {
    c & 0xFFF
  }

  /** The last octet of a text shows in the low twelve bits of its CRC. */
  lemma LastOctetShows(parity: bool, pre: seq<byte>, b: byte, b': byte)
    requires LowTwelve(Fold(parity, 0, pre + [b])) == LowTwelve(Fold(parity, 0, pre + [b']))
    ensures Masked(parity, b) == Masked(parity, b')
  {
    hide Fold, Octet, Masked, ByteStep, Sum;
    var c, x, y := Fold(parity, 0, pre), Octet(Masked(parity, b)), Octet(Masked(parity, b'));
    FoldSnoc(parity, 0, pre, b);
    FoldSnoc(parity, 0, pre, b');
    NumberOctet(Masked(parity, b));
    NumberOctet(Masked(parity, b'));
    ByteStepLinear(c, x, y);
    SumParts(ByteStep(c, x), ByteStep(c, y));
    SumParts(x, y);
    OctetShows(Sum(x, y));
  }

  predicate AllFalse(s: seq<bool>) {
    forall i :: 0 <= i < |s| ==> !s[i]
  }

  lemma ZeroStep(c: bv16)
    ensures BitStep(c, false) == 0 <==> c == 0
  {
  }

  /** Zero bits keep a zero register zero and a nonzero one nonzero. */
  lemma {:induction false} ZerosKeep(c: bv16, s: seq<bool>)
    requires AllFalse(s)
    ensures Divide(c, s) == 0 <==> c == 0
    decreases |s|
  {
    hide BitStep;
    if s != [] {
      ZeroStep(c);
      ZerosKeep(BitStep(c, s[0]), s[1..]);
    }
  }

  /** Masks of the register bits from k upwards. */
  const MASKS: seq<bv16> := [
    0xFFFF, 0xFFFE, 0xFFFC, 0xFFF8, 0xFFF0, 0xFFE0, 0xFFC0, 0xFF80,
    0xFF00, 0xFE00, 0xFC00, 0xF800, 0xF000, 0xE000, 0xC000, 0x8000, 0]

  lemma MasksShift(k: nat)
    requires k < 16
    ensures MASKS[k + 1] == MASKS[k] << 1 && MASKS[k] & 0x8000 != 0
  {
  }

  lemma StepBack(s: bv16, b: bool, m: bv16)
    requires BitStep(s, b) & m == 0 && m & 0x8000 != 0
    ensures s & (m << 1) == 0
    ensures s == 0 ==> BitStep(s, b) == 0 && !b
  {
  }

  /** Sixteen bits or fewer that leave the register at zero: the register held them, so from zero all are zero. */
  lemma {:induction false} ShortInjective(s: bv16, w: seq<bool>)
    requires |w| <= 16 && Divide(s, w) == 0
    ensures s & MASKS[|w|] == 0
    ensures s == 0 ==> AllFalse(w)
    decreases |w|
  {
    hide BitStep;
    if w == [] {
      assert MASKS[0] == 0xFFFF;
    } else {
      ShortInjective(BitStep(s, w[0]), w[1..]);
      MasksShift(|w| - 1);
      StepBack(s, w[0], MASKS[|w| - 1]);
      assert s == 0 ==> forall i :: 1 <= i < |w| ==> w[i] == w[1..][i - 1];
    }
  }

  /** Two bit strings of one length that differ, but only within 16 consecutive bits. */
  predicate Burst(a: seq<bool>, b: seq<bool>, start: nat, len: nat) {
    && |a| == |b| && start + len <= |a| && len <= 16
    && a[..start] == b[..start] && a[start + len..] == b[start + len..]
    && a != b
  }

  /** Every error burst of up to 16 bits changes the CRC, wherever it is and however long the message. */
  lemma BurstDetected(crc: bv16, a: seq<bool>, b: seq<bool>, start: nat, len: nat)
    requires Burst(a, b, start, len)
    ensures Divide(crc, a) != Divide(crc, b)
  {
    hide BitStep, Divide, Sum;
    var d := Xor(a, b);
    var pre, mid, post := d[..start], d[start..start + len], d[start + len..];
    DivideLinear(crc, crc, a, b);
    SumZero(crc, crc);
    assert d == pre + (mid + post);
    DivideAppend(0, pre, mid + post);
    DivideAppend(0, mid, post);
    EqualPartsCancel(a, b, start, len);
    ZerosKeep(0, pre);
    ZerosKeep(Divide(0, mid), post);
    if Divide(0, mid) == 0 {
      ShortInjective(0, mid);
      AllEqual(a, b, start, len);
    }
    SumZero(Divide(crc, a), Divide(crc, b));
  }

  lemma EqualPartsCancel(a: seq<bool>, b: seq<bool>, start: nat, len: nat)
    requires |a| == |b| && start + len <= |a|
    requires a[..start] == b[..start] && a[start + len..] == b[start + len..]
    ensures AllFalse(Xor(a, b)[..start]) && AllFalse(Xor(a, b)[start + len..])
  {
    forall i | 0 <= i < start
      ensures a[i] == b[i]
    {
      assert a[..start][i] == b[..start][i];
    }
    forall i | start + len <= i < |a|
      ensures a[i] == b[i]
    {
      assert a[start + len..][i - start - len] == b[start + len..][i - start - len];
    }
  }

  lemma AllEqual(a: seq<bool>, b: seq<bool>, start: nat, len: nat)
    requires |a| == |b| && start + len <= |a|
    requires a[..start] == b[..start] && a[start + len..] == b[start + len..]
    requires AllFalse(Xor(a, b)[start..start + len])
    ensures a == b
  {
    EqualPartsCancel(a, b, start, len);
    var d := Xor(a, b);
    forall i | 0 <= i < |a|
      ensures a[i] == b[i]
    {
      if i < start {
        assert !d[..start][i];
      } else if i < start + len {
        assert !d[start..start + len][i - start];
      } else {
        assert !d[start + len..][i - start - len];
      }
    }
  }

  lemma SumZero(x: bv16, y: bv16)
    ensures Sum(x, y) == 0 <==> x == y
  {
  }

  lemma {:induction false} BitsAppend(parity: bool, a: seq<byte>, b: seq<byte>)
    ensures BitsOf(parity, a + b) == BitsOf(parity, a) + BitsOf(parity, b)
    decreases |a|
  {
    hide Bits8, Octet;
    if a == [] {
      assert a + b == b;
    } else {
      assert (a + b)[1..] == a[1..] + b;
      BitsAppend(parity, a[1..], b);
    }
  }

  lemma Bits8Injective(c: bv16, d: bv16)
    requires c & 0xFF00 == 0 && d & 0xFF00 == 0 && Bits8(c) == Bits8(d)
    ensures c == d
  {
    var s, t := Bits8(c), Bits8(d);
    assert s[0] == t[0] && s[1] == t[1] && s[2] == t[2] && s[3] == t[3];
    assert s[4] == t[4] && s[5] == t[5] && s[6] == t[6] && s[7] == t[7];
  }

  lemma OctetBitsInjective(a: byte, b: byte)
    requires Bits8(Octet(a)) == Bits8(Octet(b))
    ensures a == b
  {
    hide Bits8, Octet;
    NumberOctet(a);
    NumberOctet(b);
    Bits8Injective(Octet(a), Octet(b));
  }

  lemma ConcatInjective(a: seq<bool>, s: seq<bool>, b: seq<bool>, t: seq<bool>)
    requires |a| == |b| && a + s == b + t
    ensures a == b && s == t
  {
    assert a == (a + s)[..|a|] && b == (b + t)[..|a|];
    assert s == (a + s)[|a|..] && t == (b + t)[|a|..];
  }

  /** The octets the check sees of a string. */
  function MaskAll(parity: bool, s: seq<byte>): (r: seq<byte>)
    ensures |r| == |s| && forall i :: 0 <= i < |s| ==> r[i] == Masked(parity, s[i])
  {
    seq(|s|, i requires 0 <= i < |s| => Masked(parity, s[i]))
  }

  lemma {:induction false} BitsInjective(parity: bool, a: seq<byte>, b: seq<byte>)
    requires |a| == |b| && BitsOf(parity, a) == BitsOf(parity, b)
    ensures MaskAll(parity, a) == MaskAll(parity, b)
    decreases |a|
  {
    hide Bits8, Octet, Masked;
    if a != [] {
      var x, y := Masked(parity, a[0]), Masked(parity, b[0]);
      ConcatInjective(Bits8(Octet(x)), BitsOf(parity, a[1..]), Bits8(Octet(y)), BitsOf(parity, b[1..]));
      OctetBitsInjective(x, y);
      BitsInjective(parity, a[1..], b[1..]);
      assert MaskAll(parity, a) == [x] + MaskAll(parity, a[1..]);
      assert MaskAll(parity, b) == [y] + MaskAll(parity, b[1..]);
    }
  }

  lemma BurstBetween(crc: bv16, p: seq<bool>, x: seq<bool>, y: seq<bool>, q: seq<bool>)
    requires |x| == |y| <= 16 && x != y
    ensures Divide(crc, p + x + q) != Divide(crc, p + y + q)
  {
    var m, n := p + x + q, p + y + q;
    assert m[..|p|] == p && n[..|p|] == p;
    assert m[|p| + |x|..] == q && n[|p| + |x|..] == q;
    assert m[|p|..|p| + |x|] == x && n[|p|..|p| + |x|] == y;
    BurstDetected(crc, m, n, |p|, |x|);
  }

  /** Two messages of one length that differ, but only within two adjacent octets, have different CRCs. */
  lemma AdjacentOctetsDetected(parity: bool, pre: seq<byte>, a: seq<byte>, b: seq<byte>, post: seq<byte>)
    requires |a| == |b| <= 2 && MaskAll(parity, a) != MaskAll(parity, b)
    ensures Fold(parity, 0, pre + a + post) != Fold(parity, 0, pre + b + post)
  {
    hide Divide, Fold, BitsOf;
    var p, x, y, q := BitsOf(parity, pre), BitsOf(parity, a), BitsOf(parity, b), BitsOf(parity, post);
    assert BitsOf(parity, pre + a + post) == p + x + q by {
      BitsAppend(parity, pre + a, post);
      BitsAppend(parity, pre, a);
    }
    assert BitsOf(parity, pre + b + post) == p + y + q by {
      BitsAppend(parity, pre + b, post);
      BitsAppend(parity, pre, b);
    }
    CrcIsDivision(parity, 0, pre + a + post);
    CrcIsDivision(parity, 0, pre + b + post);
    if x == y {
      BitsInjective(parity, a, b);
    }
    BurstBetween(0, p, x, y, q);
  }
}

/** Octets as bits: conversions between small numbers and a 16-bit register, bit by bit. */
module Octets {
  import opened Bytes

  function Pick(on: bool, mask: bv16): bv16 {
    if on then mask else 0
  }

  function Weigh(c: bv16, mask: bv16, weight: nat): (n: nat)
    ensures n == 0 || n == weight
  {
    if c & mask != 0 then weight else 0
  }

  /** A number below 16 as a register, and back. */
  function Nibble(n: nat): bv16
    requires n < 16
  {
    Pick(n % 2 == 1, 1) | Pick(n / 2 % 2 == 1, 2) | Pick(n / 4 % 2 == 1, 4) | Pick(n / 8 == 1, 8)
  }

  function Digit(c: bv16): (n: nat)
    ensures n < 16
  {
    Weigh(c, 1, 1) + Weigh(c, 2, 2) + Weigh(c, 4, 4) + Weigh(c, 8, 8)
  }

  /** An octet in the low half of a register. */
  function Octet(b: byte): bv16 {
    Nibble(b % 16) | (Nibble(b / 16) << 4)
  }

  /** The number in the low half of a register. */
  function Number(c: bv16): byte {
    Digit(c) + 16 * Digit(c >> 4)
  }

  lemma NibbleBits(n: nat)
    requires n < 16
    ensures Nibble(n) & 1 != 0 <==> n % 2 == 1
    ensures Nibble(n) & 2 != 0 <==> n / 2 % 2 == 1
    ensures Nibble(n) & 4 != 0 <==> n / 4 % 2 == 1
    ensures Nibble(n) & 8 != 0 <==> n / 8 == 1
    ensures Nibble(n) & 0xFFF0 == 0
  {
  }

  lemma DigitNibble(n: nat)
    requires n < 16
    ensures Digit(Nibble(n)) == n
  {
    hide Nibble;
    NibbleBits(n);
  }

  lemma DigitLow(c: bv16, d: bv16)
    requires d & 0xFFF0 == 0
    ensures Digit(d | (c << 4)) == Digit(d)
  {
    LowBits(c, d);
  }

  lemma LowBits(c: bv16, d: bv16)
    requires d & 0xFFF0 == 0
    ensures (d | (c << 4)) & 1 == d & 1 && (d | (c << 4)) & 2 == d & 2
    ensures (d | (c << 4)) & 4 == d & 4 && (d | (c << 4)) & 8 == d & 8
  {
  }

  lemma HighPart(c: bv16, d: bv16)
    requires c & 0xFFF0 == 0 && d & 0xFFF0 == 0
    ensures (d | (c << 4)) >> 4 == c && (d | (c << 4)) & 0xFF00 == 0
  {
  }

  /** An octet put into a register is read back unchanged. */
  lemma NumberOctet(b: byte)
    ensures Number(Octet(b)) == b
    ensures Octet(b) & 0xFF00 == 0
  {
    hide Nibble, Digit;
    var lo, hi := b % 16, b / 16;
    NibbleBits(lo);
    NibbleBits(hi);
    DigitLow(Nibble(hi), Nibble(lo));
    HighPart(Nibble(hi), Nibble(lo));
    DigitNibble(lo);
    DigitNibble(hi);
  }

  lemma NibbleDigit(c: bv16)
    ensures Nibble(Digit(c)) == c & 15
  {
    hide Nibble;
    var d := Nibble(Digit(c));
    NibbleBits(Digit(c));
    SameNibble(d, c);
  }

  lemma SameNibble(d: bv16, c: bv16)
    requires d & 0xFFF0 == 0
    requires (d & 1 != 0) == (c & 1 != 0) && (d & 2 != 0) == (c & 2 != 0)
    requires (d & 4 != 0) == (c & 4 != 0) && (d & 8 != 0) == (c & 8 != 0)
    ensures d == c & 15
  {
  }

  lemma SixBits(c: bv16)
    requires c & 0xFFC0 == 0
    ensures Digit(c >> 4) < 4
  {
    assert (c >> 4) & 4 == 0 && (c >> 4) & 8 == 0;
  }

  lemma NibbleAddTwo(h: nat)
    requires h < 4
    ensures Nibble(h + 2) == Nibble(h) + 2
  {
  }

  lemma Recombine(c: bv16, lo: bv16, hi: bv16)
    requires c & 0xFFC0 == 0 && lo == c & 15 && hi == (c >> 4) & 15
    ensures (lo | ((hi + 2) << 4)) - 32 == c
  {
  }

  /** A six-bit value sent as a printable character is read back unchanged. */
  lemma SixBitsAsCharacter(c: bv16)
    requires c & 0xFFC0 == 0
    ensures Number(c) < 64 && Octet(ToChar(Number(c))) - 32 == c
  {
    hide Nibble, Digit;
    SixBits(c);
    var lo, hi := Digit(c), Digit(c >> 4);
    var b := ToChar(Number(c));
    assert b % 16 == lo && b / 16 == hi + 2;
    NibbleAddTwo(hi);
    NibbleDigit(c);
    NibbleDigit(c >> 4);
    Recombine(c, Nibble(lo), Nibble(hi));
  }
}

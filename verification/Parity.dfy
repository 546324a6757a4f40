/** Parity on the line: dopar() on the way out, stripping on the way in. */
module Parity {
  import opened Bytes
  import opened Octets
  import opened Codec

  datatype Parity = NoParity | Mark | Space | Odd | Even

  /** The fold of dopar(): the exclusive-or of the low seven bits. */
  function Folded(c: bv16): bv16 {
    var a := (c & 15) ^ ((c >> 4) & 15);
    var b := (a & 3) ^ ((a >> 2) & 3);
    (b & 1) ^ ((b >> 1) & 1)
  }

  /** dopar(). */
  function DoPar(par: Parity, ch: byte): byte {
    var low := ch % 128;
    match par
    case NoParity => ch
    case Mark => low + 128
    case Space => low
    case Odd => if Folded(Octet(low)) == 0 then low + 128 else low
    case Even => if Folded(Octet(low)) == 0 then low else low + 128
  }

  /** What ttinl() keeps of a received octet. */
  function Strip(par: Parity, ch: byte): byte {
    if par.NoParity? then ch else ch % 128
  }

  /** The octets that go through the line unharmed. */
  predicate Passes(par: Parity, ch: byte) {
    par.NoParity? || ch < 128
  }

  function OnLine(par: Parity, s: seq<byte>): (r: seq<byte>)
    ensures |r| == |s|
    ensures forall i :: 0 <= i < |s| ==> r[i] == DoPar(par, s[i])
  {
    seq(|s|, i requires 0 <= i < |s| => DoPar(par, s[i]))
  }

  /** Parity added and stripped leaves a seven-bit character as it was; nothing else comes back. */
  lemma ParityRoundTrip(par: Parity, ch: byte)
    ensures Strip(par, DoPar(par, ch)) == ch <==> Passes(par, ch)
  {
    hide Folded, Octet;
  }

  /** Mark parity sets the 8th bit of every octet and space parity clears it; no parity touches the other seven. */
  lemma EighthBit(par: Parity, ch: byte)
    ensures par.Mark? ==> DoPar(par, ch) >= 128
    ensures par.Space? ==> DoPar(par, ch) < 128
    ensures par.NoParity? ==> DoPar(par, ch) == ch
    ensures DoPar(par, ch) % 128 == ch % 128
  {
    hide Folded, Octet;
  }

  lemma DoParTwice(par: Parity, ch: byte)
    ensures DoPar(par, DoPar(par, ch)) == DoPar(par, ch)
  {
    hide Folded, Octet;
    assert par.NoParity? || DoPar(par, ch) % 128 == ch % 128;
  }

  /** Adding parity to a buffer that has it already changes nothing, so resend() sends the same octets. */
  lemma ResendIsTheSame(par: Parity, s: seq<byte>)
    ensures OnLine(par, OnLine(par, s)) == OnLine(par, s)
  {
    hide DoPar;
    forall i | 0 <= i < |s|
      ensures OnLine(par, OnLine(par, s))[i] == OnLine(par, s)[i]
    {
      DoParTwice(par, s[i]);
    }
  }

  /** The number of one bits in an octet, half by half. */
  function Ones(b: byte): nat {
    OnesOfNibble(b % 16) + OnesOfNibble(b / 16)
  }

  function OnesOfNibble(n: nat): nat
    requires n < 16
  {
    n % 2 + n / 2 % 2 + n / 4 % 2 + n / 8
  }

  lemma FoldNibbles(lo: bv16, hi: bv16)
    requires lo & 0xFFF0 == 0 && hi & 0xFFF0 == 0
    ensures Folded(lo | (hi << 4)) == 0 <==>
            ((((lo & 1 != 0) != (lo & 2 != 0)) != ((lo & 4 != 0) != (lo & 8 != 0)))
             == (((hi & 1 != 0) != (hi & 2 != 0)) != ((hi & 4 != 0) != (hi & 8 != 0))))
  {
  }

  lemma OddNibble(n: nat)
    requires n < 16
    ensures OnesOfNibble(n) % 2 == 1 <==>
            (((n % 2 == 1) != (n / 2 % 2 == 1)) != ((n / 4 % 2 == 1) != (n / 8 == 1)))
  {
  }

  /** The fold says whether the number of ones is even. */
  lemma FoldIsParity(b: byte)
    ensures Folded(Octet(b)) == 0 <==> Ones(b) % 2 == 0
  {
    hide Folded, Nibble, OnesOfNibble;
    var lo, hi := b % 16, b / 16;
    NibbleBits(lo);
    NibbleBits(hi);
    FoldNibbles(Nibble(lo), Nibble(hi));
    OddNibble(lo);
    OddNibble(hi);
  }

  lemma OnesHigh(low: byte)
    requires low < 128
    ensures Ones(low + 128) == Ones(low) + 1
  {
    hide OnesOfNibble;
    assert (low + 128) % 16 == low % 16 && (low + 128) / 16 == low / 16 + 8;
    HighHalf(low / 16);
  }

  lemma HighHalf(n: nat)
    requires n < 8
    ensures OnesOfNibble(n + 8) == OnesOfNibble(n) + 1
  {
  }

  /** Even parity makes the number of ones even, odd parity odd. */
  lemma ParityIsParity(ch: byte)
    ensures Ones(DoPar(Even, ch)) % 2 == 0
    ensures Ones(DoPar(Odd, ch)) % 2 == 1
  {
    hide Ones, Folded, Octet;
    FoldIsParity(ch % 128);
    OnesHigh(ch % 128);
  }

  // ------------------------------------------- encoded data on a parity line

  predicate Printable(s: seq<byte>) {
    forall i :: 0 <= i < |s| ==> 32 <= s[i] < 127
  }

  lemma CodePrintable(p: Prefixes, a: byte)
    requires p.InRange() && p.ebqOn
    ensures Printable(Code(p, a))
  {
  }

  /** With 8th-bit prefixing on, encoded data is printable, so any parity lets it pass. */
  lemma {:induction false} EncodedIsPrintable(p: Prefixes, us: seq<Unit>)
    requires p.InRange() && p.ebqOn && Spellable(p, us)
    ensures Printable(SpellAll(p, us))
  {
    hide Code;
    if us != [] {
      assert us[0] in us;
      CodePrintable(p, us[0].ch);
      EncodedIsPrintable(p, us[1..]);
    }
  }
}

/** Octets and the character macros of gkermit.h. */
module Bytes {

  type byte = x: int | 0 <= x < 256

  const NUL: byte := 0
  const SOH: byte := 1
  const LF: byte := 10
  const CR: byte := 13
  const SP: byte := 32

  /** tochar(): a small number as a printable character. */
  function ToChar(n: nat): byte
    requires n < 224
  {
    n + 32
  }

  /** xunchar(): the number a character stands for, negative below the space. */
  function UnChar(b: byte): int {
    b - 32
  }

  /** ctl(): exclusive-or with 64. */
  function Ctl(b: byte): byte {
    if b / 64 % 2 == 1 then b - 64 else b + 64
  }

  /** `n` copies of one octet. */
  function Rep(a: byte, n: nat): (s: seq<byte>)
    ensures |s| == n
    ensures forall i :: 0 <= i < n ==> s[i] == a
  {
    seq(n, _ => a)
  }

  /** The concatenation of a list of octet strings. */
  function Join(parts: seq<seq<byte>>): seq<byte> {
    if parts == [] then [] else parts[0] + Join(parts[1..])
  }

  lemma {:induction false} JoinAppend(xs: seq<seq<byte>>, ys: seq<seq<byte>>)
    ensures Join(xs + ys) == Join(xs) + Join(ys)
  {
    if xs == [] {
      assert xs + ys == ys;
    } else {
      assert (xs + ys)[1..] == xs[1..] + ys;
      JoinAppend(xs[1..], ys);
    }
  }
}

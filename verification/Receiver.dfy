/** decode() as gkermit.c runs it: a pointer into the received packet, and the repeat count, updated in place. */
module Receiver {
  import opened Bytes
  import opened Codec

  class Decoder {
    const p: Prefixes
    const text: bool
    const rcvpkt: array<byte>
    var rdatap: nat
    var rpt: int
    const limit: nat    // the size at which writing to the output file fails
    var out: seq<byte>  // the output file
    var failure: bool

    constructor (p: Prefixes, text: bool, rcvpkt: array<byte>, limit: nat)
      ensures this.p == p && this.text == text && this.rcvpkt == rcvpkt && this.limit == limit
      ensures out == [] && !failure
    {
      this.p, this.text, this.rcvpkt, this.limit := p, text, rcvpkt, limit;
      rdatap, rpt, out, failure := 0, 0, [], false;
    }

    /** One octet off the data field. */
    method Next() returns (a: byte)
      requires rdatap < rcvpkt.Length
      modifies this`rdatap
      ensures a == rcvpkt[old(rdatap)] && rdatap == old(rdatap) + 1
    {
      a := rcvpkt[rdatap];
      rdatap := rdatap + 1;
    }

    /** The output loop: `rpt` copies, counting down, until a write fails. */
    method Write(a: byte) returns (ok: bool)
      requires |out| <= limit
      modifies this`rpt, this`out, this`failure
      ensures var n := if old(rpt) > 0 then old(rpt) else 0;
              var all := old(out) + Rep(a, n);
              if |all| <= limit then ok && out == all && rpt == old(rpt) - n && failure == old(failure)
              else !ok && out == all[..limit] && failure
    {
      var written := 0;
      while rpt > 0
        invariant written >= 0 && rpt == old(rpt) - written && (old(rpt) > 0 ==> rpt >= 0)
        invariant out == old(out) + Rep(a, written) && |out| <= limit && failure == old(failure)
        invariant old(rpt) <= 0 ==> written == 0
      {
        if |out| == limit {
          failure := true;
          return false;
        }
        out := out + [a];
        rpt := rpt - 1;
        written := written + 1;
      }
      return true;
    }

    /** The prefixes and the character at the front of what is left; false if it breaks off. */
    method Character(n: nat) returns (ok: bool, a: byte, len: nat)
      requires n > 0 && rdatap + n <= rcvpkt.Length
      modifies this`rdatap, this`rpt
      ensures var item := TakeItem(p, old(rcvpkt[rdatap..rdatap + n]));
              && ok == item.Item?
              && (ok ==> && a == item.ch && len < n && rdatap == old(rdatap) + n - len
                         && rcvpkt[rdatap..rdatap + len] == item.rest
                         && rpt == if item.prefixed then item.count else old(rpt))
    {
      ghost var d := rcvpkt[rdatap..rdatap + n];
      len := n - 1;
      a := Next();
      if p.rptOn && a == p.rptq {
        if len < 1 {
          return false, a, len;
        }
        var count := Next();
        rpt := UnChar(count);
        len := len - 1;
        if len < 1 {
          return false, a, len;
        }
        a := Next();
        len := len - 1;
        assert d[2..][0] == a && d[2..][1..] == rcvpkt[rdatap..rdatap + len];
      }
      ghost var e := if p.rptOn && d[0] == p.rptq then d[2..] else d;
      assert e[0] == a && e[1..] == rcvpkt[rdatap..rdatap + len];
      ok, a, len := Shifted(a, len, e);
    }

    /** The 8th-bit and control prefixes after a repeat count; `a` is taken already. */
    method Shifted(first: byte, n: nat, ghost e: seq<byte>) returns (ok: bool, a: byte, len: nat)
      requires rdatap + n <= rcvpkt.Length
      requires |e| == n + 1 && e[0] == first && e[1..] == rcvpkt[rdatap..rdatap + n]
      modifies this`rdatap
      ensures ok ==> len <= n && rdatap == old(rdatap) + n - len
      ensures forall prefixed, count ::
                var item := TakeShifted(p, prefixed, count, e);
                if !ok then item.Broken?
                else item == Item(prefixed, count, a, rcvpkt[rdatap..rdatap + len])
    {
      a, len := first, n;
      var b8 := 0;
      ghost var d := e;
      if p.ebqOn && a == p.ebq {
        b8 := 128;
        if len < 1 {
          return false, a, len;
        }
        a := Next();
        len := len - 1;
        d := e[1..];
      }
      assert d[0] == a && d[1..] == rcvpkt[rdatap..rdatap + len];
      if a == p.ctlq {
        if len < 1 {
          return false, a, len;
        }
        ghost var t := rcvpkt[rdatap..rdatap + len];
        a := Next();
        len := len - 1;
        assert t[0] == a && t[1..] == rcvpkt[rdatap..rdatap + len] && d[2..] == d[1..][1..];
        if 62 < a % 128 < 96 {
          a := Ctl(a);
        }
      }
      if b8 == 128 && a < 128 {
        a := a + b8;
      }
      ok := true;
    }

    /** One pass of decode()'s loop: `d` is what is left of the data field. */
    method Pass(n: nat, ghost d: seq<byte>) returns (ok: bool, len: nat)
      requires n > 0 && rdatap + n <= rcvpkt.Length && d == rcvpkt[rdatap..rdatap + n] && |out| <= limit
      modifies this`rdatap, this`rpt, this`out, this`failure
      ensures var r := Codec.Decode(p, text, d, old(rpt));
              var all := old(out) + r.out;
              if ok then
                && len < n && rdatap == old(rdatap) + n - len && |out| <= limit && failure == old(failure)
                && var rest := Codec.Decode(p, text, rcvpkt[rdatap..rdatap + len], rpt);
                   all == out + rest.out && r.ok == rest.ok
              else if |all| <= limit then out == all && !r.ok && failure == old(failure)
              else out == all[..limit] && failure
    {
      hide TakeItem, TakeShifted, Codec.Decode, Rep;
      DecodeItem(p, text, d, rpt);
      var a;
      ok, a, len := Character(n);
      if !ok {
        return;
      }
      if rpt == 0 {
        rpt := 1;
      }
      if text && a == CR {
        return;
      }
      ghost var rest := Codec.Decode(p, text, rcvpkt[rdatap..rdatap + len], if rpt > 0 then 0 else rpt).out;
      ghost var copies := Rep(a, if rpt > 0 then rpt else 0);
      ghost var was := out;
      assert was + (copies + rest) == was + copies + rest;
      ok := Write(a);
      if !ok {
        assert (was + copies + rest)[..limit] == (was + copies)[..limit];
      }
    }

    /** decode(len): 0 for success, -1 for a data field that breaks off, or a write that fails. */
    method Decode(n: nat) returns (rc: int)
      requires rdatap + n <= rcvpkt.Length && |out| <= limit
      modifies this`rdatap, this`rpt, this`out, this`failure
      ensures var r := Codec.Decode(p, text, old(rcvpkt[rdatap..rdatap + n]), 0);
              var all := old(out) + r.out;
              if |all| <= limit then out == all && rc == (if r.ok then 0 else -1) && failure == old(failure)
              else out == all[..limit] && rc == -1 && failure
    {
      hide Codec.Decode;
      rpt := 0;
      var len := n;
      ghost var whole := Codec.Decode(p, text, rcvpkt[rdatap..rdatap + n], 0);
      ghost var all := out + whole.out;
      while len > 0
        invariant rdatap + len <= rcvpkt.Length && |out| <= limit && failure == old(failure)
        invariant var rest := Codec.Decode(p, text, rcvpkt[rdatap..rdatap + len], rpt);
                  all == out + rest.out && whole.ok == rest.ok
      {
        var ok, l := Pass(len, rcvpkt[rdatap..rdatap + len]);
        if !ok {
          return -1;
        }
        len := l;
      }
      DecodeNothing(p, text, rpt);
      assert rcvpkt[rdatap..rdatap + len] == [];
      return 0;
    }
  }

  lemma DecodeNothing(p: Prefixes, text: bool, carry: int)
    ensures Codec.Decode(p, text, [], carry) == Decoded([], true)
  {
  }

  /** What decode() makes of a data field, by its first character; a dropped one and one without copies write nothing. */
  lemma DecodeItem(p: Prefixes, text: bool, d: seq<byte>, carry: int)
    requires d != []
    ensures var item, r := TakeItem(p, d), Codec.Decode(p, text, d, carry);
            if item.Broken? then r == Decoded([], false)
            else
              var n := Count(item, carry);
              if Dropped(text, item.ch) then r == Codec.Decode(p, text, item.rest, n)
              else
                var more := Codec.Decode(p, text, item.rest, if n > 0 then 0 else n);
                r == Decoded(Rep(item.ch, if n > 0 then n else 0) + more.out, more.ok)
  {
    hide TakeItem;
    assert Rep(0, 0) == [];
    var item := TakeItem(p, d);
    if item.Item? {
      assert Rep(item.ch, 0) == [];
      var more := Codec.Decode(p, text, item.rest, Count(item, carry));
      assert [] + more.out == more.out;
    }
  }
}

/** encode() and getpkt() as gkermit.c runs them: on buffers and counters changed in place. */
module Sender {
  import opened Bytes
  import opened Codec
  import opened Packets
  import opened TextMode

  predicate NoNul(s: seq<byte>) {
    forall i :: 0 <= i < |s| ==> s[i] != NUL
  }

  /** The same of a stretch of a buffer. */
  ghost predicate Clean(a: array<byte>, lo: nat, hi: nat)
    requires hi <= a.Length
    reads a
  {
    forall i :: lo <= i < hi ==> a[i] != NUL
  }

  /** Codes hold no NUL, so the buffers may be treated as strings. */
  lemma CodeNoNul(p: Prefixes, a: byte)
    requires p.InRange()
    ensures NoNul(Code(p, a))
  {
  }

  lemma EncodeNoNul(p: Prefixes, maxsiz: nat, s: Encoding, a: byte, next: int)
    requires p.InRange() && s.rpt < MAX_RUN && NoNul(s.data)
    ensures NoNul(Encode(p, maxsiz, s, a, next).data)
  {
    hide Code;
    CodeNoNul(p, a);
  }

  /** The size of remain[]: the six cells it is declared with, where they are enough for every leftover. */
  function RemainSize(p: Prefixes): (n: nat)
    ensures Cells(p) <= n <= 7
  {
    if p.rptOn && p.ebqOn then 7 else 6
  }

  class Packetizer {
    const p: Prefixes
    const text: bool
    const maxsiz: nat
    const src: InputFile
    const xdata: array<byte>
    const remain: array<byte>
    var size: nat
    var osize: nat
    var rpt: nat
    var first: int
    var c: int
    ghost var last: byte  // the octet most recently in c
    ghost var left: nat   // the length of the string in remain

    ghost predicate Valid()
      reads this, xdata, remain, src, src.zinbuf
    {
      && p.InRange()
      && xdata.Length >= maxsiz + 14 && remain.Length == RemainSize(p)
      && xdata != remain && xdata != src.zinbuf && remain != src.zinbuf
      && src.Valid()
      && -1 <= first <= 1
      && (first == 0 ==> c == last)
      && (first == -1 ==> src.Remaining(text) == [])
      && left < remain.Length && remain[left] == NUL && Clean(remain, 0, left)
    }

    /** What getpkt() has still to work on. */
    ghost function Value(): (s: Source)
      requires Valid()
      reads this, xdata, remain, src, src.zinbuf
      ensures s.Valid()
    {
      Source(if first == 1 then [] else remain[..left], last, src.Remaining(text), first)
    }

    /** The packet under construction. */
    ghost function Packet(): Encoding
      requires size <= xdata.Length
      reads this, xdata
    {
      Encoding(xdata[..size], osize, rpt)
    }

    /** sfile(): a freshly opened file, `first` set. */
    constructor (p: Prefixes, text: bool, maxsiz: nat, src: InputFile)
      requires p.InRange() && src.Valid()
      ensures Valid() && this.p == p && this.text == text && this.maxsiz == maxsiz && this.src == src
      ensures fresh(xdata) && fresh(remain)
      ensures Value() == Source([], 0, src.Remaining(text), 1)
    {
      this.p, this.text, this.maxsiz, this.src := p, text, maxsiz, src;
      xdata := new byte[maxsiz + 14](_ => 0);
      remain := new byte[RemainSize(p)](_ => 0);
      size, osize, rpt, first, c := 0, 0, 0, 1, 0;
      last, left := 0, 0;
    }

    /** One octet into the packet. */
    method Put(b: byte)
      requires size < xdata.Length
      modifies this`size, xdata
      ensures size == old(size) + 1 && xdata[..size] == old(xdata[..size]) + [b]
    {
      xdata[size] := b;
      size := size + 1;
    }

    /** The control-prefixing step of encode(), and the terminator. */
    method PutQuoted(b: byte)
      requires size + 3 <= xdata.Length
      modifies this`size, xdata
      ensures size < xdata.Length && xdata[size] == NUL
      ensures xdata[..size] == old(xdata[..size]) + Quoted(p, b)
    {
      var a, a7 := b, b % 128;
      if a7 < 32 || a7 == 127 {
        Put(p.ctlq);
        a := Ctl(a);
      } else if a7 == p.ctlq || (p.ebqOn && a7 == p.ebq) || (p.rptOn && a7 == p.rptq) {
        Put(p.ctlq);
      }
      Put(a);
      xdata[size] := NUL;
    }

    /** The end of encode(): one octet without run-length encoding. */
    method PutCode(a: byte)
      requires size + 4 <= xdata.Length
      modifies this`size, xdata
      ensures size < xdata.Length && xdata[size] == NUL
      ensures xdata[..size] == old(xdata[..size]) + Code(p, a)
    {
      hide Quoted;
      if p.ebqOn && a >= 128 {
        Put(p.ebq);
        PutQuoted(a % 128);
      } else {
        PutQuoted(a);
      }
    }

    /** The repeat prefix and a count. */
    method PutCount(n: nat)
      requires size + 2 <= xdata.Length && n <= MAX_RUN
      modifies this`size, xdata
      ensures size == old(size) + 2 && xdata[..size] == old(xdata[..size]) + [p.rptq, ToChar(n)]
    {
      Put(p.rptq);
      Put(ToChar(n));
    }

    /** encode(a, next). */
    method Encode(a: byte, next: int)
      requires rpt < MAX_RUN && size + (if rpt == 0 then 5 else 8) <= xdata.Length
      modifies this`size, this`osize, this`rpt, xdata
      ensures old(size) <= size < xdata.Length && size <= old(size) + 6
      ensures Packet() == Packets.Encode(p, maxsiz, old(Packet()), a, next)
      ensures if size > old(size) then xdata[size] == NUL else xdata[..] == old(xdata[..])
      decreases rpt
    {
      hide Code;
      ghost var before := xdata[..size];
      if p.rptOn {
        if a == next {
          rpt := rpt + 1;
          if rpt < MAX_RUN {
            return;
          } else if rpt == MAX_RUN {
            PutCount(rpt);
            rpt := 0;
          }
        } else if rpt == 1 {
          rpt := 0;
          Encode(a, -1);
          assert xdata[..size] == before + Code(p, a);
          if size <= maxsiz {
            osize := size;
          }
          rpt := 0;
          Encode(a, -1);
          assert xdata[..size] == before + Code(p, a) + Code(p, a);
          return;
        } else if rpt > 1 {
          rpt := rpt + 1;
          PutCount(rpt);
          rpt := 0;
        }
      }
      ghost var prefixed := xdata[..size];
      PutCode(a);
      assert old(rpt) == 0 || !p.rptOn ==> prefixed == before;
      if prefixed != before {
        ghost var count := [p.rptq, ToChar(old(rpt) + 1)];
        assert prefixed == before + count && xdata[..size] == before + (count + Code(p, a));
      }
    }

    /** getpkt() begins with the leftover of the packet before. */
    method CopyIn()
      requires xdata.Length >= 14 && remain.Length <= 7 && xdata != remain
      requires left < remain.Length && remain[left] == NUL && Clean(remain, 0, left)
      modifies this`size, this`left, xdata, remain
      ensures size == old(left) && xdata[..size] == old(remain[..left]) && xdata[size] == NUL
      ensures left == 0 && remain[0] == NUL
    {
      size := 0;
      xdata[0] := remain[0];
      while xdata[size] != NUL
        invariant 0 <= size <= left == old(left) && remain[..] == old(remain[..])
        invariant xdata[..size] == remain[..size] && xdata[size] == remain[size]
        decreases left - size
      {
        assert size < left;
        size := size + 1;
        xdata[size] := remain[size];
      }
      remain[0] := NUL;
      left := 0;
    }

    /** What does not fit is kept for the next packet. */
    method CopyOut()
      requires osize <= size < osize + remain.Length && size < xdata.Length && xdata != remain
      requires xdata[size] == NUL && Clean(xdata, 0, size)
      modifies this`size, this`left, xdata, remain
      ensures left < remain.Length && remain[left] == NUL && remain[..left] == old(xdata[osize..size]) && Clean(remain, 0, left)
      ensures size == osize && size < xdata.Length && xdata[..size] == old(xdata[..osize]) && xdata[size] == NUL
    {
      var i := 0;
      remain[0] := xdata[osize];
      while remain[i] != NUL
        invariant size == old(size) && 0 <= i <= size - osize && xdata[..] == old(xdata[..])
        invariant remain[..i] == xdata[osize..osize + i] && remain[i] == xdata[osize + i] && Clean(remain, 0, i)
        decreases size - osize - i
      {
        assert i < size - osize;
        i := i + 1;
        remain[i] := xdata[osize + i];
      }
      left := i;
      size := osize;
      xdata[size] := NUL;
    }

    /** Loop state of getpkt(): a terminated packet under construction, nothing left over. */
    ghost predicate Filling()
      reads this, xdata, remain, src, src.zinbuf
    {
      && Valid() && left == 0 && first != 1
      && size <= maxsiz + 6 && rpt < MAX_RUN && xdata[size] == NUL && Clean(xdata, 0, size)
    }

    /** One pass of the loop: look one octet ahead and encode the current one. */
    method Feed()
      requires Filling() && first == 0
      modifies this`first, this`c, this`last, this`size, this`osize, this`rpt, xdata, src, src.zinbuf
      ensures Valid() && size < xdata.Length && xdata[size] == NUL && Clean(xdata, 0, size)
      ensures left == 0 && rpt < MAX_RUN && old(size) <= osize <= size <= osize + 6 && size < osize + remain.Length
      ensures var ahead := old(src.Remaining(text));
              && Packet() == Packets.Encode(p, maxsiz, old(Encoding(xdata[..size], size, rpt)), old(last), NextOf(ahead))
              && (if ahead == [] then first == -1 && last == old(last)
                  else first == 0 && last == ahead[0] && src.Remaining(text) == ahead[1..])
    {
      hide Packets.Encode, Code, InputFile.Remaining;
      ghost var e := Encoding(xdata[..size], size, rpt);
      var next := src.Zgetc(text);
      if next < 0 {
        first := -1;
      }
      osize := size;
      EncodeNoNul(p, maxsiz, e, c, next);
      EncodeGrowth(p, maxsiz, e, c, next);
      Encode(c, next);
      assert NoNul(xdata[..size]);
      assert forall i :: 0 <= i < size ==> xdata[i] == xdata[..size][i];
      c := next;
      if next >= 0 {
        last := next;
      }
    }

    /** The start of getpkt(): the first lookahead of a file. False at once if the file is empty. */
    method FirstOctet() returns (ok: bool)
      requires Valid() && first == 1
      modifies this, remain, src, src.zinbuf
      ensures Valid() && left == 0
      ensures var f := old(src.Remaining(text));
              if f == [] then !ok && first == -1 && last == old(last)
              else ok && first == 0 && last == f[0] && src.Remaining(text) == f[1..]
    {
      hide InputFile.Remaining;
      first := 0;
      remain[0] := NUL;
      left := 0;
      c := src.Zgetc(text);
      if c < 0 {
        first := -1;
        size := 0;
        return false;
      }
      last := c;
      return true;
    }

    /** The loop of getpkt(): to the end of the file or of the packet. */
    method FillPacket(maxlen: nat) returns (x: int)
      requires Filling() && maxlen == maxsiz && first == 0 && rpt == 0
      modifies this, xdata, remain, src, src.zinbuf
      ensures Valid() && x == size < xdata.Length && xdata[x] == NUL
      ensures Filled(xdata[..size], Value())
           == Fill(p, maxlen, old(Encoding(xdata[..size], size, 0)), old(last), old(src.Remaining(text)))
    {
      hide Packets.Encode, Code, InputFile.Remaining, InputFile.Valid;
      ghost var goal := Fill(p, maxlen, Encoding(xdata[..size], size, 0), last, src.Remaining(text));
      while first > -1
        invariant Filling()
        invariant if first == 0 then Fill(p, maxlen, Encoding(xdata[..size], size, rpt), last, src.Remaining(text)) == goal
                  else Filled(xdata[..size], Value()) == goal
        decreases |src.Remaining(text)|, first
      {
        Feed();
        if size == maxlen {
          return size;
        }
        if size > maxlen {
          CopyOut();
          return size;
        }
      }
      return size;
    }

    /** getpkt(maxlen), called as sdata() calls it, with maxlen equal to maxsiz. */
    method GetPkt(maxlen: nat) returns (x: int)
      requires Valid() && maxlen == maxsiz
      modifies this, xdata, remain, src, src.zinbuf
      ensures Valid() && x == size < xdata.Length && (x > 0 ==> xdata[x] == NUL)
      ensures Filled(xdata[..size], Value()) == Packets.GetPkt(p, maxlen, old(Value()))
    {
      hide Fill, Code, InputFile.Remaining, InputFile.Valid;
      if first == 1 {
        var ok := FirstOctet();
        if !ok {
          size := 0;
          return size;
        }
      } else if first == -1 && remain[0] == NUL {
        size := 0;
        return size;
      }
      CopyIn();
      if first == -1 {
        return size;
      }
      rpt := 0;
      x := FillPacket(maxlen);
    }
  }

  lemma SendAllStep(p: Prefixes, maxlen: nat, s: Source)
    requires s.Valid()
    ensures var r := Packets.GetPkt(p, maxlen, s);
            SendAll(p, maxlen, s) == if r.data == [] then [] else [r.data] + SendAll(p, maxlen, r.src)
  {
  }

  /** The sdata() calls of one file: data fields until there is none. */
  method SendFile(k: Packetizer) returns (packets: seq<seq<byte>>)
    requires k.Valid()
    modifies k, k.xdata, k.remain, k.src, k.src.zinbuf
    ensures packets == SendAll(k.p, k.maxsiz, old(k.Value()))
  {
    hide Packets.GetPkt, Packetizer.Valid, Packetizer.Value, SendAll;
    ghost var all := SendAll(k.p, k.maxsiz, k.Value());
    packets := [];
    while true
      invariant k.Valid() && all == packets + SendAll(k.p, k.maxsiz, k.Value())
      decreases k.Value().Weight()
    {
      SendAllStep(k.p, k.maxsiz, k.Value());
      var x := k.GetPkt(k.maxsiz);
      if x < 1 {
        break;
      }
      ghost var d, rest := k.xdata[..k.size], SendAll(k.p, k.maxsiz, k.Value());
      assert packets + ([d] + rest) == packets + [d] + rest;
      packets := packets + [k.xdata[..k.size]];
    }
  }
}

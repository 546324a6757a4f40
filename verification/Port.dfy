/** spacket(), ttol(), ttinl() and rpacket() on the packet buffers, octet by octet. */
module Port {
  import opened Bytes
  import opened Crc
  import opened Parity
  import opened Framing

  lemma {:induction false} ChecksumSnoc(masking: bool, s: seq<byte>, b: byte)
    ensures Checksum(masking, s + [b]) == Checksum(masking, s) + Masked(masking, b)
  {
    if s == [] {
      assert [b][1..] == [];
    } else {
      assert (s + [b])[1..] == s[1..] + [b];
      ChecksumSnoc(masking, s[1..], b);
    }
  }

  lemma SliceOfPrefix(a: array<byte>, n: nat, i: nat, j: nat)
    requires i <= j <= n <= a.Length
    ensures a[i..j] == a[..n][i..j]
  {
  }

  /** chksum(). */
  method ChkSum(masking: bool, p: array<byte>, start: nat, len: nat) returns (k: nat)
    requires start + len <= p.Length
    ensures k == Checksum(masking, p[start..start + len])
  {
    k := 0;
    for i := 0 to len
      invariant k == Checksum(masking, p[start..start + i])
    {
      ChecksumSnoc(masking, p[start..start + i], p[start + i]);
      assert p[start..start + i + 1] == p[start..start + i] + [p[start + i]];
      k := k + Masked(masking, p[start + i]);
    }
  }

  /** chk1(). */
  method ChkOne(masking: bool, p: array<byte>, start: nat, len: nat) returns (c: nat)
    requires start + len <= p.Length
    ensures c == Framing.Chk1(masking, p[start..start + len])
  {
    var x := ChkSum(masking, p, start, len);
    c := (x / 64 % 4 + x) % 64;
  }

  /** sndpkt[MAXSP+16]. */
  const SNDPKT := 9016

  /** The packet and its terminating NUL have room in sndpkt. */
  predicate HasRoom(m: LineMode, len: nat) {
    m.spadn + (if Long(m, len) then 7 else 4) + len + m.bctu + 2 <= SNDPKT
  }

  class PacketPort {
    const m: LineMode
    const seol: byte
    const maxrp: nat
    const sndpkt: array<byte>
    const rcvpkt: array<byte>
    var sndpkl: nat
    var incoming: seq<byte>  // what the line delivers
    var outgoing: seq<byte>  // what has been put on the line

    ghost predicate Valid()
      reads this
    {
      && m.Valid()
      && sndpkt.Length == SNDPKT && rcvpkt.Length >= maxrp + 16
      && sndpkt != rcvpkt
      && sndpkl <= sndpkt.Length
    }

    constructor (m: LineMode, seol: byte, maxrp: nat)
      requires m.Valid()
      ensures Valid() && fresh(sndpkt) && fresh(rcvpkt)
      ensures this.m == m && this.seol == seol && this.maxrp == maxrp
    {
      this.m, this.seol, this.maxrp := m, seol, maxrp;
      sndpkt := new byte[SNDPKT](_ => 0);
      rcvpkt := new byte[maxrp + 16](_ => 0);
      sndpkl, incoming, outgoing := 0, [], [];
    }

    /** One octet behind the others in sndpkt. */
    method Put(b: byte)
      requires sndpkl < sndpkt.Length
      modifies this`sndpkl, sndpkt
      ensures sndpkl == old(sndpkl) + 1 && sndpkt[..sndpkl] == old(sndpkt[..sndpkl]) + [b]
    {
      sndpkt[sndpkl] := b;
      sndpkl := sndpkl + 1;
    }

    method PutAll(d: seq<byte>)
      requires sndpkl + |d| <= sndpkt.Length
      modifies this`sndpkl, sndpkt
      ensures sndpkl == old(sndpkl) + |d| && sndpkt[..sndpkl] == old(sndpkt[..sndpkl]) + d
    {
      for i := 0 to |d|
        invariant sndpkl == old(sndpkl) + i && sndpkt[..sndpkl] == old(sndpkt[..sndpkl]) + d[..i]
      {
        Put(d[i]);
      }
    }

    /** The header of a packet, with its own checksum in the long form. */
    method PutHeader(n: nat, kind: byte, len: nat)
      requires Valid() && n < 64 && len + m.bctu <= 9024 && sndpkl + |Header(m, n, kind, len)| <= sndpkt.Length
      modifies this`sndpkl, sndpkt
      ensures sndpkl == old(sndpkl) + |Header(m, n, kind, len)| <= sndpkt.Length
      ensures sndpkt[..sndpkl] == old(sndpkt[..sndpkl]) + Header(m, n, kind, len)
    {
      hide Framing.Chk1;
      var k, j := sndpkl, len + m.bctu;
      if len + m.bctu + 2 > 94 {
        ghost var h := [ToChar(0), ToChar(n), kind, ToChar(j / 95), ToChar(j % 95)];
        PutAll([ToChar(0), ToChar(n), kind, ToChar(j / 95), ToChar(j % 95)]);
        assert sndpkt[k..k + 5] == h by {
          assert sndpkt[k..k + 5] == sndpkt[..k + 5][k..];
        }
        var c := ChkOne(m.Masking(), sndpkt, k, 5);
        Put(ToChar(c));
      } else {
        PutAll([ToChar(j + 2), ToChar(n), kind]);
      }
    }

    /** The block check over what spacket() takes for the packet. */
    method PutCheck(k: nat, size: nat)
      requires Valid() && k + size <= sndpkl && 1 + size <= sndpkl && sndpkl + m.bctu <= sndpkt.Length
      modifies this`sndpkl, sndpkt
      ensures sndpkl == old(sndpkl) + m.bctu
      ensures sndpkt[..sndpkl]
           == old(sndpkt[..sndpkl]) + CheckField(m, if m.bctu == 1 then old(sndpkt[k..k + size]) else old(sndpkt[1..1 + size]))
    {
      hide Framing.Chk1, Fold, Group, Top, Middle, Bottom;
      if m.bctu == 1 {
        var c := ChkOne(m.Masking(), sndpkt, k, size);
        Put(ToChar(c));
      } else {
        var crc := Chk3(m.Masking(), sndpkt, 1, size);
        Put(Group(Top(crc)));
        Put(Group(Middle(crc)));
        Put(Group(Bottom(crc)));
      }
    }

    /** The packet in sndpkt up to the end of its data; `k` is where the length field is. */
    method PutBody(kind: byte, n: nat, d: seq<byte>) returns (k: nat)
      requires Valid() && n < 64 && |d| + m.bctu <= 9024 && HasRoom(m, |d|)
      modifies this`sndpkl, sndpkt
      ensures k == m.spadn + 1 && sndpkl == k + |Body(m, n, kind, d)| && sndpkl + m.bctu + 2 <= sndpkt.Length
      ensures sndpkt[..sndpkl] == Rep(m.spadc, m.spadn) + [SOH] + Body(m, n, kind, d)
    {
      hide Framing.Chk1, Header;
      sndpkl := 0;
      PutAll(Rep(m.spadc, m.spadn));
      Put(SOH);
      k := sndpkl;
      PutHeader(n, kind, |d|);
      PutAll(d);
    }

    /** spacket() without the sending: the finished sndpkt. */
    method Build(kind: byte, n: nat, d: seq<byte>)
      requires Valid() && n < 64 && |d| + m.bctu <= 9024 && HasRoom(m, |d|)
      modifies this`sndpkl, sndpkt
      ensures Valid() && sndpkt[..sndpkl] == Packed(m, seol, n, kind, d)
      ensures sndpkl < sndpkt.Length && sndpkt[sndpkl] == NUL
    {
      hide CheckField, Body;
      var k := PutBody(kind, n, d);
      ghost var body := Body(m, n, kind, d);
      ghost var buffer := sndpkt[..sndpkl];
      var size := sndpkl - k;
      assert size == |body| && buffer[k..] == body;
      SliceOfPrefix(sndpkt, sndpkl, k, k + size);
      SliceOfPrefix(sndpkt, sndpkl, 1, 1 + size);
      PutCheck(k, size);
      assert sndpkt[..sndpkl] == buffer + CheckField(m, Covered(m, body));
      Put(seol);
      sndpkt[sndpkl] := NUL;
      PackedParts(n, kind, d);
    }

    lemma PackedParts(n: nat, kind: byte, d: seq<byte>)
      requires m.Valid() && n < 64 && |d| + m.bctu <= 9024
      ensures var body := Body(m, n, kind, d);
              Packed(m, seol, n, kind, d)
              == Rep(m.spadc, m.spadn) + [SOH] + body + CheckField(m, Covered(m, body)) + [seol]
    {
      hide CheckField, Body, Covered;
    }

    /** spacket(): frames a packet and sends it. */
    method SPacket(kind: byte, n: nat, d: seq<byte>)
      requires Valid() && n < 64 && |d| + m.bctu <= 9024 && HasRoom(m, |d|)
      modifies this`sndpkl, this`outgoing, sndpkt
      ensures Valid()
      ensures sndpkt[..sndpkl] == OnLine(m.par, Packed(m, seol, n, kind, d))
      ensures outgoing == old(outgoing) + OnLine(m.par, Packed(m, seol, n, kind, d))
    {
      hide Packed, DoPar;
      Build(kind, n, d);
      Ttol();
    }

    /** ttol(): adds parity in the buffer itself and sends it. */
    method Ttol()
      requires Valid()
      modifies this`outgoing, sndpkt
      ensures sndpkt[..sndpkl] == OnLine(m.par, old(sndpkt[..sndpkl]))
      ensures outgoing == old(outgoing) + OnLine(m.par, old(sndpkt[..sndpkl]))
      ensures |outgoing| == |old(outgoing)| + sndpkl
      ensures m.par.Mark? ==> forall i :: |old(outgoing)| <= i < |outgoing| ==> outgoing[i] >= 128
      ensures m.par.Space? ==> forall i :: |old(outgoing)| <= i < |outgoing| ==> outgoing[i] < 128
      ensures forall i :: 0 <= i < sndpkl ==> outgoing[|old(outgoing)| + i] % 128 == old(sndpkt[i]) % 128
    {
      hide DoPar;
      if !m.par.NoParity? {
        for i := 0 to sndpkl
          invariant outgoing == old(outgoing)
          invariant forall k :: 0 <= k < i ==> sndpkt[k] == DoPar(m.par, old(sndpkt[k]))
          invariant forall k :: i <= k < sndpkl ==> sndpkt[k] == old(sndpkt[k])
        {
          sndpkt[i] := DoPar(m.par, sndpkt[i]);
        }
      } else {
        NoParityIsIdentity(sndpkt[..sndpkl]);
      }
      assert sndpkt[..sndpkl] == OnLine(m.par, old(sndpkt[..sndpkl]));
      forall i | 0 <= i < sndpkl
        ensures m.par.Mark? ==> sndpkt[i] >= 128
        ensures m.par.Space? ==> sndpkt[i] < 128
        ensures sndpkt[i] % 128 == old(sndpkt[i]) % 128
      {
        EighthBit(m.par, old(sndpkt[i]));
      }
      outgoing := outgoing + sndpkt[..sndpkl];
    }

    /** resend(): ttol() again on the buffer, parity and all. */
    method Resend()
      requires Valid()
      modifies this`outgoing, sndpkt
      ensures (exists s :: old(sndpkt[..sndpkl]) == OnLine(m.par, s)) ==>
              sndpkt[..sndpkl] == old(sndpkt[..sndpkl]) && outgoing == old(outgoing) + old(sndpkt[..sndpkl])
    {
      ghost var before := sndpkt[..sndpkl];
      Ttol();
      if s :| before == OnLine(m.par, s) {
        ResendIsTheSame(m.par, s);
      }
    }

    /** The length arithmetic of ttinl(), as its variables hold it after `n` octets. */
    ghost predicate Measured(n: nat, havelen: bool, pktlen: int, lplen: int)
      requires n <= rcvpkt.Length
      reads rcvpkt
    {
      && (n < 2 ==> !havelen)
      && (n >= 2 ==>
          var l := UnChar(rcvpkt[1] % 128);
          && (l != 0 ==> havelen == (l > 1) && pktlen == l)
          && (l == 0 ==> havelen == (n >= 6))
          && (l == 0 && n < 6 ==> pktlen == 0)
          && (l == 0 && n == 5 ==> lplen == UnChar(rcvpkt[4] % 128))
          && (l == 0 && n >= 6 ==> pktlen == UnChar(rcvpkt[4] % 128) * 95 + UnChar(rcvpkt[5] % 128) + 5))
    }

    lemma MeasuredIsComplete(n: nat, havelen: bool, pktlen: int, lplen: int)
      requires n <= rcvpkt.Length && Measured(n, havelen, pktlen, lplen)
      ensures Complete(rcvpkt[..n]) <==> havelen && n > pktlen + 1
    {
      if n >= 2 {
        assert rcvpkt[..n][1] == rcvpkt[1];
      }
      if n >= 6 {
        assert rcvpkt[..n][4] == rcvpkt[4] && rcvpkt[..n][5] == rcvpkt[5];
      }
    }

    /** The `!havelen` block of ttinl(), after the octet at n - 1 is stored. */
    method Measure(n: nat, havelen: bool, pktlen: int, lplen: int) returns (have: bool, len: int, high: int)
      requires 1 <= n <= rcvpkt.Length && Measured(n - 1, havelen, pktlen, lplen)
      ensures Measured(n, have, len, high)
    {
      have, len, high := havelen, pktlen, lplen;
      if !have {
        if n == 2 {
          len := UnChar(rcvpkt[1] % 128);
          if len > 1 {
            have := true;
          }
        } else if n == 5 && len == 0 {
          high := UnChar(rcvpkt[4] % 128);
        } else if n == 6 && len == 0 {
          len := high * 95 + UnChar(rcvpkt[5] % 128) + 5;
          have := true;
        }
      }
    }

    /** ttinl(): -1 when the line falls silent, -2 for too long a packet, -9 for three ^C. */
    method TtInl() returns (rc: int)
      requires Valid()
      modifies this`incoming, rcvpkt
      ensures match Framing.TtInl(m.par, maxrp, 0, old(incoming))
              case Got(pkt, rest) => 0 <= rc == |pkt| <= maxrp && rcvpkt[..rc] == pkt && incoming == rest
                                   && rcvpkt[rc] == NUL
              case Starved => rc == -1
              case Overflow => rc == -2
              case Interrupted => rc == -9
    {
      hide Complete, Strip;
      ghost var goal := Framing.TtInl(m.par, maxrp, 0, incoming);
      var n, flag, ccn := 0, false, 0;
      var havelen, pktlen, lplen := false, 0, 0;
      while incoming != []
        invariant 0 <= n <= maxrp && 0 <= ccn <= 2 && (!flag ==> n == 0)
        invariant Measured(n, havelen, pktlen, lplen)
        invariant goal == if flag then Collect(m.par, maxrp, rcvpkt[..n], ccn, incoming)
                          else Framing.TtInl(m.par, maxrp, ccn, incoming)
        decreases |incoming|
      {
        ghost var dest := rcvpkt[..n];
        var c := Strip(m.par, incoming[0]);
        incoming := incoming[1..];
        if c == ETX {
          ccn := ccn + 1;
          if ccn > 2 {
            return -9;
          }
        } else {
          ccn := 0;
        }
        if !flag && c != SOH {
          continue;
        }
        flag := true;
        if n >= maxrp {
          return -2;
        }
        rcvpkt[n] := c;
        n := n + 1;
        assert rcvpkt[..n] == dest + [c];
        havelen, pktlen, lplen := Measure(n, havelen, pktlen, lplen);
        MeasuredIsComplete(n, havelen, pktlen, lplen);
        if havelen && n > pktlen + 1 {
          rcvpkt[n] := NUL;
          assert rcvpkt[..n] == dest + [c];
          return n;
        }
      }
      return -1;
    }

    /** The data of a packet stands in the buffer as a string. */
    ghost predicate HoldsData(data: seq<byte>)
      reads this, rcvpkt
    {
      exists i: nat :: HoldsAt(i, data)
    }

    ghost predicate HoldsAt(i: nat, data: seq<byte>)
      reads this, rcvpkt
    {
      i + |data| < rcvpkt.Length && rcvpkt[i..i + |data|] == data && rcvpkt[i + |data|] == NUL
    }

    /** The end of rpacket(): finds, copies and compares the block check; the data is cut off with a NUL. */
    method CheckBlock(i: nat, rln: int) returns (r: Received)
      requires Valid() && 4 <= i
      modifies rcvpkt
      ensures r == Checked(m, old(rcvpkt[..]), i, rln)
      ensures r.Good? ==> HoldsData(r.data)
    {
      hide Framing.Chk1, Fold, CrcField;
      var rsn, kind, j := UnChar(rcvpkt[2]), rcvpkt[3], rln + i;
      if !(1 <= j && j + m.bctu <= rcvpkt.Length) {
        return Bad;
      }
      ghost var buf := rcvpkt[..];
      var data := if rln >= 0 then rcvpkt[i..j] else [];
      var pbc := rcvpkt[j..j + m.bctu];
      rcvpkt[j] := NUL;
      assert rcvpkt[1..1 + (j - 1)] == buf[1..j];
      assert pbc == buf[j..j + m.bctu];
      if m.bctu == 1 {
        var c2 := ChkOne(m.Masking(), rcvpkt, 1, j - 1);
        if UnChar(pbc[0]) != c2 {
          return Bad;
        }
      } else {
        var c2 := Chk3(m.Masking(), rcvpkt, 1, j - 1);
        if CrcField(pbc[0], pbc[1], pbc[2]) != c2 {
          return Bad;
        }
      }
      assert HoldsAt(if rln >= 0 then i else j, data);
      return Good(kind, rsn, data);
    }

    /** rpacket() on a packet ttinl() has put into rcvpkt. */
    method Examine(n: nat) returns (r: Received)
      requires Valid() && n <= rcvpkt.Length
      modifies rcvpkt
      ensures r == Parse(m, old(rcvpkt[..]), n)
      ensures r.Good? ==> HoldsData(r.data)
    {
      hide Framing.Chk1, Checked;
      if n < 5 {
        return Bad;
      }
      var j := UnChar(rcvpkt[1]);
      if j == 0 {
        if 6 > n {
          return Bad;
        }
        var x := rcvpkt[6];
        ghost var buf := rcvpkt[..];
        rcvpkt[6] := NUL;
        assert rcvpkt[1..6] == buf[1..6];
        var c := ChkOne(m.Masking(), rcvpkt, 1, 5);
        if UnChar(x) != c {
          return Bad;
        }
        rcvpkt[6] := x;
        assert rcvpkt[..] == buf;
        r := CheckBlock(7, UnChar(rcvpkt[4]) * 95 + UnChar(rcvpkt[5]) - m.bctu);
      } else if j < 3 {
        return Bad;
      } else {
        r := CheckBlock(4, j - m.bctu - 2);
      }
    }

    /** rpacket(): reads and examines one packet. A negative `rc` means none was read. */
    method RPacket() returns (rc: int, r: Received)
      requires Valid()
      modifies this`incoming, rcvpkt
      ensures match Framing.TtInl(m.par, maxrp, 0, old(incoming))
              case Got(pkt, rest) =>
                rc == |pkt| && incoming == rest &&
                exists buf :: |pkt| <= |buf| == rcvpkt.Length && buf[..|pkt|] == pkt && r == Parse(m, buf, |pkt|)
              case _ => rc < 0
      ensures rc >= 0 && r.Good? ==> HoldsData(r.data)
    {
      rc := TtInl();
      if rc < 0 {
        return rc, Bad;
      }
      ghost var buf := rcvpkt[..];
      r := Examine(rc);
    }
  }

  lemma NoParityIsIdentity(s: seq<byte>)
    ensures OnLine(NoParity, s) == s
  {
  }
}

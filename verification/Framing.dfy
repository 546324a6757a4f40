/**
 * Packets on the wire: the frame spacket() builds, the length-driven reader
 * ttinl(), and the checks of rpacket(), with block check types 1 and 3.
 */
module Framing {
  import opened Bytes
  import opened Octets
  import opened Crc
  import opened Parity

  const ETX: byte := 3

  /** The block check in use (bctu), the parity setting, and the padding the peer asked for (spadn, spadc). */
  datatype LineMode = LineMode(bctu: nat, par: Parity, spadn: nat, spadc: byte) {
    predicate Valid() {
      bctu == 1 || bctu == 3
    }
    predicate Masking() {
      !par.NoParity?
    }
  }

  // -------------------------------------------------------------- block checks

  /** chksum(). */
  function Checksum(masking: bool, s: seq<byte>): nat {
    if s == [] then 0 else Masked(masking, s[0]) + Checksum(masking, s[1..])
  }

  /** chk1(): the sum folded to six bits. */
  function Chk1(masking: bool, s: seq<byte>): (c: nat)
    ensures c < 64
  {
    var x := Checksum(masking, s);
    (x / 64 % 4 + x) % 64
  }

  function Crc16(masking: bool, s: seq<byte>): bv16 {
    Fold(masking, 0, s)
  }

  /** A six-bit group of a CRC as a printable character. */
  function Group(c: bv16): byte {
    (Number(c) + 32) % 256
  }

  /** xunchar() of a check character, in the width of the CRC. */
  function Ungroup(b: byte): bv16 {
    Octet(b) - 32
  }

  /** The groups of 4, 6 and 6 bits that are sent. */
  function Top(crc: bv16): bv16 {
    (crc >> 12) & 15
  }

  function Middle(crc: bv16): bv16 {
    (crc >> 6) & 63
  }

  function Bottom(crc: bv16): bv16 {
    crc & 63
  }

  /** The characters of a block check over `s`. */
  function CheckField(m: LineMode, s: seq<byte>): (r: seq<byte>)
    requires m.Valid()
    ensures |r| == m.bctu
  {
    if m.bctu == 1 then [ToChar(Chk1(m.Masking(), s))]
    else
      var crc := Crc16(m.Masking(), s);
      [Group(Top(crc)), Group(Middle(crc)), Group(Bottom(crc))]
  }

  /** The value three received characters stand for, in 16 bits. */
  function CrcField(a: byte, b: byte, c: byte): bv16 {
    (Ungroup(a) << 12) | (Ungroup(b) << 6) | Ungroup(c)
  }

  /** Whether received check characters match the text they cover. */
  predicate CheckMatches(m: LineMode, s: seq<byte>, check: seq<byte>)
    requires m.Valid() && |check| == m.bctu
  {
    if m.bctu == 1 then UnChar(check[0]) == Chk1(m.Masking(), s)
    else CrcField(check[0], check[1], check[2]) == Crc16(m.Masking(), s)
  }

  lemma GroupBack(c: bv16)
    requires c & 0xFFC0 == 0
    ensures 32 <= Group(c) < 96 && Ungroup(Group(c)) == c
  {
    hide Octet, Number;
    SixBitsAsCharacter(c);
  }

  lemma GroupsFit(crc: bv16)
    ensures Top(crc) & 0xFFC0 == 0 && Middle(crc) & 0xFFC0 == 0 && Bottom(crc) & 0xFFC0 == 0
  {
  }

  lemma GroupsRejoin(crc: bv16)
    ensures (Top(crc) << 12) | (Middle(crc) << 6) | Bottom(crc) == crc
  {
  }

  /** The three characters of a CRC stand for it. */
  lemma CrcFieldBack(crc: bv16)
    ensures CrcField(Group(Top(crc)), Group(Middle(crc)), Group(Bottom(crc))) == crc
    ensures Printable([Group(Top(crc)), Group(Middle(crc)), Group(Bottom(crc))])
  {
    hide Group, Ungroup, Top, Middle, Bottom;
    GroupsFit(crc);
    GroupBack(Top(crc));
    GroupBack(Middle(crc));
    GroupBack(Bottom(crc));
    GroupsRejoin(crc);
  }

  /** A check field is printable and matches exactly its own check value. */
  lemma CheckFieldMatches(m: LineMode, s: seq<byte>, t: seq<byte>)
    requires m.Valid()
    ensures Printable(CheckField(m, s))
    ensures CheckMatches(m, t, CheckField(m, s)) <==>
            if m.bctu == 1 then Chk1(m.Masking(), t) == Chk1(m.Masking(), s)
            else Crc16(m.Masking(), t) == Crc16(m.Masking(), s)
  {
    hide Group, Crc16, Chk1, CrcField, Top, Middle, Bottom;
    if m.bctu == 3 {
      CrcFieldBack(Crc16(m.Masking(), s));
    }
  }

  /** b is a with one bit changed; `w` is the weight of that bit. */
  predicate Flipped(a: byte, b: byte, w: nat) {
    && w in {1, 2, 4, 8, 16, 32, 64, 128}
    && b == if a / w % 2 == 0 then a + w else a - w
  }

  lemma {:induction false} ChecksumJoins(masking: bool, s: seq<byte>, t: seq<byte>)
    ensures Checksum(masking, s + t) == Checksum(masking, s) + Checksum(masking, t)
  {
    if s == [] {
      assert s + t == t;
    } else {
      assert (s + t)[1..] == s[1..] + t;
      ChecksumJoins(masking, s[1..], t);
    }
  }

  lemma FoldedSum(x: nat, d: nat)
    requires d in {1, 2, 4, 8, 16, 32, 64, 128}
    ensures (x / 64 % 4 + x) % 64 != ((x + d) / 64 % 4 + x + d) % 64
  {
  }

  lemma FlippedMasked(masking: bool, a: byte, b: byte, w: nat)
    requires Flipped(a, b, w) && (masking ==> w < 128)
    ensures Masked(masking, b) == Masked(masking, a) + w || Masked(masking, a) == Masked(masking, b) + w
  {
  }

  /** Check type 1 sees every change of one bit, the two highest included, in a text of any length. */
  lemma OneBitShows(masking: bool, pre: seq<byte>, a: byte, b: byte, post: seq<byte>, w: nat)
    requires Flipped(a, b, w) && (masking ==> w < 128)
    ensures Chk1(masking, pre + [a] + post) != Chk1(masking, pre + [b] + post)
  {
    hide Flipped, Masked;
    ChecksumJoins(masking, pre + [a], post);
    ChecksumJoins(masking, pre, [a]);
    ChecksumJoins(masking, pre + [b], post);
    ChecksumJoins(masking, pre, [b]);
    FlippedMasked(masking, a, b, w);
    var x, y := Checksum(masking, pre + [a] + post), Checksum(masking, pre + [b] + post);
    assert Checksum(masking, [a]) == Masked(masking, a) && Checksum(masking, [b]) == Masked(masking, b);
    assert w in {1, 2, 4, 8, 16, 32, 64, 128} by {
      WeightOfBit(a, b, w);
    }
    FoldedSum(if x < y then x else y, w);
  }

  lemma WeightOfBit(a: byte, b: byte, w: nat)
    requires Flipped(a, b, w)
    ensures w in {1, 2, 4, 8, 16, 32, 64, 128}
  {
  }

  // ------------------------------------------------------------------ sending

  /** Whether spacket() needs the long form. */
  predicate Long(m: LineMode, len: nat) {
    len + m.bctu + 2 > 94
  }

  /** From the length field up to the data. */
  function Header(m: LineMode, n: nat, kind: byte, len: nat): (h: seq<byte>)
    requires m.Valid() && n < 64 && len + m.bctu <= 9024
    ensures |h| == if Long(m, len) then 6 else 3
  {
    var j := len + m.bctu;
    if Long(m, len) then
      var h := [ToChar(0), ToChar(n), kind, ToChar(j / 95), ToChar(j % 95)];
      h + [ToChar(Chk1(m.Masking(), h))]
    else [ToChar(j + 2), ToChar(n), kind]
  }

  /** What the block check should cover: everything from the length field to the end of the data. */
  function Body(m: LineMode, n: nat, kind: byte, data: seq<byte>): seq<byte>
    requires m.Valid() && n < 64 && |data| + m.bctu <= 9024
  {
    Header(m, n, kind, |data|) + data
  }

  /**
   * What it does cover: type 1 starts at the length field, but type 3 starts one
   * octet into the buffer, which is the length field only without padding.
   */
  function Covered(m: LineMode, body: seq<byte>): seq<byte> {
    if m.bctu == 1 then body
    else
      var buffer := Rep(m.spadc, m.spadn) + [SOH] + body;
      buffer[1..1 + |body|]
  }

  /** spacket(): the frame up to, and without, the end-of-line character. */
  function Frame(m: LineMode, n: nat, kind: byte, data: seq<byte>): seq<byte>
    requires m.Valid() && n < 64 && |data| + m.bctu <= 9024
  {
    var body := Body(m, n, kind, data);
    [SOH] + body + CheckField(m, Covered(m, body))
  }

  /** The whole of sndpkt: padding, frame, end of line. */
  function Packed(m: LineMode, seol: byte, n: nat, kind: byte, data: seq<byte>): seq<byte>
    requires m.Valid() && n < 64 && |data| + m.bctu <= 9024
  {
    Rep(m.spadc, m.spadn) + Frame(m, n, kind, data) + [seol]
  }

  /** The places of everything in a packet, in octets as they are sent. */
  lemma FrameLayout(m: LineMode, n: nat, kind: byte, data: seq<byte>)
    requires m.Valid() && n < 64 && |data| + m.bctu <= 9024
    ensures var f, len := Frame(m, n, kind, data), |data| + m.bctu;
            && |f| >= 5 && f[0] == 1 && f[2] == 32 + n && f[3] == kind
            && (len + 2 <= 94 ==> |f| == 4 + len && f[1] == 32 + len + 2 && f[4..4 + |data|] == data)
            && (len + 2 > 94 ==>
                && |f| == 7 + len && f[1] == 32 && f[7..7 + |data|] == data
                && 32 <= f[5] < 127 && UnChar(f[4]) * 95 + UnChar(f[5]) == len
                && f[6] == 32 + Chk1(m.Masking(), f[1..6]))
            && f[|f| - m.bctu..] == CheckField(m, Covered(m, f[1..|f| - m.bctu]))
  {
    hide Chk1, CheckField, Covered;
    var f, j, body := Frame(m, n, kind, data), |data| + m.bctu, Body(m, n, kind, data);
    assert f[1..|f| - m.bctu] == body;
    if Long(m, |data|) {
      var h := [ToChar(0), ToChar(n), kind, ToChar(j / 95), ToChar(j % 95)];
      var header := Header(m, n, kind, |data|);
      assert header == h + [ToChar(Chk1(m.Masking(), h))];
      assert f[1..7] == header && f[1..6] == h && f[6] == header[5];
    }
  }

  /** The acknowledgement of packet 0 without parity, with one block check and with the other. */
  lemma FirstAckShort(m: LineMode)
    requires m.bctu == 1 && m.par == NoParity
    ensures Frame(m, 0, 89, []) == [1, 35, 32, 89, 62]
  {
    var body := [35, 32, 89];
    assert Body(m, 0, 89, []) == body;
    assert body[1..] == [32, 89] && [32, 89][1..] == [89] && [89][1..] == [];
    assert Checksum(false, body) == 156;
  }

  lemma FirstAckCrc(m: LineMode)
    requires m.bctu == 3 && m.par == NoParity && m.spadn == 0
    ensures Frame(m, 0, 89, []) == [1, 37, 32, 89, 45, 59, 81]
  {
    hide Group, Top, Middle, Bottom, Fold;
    var body := [37, 32, 89];
    assert Body(m, 0, 89, []) == body;
    CoveredIsBody(m, body);
    CrcOfFirstAck();
    GroupsOfFirstAck();
  }

  lemma CrcOfFirstAck()
    ensures Crc16(false, [37, 32, 89]) == 0xD6F1
  {
    hide ByteStep;
    var a, b, c: seq<byte> := [37, 32, 89], [32, 89], [89];
    assert a[1..] == b && b[1..] == c && c[1..] == [];
    assert Octet(37) == 37 && Octet(32) == 32 && Octet(89) == 89;
    StepsOfFirstAck();
  }

  lemma StepsOfFirstAck()
    ensures ByteStep(ByteStep(ByteStep(0, 37), 32), 89) == 0xD6F1
  {
  }

  lemma GroupsOfFirstAck()
    ensures Group(Top(0xD6F1)) == 45 && Group(Middle(0xD6F1)) == 59 && Group(Bottom(0xD6F1)) == 81
  {
  }

  // ------------------------------------------------------------------ reading

  /** ttinl()'s length arithmetic: whether what is collected reaches the length the header announces. */
  predicate Complete(dest: seq<byte>) {
    |dest| >= 2 &&
    var pktlen := UnChar(dest[1] % 128);
    if pktlen > 1 then |dest| > pktlen + 1
    else pktlen == 0 && |dest| >= 6 && |dest| > UnChar(dest[4] % 128) * 95 + UnChar(dest[5] % 128) + 5 + 1
  }

  /** What ttinl() comes back with. */
  datatype Line = Got(pkt: seq<byte>, rest: seq<byte>) | Starved | Overflow | Interrupted

  /** ttinl() once it has seen the start of a packet; `ccn` counts ^C characters in a row. */
  function Collect(par: Parity, max: nat, dest: seq<byte>, ccn: nat, s: seq<byte>): Line
    decreases |s|
  {
    if s == [] then Starved
    else
      var c := Strip(par, s[0]);
      var ccn' := if c == ETX then ccn + 1 else 0;
      if ccn' > 2 then Interrupted
      else if |dest| >= max then Overflow
      else
        var dest' := dest + [c];
        if Complete(dest') then Got(dest', s[1..]) else Collect(par, max, dest', ccn', s[1..])
  }

  /** ttinl(): skips to the start of a packet, then collects it. */
  function TtInl(par: Parity, max: nat, ccn: nat, s: seq<byte>): Line
    decreases |s|
  {
    if s == [] then Starved
    else
      var c := Strip(par, s[0]);
      if c == SOH then Collect(par, max, [], ccn, s)
      else
        var ccn' := if c == ETX then ccn + 1 else 0;
        if ccn' > 2 then Interrupted else TtInl(par, max, ccn', s[1..])
  }

  /** What rpacket() makes of a packet: type and contents, or 'Q'. */
  datatype Received = Bad | Good(kind: byte, number: int, data: seq<byte>)

  /** rpacket() on the receive buffer, of which ttinl() filled the first `n` octets. */
  function Parse(m: LineMode, buf: seq<byte>, n: nat): Received
    requires m.Valid() && n <= |buf|
  {
    if n < 5 then Bad
    else
      var j := UnChar(buf[1]);
      if j == 0 then
        if 6 > n || |buf| <= 6 then Bad
        else if UnChar(buf[6]) != Chk1(m.Masking(), buf[1..6]) then Bad
        else Checked(m, buf, 7, UnChar(buf[4]) * 95 + UnChar(buf[5]) - m.bctu)
      else if j < 3 then Bad
      else Checked(m, buf, 4, j - m.bctu - 2)
  }

  /** The end of rpacket(): `rln` octets of data from `i`, and then the block check. */
  function Checked(m: LineMode, buf: seq<byte>, i: nat, rln: int): Received
    requires m.Valid() && 4 <= i && 4 <= |buf|
  {
    var j := i + rln;
    if !(1 <= j && j + m.bctu <= |buf|) then Bad  // outside the buffer
    else if !CheckMatches(m, buf[1..j], buf[j..j + m.bctu]) then Bad
    else Good(buf[3], UnChar(buf[2]), if rln >= 0 then buf[i..j] else [])
  }

  // --------------------------------------------------------------- round trip

  /** What a frame may hold if the reader is to see it whole: seven bits under parity, and no ^C. */
  predicate Carried(par: Parity, s: seq<byte>) {
    forall i :: 0 <= i < |s| ==> Passes(par, s[i]) && s[i] != ETX
  }

  /** What the reader takes in without being interrupted: it may hold ^C, but not three in a row. */
  predicate Readable(par: Parity, s: seq<byte>) {
    && (forall i :: 0 <= i < |s| ==> Passes(par, s[i]))
    && (forall i :: 2 <= i < |s| && s[i] == ETX ==> !(s[i - 1] == ETX && s[i - 2] == ETX))
  }

  lemma PrintableCarried(par: Parity, s: seq<byte>)
    requires Printable(s)
    ensures Carried(par, s)
  {
  }

  /** Junk before a packet: neither the start character nor ^C. */
  predicate Junk(par: Parity, s: seq<byte>) {
    forall i :: 0 <= i < |s| ==> Strip(par, s[i]) != SOH && Strip(par, s[i]) != ETX
  }

  lemma {:induction false} JunkIsSkipped(par: Parity, max: nat, ccn: nat, junk: seq<byte>, s: seq<byte>)
    requires Junk(par, junk) && ccn <= 2 && s != [] && Strip(par, s[0]) == SOH
    ensures TtInl(par, max, ccn, junk + s) == Collect(par, max, [], 0, s)
    decreases |junk|
  {
    if junk == [] {
      assert junk + s == s;
    } else {
      assert (junk + s)[1..] == junk[1..] + s;
      JunkIsSkipped(par, max, 0, junk[1..], s);
    }
  }

  /** The ^C counter after part of a packet: it counts the ones the part ends with. */
  predicate EndsInEtx(s: seq<byte>, ccn: nat) {
    && (ccn >= 1 ==> |s| >= 1 && s[|s| - 1] == ETX)
    && (ccn >= 2 ==> |s| >= 2 && s[|s| - 2] == ETX)
    && ccn <= 2
  }

  /** The reader takes in a frame octet by octet, to its end if that is where it is complete. */
  lemma {:induction false} CollectsAll(par: Parity, max: nat, ccn: nat, frame: seq<byte>, k: nat, rest: seq<byte>)
    requires k < |frame| <= max && Readable(par, frame) && EndsInEtx(frame[..k], ccn)
    requires Complete(frame) && forall i :: k < i < |frame| ==> !Complete(frame[..i])
    ensures Collect(par, max, frame[..k], ccn, OnLine(par, frame[k..]) + rest) == Got(frame, rest)
    decreases |frame| - k
  {
    hide Complete, DoPar;
    var s := OnLine(par, frame[k..]) + rest;
    ParityRoundTrip(par, frame[k]);
    assert s[0] == DoPar(par, frame[k]);
    assert s[1..] == OnLine(par, frame[k + 1..]) + rest;
    assert frame[..k] + [frame[k]] == frame[..k + 1];
    var ccn' := if frame[k] == ETX then ccn + 1 else 0;
    assert EndsInEtx(frame[..k + 1], ccn');
    if k + 1 < |frame| {
      assert !Complete(frame[..k + 1]);
      CollectsAll(par, max, ccn', frame, k + 1, rest);
    } else {
      assert frame[..k + 1] == frame;
      assert OnLine(par, frame[k + 1..]) + rest == rest;
    }
  }

  /** A packet longer than the buffer allows is given up, whatever comes behind. */
  lemma {:induction false} TooLongOverflows(par: Parity, max: nat, ccn: nat, frame: seq<byte>, k: nat, rest: seq<byte>)
    requires k <= max < |frame| && Readable(par, frame) && EndsInEtx(frame[..k], ccn)
    requires forall i :: k < i <= max ==> !Complete(frame[..i])
    ensures Collect(par, max, frame[..k], ccn, OnLine(par, frame[k..]) + rest) == Overflow
    decreases max - k
  {
    hide Complete, DoPar;
    var s := OnLine(par, frame[k..]) + rest;
    ParityRoundTrip(par, frame[k]);
    assert s[0] == DoPar(par, frame[k]);
    assert s[1..] == OnLine(par, frame[k + 1..]) + rest;
    assert frame[..k] + [frame[k]] == frame[..k + 1];
    var ccn' := if frame[k] == ETX then ccn + 1 else 0;
    assert EndsInEtx(frame[..k + 1], ccn');
    if k < max {
      TooLongOverflows(par, max, ccn', frame, k + 1, rest);
    }
  }

  /** n times ^C from place i on. */
  predicate EtxAt(par: Parity, s: seq<byte>, i: nat, n: nat) {
    i + n <= |s| && forall k :: i <= k < i + n ==> Strip(par, s[k]) == 3
  }

  /** As long as no packet starts, the reader is interrupted exactly by three ^C in a row; `ccn` have been seen before. */
  lemma {:induction false} ThreeInterrupt(par: Parity, max: nat, ccn: nat, s: seq<byte>)
    requires ccn <= 2 && forall i :: 0 <= i < |s| ==> Strip(par, s[i]) != 1
    ensures TtInl(par, max, ccn, s) == (if EtxAt(par, s, 0, 3 - ccn) || exists i :: EtxAt(par, s, i, 3) then Interrupted else Starved)
    decreases |s|
  {
    if s != [] {
      var rest := s[1..];
      var seen := if Strip(par, s[0]) == 3 then ccn + 1 else 0;
      if seen <= 2 {
        ThreeInterrupt(par, max, seen, rest);
        if i: nat :| EtxAt(par, rest, i, 3) {
          EtxBehind(par, s, i, 3);
        } else if i: nat :| EtxAt(par, s, i, 3) {
          if i > 0 {
            EtxBehind(par, s, i - 1, 3);
          } else {
            assert EtxAt(par, s, 0, 3);
            assert EtxAt(par, rest, 0, 2);
          }
        }
        EtxBehind(par, s, 0, 3 - seen);
      }
    }
  }

  lemma EtxBehind(par: Parity, s: seq<byte>, i: nat, n: nat)
    requires s != []
    ensures EtxAt(par, s, i + 1, n) <==> EtxAt(par, s[1..], i, n)
  {
    var rest := s[1..];
    assert forall k :: 0 <= k < |rest| ==> rest[k] == s[k + 1];
    if EtxAt(par, rest, i, n) {
      forall k | i + 1 <= k < i + 1 + n
        ensures Strip(par, s[k]) == 3
      {
        assert Strip(par, rest[k - 1]) == 3;
      }
    }
  }

  /** A frame is complete at its last octet and not before. */
  lemma FrameLength(m: LineMode, n: nat, kind: byte, data: seq<byte>)
    requires m.Valid() && n < 64 && |data| + m.bctu <= 9024
    ensures var f := Frame(m, n, kind, data);
            && |f| == |data| + m.bctu + (if Long(m, |data|) then 7 else 4)
            && Complete(f)
            && forall i :: 0 < i < |f| ==> !Complete(f[..i])
  {
    hide Chk1, CheckField, Covered;
    var f, j := Frame(m, n, kind, data), |data| + m.bctu;
    if Long(m, |data|) {
      assert f[1] == 32 && f[4] == ToChar(j / 95) && f[5] == ToChar(j % 95);
      assert UnChar(f[4] % 128) * 95 + UnChar(f[5] % 128) == j;
    } else {
      assert f[1] == ToChar(j + 2);
    }
    forall i | 0 < i < |f|
      ensures !Complete(f[..i])
    {
      var g := f[..i];
      assert i >= 2 ==> g[1] == f[1];
      assert i >= 6 ==> g[4] == f[4] && g[5] == f[5];
    }
  }

  /** The octets that end up in a frame besides type and data are printable. */
  lemma FrameCarried(m: LineMode, n: nat, kind: byte, data: seq<byte>)
    requires m.Valid() && n < 64 && |data| + m.bctu <= 9024
    requires Carried(m.par, [kind]) && Carried(m.par, data)
    ensures Carried(m.par, Frame(m, n, kind, data))
  {
    hide Chk1, CheckField, Covered;
    var body := Body(m, n, kind, data);
    var check := CheckField(m, Covered(m, body));
    CheckFieldMatches(m, Covered(m, body), []);
    assert [kind][0] == kind;
    assert Carried(m.par, Header(m, n, kind, |data|));
    assert Carried(m.par, check) by {
      PrintableCarried(m.par, check);
    }
  }

  /**
   * Through the line: whatever junk comes first and whatever follows, ttinl()
   * stops exactly behind the block check and hands over the frame.
   */
  lemma FrameIsRead(m: LineMode, n: nat, kind: byte, data: seq<byte>, junk: seq<byte>, rest: seq<byte>, max: nat)
    requires m.Valid() && n < 64 && |data| + m.bctu <= 9024
    requires Carried(m.par, [kind]) && Carried(m.par, data) && Junk(m.par, junk)
    requires |Frame(m, n, kind, data)| <= max
    ensures var f := Frame(m, n, kind, data);
            TtInl(m.par, max, 0, junk + (OnLine(m.par, f) + rest)) == Got(f, rest)
  {
    var f := Frame(m, n, kind, data);
    FrameLength(m, n, kind, data);
    FrameCarried(m, n, kind, data);
    hide Frame, Complete, DoPar;
    assert f[0] == SOH by {
      FrameStart(m, n, kind, data);
    }
    ParityRoundTrip(m.par, SOH);
    JunkIsSkipped(m.par, max, 0, junk, OnLine(m.par, f) + rest);
    assert f[..0] == [] && f[0..] == f;
    CollectsAll(m.par, max, 0, f, 0, rest);
  }

  lemma FrameStart(m: LineMode, n: nat, kind: byte, data: seq<byte>)
    requires m.Valid() && n < 64 && |data| + m.bctu <= 9024
    ensures |Frame(m, n, kind, data)| > 4 && Frame(m, n, kind, data)[0] == SOH
    ensures Frame(m, n, kind, data)[2] == ToChar(n) && Frame(m, n, kind, data)[3] == kind
  {
    hide CheckField;
  }

  /** Without padding, or with a type 1 check, the check covers what it should. */
  lemma CoveredIsBody(m: LineMode, body: seq<byte>)
    requires m.bctu == 1 || m.spadn == 0
    ensures Covered(m, body) == body
  {
  }

  lemma PartsOfFrame(h: seq<byte>, d: seq<byte>, check: seq<byte>, buf: seq<byte>)
    requires 1 + |h| + |d| + |check| <= |buf| && buf[..1 + |h| + |d| + |check|] == [SOH] + (h + d) + check
    ensures var i := 1 + |h|;
            && buf[1..i] == h && buf[1..i + |d|] == h + d && buf[i..i + |d|] == d
            && buf[i + |d|..i + |d| + |check|] == check
  {
    var n := 1 + |h| + |d| + |check|;
    var f := buf[..n];
    assert buf[1..1 + |h|] == f[1..1 + |h|] == h;
    assert buf[1..1 + |h| + |d|] == f[1..1 + |h| + |d|] == h + d;
    assert buf[1 + |h|..1 + |h| + |d|] == f[1 + |h|..1 + |h| + |d|] == d;
    assert buf[1 + |h| + |d|..n] == f[1 + |h| + |d|..n] == check;
  }

  /** rpacket() finds the length it was sent, in either form. */
  lemma HeaderParses(m: LineMode, n: nat, kind: byte, len: nat, buf: seq<byte>)
    requires m.Valid() && n < 64 && len + m.bctu <= 9024
    requires var h := Header(m, n, kind, len); |h| + 1 <= |buf| && buf[1..1 + |h|] == h
    ensures buf[2] == ToChar(n) && buf[3] == kind
    ensures var i := if Long(m, len) then 7 else 4;
            forall size :: i + len + m.bctu <= size <= |buf| && size >= 5 ==> Parse(m, buf, size) == Checked(m, buf, i, len)
  {
    hide Chk1, Checked;
    var h, j := Header(m, n, kind, len), len + m.bctu;
    var g := buf[1..1 + |h|];
    assert forall k :: 0 <= k < |g| ==> g[k] == buf[1 + k];
    if Long(m, len) {
      assert buf[1..6] == h[..5];
      assert buf[6] == h[5] && buf[4] == h[3] && buf[5] == h[4];
      assert UnChar(buf[4]) * 95 + UnChar(buf[5]) == j;
    } else {
      assert buf[1] == h[0] == ToChar(j + 2);
    }
  }

  /** The received frame, wherever the buffer goes on behind it, is judged by its block check alone. */
  lemma ParseFrame(m: LineMode, n: nat, kind: byte, data: seq<byte>, buf: seq<byte>)
    requires m.Valid() && n < 64 && |data| + m.bctu <= 9024
    requires |Frame(m, n, kind, data)| <= |buf| && buf[..|Frame(m, n, kind, data)|] == Frame(m, n, kind, data)
    ensures var f, body := Frame(m, n, kind, data), Body(m, n, kind, data);
            Parse(m, buf, |f|) == if CheckMatches(m, body, CheckField(m, Covered(m, body))) then Good(kind, n, data) else Bad
  {
    hide Chk1, CheckField, Covered, CheckMatches, Parse, Complete;
    var f, body := Frame(m, n, kind, data), Body(m, n, kind, data);
    FrameLength(m, n, kind, data);
    PartsOfFrame(Header(m, n, kind, |data|), data, CheckField(m, Covered(m, body)), buf);
    HeaderParses(m, n, kind, |data|, buf);
  }

  /** rpacket() gives back type, number and data of every packet spacket() frames. */
  lemma FrameRoundTrip(m: LineMode, n: nat, kind: byte, data: seq<byte>, buf: seq<byte>)
    requires m.Valid() && (m.bctu == 1 || m.spadn == 0)
    requires n < 64 && |data| + m.bctu <= 9024
    requires |Frame(m, n, kind, data)| <= |buf| && buf[..|Frame(m, n, kind, data)|] == Frame(m, n, kind, data)
    ensures Parse(m, buf, |Frame(m, n, kind, data)|) == Good(kind, n, data)
  {
    var body := Body(m, n, kind, data);
    ParseFrame(m, n, kind, data, buf);
    CoveredIsBody(m, body);
    CheckFieldMatches(m, body, body);
  }

  /**
   * A packet is read as it was sent: behind junk, and before anything, ttinl()
   * hands over its frame and leaves the rest, and rpacket() gives back type, number
   * and data, whatever older octets the buffer holds behind the frame.
   */
  ghost predicate ReadAsSent(m: LineMode, n: nat, kind: byte, data: seq<byte>, junk: seq<byte>, rest: seq<byte>, max: nat)
    requires m.Valid() && n < 64 && |data| + m.bctu <= 9024
  {
    var f := Frame(m, n, kind, data);
    && TtInl(m.par, max, 0, junk + (OnLine(m.par, f) + rest)) == Got(f, rest)
    && forall buf: seq<byte> :: |f| <= |buf| && buf[..|f|] == f ==> Parse(m, buf, |f|) == Good(kind, n, data)
  }

  /** This holds for all packets a line can carry, behind all junk without start characters and ^C. */
  ghost predicate FramesFaithful(m: LineMode)
    requires m.Valid()
  {
    forall n: nat, kind, data, junk, rest, max: nat |
      n < 64 && |data| + m.bctu <= 9024 && Carried(m.par, [kind]) && Carried(m.par, data) && Junk(m.par, junk)
      && |Frame(m, n, kind, data)| <= max ::
      ReadAsSent(m, n, kind, data, junk, rest, max)
  }

  /** With padding the CRC leaves out the end of the data, so it cannot tell these two packets apart. */
  lemma PaddedCrcMissesTheEnd(m: LineMode, a: byte, b: byte)
    requires m.bctu == 3 && m.spadn > 0
    ensures Covered(m, Body(m, 0, 0, [a])) == Covered(m, Body(m, 0, 0, [b]))
  {
    var x, y := Body(m, 0, 0, [a]), Body(m, 0, 0, [b]);
    assert forall i :: 0 <= i < 3 ==> x[i] == y[i];
    var s, t := Rep(m.spadc, m.spadn) + [SOH] + x, Rep(m.spadc, m.spadn) + [SOH] + y;
    assert forall i :: 0 <= i < 1 + |x| ==> s[i] == t[i];
  }

  /** The CRC does tell them apart at the other end. */
  lemma EndsDiffer(m: LineMode)
    requires m.bctu == 3
    ensures Crc16(m.Masking(), Body(m, 0, 0, [65])) != Crc16(m.Masking(), Body(m, 0, 0, [66]))
  {
    var h := Header(m, 0, 0, 1);
    assert h + [65] + [] == Body(m, 0, 0, [65]) && h + [66] + [] == Body(m, 0, 0, [66]);
    assert MaskAll(m.Masking(), [65])[0] == 65 && MaskAll(m.Masking(), [66])[0] == 66;
    AdjacentOctetsDetected(m.Masking(), h, [65], [66], []);
  }

  /** Every packet is read as sent exactly when the check is of type 1 or no padding is asked for. */
  lemma FramesFaithfulExactly(m: LineMode)
    requires m.Valid()
    ensures FramesFaithful(m) <==> m.bctu == 1 || m.spadn == 0
  {
    hide Frame, Parse, TtInl, OnLine, Carried, Junk, Body, Covered, Crc16;
    if m.bctu == 1 || m.spadn == 0 {
      forall n: nat, kind, data, junk, rest, max: nat |
        n < 64 && |data| + m.bctu <= 9024 && Carried(m.par, [kind]) && Carried(m.par, data) && Junk(m.par, junk)
        && |Frame(m, n, kind, data)| <= max
        ensures ReadAsSent(m, n, kind, data, junk, rest, max)
      {
        FrameIsRead(m, n, kind, data, junk, rest, max);
        forall buf: seq<byte> | |Frame(m, n, kind, data)| <= |buf| && buf[..|Frame(m, n, kind, data)|] == Frame(m, n, kind, data)
          ensures Parse(m, buf, |Frame(m, n, kind, data)|) == Good(kind, n, data)
        {
          FrameRoundTrip(m, n, kind, data, buf);
        }
      }
    } else {
      PaddedCrcFails(m);
    }
  }

  lemma PaddedCrcFails(m: LineMode)
    requires m.bctu == 3 && m.spadn > 0
    ensures !FramesFaithful(m)
  {
    hide Frame, Parse, TtInl, OnLine, Body, Covered, Crc16;
    var x, y := Body(m, 0, 0, [65]), Body(m, 0, 0, [66]);
    var f, g := Frame(m, 0, 0, [65]), Frame(m, 0, 0, [66]);
    PaddedCrcMissesTheEnd(m, 65, 66);
    EndsDiffer(m);
    assert f[..|f|] == f && g[..|g|] == g;
    ParseFrame(m, 0, 0, [65], f);
    ParseFrame(m, 0, 0, [66], g);
    CheckFieldMatches(m, Covered(m, x), x);
    CheckFieldMatches(m, Covered(m, y), y);
    assert !ReadAsSent(m, 0, 0, [65], [], [], |f|) || !ReadAsSent(m, 0, 0, [66], [], [], |g|);
  }

  /** As long as the length fields are intact, the block check is looked for in its place. */
  lemma LengthIntact(m: LineMode, n: nat, kind: byte, data: seq<byte>, buf: seq<byte>)
    requires m.Valid() && n < 64 && |data| + m.bctu <= 9024
    requires |buf| >= |Frame(m, n, kind, data)| && buf[1] == Frame(m, n, kind, data)[1]
    requires Long(m, |data|) ==> buf[4] == Frame(m, n, kind, data)[4] && buf[5] == Frame(m, n, kind, data)[5]
    ensures var r := Parse(m, buf, |Frame(m, n, kind, data)|);
            r == Bad || r == Checked(m, buf, if Long(m, |data|) then 7 else 4, |data|)
  {
    hide Chk1, CheckField, Covered, Checked;
    FrameLength(m, n, kind, data);
    var f, j := Frame(m, n, kind, data), |data| + m.bctu;
    if Long(m, |data|) {
      assert f[1] == 32 && f[4] == ToChar(j / 95) && f[5] == ToChar(j % 95);
      assert UnChar(f[4]) * 95 + UnChar(f[5]) == j;
    } else {
      assert f[1] == ToChar(j + 2);
    }
  }

  /** The places of a frame in which damage leaves the start character and the length fields alone. */
  predicate OffLength(m: LineMode, len: nat, at: nat, width: nat) {
    2 <= at && (Long(m, len) ==> at + width <= 4 || 6 <= at)
  }

  /** A frame with some octets overwritten. */
  function Damaged(f: seq<byte>, at: nat, hit: seq<byte>): (g: seq<byte>)
    requires at + |hit| <= |f|
    ensures |g| == |f|
    ensures forall i :: 0 <= i < |f| && !(at <= i < at + |hit|) ==> g[i] == f[i]
  {
    f[..at] + hit + f[at + |hit|..]
  }

  /**
   * With the CRC, damage to type, number or data that touches at most two
   * adjacent octets makes rpacket() reject the packet.
   */
  lemma DamageIsRejected(m: LineMode, n: nat, kind: byte, data: seq<byte>, at: nat, hit: seq<byte>, buf: seq<byte>)
    requires m.bctu == 3 && m.spadn == 0 && n < 64 && |data| + m.bctu <= 9024
    requires |hit| <= 2 && OffLength(m, |data|, at, |hit|) && at + |hit| <= 1 + |Body(m, n, kind, data)|
    requires MaskAll(m.Masking(), hit) != MaskAll(m.Masking(), Frame(m, n, kind, data)[at..at + |hit|])
    requires var f := Frame(m, n, kind, data); |f| <= |buf| && buf[..|f|] == Damaged(f, at, hit)
    ensures Parse(m, buf, |Frame(m, n, kind, data)|) == Bad
  {
    hide Chk1, CheckField, Covered, CheckMatches, Crc16, Body, Complete;
    var f, body := Frame(m, n, kind, data), Body(m, n, kind, data);
    var i := if Long(m, |data|) then 7 else 4;
    FrameLength(m, n, kind, data);
    BodyLength(m, n, kind, data);
    CoveredIsBody(m, body);
    var check := CheckField(m, body);
    var pre, was, post := Splice(body, check, at, hit);
    var g := Damaged(f, at, hit);
    assert forall k :: 0 <= k < |g| ==> buf[k] == g[k];
    LengthIntact(m, n, kind, data, buf);
    CheckFieldMatches(m, body, pre + hit + post);
    CrcDiffers(m, pre, hit, was, post);
    MismatchIsBad(m, buf, i, |data|, pre + hit + post, check, g);
  }

  /** With check type 1, a change of one bit in type, number or data makes rpacket() reject the packet. */
  lemma OneBitIsRejected(m: LineMode, n: nat, kind: byte, data: seq<byte>, at: nat, b: byte, w: nat, buf: seq<byte>)
    requires m.bctu == 1 && n < 64 && |data| + m.bctu <= 9024
    requires OffLength(m, |data|, at, 1) && at <= |Body(m, n, kind, data)| && at < |Frame(m, n, kind, data)|
    requires Flipped(Frame(m, n, kind, data)[at], b, w) && (m.Masking() ==> w < 128)
    requires var f := Frame(m, n, kind, data); |f| <= |buf| && buf[..|f|] == Damaged(f, at, [b])
    ensures Parse(m, buf, |Frame(m, n, kind, data)|) == Bad
  {
    hide Chk1, CheckField, Covered, CheckMatches, Body, Complete, Flipped;
    var f, body := Frame(m, n, kind, data), Body(m, n, kind, data);
    var i := if Long(m, |data|) then 7 else 4;
    FrameLength(m, n, kind, data);
    BodyLength(m, n, kind, data);
    CoveredIsBody(m, body);
    var check := CheckField(m, body);
    var pre, was, post := Splice(body, check, at, [b]);
    assert was == [f[at]];
    var g := Damaged(f, at, [b]);
    assert forall k :: 0 <= k < |g| ==> buf[k] == g[k];
    LengthIntact(m, n, kind, data, buf);
    CheckFieldMatches(m, body, pre + [b] + post);
    OneBitShows(m.Masking(), pre, f[at], b, post, w);
    MismatchIsBad(m, buf, i, |data|, pre + [b] + post, check, g);
  }

  /** And so does any change of the check character. */
  lemma OtherCheckIsRejected(m: LineMode, n: nat, kind: byte, data: seq<byte>, b: byte, buf: seq<byte>)
    requires m.bctu == 1 && n < 64 && |data| + m.bctu <= 9024
    requires b != CheckField(m, Body(m, n, kind, data))[0]
    requires var g := [SOH] + Body(m, n, kind, data) + [b]; |g| <= |buf| && buf[..|g|] == g
    ensures Parse(m, buf, |Frame(m, n, kind, data)|) == Bad
  {
    hide Chk1, Parse, Body;
    FrameLength(m, n, kind, data);
    BodyLength(m, n, kind, data);
    OnlyTheCheck(m, n, kind, data, [b], buf);
  }

  lemma MismatchIsBad(m: LineMode, buf: seq<byte>, i: nat, rln: nat, body: seq<byte>, check: seq<byte>, g: seq<byte>)
    requires m.Valid() && 4 <= i && |check| == m.bctu && !CheckMatches(m, body, check)
    requires |g| == i + rln + m.bctu && g[1..i + rln] == body && g[i + rln..] == check
    requires |g| <= |buf| && buf[..|g|] == g
    ensures Checked(m, buf, i, rln) == Bad
  {
    hide CheckMatches;
    assert buf[1..i + rln] == g[1..i + rln];
    assert buf[i + rln..i + rln + m.bctu] == g[i + rln..];
  }

  /**
   * The other way round: what rpacket() accepts, with these length fields, is what
   * spacket() would have sent, up to a block check that matches.
   */
  lemma AcceptedExactly(m: LineMode, n: nat, kind: byte, data: seq<byte>, buf: seq<byte>, size: nat)
    requires m.Valid() && n < 64 && |data| + m.bctu <= 9024
    requires 1 + |Body(m, n, kind, data)| + m.bctu <= size <= |buf|
    ensures var body := Body(m, n, kind, data);
            (&& Parse(m, buf, size) == Good(kind, n, data) && buf[1] == body[0]
             && (Long(m, |data|) ==> buf[4] == body[3] && buf[5] == body[4]))
            <==> buf[1..1 + |body|] == body && CheckMatches(m, body, buf[1 + |body|..1 + |body| + m.bctu])
  {
    hide Chk1, CheckMatches, Parse;
    var body := Body(m, n, kind, data);
    var got := buf[1..1 + |body|];
    assert forall k :: 0 <= k < |got| ==> got[k] == buf[k + 1];
    if got == body {
      BodyIsJudged(m, n, kind, data, buf, size);
    }
    if Parse(m, buf, size) == Good(kind, n, data) && buf[1] == body[0]
       && (Long(m, |data|) ==> buf[4] == body[3] && buf[5] == body[4]) {
      AcceptedHasBody(m, n, kind, data, buf, size);
      BodyIsJudged(m, n, kind, data, buf, size);
    }
  }

  lemma BodyIsJudged(m: LineMode, n: nat, kind: byte, data: seq<byte>, buf: seq<byte>, size: nat)
    requires m.Valid() && n < 64 && |data| + m.bctu <= 9024
    requires var body := Body(m, n, kind, data); 1 + |body| + m.bctu <= size <= |buf| && buf[1..1 + |body|] == body
    ensures var body := Body(m, n, kind, data);
            Parse(m, buf, size)
            == if CheckMatches(m, body, buf[1 + |body|..1 + |body| + m.bctu]) then Good(kind, n, data) else Bad
  {
    hide Chk1, CheckMatches, Parse;
    var h, body := Header(m, n, kind, |data|), Body(m, n, kind, data);
    var i := 1 + |h|;
    var got := buf[1..1 + |body|];
    assert buf[1..i] == got[..|h|] == h && buf[i..i + |data|] == got[|h|..] == data;
    HeaderParses(m, n, kind, |data|, buf);
  }

  lemma AcceptedHasBody(m: LineMode, n: nat, kind: byte, data: seq<byte>, buf: seq<byte>, size: nat)
    requires m.Valid() && n < 64 && |data| + m.bctu <= 9024
    requires var body := Body(m, n, kind, data);
             && 1 + |body| + m.bctu <= size <= |buf|
             && Parse(m, buf, size) == Good(kind, n, data) && buf[1] == body[0]
             && (Long(m, |data|) ==> buf[4] == body[3] && buf[5] == body[4])
    ensures var body := Body(m, n, kind, data); buf[1..1 + |body|] == body
  {
    hide Chk1, CheckMatches;
    var h, body, j := Header(m, n, kind, |data|), Body(m, n, kind, data), |data| + m.bctu;
    var i := 1 + |h|;
    if Long(m, |data|) {
      assert buf[4] == ToChar(j / 95) && buf[5] == ToChar(j % 95);
      assert UnChar(buf[4]) * 95 + UnChar(buf[5]) == j;
      assert buf[1..6] == [ToChar(0), ToChar(n), kind, ToChar(j / 95), ToChar(j % 95)];
    }
    assert buf[i..i + |data|] == data;
    assert buf[1..i] == h;
    assert buf[1..1 + |body|] == buf[1..i] + buf[i..i + |data|];
  }

  /** Runts, impossible lengths and a wrong header check are no packets. */
  lemma MalformedIsBad(m: LineMode, buf: seq<byte>, size: nat)
    requires m.Valid() && size <= |buf|
    requires || size < 5 || buf[1] < 32 || buf[1] == 33 || buf[1] == 34
             || (buf[1] == 32 && |buf| > 6 && buf[6] != 32 + Chk1(m.Masking(), buf[1..6]))
    ensures Parse(m, buf, size) == Bad
  {
    hide Chk1, Checked;
  }

  /** Damage to the last two check characters, and to the top of the first, shows in the value they stand for. */
  lemma LowTwelveBits(h: byte, crc: bv16)
    ensures LowTwelve(CrcField(h, Group(Middle(crc)), Group(Bottom(crc)))) == LowTwelve(crc)
  {
    hide Group, Ungroup;
    GroupsFit(crc);
    GroupBack(Middle(crc));
    GroupBack(Bottom(crc));
    LowPart(Ungroup(h), crc);
  }

  lemma LowPart(t: bv16, crc: bv16)
    ensures ((t << 12) | (Middle(crc) << 6) | Bottom(crc)) & 0xFFF == crc & 0xFFF
  {
  }

  lemma SevenBits(par: Parity, a: seq<byte>, b: seq<byte>)
    requires |a| == |b| && Readable(par, a) && Readable(par, b)
    requires MaskAll(!par.NoParity?, a) == MaskAll(!par.NoParity?, b)
    ensures a == b
  {
    forall i | 0 <= i < |a|
      ensures a[i] == b[i]
    {
      assert MaskAll(!par.NoParity?, a)[i] == MaskAll(!par.NoParity?, b)[i];
    }
  }

  /** A packet that is accepted at all, with nothing changed but its check, is the packet sent. */
  lemma OnlyTheCheck(m: LineMode, n: nat, kind: byte, data: seq<byte>, check: seq<byte>, buf: seq<byte>)
    requires m.Valid() && n < 64 && |data| + m.bctu <= 9024 && |check| == m.bctu
    requires var g := [SOH] + Body(m, n, kind, data) + check; |g| <= |buf| && buf[..|g|] == g
    ensures Parse(m, buf, |[SOH] + Body(m, n, kind, data) + check|)
         == if CheckMatches(m, Body(m, n, kind, data), check) then Good(kind, n, data) else Bad
  {
    hide Chk1, CheckMatches, Parse;
    PartsOfFrame(Header(m, n, kind, |data|), data, check, buf);
    HeaderParses(m, n, kind, |data|, buf);
  }

  /** A text whose last octet has changed, with only the first of its check characters changed, is rejected. */
  lemma StraddleShows(m: LineMode, pre: seq<byte>, b: byte, hit: seq<byte>)
    requires m.bctu == 3 && |hit| == 2
    requires var check := CheckField(m, pre + [b]); CheckMatches(m, pre + [hit[0]], [hit[1], check[1], check[2]])
    ensures Masked(m.Masking(), b) == Masked(m.Masking(), hit[0])
  {
    hide Group, Top, Middle, Bottom, CrcField, Masked, Fold, LowTwelve;
    LowTwelveBits(hit[1], Crc16(m.Masking(), pre + [b]));
    LastOctetShows(m.Masking(), pre, b, hit[0]);
  }

  /** Damage to the last octet before the check and to the first of the check. */
  lemma StraddlingDamage(m: LineMode, n: nat, kind: byte, data: seq<byte>, hit: seq<byte>, buf: seq<byte>)
    requires m.bctu == 3 && n < 64 && |data| + m.bctu <= 9024 && |hit| == 2
    requires Readable(m.par, hit) && Readable(m.par, Body(m, n, kind, data))
    requires var body := Body(m, n, kind, data);
             var f := [SOH] + body + CheckField(m, body);
             |f| <= |buf| && buf[..|f|] == Damaged(f, |body|, hit)
    ensures Parse(m, buf, |Body(m, n, kind, data)| + 4) in {Bad, Good(kind, n, data)}
  {
    hide Body, Parse, CheckField, CheckMatches, Masked, Readable;
    var body := Body(m, n, kind, data);
    BodyLength(m, n, kind, data);
    var check, i, pre := CheckField(m, body), if Long(m, |data|) then 7 else 4, body[..|body| - 1];
    var last, check' := body[|body| - 1], [hit[1], check[1], check[2]];
    assert body == pre + [last];
    assert buf[..|body| + 4] == [SOH] + (pre + [hit[0]]) + check';
    PartsOfFrame(pre + [hit[0]], [], check', buf);
    JudgedInItsPlace(m, n, kind, data, buf, pre + [hit[0]], check');
    if CheckMatches(m, pre + [hit[0]], check') {
      StraddleShows(m, pre, last, hit);
      SameOctet(m.par, body, last, hit);
      OnlyTheCheck(m, n, kind, data, check', buf);
    }
  }

  lemma SameOctet(par: Parity, body: seq<byte>, last: byte, hit: seq<byte>)
    requires Readable(par, body) && Readable(par, hit) && last in body && hit != []
    requires Masked(!par.NoParity?, last) == Masked(!par.NoParity?, hit[0])
    ensures last == hit[0]
  {
  }

  /** With the length fields intact nothing but a matching block check in its place gets a packet accepted. */
  lemma JudgedInItsPlace(m: LineMode, n: nat, kind: byte, data: seq<byte>, buf: seq<byte>, body: seq<byte>, check: seq<byte>)
    requires m.Valid() && n < 64 && |data| + m.bctu <= 9024
    requires |body| == |Body(m, n, kind, data)| && |check| == m.bctu
    requires |body| + 1 + m.bctu <= |buf| && buf[1..1 + |body|] == body && buf[1 + |body|..1 + |body| + m.bctu] == check
    requires body[0] == Body(m, n, kind, data)[0]
    requires Long(m, |data|) ==> body[3] == Body(m, n, kind, data)[3] && body[4] == Body(m, n, kind, data)[4]
    ensures !CheckMatches(m, body, check) ==> Parse(m, buf, |body| + 1 + m.bctu) == Bad
  {
    hide Body, Parse, CheckMatches, CheckField, Covered;
    FrameLength(m, n, kind, data);
    BodyLength(m, n, kind, data);
    FrameBody(m, n, kind, data);
    var f := Frame(m, n, kind, data);
    var part := buf[1..1 + |body|];
    assert forall k :: 0 <= k < |part| ==> part[k] == buf[k + 1];
    LengthIntact(m, n, kind, data, buf);
  }

  lemma FrameBody(m: LineMode, n: nat, kind: byte, data: seq<byte>)
    requires m.Valid() && n < 64 && |data| + m.bctu <= 9024
    ensures var f, body := Frame(m, n, kind, data), Body(m, n, kind, data);
            1 + |body| <= |f| && f[1..1 + |body|] == body && forall k :: 0 <= k < |body| ==> f[1 + k] == body[k]
  {
    hide CheckField, Body;
  }

  /**
   * With the CRC, damage to at most two adjacent octets anywhere but in the start
   * character and the length fields never makes another packet: rpacket() rejects
   * what it gets, or returns exactly what was sent.
   */
  lemma DamageIsHarmless(m: LineMode, n: nat, kind: byte, data: seq<byte>, at: nat, hit: seq<byte>, buf: seq<byte>)
    requires m.bctu == 3 && m.spadn == 0 && n < 64 && |data| + m.bctu <= 9024
    requires Carried(m.par, [kind]) && Carried(m.par, data) && Readable(m.par, hit)
    requires |hit| <= 2 && OffLength(m, |data|, at, |hit|) && at + |hit| <= |Frame(m, n, kind, data)|
    requires var f := Frame(m, n, kind, data); |f| <= |buf| && buf[..|f|] == Damaged(f, at, hit)
    ensures Parse(m, buf, |Frame(m, n, kind, data)|) in {Bad, Good(kind, n, data)}
  {
    hide CheckField, Covered, Body, Parse, Complete, MaskAll;
    var f, body := Frame(m, n, kind, data), Body(m, n, kind, data);
    FrameLength(m, n, kind, data);
    BodyLength(m, n, kind, data);
    FrameCarried(m, n, kind, data);
    CoveredIsBody(m, body);
    var check := CheckField(m, body);
    assert f == [SOH] + body + check;
    assert Readable(m.par, body) by {
      assert forall k :: 0 <= k < |body| ==> body[k] == f[1 + k];
    }
    if at + |hit| <= 1 + |body| {
      var was := f[at..at + |hit|];
      if MaskAll(m.Masking(), hit) != MaskAll(m.Masking(), was) {
        DamageIsRejected(m, n, kind, data, at, hit, buf);
      } else {
        SevenBits(m.par, hit, was);
        assert Damaged(f, at, hit) == f;
        FrameRoundTrip(m, n, kind, data, buf);
      }
    } else if at > |body| {
      var check' := Damaged(f, at, hit)[1 + |body|..];
      assert Damaged(f, at, hit) == [SOH] + body + check';
      OnlyTheCheck(m, n, kind, data, check', buf);
    } else {
      assert at == |body|;
      StraddlingDamage(m, n, kind, data, hit, buf);
    }
  }

  lemma MaskOne(masking: bool, b: byte)
    ensures MaskAll(masking, [b]) == [Masked(masking, b)]
  {
  }

  /** The length of a packet shows in three places only. */
  lemma SameLength(f: seq<byte>, g: seq<byte>)
    requires |f| == |g| >= 2 && f[1] == g[1]
    requires UnChar(f[1] % 128) > 1 || (|f| >= 6 ==> f[4] == g[4] && f[5] == g[5])
    ensures Complete(f) == Complete(g)
  {
  }

  lemma DamagedReadable(par: Parity, f: seq<byte>, at: nat, hit: seq<byte>)
    requires at + |hit| <= |f| && |hit| <= 2 && Carried(par, f) && Readable(par, hit)
    ensures Readable(par, Damaged(f, at, hit))
  {
    var g := Damaged(f, at, hit);
    assert forall i :: at <= i < at + |hit| ==> g[i] == hit[i - at];
  }

  /** The reader is not put off by such damage: it takes in the whole packet. */
  lemma DamagedIsRead(m: LineMode, n: nat, kind: byte, data: seq<byte>, at: nat, hit: seq<byte>, rest: seq<byte>, max: nat)
    requires m.Valid() && n < 64 && |data| + m.bctu <= 9024
    requires Carried(m.par, [kind]) && Carried(m.par, data)
    requires |hit| <= 2 && Readable(m.par, hit)
    requires OffLength(m, |data|, at, |hit|) && at + |hit| <= |Frame(m, n, kind, data)| <= max
    ensures var g := Damaged(Frame(m, n, kind, data), at, hit);
            TtInl(m.par, max, 0, OnLine(m.par, g) + rest) == Got(g, rest)
  {
    var f := Frame(m, n, kind, data);
    var g := Damaged(f, at, hit);
    FrameLength(m, n, kind, data);
    FrameCarried(m, n, kind, data);
    FrameStart(m, n, kind, data);
    DamagedReadable(m.par, f, at, hit);
    if !Long(m, |data|) {
      ShortIsShort(m, n, kind, data);
    }
    hide Frame, Complete, DoPar, Damaged;
    forall i | 0 < i <= |f|
      ensures Complete(g[..i]) == Complete(f[..i])
    {
      if i >= 2 {
        SameLength(f[..i], g[..i]);
      } else {
        TooShort(f[..i]);
        TooShort(g[..i]);
      }
    }
    assert f[..|f|] == f && g[..|g|] == g;
    ParityRoundTrip(m.par, SOH);
    var line := OnLine(m.par, g) + rest;
    assert line[0] == DoPar(m.par, SOH) && [] + line == line;
    JunkIsSkipped(m.par, max, 0, [], line);
    assert g[..0] == [] && g[0..] == g;
    CollectsAll(m.par, max, 0, g, 0, rest);
  }

  lemma TooShort(d: seq<byte>)
    ensures |d| < 2 ==> !Complete(d)
  {
  }

  lemma ShortIsShort(m: LineMode, n: nat, kind: byte, data: seq<byte>)
    requires m.Valid() && n < 64 && |data| + m.bctu <= 9024 && !Long(m, |data|)
    ensures UnChar(Frame(m, n, kind, data)[1] % 128) > 1
  {
    hide CheckField, Covered;
    assert Frame(m, n, kind, data)[1] == ToChar(|data| + m.bctu + 2);
  }

  lemma BodyLength(m: LineMode, n: nat, kind: byte, data: seq<byte>)
    requires m.Valid() && n < 64 && |data| + m.bctu <= 9024
    ensures |Body(m, n, kind, data)| + 1 == |data| + if Long(m, |data|) then 7 else 4
  {
  }

  /** Damage inside the body of a frame, seen as a change between two unchanged parts. */
  lemma Splice(body: seq<byte>, check: seq<byte>, at: nat, hit: seq<byte>)
    returns (pre: seq<byte>, was: seq<byte>, post: seq<byte>)
    requires 1 <= at && at + |hit| <= 1 + |body|
    ensures var f := [SOH] + body + check;
            var buf := f[..at] + hit + f[at + |hit|..];
            && was == f[at..at + |hit|] && body == pre + was + post
            && buf[1..1 + |body|] == pre + hit + post
            && buf[1 + |body|..] == check
  {
    pre, was, post := body[..at - 1], body[at - 1..at - 1 + |hit|], body[at - 1 + |hit|..];
    assert body == pre + was + post;
    var f, tail := [SOH] + body + check, post + check;
    assert f == ([SOH] + pre) + (was + tail);
    assert f[..at] == [SOH] + pre && f[at + |hit|..] == tail;
    var buf := f[..at] + hit + f[at + |hit|..];
    assert buf == [SOH] + (pre + hit + post) + check;
  }

  lemma CrcDiffers(m: LineMode, pre: seq<byte>, a: seq<byte>, b: seq<byte>, post: seq<byte>)
    requires |a| == |b| <= 2 && MaskAll(m.Masking(), a) != MaskAll(m.Masking(), b)
    ensures Crc16(m.Masking(), pre + a + post) != Crc16(m.Masking(), pre + b + post)
  {
    AdjacentOctetsDetected(m.Masking(), pre, a, b, post);
  }
}

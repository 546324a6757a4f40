/**
 * Cutting the encoded file into data fields.
 *
 * Split is the simple description: take as many whole units as fit. Encode,
 * Fill and GetPkt follow encode() and getpkt() on values, with the one-octet
 * lookahead, the leftover and the moving osize; PacketsAreGreedy shows that
 * both cut the file alike.
 */
module Packets {
  import opened Bytes
  import opened Codec

  // ------------------------------------------------- the simple description

  /** How many leading units fit in `room` octets. */
  function Fitting(p: Prefixes, us: seq<Unit>, room: nat): (k: nat)
    requires AllCountable(us)
    ensures k <= |us|
  {
    if us == [] || |Spell(p, us[0])| > room then 0
    else 1 + Fitting(p, us[1..], room - |Spell(p, us[0])|)
  }

  /** The packets of a list of units, each as long as the limit allows. */
  function Split(p: Prefixes, us: seq<Unit>, maxlen: nat): (ps: seq<seq<Unit>>)
    requires AllCountable(us)
    ensures forall q <- ps :: AllCountable(q)
  {
    if us == [] then []
    else
      var k := Fitting(p, us, maxlen);
      if k == 0 then [] else [us[..k]] + Split(p, us[k..], maxlen)
  }

  function SpellEach(p: Prefixes, ps: seq<seq<Unit>>): (r: seq<seq<byte>>)
    requires forall q <- ps :: AllCountable(q)
    ensures |r| == |ps|
    ensures forall i :: 0 <= i < |ps| ==> r[i] == SpellAll(p, ps[i])
  {
    seq(|ps|, i requires 0 <= i < |ps| => SpellAll(p, ps[i]))
  }

  /** The least packet size with which getpkt() works for every file. */
  function Room(p: Prefixes): nat {
    if p.rptOn then 2 * p.Widest() + 1 else p.Widest()
  }

  // ------------------------------------------------------ encode and getpkt

  /** xdata[..size], osize and rpt. */
  datatype Encoding = Encoding(data: seq<byte>, osize: nat, rpt: nat)

  /** encode(a, next): `next` is -1 at the end of the file. */
  function Encode(p: Prefixes, maxsiz: nat, s: Encoding, a: byte, next: int): (r: Encoding)
    requires s.rpt < MAX_RUN
    ensures r.rpt < MAX_RUN
    ensures |s.data| <= |r.data| <= |s.data| + 6 && s.data == r.data[..|s.data|]
    ensures s.osize == |s.data| ==> |s.data| <= r.osize <= |r.data|
  {
    if p.rptOn && a == next then
      if s.rpt + 1 < MAX_RUN then s.(rpt := s.rpt + 1)
      else s.(data := s.data + ([p.rptq, ToChar(MAX_RUN)] + Code(p, a)), rpt := 0)
    else if p.rptOn && s.rpt == 1 then
      var once := s.data + Code(p, a);
      Encoding(once + Code(p, a), if |once| <= maxsiz then |once| else s.osize, 0)
    else if p.rptOn && s.rpt > 1 then
      s.(data := s.data + ([p.rptq, ToChar(s.rpt + 1)] + Code(p, a)), rpt := 0)
    else
      s.(data := s.data + Code(p, a))
  }

  /** The cells a leftover can need, with its terminator: two of the longest codes, or one without run-length encoding. */
  function Cells(p: Prefixes): nat {
    1 + if p.rptOn then 2 * p.Widest() else p.Widest()
  }

  /** What encode() puts behind osize is no more than that. */
  lemma EncodeGrowth(p: Prefixes, maxsiz: nat, s: Encoding, a: byte, next: int)
    requires s.rpt < MAX_RUN && s.osize == |s.data|
    ensures var e := Encode(p, maxsiz, s, a, next); |e.data| - e.osize < Cells(p)
  {
    hide Code;
  }

  /** remain[], the lookahead octet c, the unread file, and the flag first. */
  datatype Source = Source(remain: seq<byte>, cur: byte, rest: seq<byte>, first: int) {
    /** The octets not yet given to encode(). */
    function Ahead(): seq<byte> {
      if first == 1 then rest else if first == 0 then [cur] + rest else []
    }
    predicate Valid() {
      && -1 <= first <= 1
      && (first == 1 ==> remain == [])
    }
    /** Falls with every packet. */
    function Weight(): nat {
      7 * |Ahead()| + |remain|
    }
  }

  datatype Filled = Filled(data: seq<byte>, src: Source)

  /** The loop of getpkt(): one pass for each octet, until the packet is full. */
  function Fill(p: Prefixes, maxlen: nat, s: Encoding, cur: byte, rest: seq<byte>): (r: Filled)
    requires s.rpt < MAX_RUN && s.osize == |s.data|
    ensures r.src.Valid() && r.src.first != 1
    ensures |r.src.Ahead()| <= |rest| && |r.src.remain| <= 6
    decreases |rest|
  {
    var next: int := if rest == [] then -1 else rest[0];
    var e := Encode(p, maxlen, s, cur, next);
    var (cur', rest', first) := if rest == [] then (cur, [], -1) else (rest[0], rest[1..], 0);
    if |e.data| == maxlen then Filled(e.data, Source([], cur', rest', first))
    else if |e.data| > maxlen then Filled(e.data[..e.osize], Source(e.data[e.osize..], cur', rest', first))
    else if rest == [] then Filled(e.data, Source([], cur', rest', first))
    else Fill(p, maxlen, e.(osize := |e.data|), cur', rest')
  }

  /** getpkt(maxlen) on a file. */
  function GetPkt(p: Prefixes, maxlen: nat, s: Source): (r: Filled)
    requires s.Valid()
    ensures r.src.Valid() && r.src.first != 1
    ensures r.data != [] ==> r.src.Weight() < s.Weight()
  {
    if s.first == 1 then
      if s.rest == [] then Filled([], s.(first := -1))
      else Fill(p, maxlen, Encoding([], 0, 0), s.rest[0], s.rest[1..])
    else if s.first == -1 then Filled(s.remain, s.(remain := []))
    else Fill(p, maxlen, Encoding(s.remain, |s.remain|, 0), s.cur, s.rest)
  }

  /** The data fields of the successive sdata() calls, up to the first empty one. */
  function SendAll(p: Prefixes, maxlen: nat, s: Source): seq<seq<byte>>
    requires s.Valid()
    decreases s.Weight()
  {
    var r := GetPkt(p, maxlen, s);
    if r.data == [] then [] else [r.data] + SendAll(p, maxlen, r.src)
  }

  function Start(f: seq<byte>): Source {
    Source([], 0, f, 1)
  }

  // ------------------------------------------------------------- list facts

  lemma {:induction false} SpellAppend(p: Prefixes, a: seq<Unit>, b: seq<Unit>)
    requires AllCountable(a) && AllCountable(b)
    ensures SpellAll(p, a + b) == SpellAll(p, a) + SpellAll(p, b)
  {
    if a == [] {
      assert a + b == b;
    } else {
      assert (a + b)[1..] == a[1..] + b;
      SpellAppend(p, a[1..], b);
    }
  }

  lemma {:induction false} TextAppend(a: seq<Unit>, b: seq<Unit>)
    ensures TextOf(a + b) == TextOf(a) + TextOf(b)
  {
    if a == [] {
      assert a + b == b;
    } else {
      assert (a + b)[1..] == a[1..] + b;
      TextAppend(a[1..], b);
    }
  }

  /** Units that fit come first; the rest compete for what is left of the room. */
  lemma {:induction false} FittingAppend(p: Prefixes, a: seq<Unit>, b: seq<Unit>, room: nat)
    requires AllCountable(a) && AllCountable(b) && |SpellAll(p, a)| <= room
    ensures Fitting(p, a + b, room) == |a| + Fitting(p, b, room - |SpellAll(p, a)|)
  {
    hide Spell;
    if a == [] {
      assert a + b == b;
    } else {
      assert (a + b)[1..] == a[1..] + b;
      FittingAppend(p, a[1..], b, room - |Spell(p, a[0])|);
    }
  }

  lemma {:induction false} FittingFits(p: Prefixes, us: seq<Unit>, room: nat)
    requires AllCountable(us)
    ensures |SpellAll(p, us[..Fitting(p, us, room)])| <= room
  {
    var k := Fitting(p, us, room);
    if k > 0 {
      FittingFits(p, us[1..], room - |Spell(p, us[0])|);
      assert us[..k][1..] == us[1..][..k - 1];
    }
  }

  lemma {:induction false} UnitsSpellable(p: Prefixes, f: seq<byte>)
    ensures Spellable(p, Units(p, f))
    decreases |f|
  {
    if f != [] {
      UnitsSpellable(p, f[Chunk(p, f)..]);
    }
  }

  lemma RunText(a: byte, n: nat)
    requires 1 <= n <= MAX_RUN
    ensures TextOf(RunUnits(a, n)) == Rep(a, n)
  {
    var one := [Unit(1, a)];
    assert TextOf([Unit(n, a)]) == Rep(a, n);
    if n == 2 {
      TextAppend(one, one);
      assert one + one == RunUnits(a, n);
      assert TextOf(one) == Rep(a, 1);
      assert Rep(a, 1) + Rep(a, 1) == Rep(a, 2);
    }
  }

  /** The units of a file stand for exactly that file. */
  lemma {:induction false} UnitsText(p: Prefixes, f: seq<byte>)
    ensures TextOf(Units(p, f)) == f
    decreases |f|
  {
    if f != [] {
      var n := Chunk(p, f);
      calc {
        TextOf(Units(p, f));
        { TextAppend(RunUnits(f[0], n), Units(p, f[n..])); }
        TextOf(RunUnits(f[0], n)) + TextOf(Units(p, f[n..]));
        { RunText(f[0], n); UnitsText(p, f[n..]); }
        Rep(f[0], n) + f[n..];
        f;
      }
    }
  }

  /** The next run of a file, as encode() discovers it: `n` octets equal, then a break or the limit. */
  lemma UnitsStep(p: Prefixes, a: byte, n: nat, rest: seq<byte>)
    requires 1 <= n <= MAX_RUN
    requires if p.rptOn then n == MAX_RUN || rest == [] || rest[0] != a else n == 1
    ensures Units(p, Rep(a, n) + rest) == RunUnits(a, n) + Units(p, rest)
  {
    var f := Rep(a, n) + rest;
    assert f[0] == a && f[n..] == rest;
    if p.rptOn {
      var r := RunLength(f);
      assert r < |f| ==> f[r] != a;
      assert n < r ==> f[n] == a;
    }
    assert Chunk(p, f) == n;
  }

  // ------------------------------------------- getpkt() cuts as Split does

  /** How much of a packet may be taken up when the loop starts. */
  predicate Fits(p: Prefixes, maxlen: nat, size: nat) {
    size <= maxlen && (p.rptOn ==> size < maxlen)
  }

  /** Whether encode() only counts: the run goes on and has not reached the limit. */
  predicate Counts(p: Prefixes, rpt: nat, a: byte, rest: seq<byte>) {
    p.rptOn && rest != [] && a == rest[0] && rpt + 1 < MAX_RUN
  }

  function NextOf(rest: seq<byte>): int {
    if rest == [] then -1 else rest[0]
  }

  lemma SpellRun(p: Prefixes, a: byte, n: nat)
    requires 1 <= n <= MAX_RUN && (n > 1 ==> p.rptOn)
    ensures n == 2 ==> SpellAll(p, RunUnits(a, n)) == Code(p, a) + Code(p, a)
    ensures n != 2 ==> SpellAll(p, RunUnits(a, n)) == Spell(p, Unit(n, a))
    ensures |SpellAll(p, RunUnits(a, n))| <= if p.rptOn then 2 * p.Widest() else p.Widest()
  {
    if n == 2 {
      var one := [Unit(1, a)];
      assert one + one == RunUnits(a, n);
      SpellAppend(p, one, one);
    }
  }

  /** When encode() emits, it emits the units of the run that has just ended. */
  lemma EncodeEmits(p: Prefixes, maxsiz: nat, s: Encoding, a: byte, rest: seq<byte>)
    requires s.rpt < MAX_RUN && s.osize == |s.data| && (s.rpt > 0 ==> p.rptOn)
    requires !Counts(p, s.rpt, a, rest)
    ensures var e, n := Encode(p, maxsiz, s, a, NextOf(rest)), s.rpt + 1;
            && e.rpt == 0
            && e.data == s.data + SpellAll(p, RunUnits(a, n))
            && e.osize == (if n == 2 && |s.data + Code(p, a)| <= maxsiz then |s.data + Code(p, a)| else |s.data|)
            && Units(p, Rep(a, n) + rest) == RunUnits(a, n) + Units(p, rest)
  {
    hide Code, Units, Chunk, RunLength;
    var n := s.rpt + 1;
    SpellRun(p, a, n);
    UnitsStep(p, a, n, rest);
  }

  /** `sent` spells exactly the leading units that fit, `kept` spells `left`, and `left` and `tail` remain. */
  predicate Cut(p: Prefixes, maxlen: nat, us: seq<Unit>, sent: seq<byte>, kept: seq<byte>,
                left: seq<Unit>, tail: seq<Unit>)
    requires AllCountable(us)
  {
    var k := Fitting(p, us, maxlen);
    && AllCountable(left)
    && sent == SpellAll(p, us[..k])
    && kept == SpellAll(p, left)
    && Fits(p, maxlen, |kept|)
    && us[k..] == left + tail
  }

  /** Units that do not fit are left over whole. */
  lemma CutBefore(p: Prefixes, maxlen: nat, done: seq<Unit>, left: seq<Unit>, tail: seq<Unit>)
    requires AllCountable(done) && AllCountable(left) && AllCountable(tail) && left != []
    requires |SpellAll(p, done)| <= maxlen < |SpellAll(p, done)| + |Spell(p, left[0])|
    requires Fits(p, maxlen, |SpellAll(p, left)|)
    ensures Cut(p, maxlen, done + (left + tail), SpellAll(p, done), SpellAll(p, left), left, tail)
  {
    var us := done + (left + tail);
    FittingAppend(p, done, left + tail, maxlen);
    assert (left + tail)[0] == left[0];
    assert us[..|done|] == done;
    assert us[|done|..] == left + tail;
  }

  /** The packet overflows on the run just ended: a pair may be split, any other run moves whole. */
  lemma Overflow(p: Prefixes, maxlen: nat, done: seq<Unit>, a: byte, n: nat, tail: seq<Unit>) returns (left: seq<Unit>)
    requires AllCountable(done) && AllCountable(tail) && 1 <= n <= MAX_RUN && (n > 1 ==> p.rptOn)
    requires |SpellAll(p, done)| <= maxlen < |SpellAll(p, done)| + |SpellAll(p, RunUnits(a, n))|
    requires maxlen >= Room(p)
    ensures var size := |SpellAll(p, done)|;
            var data := SpellAll(p, done) + SpellAll(p, RunUnits(a, n));
            var cut := if n == 2 && size + |Code(p, a)| <= maxlen then size + |Code(p, a)| else size;
            Cut(p, maxlen, done + (RunUnits(a, n) + tail), data[..cut], data[cut..], left, tail)
  {
    hide Code, Fitting, Cut;
    var run, size := RunUnits(a, n), |SpellAll(p, done)|;
    var data := SpellAll(p, done) + SpellAll(p, run);
    SpellRun(p, a, n);
    if n == 2 && size + |Code(p, a)| <= maxlen {
      var one := [Unit(1, a)];
      left := one;
      SpellAppend(p, done, one);
      assert SpellAll(p, one) == Code(p, a) && Fits(p, maxlen, |SpellAll(p, one)|);
      CutBefore(p, maxlen, done + one, one, tail);
      assert done + one + (one + tail) == done + (run + tail);
      assert data == SpellAll(p, done + one) + SpellAll(p, one);
      var cut := size + |Code(p, a)|;
      assert data[..cut] == SpellAll(p, done + one) && data[cut..] == SpellAll(p, one);
    } else {
      left := run;
      CutBefore(p, maxlen, done, run, tail);
      assert data[..size] == SpellAll(p, done) && data[size..] == SpellAll(p, run);
    }
  }

  /** Nothing fits in no room, and everything fits where there is room for everything. */
  lemma FittingEnds(p: Prefixes, us: seq<Unit>, tail: seq<Unit>, maxlen: nat)
    requires AllCountable(us) && AllCountable(tail) && |SpellAll(p, us)| <= maxlen
    requires |SpellAll(p, us)| == maxlen || tail == []
    ensures Fitting(p, us + tail, maxlen) == |us|
    ensures (us + tail)[..|us|] == us && (us + tail)[|us|..] == tail
  {
    FittingAppend(p, us, tail, maxlen);
  }

  /** A packet that is exactly full, or that ends the file, leaves nothing over. */
  lemma CutAfter(p: Prefixes, maxlen: nat, done: seq<Unit>, tail: seq<Unit>)
    requires AllCountable(done) && AllCountable(tail) && 0 < |SpellAll(p, done)| <= maxlen
    requires |SpellAll(p, done)| == maxlen || tail == []
    ensures Cut(p, maxlen, done + tail, SpellAll(p, done), [], [], tail)
  {
    FittingEnds(p, done, tail, maxlen);
    assert [] + tail == tail;
  }

  /** The packet ends with this octet: it is full, overflows, or the file is over. */
  lemma FillStops(p: Prefixes, maxlen: nat, done: seq<Unit>, s: Encoding, cur: byte, rest: seq<byte>)
    returns (left: seq<Unit>)
    requires maxlen >= Room(p) && AllCountable(done)
    requires s.data == SpellAll(p, done) && s.osize == |s.data| && Fits(p, maxlen, |s.data|)
    requires s.rpt < MAX_RUN && (s.rpt > 0 ==> p.rptOn) && !Counts(p, s.rpt, cur, rest)
    requires rest == [] || |s.data| + |SpellAll(p, RunUnits(cur, s.rpt + 1))| >= maxlen
    ensures var us, r := done + Units(p, Rep(cur, s.rpt + 1) + rest), Fill(p, maxlen, s, cur, rest);
            Cut(p, maxlen, us, r.data, r.src.remain, left, Units(p, r.src.Ahead()))
  {
    hide Code, Spell, Fitting, RunUnits, Chunk, Cut;
    var run, tail := RunUnits(cur, s.rpt + 1), Units(p, rest);
    EncodeEmits(p, maxlen, s, cur, rest);
    NextAhead(rest);
    if |s.data| + |SpellAll(p, run)| > maxlen {
      left := Overflow(p, maxlen, done, cur, s.rpt + 1, tail);
    } else {
      left := [];
      SpellAppend(p, done, run);
      CutAfter(p, maxlen, done + run, tail);
      assert done + (run + tail) == done + run + tail;
    }
  }

  /** One packet of getpkt() holds exactly the units that fit, and what is left over is whole units. */
  lemma {:induction false} FillIsGreedy(p: Prefixes, maxlen: nat, done: seq<Unit>, s: Encoding, cur: byte, rest: seq<byte>)
    returns (left: seq<Unit>)
    requires maxlen >= Room(p) && AllCountable(done)
    requires s.data == SpellAll(p, done) && s.osize == |s.data| && Fits(p, maxlen, |s.data|)
    requires s.rpt < MAX_RUN && (s.rpt > 0 ==> p.rptOn)
    ensures var us, r := done + Units(p, Rep(cur, s.rpt + 1) + rest), Fill(p, maxlen, s, cur, rest);
            Cut(p, maxlen, us, r.data, r.src.remain, left, Units(p, r.src.Ahead()))
    decreases |rest|
  {
    hide Code, Spell, Units, SpellAll, Fitting, RunUnits, Chunk, Cut;
    var n := s.rpt + 1;
    var run := RunUnits(cur, n);
    if Counts(p, s.rpt, cur, rest) {
      assert Rep(cur, n) + rest == Rep(rest[0], n + 1) + rest[1..];
      left := FillIsGreedy(p, maxlen, done, s.(rpt := n), rest[0], rest[1..]);
    } else if rest == [] || |s.data| + |SpellAll(p, run)| >= maxlen {
      left := FillStops(p, maxlen, done, s, cur, rest);
    } else {
      EncodeEmits(p, maxlen, s, cur, rest);
      SpellAppend(p, done, run);
      NextAhead(rest);
      assert done + (run + Units(p, rest)) == done + run + Units(p, rest);
      left := FillIsGreedy(p, maxlen, done + run,
                           Encoding(s.data + SpellAll(p, run), |s.data + SpellAll(p, run)|, 0), rest[0], rest[1..]);
    }
  }

  lemma NextAhead(rest: seq<byte>)
    ensures rest != [] ==> [rest[0]] + rest[1..] == rest && Rep(rest[0], 1) + rest[1..] == rest
  {
  }

  /** The units a source still has to send, given those in its leftover. */
  function Owed(p: Prefixes, s: Source, left: seq<Unit>): (us: seq<Unit>)
    requires AllCountable(left)
    ensures AllCountable(us)
  {
    left + Units(p, s.Ahead())
  }

  lemma GetPktIsGreedy(p: Prefixes, maxlen: nat, s: Source, left: seq<Unit>) returns (left': seq<Unit>)
    requires maxlen >= Room(p) && s.Valid() && AllCountable(left)
    requires s.remain == SpellAll(p, left) && Fits(p, maxlen, |s.remain|)
    ensures var r := GetPkt(p, maxlen, s);
            Cut(p, maxlen, Owed(p, s, left), r.data, r.src.remain, left', Units(p, r.src.Ahead()))
  {
    var us := Owed(p, s, left);
    if s.first == -1 || s.Ahead() == [] {
      FittingEnds(p, left, [], maxlen);
      assert us == left + [];
      left' := [];
    } else {
      NextAhead(s.Ahead());
      left' := FillIsGreedy(p, maxlen, left, Encoding(s.remain, |s.remain|, 0), s.Ahead()[0], s.Ahead()[1..]);
    }
  }

  /** With enough room a packet is empty only when nothing is owed. */
  lemma FirstFits(p: Prefixes, us: seq<Unit>, maxlen: nat)
    requires maxlen >= Room(p) && Spellable(p, us) && us != []
    ensures Fitting(p, us, maxlen) > 0
  {
    assert us[0] in us;
  }

  lemma {:induction false} SpellEmpty(p: Prefixes, us: seq<Unit>)
    requires AllCountable(us)
    ensures SpellAll(p, us) == [] <==> us == []
  {
  }

  /** All packets of a file, from any point on. */
  lemma {:induction false} SendAllIsGreedy(p: Prefixes, maxlen: nat, s: Source, left: seq<Unit>)
    requires maxlen >= Room(p) && s.Valid() && Spellable(p, left)
    requires s.remain == SpellAll(p, left) && Fits(p, maxlen, |s.remain|)
    ensures SendAll(p, maxlen, s) == SpellEach(p, Split(p, Owed(p, s, left), maxlen))
    decreases s.Weight()
  {
    hide Code, Spell, Fitting, RunUnits, Chunk, Units, Fill, GetPkt;
    var us, r := Owed(p, s, left), GetPkt(p, maxlen, s);
    var k := Fitting(p, us, maxlen);
    var left' := GetPktIsGreedy(p, maxlen, s, left);
    UnitsSpellable(p, s.Ahead());
    assert Spellable(p, us);
    SpellEmpty(p, us[..k]);
    if us != [] {
      FirstFits(p, us, maxlen);
      assert Spellable(p, left') by {
        assert forall u <- left' :: u in us[k..];
      }
      SendAllIsGreedy(p, maxlen, r.src, left');
    }
  }

  /** getpkt(), called until it returns nothing, cuts the file's units as Split does. */
  lemma PacketsAreGreedy(p: Prefixes, maxlen: nat, f: seq<byte>)
    requires maxlen >= Room(p)
    ensures SendAll(p, maxlen, Start(f)) == SpellEach(p, Split(p, Units(p, f), maxlen))
  {
    assert Owed(p, Start(f), []) == Units(p, f);
    SendAllIsGreedy(p, maxlen, Start(f), []);
  }
}

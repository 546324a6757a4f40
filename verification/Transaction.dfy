/**
 * The transaction table of gproto.w after the parameters are agreed: what the
 * sender sends next when a packet is acknowledged, and what the receiver does
 * with a packet of the right number.
 */
module Transaction {
  import opened Wrappers
  import opened Bytes
  import opened Codec
  import opened Packets
  import opened RoundTrip
  import opened TextMode
  import opened Parity
  import opened Framing
  import opened Stations

  const FILE: byte := 70   // F
  const ATTR: byte := 65   // A
  const DATA: byte := 68   // D
  const EOF: byte := 90    // Z
  const EOT: byte := 66    // B
  const CANCEL: byte := 88 // X

  /** The file header, its attributes as sattr() puts them, and the content of one file to send. */
  datatype Job = Job(name: seq<byte>, attrs: seq<byte>, content: seq<byte>)

  /** What both ends have agreed on. */
  datatype Config = Config(m: LineMode, p: Prefixes, text: bool, maxsiz: nat, attributes: bool)

  datatype Pkt = Pkt(kind: byte, data: seq<byte>)

  // -------------------------------------------------------------- the sender

  datatype Phase = SsFil | SsAtt | SsDat | SsEof | SsEot

  /** The state, the file being sent, the files after it, and the cancellation flags. */
  datatype Sending = Sending(phase: Phase, src: Source, current: Job, left: seq<Job>, cx: bool, cz: bool)

  datatype Move = Move(pkt: Pkt, st: Sending)

  /** gnfile() and sfile(), or seot() if there is no file left. */
  function NextFile(c: Config, st: Sending): Move {
    if st.cz || st.left == [] then Move(Pkt(EOT, []), st.(phase := SsEot))
    else
      var job := st.left[0];
      Move(Pkt(FILE, job.name), st.(phase := SsFil, src := Start(Delivered(c.text, job.content)), current := job, left := st.left[1..]))
  }

  /** sdata(), or seof() if it has nothing to send. */
  function NextData(c: Config, st: Sending, discard: bool): Move
    requires st.src.Valid()
  {
    var r := GetPkt(c.p, c.maxsiz, st.src);
    if st.cx || st.cz then Move(Pkt(EOF, if discard then [DATA] else []), st.(phase := SsEof))
    else if r.data == [] then Move(Pkt(EOF, []), st.(phase := SsEof, src := r.src))
    else Move(Pkt(DATA, r.data), st.(phase := SsDat, src := r.src))
  }

  /** The first character of a data field, which is NUL-terminated. */
  function First(data: seq<byte>): byte {
    if data == [] then NUL else data[0]
  }

  /** The sending rules for 'Y'. Nothing follows the acknowledgement of EOT. */
  function AfterAck(c: Config, st: Sending, data: seq<byte>): Option<Move>
    requires st.src.Valid()
  {
    match st.phase
    case SsFil =>
      Some(if c.attributes then Move(Pkt(ATTR, st.current.attrs), st.(phase := SsAtt)) else NextData(c, st, false))
    case SsAtt =>
      Some(if First(data) == NAK then Move(Pkt(EOF, [DATA]), st.(phase := SsEof)) else NextData(c, st, false))
    case SsDat =>
      Some(NextData(c, st.(cx := st.cx || First(data) == CANCEL, cz := st.cz || First(data) == EOF), true))
    case SsEof => Some(NextFile(c, st))
    case SsEot => None
  }

  // ------------------------------------------------------------ the receiver

  datatype Stage = SrFil | SrAtt | SrDat | Ended

  datatype Stored = Stored(name: seq<byte>, content: seq<byte>)

  /** The state, the files closed, and the one being written. */
  datatype Receiving = Receiving(stage: Stage, done: seq<Stored>, name: seq<byte>, out: seq<byte>, cx: bool)

  /** closof(): keeps the file unless it is to be discarded. */
  function Close(r: Receiving, data: seq<byte>): Receiving {
    var cx := r.cx || First(data) == DATA;
    r.(stage := SrFil, cx := cx, done := if cx then r.done else r.done + [Stored(r.name, r.out)])
  }

  /** The receiving rules: None is the rule for anything unexpected, or a decoding error. */
  function Deliver(c: Config, r: Receiving, pkt: Pkt): Option<Receiving> {
    match r.stage
    case SrFil =>
      if pkt.kind == EOT then Some(r.(stage := Ended))
      else if pkt.kind == FILE then Some(r.(stage := SrAtt, name := pkt.data, out := [], cx := false))
      else None
    case Ended => None
    case _ =>
      if pkt.kind == ATTR && r.stage == SrAtt then Some(r)
      else if pkt.kind == DATA then
        var d := Decode(c.p, c.text, pkt.data, 0);
        if d.ok then Some(r.(stage := SrDat, out := r.out + d.out)) else None
      else if pkt.kind == EOF then Some(Close(r, pkt.data))
      else None
  }

  /** What the receiver's acknowledgement of a packet may carry. */
  predicate AckFor(kind: byte, data: seq<byte>) {
    if kind == FILE then true else if kind == ATTR then data == [] || data == [34] else data == []
  }

  // --------------------------------------------------------- both in step

  function Expected(jobs: seq<Job>): (r: seq<Stored>)
    ensures |r| == |jobs|
    ensures forall i :: 0 <= i < |jobs| ==> r[i] == Stored(jobs[i].name, jobs[i].content)
  {
    seq(|jobs|, i requires 0 <= i < |jobs| => Stored(jobs[i].name, jobs[i].content))
  }

  predicate SendsFile(st: Sending) {
    st.phase == SsFil || st.phase == SsAtt || st.phase == SsDat
  }

  // ------------------------------------------------------------- the script

  function DataPackets(fields: seq<seq<byte>>): (r: seq<Pkt>)
    ensures |r| == |fields| && forall i :: 0 <= i < |r| ==> r[i] == Pkt(68, fields[i])
  {
    seq(|fields|, i requires 0 <= i < |fields| => Pkt(68, fields[i]))
  }

  /** The packets of one file: header, attributes if they are agreed on, data, end. */
  function FileScript(c: Config, job: Job): seq<Pkt> {
    [Pkt(70, job.name)] + (if c.attributes then [Pkt(65, job.attrs)] else [])
    + DataPackets(Sent(c.p, c.maxsiz, Delivered(c.text, job.content))) + [Pkt(90, [])]
  }

  /** All packets that the sending of these files takes, and the end of the transmission. */
  function Script(c: Config, jobs: seq<Job>): seq<Pkt> {
    if jobs == [] then [Pkt(66, [])] else FileScript(c, jobs[0]) + Script(c, jobs[1..])
  }

  /** The part of it that the sender has before it. */
  ghost function Ahead(c: Config, st: Sending): seq<Pkt>
    requires st.src.Valid()
  {
    match st.phase
    case SsFil => (if c.attributes then [Pkt(65, st.current.attrs)] else []) + RestOfFile(c, st)
    case SsAtt => RestOfFile(c, st)
    case SsDat => RestOfFile(c, st)
    case SsEof => Script(c, st.left)
    case SsEot => []
  }

  ghost function RestOfFile(c: Config, st: Sending): seq<Pkt>
    requires st.src.Valid()
  {
    DataPackets(SendAll(c.p, c.maxsiz, st.src)) + [Pkt(90, [])] + Script(c, st.left)
  }

  /** What has been sent and what is ahead are the script. */
  ghost predicate OnScript(c: Config, jobs: seq<Job>, sent: seq<Pkt>, st: Sending) {
    st.src.Valid() && sent + Ahead(c, st) == Script(c, jobs)
  }

  /** The files the receiver has yet to close. */
  function Pending(st: Sending): seq<Stored> {
    (if SendsFile(st) then [Stored(st.current.name, st.current.content)] else []) + Expected(st.left)
  }

  function KindOf(phase: Phase): byte {
    match phase
    case SsFil => FILE
    case SsAtt => ATTR
    case SsDat => DATA
    case SsEof => EOF
    case SsEot => EOT
  }

  function StageOf(phase: Phase): Stage {
    match phase
    case SsFil => SrAtt
    case SsAtt => SrAtt
    case SsDat => SrDat
    case SsEof => SrFil
    case SsEot => Ended
  }

  /** A file that can be sent and will arrive whole. */
  predicate Healthy(c: Config, job: Job) {
    && Sendable(c.m, FILE, job.name) && Sendable(c.m, ATTR, job.attrs)
    && (c.text ==> CR !in job.content)
  }

  predicate ValidConfig(c: Config) {
    && c.m.Valid() && c.m.spadn == 0
    && c.p.Usable() && c.maxsiz >= Room(c.p) && c.maxsiz + c.m.bctu + 7 <= MAX_PACKET
    && (c.m.par.NoParity? || c.p.ebqOn)
  }

  /** The data fields still to come can be sent, and decode to the given text. */
  predicate Promises(c: Config, src: Source, rest: seq<byte>) {
    && src.Valid()
    && var packets := SendAll(c.p, c.maxsiz, src);
    && DecodeEach(c.p, c.text, packets) == Decoded(rest, true)
    && forall d <- packets :: Sendable(c.m, DATA, d)
  }

  /** The receiver has taken everything the sender has sent: together they hold all of the files. */
  ghost predicate InStep(c: Config, jobs: seq<Job>, st: Sending, r: Receiving) {
    && r.done + Pending(st) == Expected(jobs)
    && r.stage == StageOf(st.phase)
    && !r.cx && !st.cx && !st.cz && st.src.Valid()
    && (forall job <- st.left :: Healthy(c, job))
    && (SendsFile(st) ==>
        && Healthy(c, st.current) && r.name == st.current.name
        && r.out <= st.current.content && Promises(c, st.src, st.current.content[|r.out|..]))
    && (st.phase == SsEot ==> st.left == [])
  }

  // ------------------------------------------------------------------ lemmas

  lemma QuotedCarried(p: Prefixes, b: byte)
    requires p.InRange()
    ensures forall i :: 0 <= i < |Quoted(p, b)| ==> Quoted(p, b)[i] != ETX
  {
  }

  lemma CodeCarried(p: Prefixes, par: Parity, a: byte)
    requires p.InRange() && (par.NoParity? || p.ebqOn)
    ensures Carried(par, Code(p, a))
  {
    if p.ebqOn {
      CodePrintable(p, a);
      hide Code;
      PrintableCarried(par, Code(p, a));
    } else {
      QuotedCarried(p, a);
    }
  }

  /** Encoded data goes through the line: with parity, because 8th-bit prefixing is on. */
  lemma {:induction false} EncodedCarried(p: Prefixes, par: Parity, us: seq<Unit>)
    requires p.InRange() && (par.NoParity? || p.ebqOn) && Spellable(p, us)
    ensures Carried(par, SpellAll(p, us))
  {
    hide Code;
    if us != [] {
      assert us[0] in us;
      CodeCarried(p, par, us[0].ch);
      EncodedCarried(p, par, us[1..]);
    }
  }

  lemma {:induction false} PacketsCarried(p: Prefixes, par: Parity, us: seq<Unit>, maxlen: nat)
    requires p.InRange() && (par.NoParity? || p.ebqOn) && Spellable(p, us)
    ensures forall d <- SpellEach(p, Split(p, us, maxlen)) :: Carried(par, d)
    decreases |us|
  {
    hide Code, Spell, SpellAll, Fitting;
    if us != [] {
      var k := Fitting(p, us, maxlen);
      if k > 0 {
        EncodedCarried(p, par, us[..k]);
        PacketsCarried(p, par, us[k..], maxlen);
        assert SpellEach(p, Split(p, us, maxlen)) == [SpellAll(p, us[..k])] + SpellEach(p, Split(p, us[k..], maxlen));
      }
    }
  }

  /** A healthy file, freshly opened, promises its content. */
  lemma FilePromises(c: Config, job: Job)
    requires ValidConfig(c) && Healthy(c, job)
    ensures Promises(c, Start(Delivered(c.text, job.content)), job.content)
  {
    var f := Delivered(c.text, job.content);
    var packets := Sent(c.p, c.maxsiz, f);
    UnitsSpellable(c.p, f);
    if c.text {
      TextRoundTripExactly(c.p, c.maxsiz, job.content);
      CrLfReturnsApart(job.content);
      ReturnsSentSingly(c.p, f);
    }
    FileRoundTrip(c.p, c.text, c.maxsiz, f);
    PacketsAreGreedy(c.p, c.maxsiz, f);
    PacketsCarried(c.p, c.m.par, Units(c.p, f), c.maxsiz);
    assert Carried(c.m.par, [DATA]);
  }

  /** A kept promise is about one packet less. */
  lemma PromiseKept(c: Config, src: Source, rest: seq<byte>)
    requires Promises(c, src, rest) && GetPkt(c.p, c.maxsiz, src).data != []
    ensures var got := GetPkt(c.p, c.maxsiz, src);
            var d := Decode(c.p, c.text, got.data, 0);
            && d.ok && d.out <= rest && Sendable(c.m, DATA, got.data)
            && Promises(c, got.src, rest[|d.out|..])
  {
    hide Decode, GetPkt, Sendable;
    var got := GetPkt(c.p, c.maxsiz, src);
    var packets, later := SendAll(c.p, c.maxsiz, src), SendAll(c.p, c.maxsiz, got.src);
    assert packets == [got.data] + later;
    assert packets[0] == got.data && packets[1..] == later;
    assert forall q <- later :: q in packets;
  }

  /** No packet left means no text left. */
  lemma PromiseOver(c: Config, src: Source, rest: seq<byte>)
    requires Promises(c, src, rest) && GetPkt(c.p, c.maxsiz, src).data == []
    ensures rest == []
  {
    hide Decode, GetPkt, Sendable;
  }

  /** Sending the file's next packet, or its end, keeps the promise. */
  lemma DataAdvances(c: Config, jobs: seq<Job>, st: Sending, r: Receiving, discard: bool)
    requires ValidConfig(c) && InStep(c, jobs, st, r) && SendsFile(st)
    ensures var mv := NextData(c, st, discard);
            var d := Deliver(c, r, mv.pkt);
            && Sendable(c.m, mv.pkt.kind, mv.pkt.data) && mv.pkt.kind == KindOf(mv.st.phase)
            && d.Some? && InStep(c, jobs, mv.st, d.value)
  {
    hide Decode, GetPkt, Sendable, ValidConfig, Healthy, Promises;
    var got := GetPkt(c.p, c.maxsiz, st.src);
    var content, k := st.current.content, |r.out|;
    if got.data == [] {
      PromiseOver(c, st.src, content[k..]);
      assert r.out == content;
      EofSendable(c);
      var now, later := [Stored(st.current.name, content)], Expected(st.left);
      assert r.done + (now + later) == r.done + now + ([] + later);
    } else {
      PromiseKept(c, st.src, content[k..]);
      var d := Decode(c.p, c.text, got.data, 0);
      assert r.out + d.out <= content;
      assert content[|r.out + d.out|..] == content[k..][|d.out|..];
    }
  }

  lemma EofSendable(c: Config)
    requires ValidConfig(c)
    ensures Sendable(c.m, EOF, []) && Sendable(c.m, EOT, [])
  {
    MessageSendable(c.m, EOF, []);
    MessageSendable(c.m, EOT, []);
  }

  /** The next file header, or the end of the transmission. */
  lemma FileAdvances(c: Config, jobs: seq<Job>, st: Sending, r: Receiving)
    requires ValidConfig(c) && InStep(c, jobs, st, r) && st.phase == SsEof
    ensures var mv := NextFile(c, st);
            var d := Deliver(c, r, mv.pkt);
            && Sendable(c.m, mv.pkt.kind, mv.pkt.data) && mv.pkt.kind == KindOf(mv.st.phase)
            && d.Some? && InStep(c, jobs, mv.st, d.value)
  {
    hide Decode, GetPkt, Sendable, ValidConfig, Promises;
    if st.left == [] {
      EofSendable(c);
    } else {
      var job := st.left[0];
      assert job in st.left;
      FilePromises(c, job);
      assert job.content[0..] == job.content;
      assert [] + Expected(st.left) == [Stored(job.name, job.content)] + Expected(st.left[1..]);
      assert forall j <- st.left[1..] :: j in st.left;
    }
  }

  lemma DataFollowsScript(c: Config, st: Sending, discard: bool)
    requires st.src.Valid() && !st.cx && !st.cz
    ensures var mv := NextData(c, st, discard); mv.st.src.Valid() && RestOfFile(c, st) == [mv.pkt] + Ahead(c, mv.st)
  {
    hide GetPkt, Script;
    var r := GetPkt(c.p, c.maxsiz, st.src);
    var after := [Pkt(90, [])] + Script(c, st.left);
    if r.data != [] {
      var later := SendAll(c.p, c.maxsiz, r.src);
      assert DataPackets([r.data] + later) == [Pkt(68, r.data)] + DataPackets(later);
    } else {
      assert DataPackets([]) == [];
    }
  }

  lemma FileFollowsScript(c: Config, st: Sending)
    requires st.src.Valid() && !st.cz
    ensures var mv := NextFile(c, st); mv.st.src.Valid() && Script(c, st.left) == [mv.pkt] + Ahead(c, mv.st)
  {
    hide GetPkt, SendAll, Script, DataPackets;
    ScriptStep(c, st.left);
    if st.left != [] {
      var job := st.left[0];
      var a := if c.attributes then [Pkt(65, job.attrs)] else [];
      var d := DataPackets(SendAll(c.p, c.maxsiz, Start(Delivered(c.text, job.content))));
      var z, later := [Pkt(90, [])], Script(c, st.left[1..]);
      assert [Pkt(70, job.name)] + a + d + z + later == [Pkt(70, job.name)] + (a + (d + z + later));
    }
  }

  lemma ScriptStep(c: Config, jobs: seq<Job>)
    ensures Script(c, jobs) == if jobs == [] then [Pkt(66, [])] else FileScript(c, jobs[0]) + Script(c, jobs[1..])
  {
  }

  /** An acknowledgement that asks for the file, or all files, to be given up: N for the attributes, X or Z for data. */
  predicate Objects(phase: Phase, data: seq<byte>) {
    (phase == SsAtt && First(data) == 78) || (phase == SsDat && (First(data) == 88 || First(data) == 90))
  }

  /** Whatever else an acknowledgement holds, the packet that follows is the next one of the script. */
  lemma AckFollowsScript(c: Config, st: Sending, data: seq<byte>)
    requires st.src.Valid() && !st.cx && !st.cz && !Objects(st.phase, data) && st.phase != SsEot
    ensures AfterAck(c, st, data).Some?
    ensures var mv := AfterAck(c, st, data).value; mv.st.src.Valid() && Ahead(c, st) == [mv.pkt] + Ahead(c, mv.st)
  {
    hide GetPkt, NextData, NextFile, Script, RestOfFile;
    if st.phase == SsEof {
      FileFollowsScript(c, st);
    } else if st.phase == SsDat {
      assert st.(cx := false, cz := false) == st;
      DataFollowsScript(c, st, true);
    } else {
      DataFollowsScript(c, st, false);
      AttributesFirst(c, st);
    }
  }

  /** The packet after an acknowledgement is the next of the script. */
  lemma ScriptGoesOn(c: Config, jobs: seq<Job>, sent: seq<Pkt>, st: Sending, r: Receiving, data: seq<byte>)
    requires OnScript(c, jobs, sent, st) && InStep(c, jobs, st, r)
    requires AckFor(KindOf(st.phase), data) && st.phase != SsEot
    ensures AfterAck(c, st, data).Some?
    ensures var mv := AfterAck(c, st, data).value; OnScript(c, jobs, sent + [mv.pkt], mv.st)
  {
    hide AfterAck, Ahead, Script, Healthy, Promises;
    AckFollowsScript(c, st, data);
    var mv := AfterAck(c, st, data).value;
    assert sent + ([mv.pkt] + Ahead(c, mv.st)) == sent + [mv.pkt] + Ahead(c, mv.st);
  }

  /** It starts with the first header, or the end. */
  lemma ScriptStarts(c: Config, jobs: seq<Job>, idle: Sending)
    requires idle.src.Valid() && !idle.cz && idle.left == jobs
    ensures var mv := NextFile(c, idle); OnScript(c, jobs, [mv.pkt], mv.st)
  {
    hide Ahead, Script, NextFile;
    FileFollowsScript(c, idle);
  }

  /** Never more has been sent than the script says, and at its end all of it. */
  lemma ScriptIsKept(c: Config, jobs: seq<Job>, sent: seq<Pkt>, st: Sending)
    requires OnScript(c, jobs, sent, st)
    ensures sent <= Script(c, jobs) && (st.phase == SsEot ==> sent == Script(c, jobs))
  {
    hide Script;
  }

  lemma AttributesFirst(c: Config, st: Sending)
    requires st.src.Valid()
    ensures RestOfFile(c, st.(phase := SsAtt)) == RestOfFile(c, st) && [] + RestOfFile(c, st) == RestOfFile(c, st)
  {
  }

  /** An acknowledged packet is followed by one the receiver is ready for, and then they are in step again. */
  lemma AckAdvances(c: Config, jobs: seq<Job>, st: Sending, r: Receiving, data: seq<byte>)
    requires ValidConfig(c) && InStep(c, jobs, st, r) && AckFor(KindOf(st.phase), data) && st.phase != SsEot
    ensures AfterAck(c, st, data).Some?
    ensures var mv := AfterAck(c, st, data).value;
            var d := Deliver(c, r, mv.pkt);
            && Sendable(c.m, mv.pkt.kind, mv.pkt.data) && mv.pkt.kind == KindOf(mv.st.phase)
            && d.Some? && InStep(c, jobs, mv.st, d.value)
  {
    hide Decode, NextData, NextFile, Sendable, Promises;
    if st.phase == SsEof {
      FileAdvances(c, jobs, st, r);
    } else if st.phase == SsFil && c.attributes {
    } else if st.phase == SsDat {
      assert st.(cx := false, cz := false) == st;
      DataAdvances(c, jobs, st, r, true);
    } else {
      DataAdvances(c, jobs, st, r, false);
    }
  }
}

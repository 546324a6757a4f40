/** The transfer can succeed: on an undisturbed line it does, for every list of files. */
module Delivery {
  import opened Wrappers
  import opened Bytes
  import opened Packets
  import opened Framing
  import opened Stations
  import opened Transaction
  import opened Protocol
  import opened ProtocolProof

  /** The sender's packet is the only thing on the lines, and the receiver waits for it. */
  ghost predicate Fresh(c: Config, jobs: seq<Job>, s: System)
    requires ValidConfig(c)
  {
    && Safe(c, jobs, s) && !CaughtUp(s)
    && s.snd.status == Running && s.rcv.status == Running
    && s.fwd == [s.snd.sndpkt] && s.back == []
  }

  function Rank(phase: Phase): nat {
    match phase
    case SsFil => 4
    case SsAtt => 3
    case SsDat => 2
    case SsEof => 1
    case SsEot => 0
  }

  function Load(st: Sending): nat {
    if st.src.Valid() then st.src.Weight() else 0
  }

  /** The receiver takes the packet and acknowledges it. */
  function Taken(c: Config, s: System, rs: Receiving): System
    requires c.m.Valid() && c.m.spadn == 0 && s.rcv.num < 64
  {
    MessageSendable(c.m, ACK, []);
    var act := Send(c.m, s.rcv, ACK, []);
    s.(fwd := [], back := act.out, rs := rs, accepted := s.accepted + [s.pkt],
       rcv := NxtPkt(act.side).(status := if rs.stage == Ended then Finished else Running))
  }

  lemma FreshFacts(c: Config, jobs: seq<Job>, s: System)
    requires ValidConfig(c) && Fresh(c, jobs, s)
    ensures s.snd.num < 64 && s.rcv.num == s.snd.num && s.rcv.retries <= MAX_TRY
    ensures Sendable(c.m, s.pkt.kind, s.pkt.data) && s.snd.sndpkt == Wire(c.m, s.snd.num, s.pkt.kind, s.pkt.data)
    ensures s.pkt.kind == KindOf(s.st.phase) && s.st.src.Valid() && s.sent == s.accepted + [s.pkt]
    ensures Deliver(c, s.rs, s.pkt).Some? && InStep(c, jobs, s.st, Deliver(c, s.rs, s.pkt).value)
  {
    hide Copies, Replies, Wire, Deliver, Promises, Healthy, Sendable;
    var tf, tb :| Inv(c, jobs, s, tf, tb);
  }

  lemma Takes(c: Config, jobs: seq<Job>, s: System) returns (s': System)
    requires ValidConfig(c) && Fresh(c, jobs, s)
    ensures Next(c, s, s') && Safe(c, jobs, s') && CaughtUp(s')
    ensures s'.snd == s.snd && s'.st == s.st && s'.pkt == s.pkt && s'.fwd == []
    ensures s.snd.num < 64 && Sendable(c.m, ACK, []) && s'.back == [Wire(c.m, s.snd.num, ACK, [])]
    ensures s'.rcv.status == (if s.st.phase == SsEot then Finished else Running)
    ensures s.st.src.Valid() && AckFor(s.pkt.kind, []) && InStep(c, jobs, s'.st, s'.rs) && s.pkt.kind == KindOf(s.st.phase)
  {
    hide Safe, Heard, Resend, Wire, Deliver, Promises, Healthy, Sendable;
    FreshFacts(c, jobs, s);
    MessageSendable(c.m, ACK, []);
    s' := Taken(c, s, Deliver(c, s.rs, s.pkt).value);
    var a := Packet(Good(s.pkt.kind, s.snd.num, s.pkt.data));
    WireCanBeHeard(c.m, s.snd.num, s.pkt.kind, s.pkt.data);
    assert s.fwd[1..] == [] && s.back + s'.back == s'.back;
    assert ReceiverStep(c, s, s', a, []);
    StepKeeps(c, jobs, s, s');
  }

  /** The sender takes the acknowledgement and goes on. */
  function Continued(c: Config, s: System, mv: Move): System
    requires Sendable(c.m, mv.pkt.kind, mv.pkt.data) && s.snd.num < 64
  {
    var act := Send(c.m, NxtPkt(s.snd), mv.pkt.kind, mv.pkt.data);
    s.(snd := act.side, st := mv.st, pkt := mv.pkt, fwd := act.out, back := [], sent := s.sent + [mv.pkt])
  }

  lemma Continues(c: Config, jobs: seq<Job>, s: System, data: seq<byte>) returns (s': System)
    requires ValidConfig(c) && Safe(c, jobs, s) && CaughtUp(s) && s.fwd == []
    requires s.snd.status == Running && s.rcv.status == Running && s.st.phase != SsEot && s.st.src.Valid()
    requires s.snd.num < 64 && s.pkt.kind == KindOf(s.st.phase) && InStep(c, jobs, s.st, s.rs)
    requires AckFor(s.pkt.kind, data) && Sendable(c.m, ACK, data) && s.back == [Wire(c.m, s.snd.num, ACK, data)]
    ensures Next(c, s, s') && Fresh(c, jobs, s')
    ensures AfterAck(c, s.st, data).Some? && s'.st == AfterAck(c, s.st, data).value.st
  {
    hide Copies, Replies, Reply, Copy, Wire, Deliver, Promises, Healthy, InStep, AfterAck, Heard, Safe, Resend, AckFor;
    AckAdvances(c, jobs, s.st, s.rs, data);
    var mv := AfterAck(c, s.st, data).value;
    s' := Continued(c, s, mv);
    var a := Packet(Good(ACK, s.snd.num, data));
    WireCanBeHeard(c.m, s.snd.num, ACK, data);
    assert s.back[1..] == [] && s.fwd + s'.fwd == s'.fwd;
    assert SenderStep(c, s, s', a);
    StepKeeps(c, jobs, s, s');
    AheadByOne(c, jobs, s);
  }

  lemma AheadByOne(c: Config, jobs: seq<Job>, s: System)
    requires ValidConfig(c) && Safe(c, jobs, s) && CaughtUp(s)
    ensures s.snd.num < 64 && s.rcv.num == (s.snd.num + 1) % 64
  {
    hide Copies, Replies, FilesInv;
    var tf, tb :| Inv(c, jobs, s, tf, tb);
  }

  /** Each packet brings the end nearer. */
  lemma Nearer(c: Config, st: Sending)
    requires st.src.Valid() && st.phase != SsEot && !st.cx && !st.cz
    ensures AfterAck(c, st, []).Some?
    ensures var t := AfterAck(c, st, []).value.st;
            || |t.left| < |st.left|
            || (|t.left| == |st.left| && Rank(t.phase) < Rank(st.phase))
            || (|t.left| == |st.left| && Rank(t.phase) == Rank(st.phase) && t.src.Weight() < st.src.Weight())
  {
    hide GetPkt;
  }

  /** The last acknowledgement ends the sender. */
  lemma Ends(c: Config, jobs: seq<Job>, s: System) returns (s': System)
    requires ValidConfig(c) && Safe(c, jobs, s) && s.snd.status == Running && s.st.phase == SsEot && s.st.src.Valid()
    requires s.snd.num < 64 && Sendable(c.m, ACK, []) && s.back == [Wire(c.m, s.snd.num, ACK, [])]
    ensures Next(c, s, s') && s'.rcv == s.rcv && s'.snd.status == Finished
  {
    hide Wire, Heard, Safe, Resend, Sendable;
    s' := s.(snd := s.snd.(status := Finished), back := []);
    WireCanBeHeard(c.m, s.snd.num, ACK, []);
    assert s.back[1..] == [];
    assert SenderStep(c, s, s', Packet(Good(ACK, s.snd.num, [])));
  }

  /** The rest of an undisturbed run. */
  lemma {:induction false} Completes(c: Config, jobs: seq<Job>, states: seq<System>) returns (run: seq<System>)
    requires ValidConfig(c) && Run(c, jobs, states) && Fresh(c, jobs, states[|states| - 1])
    ensures Run(c, jobs, run) && states <= run
    ensures run[|run| - 1].snd.status == Finished && run[|run| - 1].rcv.status == Finished
    decreases |states[|states| - 1].st.left|, Rank(states[|states| - 1].st.phase), Load(states[|states| - 1].st)
  {
    hide Safe, Next, Init, InStep, AfterAck, Wire;
    var s := states[|states| - 1];
    var s1 := Takes(c, jobs, s);
    var with1 := states + [s1];
    if s.st.phase == SsEot {
      var s2 := Ends(c, jobs, s1);
      run := with1 + [s2];
    } else {
      NotCancelled(c, jobs, s1.st, s1.rs);
      Nearer(c, s1.st);
      var s2 := Continues(c, jobs, s1, []);
      SourceStaysValid(c, s1.st);
      run := Completes(c, jobs, with1 + [s2]);
    }
  }

  lemma NotCancelled(c: Config, jobs: seq<Job>, st: Sending, r: Receiving)
    requires InStep(c, jobs, st, r)
    ensures !st.cx && !st.cz
  {
  }

  lemma SourceStaysValid(c: Config, st: Sending)
    requires st.src.Valid()
    ensures AfterAck(c, st, []).Some? ==> AfterAck(c, st, []).value.st.src.Valid()
  {
    hide GetPkt;
  }

  /** For every list of files there is a run at whose end both programs have finished and every file is stored. */
  lemma TransferCanFinish(c: Config, jobs: seq<Job>, s: System) returns (run: seq<System>)
    requires ValidConfig(c) && Init(c, jobs, s)
    ensures Run(c, jobs, run) && run[0] == s
    ensures var last := run[|run| - 1];
            last.snd.status == Finished && last.rcv.status == Finished && last.rs.done == Expected(jobs)
  {
    InitSafe(c, jobs, s);
    run := Completes(c, jobs, [s]);
    TransferIsFaithful(c, jobs, run);
  }

  // ---------------------------------------------- from wherever a run has come

  /** The lines may lose everything that is on them. */
  lemma {:induction false} Silenced(c: Config, jobs: seq<Job>, states: seq<System>) returns (run: seq<System>)
    requires ValidConfig(c) && Run(c, jobs, states)
    ensures Run(c, jobs, run) && states <= run
    ensures run[|run| - 1] == states[|states| - 1].(fwd := [], back := [])
    decreases |states[|states| - 1].fwd| + |states[|states| - 1].back|
  {
    hide Init, SenderStep, ReceiverStep;
    var s := states[|states| - 1];
    if s.fwd != [] {
      var s' := s.(fwd := s.fwd[1..]);
      assert s'.fwd == s.fwd[..0] + s.fwd[1..];
      assert LineStep(c, s, s', 0, []);
      run := Silenced(c, jobs, states + [s']);
    } else if s.back != [] {
      var s' := s.(back := s.back[1..]);
      assert s'.back == s.back[..0] + s.back[1..];
      assert LineStep(c, s, s', 0, []);
      run := Silenced(c, jobs, states + [s']);
    } else {
      run := states;
    }
  }

  /** The end that must speak next may still send its packet again. */
  predicate CanResume(s: System) {
    && s.snd.status == Running && s.rcv.status == Running
    && if CaughtUp(s) then s.rcv.retries < MAX_TRY else s.snd.retries < MAX_TRY
  }

  /** On silent lines the sender times out and sends its packet again. */
  lemma SendsAgain(c: Config, jobs: seq<Job>, s: System) returns (s': System)
    requires ValidConfig(c) && Safe(c, jobs, s) && CanResume(s) && !CaughtUp(s) && s.fwd == [] && s.back == []
    ensures Next(c, s, s') && Fresh(c, jobs, s')
  {
    hide Copies, Replies, Reply, Wire, Deliver, Promises, Healthy, Heard, Sendable;
    var tf, tb :| Inv(c, jobs, s, tf, tb);
    var num, w := s.snd.num, s.snd.sndpkt;
    assert s.st.src.Valid() && w != [];
    s' := s.(snd := s.snd.(retries := s.snd.retries + 1), fwd := [w]);
    assert s.fwd + [w] == [w];
    assert SenderStep(c, s, s', Silence);
    StepKeeps(c, jobs, s, s');
  }

  /** Or, if the receiver has the packet, it times out and sends its acknowledgement again, and the sender goes on. */
  lemma AcknowledgesAgain(c: Config, jobs: seq<Job>, s: System) returns (s1: System, s2: System)
    requires ValidConfig(c) && Safe(c, jobs, s) && CanResume(s) && CaughtUp(s) && s.fwd == [] && s.back == []
    ensures Next(c, s, s1) && Next(c, s1, s2) && Fresh(c, jobs, s2)
  {
    hide Copies, Replies, Reply, Wire, Deliver, Promises, Healthy, Heard, Sendable, Safe, AckFor;
    var data := HeldAck(c, jobs, s);
    var w := s.rcv.sndpkt;
    s1 := s.(rcv := s.rcv.(retries := s.rcv.retries + 1), back := [w]);
    assert s.back + [w] == [w];
    assert ReceiverStep(c, s, s1, Silence, []);
    StepKeeps(c, jobs, s, s1);
    s2 := Continues(c, jobs, s1, data);
  }

  lemma HeldAck(c: Config, jobs: seq<Job>, s: System) returns (data: seq<byte>)
    requires ValidConfig(c) && Safe(c, jobs, s) && CaughtUp(s) && s.rcv.status == Running
    ensures s.snd.num < 64 && s.rcv.num < 64 && AckFor(s.pkt.kind, data) && Sendable(c.m, ACK, data)
    ensures s.rcv.sndpkt == Wire(c.m, s.snd.num, ACK, data) && s.rcv.sndpkt != []
    ensures s.pkt.kind == KindOf(s.st.phase) && s.st.phase != SsEot && s.st.src.Valid() && InStep(c, jobs, s.st, s.rs)
  {
    hide Copies, Replies, Reply, Wire, Deliver, Promises, Healthy, Sendable, AckFor;
    var tf, tb :| Inv(c, jobs, s, tf, tb);
    data :| AckFor(s.pkt.kind, data) && Sendable(c.m, ACK, data) && s.rcv.sndpkt == Wire(c.m, s.snd.num, ACK, data);
  }

  lemma Resumed(c: Config, jobs: seq<Job>, states: seq<System>) returns (run: seq<System>)
    requires ValidConfig(c) && Run(c, jobs, states) && CanResume(states[|states| - 1])
    requires states[|states| - 1].fwd == [] && states[|states| - 1].back == []
    ensures Run(c, jobs, run) && states <= run && Fresh(c, jobs, run[|run| - 1])
  {
    hide Safe, Init, Next;
    RunSafe(c, jobs, states);
    var s := states[|states| - 1];
    if CaughtUp(s) {
      var s1, s2 := AcknowledgesAgain(c, jobs, s);
      run := states + [s1] + [s2];
    } else {
      var s' := SendsAgain(c, jobs, s);
      run := states + [s'];
    }
  }

  /**
   * However a run has gone, as long as both programs are running and the one that
   * must speak next has not used up its last retry, it can still end with every
   * file stored.
   */
  lemma TransferCanResume(c: Config, jobs: seq<Job>, states: seq<System>) returns (run: seq<System>)
    requires ValidConfig(c) && Run(c, jobs, states) && CanResume(states[|states| - 1])
    ensures Run(c, jobs, run) && states <= run
    ensures var last := run[|run| - 1];
            last.snd.status == Finished && last.rcv.status == Finished && last.rs.done == Expected(jobs)
  {
    hide Fresh, Run, Script;
    RunNotEmpty(c, jobs, states);
    var quiet := Silenced(c, jobs, states);
    RunNotEmpty(c, jobs, quiet);
    var speaking := Resumed(c, jobs, quiet);
    RunNotEmpty(c, jobs, speaking);
    run := Completes(c, jobs, speaking);
    RunNotEmpty(c, jobs, run);
    TransferIsFaithful(c, jobs, run);
  }

  lemma RunNotEmpty(c: Config, jobs: seq<Job>, states: seq<System>)
    requires ValidConfig(c) && Run(c, jobs, states)
    ensures states != []
  {
  }

  /** There is such a beginning for every list of files that can be sent. */
  lemma TransferCanStart(c: Config, jobs: seq<Job>, num: nat) returns (s: System)
    requires ValidConfig(c) && (forall job <- jobs :: Healthy(c, job)) && num < 64
    ensures Init(c, jobs, s) && s.snd.num == num
  {
    hide Wire, Reply;
    var mv := NextFile(c, Sending(SsEof, Start([]), Job([], [], []), jobs, false, false));
    MessageSendable(c.m, EOT, []);
    if jobs != [] {
      assert jobs[0] in jobs && Healthy(c, jobs[0]);
      assert mv.pkt == Pkt(FILE, jobs[0].name);
    }
    var wire := Wire(c.m, num, mv.pkt.kind, mv.pkt.data);
    s := System(Side(num, 0, wire, Running), mv.st, mv.pkt, Side(num, 0, [], Running),
                Receiving(SrFil, [], [], [], false), [wire], [], [mv.pkt], []);
  }
}

/** Every step keeps the invariant; what it says of every state a run can reach. */
module ProtocolProof {
  import opened Wrappers
  import opened Bytes
  import opened Packets
  import opened Framing
  import opened Stations
  import opened Transaction
  import opened Protocol

  // --------------------------------------------------------------- listening

  /** What is heard from the front of the forward line, and what is left behind it. */
  lemma ListenToCopies(m: LineMode, num: nat, pkt: Pkt, q: seq<seq<byte>>, tags: seq<bool>, a: Arrival, q': seq<seq<byte>>)
    returns (tags': seq<bool>, t: bool)
    requires m.Valid() && Copies(m, num, pkt, q, tags) && Listens(m, q, a, q')
    ensures Copies(m, num, pkt, q', tags')
    ensures forall x :: AllTags(tags, x) ==> AllTags(tags', x)
    ensures a.Packet? && a.r.Good? ==>
              FromSender(num, pkt, a.r, t) && (t ==> AllTags(tags', true)) && (forall x :: AllTags(tags, x) ==> t == x)
  {
    hide Heard, FromSender;
    if a == Silence && q' == q {
      tags', t := tags, true;
    } else {
      assert Copy(m, num, pkt, q[0], tags[0]);
      tags', t := tags[1..], tags[0];
    }
  }

  lemma ListenToReplies(m: LineMode, num: nat, pkt: Pkt, q: seq<seq<byte>>, tags: seq<bool>, a: Arrival, q': seq<seq<byte>>)
    returns (tags': seq<bool>, t: bool)
    requires m.Valid() && Replies(m, num, pkt, q, tags) && Listens(m, q, a, q')
    ensures Replies(m, num, pkt, q', tags')
    ensures forall x :: AllTags(tags, x) ==> AllTags(tags', x)
    ensures a.Packet? && a.r.Good? ==>
              FromReceiver(num, pkt, a.r, t) && (t ==> AllTags(tags', true)) && (forall x :: AllTags(tags, x) ==> t == x)
  {
    hide Heard, FromReceiver;
    if a == Silence && q' == q {
      tags', t := tags, true;
    } else {
      assert Reply(m, num, pkt, q[0], tags[0]);
      tags', t := tags[1..], tags[0];
    }
  }

  function Same(n: nat, t: bool): (r: seq<bool>)
    ensures |r| == n && AllTags(r, t) && Ordered(r)
  {
    seq(n, _ => t)
  }

  lemma CopiesAge(m: LineMode, num: nat, pkt: Pkt, pkt': Pkt, q: seq<seq<byte>>, tags: seq<bool>)
    requires m.Valid() && num < 64 && Copies(m, num, pkt, q, tags) && AllTags(tags, true)
    ensures Copies(m, (num + 1) % 64, pkt', q, Same(|q|, false))
  {
    hide Copy;
    forall i | 0 <= i < |q|
      ensures Copy(m, (num + 1) % 64, pkt', q[i], false)
    {
      assert Copy(m, num, pkt, q[i], tags[i]);
      Ages(m, num, pkt, pkt', q[i]);
    }
  }

  lemma RepliesAge(m: LineMode, num: nat, pkt: Pkt, pkt': Pkt, q: seq<seq<byte>>, tags: seq<bool>)
    requires m.Valid() && num < 64 && Replies(m, num, pkt, q, tags) && AllTags(tags, true)
    ensures Replies(m, (num + 1) % 64, pkt', q, Same(|q|, false))
  {
    hide Reply;
    forall i | 0 <= i < |q|
      ensures Reply(m, (num + 1) % 64, pkt', q[i], false)
    {
      assert Reply(m, num, pkt, q[i], tags[i]);
      Ages(m, num, pkt, pkt', q[i]);
    }
  }

  // ------------------------------------------------------------------ waiting

  lemma CanComplain(m: LineMode)
    requires m.Valid() && m.spadn == 0
    ensures Sendable(m, ERROR, Complaint()) && Sendable(m, NAK, [])
  {
    hide Complaint, Sendable;
    MessageSendable(m, ERROR, Complaint());
    MessageSendable(m, NAK, []);
  }

  /** Sending again puts on the line what was sent, or a NAK, or the error that ends the program. */
  lemma WaitOutcome(m: LineMode, s: Side, a: Arrival)
    requires m.Valid() && m.spadn == 0 && s.num < 64 && s.status == Running && s.retries <= MAX_TRY
    requires Sendable(m, ERROR, Complaint()) && Sendable(m, NAK, [])
    ensures var act := Wait(m, s, a);
            && act.side.num == s.num && act.side.retries <= MAX_TRY + 1
            && (|| (act.out == [] && act.side.status == Failed)
                || (act.out == [Wire(m, s.num, ERROR, Complaint())] && act.side.status == Failed)
                || (act.out == [act.side.sndpkt] && act.side.status == Running && act.side.retries <= MAX_TRY
                    && act.side.sndpkt == if s.sndpkt == [] then Wire(m, s.num, NAK, []) else s.sndpkt))
  {
    hide Wire, Complaint, Sendable;
  }

  lemma SenderWaits(c: Config, jobs: seq<Job>, s: System, s': System, a: Arrival, tf: seq<bool>, tb: seq<bool>)
    returns (tf': seq<bool>, tb': seq<bool>)
    requires ValidConfig(c) && Inv(c, jobs, s, tf, tb)
    requires SenderStep(c, s, s', a) && !Accepts(s.snd, a)
    ensures Inv(c, jobs, s', tf', tb')
  {
    hide Copy, Reply, Wire, InStep, Deliver, Sendable, FromReceiver, FromSender, Heard, Resend, Complaint;
    CanComplain(c.m);
    WaitOutcome(c.m, s.snd, a);
    var t;
    tb', t := ListenToReplies(c.m, s.snd.num, s.pkt, s.back, tb, a, s'.back);
    var out := Wait(c.m, s.snd, a).out;
    WireIsCopy(c.m, s.snd.num, s.pkt);
    ErrorIsHarmless(c.m, s.snd.num, Complaint(), s.snd.num, s.pkt, true);
    if out == [] {
      tf' := tf;
      assert s'.fwd == s.fwd;
    } else {
      tf' := tf + [true];
      CopiesAppend(c.m, s.snd.num, s.pkt, s.fwd, tf, out[0], true);
    }
  }

  lemma ReceiverWaits(c: Config, jobs: seq<Job>, s: System, s': System, a: Arrival, data: seq<byte>, tf: seq<bool>, tb: seq<bool>)
    returns (tf': seq<bool>, tb': seq<bool>)
    requires ValidConfig(c) && Inv(c, jobs, s, tf, tb)
    requires ReceiverStep(c, s, s', a, data) && !Accepts(s.rcv, a)
    ensures Inv(c, jobs, s', tf', tb')
  {
    hide Copy, Reply, Wire, InStep, Deliver, Sendable, FromReceiver, FromSender, Heard, Resend, Complaint;
    CanComplain(c.m);
    WaitOutcome(c.m, s.rcv, a);
    var t;
    tf', t := ListenToCopies(c.m, s.snd.num, s.pkt, s.fwd, tf, a, s'.fwd);
    var out, up := Wait(c.m, s.rcv, a).out, CaughtUp(s);
    ErrorIsHarmless(c.m, s.rcv.num, Complaint(), s.snd.num, s.pkt, up);
    NakIsReply(c.m, s.rcv.num, s.snd.num, s.pkt, up);
    if out == [] {
      tb' := tb;
      assert s'.back == s.back;
    } else {
      tb' := tb + [up];
      RepliesAppend(c.m, s.snd.num, s.pkt, s.back, tb, out[0], up);
    }
  }

  // ---------------------------------------------------------------- accepting

  /** An acknowledgement that is accepted is of the current packet, which the receiver therefore has. */
  lemma AckMeansCaughtUp(c: Config, jobs: seq<Job>, s: System, s': System, a: Arrival, tf: seq<bool>, tb: seq<bool>)
    returns (tb': seq<bool>)
    requires ValidConfig(c) && Inv(c, jobs, s, tf, tb)
    requires SenderStep(c, s, s', a) && Accepts(s.snd, a) && a.r.kind != ERROR
    ensures CaughtUp(s) && a.r.kind == ACK && AckFor(s.pkt.kind, a.r.data)
    ensures Replies(c.m, s.snd.num, s.pkt, s'.back, tb') && AllTags(tb', true)
  {
    hide Copy, Reply, Wire, InStep, Deliver, Sendable, Heard, Resend;
    var t;
    tb', t := ListenToReplies(c.m, s.snd.num, s.pkt, s.back, tb, a, s'.back);
    assert t by {
      assert (s.snd.num + 63) % 64 != s.snd.num;
    }
    assert !AllTags(tb, false);
  }

  lemma SenderAccepts(c: Config, jobs: seq<Job>, s: System, s': System, a: Arrival, tf: seq<bool>, tb: seq<bool>)
    returns (tf': seq<bool>, tb': seq<bool>)
    requires ValidConfig(c) && Inv(c, jobs, s, tf, tb)
    requires SenderStep(c, s, s', a) && Accepts(s.snd, a) && a.r.kind != ERROR
    ensures Inv(c, jobs, s', tf', tb')
  {
    hide Copy, Reply, Wire, InStep, Deliver, Sendable, Heard, Resend, AfterAck, Healthy, Promises, OnScript;
    tb' := AckMeansCaughtUp(c, jobs, s, s', a, tf, tb);
    tf' := tf;
    LastAck(c, s.st, a.r.data);
    StagesAgree(c, jobs, s.st, s.rs);
    if s.st.phase != SsEot {
      AckAdvances(c, jobs, s.st, s.rs, a.r.data);
      ScriptGoesOn(c, jobs, s.sent, s.st, s.rs, a.r.data);
      var mv := AfterAck(c, s.st, a.r.data).value;
      var num' := (s.snd.num + 1) % 64;
      CopiesAge(c.m, s.snd.num, s.pkt, mv.pkt, s.fwd, tf);
      RepliesAge(c.m, s.snd.num, s.pkt, mv.pkt, s'.back, tb');
      if s.rcv.sndpkt != [] {
        Ages(c.m, s.snd.num, s.pkt, mv.pkt, s.rcv.sndpkt);
      }
      WireIsCopy(c.m, num', mv.pkt);
      CopiesAppend(c.m, num', mv.pkt, s.fwd, Same(|s.fwd|, false), Wire(c.m, num', mv.pkt.kind, mv.pkt.data), true);
      tf', tb' := Same(|s.fwd|, false) + [true], Same(|s'.back|, false);
    }
  }

  lemma StagesAgree(c: Config, jobs: seq<Job>, st: Sending, r: Receiving)
    requires InStep(c, jobs, st, r)
    ensures r.stage == Ended <==> st.phase == SsEot
  {
  }

  lemma LastAck(c: Config, st: Sending, data: seq<byte>)
    requires st.src.Valid()
    ensures AfterAck(c, st, data).None? <==> st.phase == SsEot
  {
  }

  lemma ReceiverAccepts(c: Config, jobs: seq<Job>, s: System, s': System, a: Arrival, data: seq<byte>, tf: seq<bool>, tb: seq<bool>)
    returns (tf': seq<bool>, tb': seq<bool>)
    requires ValidConfig(c) && Inv(c, jobs, s, tf, tb)
    requires ReceiverStep(c, s, s', a, data) && Accepts(s.rcv, a) && a.r.kind != ERROR
    ensures Inv(c, jobs, s', tf', tb')
  {
    hide Copy, Reply, Wire, Sendable, Heard, Resend, Deliver, Healthy, Promises;
    var t;
    tf', t := ListenToCopies(c.m, s.snd.num, s.pkt, s.fwd, tf, a, s'.fwd);
    var num := s.snd.num;
    assert !CaughtUp(s) && t by {
      assert (num + 63) % 64 != num && (num + 1) % 64 != num;
    }
    assert Pkt(a.r.kind, a.r.data) == s.pkt;
    var rs := Deliver(c, s.rs, s.pkt).value;
    WireIsReply(c.m, num, s.pkt, data);
    RepliesAppend(c.m, num, s.pkt, s.back, tb, Wire(c.m, num, ACK, data), true);
    tb' := tb + [true];
    assert rs.stage == StageOf(s.st.phase);
  }

  /** An Error packet, or a lost line, ends one program and touches nothing else. */
  lemma ErrorKeeps(c: Config, jobs: seq<Job>, s: System, s': System, a: Arrival, data: seq<byte>, tf: seq<bool>, tb: seq<bool>)
    returns (tf': seq<bool>, tb': seq<bool>)
    requires ValidConfig(c) && Inv(c, jobs, s, tf, tb)
    requires || (SenderStep(c, s, s', a) && Accepts(s.snd, a) && a.r.kind == ERROR)
             || (ReceiverStep(c, s, s', a, data) && Accepts(s.rcv, a) && a.r.kind == ERROR)
    ensures Inv(c, jobs, s', tf', tb')
  {
    hide Copy, Reply, Wire, InStep, Deliver, Sendable, FromReceiver, FromSender, Heard, Resend;
    var t;
    if SenderStep(c, s, s', a) && Accepts(s.snd, a) && a.r.kind == ERROR {
      tf' := tf;
      tb', t := ListenToReplies(c.m, s.snd.num, s.pkt, s.back, tb, a, s'.back);
    } else {
      tb' := tb;
      tf', t := ListenToCopies(c.m, s.snd.num, s.pkt, s.fwd, tf, a, s'.fwd);
    }
  }

  lemma LineKeeps(c: Config, jobs: seq<Job>, s: System, s': System, i: nat, burst: seq<byte>, tf: seq<bool>, tb: seq<bool>)
    returns (tf': seq<bool>, tb': seq<bool>)
    requires ValidConfig(c) && Inv(c, jobs, s, tf, tb) && LineStep(c, s, s', i, burst)
    ensures Inv(c, jobs, s', tf', tb')
  {
    hide Copy, Reply, Wire, InStep, Deliver, Sendable, Disturbed;
    if Disturbed(c.m, s.fwd, s'.fwd, i, burst) && s' == s.(fwd := s'.fwd) {
      InLine(c.m, s.fwd, s'.fwd, i, burst);
      tf', tb' := Retag(s.fwd, s'.fwd, tf, i), tb;
      DisturbedCopies(c.m, s.snd.num, s.pkt, s.fwd, s'.fwd, tf, i, burst);
      RetagOrdered(s.fwd, s'.fwd, tf, i, true);
    } else {
      InLine(c.m, s.back, s'.back, i, burst);
      tf', tb' := tf, Retag(s.back, s'.back, tb, i);
      DisturbedReplies(c.m, s.snd.num, s.pkt, s.back, s'.back, tb, i, burst);
      RetagOrdered(s.back, s'.back, tb, i, false);
    }
  }

  // -------------------------------------------------------------- every run

  ghost predicate Safe(c: Config, jobs: seq<Job>, s: System)
    requires ValidConfig(c)
  {
    exists tf, tb :: Inv(c, jobs, s, tf, tb)
  }

  lemma StepKeeps(c: Config, jobs: seq<Job>, s: System, s': System)
    requires ValidConfig(c) && Safe(c, jobs, s) && Next(c, s, s')
    ensures Safe(c, jobs, s')
  {
    hide Inv, SenderStep, ReceiverStep, LineStep, Accepts;
    var tf, tb :| Inv(c, jobs, s, tf, tb);
    if a :| SenderStep(c, s, s', a) {
      if !Accepts(s.snd, a) {
        tf, tb := SenderWaits(c, jobs, s, s', a, tf, tb);
      } else {
        AcceptsGood(s.snd, a);
        if a.r.kind == ERROR {
          tf, tb := ErrorKeeps(c, jobs, s, s', a, [], tf, tb);
        } else {
          tf, tb := SenderAccepts(c, jobs, s, s', a, tf, tb);
        }
      }
    } else if a, data :| ReceiverStep(c, s, s', a, data) {
      if !Accepts(s.rcv, a) {
        tf, tb := ReceiverWaits(c, jobs, s, s', a, data, tf, tb);
      } else {
        AcceptsGood(s.rcv, a);
        if a.r.kind == ERROR {
          tf, tb := ErrorKeeps(c, jobs, s, s', a, data, tf, tb);
        } else {
          tf, tb := ReceiverAccepts(c, jobs, s, s', a, data, tf, tb);
        }
      }
    } else {
      var i: nat, burst :| LineStep(c, s, s', i, burst);
      tf, tb := LineKeeps(c, jobs, s, s', i, burst, tf, tb);
    }
  }

  lemma AcceptsGood(s: Side, a: Arrival)
    requires Accepts(s, a)
    ensures a.Packet? && a.r.Good?
  {
  }

  lemma InitSafe(c: Config, jobs: seq<Job>, s: System)
    requires ValidConfig(c) && Init(c, jobs, s)
    ensures Safe(c, jobs, s)
  {
    hide Copy, Reply, Wire, Sendable, Promises, OnScript;
    var idle := Sending(SsEof, Start([]), Job([], [], []), jobs, false, false);
    var r := Receiving(SrFil, [], [], [], false);
    assert [] + ([] + Expected(jobs)) == Expected(jobs);
    assert InStep(c, jobs, idle, r);
    FileAdvances(c, jobs, idle, r);
    ScriptStarts(c, jobs, idle);
    WireIsCopy(c.m, s.snd.num, s.pkt);
    assert [] + [s.pkt] == [s.pkt];
    assert Inv(c, jobs, s, [true], []);
  }

  ghost predicate Run(c: Config, jobs: seq<Job>, states: seq<System>)
    requires ValidConfig(c)
  {
    && states != [] && Init(c, jobs, states[0])
    && forall i :: 0 < i < |states| ==> Next(c, states[i - 1], states[i])
  }

  lemma {:induction false} RunSafe(c: Config, jobs: seq<Job>, states: seq<System>)
    requires ValidConfig(c) && Run(c, jobs, states)
    ensures Safe(c, jobs, states[|states| - 1])
  {
    hide Safe, Init, Next;
    var n := |states|;
    if n == 1 {
      InitSafe(c, jobs, states[0]);
    } else {
      var before := states[..n - 1];
      assert before[|before| - 1] == states[n - 2];
      RunSafe(c, jobs, before);
      StepKeeps(c, jobs, states[n - 2], states[n - 1]);
    }
  }

  /**
   * At the end of every run: the packets accepted are the packets sent, in order,
   * each once, except perhaps the last; the packets sent are those of the script,
   * up to where the sender is; the closed files are the first of the
   * files to send, and the open one holds the beginning of the next; and when
   * either end has finished, the receiver has all of them.
   */
  lemma TransferIsFaithful(c: Config, jobs: seq<Job>, states: seq<System>)
    requires ValidConfig(c) && Run(c, jobs, states)
    ensures var s := states[|states| - 1];
            && s.accepted <= s.sent <= Script(c, jobs) && |s.sent| <= |s.accepted| + 1
            && (s.snd.status == Finished ==> s.sent == s.accepted == Script(c, jobs))
            && s.rs.done <= Expected(jobs)
            && ((s.rs.stage == SrAtt || s.rs.stage == SrDat) ==>
                |s.rs.done| < |jobs| && s.rs.name == jobs[|s.rs.done|].name && s.rs.out <= jobs[|s.rs.done|].content)
            && (s.snd.status == Finished || s.rcv.status == Finished ==> s.rs.done == Expected(jobs))
  {
    hide EndsInv, Copies, Replies, Init, Next, OnScript, Script;
    RunSafe(c, jobs, states);
    var s := states[|states| - 1];
    var tf, tb :| Inv(c, jobs, s, tf, tb);
    FilesFaithful(c, jobs, s);
  }

  lemma FilesFaithful(c: Config, jobs: seq<Job>, s: System)
    requires FilesInv(c, jobs, s)
    ensures s.accepted <= s.sent <= Script(c, jobs) && |s.sent| <= |s.accepted| + 1
    ensures s.snd.status == Finished ==> s.sent == s.accepted == Script(c, jobs)
    ensures s.rs.done <= Expected(jobs)
    ensures (s.rs.stage == SrAtt || s.rs.stage == SrDat) ==>
              |s.rs.done| < |jobs| && s.rs.name == jobs[|s.rs.done|].name && s.rs.out <= jobs[|s.rs.done|].content
    ensures s.snd.status == Finished || s.rcv.status == Finished ==> s.rs.done == Expected(jobs)
  {
    hide Promises, Healthy, OnScript, Script;
    ScriptIsKept(c, jobs, s.sent, s.st);
    if CaughtUp(s) {
      InStepFaithful(c, jobs, s.st, s.rs);
      if s.st.phase == SsEot {
        assert s.rs.done + Pending(s.st) == s.rs.done;
      }
    } else {
      var r := Deliver(c, s.rs, s.pkt).value;
      InStepFaithful(c, jobs, s.st, r);
      if s.rs.stage == SrAtt || s.rs.stage == SrDat {
        if s.pkt.kind == EOF {
          assert r.done == s.rs.done + [Stored(s.rs.name, s.rs.out)];
          assert Expected(jobs)[|s.rs.done|] == r.done[|s.rs.done|];
        } else {
          assert s.rs.out <= r.out;
        }
      }
    }
  }

  lemma InStepFaithful(c: Config, jobs: seq<Job>, st: Sending, r: Receiving)
    requires InStep(c, jobs, st, r)
    ensures r.done <= Expected(jobs)
    ensures SendsFile(st) ==>
              |r.done| < |jobs| && r.name == jobs[|r.done|].name && r.out <= jobs[|r.done|].content
  {
    hide Promises, Healthy;
    if SendsFile(st) {
      assert Expected(jobs)[|r.done|] == Pending(st)[0];
    }
  }
}

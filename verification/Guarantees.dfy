/** What holds of every run of the system, with any number of client threads. */
module Guarantees {
  import opened Cells
  import opened CommandLog
  import opened Protocol
  import opened SenderInvariant
  import opened SnapshotInvariant
  import opened ChainInvariant
  import opened ScriptInvariant
  import opened ControllerInvariant
  import opened LifecycleInvariant

  ghost predicate Inv(cfg: Config, s: State) {
    && LockInv(s) && SenderInv(cfg, s) && PublishInv(s) && ReadsInv(s) && StampsInv(s) && ChainInv(s) && ScriptInv(s)
    && ControllerInv(cfg, s) && LifecycleInv(s)
  }

  lemma InitClient(cfg: Config, s: State)
    requires ValidConfig(cfg) && Init(cfg, s)
    ensures LockInv(s) && SenderInv(cfg, s) && PublishInv(s)
  {
  }

  lemma InitReads(cfg: Config, s: State)
    requires Init(cfg, s)
    ensures ReadsInv(s) && StampsInv(s)
  {
  }

  lemma InitController(cfg: Config, s: State)
    requires ValidConfig(cfg) && Init(cfg, s)
    ensures ChainInv(s) && ScriptInv(s)
  {
  }

  lemma InitRest(cfg: Config, s: State)
    requires Init(cfg, s)
    ensures ControllerInv(cfg, s) && LifecycleInv(s)
  {
  }

  lemma InitInv(cfg: Config, s: State)
    requires ValidConfig(cfg) && Init(cfg, s)
    ensures Inv(cfg, s)
  {
    InitClient(cfg, s);
    InitReads(cfg, s);
    InitController(cfg, s);
    InitRest(cfg, s);
  }

  lemma StepInv(cfg: Config, s: State, st: Step)
    requires ValidConfig(cfg) && Inv(cfg, s) && Enabled(cfg, s, st)
    ensures Inv(cfg, Apply(cfg, s, st)) && Monotone(s, Apply(cfg, s, st))
  {
    LockStep(cfg, s, st);
    SenderStep(cfg, s, st);
    PublishStep(cfg, s, st);
    ReadsStep(cfg, s, st);
    StampsStep(cfg, s, st);
    ChainStep(cfg, s, st);
    ScriptStepKeeps(cfg, s, st);
    ControllerStep(cfg, s, st);
    LifecycleStep(cfg, s, st);
  }

  /** The invariant holds along every run, and along every run no sequence number goes down. */
  lemma {:induction false} RunInv(cfg: Config, s: State, steps: seq<Step>, t: State)
    requires ValidConfig(cfg) && Inv(cfg, s) && Runs(cfg, s, steps, t)
    ensures Inv(cfg, t) && Monotone(s, t)
    decreases |steps|
  {
    if steps != [] {
      var last := |steps| - 1;
      var m :| Runs(cfg, s, steps[..last], m) && Enabled(cfg, m, steps[last]) && t == Apply(cfg, m, steps[last]);
      RunInv(cfg, s, steps[..last], m);
      StepInv(cfg, m, steps[last]);
    }
  }

  lemma ReachableInv(cfg: Config, t: State)
    requires ValidConfig(cfg) && Reachable(cfg, t)
    ensures Inv(cfg, t)
  {
    var s :| Init(cfg, s) && Leads(cfg, s, t);
    var steps :| Runs(cfg, s, steps, t);
    InitInv(cfg, s);
    RunInv(cfg, s, steps, t);
  }

  // What some of the theorems need of it.

  lemma ReachableReads(cfg: Config, t: State)
    requires ValidConfig(cfg) && Reachable(cfg, t)
    ensures LockInv(t) && PublishInv(t) && ReadsInv(t)
  {
    ReachableInv(cfg, t);
  }

  lemma ReachableScript(cfg: Config, t: State)
    requires ValidConfig(cfg) && Reachable(cfg, t)
    ensures SentFacts(cfg, t) && ControllerChain(t) && ScriptInv(t)
  {
    ReachableInv(cfg, t);
    SentFactsHold(cfg, t);
  }

  lemma ReachableLifecycle(cfg: Config, t: State)
    requires ValidConfig(cfg) && Reachable(cfg, t)
    ensures LockInv(t) && LifecycleInv(t)
  {
    ReachableInv(cfg, t);
  }

  // ----- Commands out -----

  lemma LogIsWire(cfg: Config, s: State)
    requires ValidConfig(cfg) && SenderInv(cfg, s)
    ensures s.w.sent == [cfg.initial] + FramesOf(s.h.calls, cfg.initial)
    ensures SentFacts(cfg, s)
  {
    SentFactsHold(cfg, s);
    ReplayIsLog(cfg.initial, [cfg.initial], s.h.calls);
  }

  lemma LogIsSender(cfg: Config, s: State)
    requires SenderInv(cfg, s) && !Busy(s)
    ensures s.c.last == |s.h.calls|
    ensures QdOf(s.c.inp) == LastVector(s.h.calls, Speed, QdOf(cfg.initial))
    ensures PoseOf(s.c.inp) == LastVector(s.h.calls, Pose, PoseOf(cfg.initial))
  {
    LogLast(cfg, s);
    ReplayIsLog(cfg.initial, [cfg.initial], s.h.calls);
  }

  /** Whenever no call is under way the wire has carried exactly the registration frame and the
      frames of the calls made, in order, each numbered by its call, with the command of its call
      and the whole latest speed and pose vectors, whatever sends failed in between. */
  lemma SentStreamIsCommandLog(cfg: Config, s: State)
    requires ValidConfig(cfg) && Reachable(cfg, s)
    ensures s.w.sent == [cfg.initial] + FramesOf(s.h.calls, cfg.initial)
    ensures forall i, j | 1 <= i < j < |s.w.sent| :: s.w.sent[i][IN_SEQNR] < s.w.sent[j][IN_SEQNR]
    ensures forall i | 1 <= i < |s.w.sent| :: s.w.sent[i][IN_CMD] != NO_COMMAND
    ensures !Busy(s) ==>
              && s.c.last == |s.h.calls|
              && QdOf(s.c.inp) == LastVector(s.h.calls, Speed, QdOf(cfg.initial))
              && PoseOf(s.c.inp) == LastVector(s.h.calls, Pose, PoseOf(cfg.initial))
  {
    ReachableInv(cfg, s);
    LogIsWire(cfg, s);
    if !Busy(s) {
      LogIsSender(cfg, s);
    }
  }

  /** The mutex excludes: a thread inside a critical section is there alone, with no other thread
      and not with the receiver. */
  lemma MutualExclusion(cfg: Config, s: State, t: nat)
    requires ValidConfig(cfg) && Reachable(cfg, s)
    requires t < |s.c.pcs| && Holding(s.c.pcs[t])
    ensures !s.rx.pc.RxPublish?
    ensures forall u | 0 <= u < |s.c.pcs| && u != t :: !Holding(s.c.pcs[u])
  {
    ReachableInv(cfg, s);
  }

  /** A window of 2^32 is none: it never holds a call back. */
  lemma WideWindowNeverBinds(cfg: Config, s: State)
    requires ValidConfig(cfg) && Reachable(cfg, s) && cfg.window >= WRAP
    ensures Unacked(s.w.sent, s.c.pub[OUT_SEQNR]) < cfg.window
  {
    ReachableInv(cfg, s);
    LogIsWire(cfg, s);
    NoMoreFramesThanCalls(s.h.calls, cfg.initial);
    UnackedAtMost(s.w.sent, s.c.pub[OUT_SEQNR]);
  }

  /** The command frames numbered above an acknowledgement. */
  function Above(sent: seq<InCells>, ack: Word): set<nat> {
    set i: nat | 1 <= i < |sent| && sent[i][IN_SEQNR] > ack
  }

  lemma {:induction false} UnackedCounts(sent: seq<InCells>, ack: Word)
    ensures Unacked(sent, ack) == |Above(sent, ack)|
  {
    if |sent| > 1 {
      var last := |sent| - 1;
      UnackedCounts(sent[..last], ack);
      assert Above(sent, ack) == Above(sent[..last], ack) + if sent[last][IN_SEQNR] > ack then {last} else {};
    } else {
      assert Above(sent, ack) == {};
    }
  }

  lemma {:induction false} UnackedAtMost(sent: seq<InCells>, ack: Word)
    requires sent != []
    ensures Unacked(sent, ack) <= |sent| - 1
  {
    if |sent| > 1 {
      UnackedAtMost(sent[..|sent| - 1], ack);
    }
  }

  // ----- The loop of sequence numbers -----

  lemma SequenceNumberChain(cfg: Config, s: State)
    requires ValidConfig(cfg) && Reachable(cfg, s)
    ensures WireOk(s.w)
    ensures s.c.pub[OUT_TAG] <= s.r.tag <= s.k.seqnr <= s.g.tSeqnr <= s.m.oldSeqnr <= Regs(s.w)[IN_SEQNR]
    ensures Regs(s.w)[IN_SEQNR] <= (if s.c.last < 1 then 1 else s.c.last)
    ensures s.c.pub[OUT_SEQNR] <= s.r.ack <= s.m.oldSeqnr
  {
    ReachableInv(cfg, s);
    RegistersBehindClient(cfg, s);
  }

  lemma SequenceNumbersNeverFall(cfg: Config, s: State, steps: seq<Step>, t: State)
    requires ValidConfig(cfg) && Reachable(cfg, s) && Runs(cfg, s, steps, t)
    ensures Monotone(s, t)
  {
    ReachableInv(cfg, s);
    RunInv(cfg, s, steps, t);
  }

  // ----- Telemetry in -----

  /** No read is torn: what state() returned is the initial state or one accepted frame, namely
      the newest one published when it was called. */
  lemma ReadsAreWholeFrames(cfg: Config, s: State, i: nat)
    requires ValidConfig(cfg) && Reachable(cfg, s) && i < |s.h.snaps|
    ensures var read := s.h.snaps[i];
            && read.at <= |s.h.pubs|
            && (read.at == 0 ==> SameState(read.state, ZERO_OUT))
            && (read.at > 0 ==>
                  var n := s.h.pubs[read.at - 1];
                  n < |s.w.emitted| && s.w.emitted[n].Data? && SameState(read.state, s.w.emitted[n].cells))
  {
    ReachableReads(cfg, s);
  }

  /** Publications are in wire order, and synchronous reads never deliver a frame twice: among all
      threads' reads, in lock order, each synchronous one is of a newer publication than every
      read before it. */
  lemma SyncReadsAreFresh(cfg: Config, s: State, i: nat, j: nat)
    requires ValidConfig(cfg) && Reachable(cfg, s)
    requires i < j < |s.h.snaps| && s.h.snaps[j].sync
    ensures 1 <= s.h.snaps[j].at <= |s.h.pubs| && s.h.snaps[i].at < s.h.snaps[j].at
    ensures s.h.snaps[i].at > 0 ==> s.h.pubs[s.h.snaps[i].at - 1] < s.h.pubs[s.h.snaps[j].at - 1]
  {
    ReachableReads(cfg, s);
    assert s.h.snaps[i].at < s.h.snaps[j].at <= |s.h.pubs|;
  }

  /** Each read is of the newest publication there is: the read ends with the publication count. */
  lemma ReadsAreNewest(cfg: Config, s: State, t: nat)
    requires ValidConfig(cfg) && Reachable(cfg, s) && ClientEnabled(cfg, s, t, EndRead)
    ensures var s' := ClientApply(cfg, s, t, EndRead);
            && s'.h.snaps == s.h.snaps + [Read(s.c.pcs[t].sync, |s.h.pubs|, s.c.pcs[t].out)]
            && SameState(s.c.pcs[t].out, PubAt(s, |s.h.pubs|))
            && (s.c.pcs[t].sync ==> |s'.c.log| <= 500)
  {
    ReachableInv(cfg, s);
    DrainStamps(cfg, s, t);
    assert CopiedSoFar(s, s.c.pcs[t]);
    assert Holding(s.c.pcs[t]);
  }

  /** The drained batches and the current log are the publications' timestamps, once each, in order. */
  lemma TimestampsConserved(cfg: Config, s: State)
    requires ValidConfig(cfg) && Reachable(cfg, s)
    ensures var all := Flatten(s.h.batches) + s.c.log;
            && |all| == |s.h.pubs|
            && forall i | 0 <= i < |all| ::
                 s.h.pubs[i] < |s.w.emitted| && s.w.emitted[s.h.pubs[i]].Data?
                 && all[i].ur == s.w.emitted[s.h.pubs[i]].cells[OUT_TS]
    ensures forall i | 0 <= i < |s.h.batches| :: |s.h.batches[i]| > 500
  {
    ReachableInv(cfg, s);
    forall i | 0 <= i < |s.h.stamps|
      ensures s.h.stamps[i].ur == s.w.emitted[s.h.pubs[i]].cells[OUT_TS]
    {
      assert s.h.stamps[i].ur == PubAt(s, i + 1)[OUT_TS];
    }
  }

  // ----- The script -----

  /** No sequence number is acted on twice. */
  lemma ActedOnAtMostOnce(cfg: Config, s: State, i: nat, j: nat)
    requires ValidConfig(cfg) && Reachable(cfg, s) && i < j < |s.h.handled|
    ensures s.h.handled[i].seqnr < s.h.handled[j].seqnr
  {
    ReachableScript(cfg, s);
  }

  /** Whatever lands while the script reads: the command word and each word after it are those of
      the frame in the registers when they were read, and frames only get newer. */
  lemma ActionsAreRegisterReads(cfg: Config, s: State, i: nat)
    requires ValidConfig(cfg) && Reachable(cfg, s) && i < |s.h.handled|
    ensures var e := s.h.handled[i];
            && |e.data| == WordCount(e.cmd) && ReadFrom(s.w, e.cmd, e.data, e.from, e.ats)
            && s.w.sent[e.from][IN_SEQNR] == e.seqnr
  {
    ReachableScript(cfg, s);
    assert HandledOk(s.w, s.h.handled[i]);
  }

  /** An action is on the whole command of the frame its number came from exactly when its last
      word came from that frame too. */
  lemma UndisturbedCommandsAreWhole(cfg: Config, s: State, i: nat)
    requires ValidConfig(cfg) && Reachable(cfg, s) && i < |s.h.handled|
    ensures var e := s.h.handled[i];
            e.ats != [] && (OwnCommand(s.w, e, e.from) <==> To(e) == e.from)
  {
    ReachableScript(cfg, s);
    UndisturbedIsOwn(s.w, s.h.handled[i]);
  }

  /** De-duplication hides nothing after the first command: when the script takes its number for
      an old one, it has acted on the whole command that is now in the registers. */
  lemma NoLaterCommandHidden(cfg: Config, s: State)
    requires ValidConfig(cfg) && Reachable(cfg, s) && WireOk(s.w)
    requires s.m.pc == Top && Regs(s.w)[IN_SEQNR] == s.m.oldSeqnr && s.w.applied > 1 && s.m.oldSeqnr != 1
    ensures s.h.handled != []
    ensures var e := s.h.handled[|s.h.handled| - 1];
            && e.seqnr == s.m.oldSeqnr
            && e.cmd == Regs(s.w)[IN_CMD] && e.data == Payload(Regs(s.w), e.cmd)
            && OwnCommand(s.w, e, s.w.applied - 1)
  {
    ReachableScript(cfg, s);
    HiddenOnlyIfRead(cfg, s);
  }

  // ----- What the controller makes of it -----

  /** The script keeps running exactly until it acts on a stop, and the speeds it hands to the speed
      thread are those of its last speed action, or zero if a stop came after it. */
  lemma StopsExactlyOnHalt(cfg: Config, s: State)
    requires ValidConfig(cfg) && Reachable(cfg, s)
    ensures s.g.keepRunning <==> forall i | 0 <= i < |s.h.handled| :: s.h.handled[i].cmd != Code(Halt)
    ensures s.g.tqd == LastSpeed(s.h.handled)
    ensures s.g.updatedQd <==> exists i :: 0 <= i < |s.h.handled| && s.h.handled[i].cmd == Code(Speed)
    ensures s.m.pc == Exited || s.k.pc == IkExited ==> !s.g.keepRunning
  {
    ReachableInv(cfg, s);
  }

  /** When both loops are at their heads and no pose is waiting, the output registers say it all:
      the number of the last action, the number of the last pose action, and that pose's angles. */
  lemma ControllerAtRest(cfg: Config, s: State)
    requires ValidConfig(cfg) && Reachable(cfg, s)
    requires (s.m.pc == Top || s.m.pc == Exited) && !Solving(s.k.pc) && !s.g.updatedPose
    ensures s.r.ack == if s.h.handled == [] then 0 else s.h.handled[|s.h.handled| - 1].seqnr
    ensures var e := LastPose(s.h.handled);
            s.r.tag == e.seqnr && (e.seqnr > 0 ==> |e.data| == DOF && s.r.qref == cfg.ik(e.data))
  {
    ReachableInv(cfg, s);
  }

  /** While no stop is under way, running says exactly that none was called, and the receiver has
      ended its loop only if one was.  Once running has ended there is no stopping again. */
  lemma StopEndsRunning(cfg: Config, s: State)
    requires ValidConfig(cfg) && Reachable(cfg, s)
    ensures !StopUnderWay(s) ==> (s.c.running <==> !StopCalled(s))
    ensures s.rx.pc == RxExited ==> StopCalled(s)
    ensures !s.c.running ==> forall t: nat, sent :: !ClientEnabled(cfg, s, t, Stop(sent))
  {
    ReachableLifecycle(cfg, s);
  }

  /** No data frame is passed over: those received are published in order, all but the one in hand. */
  lemma EveryDataFrameIsPublished(cfg: Config, s: State)
    requires ValidConfig(cfg) && Reachable(cfg, s)
    ensures s.w.received <= |s.w.emitted| && s.h.pubs + InHand(s.rx) == DataFrames(s.w.emitted, s.w.received)
  {
    ReachableLifecycle(cfg, s);
  }

  lemma NobodyReads(s: State)
    requires LockInv(s) && s.c.lock == Free
    ensures !ReadUnderWay(s)
  {
    assert forall u | 0 <= u < |s.c.pcs| :: !Holding(s.c.pcs[u]);
  }

  /** An idle thread's synchronous read goes through, with the mutex free, exactly if there is a
      publication that no read has returned; an asynchronous one always does. */
  lemma SyncReadPossibleIff(cfg: Config, s: State, t: nat)
    requires ValidConfig(cfg) && Reachable(cfg, s) && t < |s.c.pcs| && s.c.pcs[t] == Idle && s.c.lock == Free
    ensures ClientEnabled(cfg, s, t, BeginRead(true)) <==>
              s.h.pubs != [] && forall i | 0 <= i < |s.h.snaps| :: s.h.snaps[i].at < |s.h.pubs|
    ensures ClientEnabled(cfg, s, t, BeginRead(false))
  {
    ReachableLifecycle(cfg, s);
    ReachableReads(cfg, s);
    NobodyReads(s);
  }
}

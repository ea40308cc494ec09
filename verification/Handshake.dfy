/** calculate_q_ref's handshake: sound with one control thread, in every interleaving, and not
    sound with two. */
module Handshake {
  import opened Cells
  import opened CommandLog
  import opened Protocol
  import opened SnapshotInvariant
  import opened HandshakeInvariant
  import opened Guarantees
  import opened Passages

  /** Every answer a waiting thread took for its own is its own pose's. */
  ghost predicate AnswersRight(cfg: Config, s: State) {
    forall i | 0 <= i < |s.h.answers| :: s.h.answers[i].q == cfg.ik(s.h.answers[i].pose)
  }

  ghost predicate HandshakeSound(cfg: Config) {
    forall s | Reachable(cfg, s) :: AnswersRight(cfg, s)
  }

  ghost predicate Full(cfg: Config, s: State) {
    Inv(cfg, s) && HandshakeInv(cfg, s) && AnswersRight(cfg, s)
  }

  lemma InitFull(cfg: Config, s: State)
    requires ValidConfig(cfg) && Init(cfg, s)
    ensures Full(cfg, s)
  {
    InitInv(cfg, s);
  }

  lemma AnswersStep(cfg: Config, s: State, st: Step)
    requires PublishInv(s) && HandshakeInv(cfg, s) && AnswersRight(cfg, s) && Enabled(cfg, s, st)
    ensures AnswersRight(cfg, Apply(cfg, s, st))
  {
    if st.ThreadStep? && st.cs.WaitHit? {
      assert s.c.pcs[st.t].Wait?;
      PublishedAnswer(cfg, s);
    } else {
      assert Apply(cfg, s, st).h.answers == s.h.answers;
    }
  }

  lemma StepFull(cfg: Config, s: State, st: Step)
    requires ValidConfig(cfg) && SingleControl(cfg) && Full(cfg, s) && Enabled(cfg, s, st)
    ensures Full(cfg, Apply(cfg, s, st))
  {
    StepInv(cfg, s, st);
    HandshakeStep(cfg, s, st);
    AnswersStep(cfg, s, st);
  }

  lemma {:induction false} RunFull(cfg: Config, s: State, steps: seq<Step>, t: State)
    requires ValidConfig(cfg) && SingleControl(cfg) && Full(cfg, s) && Runs(cfg, s, steps, t)
    ensures Full(cfg, t)
    decreases |steps|
  {
    if steps != [] {
      var last := |steps| - 1;
      var m :| Runs(cfg, s, steps[..last], m) && Enabled(cfg, m, steps[last]) && t == Apply(cfg, m, steps[last]);
      RunFull(cfg, s, steps[..last], m);
      StepFull(cfg, m, steps[last]);
    }
  }

  lemma ReachableFull(cfg: Config, t: State)
    requires ValidConfig(cfg) && SingleControl(cfg) && Reachable(cfg, t)
    ensures Full(cfg, t)
  {
    var s :| Init(cfg, s) && Leads(cfg, s, t);
    var steps :| Runs(cfg, s, steps, t);
    InitFull(cfg, s);
    RunFull(cfg, s, steps, t);
  }

  lemma SingleControlSound(cfg: Config)
    requires ValidConfig(cfg) && SingleControl(cfg)
    ensures HandshakeSound(cfg)
  {
    forall s | Reachable(cfg, s)
      ensures AnswersRight(cfg, s)
    {
      ReachableFull(cfg, s);
    }
  }

  // ----- Two control threads -----

  ghost function InitialState(cfg: Config): (s: State)
    ensures ValidConfig(cfg) ==> Init(cfg, s)
  {
    State(ClientState(Free, seq(cfg.threads, _ => Idle), 0, cfg.initial, ZERO_OUT, false, [], true),
          RxState(RxLoop, ZERO_OUT), WireState([cfg.initial], 1, [], 0), MainState(Top, 0, 0, 0, []),
          Slots(true, ZERO_VEC, 0, false, ZERO_VEC, false), IkState(IkLoop, ZERO_VEC, 0),
          Registers(0, 0, ZERO_VEC), History([], NoRequest, [], [], [], [], [], []))
  }

  /** Nothing is under way: every frame has arrived and the controller is at its loop heads. */
  ghost predicate Settled(s: State) {
    && s.c.lock == Free && s.c.running && s.rx.pc == RxLoop && s.w.received == |s.w.emitted|
    && s.m.pc == Top && s.g.keepRunning && s.k.pc == IkLoop && s.w.applied == |s.w.sent| >= 1
  }

  /** A pose command of thread t goes out, lands, and is handed to the solver. */
  lemma PoseHandedOver(cfg: Config, o: State, s: State, t: nat, p: Vec) returns (s': State)
    requires Leads(cfg, o, s) && Settled(s) && CanSend(cfg, s, t, Pose) && NextSeqnr(s.c.last) != s.m.oldSeqnr
    ensures Leads(cfg, o, s') && Settled(s') && |s'.w.sent| == |s.w.sent| + 1
    ensures s'.w.sent[..|s.w.sent|] == s.w.sent && s'.w.sent[|s.w.sent|][IN_SEQNR] == NextSeqnr(s.c.last)
    ensures s'.g.updatedPose && s'.g.tSeqnr == NextSeqnr(s.c.last) && s'.g.tPose == p
    ensures s'.r == s.r.(ack := NextSeqnr(s.c.last)) && s'.m.oldSeqnr == s'.c.last == NextSeqnr(s.c.last)
    ensures s'.c.pcs == s.c.pcs[t := Wait(NextSeqnr(s.c.last), p)] && s'.c.pub == s.c.pub && s'.h.answers == s.h.answers
  {
    s' := SendAll(cfg, o, s, t, Pose, p, true);
    assert s'.w.sent[|s.w.sent|][IN_CMD] == Code(Pose) && PoseOf(s'.w.sent[|s.w.sent|]) == p;
    s' := LandNext(cfg, o, s');
    Extend(cfg, o, s', ScriptStep(ReadSeqnr));
    s' := Apply(cfg, s', ScriptStep(ReadSeqnr));
    s' := ReadPoseAll(cfg, o, s');
    Extend(cfg, o, s', ScriptStep(WriteAck));
    s' := Apply(cfg, s', ScriptStep(WriteAck));
  }

  /** The output registers are sampled, received and published. */
  lemma RegistersSeen(cfg: Config, o: State, s: State) returns (s': State)
    requires Leads(cfg, o, s) && WireOk(s.w) && s.c.lock == Free && s.c.running
    requires s.rx.pc == RxLoop && s.w.received == |s.w.emitted|
    ensures Leads(cfg, o, s') && s'.c.pub[OUT_SEQNR] == s.r.ack && s'.c.pub[OUT_TAG] == s.r.tag && QrefOf(s'.c.pub) == s.r.qref
    ensures s'.c == s.c.(pub := s'.c.pub, updated := true, log := s'.c.log) && s'.rx.pc == RxLoop
    ensures s'.w == s.w.(emitted := s'.w.emitted, received := |s'.w.emitted|)
    ensures s'.m == s.m && s'.g == s.g && s'.k == s.k && s'.r == s.r && s'.h.answers == s.h.answers
  {
    var emit := LinkStep(Emit(0, ZERO_VEC + ZERO_VEC + ZERO_VEC + ZERO_VEC + ZERO_VEC));
    Extend(cfg, o, s, emit);
    s' := Apply(cfg, s, emit);
    var cells := s'.w.emitted[s.w.received].cells;
    assert cells[OUT_SEQNR] == s.r.ack && cells[OUT_TAG] == s.r.tag && QrefOf(cells) == s.r.qref;
    s' := ReceiveAll(cfg, o, s', 0);
  }

  /** calculate_q_ref, left alone, comes back with its own pose's angles published. */
  lemma AnswerArrives(cfg: Config, o: State, s: State, t: nat, p: Vec) returns (s': State)
    requires Leads(cfg, o, s) && Settled(s) && CanSend(cfg, s, t, Pose) && NextSeqnr(s.c.last) != s.m.oldSeqnr
    ensures Leads(cfg, o, s') && Settled(s') && s'.c.pcs == s.c.pcs
    ensures s'.c.last == NextSeqnr(s.c.last) && s'.c.pub[OUT_SEQNR] == s'.c.pub[OUT_TAG] == s'.c.last
    ensures QrefOf(s'.c.pub) == cfg.ik(p) && s'.h.answers == s.h.answers + [Answer(s'.c.last, p, cfg.ik(p))]
  {
    s' := PoseHandedOver(cfg, o, s, t, p);
    s' := SolveAll(cfg, o, s');
    s' := RegistersSeen(cfg, o, s');
    var waiting := s';
    s' := TakeAnswer(cfg, o, s', t);
    assert waiting.c.pcs[t := Idle] == s.c.pcs;
  }

  /** Thread a's pose has been answered and the answer published; a has not looked yet. */
  lemma FirstAnswered(cfg: Config, o: State, a: nat, p: Vec) returns (s: State)
    requires ValidConfig(cfg) && a in cfg.controls && o == InitialState(cfg)
    ensures Leads(cfg, o, s) && Settled(s) && s.c.pcs == o.c.pcs[a := Wait(1, p)] && s.c.last == s.m.oldSeqnr == 1
    ensures s.c.pub[OUT_SEQNR] == s.r.tag == 1 && s.h.answers == []
    ensures |s.w.sent| == 2 && s.w.sent[1][IN_SEQNR] == 1
  {
    Start(cfg, o);
    s := PoseHandedOver(cfg, o, o, a, p);
    s := SolveAll(cfg, o, s);
    s := RegistersSeen(cfg, o, s);
  }

  /** With a's command acknowledged, b calls too; the solver has written b's angles over a's, but
      not yet b's number over a's, when the registers are sampled again.  Still a has not looked. */
  lemma SecondHalfWritten(cfg: Config, o: State, a: nat, b: nat, p: Vec, q: Vec) returns (s: State)
    requires ValidConfig(cfg) && a in cfg.controls && b in cfg.controls && a != b && o == InitialState(cfg)
    ensures Leads(cfg, o, s) && s.c.lock == Free && a < |s.c.pcs| && s.c.pcs[a] == Wait(1, p)
    ensures s.c.pub[OUT_TAG] == 1 && QrefOf(s.c.pub) == cfg.ik(q) && s.h.answers == []
  {
    s := FirstAnswered(cfg, o, a, p);
    assert Unacked(s.w.sent, 1) == Unacked(s.w.sent[..1], 1);
    s := PoseHandedOver(cfg, o, s, b, q);
    WriteAll(cfg, o, s);
    s := AfterWrite(cfg, s, DOF);
    s := RegistersSeen(cfg, o, s);
  }

  /** Waiting for the acknowledgement before the next call does not help: whatever the window, the
      first caller can be given the second's answer. */
  lemma TwoControlsUnsound(cfg: Config, a: nat, b: nat, p: Vec, q: Vec) returns (s: State)
    requires ValidConfig(cfg) && a in cfg.controls && b in cfg.controls && a != b
    ensures Reachable(cfg, s) && s.h.answers == [Answer(1, p, cfg.ik(q))]
  {
    var o := InitialState(cfg);
    s := SecondHalfWritten(cfg, o, a, b, p, q);
    Extend(cfg, o, s, ThreadStep(a, WaitHit));
    s := Apply(cfg, s, ThreadStep(a, WaitHit));
  }

  /** For a controller that tells at least two poses apart, the handshake is sound if and only if
      at most one thread ever calls calculate_q_ref. */
  lemma HandshakeSoundIff(cfg: Config, p: Vec, q: Vec)
    requires ValidConfig(cfg) && cfg.ik(p) != cfg.ik(q)
    ensures HandshakeSound(cfg) <==> forall a, b | a in cfg.controls && b in cfg.controls :: a == b
  {
    if SingleControl(cfg) {
      SingleControlSound(cfg);
    } else {
      var a, b :| a in cfg.controls && b in cfg.controls && a != b;
      var s := TwoControlsUnsound(cfg, a, b, p, q);
      assert s.h.answers[0].q != cfg.ik(s.h.answers[0].pose);
      assert !AnswersRight(cfg, s);
    }
  }

  // ----- The answer stays readable -----

  ghost predicate NoNewRequest(steps: seq<Step>) {
    forall i | 0 <= i < |steps| :: !(steps[i].ThreadStep? && steps[i].cs.BeginSend? && steps[i].cs.kind == Pose)
  }

  lemma RequestStep(cfg: Config, s: State, st: Step)
    requires ThreadsInv(cfg, s) && Enabled(cfg, s, st) && NoNewRequest([st]) && s.h.req.Request?
    ensures Apply(cfg, s, st).h.req == s.h.req
  {
    assert [st][0] == st;
    if st.ThreadStep? && st.cs.Transmit? {
      assert Sending(s.c.pcs[st.t]);
    }
  }

  lemma {:induction false} RequestStays(cfg: Config, s: State, steps: seq<Step>, t: State)
    requires ValidConfig(cfg) && SingleControl(cfg) && Full(cfg, s) && Runs(cfg, s, steps, t) && NoNewRequest(steps)
    requires s.h.req.Request?
    ensures Full(cfg, t) && t.h.req == s.h.req
    decreases |steps|
  {
    if steps != [] {
      var last := |steps| - 1;
      var m :| Runs(cfg, s, steps[..last], m) && Enabled(cfg, m, steps[last]) && t == Apply(cfg, m, steps[last]);
      FewerSteps(steps);
      RequestStays(cfg, s, steps[..last], m);
      StepFull(cfg, m, steps[last]);
      RequestStep(cfg, m, steps[last]);
    }
  }

  lemma FewerSteps(steps: seq<Step>)
    requires NoNewRequest(steps) && steps != []
    ensures NoNewRequest(steps[..|steps| - 1]) && NoNewRequest([steps[|steps| - 1]])
  {
  }

  /** A waiting thread's request is the current one, and still is when it has its answer. */
  lemma HitKeepsRequest(cfg: Config, s: State, a: nat)
    requires ValidConfig(cfg) && SingleControl(cfg) && Full(cfg, s) && ClientEnabled(cfg, s, a, WaitHit)
    ensures var s', wait := ClientApply(cfg, s, a, WaitHit), s.c.pcs[a];
            && Full(cfg, s') && s'.h.req.Request? && s'.h.req.pose == wait.pose
            && s'.c.pub[OUT_TAG] == s'.h.req.seqnr
  {
    assert s.c.pcs[a].Wait?;
    StepFull(cfg, s, ThreadStep(a, WaitHit));
  }

  /** With one control thread, from the moment wait_for_q_ref returns through its predicate until
      calculate_q_ref is called again, ur_state.jq_ref is the answer to the pose asked for, however
      many updates, reads and frames go by. */
  lemma AnswerStaysReadable(cfg: Config, s: State, a: nat, steps: seq<Step>, t: State)
    requires ValidConfig(cfg) && SingleControl(cfg) && Reachable(cfg, s) && ClientEnabled(cfg, s, a, WaitHit)
    requires Runs(cfg, ClientApply(cfg, s, a, WaitHit), steps, t) && NoNewRequest(steps) && t.c.lock != Receiver
    ensures QrefOf(t.c.pub) == cfg.ik(s.c.pcs[a].pose)
  {
    var s' := ClientApply(cfg, s, a, WaitHit);
    ReachableFull(cfg, s);
    HitKeepsRequest(cfg, s, a);
    RunInv(cfg, s', steps, t);
    RequestStays(cfg, s', steps, t);
    PublishedAnswer(cfg, t);
  }
}

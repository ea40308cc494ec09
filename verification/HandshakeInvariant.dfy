/** With a single control thread a matched tag means "this answer is for my request": from the
    moment calculate_q_ref has sent its frame, nothing tagged with its number or a later one
    carries any other pose's joint angles. */
module HandshakeInvariant {
  import opened Cells
  import opened CommandLog
  import opened Protocol
  import opened SenderInvariant
  import opened SnapshotInvariant
  import opened ChainInvariant
  import opened ControllerInvariant

  ghost predicate SingleControl(cfg: Config) {
    forall a, b | a in cfg.controls && b in cfg.controls :: a == b
  }

  /** The number of the newest frame that is not the registration's. */
  function NewestNumber(sent: seq<InCells>): Word
    requires sent != []
  {
    if |sent| == 1 then 0 else sent[|sent| - 1][IN_SEQNR]
  }

  /** Only real commands are handed to the solver. */
  ghost predicate HandOffInv(s: State) {
    && s.w.sent != []
    && s.g.tSeqnr <= NewestNumber(s.w.sent)
    && (s.m.pc.ReadPose? ==> s.m.seqnr <= NewestNumber(s.w.sent) && |s.m.pc.words| <= DOF)
  }

  /** Who may be inside calculate_q_ref, and that a waiting thread's request is the current one. */
  ghost predicate ThreadsInv(cfg: Config, s: State) {
    forall t | 0 <= t < |s.c.pcs| ::
      && (s.c.pcs[t].Wait? ==>
            t in cfg.controls && s.h.req.Request?
            && s.h.req.seqnr == s.c.pcs[t].seqnr && s.h.req.pose == s.c.pcs[t].pose)
      && (Sending(s.c.pcs[t]) && s.c.pcs[t].kind == Pose ==> t in cfg.controls && s.h.req == NoRequest)
  }

  /** From the request's frame on, every frame carries its pose and none asks for another. */
  ghost predicate RequestWire(s: State, r: Request)
    requires r.Request?
  {
    && 1 <= r.frame < |s.w.sent|
    && s.w.sent[r.frame][IN_SEQNR] == r.seqnr && s.w.sent[r.frame][IN_CMD] == Code(Pose)
    && (forall n | r.frame <= n < |s.w.sent| :: PoseOf(s.w.sent[n]) == r.pose)
    && (forall n | r.frame < n < |s.w.sent| :: s.w.sent[n][IN_CMD] != Code(Pose))
    && PoseOf(s.c.inp) == r.pose
  }

  ghost predicate RequestController(cfg: Config, s: State, r: Request)
    requires r.Request?
  {
    && (s.m.pc.ReadPose? && s.m.seqnr >= r.seqnr ==>
          |s.m.pc.words| <= DOF && s.w.applied - 1 >= r.frame && s.m.pc.words == r.pose[..|s.m.pc.words|])
    && (s.g.tSeqnr >= r.seqnr ==> s.g.tPose == r.pose)
    && (s.k.seqnr >= r.seqnr ==> s.k.pose == r.pose)
    && (s.r.tag >= r.seqnr ==> s.r.qref == cfg.ik(r.pose))
    && (forall n: nat | IsData(s.w.emitted, n) && Tag(s.w.emitted, n) >= r.seqnr ::
          QrefOf(s.w.emitted[n].cells) == cfg.ik(r.pose))
  }

  ghost predicate HandshakeInv(cfg: Config, s: State) {
    && SolverInv(cfg, s) && HandOffInv(s) && ThreadsInv(cfg, s)
    && (s.h.req.Request? ==>
          s.h.req.seqnr >= 1 && RequestWire(s, s.h.req) && RequestController(cfg, s, s.h.req))
  }

  // ----- Controller steps -----

  lemma HandshakeReadCommand(cfg: Config, s: State)
    requires ValidConfig(cfg) && SentFacts(cfg, s) && ControllerChain(s) && HandshakeInv(cfg, s)
    requires MainEnabled(s, ReadCommand)
    ensures HandshakeInv(cfg, MainApply(s, ReadCommand))
  {
    var s', r := MainApply(s, ReadCommand), s.h.req;
    if s'.m.pc.ReadPose? {
      assert s.w.applied > 1;
      assert r.Request? && s.w.applied - 1 < r.frame ==> Regs(s.w)[IN_SEQNR] < s.w.sent[r.frame][IN_SEQNR];
    }
  }

  lemma HandshakeReadWord(cfg: Config, s: State)
    requires ControllerChain(s) && HandshakeInv(cfg, s) && MainEnabled(s, ReadWord)
    ensures HandshakeInv(cfg, MainApply(s, ReadWord))
  {
    var s', r := MainApply(s, ReadWord), s.h.req;
    if s.m.pc.ReadPose? && r.Request? && s.m.seqnr >= r.seqnr {
      assert PoseOf(Regs(s.w)) == r.pose;
      assert s'.m.pc.words == r.pose[..|s'.m.pc.words|];
    }
  }

  lemma HandshakeCommit(cfg: Config, s: State)
    requires ControllerChain(s) && HandshakeInv(cfg, s) && MainEnabled(s, Commit)
    ensures HandshakeInv(cfg, MainApply(s, Commit))
  {
    var s', r := MainApply(s, Commit), s.h.req;
    if s.m.pc.ReadPose? && r.Request? && s.m.seqnr >= r.seqnr {
      assert r.pose[..DOF] == r.pose;
    }
  }

  lemma HandshakeScriptStep(cfg: Config, s: State, st: MainStep)
    requires ValidConfig(cfg) && SentFacts(cfg, s) && ControllerChain(s) && HandshakeInv(cfg, s) && MainEnabled(s, st)
    ensures HandshakeInv(cfg, MainApply(s, st))
  {
    match st
    case ReadCommand => HandshakeReadCommand(cfg, s);
    case ReadWord => HandshakeReadWord(cfg, s);
    case Commit => HandshakeCommit(cfg, s);
    case _ =>
  }

  lemma HandshakeSolverStep(cfg: Config, s: State, st: IkStep)
    requires ControllerChain(s) && HandshakeInv(cfg, s) && IkEnabled(s, st)
    ensures HandshakeInv(cfg, IkApply(cfg, s, st))
  {
    var s', r := IkApply(cfg, s, st), s.h.req;
    match st
    case WriteOne =>
      var i, q := s.k.pc.i, s.k.pc.q;
      assert s'.r.qref[..i + 1] == q[..i + 1] by {
        assert s'.r.qref[..i + 1] == s.r.qref[..i] + [q[i]];
        assert q[..i + 1] == q[..i] + [q[i]];
      }
      if r.Request? && s.r.tag >= r.seqnr {
        assert s.r.qref == q;
        assert s'.r.qref == q;
      }
    case WriteTag =>
      assert s.r.qref[..DOF] == s.r.qref && s.k.pc.q[..DOF] == s.k.pc.q;
    case _ =>
  }

  lemma HandshakeLinkStep(cfg: Config, s: State, st: WireStep)
    requires HandshakeInv(cfg, s) && WireEnabled(s, st)
    ensures HandshakeInv(cfg, WireApply(s, st))
  {
    var s' := WireApply(s, st);
    forall n: nat | !st.Deliver? && IsData(s'.w.emitted, n)
      ensures if n < |s.w.emitted| then IsData(s.w.emitted, n) && s'.w.emitted[n] == s.w.emitted[n]
              else Tag(s'.w.emitted, n) == s.r.tag && QrefOf(s'.w.emitted[n].cells) == s.r.qref
    {
      if n == |s.w.emitted| {
        assert QrefOf(s'.w.emitted[n].cells) == s.r.qref;
      }
    }
  }

  lemma HandshakeRxStep(cfg: Config, s: State, st: RxStep)
    requires HandshakeInv(cfg, s) && RxEnabled(s, st)
    ensures HandshakeInv(cfg, RxApply(s, st))
  {
    var s' := RxApply(s, st);
    assert s'.w.sent == s.w.sent && s'.w.applied == s.w.applied && s'.w.emitted == s.w.emitted;
    assert s'.m == s.m && s'.g == s.g && s'.k == s.k && s'.r == s.r && s'.h.req == s.h.req;
    assert s'.c.inp == s.c.inp && s'.c.pcs == s.c.pcs;
  }

  // ----- Client steps -----

  lemma ThreadsKept(cfg: Config, s: State, t: nat, st: ClientStep)
    requires SingleControl(cfg) && LockInv(s) && ThreadsInv(cfg, s) && ClientEnabled(cfg, s, t, st)
    ensures ThreadsInv(cfg, ClientApply(cfg, s, t, st))
  {
    var s', pc := ClientApply(cfg, s, t, st), s.c.pcs[t];
    assert forall u | 0 <= u < |s.c.pcs| && u != t :: s'.c.pcs[u] == s.c.pcs[u];
    match st
    case BeginSend(kind, _) => assert kind == Pose ==> forall u | 0 <= u < |s.c.pcs| && s.c.pcs[u].Wait? :: u == t;
    case Transmit(ok) =>
      assert Holding(pc);
      if pc.kind == Pose && ok {
        assert forall u | 0 <= u < |s.c.pcs| && s.c.pcs[u].Wait? :: u == t;
        assert forall u | 0 <= u < |s.c.pcs| && Sending(s.c.pcs[u]) :: Holding(s.c.pcs[u]);
      }
    case _ => assert s'.h.req == s.h.req;
  }

  /** Any frame the client adds while a request is current carries the request's pose. */
  lemma RequestWireGrows(s: State, s': State, r: Request, frame: InCells)
    requires r.Request? && RequestWire(s, r)
    requires s'.w.sent == s.w.sent + [frame] && PoseOf(frame) == r.pose && frame[IN_CMD] != Code(Pose)
    requires PoseOf(s'.c.inp) == r.pose
    ensures RequestWire(s', r)
  {
  }

  /** Nothing in the controller or on the wires is numbered as high as the next call. */
  lemma NextIsNew(cfg: Config, s: State, t: nat, ok: bool)
    requires LockInv(s) && SenderInv(cfg, s) && ClientEnabled(cfg, s, t, Transmit(ok))
    requires s.w.sent != []
    ensures s.c.last >= 1 && NewestNumber(s.w.sent) < s.c.last == s.c.inp[IN_SEQNR]
    ensures s.c.pcs[t].dp == s.c.inp && s.c.inp[IN_CMD] == Code(s.c.pcs[t].kind)
    ensures s.c.pcs[t].kind == Pose ==> PoseOf(s.c.inp) == s.c.pcs[t].v
  {
    assert Holding(s.c.pcs[t]);
    LogLast(cfg, s);
    SentFactsHold(cfg, s);
    assert s.c.pcs[t].dp == s.c.inp;
  }

  /** The controller and the telemetry wire are as they were. */
  ghost predicate SameController(s: State, s': State) {
    && s'.m == s.m && s'.g == s.g && s'.k == s.k && s'.r == s.r
    && s'.w.emitted == s.w.emitted && s'.w.applied == s.w.applied
  }

  lemma ControllerStays(cfg: Config, s: State, s': State, r: Request)
    requires r.Request? && RequestController(cfg, s, r) && SameController(s, s')
    ensures RequestController(cfg, s', r)
  {
  }

  /** A request numbered above every frame sent finds nothing in the controller to contradict it. */
  lemma NothingThatNew(cfg: Config, s: State, r: Request)
    requires ChainInv(s) && HandOffInv(s) && r.Request? && NewestNumber(s.w.sent) < r.seqnr
    ensures RequestController(cfg, s, r)
  {
  }

  lemma NewRequestWire(s: State, t: nat)
    requires t < |s.c.pcs| && s.c.pcs[t].Store? && s.c.pcs[t].kind == Pose && s.w.sent != []
    requires s.c.pcs[t].dp == s.c.inp && PoseOf(s.c.inp) == s.c.pcs[t].v && s.c.inp[IN_CMD] == Code(Pose)
    ensures var inp := s.c.inp[IN_CMD := NO_COMMAND];
            var s' := s.(w := s.w.(sent := s.w.sent + [s.c.inp]), c := s.c.(inp := inp));
            RequestWire(s', Request(s.c.inp[IN_SEQNR], s.c.pcs[t].v, |s.w.sent|))
  {
    assert PoseOf(s.c.inp[IN_CMD := NO_COMMAND]) == PoseOf(s.c.inp);
  }

  lemma WireStays(s: State, s': State, r: Request)
    requires r.Request? && RequestWire(s, r) && s'.w.sent == s.w.sent && s'.c.inp == s.c.inp
    ensures RequestWire(s', r)
  {
  }

  lemma NewRequest(cfg: Config, s: State, t: nat)
    requires ChainInv(s) && HandOffInv(s) && ClientEnabled(cfg, s, t, Transmit(true)) && s.c.pcs[t].kind == Pose
    requires 1 <= s.c.inp[IN_SEQNR] && NewestNumber(s.w.sent) < s.c.inp[IN_SEQNR]
    requires s.c.pcs[t].dp == s.c.inp && PoseOf(s.c.inp) == s.c.pcs[t].v && s.c.inp[IN_CMD] == Code(Pose)
    ensures var s' := ClientApply(cfg, s, t, Transmit(true));
            s'.h.req.seqnr >= 1 && RequestWire(s', s'.h.req) && RequestController(cfg, s', s'.h.req)
  {
    var s', inp := ClientApply(cfg, s, t, Transmit(true)), s.c.inp[IN_CMD := NO_COMMAND];
    NewRequestWire(s, t);
    WireStays(s.(w := s.w.(sent := s.w.sent + [s.c.inp]), c := s.c.(inp := inp)), s', s'.h.req);
    NothingThatNew(cfg, s, s'.h.req);
    ControllerStays(cfg, s, s', s'.h.req);
  }

  lemma HandshakeTransmit(cfg: Config, s: State, t: nat, ok: bool)
    requires LockInv(s) && SenderInv(cfg, s) && ChainInv(s) && HandshakeInv(cfg, s)
    requires ClientEnabled(cfg, s, t, Transmit(ok))
    requires ThreadsInv(cfg, ClientApply(cfg, s, t, Transmit(ok)))
    ensures HandshakeInv(cfg, ClientApply(cfg, s, t, Transmit(ok)))
  {
    var s', pc := ClientApply(cfg, s, t, Transmit(ok)), s.c.pcs[t];
    NextIsNew(cfg, s, t, ok);
    assert SolverInv(cfg, s') && HandOffInv(s');
    if ok && pc.kind == Pose {
      NewRequest(cfg, s, t);
    } else if ok && s.h.req.Request? {
      RequestWireGrows(s, s', s.h.req, pc.dp);
      ControllerStays(cfg, s, s', s.h.req);
    }
  }

  lemma HandshakeStop(cfg: Config, s: State, t: nat, sent: bool)
    requires LockInv(s) && SenderInv(cfg, s) && ChainInv(s) && HandshakeInv(cfg, s)
    requires ClientEnabled(cfg, s, t, Stop(sent))
    requires ThreadsInv(cfg, ClientApply(cfg, s, t, Stop(sent)))
    ensures HandshakeInv(cfg, ClientApply(cfg, s, t, Stop(sent)))
  {
    var s' := ClientApply(cfg, s, t, Stop(sent));
    LogLast(cfg, s);
    SentFactsHold(cfg, s);
    assert NewestNumber(s.w.sent) < s'.c.last;
    var frame := Numbered(s.c.inp, s'.c.last, Halt);
    assert PoseOf(frame) == PoseOf(s.c.inp);
    if s.h.req.Request? && sent {
      RequestWireGrows(s, s', s.h.req, frame);
    }
  }

  /** A step of a call that sends nothing yet and keeps the request's pose in the input cells. */
  lemma HandshakeAside(cfg: Config, s: State, s': State)
    requires HandshakeInv(cfg, s) && ThreadsInv(cfg, s') && SameController(s, s')
    requires s'.w.sent == s.w.sent && s'.h.req == s.h.req
    requires s.h.req.Request? ==> PoseOf(s'.c.inp) == PoseOf(s.c.inp)
    ensures HandshakeInv(cfg, s')
  {
    if s.h.req.Request? {
      ControllerStays(cfg, s, s', s.h.req);
    }
  }

  lemma HandshakeFill(cfg: Config, s: State, t: nat)
    requires ClientEnabled(cfg, s, t, FillOne) && LockInv(s) && SenderInv(cfg, s) && HandshakeInv(cfg, s)
    requires ThreadsInv(cfg, ClientApply(cfg, s, t, FillOne))
    ensures HandshakeInv(cfg, ClientApply(cfg, s, t, FillOne))
  {
    var pc, s' := s.c.pcs[t], ClientApply(cfg, s, t, FillOne);
    assert Holding(pc);
    assert pc.kind == Speed ==> PoseOf(s'.c.inp) == PoseOf(s.c.inp);
    HandshakeAside(cfg, s, s');
  }

  lemma HandshakeBegin(cfg: Config, s: State, t: nat, st: ClientStep)
    requires ClientEnabled(cfg, s, t, st) && st.BeginSend? && HandshakeInv(cfg, s)
    requires ThreadsInv(cfg, ClientApply(cfg, s, t, st))
    ensures HandshakeInv(cfg, ClientApply(cfg, s, t, st))
  {
    var s' := ClientApply(cfg, s, t, st);
    assert s'.w == s.w && s'.m == s.m && s'.g == s.g && s'.k == s.k && s'.r == s.r && s'.c.inp == s.c.inp;
  }

  lemma HandshakeQuiet(cfg: Config, s: State, t: nat, st: ClientStep)
    requires ClientEnabled(cfg, s, t, st) && HandshakeInv(cfg, s) && ThreadsInv(cfg, ClientApply(cfg, s, t, st))
    requires !st.BeginSend? && !st.FillOne? && !st.Transmit? && !st.Stop?
    ensures HandshakeInv(cfg, ClientApply(cfg, s, t, st))
  {
    var s' := ClientApply(cfg, s, t, st);
    assert PoseOf(s'.c.inp) == PoseOf(s.c.inp);
    HandshakeAside(cfg, s, s');
  }

  lemma HandshakeClientStep(cfg: Config, s: State, t: nat, st: ClientStep)
    requires SingleControl(cfg) && ClientEnabled(cfg, s, t, st)
    requires LockInv(s) && SenderInv(cfg, s) && ChainInv(s) && HandshakeInv(cfg, s)
    ensures HandshakeInv(cfg, ClientApply(cfg, s, t, st))
  {
    ThreadsKept(cfg, s, t, st);
    match st
    case Transmit(ok) => HandshakeTransmit(cfg, s, t, ok);
    case Stop(sent) => HandshakeStop(cfg, s, t, sent);
    case FillOne => HandshakeFill(cfg, s, t);
    case BeginSend(_, _) => HandshakeBegin(cfg, s, t, st);
    case _ => HandshakeQuiet(cfg, s, t, st);
  }

  lemma HandshakeStep(cfg: Config, s: State, st: Step)
    requires ValidConfig(cfg) && SingleControl(cfg) && Enabled(cfg, s, st)
    requires LockInv(s) && SenderInv(cfg, s) && ChainInv(s) && HandshakeInv(cfg, s)
    ensures HandshakeInv(cfg, Apply(cfg, s, st))
  {
    match st
    case ThreadStep(t, cs) => HandshakeClientStep(cfg, s, t, cs);
    case ReceiverStep(rs) => HandshakeRxStep(cfg, s, rs);
    case LinkStep(ws) => HandshakeLinkStep(cfg, s, ws);
    case ScriptStep(ms) => SentFactsHold(cfg, s); HandshakeScriptStep(cfg, s, ms);
    case SolverStep(ks) => HandshakeSolverStep(cfg, s, ks);
  }

  /** Outside the receiver's critical section, a published tag at or past the request's number
      comes with the request's answer. */
  lemma PublishedAnswer(cfg: Config, s: State)
    requires PublishInv(s) && HandshakeInv(cfg, s)
    requires s.h.req.Request? && s.c.lock != Receiver && s.c.pub[OUT_TAG] >= s.h.req.seqnr
    ensures QrefOf(s.c.pub) == cfg.ik(s.h.req.pose)
  {
    var n := |s.h.pubs|;
    assert s.c.pub == PubAt(s, n);
    assert n >= 1;
    assert IsData(s.w.emitted, s.h.pubs[n - 1]) && Tag(s.w.emitted, s.h.pubs[n - 1]) >= s.h.req.seqnr;
  }
}

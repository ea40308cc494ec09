/** Callers that let at most one command go unacknowledged keep the registers still while the
    script reads them: frames that land meanwhile are stops, which repeat the vectors. */
module PacingInvariant {
  import opened Cells
  import opened CommandLog
  import opened Protocol
  import opened SenderInvariant
  import opened ChainInvariant
  import opened ScriptInvariant

  ghost predicate SameVectors(a: InCells, b: InCells) {
    QdOf(a) == QdOf(b) && PoseOf(a) == PoseOf(b)
  }

  /** The newest command frame has not been acknowledged, as far as the client can see. */
  ghost predicate Outstanding(s: State) {
    |s.w.sent| >= 2 && s.w.sent[|s.w.sent| - 1][IN_SEQNR] > s.c.pub[OUT_SEQNR]
  }

  /** Only a stop follows an unacknowledged command, and with the same vectors. */
  ghost predicate PacedFrame(s: State, k: nat)
    requires 2 <= k < |s.w.sent|
  {
    s.w.sent[k - 1][IN_SEQNR] > s.c.pub[OUT_SEQNR] ==>
      s.w.sent[k][IN_CMD] == Code(Halt) && SameVectors(s.w.sent[k], s.w.sent[k - 1])
  }

  ghost predicate PacedInv(s: State) {
    && (forall k | 2 <= k < |s.w.sent| :: PacedFrame(s, k))
    && (Outstanding(s) ==> !Busy(s) && SameVectors(s.c.inp, s.w.sent[|s.w.sent| - 1]))
  }

  lemma PacedFrameStep(s: State, s': State)
    requires PacedInv(s) && s'.w.sent == s.w.sent && s.c.pub[OUT_SEQNR] <= s'.c.pub[OUT_SEQNR]
    requires Outstanding(s') ==> !Busy(s') && SameVectors(s'.c.inp, s.c.inp)
    ensures PacedInv(s')
  {
    forall k | 2 <= k < |s'.w.sent|
      ensures PacedFrame(s', k)
    {
      assert PacedFrame(s, k);
    }
  }

  /** A frame that may go out: a stop, or any frame when nothing is outstanding. */
  lemma PacedFrameSent(s: State, s': State, frame: InCells)
    requires PacedInv(s) && s'.w.sent == s.w.sent + [frame] && s'.c.pub == s.c.pub
    requires !Outstanding(s) || (frame[IN_CMD] == Code(Halt) && SameVectors(frame, s.c.inp))
    requires !Busy(s') && SameVectors(s'.c.inp, frame)
    ensures PacedInv(s')
  {
    forall k | 2 <= k < |s'.w.sent|
      ensures PacedFrame(s', k)
    {
      assert k < |s.w.sent| ==> PacedFrame(s, k);
    }
  }

  lemma PacedTransmit(cfg: Config, s: State, t: nat, ok: bool)
    requires LockInv(s) && SenderInv(cfg, s) && PacedInv(s) && ClientEnabled(cfg, s, t, Transmit(ok))
    ensures PacedInv(ClientApply(cfg, s, t, Transmit(ok)))
  {
    var s', pc := ClientApply(cfg, s, t, Transmit(ok)), s.c.pcs[t];
    assert Holding(pc) && Busy(s);
    assert pc.dp == s.c.inp;
    if ok {
      PacedFrameSent(s, s', pc.dp);
    } else {
      PacedFrameStep(s, s');
    }
  }

  lemma PacedStop(cfg: Config, s: State, t: nat, sent: bool)
    requires LockInv(s) && PacedInv(s) && ClientEnabled(cfg, s, t, Stop(sent))
    ensures PacedInv(ClientApply(cfg, s, t, Stop(sent)))
  {
    var s' := ClientApply(cfg, s, t, Stop(sent));
    assert SameVectors(s'.c.inp, s.c.inp);
    assert forall u | 0 <= u < |s'.c.pcs| :: !Sending(s'.c.pcs[u]);
    if sent {
      PacedFrameSent(s, s', s'.c.inp);
    } else {
      PacedFrameStep(s, s');
    }
  }

  /** A step inside a call: the sender's copy loops, while nothing is outstanding. */
  lemma PacedCopying(cfg: Config, s: State, t: nat, st: ClientStep)
    requires LockInv(s) && PacedInv(s) && ClientEnabled(cfg, s, t, st) && (st.FillOne? || st.Number? || st.StoreOne?)
    ensures PacedInv(ClientApply(cfg, s, t, st))
  {
    assert Holding(s.c.pcs[t]) && Busy(s);
    PacedFrameStep(s, ClientApply(cfg, s, t, st));
  }

  lemma PacedBegin(cfg: Config, s: State, t: nat, st: ClientStep)
    requires cfg.window <= 1 && PacedInv(s) && ClientEnabled(cfg, s, t, st) && st.BeginSend?
    ensures PacedInv(ClientApply(cfg, s, t, st))
  {
    assert !Outstanding(s);
    PacedFrameStep(s, ClientApply(cfg, s, t, st));
  }

  lemma PacedQuiet(cfg: Config, s: State, t: nat, st: ClientStep)
    requires LockInv(s) && PacedInv(s) && ClientEnabled(cfg, s, t, st)
    requires st.WaitHit? || st.WaitTimeout? || st.BeginRead? || st.CopyOne? || st.EndRead? || st.EndStop?
    ensures PacedInv(ClientApply(cfg, s, t, st))
  {
    assert Holding(s.c.pcs[t]) <==> s.c.lock == Client(t);
    PacedFrameStep(s, ClientApply(cfg, s, t, st));
  }

  lemma PacedClientStep(cfg: Config, s: State, t: nat, st: ClientStep)
    requires cfg.window <= 1 && LockInv(s) && SenderInv(cfg, s) && PacedInv(s) && ClientEnabled(cfg, s, t, st)
    ensures PacedInv(ClientApply(cfg, s, t, st))
  {
    match st
    case BeginSend(_, _) => PacedBegin(cfg, s, t, st);
    case FillOne => PacedCopying(cfg, s, t, st);
    case Number => PacedCopying(cfg, s, t, st);
    case StoreOne => PacedCopying(cfg, s, t, st);
    case Transmit(ok) => PacedTransmit(cfg, s, t, ok);
    case Stop(sent) => PacedStop(cfg, s, t, sent);
    case _ => PacedQuiet(cfg, s, t, st);
  }

  lemma PacedRxStep(s: State, st: RxStep)
    requires LockInv(s) && PacedInv(s) && RxEnabled(s, st)
    requires s.c.pub[OUT_SEQNR] <= RxApply(s, st).c.pub[OUT_SEQNR]
    ensures PacedInv(RxApply(s, st))
  {
    PacedFrameStep(s, RxApply(s, st));
  }

  /** The sender and what it sees of the acknowledgements are as they were. */
  lemma PacedAside(s: State, s': State)
    requires PacedInv(s) && s'.c == s.c && s'.w.sent == s.w.sent
    ensures PacedInv(s')
  {
    PacedFrameStep(s, s');
  }

  lemma PacedStep(cfg: Config, s: State, st: Step)
    requires cfg.window <= 1 && LockInv(s) && SenderInv(cfg, s) && PacedInv(s) && Enabled(cfg, s, st)
    requires s.c.pub[OUT_SEQNR] <= Apply(cfg, s, st).c.pub[OUT_SEQNR]
    ensures PacedInv(Apply(cfg, s, st))
  {
    match st
    case ThreadStep(t, cs) => PacedClientStep(cfg, s, t, cs);
    case ReceiverStep(rs) => PacedRxStep(s, rs);
    case LinkStep(ws) => PacedAside(s, WireApply(s, ws));
    case ScriptStep(ms) => PacedAside(s, MainApply(s, ms));
    case SolverStep(ks) => PacedAside(s, IkApply(cfg, s, ks));
  }

  // ----- What the script reads -----

  /** Frame f's number has not been acknowledged on the controller, so it has not been published
      as acknowledged; then the frames after it are stops with its vectors. */
  lemma {:induction false} StillSince(cfg: Config, s: State, f: nat, g: nat)
    requires SentFacts(cfg, s) && PacedInv(s) && 1 <= f <= g < |s.w.sent|
    requires s.w.sent[f][IN_SEQNR] > s.c.pub[OUT_SEQNR]
    ensures SameVectors(s.w.sent[g], s.w.sent[f]) && (f < g ==> s.w.sent[g][IN_CMD] == Code(Halt))
    decreases g
  {
    if f < g {
      StillSince(cfg, s, f, g - 1);
      assert PacedFrame(s, g);
    }
  }

  /** A speed or pose action is on the whole command of one frame: the one its number came from,
      or the first command's if the number came from the registration frame. */
  ghost predicate Whole(w: WireState, e: Handled) {
    e.cmd == Code(Speed) || e.cmd == Code(Pose) ==>
      && e.ats != [] && e.ats[0] == (if e.from == 0 then 1 else e.from) < |w.sent|
      && e.cmd == w.sent[e.ats[0]][IN_CMD] && e.data == Payload(w.sent[e.ats[0]], e.cmd)
  }

  ghost predicate WholeSoFar(s: State)
    requires Carrying(s.m.pc)
  {
    CmdOf(s.m.pc) != Code(Halt) ==>
      && s.m.ats != [] && s.m.ats[0] == (if s.m.from == 0 then 1 else s.m.from) < |s.w.sent|
      && |WordsOf(s.m.pc)| <= DOF
      && WordsOf(s.m.pc) == Payload(s.w.sent[s.m.ats[0]], CmdOf(s.m.pc))[..|WordsOf(s.m.pc)|]
  }

  ghost predicate WholeInv(s: State) {
    && (forall i | 0 <= i < |s.h.handled| :: Whole(s.w, s.h.handled[i]))
    && (Carrying(s.m.pc) ==> WholeSoFar(s))
  }

  lemma WholeFrame(s: State, s': State)
    requires WholeInv(s) && s'.m == s.m && s'.h.handled == s.h.handled
    requires |s.w.sent| <= |s'.w.sent| && s.w.sent == s'.w.sent[..|s.w.sent|]
    ensures WholeInv(s')
  {
    forall i | 0 <= i < |s.h.handled|
      ensures Whole(s'.w, s'.h.handled[i])
    {
      assert Whole(s.w, s.h.handled[i]);
    }
  }

  /** While the script is reading, the frame it took the number from, or the one after the
      registration's, is unacknowledged. */
  lemma ReadingUnacked(cfg: Config, s: State, f: nat)
    requires ValidConfig(cfg) && SentFacts(cfg, s) && ChainInv(s) && ScriptInv(s) && Reading(s.m.pc)
    requires s.m.from <= f < |s.w.sent| && f >= 1
    ensures s.w.sent[f][IN_SEQNR] > s.c.pub[OUT_SEQNR]
  {
    assert s.c.pub[OUT_SEQNR] <= s.r.ack < s.m.oldSeqnr == s.w.sent[s.m.from][IN_SEQNR];
  }

  /** The command being read is the first one that could have been. */
  lemma NoneBetween(cfg: Config, s: State)
    requires ValidConfig(cfg) && SentFacts(cfg, s) && ChainInv(s) && ScriptInv(s) && PacedInv(s)
    requires s.m.pc == ReadCmd && (Regs(s.w)[IN_CMD] == Code(Speed) || Regs(s.w)[IN_CMD] == Code(Pose))
    ensures s.w.applied - 1 == if s.m.from == 0 then 1 else s.m.from
  {
    var c, first := s.w.applied - 1, if s.m.from == 0 then 1 else s.m.from;
    assert c >= 1;
    ReadingUnacked(cfg, s, first);
    StillSince(cfg, s, first, c);
  }

  lemma WholeReadCommand(cfg: Config, s: State)
    requires ValidConfig(cfg) && SentFacts(cfg, s) && ChainInv(s) && ScriptInv(s) && PacedInv(s) && WholeInv(s)
    requires MainEnabled(s, ReadCommand)
    ensures WholeInv(MainApply(s, ReadCommand))
  {
    var cmd := Regs(s.w)[IN_CMD];
    if cmd == Code(Speed) || cmd == Code(Pose) {
      NoneBetween(cfg, s);
    }
    TakenWhole(s);
  }

  lemma TakenWhole(s: State)
    requires WholeInv(s) && MainEnabled(s, ReadCommand)
    requires Regs(s.w)[IN_CMD] == Code(Speed) || Regs(s.w)[IN_CMD] == Code(Pose) ==>
               s.w.applied - 1 == if s.m.from == 0 then 1 else s.m.from
    ensures WholeInv(MainApply(s, ReadCommand))
  {
    var s' := MainApply(s, ReadCommand);
    assert s'.m.pc == Ack ==> Whole(s.w, s'.h.handled[|s.h.handled|]);
  }

  /** The registers' vectors are still those of the frame the command was read from. */
  lemma StillThere(cfg: Config, s: State)
    requires ValidConfig(cfg) && SentFacts(cfg, s) && ChainInv(s) && ScriptInv(s) && PacedInv(s)
    requires s.m.pc.ReadQd? || s.m.pc.ReadPose?
    ensures s.m.ats != [] && 1 <= s.m.ats[0] < |s.w.sent| && SameVectors(Regs(s.w), s.w.sent[s.m.ats[0]])
  {
    var f := s.m.ats[0];
    assert f <= s.m.ats[|s.m.ats| - 1] <= s.w.applied - 1;
    assert f >= 1;
    ReadingUnacked(cfg, s, f);
    StillSince(cfg, s, f, s.w.applied - 1);
  }

  lemma PrefixGrows(whole: seq<Word>, n: nat)
    requires n < |whole|
    ensures whole[..n] + [whole[n]] == whole[..n + 1]
  {
  }

  lemma WholeReadWord(s: State)
    requires WholeInv(s) && MainEnabled(s, ReadWord)
    requires s.m.ats != [] && s.m.ats[0] < |s.w.sent| && SameVectors(Regs(s.w), s.w.sent[s.m.ats[0]])
    ensures WholeInv(MainApply(s, ReadWord))
  {
    PrefixGrows(Payload(s.w.sent[s.m.ats[0]], CmdOf(s.m.pc)), |s.m.pc.words|);
  }

  lemma WholeCommit(cfg: Config, s: State)
    requires ScriptInv(s) && WholeInv(s) && MainEnabled(s, Commit)
    ensures WholeInv(MainApply(s, Commit))
  {
    var s' := MainApply(s, Commit);
    assert Carrying(s.m.pc) && WholeSoFar(s);
    if CmdOf(s.m.pc) != Code(Halt) {
      var whole := Payload(s.w.sent[s.m.ats[0]], CmdOf(s.m.pc));
      assert whole[..DOF] == whole;
      assert CmdOf(s.m.pc) == s.w.sent[s.m.ats[0]][IN_CMD];
    }
    assert Whole(s.w, s'.h.handled[|s.h.handled|]);
  }

  lemma WholeScriptStep(cfg: Config, s: State, st: MainStep)
    requires ValidConfig(cfg) && SentFacts(cfg, s) && ChainInv(s) && ScriptInv(s) && PacedInv(s) && WholeInv(s)
    requires MainEnabled(s, st)
    ensures WholeInv(MainApply(s, st))
  {
    match st
    case ReadCommand => WholeReadCommand(cfg, s);
    case ReadWord =>
      StillThere(cfg, s);
      WholeReadWord(s);
    case Commit => WholeCommit(cfg, s);
    case _ => WholeAside(s, st);
  }

  lemma WholeAside(s: State, st: MainStep)
    requires WholeInv(s) && MainEnabled(s, st) && (st.ReadSeqnr? || st.WriteAck? || st.Leave?)
    ensures WholeInv(MainApply(s, st))
  {
  }

  lemma WholeStep(cfg: Config, s: State, st: Step)
    requires ValidConfig(cfg) && SentFacts(cfg, s) && ChainInv(s) && ScriptInv(s) && PacedInv(s) && WholeInv(s)
    requires Enabled(cfg, s, st)
    ensures WholeInv(Apply(cfg, s, st))
  {
    WiresGrow(cfg, s, st);
    match st
    case ScriptStep(ms) => WholeScriptStep(cfg, s, ms);
    case ThreadStep(t, cs) => WholeFrame(s, ClientApply(cfg, s, t, cs));
    case ReceiverStep(rs) => WholeFrame(s, RxApply(s, rs));
    case LinkStep(ws) => WholeFrame(s, WireApply(s, ws));
    case SolverStep(ks) => WholeFrame(s, IkApply(cfg, s, ks));
  }
}

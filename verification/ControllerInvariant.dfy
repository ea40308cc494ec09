/** What the script's variables and output registers hold, said by what it has acted on. */
module ControllerInvariant {
  import opened Cells
  import opened Protocol
  import opened ChainInvariant
  import opened ScriptInvariant

  ghost predicate Halted(handled: seq<Handled>) {
    exists i :: 0 <= i < |handled| && handled[i].cmd == 1
  }

  /** The speeds to run: the last speed action's, or none if there is none or a stop came after it. */
  function LastSpeed(handled: seq<Handled>): seq<Word> {
    if handled == [] then ZERO_VEC
    else
      var e := handled[|handled| - 1];
      if e.cmd == 2 then e.data else if e.cmd == 1 then ZERO_VEC else LastSpeed(handled[..|handled| - 1])
  }

  /** The last pose action; numbered 0 if there is none. */
  function LastPose(handled: seq<Handled>): Handled {
    if handled == [] then Handled(0, 3, ZERO_VEC, 0, [])
    else
      var e := handled[|handled| - 1];
      if e.cmd == 3 then e else LastPose(handled[..|handled| - 1])
  }

  ghost predicate SlotsInv(s: State) {
    && (s.g.keepRunning <==> !Halted(s.h.handled))
    && s.g.tqd == LastSpeed(s.h.handled)
    && (s.g.updatedQd <==> exists i :: 0 <= i < |s.h.handled| && s.h.handled[i].cmd == 2)
    && s.g.tSeqnr == LastPose(s.h.handled).seqnr && s.g.tPose == LastPose(s.h.handled).data
  }

  /** The loops end only when they are told to; at its head the main loop has acknowledged all. */
  ghost predicate LoopsInv(s: State) {
    && (s.m.pc == Top || s.m.pc == Exited ==> s.r.ack == s.m.oldSeqnr)
    && (s.m.pc == Exited || s.k.pc == IkExited ==> !s.g.keepRunning)
  }

  /** The inverse-kinematics thread writes the six angles of its own pose, in order. */
  ghost predicate SolverInv(cfg: Config, s: State) {
    s.k.pc.IkWrite? ==>
      s.k.pc.i <= DOF && s.k.pc.q == cfg.ik(s.k.pose) && s.r.qref[..s.k.pc.i] == s.k.pc.q[..s.k.pc.i]
  }

  ghost predicate Solving(pc: IkPc) {
    pc.IkCompute? || pc.IkWrite?
  }

  /** A pose handed over is waiting or taken, and a pose taken is being solved or answered. */
  ghost predicate AnswerInv(cfg: Config, s: State) {
    && SolverInv(cfg, s)
    && (!s.g.updatedPose ==> s.k.pose == s.g.tPose && s.k.seqnr == s.g.tSeqnr)
    && (!Solving(s.k.pc) ==> s.r.tag == s.k.seqnr && (s.k.seqnr > 0 ==> s.r.qref == cfg.ik(s.k.pose)))
  }

  ghost predicate ControllerInv(cfg: Config, s: State) {
    SlotsInv(s) && LoopsInv(s) && AnswerInv(cfg, s)
  }

  lemma OneMoreHandled(handled: seq<Handled>, e: Handled)
    ensures var more := handled + [e];
            && (Halted(more) <==> Halted(handled) || e.cmd == 1)
            && LastSpeed(more) == (if e.cmd == 2 then e.data else if e.cmd == 1 then ZERO_VEC else LastSpeed(handled))
            && LastPose(more) == (if e.cmd == 3 then e else LastPose(handled))
            && ((exists i :: 0 <= i < |more| && more[i].cmd == 2) <==>
                  (exists i :: 0 <= i < |handled| && handled[i].cmd == 2) || e.cmd == 2)
  {
    var more := handled + [e];
    assert more[..|handled|] == handled && more[|handled|] == e;
    assert forall i | 0 <= i < |handled| :: more[i] == handled[i];
  }

  lemma SlotsCommit(s: State)
    requires ScriptInv(s) && SlotsInv(s) && MainEnabled(s, Commit)
    ensures SlotsInv(MainApply(s, Commit))
  {
    OneMoreHandled(s.h.handled, Handled(s.m.seqnr, CmdOf(s.m.pc), WordsOf(s.m.pc), s.m.from, s.m.ats));
  }

  lemma SlotsReadCommand(s: State)
    requires SlotsInv(s) && MainEnabled(s, ReadCommand)
    ensures SlotsInv(MainApply(s, ReadCommand))
  {
    OneMoreHandled(s.h.handled, Handled(s.m.seqnr, Regs(s.w)[IN_CMD], [], s.m.from, [s.w.applied - 1]));
  }

  lemma SlotsFrame(s: State, s': State)
    requires SlotsInv(s) && s'.h.handled == s.h.handled && s'.g == s.g.(updatedPose := s'.g.updatedPose)
    ensures SlotsInv(s')
  {
  }

  lemma SlotsScriptStep(s: State, st: MainStep)
    requires ScriptInv(s) && SlotsInv(s) && MainEnabled(s, st)
    ensures SlotsInv(MainApply(s, st))
  {
    match st
    case Commit => SlotsCommit(s);
    case ReadCommand => SlotsReadCommand(s);
    case _ => SlotsFrame(s, MainApply(s, st));
  }

  lemma LoopsScriptStep(s: State, st: MainStep)
    requires ControllerChain(s) && LoopsInv(s) && MainEnabled(s, st)
    ensures LoopsInv(MainApply(s, st))
  {
  }

  lemma AnswerScriptStep(cfg: Config, s: State, st: MainStep)
    requires AnswerInv(cfg, s) && MainEnabled(s, st)
    ensures AnswerInv(cfg, MainApply(s, st))
  {
  }

  lemma WriteOneKeeps(cfg: Config, s: State)
    requires SolverInv(cfg, s) && IkEnabled(s, WriteOne)
    ensures SolverInv(cfg, IkApply(cfg, s, WriteOne))
  {
    var s', i, q := IkApply(cfg, s, WriteOne), s.k.pc.i, s.k.pc.q;
    assert s'.r.qref[..i + 1] == s.r.qref[..i] + [q[i]];
    assert q[..i + 1] == q[..i] + [q[i]];
  }

  lemma AnswerSolverStep(cfg: Config, s: State, st: IkStep)
    requires AnswerInv(cfg, s) && IkEnabled(s, st)
    ensures AnswerInv(cfg, IkApply(cfg, s, st))
  {
    match st
    case WriteOne => WriteOneKeeps(cfg, s);
    case WriteTag => assert s.r.qref[..DOF] == s.r.qref && s.k.pc.q[..DOF] == s.k.pc.q;
    case _ =>
  }

  lemma ControllerSolverStep(cfg: Config, s: State, st: IkStep)
    requires ControllerInv(cfg, s) && IkEnabled(s, st)
    ensures ControllerInv(cfg, IkApply(cfg, s, st))
  {
    var s' := IkApply(cfg, s, st);
    SlotsFrame(s, s');
    AnswerSolverStep(cfg, s, st);
    assert LoopsInv(s');
  }

  /** A step of the client or of the wires. */
  lemma ControllerAside(cfg: Config, s: State, s': State)
    requires ControllerInv(cfg, s)
    requires s'.m == s.m && s'.g == s.g && s'.k == s.k && s'.r == s.r && s'.h.handled == s.h.handled
    ensures ControllerInv(cfg, s')
  {
  }

  lemma ControllerStep(cfg: Config, s: State, st: Step)
    requires ControllerChain(s) && ScriptInv(s) && ControllerInv(cfg, s) && Enabled(cfg, s, st)
    ensures ControllerInv(cfg, Apply(cfg, s, st))
  {
    match st
    case ScriptStep(ms) =>
      SlotsScriptStep(s, ms);
      LoopsScriptStep(s, ms);
      AnswerScriptStep(cfg, s, ms);
    case SolverStep(ks) => ControllerSolverStep(cfg, s, ks);
    case ThreadStep(t, cs) => ControllerAside(cfg, s, ClientApply(cfg, s, t, cs));
    case ReceiverStep(rs) => ControllerAside(cfg, s, RxApply(s, rs));
    case LinkStep(ws) => ControllerAside(cfg, s, WireApply(s, ws));
  }
}

/** Runs that show where the guarantees end. */
module Witnesses {
  import opened Cells
  import opened CommandLog
  import opened Protocol
  import opened Passages
  import opened Handshake

  /** The registration frame's number is taken for the first command's: the script has acted on
      number 1 already, so with the first command in the registers its loop does nothing. */
  lemma FirstCommandSkipped(cfg: Config, t: nat, v: Vec) returns (s: State)
    requires ValidConfig(cfg) && t < cfg.threads
    ensures Reachable(cfg, s) && WireOk(s.w) && s.w.applied == |s.w.sent| == 2
    ensures Regs(s.w)[IN_CMD] == Code(Speed) && QdOf(Regs(s.w)) == v
    ensures MainEnabled(s, ReadSeqnr) && MainApply(s, ReadSeqnr) == s
    ensures s.h.handled == [Handled(1, NO_COMMAND, [], 0, [0])]
  {
    var o := InitialState(cfg);
    Start(cfg, o);
    s := ActOnRegistration(cfg, o);
    s := SendSpeed(cfg, o, s, t, v);
  }

  lemma ActOnRegistration(cfg: Config, o: State) returns (s: State)
    requires ValidConfig(cfg) && o == InitialState(cfg) && Leads(cfg, o, o)
    ensures Leads(cfg, o, s) && s.c == o.c && s.w == o.w && s.g == o.g && s.m == MainState(Top, 1, 1, 0, [0])
    ensures s.h.handled == [Handled(1, NO_COMMAND, [], 0, [0])]
  {
    Extend(cfg, o, o, ScriptStep(ReadSeqnr));
    s := Apply(cfg, o, ScriptStep(ReadSeqnr));
    Extend(cfg, o, s, ScriptStep(ReadCommand));
    s := Apply(cfg, s, ScriptStep(ReadCommand));
    Extend(cfg, o, s, ScriptStep(WriteAck));
    s := Apply(cfg, s, ScriptStep(WriteAck));
  }

  /** A speed command is sent, undisturbed, and lands in the registers. */
  lemma SendSpeed(cfg: Config, o: State, s: State, t: nat, v: Vec) returns (s': State)
    requires Leads(cfg, o, s) && CanSend(cfg, s, t, Speed) && s.w.applied == |s.w.sent| >= 1
    ensures Leads(cfg, o, s') && s'.w.applied == |s'.w.sent| == |s.w.sent| + 1
    ensures s'.w.sent[..|s.w.sent|] == s.w.sent
    ensures Regs(s'.w)[IN_SEQNR] == NextSeqnr(s.c.last) && Regs(s'.w)[IN_CMD] == Code(Speed) && QdOf(Regs(s'.w)) == v
    ensures s'.c.pcs == s.c.pcs[t := Idle] && s'.c.lock == Free && s'.c.pub == s.c.pub && s'.c.last == NextSeqnr(s.c.last)
    ensures s'.m == s.m && s'.g == s.g && s'.h.handled == s.h.handled && s'.w.received == s.w.received && s'.w.emitted == s.w.emitted
  {
    s' := SendAll(cfg, o, s, t, Speed, v, true);
    assert QdOf(s'.w.sent[|s.w.sent|]) == v;
    s' := LandNext(cfg, o, s');
  }

  /** The script starts on the speed command in the registers. */
  lemma StartOnSpeed(cfg: Config, o: State, s: State) returns (s': State)
    requires Leads(cfg, o, s) && WireOk(s.w) && s.m.pc == Top && s.g.keepRunning
    requires Regs(s.w)[IN_SEQNR] != s.m.oldSeqnr && Regs(s.w)[IN_CMD] == Code(Speed)
    ensures Leads(cfg, o, s') && s' == s.(m := s'.m)
    ensures s'.m.pc == ReadQd([]) && s'.m.seqnr == Regs(s.w)[IN_SEQNR]
    ensures s'.m.from == s.w.applied - 1 && s'.m.ats == [s.w.applied - 1]
  {
    s' := TakeNumber(cfg, o, s);
    s' := TakeSpeed(cfg, o, s');
  }

  lemma TakeNumber(cfg: Config, o: State, s: State) returns (s': State)
    requires Leads(cfg, o, s) && WireOk(s.w) && s.m.pc == Top && s.g.keepRunning
    requires Regs(s.w)[IN_SEQNR] != s.m.oldSeqnr
    ensures Leads(cfg, o, s')
    ensures s' == s.(m := MainState(ReadCmd, Regs(s.w)[IN_SEQNR], Regs(s.w)[IN_SEQNR], s.w.applied - 1, []))
  {
    Extend(cfg, o, s, ScriptStep(ReadSeqnr));
    s' := Apply(cfg, s, ScriptStep(ReadSeqnr));
  }

  lemma TakeSpeed(cfg: Config, o: State, s: State) returns (s': State)
    requires Leads(cfg, o, s) && WireOk(s.w) && s.m.pc == ReadCmd && Regs(s.w)[IN_CMD] == Code(Speed)
    ensures Leads(cfg, o, s') && s' == MidRead(s, false, [], [s.w.applied - 1])
  {
    Extend(cfg, o, s, ScriptStep(ReadCommand));
    s' := Apply(cfg, s, ScriptStep(ReadCommand));
  }

  /** The script reads on to n words of a speed command, all from one frame. */
  lemma ReadQdTo(cfg: Config, o: State, s: State, n: nat) returns (s': State)
    requires Leads(cfg, o, s) && WireOk(s.w) && s.m.pc.ReadQd? && |s.m.pc.words| <= n <= DOF
    ensures Leads(cfg, o, s') && s.m.ats <= s'.m.ats
    ensures s' == MidRead(s, false, s.m.pc.words + QdOf(Regs(s.w))[|s.m.pc.words|..n], s'.m.ats)
  {
    assert MidRead(s, false, s.m.pc.words, s.m.ats) == s;
    var ats := ReadTo(cfg, o, s, false, s.m.pc.words, s.m.ats, n);
    s' := MidRead(s, false, ReadOn(Regs(s.w), false, s.m.pc.words, n), ats);
  }

  /** The script reads the first word of the first command, then the second command lands. */
  lemma HalfRead(cfg: Config, o: State, t: nat, v: Vec, w: Vec) returns (s: State)
    requires ValidConfig(cfg) && o == InitialState(cfg) && t < cfg.threads && cfg.window >= 2
    ensures Leads(cfg, o, s) && WireOk(s.w) && |s.w.sent| == 3 && s.w.applied == 3
    ensures s.w.sent[1][IN_CMD] == Code(Speed) && QdOf(s.w.sent[1]) == v && QdOf(Regs(s.w)) == w
    ensures s.m.pc == ReadQd(v[..1]) && s.m.ats != [] && s.m.ats[0] == 1 && s.h.handled == []
  {
    Start(cfg, o);
    s := SendSpeed(cfg, o, o, t, v);
    s := StartOnSpeed(cfg, o, s);
    s := ReadQdTo(cfg, o, s, 1);
    assert s.m.pc.words == v[..1];
    var first := s.w.sent;
    assert first[..1][..1] == first[..1];
    assert Unacked(first, s.c.pub[OUT_SEQNR]) <= 1;
    s := SendSpeed(cfg, o, s, t, w);
    assert s.w.sent[1] == s.w.sent[..2][1] == first[1];
  }

  /** A frame that lands while the script reads its words tears a speed vector: one element of the
      first command with five of the second is handed to the speed thread. */
  lemma SpeedVectorTorn(cfg: Config, t: nat, v: Vec, w: Vec) returns (s: State)
    requires ValidConfig(cfg) && t < cfg.threads && cfg.window >= 2
    ensures Reachable(cfg, s) && s.g.updatedQd && s.g.tqd == v[..1] + w[1..]
    ensures |s.w.sent| == 3 && s.w.sent[1][IN_CMD] == Code(Speed) && QdOf(s.w.sent[1]) == v
    ensures |s.h.handled| == 1 && var e := s.h.handled[0];
            e.cmd == Code(Speed) && e.data == v[..1] + w[1..] && e.ats != [] && e.ats[0] == 1
  {
    var o := InitialState(cfg);
    s := HalfRead(cfg, o, t, v, w);
    s := ReadQdTo(cfg, o, s, DOF);
    assert s.m.ats[0] == 1;
    Extend(cfg, o, s, ScriptStep(Commit));
    s := Apply(cfg, s, ScriptStep(Commit));
  }
}

/** The first command shares its number with the registration frame.  When is it acted on, when is
    it lost, and when is that settled? */
module FirstCommand {
  import opened Cells
  import opened CommandLog
  import opened Protocol
  import opened SenderInvariant
  import opened ScriptInvariant
  import opened PacingInvariant
  import opened Guarantees
  import opened Pacing
  import opened Passages
  import opened Witnesses

  /** The action under number 1, if there is one, is on the whole first command frame exactly when
      its last word came from that frame, and on no command exactly when it came from the
      registration frame; from a later frame it is neither.  There is no other action under 1. */
  lemma FirstCommandActedOnIff(cfg: Config, s: State, i: nat)
    requires ValidConfig(cfg) && Reachable(cfg, s) && i < |s.h.handled| && s.h.handled[i].seqnr == 1
    ensures var e := s.h.handled[i];
            && e.ats != []
            && (OwnCommand(s.w, e, 1) <==> To(e) == 1)
            && (e.cmd == NO_COMMAND <==> To(e) == 0)
    ensures forall j | 0 <= j < |s.h.handled| && j != i :: s.h.handled[j].seqnr != 1
  {
    ReachableScript(cfg, s);
    var e := s.h.handled[i];
    assert HandledOk(s.w, e);
    assert 0 <= e.ats[0] <= To(e);
    if To(e) == 1 {
      assert e.ats[0] == 0 ==> e.data == [];
      SameFrameIsOwn(s.w, e, 1);
    }
  }

  lemma LaterNumbers(cfg: Config, s: State)
    requires SentFacts(cfg, s)
    ensures forall f | 2 <= f < |s.w.sent| :: s.w.sent[f][IN_SEQNR] > 1
  {
    forall f | 2 <= f < |s.w.sent|
      ensures s.w.sent[f][IN_SEQNR] > 1
    {
      assert s.w.sent[1][IN_SEQNR] < s.w.sent[f][IN_SEQNR];
    }
  }

  /** Callers that wait for acknowledgements either lose the first command, to the registration
      frame or to a stop, or have it acted on whole. */
  lemma FirstCommandLostOrWhole(cfg: Config, s: State, i: nat)
    requires ValidConfig(cfg) && cfg.window <= 1
    requires Reachable(cfg, s) && i < |s.h.handled| && s.h.handled[i].seqnr == 1
    ensures var e := s.h.handled[i];
            || e.cmd == NO_COMMAND || e.cmd == Code(Halt)
            || (|s.w.sent| > 1 && e.cmd == s.w.sent[1][IN_CMD] && e.data == Payload(s.w.sent[1], e.cmd))
  {
    ReachableScript(cfg, s);
    ReachableWhole(cfg, s);
    var e := s.h.handled[i];
    assert HandledOk(s.w, e) && Whole(s.w, e);
    LaterNumbers(cfg, s);
    assert e.from <= 1;
  }

  // ----- When it is settled -----

  /** A command has been acted on under number 1. */
  ghost predicate ActsOnFirst(s: State) {
    exists i :: 0 <= i < |s.h.handled| && s.h.handled[i].seqnr == 1 && s.h.handled[i].cmd != NO_COMMAND
  }

  lemma HandledStep(cfg: Config, s: State, st: Step)
    requires Enabled(cfg, s, st)
    ensures s.h.handled <= Apply(cfg, s, st).h.handled
  {
  }

  lemma {:induction false} HandledGrows(cfg: Config, s: State, steps: seq<Step>, t: State)
    requires Runs(cfg, s, steps, t)
    ensures s.h.handled <= t.h.handled
    decreases |steps|
  {
    if steps != [] {
      var last := |steps| - 1;
      var m :| Runs(cfg, s, steps[..last], m) && Enabled(cfg, m, steps[last]) && t == Apply(cfg, m, steps[last]);
      HandledGrows(cfg, s, steps[..last], m);
      HandledStep(cfg, m, steps[last]);
    }
  }

  /** Before the first call there is one frame, so the script has read one number. */
  lemma BeforeFirstCall(cfg: Config, s: State)
    requires ValidConfig(cfg) && Inv(cfg, s) && s.h.calls == [] && s.c.lock == Free
    ensures s.w.sent == [cfg.initial] && s.w.applied == 1 && s.c.last == 0
    ensures forall i | 0 <= i < |s.h.handled| :: s.h.handled[i].seqnr == 1 && s.h.handled[i].cmd == NO_COMMAND
    ensures s.h.handled == [] ==>
              && s.g.keepRunning && s.r.ack <= 0
              && ((s.m.pc == Top && s.m.oldSeqnr == 0) || (s.m.pc == ReadCmd && s.m.seqnr == 1))
  {
    LogIsWire(cfg, s);
    LogIsSender(cfg, s);
    forall i | 0 <= i < |s.h.handled|
      ensures s.h.handled[i].seqnr == 1 && s.h.handled[i].cmd == NO_COMMAND
    {
      var e := s.h.handled[i];
      assert HandledOk(s.w, e);
      assert e.from <= e.ats[0] <= To(e);
    }
    assert !Carrying(s.m.pc);
  }

  lemma LaterHandled(s: State, u: State)
    requires s.h.handled != [] && s.h.handled <= u.h.handled && HandledInv(u)
    requires s.h.handled[0].seqnr == 1 && s.h.handled[0].cmd == NO_COMMAND
    ensures !ActsOnFirst(u)
  {
    assert u.h.handled[0] == s.h.handled[0];
    assert forall j | 0 < j < |u.h.handled| :: u.h.handled[0].seqnr < u.h.handled[j].seqnr;
  }

  lemma OnceDoneLost(cfg: Config, s: State, u: State)
    requires ValidConfig(cfg) && Inv(cfg, s) && s.h.calls == [] && s.c.lock == Free && s.h.handled != []
    requires Leads(cfg, s, u)
    ensures !ActsOnFirst(u)
  {
    BeforeFirstCall(cfg, s);
    var steps :| Runs(cfg, s, steps, u);
    HandledGrows(cfg, s, steps, u);
    RunInv(cfg, s, steps, u);
    LaterHandled(s, u);
  }

  lemma StillPossible(cfg: Config, s: State, t: nat, v: Vec) returns (u: State)
    requires ValidConfig(cfg) && Inv(cfg, s) && s.h.calls == [] && s.h.handled == [] && CanSend(cfg, s, t, Speed)
    ensures Leads(cfg, s, u) && ActsOnFirst(u)
  {
    BeforeFirstCall(cfg, s);
    Start(cfg, s);
    u := SendSpeed(cfg, s, s, t, v);
    if u.m.pc == Top {
      u := StartOnSpeed(cfg, s, u);
    } else {
      u := TakeSpeed(cfg, s, u);
    }
    u := ReadQdTo(cfg, s, u, DOF);
    Extend(cfg, s, u, ScriptStep(Commit));
    u := Apply(cfg, u, ScriptStep(Commit));
    assert u.h.handled[0].seqnr == 1 && u.h.handled[0].cmd == Code(Speed);
  }

  /** When the first command is begun, it is lost in every continuation exactly if the script is
      done with the registration frame by then.  A client that already sees the acknowledgement of
      number 1 knows that it is; one that does not cannot tell. */
  lemma FirstCommandDoomedIff(cfg: Config, s: State, t: nat, kind: Kind, v: Vec)
    requires ValidConfig(cfg) && Reachable(cfg, s) && s.h.calls == []
    requires ClientEnabled(cfg, s, t, BeginSend(kind, v))
    ensures (forall u | Leads(cfg, s, u) :: !ActsOnFirst(u)) <==> s.h.handled != []
    ensures s.c.pub[OUT_SEQNR] >= 1 ==> s.h.handled != []
  {
    ReachableInv(cfg, s);
    BeforeFirstCall(cfg, s);
    if s.h.handled == [] {
      var u := StillPossible(cfg, s, t, v);
    } else {
      forall u | Leads(cfg, s, u)
        ensures !ActsOnFirst(u)
      {
        OnceDoneLost(cfg, s, u);
      }
    }
  }
}

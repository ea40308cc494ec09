/** Does the script always act on whole commands?  Exactly if the callers wait for each command's
    acknowledgement. */
module Pacing {
  import opened Cells
  import opened Protocol
  import opened SenderInvariant
  import opened PacingInvariant
  import opened Guarantees
  import opened Witnesses

  /** Every speed and pose action of every run is on the whole command of one sent frame. */
  ghost predicate CommandsWhole(cfg: Config) {
    forall s | Reachable(cfg, s) :: AllWhole(s)
  }

  ghost predicate AllWhole(s: State) {
    forall i | 0 <= i < |s.h.handled| :: Whole(s.w, s.h.handled[i])
  }

  ghost predicate Paced(cfg: Config, s: State) {
    Inv(cfg, s) && PacedInv(s) && WholeInv(s)
  }

  lemma StepPaced(cfg: Config, s: State, st: Step)
    requires ValidConfig(cfg) && cfg.window <= 1 && Paced(cfg, s) && Enabled(cfg, s, st)
    ensures Paced(cfg, Apply(cfg, s, st))
  {
    StepInv(cfg, s, st);
    PacedStep(cfg, s, st);
    SentFactsHold(cfg, s);
    WholeStep(cfg, s, st);
  }

  lemma {:induction false} RunPaced(cfg: Config, s: State, steps: seq<Step>, t: State)
    requires ValidConfig(cfg) && cfg.window <= 1 && Paced(cfg, s) && Runs(cfg, s, steps, t)
    ensures Paced(cfg, t)
    decreases |steps|
  {
    if steps != [] {
      var last := |steps| - 1;
      var m :| Runs(cfg, s, steps[..last], m) && Enabled(cfg, m, steps[last]) && t == Apply(cfg, m, steps[last]);
      RunPaced(cfg, s, steps[..last], m);
      StepPaced(cfg, m, steps[last]);
    }
  }

  lemma ReachablePaced(cfg: Config, t: State)
    requires ValidConfig(cfg) && cfg.window <= 1 && Reachable(cfg, t)
    ensures Paced(cfg, t)
  {
    var s :| Init(cfg, s) && Leads(cfg, s, t);
    var steps :| Runs(cfg, s, steps, t);
    InitInv(cfg, s);
    RunPaced(cfg, s, steps, t);
  }

  lemma ReachableWhole(cfg: Config, t: State)
    requires ValidConfig(cfg) && cfg.window <= 1 && Reachable(cfg, t)
    ensures AllWhole(t)
  {
    ReachablePaced(cfg, t);
  }

  lemma PacedIsWhole(cfg: Config)
    requires ValidConfig(cfg) && cfg.window <= 1
    ensures CommandsWhole(cfg)
  {
    forall s | Reachable(cfg, s)
      ensures AllWhole(s)
    {
      ReachableWhole(cfg, s);
    }
  }

  lemma UnpacedIsTorn(cfg: Config)
    requires ValidConfig(cfg) && cfg.window >= 2 && cfg.threads >= 1
    ensures !CommandsWhole(cfg)
  {
    var v: Vec, w: Vec := ZERO_VEC, [1, 1, 1, 1, 1, 1];
    var s := SpeedVectorTorn(cfg, 0, v, w);
    var e := s.h.handled[0];
    assert e.data[1] == w[1] != v[1];
    assert !Whole(s.w, e);
    assert !AllWhole(s);
  }

  /** With any client thread at all, the script acts on whole commands in every run if and only if
      the callers let at most one command go unacknowledged. */
  lemma CommandsWholeIff(cfg: Config)
    requires ValidConfig(cfg) && cfg.threads >= 1
    ensures CommandsWhole(cfg) <==> cfg.window <= 1
  {
    if cfg.window <= 1 {
      PacedIsWhole(cfg);
    } else {
      UnpacedIsTorn(cfg);
    }
  }
}

/** Undisturbed passages through the machine: what one operation's steps add up to when no other
    thread's step comes between them.  They are the sequential meaning of the operations and the
    building blocks of concrete runs. */
module Passages {
  import opened Cells
  import opened CommandLog
  import opened Protocol
  import opened SenderInvariant

  lemma OneMore(cfg: Config, s0: State, steps: seq<Step>, s: State, st: Step)
    requires Runs(cfg, s0, steps, s) && Enabled(cfg, s, st)
    ensures Runs(cfg, s0, steps + [st], Apply(cfg, s, st))
  {
    var all := steps + [st];
    var last := |all| - 1;
    assert all[..last] == steps && all[last] == st;
    assert Runs(cfg, s0, all[..last], s) && Enabled(cfg, s, all[last]) && Apply(cfg, s, st) == Apply(cfg, s, all[last]);
  }

  lemma Extend(cfg: Config, o: State, s: State, st: Step)
    requires Leads(cfg, o, s) && Enabled(cfg, s, st)
    ensures Leads(cfg, o, Apply(cfg, s, st))
  {
    var steps :| Runs(cfg, o, steps, s);
    OneMore(cfg, o, steps, s, st);
  }

  lemma Start(cfg: Config, s: State)
    ensures Leads(cfg, s, s)
  {
    assert Runs(cfg, s, [], s);
  }

  // What a copy loop has done after i elements.

  ghost function Below(n: nat): (s: set<nat>)
    ensures forall k: nat :: k in s <==> k < n
  {
    if n == 0 then {} else Below(n - 1) + {n - 1}
  }

  lemma OverlayNext(a: seq<Word>, b: seq<Word>, i: nat)
    requires |a| == |b| && i < |a|
    ensures (a[..i] + b[i..])[i := a[i]] == a[..i + 1] + b[i + 1..]
  {
  }

  lemma OverlayEnds(a: seq<Word>, b: seq<Word>)
    requires |a| == |b|
    ensures a[..0] + b[0..] == b && a[..|a|] + b[|a|..] == a
  {
  }

  ghost predicate CanSend(cfg: Config, s: State, t: nat, kind: Kind) {
    && t < |s.c.pcs| && s.c.pcs[t] == Idle && s.c.lock == Free && kind != Halt
    && (kind == Pose ==> t in cfg.controls) && s.c.last + 1 < WRAP && Unacked(s.w.sent, s.c.pub[OUT_SEQNR]) < cfg.window
  }

  function SenderOf(s: State): Sender {
    Sender(s.c.last, s.c.inp, s.w.sent)
  }

  ghost function AfterFill(s: State, t: nat, kind: Kind, v: Vec, i: nat): State
    requires t < |s.c.pcs| && i <= DOF
  {
    s.(c := s.c.(lock := Client(t), pcs := s.c.pcs[t := Fill(kind, v, i)], inp := PartFilled(s.c.inp, kind, v, i)),
       h := if kind == Pose then s.h.(req := NoRequest) else s.h)
  }

  lemma FillStep(cfg: Config, s: State, t: nat, kind: Kind, v: Vec, i: nat)
    requires t < |s.c.pcs| && i < DOF
    ensures Enabled(cfg, AfterFill(s, t, kind, v, i), ThreadStep(t, FillOne)) && Apply(cfg, AfterFill(s, t, kind, v, i), ThreadStep(t, FillOne)) == AfterFill(s, t, kind, v, i + 1)
  {
    FillExtends(s.c.inp, kind, v, i);
    assert AfterFill(s, t, kind, v, i).c.pcs[t := Fill(kind, v, i + 1)] == s.c.pcs[t := Fill(kind, v, i + 1)];
  }

  lemma FillNext(cfg: Config, o: State, s: State, t: nat, kind: Kind, v: Vec, i: nat)
    requires t < |s.c.pcs| && i < DOF && Leads(cfg, o, AfterFill(s, t, kind, v, i))
    ensures Leads(cfg, o, AfterFill(s, t, kind, v, i + 1))
  {
    FillStep(cfg, s, t, kind, v, i);
    Extend(cfg, o, AfterFill(s, t, kind, v, i), ThreadStep(t, FillOne));
  }

  lemma {:induction false} FillRest(cfg: Config, o: State, s: State, t: nat, kind: Kind, v: Vec, i: nat)
    requires t < |s.c.pcs| && i <= DOF && Leads(cfg, o, AfterFill(s, t, kind, v, i))
    ensures Leads(cfg, o, AfterFill(s, t, kind, v, DOF))
    decreases DOF - i
  {
    if i < DOF {
      FillNext(cfg, o, s, t, kind, v, i);
      FillRest(cfg, o, s, t, kind, v, i + 1);
    }
  }

  lemma FillAll(cfg: Config, o: State, s: State, t: nat, kind: Kind, v: Vec)
    requires Leads(cfg, o, s) && CanSend(cfg, s, t, kind)
    ensures Leads(cfg, o, AfterFill(s, t, kind, v, DOF))
  {
    Extend(cfg, o, s, ThreadStep(t, BeginSend(kind, v)));
    FillWhole(s.c.inp, kind, v);
    assert Apply(cfg, s, ThreadStep(t, BeginSend(kind, v))) == AfterFill(s, t, kind, v, 0);
    FillRest(cfg, o, s, t, kind, v, 0);
  }

  ghost function AfterStore(s: State, t: nat, kind: Kind, v: Vec, i: nat): State
    requires t < |s.c.pcs| && i <= IN_CELLS
  {
    s.(c := SetPc(s.c, t, Store(kind, v, s.c.inp[..i])))
  }

  lemma StoreStep(cfg: Config, s: State, t: nat, kind: Kind, v: Vec, i: nat)
    requires t < |s.c.pcs| && i < IN_CELLS
    ensures Enabled(cfg, AfterStore(s, t, kind, v, i), ThreadStep(t, StoreOne)) && Apply(cfg, AfterStore(s, t, kind, v, i), ThreadStep(t, StoreOne)) == AfterStore(s, t, kind, v, i + 1)
  {
    var pc := Store(kind, v, s.c.inp[..i + 1]);
    assert s.c.inp[..i] + [s.c.inp[i]] == s.c.inp[..i + 1];
    assert AfterStore(s, t, kind, v, i).c.pcs[t := pc] == s.c.pcs[t := pc];
  }

  lemma StoreNext(cfg: Config, o: State, s: State, t: nat, kind: Kind, v: Vec, i: nat)
    requires t < |s.c.pcs| && i < IN_CELLS && Leads(cfg, o, AfterStore(s, t, kind, v, i))
    ensures Leads(cfg, o, AfterStore(s, t, kind, v, i + 1))
  {
    StoreStep(cfg, s, t, kind, v, i);
    Extend(cfg, o, AfterStore(s, t, kind, v, i), ThreadStep(t, StoreOne));
  }

  lemma StoreEnds(s: State, t: nat, kind: Kind, v: Vec)
    requires t < |s.c.pcs| && s.c.pcs[t] == Store(kind, v, [])
    ensures AfterStore(s, t, kind, v, 0) == s
    ensures AfterStore(s, t, kind, v, IN_CELLS) == s.(c := SetPc(s.c, t, Store(kind, v, s.c.inp)))
  {
    assert s.c.inp[..0] == [] && s.c.inp[..IN_CELLS] == s.c.inp;
    assert s.c.pcs[t := Store(kind, v, [])] == s.c.pcs;
  }

  lemma {:induction false} StoreRest(cfg: Config, o: State, s: State, t: nat, kind: Kind, v: Vec, i: nat)
    requires t < |s.c.pcs| && i <= IN_CELLS && Leads(cfg, o, AfterStore(s, t, kind, v, i))
    ensures Leads(cfg, o, AfterStore(s, t, kind, v, IN_CELLS))
    decreases IN_CELLS - i
  {
    if i < IN_CELLS {
      StoreNext(cfg, o, s, t, kind, v, i);
      StoreRest(cfg, o, s, t, kind, v, i + 1);
    }
  }

  lemma StoreAll(cfg: Config, o: State, s: State, t: nat, kind: Kind, v: Vec)
    requires Leads(cfg, o, s) && t < |s.c.pcs| && s.c.pcs[t] == Store(kind, v, [])
    ensures Leads(cfg, o, s.(c := SetPc(s.c, t, Store(kind, v, s.c.inp))))
  {
    StoreEnds(s, t, kind, v);
    StoreRest(cfg, o, s, t, kind, v, 0);
  }

  /** A call left alone is exactly one execution of the command log. */
  lemma SendAll(cfg: Config, o: State, s: State, t: nat, kind: Kind, v: Vec, ok: bool) returns (s': State)
    requires Leads(cfg, o, s) && CanSend(cfg, s, t, kind)
    ensures Leads(cfg, o, s')
    ensures SenderOf(s') == Execute(SenderOf(s), Call(kind, v, ok)) && s'.c.lock == Free
    ensures s'.c.pcs == s.c.pcs[t := if ok && kind == Pose then Wait(s'.c.last, v) else Idle]
    ensures s'.h.calls == s.h.calls + [Call(kind, v, ok)]
    ensures s'.w == s.w.(sent := s'.w.sent) && s'.rx == s.rx && s'.m == s.m && s'.g == s.g && s'.k == s.k && s'.r == s.r
    ensures s'.c.running == s.c.running && s'.c.pub == s.c.pub
    ensures s'.h.answers == s.h.answers && s'.h.handled == s.h.handled
  {
    FillAll(cfg, o, s, t, kind, v);
    var a := AfterFill(s, t, kind, v, DOF);
    FillWhole(s.c.inp, kind, v);
    Extend(cfg, o, a, ThreadStep(t, Number));
    var b := Apply(cfg, a, ThreadStep(t, Number));
    StoreAll(cfg, o, b, t, kind, v);
    var d := b.(c := SetPc(b.c, t, Store(kind, v, b.c.inp)));
    Extend(cfg, o, d, ThreadStep(t, Transmit(ok)));
    s' := Apply(cfg, d, ThreadStep(t, Transmit(ok)));
  }

  /** A waiting thread that finds its number published has its answer, whatever else is going on. */
  lemma TakeAnswer(cfg: Config, o: State, s: State, t: nat) returns (s': State)
    requires Leads(cfg, o, s) && t < |s.c.pcs| && s.c.pcs[t].Wait? && s.c.lock == Free
    requires s.c.pub[OUT_TAG] == s.c.pcs[t].seqnr
    ensures Leads(cfg, o, s')
    ensures var wait := s.c.pcs[t];
            s' == s.(c := SetPc(s.c, t, Idle),
                     h := s.h.(answers := s.h.answers + [Answer(wait.seqnr, wait.pose, QrefOf(s.c.pub))]))
  {
    Extend(cfg, o, s, ThreadStep(t, WaitHit));
    s' := Apply(cfg, s, ThreadStep(t, WaitHit));
  }

  /** A wait given up leaves everything else as it was. */
  lemma GiveUp(cfg: Config, o: State, s: State, t: nat) returns (s': State)
    requires Leads(cfg, o, s) && t < |s.c.pcs| && s.c.pcs[t].Wait? && s.c.lock == Free
    ensures Leads(cfg, o, s') && s' == s.(c := SetPc(s.c, t, Idle))
  {
    Extend(cfg, o, s, ThreadStep(t, WaitTimeout));
    s' := Apply(cfg, s, ThreadStep(t, WaitTimeout));
  }

  /** A stop left alone is one execution of the command log, and running ends. */
  lemma StopAll(cfg: Config, o: State, s: State, t: nat, sent: bool) returns (s': State)
    requires Leads(cfg, o, s) && ClientEnabled(cfg, s, t, Stop(sent))
    ensures Leads(cfg, o, s') && SenderOf(s') == Execute(SenderOf(s), Call(Halt, ZERO_VEC, sent))
    ensures !s'.c.running && s'.c.pcs == s.c.pcs && s'.c.lock == s.c.lock
    ensures s'.c.pub == s.c.pub && s'.c.updated == s.c.updated && s'.c.log == s.c.log
    ensures s'.rx == s.rx && s'.w == s.w.(sent := s'.w.sent) && s'.m == s.m && s'.g == s.g && s'.k == s.k && s'.r == s.r
  {
    Extend(cfg, o, s, ThreadStep(t, Stop(sent)));
    var mid := Apply(cfg, s, ThreadStep(t, Stop(sent)));
    assert mid.c.pcs[t := Idle] == s.c.pcs;
    Extend(cfg, o, mid, ThreadStep(t, EndStop));
    s' := Apply(cfg, mid, ThreadStep(t, EndStop));
  }

  /** The cells of a Robot_State are copied one by one; the tag's is left out. */
  ghost function AfterCopy(s: State, t: nat, sync: bool, i: nat): State
    requires t < |s.c.pcs| && i <= OUT_CELLS
  {
    s.(c := SetPc(s.c, t, Snap(sync, Below(i) - {OUT_TAG}, Copied(s.c.pub, i))))
  }

  ghost function Copied(pub: OutCells, i: nat): OutCells
    requires i <= OUT_CELLS
  {
    if i == 0 then ZERO_OUT
    else if i - 1 == OUT_TAG then Copied(pub, i - 1)
    else Copied(pub, i - 1)[i - 1 := pub[i - 1]]
  }

  lemma {:induction false} CopiedIs(pub: OutCells, i: nat)
    requires i <= OUT_CELLS
    ensures forall k: nat | k < i && k != OUT_TAG :: Copied(pub, i)[k] == pub[k]
  {
    if i > 0 {
      CopiedIs(pub, i - 1);
    }
  }

  lemma CopyStep(cfg: Config, s: State, t: nat, sync: bool, i: nat)
    requires t < |s.c.pcs| && i < OUT_CELLS && i != OUT_TAG
    ensures var m := AfterCopy(s, t, sync, i);
            Enabled(cfg, m, ThreadStep(t, CopyOne(i))) && Apply(cfg, m, ThreadStep(t, CopyOne(i))) == AfterCopy(s, t, sync, i + 1)
  {
    assert Below(i) - {OUT_TAG} + {i} == Below(i + 1) - {OUT_TAG};
    var pc := Snap(sync, Below(i + 1) - {OUT_TAG}, Copied(s.c.pub, i + 1));
    assert AfterCopy(s, t, sync, i).c.pcs[t := pc] == s.c.pcs[t := pc];
  }

  lemma {:induction false} CopyRest(cfg: Config, o: State, s: State, t: nat, sync: bool, i: nat)
    requires t < |s.c.pcs| && i <= OUT_CELLS && Leads(cfg, o, AfterCopy(s, t, sync, i))
    ensures Leads(cfg, o, AfterCopy(s, t, sync, OUT_CELLS))
    decreases OUT_CELLS - i
  {
    if i < OUT_CELLS {
      if i == OUT_TAG {
        assert Below(i + 1) - {OUT_TAG} == Below(i) - {OUT_TAG};
      } else {
        CopyStep(cfg, s, t, sync, i);
        Extend(cfg, o, AfterCopy(s, t, sync, i), ThreadStep(t, CopyOne(i)));
      }
      CopyRest(cfg, o, s, t, sync, i + 1);
    }
  }

  lemma CopyStart(cfg: Config, o: State, s: State, t: nat, sync: bool)
    requires Leads(cfg, o, s) && ClientEnabled(cfg, s, t, BeginRead(sync))
    ensures var locked := s.(c := s.c.(lock := Client(t), updated := false));
            Leads(cfg, o, AfterCopy(locked, t, sync, 0))
  {
    assert Below(0) - {OUT_TAG} == {};
    Extend(cfg, o, s, ThreadStep(t, BeginRead(sync)));
  }

  lemma CopyEnds(cfg: Config, s: State, t: nat, sync: bool)
    requires t < |s.c.pcs| && s.c.pcs[t] == Idle && s.c.lock == Free
    ensures var m := AfterCopy(s.(c := s.c.(lock := Client(t), updated := false)), t, sync, OUT_CELLS);
            var drained := sync && |s.c.log| > 500;
            && Enabled(cfg, m, ThreadStep(t, EndRead)) && SameState(Copied(s.c.pub, OUT_CELLS), s.c.pub)
            && Apply(cfg, m, ThreadStep(t, EndRead))
               == s.(c := s.c.(updated := false, log := if drained then [] else s.c.log),
                     h := s.h.(snaps := s.h.snaps + [Read(sync, |s.h.pubs|, Copied(s.c.pub, OUT_CELLS))],
                               batches := if drained then s.h.batches + [s.c.log] else s.h.batches))
  {
    var m := AfterCopy(s.(c := s.c.(lock := Client(t), updated := false)), t, sync, OUT_CELLS);
    CopiedIs(s.c.pub, OUT_CELLS);
    assert m.c.pcs[t := Idle] == s.c.pcs;
  }

  /** A read left alone returns the published state, takes note of the update, and, if it is
      synchronous, drains a log that has grown past 500. */
  lemma ReadAll(cfg: Config, o: State, s: State, t: nat, sync: bool) returns (s': State)
    requires Leads(cfg, o, s) && ClientEnabled(cfg, s, t, BeginRead(sync))
    ensures Leads(cfg, o, s')
    ensures var drained := sync && |s.c.log| > 500;
            && s'.c == s.c.(updated := false, log := if drained then [] else s.c.log)
            && s'.h.batches == (if drained then s.h.batches + [s.c.log] else s.h.batches)
    ensures |s'.h.snaps| == |s.h.snaps| + 1 && s'.h.snaps[..|s.h.snaps|] == s.h.snaps
    ensures var read := s'.h.snaps[|s.h.snaps|];
            read.sync == sync && read.at == |s.h.pubs| && SameState(read.state, s.c.pub)
    ensures s' == s.(c := s'.c, h := s.h.(snaps := s'.h.snaps, batches := s'.h.batches))
  {
    var locked := s.(c := s.c.(lock := Client(t), updated := false));
    CopyStart(cfg, o, s, t, sync);
    CopyRest(cfg, o, locked, t, sync, 0);
    var m := AfterCopy(locked, t, sync, OUT_CELLS);
    CopyEnds(cfg, s, t, sync);
    Extend(cfg, o, m, ThreadStep(t, EndRead));
    s' := Apply(cfg, m, ThreadStep(t, EndRead));
  }

  // ----- Controller -----

  /** The script in a pose or speed branch, with these words read from these frames. */
  ghost function MidRead(s: State, pose: bool, words: seq<Word>, ats: seq<nat>): State {
    s.(m := s.m.(pc := if pose then ReadPose(words) else ReadQd(words), ats := ats))
  }

  /** The register a branch reads after so many words. */
  function NextWord(w: WireState, pose: bool, n: nat): Word
    requires 1 <= w.applied <= |w.sent| && n < DOF
  {
    Regs(w)[(if pose then IN_POSE else IN_QD) + n]
  }

  lemma ReadStep(cfg: Config, s: State, pose: bool, words: seq<Word>, ats: seq<nat>)
    requires WireOk(s.w) && |words| < DOF
    ensures Enabled(cfg, MidRead(s, pose, words, ats), ScriptStep(ReadWord)) && Apply(cfg, MidRead(s, pose, words, ats), ScriptStep(ReadWord)) == MidRead(s, pose, words + [NextWord(s.w, pose, |words|)], ats + [s.w.applied - 1])
  {
  }

  lemma ReadNext(cfg: Config, o: State, s: State, pose: bool, words: seq<Word>, ats: seq<nat>)
    requires WireOk(s.w) && |words| < DOF && Leads(cfg, o, MidRead(s, pose, words, ats))
    ensures Leads(cfg, o, MidRead(s, pose, words + [NextWord(s.w, pose, |words|)], ats + [s.w.applied - 1]))
  {
    ReadStep(cfg, s, pose, words, ats);
    Extend(cfg, o, MidRead(s, pose, words, ats), ScriptStep(ReadWord));
  }

  /** These words, and the registers' after them up to n. */
  function ReadOn(regs: InCells, pose: bool, words: seq<Word>, n: nat): (r: seq<Word>)
    requires |words| <= n <= DOF
    ensures r == words + (if pose then PoseOf(regs) else QdOf(regs))[|words|..n]
    decreases n - |words|
  {
    var vec, k := if pose then PoseOf(regs) else QdOf(regs), |words|;
    if k == n then
      assert words + vec[k..n] == words;
      words
    else
      assert (words + [vec[k]]) + vec[k + 1..n] == words + vec[k..n];
      ReadOn(regs, pose, words + [vec[k]], n)
  }

  lemma ReadOnNext(regs: InCells, pose: bool, words: seq<Word>, n: nat)
    requires |words| < n <= DOF
    ensures ReadOn(regs, pose, words, n)
         == ReadOn(regs, pose, words + [regs[(if pose then IN_POSE else IN_QD) + |words|]], n)
  {
  }

  /** The script reads on to n words without another frame landing. */
  lemma {:induction false} ReadTo(cfg: Config, o: State, s: State, pose: bool, words: seq<Word>, ats: seq<nat>, n: nat)
    returns (ats': seq<nat>)
    requires WireOk(s.w) && |words| <= n <= DOF && Leads(cfg, o, MidRead(s, pose, words, ats))
    ensures ats <= ats'
    ensures Leads(cfg, o, MidRead(s, pose, ReadOn(Regs(s.w), pose, words, n), ats'))
    decreases n - |words|
  {
    if |words| == n {
      ats' := ats;
    } else {
      var x := NextWord(s.w, pose, |words|);
      ReadOnNext(Regs(s.w), pose, words, n);
      ReadNext(cfg, o, s, pose, words, ats);
      ats' := ReadTo(cfg, o, s, pose, words + [x], ats + [s.w.applied - 1], n);
    }
  }

  /** The script takes a pose command out of the registers without another frame landing. */
  lemma ReadPoseAll(cfg: Config, o: State, s: State) returns (s': State)
    requires Leads(cfg, o, s) && WireOk(s.w) && s.m.pc == ReadCmd && Regs(s.w)[IN_CMD] == Code(Pose)
    ensures Leads(cfg, o, s')
    ensures s'.g == s.g.(tPose := PoseOf(Regs(s.w)), tSeqnr := s.m.seqnr, updatedPose := true)
    ensures s'.c == s.c && s'.rx == s.rx && s'.w == s.w && s'.k == s.k && s'.r == s.r && s'.h.answers == s.h.answers
    ensures s'.m.pc == Ack && s'.m.seqnr == s.m.seqnr && s'.m.oldSeqnr == s.m.oldSeqnr
  {
    var pose := PoseOf(Regs(s.w));
    Extend(cfg, o, s, ScriptStep(ReadCommand));
    var ats := ReadTo(cfg, o, s, true, [], [s.w.applied - 1], DOF);
    assert ReadOn(Regs(s.w), true, [], DOF) == pose;
    var m := MidRead(s, true, pose, ats);
    Extend(cfg, o, m, ScriptStep(Commit));
    s' := Apply(cfg, m, ScriptStep(Commit));
  }

  ghost function AfterWrite(cfg: Config, s: State, i: nat): State
    requires i <= DOF
  {
    var q := cfg.ik(s.g.tPose);
    s.(k := IkState(IkWrite(q, i), s.g.tPose, s.g.tSeqnr), g := s.g.(updatedPose := false),
       r := s.r.(qref := q[..i] + s.r.qref[i..]))
  }

  lemma WriteStep(cfg: Config, s: State, i: nat)
    requires i < DOF
    ensures Enabled(cfg, AfterWrite(cfg, s, i), SolverStep(WriteOne)) && Apply(cfg, AfterWrite(cfg, s, i), SolverStep(WriteOne)) == AfterWrite(cfg, s, i + 1)
  {
    OverlayNext(cfg.ik(s.g.tPose), s.r.qref, i);
  }

  lemma WriteNext(cfg: Config, o: State, s: State, i: nat)
    requires i < DOF && Leads(cfg, o, AfterWrite(cfg, s, i))
    ensures Leads(cfg, o, AfterWrite(cfg, s, i + 1))
  {
    WriteStep(cfg, s, i);
    Extend(cfg, o, AfterWrite(cfg, s, i), SolverStep(WriteOne));
  }

  lemma WriteEnds(cfg: Config, s: State)
    ensures AfterWrite(cfg, s, 0).r == s.r && AfterWrite(cfg, s, DOF).r == s.r.(qref := cfg.ik(s.g.tPose))
  {
    OverlayEnds(cfg.ik(s.g.tPose), s.r.qref);
  }

  lemma SolveStart(cfg: Config, o: State, s: State)
    requires Leads(cfg, o, s) && s.k.pc == IkLoop && s.g.keepRunning && s.g.updatedPose
    ensures Leads(cfg, o, AfterWrite(cfg, s, 0))
  {
    Extend(cfg, o, s, SolverStep(TestRunning));
    var tested := Apply(cfg, s, SolverStep(TestRunning));
    Extend(cfg, o, tested, SolverStep(Poll));
    var polled := Apply(cfg, tested, SolverStep(Poll));
    Extend(cfg, o, polled, SolverStep(Compute));
    WriteEnds(cfg, s);
  }

  lemma {:induction false} WriteRest(cfg: Config, o: State, s: State, i: nat)
    requires i <= DOF && Leads(cfg, o, AfterWrite(cfg, s, i))
    ensures Leads(cfg, o, AfterWrite(cfg, s, DOF))
    decreases DOF - i
  {
    if i < DOF {
      WriteNext(cfg, o, s, i);
      WriteRest(cfg, o, s, i + 1);
    }
  }

  /** The solver takes a pose, solves it and writes all its angles; the tag is still to come. */
  lemma WriteAll(cfg: Config, o: State, s: State)
    requires Leads(cfg, o, s) && s.k.pc == IkLoop && s.g.keepRunning && s.g.updatedPose
    ensures Leads(cfg, o, AfterWrite(cfg, s, DOF)) && AfterWrite(cfg, s, DOF).r == s.r.(qref := cfg.ik(s.g.tPose))
  {
    SolveStart(cfg, o, s);
    WriteRest(cfg, o, s, 0);
    WriteEnds(cfg, s);
  }

  /** The solver takes a pose, solves it and publishes the angles, then the tag. */
  lemma SolveAll(cfg: Config, o: State, s: State) returns (s': State)
    requires Leads(cfg, o, s) && s.k.pc == IkLoop && s.g.keepRunning && s.g.updatedPose
    ensures Leads(cfg, o, s')
    ensures s'.r == Registers(s.r.ack, s.g.tSeqnr, cfg.ik(s.g.tPose)) && s'.k.pc == IkLoop
    ensures s'.c == s.c && s'.rx == s.rx && s'.w == s.w && s'.m == s.m && s'.h == s.h
    ensures s'.g == s.g.(updatedPose := false)
  {
    WriteAll(cfg, o, s);
    Extend(cfg, o, AfterWrite(cfg, s, DOF), SolverStep(WriteTag));
    s' := Apply(cfg, AfterWrite(cfg, s, DOF), SolverStep(WriteTag));
  }

  /** Frames land one at a time. */
  lemma LandNext(cfg: Config, o: State, s: State) returns (s': State)
    requires Leads(cfg, o, s) && s.w.applied < |s.w.sent|
    ensures Leads(cfg, o, s') && s' == s.(w := s.w.(applied := s.w.applied + 1))
  {
    Extend(cfg, o, s, LinkStep(Deliver));
    s' := Apply(cfg, s, LinkStep(Deliver));
  }

  lemma OtherSent(cfg: Config, o: State, s: State) returns (s': State)
    requires Leads(cfg, o, s)
    ensures Leads(cfg, o, s') && s' == s.(w := s.w.(emitted := s.w.emitted + [Other]))
  {
    Extend(cfg, o, s, LinkStep(EmitOther));
    s' := Apply(cfg, s, LinkStep(EmitOther));
  }

  /** With no pose waiting the solver comes round to its loop test and has done nothing. */
  lemma SolverIdles(cfg: Config, o: State, s: State)
    requires Leads(cfg, o, s) && s.k.pc == IkLoop && s.g.keepRunning && !s.g.updatedPose
    ensures var tested := s.(k := s.k.(pc := IkPoll));
            && Leads(cfg, o, tested)
            && Enabled(cfg, tested, SolverStep(Poll)) && Apply(cfg, tested, SolverStep(Poll)) == s
  {
    Extend(cfg, o, s, SolverStep(TestRunning));
  }

  /** Once the script has stopped, the solver leaves its loop. */
  lemma SolverLeaves(cfg: Config, o: State, s: State) returns (s': State)
    requires Leads(cfg, o, s) && s.k.pc == IkLoop && !s.g.keepRunning
    ensures Leads(cfg, o, s') && s' == s.(k := s.k.(pc := IkExited))
  {
    Extend(cfg, o, s, SolverStep(IkLeave));
    s' := Apply(cfg, s, SolverStep(IkLeave));
  }

  /** A sample of the output registers, the clock and the telemetry. */
  lemma SampleAll(cfg: Config, o: State, s: State, ts: Word, telemetry: Telemetry) returns (s': State)
    requires Leads(cfg, o, s)
    ensures Leads(cfg, o, s') && s' == s.(w := s.w.(emitted := s'.w.emitted))
    ensures |s'.w.emitted| == |s.w.emitted| + 1 && s'.w.emitted[..|s.w.emitted|] == s.w.emitted
    ensures var frame := s'.w.emitted[|s.w.emitted|];
            && frame.Data? && frame.cells[0] == s.r.ack && frame.cells[1] == ts && frame.cells[2..32] == telemetry
            && frame.cells[32] == s.r.tag && frame.cells[33..39] == s.r.qref
  {
    Extend(cfg, o, s, LinkStep(Emit(ts, telemetry)));
    s' := Apply(cfg, s, LinkStep(Emit(ts, telemetry)));
    MakeOutCells(s.r.ack, ts, telemetry, s.r.tag, s.r.qref);
  }

  /** The script takes a stop out of the registers and leaves its loop. */
  lemma HaltAll(cfg: Config, o: State, s: State) returns (s': State)
    requires Leads(cfg, o, s) && WireOk(s.w) && s.m.pc == ReadCmd && Regs(s.w)[IN_CMD] == Code(Halt)
    ensures Leads(cfg, o, s') && s'.m.pc == Exited && s'.g == s.g.(keepRunning := false, tqd := ZERO_VEC)
    ensures s'.r == s.r.(ack := s.m.seqnr) && s'.c == s.c && s'.rx == s.rx && s'.w == s.w && s'.k == s.k
  {
    Extend(cfg, o, s, ScriptStep(ReadCommand));
    s' := Apply(cfg, s, ScriptStep(ReadCommand));
    Extend(cfg, o, s', ScriptStep(Commit));
    s' := Apply(cfg, s', ScriptStep(Commit));
    Extend(cfg, o, s', ScriptStep(WriteAck));
    s' := Apply(cfg, s', ScriptStep(WriteAck));
    Extend(cfg, o, s', ScriptStep(Leave));
    s' := Apply(cfg, s', ScriptStep(Leave));
  }

  // ----- Receiver -----

  ghost predicate Parsing(s: State) {
    && WireOk(s.w) && s.rx.pc.RxParse? && s.rx.pc.n < |s.w.emitted| && s.w.emitted[s.rx.pc.n].Data?
  }

  ghost function AfterParse(s: State, i: nat): State
    requires Parsing(s) && i <= OUT_CELLS
  {
    s.(rx := RxState(RxParse(s.rx.pc.n, Below(i)), s.w.emitted[s.rx.pc.n].cells[..i] + s.rx.buf[i..]))
  }

  lemma ParseStep(cfg: Config, s: State, i: nat)
    requires Parsing(s) && i < OUT_CELLS
    ensures Enabled(cfg, AfterParse(s, i), ReceiverStep(ParseOne(i))) && Apply(cfg, AfterParse(s, i), ReceiverStep(ParseOne(i))) == AfterParse(s, i + 1)
  {
    OverlayNext(s.w.emitted[s.rx.pc.n].cells, s.rx.buf, i);
    assert Below(i) + {i} == Below(i + 1);
  }

  lemma ParseNext(cfg: Config, o: State, s: State, i: nat)
    requires Parsing(s) && i < OUT_CELLS && Leads(cfg, o, AfterParse(s, i))
    ensures Leads(cfg, o, AfterParse(s, i + 1))
  {
    ParseStep(cfg, s, i);
    Extend(cfg, o, AfterParse(s, i), ReceiverStep(ParseOne(i)));
  }

  lemma ParseEnds(s: State)
    requires Parsing(s) && s.rx.pc.done == {}
    ensures AfterParse(s, 0) == s
    ensures AfterParse(s, OUT_CELLS).rx.buf == s.w.emitted[s.rx.pc.n].cells
  {
    OverlayEnds(s.w.emitted[s.rx.pc.n].cells, s.rx.buf);
    assert Below(0) == {};
  }

  lemma {:induction false} ParseRest(cfg: Config, o: State, s: State, i: nat)
    requires Parsing(s) && i <= OUT_CELLS && Leads(cfg, o, AfterParse(s, i))
    ensures Leads(cfg, o, AfterParse(s, OUT_CELLS))
    decreases OUT_CELLS - i
  {
    if i < OUT_CELLS {
      ParseNext(cfg, o, s, i);
      ParseRest(cfg, o, s, i + 1);
    }
  }

  lemma ParseAll(cfg: Config, o: State, s: State)
    requires Leads(cfg, o, s) && Parsing(s) && s.rx.pc.done == {}
    ensures Leads(cfg, o, AfterParse(s, OUT_CELLS))
    ensures AfterParse(s, OUT_CELLS).rx.buf == s.w.emitted[s.rx.pc.n].cells
  {
    ParseEnds(s);
    ParseRest(cfg, o, s, 0);
  }

  ghost function AfterPublish(s: State, i: nat): State
    requires s.rx.pc.RxPublish? && i <= OUT_CELLS
  {
    s.(rx := s.rx.(pc := RxPublish(s.rx.pc.n, Below(i))), c := s.c.(pub := s.rx.buf[..i] + s.c.pub[i..]))
  }

  lemma PublishStep(cfg: Config, s: State, i: nat)
    requires WireOk(s.w) && s.rx.pc.RxPublish? && i < OUT_CELLS
    ensures Enabled(cfg, AfterPublish(s, i), ReceiverStep(PublishOne(i))) && Apply(cfg, AfterPublish(s, i), ReceiverStep(PublishOne(i))) == AfterPublish(s, i + 1)
  {
    OverlayNext(s.rx.buf, s.c.pub, i);
    assert Below(i) + {i} == Below(i + 1);
  }

  lemma PublishNext(cfg: Config, o: State, s: State, i: nat)
    requires WireOk(s.w) && s.rx.pc.RxPublish? && i < OUT_CELLS && Leads(cfg, o, AfterPublish(s, i))
    ensures Leads(cfg, o, AfterPublish(s, i + 1))
  {
    PublishStep(cfg, s, i);
    Extend(cfg, o, AfterPublish(s, i), ReceiverStep(PublishOne(i)));
  }

  lemma PublishEnds(s: State)
    requires s.rx.pc.RxPublish? && s.rx.pc.done == {}
    ensures AfterPublish(s, 0) == s
    ensures AfterPublish(s, OUT_CELLS).c == s.c.(pub := s.rx.buf)
  {
    OverlayEnds(s.rx.buf, s.c.pub);
    assert Below(0) == {};
  }

  lemma {:induction false} PublishRest(cfg: Config, o: State, s: State, i: nat)
    requires WireOk(s.w) && s.rx.pc.RxPublish? && i <= OUT_CELLS && Leads(cfg, o, AfterPublish(s, i))
    ensures Leads(cfg, o, AfterPublish(s, OUT_CELLS))
    decreases OUT_CELLS - i
  {
    if i < OUT_CELLS {
      PublishNext(cfg, o, s, i);
      PublishRest(cfg, o, s, i + 1);
    }
  }

  lemma PublishAll(cfg: Config, o: State, s: State)
    requires Leads(cfg, o, s) && WireOk(s.w) && s.rx.pc.RxPublish? && s.rx.pc.done == {}
    ensures Leads(cfg, o, AfterPublish(s, OUT_CELLS))
    ensures AfterPublish(s, OUT_CELLS).c == s.c.(pub := s.rx.buf)
  {
    PublishEnds(s);
    PublishRest(cfg, o, s, 0);
  }

  /** A frame that is no data package is dropped. */
  lemma SkipOther(cfg: Config, o: State, s: State) returns (s': State)
    requires Leads(cfg, o, s) && WireOk(s.w) && s.rx.pc == RxLoop && s.c.running
    requires s.w.received < |s.w.emitted| && s.w.emitted[s.w.received].Other?
    ensures Leads(cfg, o, s') && s' == s.(w := s.w.(received := s.w.received + 1))
  {
    Extend(cfg, o, s, ReceiverStep(Block));
    s' := Apply(cfg, s, ReceiverStep(Block));
    Extend(cfg, o, s', ReceiverStep(Take));
    s' := Apply(cfg, s', ReceiverStep(Take));
  }

  /** Once running has ended the receiver leaves its loop. */
  lemma QuitLoop(cfg: Config, o: State, s: State) returns (s': State)
    requires Leads(cfg, o, s) && WireOk(s.w) && s.rx.pc == RxLoop && !s.c.running
    ensures Leads(cfg, o, s') && s' == s.(rx := s.rx.(pc := RxExited))
  {
    Extend(cfg, o, s, ReceiverStep(Quit));
    s' := Apply(cfg, s, ReceiverStep(Quit));
  }

  /** The next data frame on the wire is received, parsed and published. */
  lemma ReceiveAll(cfg: Config, o: State, s: State, local: Word) returns (s': State)
    requires Leads(cfg, o, s) && WireOk(s.w) && s.rx.pc == RxLoop && s.c.running && s.c.lock == Free
    requires s.w.received < |s.w.emitted| && s.w.emitted[s.w.received].Data?
    ensures Leads(cfg, o, s')
    ensures var cells := s.w.emitted[s.w.received].cells;
            && s'.c == s.c.(pub := cells, updated := true, log := s.c.log + [Stamp(local, cells[OUT_TS])])
            && s'.rx == RxState(RxLoop, cells) && s'.w == s.w.(received := s.w.received + 1)
            && s'.m == s.m && s'.g == s.g && s'.k == s.k && s'.r == s.r && s'.h.answers == s.h.answers
  {
    Extend(cfg, o, s, ReceiverStep(Block));
    s' := Apply(cfg, s, ReceiverStep(Block));
    Extend(cfg, o, s', ReceiverStep(Take));
    s' := Apply(cfg, s', ReceiverStep(Take));
    ParseAll(cfg, o, s');
    s' := AfterParse(s', OUT_CELLS);
    Extend(cfg, o, s', ReceiverStep(LockState));
    s' := Apply(cfg, s', ReceiverStep(LockState));
    PublishAll(cfg, o, s');
    s' := AfterPublish(s', OUT_CELLS);
    Extend(cfg, o, s', ReceiverStep(Finish(local)));
    s' := Apply(cfg, s', ReceiverStep(Finish(local)));
  }
}

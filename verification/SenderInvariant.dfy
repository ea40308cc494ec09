/** The mutex keeps the send path atomic: whatever the interleaving, the frames on the wire are
    those of the atomic command log. */
module SenderInvariant {
  import opened Cells
  import opened CommandLog
  import opened Protocol

  ghost predicate Holding(pc: ThreadPc) {
    pc.Fill? || pc.Store? || pc.Snap?
  }

  /** The mutex has at most one holder, and its holder is inside a critical section. */
  ghost predicate LockInv(s: State) {
    && (forall t | 0 <= t < |s.c.pcs| :: Holding(s.c.pcs[t]) <==> s.c.lock == Client(t))
    && (s.c.lock.Client? ==> s.c.lock.t < |s.c.pcs|)
    && (s.rx.pc.RxPublish? <==> s.c.lock == Receiver)
  }

  lemma LockClientStep(cfg: Config, s: State, t: nat, st: ClientStep)
    requires LockInv(s) && ClientEnabled(cfg, s, t, st)
    ensures LockInv(ClientApply(cfg, s, t, st))
  {
    var pc, s' := s.c.pcs[t], ClientApply(cfg, s, t, st);
    assert Holding(pc) <==> s.c.lock == Client(t);
    assert forall u | 0 <= u < |s.c.pcs| && u != t :: s'.c.pcs[u] == s.c.pcs[u];
    match st
    case BeginSend(_, _) =>
    case Transmit(_) =>
    case BeginRead(_) =>
    case EndRead =>
    case _ => assert s'.c.lock == s.c.lock;
  }

  lemma LockStep(cfg: Config, s: State, st: Step)
    requires LockInv(s) && Enabled(cfg, s, st)
    ensures LockInv(Apply(cfg, s, st))
  {
    if st.ThreadStep? {
      LockClientStep(cfg, s, st.t, st.cs);
    }
  }

  /** What the log says the sender's variables are between calls. */
  ghost function Log(cfg: Config, s: State): Sender {
    Replay(Sender(0, cfg.initial, [cfg.initial]), s.h.calls)
  }

  /** The input cells with the first i elements of v copied in. */
  function PartFilled(inp: InCells, kind: Kind, v: Vec, i: nat): InCells
    requires i <= DOF
  {
    inp[..Base(kind)] + v[..i] + inp[Base(kind) + i..]
  }

  ghost predicate Busy(s: State) {
    s.c.lock.Client? && s.c.lock.t < |s.c.pcs| && Sending(s.c.pcs[s.c.lock.t])
  }

  ghost predicate MidCall(c: ClientState, pc: ThreadPc, log: Sender)
    requires Sending(pc)
  {
    && pc.kind != Halt
    && match pc
       case Fill(kind, v, i) => i <= DOF && c.last == log.last && c.inp == PartFilled(log.inp, kind, v, i)
       case Store(kind, v, dp) =>
         && c.last == NextSeqnr(log.last)
         && c.inp == Numbered(Filled(log.inp, kind, v), c.last, kind)
         && |dp| <= IN_CELLS && dp == c.inp[..|dp|]
  }

  ghost predicate SenderInv(cfg: Config, s: State) {
    && s.w.sent == Log(cfg, s).sent
    && |s.h.calls| < WRAP
    && if Busy(s) then |s.h.calls| + 1 < WRAP && MidCall(s.c, s.c.pcs[s.c.lock.t], Log(cfg, s))
       else s.c.last == Log(cfg, s).last && s.c.inp == Log(cfg, s).inp
  }

  lemma LogLast(cfg: Config, s: State)
    requires |s.h.calls| < WRAP
    ensures Log(cfg, s).last == |s.h.calls|
  {
    ReplayLast(cfg.initial, [cfg.initial], s.h.calls);
    BelowWrap(|s.h.calls|);
  }

  /** Calling one more time extends the log by one execution. */
  lemma LogGrows(cfg: Config, s: State, t: State, call: Call)
    requires t.h.calls == s.h.calls + [call]
    ensures Log(cfg, t) == Execute(Log(cfg, s), call)
  {
    assert t.h.calls[..|t.h.calls| - 1] == s.h.calls;
  }

  lemma FillExtends(inp: InCells, kind: Kind, v: Vec, i: nat)
    requires i < DOF
    ensures PartFilled(inp, kind, v, i)[Base(kind) + i := v[i]] == PartFilled(inp, kind, v, i + 1)
  {
  }

  lemma FillWhole(inp: InCells, kind: Kind, v: Vec)
    requires kind != Halt
    ensures PartFilled(inp, kind, v, 0) == inp
    ensures PartFilled(inp, kind, v, DOF) == Filled(inp, kind, v)
  {
  }

  lemma BeginStep(cfg: Config, s: State, t: nat, st: ClientStep)
    requires LockInv(s) && SenderInv(cfg, s) && ClientEnabled(cfg, s, t, st) && st.BeginSend?
    ensures SenderInv(cfg, ClientApply(cfg, s, t, st))
  {
    LogLast(cfg, s);
    FillWhole(Log(cfg, s).inp, st.kind, st.v);
  }

  lemma FillStep(cfg: Config, s: State, t: nat)
    requires LockInv(s) && SenderInv(cfg, s) && ClientEnabled(cfg, s, t, FillOne)
    ensures SenderInv(cfg, ClientApply(cfg, s, t, FillOne))
  {
    var pc := s.c.pcs[t];
    assert Holding(pc);
    FillExtends(Log(cfg, s).inp, pc.kind, pc.v, pc.i);
  }

  lemma NumberStep(cfg: Config, s: State, t: nat)
    requires LockInv(s) && SenderInv(cfg, s) && ClientEnabled(cfg, s, t, Number)
    ensures SenderInv(cfg, ClientApply(cfg, s, t, Number))
  {
    var pc := s.c.pcs[t];
    assert Holding(pc);
    FillWhole(Log(cfg, s).inp, pc.kind, pc.v);
  }

  lemma StoreStep(cfg: Config, s: State, t: nat)
    requires LockInv(s) && SenderInv(cfg, s) && ClientEnabled(cfg, s, t, StoreOne)
    ensures SenderInv(cfg, ClientApply(cfg, s, t, StoreOne))
  {
    assert Holding(s.c.pcs[t]);
  }

  lemma TransmitStep(cfg: Config, s: State, t: nat, ok: bool)
    requires LockInv(s) && SenderInv(cfg, s) && ClientEnabled(cfg, s, t, Transmit(ok))
    ensures SenderInv(cfg, ClientApply(cfg, s, t, Transmit(ok)))
  {
    var pc, s' := s.c.pcs[t], ClientApply(cfg, s, t, Transmit(ok));
    LogGrows(cfg, s, s', Call(pc.kind, pc.v, ok));
    assert pc.dp == s.c.inp;
  }

  lemma StopStep(cfg: Config, s: State, t: nat, sent: bool)
    requires LockInv(s) && SenderInv(cfg, s) && ClientEnabled(cfg, s, t, Stop(sent))
    ensures SenderInv(cfg, ClientApply(cfg, s, t, Stop(sent)))
  {
    LogLast(cfg, s);
    LogGrows(cfg, s, ClientApply(cfg, s, t, Stop(sent)), Call(Halt, ZERO_VEC, sent));
  }

  lemma SenderFrame(cfg: Config, s: State, s': State)
    requires SenderInv(cfg, s) && s'.w.sent == s.w.sent && s'.h.calls == s.h.calls
    requires s'.c.last == s.c.last && s'.c.inp == s.c.inp
    requires if Busy(s) then s'.c.lock == s.c.lock && |s'.c.pcs| == |s.c.pcs| && s'.c.pcs[s.c.lock.t] == s.c.pcs[s.c.lock.t]
             else !Busy(s')
    ensures SenderInv(cfg, s')
  {
  }

  lemma QuietClientStep(cfg: Config, s: State, t: nat, st: ClientStep)
    requires LockInv(s) && SenderInv(cfg, s) && ClientEnabled(cfg, s, t, st)
    requires st.WaitHit? || st.WaitTimeout? || st.BeginRead? || st.CopyOne? || st.EndRead? || st.EndStop?
    ensures SenderInv(cfg, ClientApply(cfg, s, t, st))
  {
    var s' := ClientApply(cfg, s, t, st);
    assert Holding(s.c.pcs[t]) <==> s.c.lock == Client(t);
    SenderFrame(cfg, s, s');
  }

  lemma SenderStep(cfg: Config, s: State, st: Step)
    requires LockInv(s) && SenderInv(cfg, s) && Enabled(cfg, s, st)
    ensures SenderInv(cfg, Apply(cfg, s, st))
  {
    if st.ThreadStep? {
      match st.cs
      case Transmit(ok) => TransmitStep(cfg, s, st.t, ok);
      case Stop(sent) => StopStep(cfg, s, st.t, sent);
      case BeginSend(_, _) => BeginStep(cfg, s, st.t, st.cs);
      case FillOne => FillStep(cfg, s, st.t);
      case Number => NumberStep(cfg, s, st.t);
      case StoreOne => StoreStep(cfg, s, st.t);
      case _ => QuietClientStep(cfg, s, st.t, st.cs);
    } else {
      SenderFrame(cfg, s, Apply(cfg, s, st));
    }
  }

  /** The wire as the rest of the system relies on it. */
  ghost predicate SentFacts(cfg: Config, s: State) {
    && |s.w.sent| >= 1 && s.w.sent[0] == cfg.initial
    && (forall i | 1 <= i < |s.w.sent| :: 1 <= s.w.sent[i][0] <= |s.h.calls| && 1 <= s.w.sent[i][1] <= 3)
    && (forall i, j | 1 <= i < j < |s.w.sent| :: s.w.sent[i][0] < s.w.sent[j][0])
  }

  lemma SentFactsHold(cfg: Config, s: State)
    requires SenderInv(cfg, s)
    ensures SentFacts(cfg, s)
  {
    ReplayIsLog(cfg.initial, [cfg.initial], s.h.calls);
    FramesIncrease(s.h.calls, cfg.initial);
    assert s.w.sent == [cfg.initial] + FramesOf(s.h.calls, cfg.initial);
    forall i | 1 <= i < |s.w.sent|
      ensures s.w.sent[i] == FramesOf(s.h.calls, cfg.initial)[i - 1]
    {
    }
  }
}

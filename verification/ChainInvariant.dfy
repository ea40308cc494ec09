/** Sequence numbers flow one way round the loop: every later station holds a number no greater
    than the one before it, and no station's number ever goes down. */
module ChainInvariant {
  import opened Cells
  import opened Protocol
  import opened SenderInvariant
  import opened SnapshotInvariant

  function CellAt(emitted: seq<OutFrame>, n: nat, cell: nat): Word
    requires n < |emitted| && emitted[n].Data? && cell < OUT_CELLS
  {
    emitted[n].cells[cell]
  }

  function Tag(emitted: seq<OutFrame>, n: nat): Word
    requires n < |emitted| && emitted[n].Data?
  {
    CellAt(emitted, n, OUT_TAG)
  }

  /** The output register behind one of the two cells that carry a sequence number. */
  function NumberIn(r: Registers, cell: nat): Word {
    if cell == OUT_TAG then r.tag else r.ack
  }

  ghost predicate IsNumber(cell: nat) {
    cell == OUT_TAG || cell == OUT_SEQNR
  }

  ghost predicate EmittedNumbers(s: State, cell: nat)
    requires IsNumber(cell)
  {
    && (forall n: nat | IsData(s.w.emitted, n) :: 0 <= CellAt(s.w.emitted, n, cell) <= NumberIn(s.r, cell))
    && (forall i: nat, j: nat | i < j && IsData(s.w.emitted, i) && IsData(s.w.emitted, j) ::
          CellAt(s.w.emitted, i, cell) <= CellAt(s.w.emitted, j, cell))
  }

  ghost predicate PublishedNumber(s: State, cell: nat)
    requires IsNumber(cell)
  {
    && 0 <= s.c.pub[cell] <= NumberIn(s.r, cell)
    && (forall n: nat | s.w.received <= n && IsData(s.w.emitted, n) :: s.c.pub[cell] <= CellAt(s.w.emitted, n, cell))
    && (s.rx.pc.RxParse? && IsData(s.w.emitted, s.rx.pc.n) ==> s.c.pub[cell] <= CellAt(s.w.emitted, s.rx.pc.n, cell))
    && (s.rx.pc.RxPublish? && IsData(s.w.emitted, s.rx.pc.n) ==> s.c.pub[cell] <= CellAt(s.w.emitted, s.rx.pc.n, cell))
  }

  ghost predicate NumberInv(s: State, cell: nat)
    requires IsNumber(cell)
  {
    EmittedNumbers(s, cell) && PublishedNumber(s, cell)
  }

  ghost predicate ControllerChain(s: State) {
    && WireOk(s.w)
    && s.m.seqnr == s.m.oldSeqnr
    && 0 <= s.r.tag <= s.k.seqnr <= s.g.tSeqnr <= s.m.oldSeqnr <= Regs(s.w)[IN_SEQNR]
    && 0 <= s.r.ack <= s.m.oldSeqnr
    && (Reading(s.m.pc) ==> s.r.ack < s.m.oldSeqnr)
  }

  ghost predicate ChainInv(s: State) {
    ControllerChain(s) && NumberInv(s, OUT_TAG) && NumberInv(s, OUT_SEQNR)
  }

  ghost predicate Monotone(s: State, s': State) {
    && WireOk(s.w) && WireOk(s'.w)
    && s.c.pub[OUT_TAG] <= s'.c.pub[OUT_TAG] && s.c.pub[OUT_SEQNR] <= s'.c.pub[OUT_SEQNR] && s.r.tag <= s'.r.tag && s.k.seqnr <= s'.k.seqnr
    && s.g.tSeqnr <= s'.g.tSeqnr && s.m.oldSeqnr <= s'.m.oldSeqnr && s.r.ack <= s'.r.ack
    && Regs(s.w)[IN_SEQNR] <= Regs(s'.w)[IN_SEQNR] && s.c.last <= s'.c.last
  }

  /** A step that emits nothing, publishes nothing and lowers no register. */
  lemma NumberFrame(s: State, s': State, cell: nat)
    requires IsNumber(cell) && NumberInv(s, cell)
    requires s'.w.emitted == s.w.emitted && s'.w.received == s.w.received && s'.rx == s.rx && s'.c.pub == s.c.pub
    requires NumberIn(s.r, cell) <= NumberIn(s'.r, cell)
    ensures NumberInv(s', cell)
  {
  }

  lemma ChainScriptStep(s: State, st: MainStep)
    requires ChainInv(s) && MainEnabled(s, st)
    ensures ChainInv(MainApply(s, st)) && Monotone(s, MainApply(s, st))
  {
    var s' := MainApply(s, st);
    NumberFrame(s, s', OUT_TAG);
    NumberFrame(s, s', OUT_SEQNR);
  }

  lemma ChainSolverStep(cfg: Config, s: State, st: IkStep)
    requires ChainInv(s) && IkEnabled(s, st)
    ensures ChainInv(IkApply(cfg, s, st)) && Monotone(s, IkApply(cfg, s, st))
  {
    var s' := IkApply(cfg, s, st);
    NumberFrame(s, s', OUT_TAG);
    NumberFrame(s, s', OUT_SEQNR);
  }

  lemma NumberRxStep(s: State, st: RxStep, cell: nat)
    requires LockInv(s) && PublishInv(s) && IsNumber(cell) && NumberInv(s, cell) && RxEnabled(s, st)
    ensures NumberInv(RxApply(s, st), cell) && s.c.pub[cell] <= RxApply(s, st).c.pub[cell]
  {
    if st.PublishOne? {
      assert s.rx.buf[cell] == CellAt(s.w.emitted, s.rx.pc.n, cell);
    }
  }

  lemma ChainRxStep(s: State, st: RxStep)
    requires LockInv(s) && PublishInv(s) && ChainInv(s) && RxEnabled(s, st)
    ensures ChainInv(RxApply(s, st)) && Monotone(s, RxApply(s, st))
  {
    NumberRxStep(s, st, OUT_TAG);
    NumberRxStep(s, st, OUT_SEQNR);
  }

  lemma NumberLinkStep(s: State, st: WireStep, cell: nat)
    requires PublishInv(s) && IsNumber(cell) && NumberInv(s, cell) && WireEnabled(s, st)
    ensures NumberInv(WireApply(s, st), cell)
  {
    var s' := WireApply(s, st);
    if !st.Deliver? {
      forall n: nat | IsData(s'.w.emitted, n)
        ensures if n < |s.w.emitted| then IsData(s.w.emitted, n) && s'.w.emitted[n] == s.w.emitted[n]
                else CellAt(s'.w.emitted, n, cell) == NumberIn(s.r, cell)
      {
      }
    }
  }

  lemma ChainLinkStep(cfg: Config, s: State, st: WireStep)
    requires ValidConfig(cfg) && SentFacts(cfg, s) && PublishInv(s) && ChainInv(s) && WireEnabled(s, st)
    ensures ChainInv(WireApply(s, st)) && Monotone(s, WireApply(s, st))
  {
    NumberLinkStep(s, st, OUT_TAG);
    NumberLinkStep(s, st, OUT_SEQNR);
    if st.Deliver? {
      assert s.w.sent[s.w.applied - 1][0] <= s.w.sent[s.w.applied][0];
    }
  }

  lemma ChainClientStep(cfg: Config, s: State, t: nat, st: ClientStep)
    requires LockInv(s) && SenderInv(cfg, s) && ChainInv(s) && ClientEnabled(cfg, s, t, st)
    ensures ChainInv(ClientApply(cfg, s, t, st)) && Monotone(s, ClientApply(cfg, s, t, st))
  {
    var s' := ClientApply(cfg, s, t, st);
    ClientKeepsPub(cfg, s, t, st);
    LastGrows(cfg, s, t, st);
    assert s'.m == s.m && s'.g == s.g && s'.k == s.k && s'.r == s.r && s'.rx == s.rx;
    assert s'.w.applied == s.w.applied && |s.w.sent| <= |s'.w.sent| && Regs(s'.w) == Regs(s.w);
    NumberFrame(s, s', OUT_TAG);
    NumberFrame(s, s', OUT_SEQNR);
  }

  lemma LastGrows(cfg: Config, s: State, t: nat, st: ClientStep)
    requires LockInv(s) && SenderInv(cfg, s) && ClientEnabled(cfg, s, t, st)
    ensures s.c.last <= ClientApply(cfg, s, t, st).c.last
  {
    LogLast(cfg, s);
    assert Holding(s.c.pcs[t]) <==> s.c.lock == Client(t);
  }

  lemma ChainStep(cfg: Config, s: State, st: Step)
    requires ValidConfig(cfg) && Enabled(cfg, s, st)
    requires LockInv(s) && SenderInv(cfg, s) && PublishInv(s) && ChainInv(s)
    ensures ChainInv(Apply(cfg, s, st)) && Monotone(s, Apply(cfg, s, st))
  {
    match st
    case ThreadStep(t, cs) => ChainClientStep(cfg, s, t, cs);
    case ReceiverStep(rs) => ChainRxStep(s, rs);
    case LinkStep(ws) => SentFactsHold(cfg, s); ChainLinkStep(cfg, s, ws);
    case ScriptStep(ms) => ChainScriptStep(s, ms);
    case SolverStep(ks) => ChainSolverStep(cfg, s, ks);
  }

  /** The client's end of the chain. */
  lemma RegistersBehindClient(cfg: Config, s: State)
    requires ValidConfig(cfg) && SenderInv(cfg, s) && WireOk(s.w)
    ensures Regs(s.w)[IN_SEQNR] <= (if s.c.last < 1 then 1 else s.c.last)
  {
    LogLast(cfg, s);
    SentFactsHold(cfg, s);
  }
}

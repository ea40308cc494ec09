/** What readers see: whole frames, each synchronous read a newer one, and every
    publication's timestamp logged once. */
module SnapshotInvariant {
  import opened Cells
  import opened Protocol
  import opened SenderInvariant

  ghost predicate IsData(emitted: seq<OutFrame>, n: nat) {
    n < |emitted| && emitted[n].Data?
  }

  /** The output cells after k publications: the k-th published frame's, zeros before the first. */
  ghost function PubAt(s: State, k: nat): OutCells {
    if 1 <= k <= |s.h.pubs| && IsData(s.w.emitted, s.h.pubs[k - 1]) then s.w.emitted[s.h.pubs[k - 1]].cells else ZERO_OUT
  }

  /** The receiver is at work on frame n, a data frame newer than all published ones. */
  ghost predicate WorkingOn(s: State, n: nat) {
    && n < s.w.received && IsData(s.w.emitted, n)
    && (forall i | 0 <= i < |s.h.pubs| :: s.h.pubs[i] < n)
  }

  /** The receiver parses without the mutex, but only into its own variables; the published
      cells change inside its critical section and are a whole frame's outside it. */
  ghost predicate PublishInv(s: State) {
    && s.w.received <= |s.w.emitted|
    && (s.rx.pc.RxParse? ==>
          && WorkingOn(s, s.rx.pc.n)
          && (forall k | k in s.rx.pc.done :: k < OUT_CELLS && s.rx.buf[k] == s.w.emitted[s.rx.pc.n].cells[k]))
    && (s.rx.pc.RxPublish? ==>
          && WorkingOn(s, s.rx.pc.n) && s.rx.buf == s.w.emitted[s.rx.pc.n].cells
          && (forall k | k in s.rx.pc.done :: k < OUT_CELLS && s.c.pub[k] == s.rx.buf[k]))
    && (forall i | 0 <= i < |s.h.pubs| :: s.h.pubs[i] < s.w.received && IsData(s.w.emitted, s.h.pubs[i]))
    && (forall i, j | 0 <= i < j < |s.h.pubs| :: s.h.pubs[i] < s.h.pubs[j])
    && (s.c.lock != Receiver ==> s.c.pub == PubAt(s, |s.h.pubs|))
  }

  lemma PublishRxStep(s: State, st: RxStep)
    requires LockInv(s) && PublishInv(s) && RxEnabled(s, st)
    ensures PublishInv(RxApply(s, st))
  {
    var s' := RxApply(s, st);
    match st
    case Finish(_) =>
      assert s.c.pub == s.w.emitted[s.rx.pc.n].cells;
    case PublishOne(cell) =>
    case ParseOne(cell) =>
    case LockState => assert s.rx.buf == s.w.emitted[s.rx.pc.n].cells;
    case _ =>
  }

  lemma PublishFrame(s: State, s': State)
    requires PublishInv(s)
    requires s'.rx == s.rx && s'.h.pubs == s.h.pubs && s'.w.received == s.w.received && s'.c.pub == s.c.pub
    requires |s.w.emitted| <= |s'.w.emitted| && s.w.emitted == s'.w.emitted[..|s.w.emitted|]
    requires s'.c.lock == Receiver <==> s.c.lock == Receiver
    ensures PublishInv(s')
  {
    assert forall n: nat | IsData(s.w.emitted, n) :: IsData(s'.w.emitted, n) && s'.w.emitted[n] == s.w.emitted[n];
  }

  lemma ClientKeepsPub(cfg: Config, s: State, t: nat, st: ClientStep)
    requires LockInv(s) && ClientEnabled(cfg, s, t, st)
    ensures var s' := ClientApply(cfg, s, t, st);
            && s'.rx == s.rx && s'.h.pubs == s.h.pubs && s'.c.pub == s.c.pub
            && s'.w.emitted == s.w.emitted && s'.w.received == s.w.received
            && (s'.c.lock == Receiver <==> s.c.lock == Receiver)
  {
    assert Holding(s.c.pcs[t]) <==> s.c.lock == Client(t);
  }

  lemma PublishStep(cfg: Config, s: State, st: Step)
    requires LockInv(s) && PublishInv(s) && Enabled(cfg, s, st)
    ensures PublishInv(Apply(cfg, s, st))
  {
    match st
    case ReceiverStep(rs) => PublishRxStep(s, rs);
    case ThreadStep(t, cs) =>
      ClientKeepsPub(cfg, s, t, cs);
      PublishFrame(s, Apply(cfg, s, st));
    case _ => PublishFrame(s, Apply(cfg, s, st));
  }

  // ----- Reads -----

  ghost predicate CopiedSoFar(s: State, pc: ThreadPc)
    requires pc.Snap?
  {
    && (forall k | k in pc.done :: k < OUT_CELLS && pc.out[k] == s.c.pub[k])
    && (pc.sync ==> AllOlder(s))
    && !s.c.updated
  }

  /** Every read so far returned an older frame than the newest published one. */
  ghost predicate AllOlder(s: State) {
    forall i | 0 <= i < |s.h.snaps| :: s.h.snaps[i].at < |s.h.pubs|
  }

  ghost predicate ReadsInv(s: State) {
    && (forall t | 0 <= t < |s.c.pcs| && s.c.pcs[t].Snap? :: CopiedSoFar(s, s.c.pcs[t]))
    && (s.c.updated ==> AllOlder(s))
    && (forall i | 0 <= i < |s.h.snaps| ::
          s.h.snaps[i].at <= |s.h.pubs| && SameState(s.h.snaps[i].state, PubAt(s, s.h.snaps[i].at)))
    && (forall i, j | 0 <= i < j < |s.h.snaps| ::
          s.h.snaps[i].at <= s.h.snaps[j].at && (s.h.snaps[j].sync ==> s.h.snaps[i].at < s.h.snaps[j].at))
  }

  lemma PubAtStays(s: State, s': State)
    requires PublishInv(s)
    requires |s.h.pubs| <= |s'.h.pubs| && s.h.pubs == s'.h.pubs[..|s.h.pubs|]
    requires |s.w.emitted| <= |s'.w.emitted| && s.w.emitted == s'.w.emitted[..|s.w.emitted|]
    ensures forall k: nat | k <= |s.h.pubs| :: PubAt(s', k) == PubAt(s, k)
  {
    forall k: nat | 1 <= k <= |s.h.pubs|
      ensures PubAt(s', k) == PubAt(s, k)
    {
      assert s'.h.pubs[k - 1] == s.h.pubs[k - 1];
      assert IsData(s.w.emitted, s.h.pubs[k - 1]);
      assert s'.w.emitted[s.h.pubs[k - 1]] == s.w.emitted[s.h.pubs[k - 1]];
    }
  }

  /** A step that leaves the published cells and the reads alone, and starts no copy. */
  lemma ReadsFrame(s: State, s': State)
    requires PublishInv(s) && ReadsInv(s)
    requires s'.h.snaps == s.h.snaps && s'.h.pubs == s.h.pubs && s'.c.pub == s.c.pub
    requires |s.w.emitted| <= |s'.w.emitted| && s.w.emitted == s'.w.emitted[..|s.w.emitted|]
    requires s'.c.updated ==> s.c.updated
    requires forall t | 0 <= t < |s'.c.pcs| && s'.c.pcs[t].Snap? :: CopiedSoFar(s', s'.c.pcs[t])
    ensures ReadsInv(s')
  {
    PubAtStays(s, s');
  }

  /** A step of the wires or of the controller. */
  lemma ReadsAside(s: State, s': State)
    requires PublishInv(s) && ReadsInv(s)
    requires s'.c == s.c && s'.h.snaps == s.h.snaps && s'.h.pubs == s.h.pubs
    requires |s.w.emitted| <= |s'.w.emitted| && s.w.emitted == s'.w.emitted[..|s.w.emitted|]
    ensures ReadsInv(s')
  {
    forall t | 0 <= t < |s'.c.pcs| && s'.c.pcs[t].Snap?
      ensures CopiedSoFar(s', s'.c.pcs[t])
    {
      assert CopiedSoFar(s, s.c.pcs[t]);
    }
    ReadsFrame(s, s');
  }

  lemma EndReadStep(cfg: Config, s: State, t: nat)
    requires LockInv(s) && PublishInv(s) && ReadsInv(s) && ClientEnabled(cfg, s, t, EndRead)
    ensures ReadsInv(ClientApply(cfg, s, t, EndRead))
  {
    var s', pc := ClientApply(cfg, s, t, EndRead), s.c.pcs[t];
    assert Holding(pc) && CopiedSoFar(s, pc);
    PubAtStays(s, s');
    assert SameState(pc.out, s.c.pub);
    assert s'.h.snaps[|s.h.snaps|].state == pc.out;
    forall u | 0 <= u < |s'.c.pcs|
      ensures !s'.c.pcs[u].Snap?
    {
      assert Holding(s.c.pcs[u]) <==> s.c.lock == Client(u);
    }
  }

  lemma ReadsClientStep(cfg: Config, s: State, t: nat, st: ClientStep)
    requires LockInv(s) && PublishInv(s) && ReadsInv(s) && ClientEnabled(cfg, s, t, st)
    ensures ReadsInv(ClientApply(cfg, s, t, st))
  {
    if st.EndRead? {
      EndReadStep(cfg, s, t);
    } else {
      var s' := ClientApply(cfg, s, t, st);
      ClientKeepsPub(cfg, s, t, st);
      forall u | 0 <= u < |s'.c.pcs| && s'.c.pcs[u].Snap?
        ensures CopiedSoFar(s', s'.c.pcs[u])
      {
        assert u != t ==> s'.c.pcs[u] == s.c.pcs[u];
        assert s.c.pcs[u].Snap? ==> CopiedSoFar(s, s.c.pcs[u]);
        assert Holding(s.c.pcs[u]) <==> s.c.lock == Client(u);
      }
      ReadsFrame(s, s');
    }
  }

  lemma ReadsRxStep(s: State, st: RxStep)
    requires LockInv(s) && PublishInv(s) && ReadsInv(s) && RxEnabled(s, st)
    ensures ReadsInv(RxApply(s, st))
  {
    var s' := RxApply(s, st);
    PubAtStays(s, s');
    forall t | 0 <= t < |s'.c.pcs| && s'.c.pcs[t].Snap?
      ensures CopiedSoFar(s', s'.c.pcs[t])
    {
      assert Holding(s.c.pcs[t]);
      assert CopiedSoFar(s, s.c.pcs[t]);
    }
  }

  lemma ReadsStep(cfg: Config, s: State, st: Step)
    requires LockInv(s) && PublishInv(s) && ReadsInv(s) && Enabled(cfg, s, st)
    ensures ReadsInv(Apply(cfg, s, st))
  {
    match st
    case ThreadStep(t, cs) => ReadsClientStep(cfg, s, t, cs);
    case ReceiverStep(rs) => ReadsRxStep(s, rs);
    case _ => ReadsAside(s, Apply(cfg, s, st));
  }

  // ----- The timestamp log -----

  function Flatten(batches: seq<seq<Stamp>>): seq<Stamp> {
    if batches == [] then [] else Flatten(batches[..|batches| - 1]) + batches[|batches| - 1]
  }

  ghost predicate StampsInv(s: State) {
    && Flatten(s.h.batches) + s.c.log == s.h.stamps
    && |s.h.stamps| == |s.h.pubs|
    && (forall i | 0 <= i < |s.h.stamps| :: s.h.stamps[i].ur == PubAt(s, i + 1)[OUT_TS])
    && (forall i | 0 <= i < |s.h.batches| :: |s.h.batches[i]| > 500)
  }

  lemma OneMoreBatch(batches: seq<seq<Stamp>>, log: seq<Stamp>)
    ensures Flatten(batches + [log]) == Flatten(batches) + log
  {
    assert (batches + [log])[..|batches|] == batches;
  }

  lemma DrainStamps(cfg: Config, s: State, t: nat)
    requires PublishInv(s) && StampsInv(s) && ClientEnabled(cfg, s, t, EndRead)
    ensures StampsInv(ClientApply(cfg, s, t, EndRead))
    ensures s.c.pcs[t].sync ==> |ClientApply(cfg, s, t, EndRead).c.log| <= 500
  {
    var s' := ClientApply(cfg, s, t, EndRead);
    PubAtStays(s, s');
    if s.c.pcs[t].sync && |s.c.log| > 500 {
      OneMoreBatch(s.h.batches, s.c.log);
      assert s'.h.batches == s.h.batches + [s.c.log] && s'.c.log == [];
      assert Flatten(s'.h.batches) + s'.c.log == Flatten(s'.h.batches);
    } else {
      assert s'.h.batches == s.h.batches && s'.c.log == s.c.log;
    }
  }

  lemma LogStamp(s: State, local: Word)
    requires LockInv(s) && PublishInv(s) && StampsInv(s) && RxEnabled(s, Finish(local))
    ensures StampsInv(RxApply(s, Finish(local)))
  {
    var s' := RxApply(s, Finish(local));
    PubAtStays(s, s');
    var n := s.rx.pc.n;
    assert PubAt(s', |s'.h.pubs|) == s.w.emitted[n].cells;
    assert s.c.pub[OUT_TS] == s.w.emitted[n].cells[OUT_TS];
  }

  lemma StampsFrame(s: State, s': State)
    requires PublishInv(s) && StampsInv(s)
    requires s'.h.batches == s.h.batches && s'.h.stamps == s.h.stamps && s'.h.pubs == s.h.pubs && s'.c.log == s.c.log
    requires |s.w.emitted| <= |s'.w.emitted| && s.w.emitted == s'.w.emitted[..|s.w.emitted|]
    ensures StampsInv(s')
  {
    PubAtStays(s, s');
  }

  lemma StampsClientStep(cfg: Config, s: State, t: nat, st: ClientStep)
    requires PublishInv(s) && StampsInv(s) && ClientEnabled(cfg, s, t, st)
    ensures StampsInv(ClientApply(cfg, s, t, st))
  {
    if st.EndRead? {
      DrainStamps(cfg, s, t);
    } else {
      StampsFrame(s, ClientApply(cfg, s, t, st));
    }
  }

  lemma StampsRxStep(s: State, st: RxStep)
    requires LockInv(s) && PublishInv(s) && StampsInv(s) && RxEnabled(s, st)
    ensures StampsInv(RxApply(s, st))
  {
    if st.Finish? {
      LogStamp(s, st.local);
    } else {
      StampsFrame(s, RxApply(s, st));
    }
  }

  lemma StampsStep(cfg: Config, s: State, st: Step)
    requires LockInv(s) && PublishInv(s) && StampsInv(s) && Enabled(cfg, s, st)
    ensures StampsInv(Apply(cfg, s, st))
  {
    match st
    case ThreadStep(t, cs) => StampsClientStep(cfg, s, t, cs);
    case ReceiverStep(rs) => StampsRxStep(s, rs);
    case LinkStep(ws) => StampsFrame(s, WireApply(s, ws));
    case ScriptStep(ms) => StampsFrame(s, MainApply(s, ms));
    case SolverStep(ks) => StampsFrame(s, IkApply(cfg, s, ks));
  }
}

/** What must happen, as far as it shows: a stop ends the receiver's loop, every data frame received
    is published, and a publication no read has returned makes a synchronous read possible. */
module LifecycleInvariant {
  import opened CommandLog
  import opened Protocol
  import opened SenderInvariant
  import opened SnapshotInvariant

  // ----- stop -----

  ghost predicate StopCalled(s: State) {
    exists i :: 0 <= i < |s.h.calls| && s.h.calls[i].kind == Halt
  }

  ghost predicate StopUnderWay(s: State) {
    exists t :: 0 <= t < |s.c.pcs| && s.c.pcs[t] == Stopping
  }

  ghost predicate RunningInv(s: State) {
    && (!s.c.running || StopUnderWay(s) ==> StopCalled(s))
    && (StopCalled(s) && !StopUnderWay(s) ==> !s.c.running)
    && (s.rx.pc == RxExited ==> !s.c.running)
  }

  lemma SameStopping(s: State, s': State, t: nat)
    requires t < |s.c.pcs| == |s'.c.pcs| && s.c.pcs[t] != Stopping && s'.c.pcs[t] != Stopping
    requires s'.c.pcs == s.c.pcs[t := s'.c.pcs[t]]
    ensures StopUnderWay(s') <==> StopUnderWay(s)
  {
    if StopUnderWay(s) {
      var u :| 0 <= u < |s.c.pcs| && s.c.pcs[u] == Stopping;
      assert s'.c.pcs[u] == Stopping;
    }
  }

  lemma SameStops(s: State, s': State)
    requires s'.h.calls == s.h.calls || (exists c: Call :: c.kind != Halt && s'.h.calls == s.h.calls + [c])
    ensures StopCalled(s') <==> StopCalled(s)
  {
    assert forall i | 0 <= i < |s.h.calls| :: s'.h.calls[i] == s.h.calls[i];
  }

  lemma RunningFrame(s: State, s': State)
    requires RunningInv(s) && s'.c.running == s.c.running && (s'.rx.pc == RxExited ==> s.rx.pc == RxExited)
    requires (StopUnderWay(s') <==> StopUnderWay(s)) && (StopCalled(s') <==> StopCalled(s))
    ensures RunningInv(s')
  {
  }

  lemma RunningStop(cfg: Config, s: State, t: nat, sent: bool)
    requires RunningInv(s) && ClientEnabled(cfg, s, t, Stop(sent))
    ensures RunningInv(ClientApply(cfg, s, t, Stop(sent)))
  {
    var s' := ClientApply(cfg, s, t, Stop(sent));
    assert s'.c.pcs[t] == Stopping;
    assert s'.h.calls[|s.h.calls|].kind == Halt;
  }

  lemma RunningEnd(cfg: Config, s: State, t: nat)
    requires RunningInv(s) && ClientEnabled(cfg, s, t, EndStop)
    ensures RunningInv(ClientApply(cfg, s, t, EndStop))
  {
    assert StopUnderWay(s);
  }

  lemma RunningClientStep(cfg: Config, s: State, t: nat, st: ClientStep)
    requires LockInv(s) && SenderInv(cfg, s) && RunningInv(s) && ClientEnabled(cfg, s, t, st)
    ensures RunningInv(ClientApply(cfg, s, t, st))
  {
    match st
    case Stop(sent) => RunningStop(cfg, s, t, sent);
    case EndStop => RunningEnd(cfg, s, t);
    case Transmit(ok) =>
      var s' := ClientApply(cfg, s, t, st);
      assert Holding(s.c.pcs[t]);
      SameStopping(s, s', t);
      assert s'.h.calls == s.h.calls + [Call(s.c.pcs[t].kind, s.c.pcs[t].v, ok)];
      SameStops(s, s');
    case _ =>
      var s' := ClientApply(cfg, s, t, st);
      SameStopping(s, s', t);
      SameStops(s, s');
  }

  lemma RunningRxStep(s: State, st: RxStep)
    requires RunningInv(s) && RxEnabled(s, st)
    ensures RunningInv(RxApply(s, st))
  {
    if !st.Quit? {
      RunningFrame(s, RxApply(s, st));
    }
  }

  /** A step of the wires or of the controller. */
  lemma RunningAside(s: State, s': State)
    requires RunningInv(s) && s'.c == s.c && s'.rx == s.rx && s'.h.calls == s.h.calls
    ensures RunningInv(s')
  {
    RunningFrame(s, s');
  }

  lemma RunningStep(cfg: Config, s: State, st: Step)
    requires LockInv(s) && SenderInv(cfg, s) && RunningInv(s) && Enabled(cfg, s, st)
    ensures RunningInv(Apply(cfg, s, st))
  {
    match st
    case ThreadStep(t, cs) => RunningClientStep(cfg, s, t, cs);
    case ReceiverStep(rs) => RunningRxStep(s, rs);
    case _ => RunningAside(s, Apply(cfg, s, st));
  }

  // ----- Frames in -----

  /** Which of the first n frames on the telemetry wire are data packages, in order. */
  function DataFrames(emitted: seq<OutFrame>, n: nat): seq<nat>
    requires n <= |emitted|
  {
    if n == 0 then []
    else DataFrames(emitted, n - 1) + if emitted[n - 1].Data? then [n - 1] else []
  }

  lemma {:induction false} DataFramesStay(emitted: seq<OutFrame>, more: seq<OutFrame>, n: nat)
    requires n <= |emitted| <= |more| && emitted == more[..|emitted|]
    ensures DataFrames(more, n) == DataFrames(emitted, n)
  {
    if n > 0 {
      DataFramesStay(emitted, more, n - 1);
    }
  }

  /** The frame the receiver is at work on. */
  function InHand(rx: RxState): seq<nat> {
    if rx.pc.RxParse? || rx.pc.RxPublish? then [rx.pc.n] else []
  }

  /** Every data frame received has been published or is about to be. */
  ghost predicate ReceivedInv(s: State) {
    s.w.received <= |s.w.emitted| && s.h.pubs + InHand(s.rx) == DataFrames(s.w.emitted, s.w.received)
  }

  lemma ReceivedFrame(s: State, s': State)
    requires ReceivedInv(s) && s'.h.pubs == s.h.pubs && InHand(s'.rx) == InHand(s.rx) && s'.w.received == s.w.received
    requires |s.w.emitted| <= |s'.w.emitted| && s.w.emitted == s'.w.emitted[..|s.w.emitted|]
    ensures ReceivedInv(s')
  {
    DataFramesStay(s.w.emitted, s'.w.emitted, s.w.received);
  }

  lemma ReceivedRxStep(s: State, st: RxStep)
    requires ReceivedInv(s) && RxEnabled(s, st)
    ensures ReceivedInv(RxApply(s, st))
  {
  }

  lemma ReceivedStep(cfg: Config, s: State, st: Step)
    requires ReceivedInv(s) && Enabled(cfg, s, st)
    ensures ReceivedInv(Apply(cfg, s, st))
  {
    match st
    case ReceiverStep(rs) => ReceivedRxStep(s, rs);
    case ThreadStep(t, cs) => ReceivedFrame(s, ClientApply(cfg, s, t, cs));
    case LinkStep(ws) => ReceivedFrame(s, WireApply(s, ws));
    case ScriptStep(ms) => ReceivedFrame(s, MainApply(s, ms));
    case SolverStep(ks) => ReceivedFrame(s, IkApply(cfg, s, ks));
  }

  // ----- Freshness -----

  ghost predicate ReadUnderWay(s: State) {
    exists t :: 0 <= t < |s.c.pcs| && s.c.pcs[t].Snap?
  }

  /** There is a publication no read has returned or is returning. */
  ghost predicate Unread(s: State) {
    s.h.pubs != [] && AllOlder(s) && !ReadUnderWay(s)
  }

  ghost predicate UnreadInv(s: State) {
    (s.c.updated ==> s.h.pubs != []) && (Unread(s) ==> s.c.updated)
  }

  lemma UnreadFrame(s: State, s': State)
    requires UnreadInv(s) && s'.c.updated == s.c.updated && s'.h.pubs == s.h.pubs && s'.h.snaps == s.h.snaps
    requires ReadUnderWay(s) ==> ReadUnderWay(s')
    ensures UnreadInv(s')
  {
  }

  lemma StillReading(s: State, s': State, t: nat)
    requires t < |s.c.pcs| == |s'.c.pcs| && s'.c.pcs == s.c.pcs[t := s'.c.pcs[t]]
    requires s.c.pcs[t].Snap? ==> s'.c.pcs[t].Snap?
    ensures ReadUnderWay(s) ==> ReadUnderWay(s')
  {
    if ReadUnderWay(s) {
      var u :| 0 <= u < |s.c.pcs| && s.c.pcs[u].Snap?;
      assert s'.c.pcs[u].Snap?;
    }
  }

  lemma UnreadClientStep(cfg: Config, s: State, t: nat, st: ClientStep)
    requires UnreadInv(s) && ClientEnabled(cfg, s, t, st)
    ensures UnreadInv(ClientApply(cfg, s, t, st))
  {
    var s' := ClientApply(cfg, s, t, st);
    match st
    case BeginRead(_) => assert s'.c.pcs[t].Snap?;
    case EndRead => assert s'.h.snaps[|s.h.snaps|].at == |s.h.pubs|;
    case _ =>
      StillReading(s, s', t);
      UnreadFrame(s, s');
  }

  lemma UnreadStep(cfg: Config, s: State, st: Step)
    requires ReadsInv(s) && UnreadInv(s) && Enabled(cfg, s, st)
    ensures UnreadInv(Apply(cfg, s, st))
  {
    match st
    case ThreadStep(t, cs) => UnreadClientStep(cfg, s, t, cs);
    case ReceiverStep(rs) =>
      if !rs.Finish? {
        UnreadFrame(s, RxApply(s, rs));
      }
    case LinkStep(ws) => UnreadFrame(s, WireApply(s, ws));
    case ScriptStep(ms) => UnreadFrame(s, MainApply(s, ms));
    case SolverStep(ks) => UnreadFrame(s, IkApply(cfg, s, ks));
  }

  ghost predicate LifecycleInv(s: State) {
    RunningInv(s) && ReceivedInv(s) && UnreadInv(s)
  }

  lemma LifecycleStep(cfg: Config, s: State, st: Step)
    requires LockInv(s) && SenderInv(cfg, s) && ReadsInv(s) && LifecycleInv(s) && Enabled(cfg, s, st)
    ensures LifecycleInv(Apply(cfg, s, st))
  {
    RunningStep(cfg, s, st);
    ReceivedStep(cfg, s, st);
    UnreadStep(cfg, s, st);
  }
}

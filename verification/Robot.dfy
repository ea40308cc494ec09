/** urx::Robot, one call at a time: the methods as they run while no other thread interferes.
    Their effects are the same functions that the step machine's undisturbed passages add up to. */
module Robot {
  import opened Cells
  import opened CommandLog
  import opened Protocol

  const ATTEMPTS: nat := 500

  /** What rtdeh_->recv() made of a receive: nothing usable, or a data frame for the recipe. */
  datatype Rx = Unusable | Frame(cells: OutCells)

  class Robot {
    const inp: array<Word>    // in_seqnr, cmd, set_qd, TCP_pose_ref: the input recipe's variables
    const buf: array<Word>    // the output recipe's variables
    const pub: array<Word>    // ur_state and q_ref_out_seqnr

    var outInitialized: bool
    var inInitialized: bool
    var running: bool
    var updatedState: bool
    var qRefInitialized: bool
    var lastSeqnr: Word
    var tsLog: seq<Stamp>
    var wire: seq<InCells>          // frames the connection has taken
    var written: seq<seq<Stamp>>    // batches drained to the timestamp file

    ghost predicate Valid() {
      && inp.Length == IN_CELLS && buf.Length == OUT_CELLS && pub.Length == OUT_CELLS
      && inp != buf && inp != pub && buf != pub
    }

    ghost function SenderView(): Sender
      requires Valid()
      reads this, inp
    {
      Sender(lastSeqnr, inp[..], wire)
    }

    constructor (qd: Vec, pose: Vec)
      ensures Valid() && fresh(inp) && fresh(buf) && fresh(pub)
      ensures !outInitialized && !inInitialized && !running && !updatedState && !qRefInitialized
      ensures SenderView() == Sender(0, MakeIn(1, NO_COMMAND, qd, pose), [])
      ensures pub[..] == ZERO_OUT && tsLog == [] && written == []
    {
      var first := MakeIn(1, NO_COMMAND, qd, pose);
      inp := new Word[IN_CELLS](i requires 0 <= i < IN_CELLS => first[i]);
      buf := new Word[OUT_CELLS];
      pub := new Word[OUT_CELLS](i requires 0 <= i < OUT_CELLS => ZERO_OUT[i]);
      outInitialized, inInitialized, running, updatedState, qRefInitialized := false, false, false, false, false;
      lastSeqnr, tsLog, wire, written := 0, [], [], [];
      new;
      assert inp[..] == first && pub[..] == ZERO_OUT;
    }

    /** The per-element copy into registered variables. */
    method CopyVector(v: Vec, base: nat)
      requires Valid() && (base == IN_QD || base == IN_POSE)
      modifies inp
      ensures inp[..] == Filled(old(inp[..]), if base == IN_QD then Speed else Pose, v)
    {
      for i := 0 to |v|
        invariant forall k | 0 <= k < i :: inp[base + k] == v[k]
        invariant forall k | 0 <= k < IN_CELLS && !(base <= k < base + i) :: inp[k] == old(inp[k])
      {
        inp[base + i] := v[i];
      }
    }

    /** rtdeh_->send: the recipe stores its variables one by one, then the frame goes out. */
    method SendInput(accepted: bool)
      requires Valid()
      modifies this`wire
      ensures wire == if accepted then old(wire) + [inp[..]] else old(wire)
    {
      var dp: seq<Word> := [];
      for i := 0 to IN_CELLS
        invariant dp == inp[..i]
      {
        dp := dp + [inp[i]];
      }
      assert dp == inp[..];
      if accepted {
        wire := wire + [dp];
      }
    }

    /** The numbered send that update_w, calculate_q_ref and stop share. */
    method Issue(kind: Kind, accepted: bool)
      requires Valid()
      modifies this`lastSeqnr, this`wire, inp
      ensures var next := NextSeqnr(old(lastSeqnr));
              var frame := Numbered(old(inp[..]), next, kind);
              && lastSeqnr == next && inp[..] == frame
              && wire == if accepted then old(wire) + [frame] else old(wire)
    {
      lastSeqnr := NextSeqnr(lastSeqnr);
      inp[IN_SEQNR] := lastSeqnr;
      inp[IN_CMD] := Code(kind);
      assert inp[..] == Numbered(old(inp[..]), lastSeqnr, kind);
      SendInput(accepted);
    }

    /** update_w: refuses vectors of the wrong size and calls before init; otherwise exactly one
        execution of the command log. */
    method UpdateW(w: seq<Word>, accepted: bool) returns (ok: bool)
      requires Valid()
      modifies this`lastSeqnr, this`wire, inp
      ensures |w| != DOF || !inInitialized ==> !ok && SenderView() == old(SenderView())
      ensures |w| == DOF && inInitialized ==>
                ok == accepted && SenderView() == Execute(old(SenderView()), Call(Speed, w, accepted))
    {
      if |w| != DOF {
        return false;
      }
      if !inInitialized {
        return false;
      }
      CopyVector(w, IN_QD);
      Issue(Speed, accepted);
      if !accepted {
        return false;
      }
      inp[IN_CMD] := NO_COMMAND;
      return true;
    }

    /** calculate_q_ref up to the unlock, which both branches of the wait share. */
    method RequestQRef(newPose: seq<Word>, accepted: bool) returns (ok: bool, thisSeqnr: Word)
      requires Valid()
      modifies this`lastSeqnr, this`wire, inp
      ensures |newPose| != DOF || !inInitialized ==> !ok && SenderView() == old(SenderView())
      ensures |newPose| == DOF && inInitialized ==>
                ok == accepted && SenderView() == Execute(old(SenderView()), Call(Pose, newPose, accepted))
      ensures ok ==> thisSeqnr == lastSeqnr == NextSeqnr(old(lastSeqnr))
    {
      if |newPose| != DOF {
        return false, 0;
      }
      if !inInitialized {
        return false, 0;
      }
      CopyVector(newPose, IN_POSE);
      Issue(Pose, accepted);
      if !accepted {
        return false, 0;
      }
      inp[IN_CMD] := NO_COMMAND;
      return true, inp[IN_SEQNR];
    }

    /** wait_for_q_ref: `seen` is q_ref_out_seqnr as each attempt finds it. */
    method WaitForQRef(qRefInSeqnr: Word, seen: seq<Word>) returns (hit: bool, attempt: nat)
      requires |seen| == ATTEMPTS
      ensures hit <==> qRefInSeqnr in seen
      ensures hit ==> attempt < ATTEMPTS && seen[attempt] == qRefInSeqnr && qRefInSeqnr !in seen[..attempt]
    {
      for i := 0 to ATTEMPTS
        invariant qRefInSeqnr !in seen[..i]
      {
        if seen[i] == qRefInSeqnr {
          return true, i;
        }
      }
      return false, 0;
    }

    /** calculate_q_ref: waits on its own number whether or not it is the first call, since the
        future's destructor waits too; true means sent, not answered. */
    method CalculateQRef(newPose: seq<Word>, accepted: bool, seen: seq<Word>) returns (ok: bool, hit: bool)
      requires Valid() && |seen| == ATTEMPTS
      modifies this`lastSeqnr, this`wire, this`qRefInitialized, inp
      ensures |newPose| != DOF || !inInitialized ==> !ok && SenderView() == old(SenderView())
      ensures |newPose| == DOF && inInitialized ==>
                ok == accepted && SenderView() == Execute(old(SenderView()), Call(Pose, newPose, accepted))
      ensures hit <==> ok && NextSeqnr(old(lastSeqnr)) in seen
      ensures qRefInitialized <==> old(qRefInitialized) || ok
    {
      var thisSeqnr, attempt;
      ok, thisSeqnr := RequestQRef(newPose, accepted);
      if !ok {
        return false, false;
      }
      if qRefInitialized {
        hit, attempt := WaitForQRef(thisSeqnr, seen);
      } else {
        hit, attempt := WaitForQRef(thisSeqnr, seen);
        qRefInitialized := true;
      }
    }

    /** stop: no mutex, cmd left standing, and the receiver told to end. */
    method Stop(accepted: bool) returns (ok: bool)
      requires Valid()
      modifies this`lastSeqnr, this`wire, this`running, inp
      ensures ok == old(running) && !running
      ensures SenderView() == if ok then Execute(old(SenderView()), Call(Halt, ZERO_VEC, accepted)) else old(SenderView())
    {
      if !running {
        return false;
      }
      Issue(Halt, accepted);
      running := false;
      return true;
    }

    /** The output recipe's parse: the buffer variables, in recipe order. */
    method ParseBuffers(cells: OutCells)
      requires Valid()
      modifies buf
      ensures buf[..] == cells
    {
      for i := 0 to OUT_CELLS
        invariant forall k | 0 <= k < i :: buf[k] == cells[k]
      {
        buf[i] := cells[i];
      }
    }

    /** The cells published once the scalars and the first n elements of every vector are. */
    predicate Reached(c: nat, n: nat) {
      c < OUT_TELEMETRY || c == OUT_TAG || (if c > OUT_TAG then c - OUT_QREF else (c - OUT_TELEMETRY) % DOF) < n
    }

    /** The locked part of recv: scalars first, then six vectors side by side. */
    method Publish()
      requires Valid()
      modifies pub
      ensures pub[..] == buf[..]
    {
      pub[OUT_TS] := buf[OUT_TS];
      pub[OUT_SEQNR] := buf[OUT_SEQNR];
      pub[OUT_TAG] := buf[OUT_TAG];
      for i := 0 to DOF
        invariant forall c: nat | c < OUT_CELLS && Reached(c, i) :: pub[c] == buf[c]
      {
        pub[OUT_QREF + i] := buf[OUT_QREF + i];
        pub[OUT_TELEMETRY + i] := buf[OUT_TELEMETRY + i];
        pub[OUT_TELEMETRY + DOF + i] := buf[OUT_TELEMETRY + DOF + i];
        pub[OUT_TELEMETRY + 2 * DOF + i] := buf[OUT_TELEMETRY + 2 * DOF + i];
        pub[OUT_TELEMETRY + 3 * DOF + i] := buf[OUT_TELEMETRY + 3 * DOF + i];
        pub[OUT_TELEMETRY + 4 * DOF + i] := buf[OUT_TELEMETRY + 4 * DOF + i];
      }
    }

    /** recv: nothing happens without a usable frame; before init the frame is parsed but not
        published. */
    method Recv(rx: Rx, local: Word) returns (ok: bool)
      requires Valid()
      modifies this`updatedState, this`tsLog, buf, pub
      ensures ok <==> rx.Frame? && outInitialized
      ensures buf[..] == if rx.Frame? then rx.cells else old(buf[..])
      ensures ok ==> pub[..] == rx.cells && updatedState && tsLog == old(tsLog) + [Stamp(local, rx.cells[OUT_TS])]
      ensures !ok ==> pub[..] == old(pub[..]) && updatedState == old(updatedState) && tsLog == old(tsLog)
    {
      if rx.Unusable? {
        return false;
      }
      ParseBuffers(rx.cells);
      if !outInitialized {
        return false;
      }
      Publish();
      updatedState := true;
      tsLog := tsLog + [Stamp(local, pub[OUT_TS])];
      return true;
    }

    /** loc_state: a copy of ur_state (which has no tag), and the update taken note of. */
    method LocState() returns (state: OutCells)
      requires Valid()
      modifies this`updatedState
      ensures SameState(state, pub[..]) && state[OUT_TAG] == 0 && !updatedState
    {
      if updatedState {
        updatedState := false;
      }
      var s: seq<Word> := [];
      for i := 0 to OUT_CELLS
        invariant |s| == i
        invariant forall k | 0 <= k < i :: s[k] == if k == OUT_TAG then 0 else pub[k]
      {
        s := s + [if i == OUT_TAG then 0 else pub[i]];
      }
      return s;
    }

    /** state: a synchronous read that times out returns a fresh Robot_State and changes nothing;
        one that does not also drains a log that has grown past 500. */
    method State(synchronous: bool) returns (state: OutCells)
      requires Valid()
      modifies this`updatedState, this`tsLog, this`written
      ensures synchronous && !old(updatedState) ==>
                state == ZERO_OUT && !updatedState && tsLog == old(tsLog) && written == old(written)
      ensures !synchronous || old(updatedState) ==> SameState(state, pub[..]) && !updatedState
      ensures synchronous && old(updatedState) ==> |tsLog| <= 500
      ensures if synchronous && old(updatedState) && |old(tsLog)| > 500
              then tsLog == [] && written == old(written) + [old(tsLog)]
              else tsLog == old(tsLog) && written == old(written)
    {
      if !synchronous {
        state := LocState();
      } else {
        if !updatedState {
          return ZERO_OUT;
        }
        state := LocState();
        if |tsLog| > 500 {
          written := written + [tsLog];
          tsLog := [];
        }
      }
    }
  }
}

/** The variables a robot client shares with the controller.  A variable is one
    cell holding its bits as a number; the two recipes of the TCP-pose variant
    fix which cells travel in which order. */
module Cells {

  type Word = int

  const DOF: nat := 6

  /** A six-element vector, one element a joint or a pose coordinate. */
  type Vec = v: seq<Word> | |v| == 6 witness [0, 0, 0, 0, 0, 0]

  const ZERO_VEC: Vec := [0, 0, 0, 0, 0, 0]

  // Input recipe (client to controller): in_seqnr, cmd, set_qd[6], TCP_pose_ref[6].
  const IN_SEQNR: nat := 0
  const IN_CMD: nat := 1
  const IN_QD: nat := 2
  const IN_POSE: nat := 8
  const IN_CELLS: nat := 14

  type InCells = c: seq<Word> | |c| == 14 witness [0, 0] + ZERO_VEC + ZERO_VEC

  function QdOf(c: InCells): Vec { c[2..8] }

  function PoseOf(c: InCells): Vec { c[8..14] }

  function MakeIn(seqnr: Word, cmd: Word, qd: Vec, pose: Vec): InCells {
    [seqnr, cmd] + qd + pose
  }

  // Output recipe (controller to client): out_seqnr, timestamp, target_q[6], target_qd[6],
  // target_qdd[6], target_moment[6], target_TCP_pose[6], q_ref tag, q_ref[6].
  const OUT_SEQNR: nat := 0
  const OUT_TS: nat := 1
  const OUT_TELEMETRY: nat := 2
  const OUT_TAG: nat := 32
  const OUT_QREF: nat := 33
  const OUT_CELLS: nat := 39

  type Telemetry = c: seq<Word> | |c| == 30
    witness ZERO_VEC + ZERO_VEC + ZERO_VEC + ZERO_VEC + ZERO_VEC

  type OutCells = c: seq<Word> | |c| == 39
    witness [0, 0] + ZERO_VEC + ZERO_VEC + ZERO_VEC + ZERO_VEC + ZERO_VEC + [0] + ZERO_VEC

  const ZERO_OUT: OutCells :=
    [0, 0] + ZERO_VEC + ZERO_VEC + ZERO_VEC + ZERO_VEC + ZERO_VEC + [0] + ZERO_VEC

  function QrefOf(c: OutCells): Vec { c[33..39] }

  function MakeOut(seqnr: Word, ts: Word, telemetry: Telemetry, tag: Word, qref: Vec): OutCells {
    [seqnr, ts] + telemetry + [tag] + qref
  }

  lemma MakeOutCells(seqnr: Word, ts: Word, telemetry: Telemetry, tag: Word, qref: Vec)
    ensures var c := MakeOut(seqnr, ts, telemetry, tag, qref);
            c[0] == seqnr && c[1] == ts && c[2..32] == telemetry && c[32] == tag && c[33..39] == qref
  {
  }

  /** Every output cell is done; every one that is part of a Robot_State (the tag is not). */
  ghost predicate AllDone(done: set<nat>) {
    forall k: nat | k < OUT_CELLS :: k in done
  }

  ghost predicate StateDone(done: set<nat>) {
    forall k: nat | k < OUT_CELLS && k != OUT_TAG :: k in done
  }

  /** Two output frames give the same Robot_State, the receive time aside. */
  ghost predicate SameState(a: OutCells, b: OutCells) {
    forall k: nat | k < OUT_CELLS && k != OUT_TAG :: a[k] == b[k]
  }
}

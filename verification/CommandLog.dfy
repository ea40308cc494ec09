/** The atomic meaning of the client's command calls: each call of update_w,
    calculate_q_ref or stop takes the next sequence number, writes its vector
    and sends the whole input recipe, or fails to send it. */
module CommandLog {
  import opened Cells

  /** uint32_t sequence numbers wrap here. */
  const WRAP: int := 0x1_0000_0000

  datatype Kind = Halt | Speed | Pose

  const NO_COMMAND: Word := 0

  function Code(kind: Kind): Word {
    match kind
    case Halt => 1
    case Speed => 2
    case Pose => 3
  }

  /** What a frame says beyond its command word, for an action on this command. */
  function Payload(frame: InCells, cmd: Word): seq<Word> {
    if cmd == Code(Speed) then QdOf(frame) else if cmd == Code(Pose) then PoseOf(frame) else []
  }

  function NextSeqnr(last: Word): Word {
    (last + 1) % WRAP
  }

  /** One call that got as far as sending; `ok` is whether the connection took the frame. */
  datatype Call = Call(kind: Kind, v: Vec, ok: bool)

  /** The sender's variables: last_seqnr, the input recipe's cells, and the frames on the wire. */
  datatype Sender = Sender(last: Word, inp: InCells, sent: seq<InCells>)

  function Filled(inp: InCells, kind: Kind, v: Vec): InCells {
    match kind
    case Halt => inp
    case Speed => inp[..2] + v + inp[8..]
    case Pose => inp[..8] + v
  }

  function Numbered(inp: InCells, seqnr: Word, kind: Kind): InCells {
    inp[0 := seqnr][1 := Code(kind)]
  }

  /** One call, start to end.  A failed send and a stop leave cmd standing. */
  function Execute(s: Sender, call: Call): Sender {
    var next := NextSeqnr(s.last);
    var frame := Numbered(Filled(s.inp, call.kind, call.v), next, call.kind);
    if !call.ok then Sender(next, frame, s.sent)
    else Sender(next, if call.kind == Halt then frame else frame[1 := NO_COMMAND], s.sent + [frame])
  }

  function Replay(s: Sender, calls: seq<Call>): Sender {
    if calls == [] then s
    else Execute(Replay(s, calls[..|calls| - 1]), calls[|calls| - 1])
  }

  // ----- What the log promises, said without running it -----

  /** The vector most recently written by a call of this kind, whether or not its send worked. */
  function LastVector(calls: seq<Call>, kind: Kind, initial: Vec): Vec {
    if calls == [] then initial
    else if calls[|calls| - 1].kind == kind then calls[|calls| - 1].v
    else LastVector(calls[..|calls| - 1], kind, initial)
  }

  /** The frame that the last of these calls puts on the wire. */
  function FrameOf(calls: seq<Call>, initial: InCells): InCells
    requires calls != []
  {
    MakeIn(|calls| % WRAP, Code(calls[|calls| - 1].kind),
           LastVector(calls, Speed, QdOf(initial)), LastVector(calls, Pose, PoseOf(initial)))
  }

  function FramesOf(calls: seq<Call>, initial: InCells): seq<InCells> {
    if calls == [] then []
    else
      var before := FramesOf(calls[..|calls| - 1], initial);
      if calls[|calls| - 1].ok then before + [FrameOf(calls, initial)] else before
  }

  lemma ExecuteCells(s: Sender, call: Call)
    ensures var t := Execute(s, call);
            && QdOf(t.inp) == (if call.kind == Speed then call.v else QdOf(s.inp))
            && PoseOf(t.inp) == (if call.kind == Pose then call.v else PoseOf(s.inp))
            && t.inp[0] == t.last == NextSeqnr(s.last)
            && (call.ok ==> t.sent == s.sent + [MakeIn(t.last, Code(call.kind), QdOf(t.inp), PoseOf(t.inp))])
            && (!call.ok ==> t.sent == s.sent)
  {
    var t := Execute(s, call);
    if call.ok {
      var frame := Numbered(Filled(s.inp, call.kind, call.v), t.last, call.kind);
      assert frame == MakeIn(t.last, Code(call.kind), QdOf(t.inp), PoseOf(t.inp));
    }
  }

  /** The sent stream is exactly the log's: the i-th call's frame carries number i + 1, the call's
      own command, and the whole latest speed and pose vectors, failed calls included. */
  lemma {:induction false} ReplayIsLog(initial: InCells, sent: seq<InCells>, calls: seq<Call>)
    ensures var s := Replay(Sender(0, initial, sent), calls);
            && s.last == |calls| % WRAP
            && QdOf(s.inp) == LastVector(calls, Speed, QdOf(initial))
            && PoseOf(s.inp) == LastVector(calls, Pose, PoseOf(initial))
            && s.sent == sent + FramesOf(calls, initial)
  {
    if calls != [] {
      var before, call := calls[..|calls| - 1], calls[|calls| - 1];
      ReplayIsLog(initial, sent, before);
      var s := Replay(Sender(0, initial, sent), before);
      ExecuteCells(s, call);
      assert NextSeqnr(s.last) == |calls| % WRAP by { NextOfMod(|before|); }
    }
  }

  lemma ReplayLast(initial: InCells, sent: seq<InCells>, calls: seq<Call>)
    ensures Replay(Sender(0, initial, sent), calls).last == |calls| % WRAP
  {
    ReplayIsLog(initial, sent, calls);
  }

  lemma BelowWrap(n: nat)
    requires n < WRAP
    ensures n % WRAP == n
  {
  }

  lemma NextOfMod(n: nat)
    ensures NextSeqnr(n % WRAP) == (n + 1) % WRAP
  {
  }

  /** Numbers on the wire strictly increase for as long as fewer than 2^32 calls were made. */
  lemma {:induction false} FramesIncrease(calls: seq<Call>, initial: InCells)
    requires |calls| < WRAP
    ensures forall i | 0 <= i < |FramesOf(calls, initial)| ::
              1 <= FramesOf(calls, initial)[i][0] <= |calls| && 1 <= FramesOf(calls, initial)[i][1] <= 3
    ensures forall i, j | 0 <= i < j < |FramesOf(calls, initial)| ::
              FramesOf(calls, initial)[i][0] < FramesOf(calls, initial)[j][0]
  {
    if calls != [] {
      FramesIncrease(calls[..|calls| - 1], initial);
    }
  }

  lemma {:induction false} FramesCount(calls: seq<Call>, initial: InCells)
    requires forall i | 0 <= i < |calls| :: calls[i].ok
    ensures |FramesOf(calls, initial)| == |calls|
    ensures forall i | 0 <= i < |calls| :: FramesOf(calls, initial)[i][0] == (i + 1) % WRAP
  {
    if calls != [] {
      FramesCount(calls[..|calls| - 1], initial);
    }
  }

  ghost predicate NumbersIncrease(frames: seq<InCells>) {
    forall i, j | 0 <= i < j < |frames| :: frames[i][0] < frames[j][0]
  }

  /** ... and no longer: with every send taken, the numbers increase exactly while there are fewer
      than 2^32 calls.  The 2^32nd is numbered 0 again. */
  lemma FramesIncreaseIff(calls: seq<Call>, initial: InCells)
    requires forall i | 0 <= i < |calls| :: calls[i].ok
    ensures NumbersIncrease(FramesOf(calls, initial)) <==> |calls| < WRAP
    ensures |calls| >= WRAP ==> |FramesOf(calls, initial)| >= WRAP && FramesOf(calls, initial)[WRAP - 1][0] == 0
  {
    FramesCount(calls, initial);
    if |calls| < WRAP {
      FramesIncrease(calls, initial);
    } else {
      var frames := FramesOf(calls, initial);
      assert frames[WRAP - 2][0] == WRAP - 1 && frames[WRAP - 1][0] == 0;
    }
  }

  lemma {:induction false} NoMoreFramesThanCalls(calls: seq<Call>, initial: InCells)
    ensures |FramesOf(calls, initial)| <= |calls|
  {
    if calls != [] {
      NoMoreFramesThanCalls(calls[..|calls| - 1], initial);
    }
  }
}

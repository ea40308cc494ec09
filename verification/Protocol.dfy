/** The whole system as a step machine: client threads and the receiver thread around one
    mutex, the two FIFO wires, and the controller program's main loop and
    inverse-kinematics thread.  Copy loops go element by element, register reads and writes
    one by one, so that all their interleavings are runs of the machine.  Done in one step are a
    critical section of the script's, and stop()'s numbering and sending, which runs alone among
    the senders. */
module Protocol {
  import opened Cells
  import opened CommandLog

  /** `ik` is the controller's inverse kinematics, `controls` the threads that may call
      calculate_q_ref, `initial` the input cells at registration, and `window` how many of their
      commands the callers let go unacknowledged.  urx::Robot itself sets no such limit, and one
      of 2^32 or more never holds a call back. */
  datatype Config = Config(ik: Vec -> Vec, controls: set<nat>, threads: nat, initial: InCells, window: nat)

  /** What init_input promises: numbered 1, no command. */
  ghost predicate ValidConfig(cfg: Config) {
    && cfg.initial[0] == 1 && cfg.initial[1] == NO_COMMAND && cfg.window >= 1
    && (forall t | t in cfg.controls :: t < cfg.threads)
  }

  // ----- State -----

  datatype Lock = Free | Receiver | Client(t: nat)

  datatype ThreadPc =
    | Idle
    | Fill(kind: Kind, v: Vec, i: nat)             // copying the vector, holding the mutex
    | Store(kind: Kind, v: Vec, dp: seq<Word>)     // storing the recipe, holding the mutex
    | Wait(seqnr: Word, pose: Vec)                 // wait_for_q_ref
    | Snap(sync: bool, done: set<nat>, out: OutCells) // copying ur_state, holding the mutex
    | Stopping                                     // stop() between its send and running_ = false

  datatype Stamp = Stamp(local: Word, ur: Word)

  /** The Robot object's guarded variables and its threads. */
  datatype ClientState = ClientState(lock: Lock, pcs: seq<ThreadPc>, last: Word, inp: InCells,
                                     pub: OutCells, updated: bool, log: seq<Stamp>, running: bool)

  /** The receiver thread: at its loop test, blocked in do_recv, parsing frame n into the buffer
      variables (no mutex), publishing it (holding the mutex), gone. */
  datatype RxPc = RxLoop | RxBlocked | RxParse(n: nat, done: set<nat>) | RxPublish(n: nat, done: set<nat>) | RxExited
  datatype RxState = RxState(pc: RxPc, buf: OutCells)

  datatype OutFrame = Data(cells: OutCells) | Other

  /** Both wires with their histories: frames not yet applied (received) are the tail. */
  datatype WireState = WireState(sent: seq<InCells>, applied: nat, emitted: seq<OutFrame>, received: nat)

  datatype MainPc = Top | ReadCmd | ReadQd(words: seq<Word>) | ReadPose(words: seq<Word>) | HaltCmd | Ack | Exited

  /** The script's main loop.  History, as below: `from` is the frame the sequence number was read
      from, `ats` the frames the command word and the words after it were read from. */
  datatype MainState = MainState(pc: MainPc, seqnr: Word, oldSeqnr: Word, from: nat, ats: seq<nat>)

  /** The script's globals. */
  datatype Slots = Slots(keepRunning: bool, tPose: Vec, tSeqnr: Word, updatedPose: bool,
                         tqd: Vec, updatedQd: bool)

  datatype IkPc = IkLoop | IkPoll | IkCompute | IkWrite(q: Vec, i: nat) | IkExited
  datatype IkState = IkState(pc: IkPc, pose: Vec, seqnr: Word)

  /** The controller's output registers. */
  datatype Registers = Registers(ack: Word, tag: Word, qref: Vec)

  // History, written by the steps and read by none of them.
  datatype Request = NoRequest | Request(seqnr: Word, pose: Vec, frame: nat)
  datatype Answer = Answer(seqnr: Word, pose: Vec, q: Vec)
  datatype Read = Read(sync: bool, at: nat, state: OutCells)
  datatype Handled = Handled(seqnr: Word, cmd: Word, data: seq<Word>, from: nat, ats: seq<nat>)

  datatype History = History(calls: seq<Call>, req: Request, answers: seq<Answer>, pubs: seq<nat>,
                             stamps: seq<Stamp>, batches: seq<seq<Stamp>>, snaps: seq<Read>,
                             handled: seq<Handled>)

  datatype State = State(c: ClientState, rx: RxState, w: WireState, m: MainState, g: Slots,
                         k: IkState, r: Registers, h: History)

  /** The input registers hold the last frame applied. */
  function Regs(w: WireState): InCells
    requires 1 <= w.applied <= |w.sent|
  {
    w.sent[w.applied - 1]
  }

  ghost predicate WireOk(w: WireState) {
    && 1 <= w.applied <= |w.sent|
    && w.received <= |w.emitted|
  }

  /** The script has just been started: the registration frame is in the registers, the buffer
      variables are uninitialised and everything else is as constructed. */
  ghost predicate Init(cfg: Config, s: State) {
    && s.c == ClientState(Free, seq(cfg.threads, _ => Idle), 0, cfg.initial, ZERO_OUT, false, [], true)
    && s.rx.pc == RxLoop
    && s.w == WireState([cfg.initial], 1, [], 0)
    && s.m == MainState(Top, 0, 0, 0, [])
    && s.g == Slots(true, ZERO_VEC, 0, false, ZERO_VEC, false)
    && s.k == IkState(IkLoop, ZERO_VEC, 0)
    && s.r.ack == 0 && s.r.tag == 0
    && s.h == History([], NoRequest, [], [], [], [], [], [])
  }

  // ----- Client threads -----

  datatype ClientStep =
    | BeginSend(kind: Kind, v: Vec)
    | FillOne
    | Number
    | StoreOne
    | Transmit(ok: bool)
    | WaitHit
    | WaitTimeout
    | BeginRead(sync: bool)
    | CopyOne(cell: nat)
    | EndRead
    | Stop(sent: bool)
    | EndStop

  function Base(kind: Kind): nat {
    if kind == Speed then IN_QD else IN_POSE
  }

  /** How many command frames are numbered above this acknowledgement. */
  function Unacked(sent: seq<InCells>, ack: Word): nat {
    if |sent| <= 1 then 0
    else
      var last := |sent| - 1;
      Unacked(sent[..last], ack) + if sent[last][IN_SEQNR] > ack then 1 else 0
  }

  ghost predicate Sending(pc: ThreadPc) {
    pc.Fill? || pc.Store?
  }

  ghost predicate ClientEnabled(cfg: Config, s: State, t: nat, st: ClientStep) {
    && t < |s.c.pcs|
    && var pc := s.c.pcs[t];
       match st
       case BeginSend(kind, v) =>
         pc == Idle && s.c.lock == Free && kind != Halt && (kind == Pose ==> t in cfg.controls)
         && s.c.last + 1 < WRAP && Unacked(s.w.sent, s.c.pub[OUT_SEQNR]) < cfg.window
       case FillOne => pc.Fill? && pc.i < DOF
       case Number => pc.Fill? && pc.i == DOF
       case StoreOne => pc.Store? && |pc.dp| < IN_CELLS
       case Transmit(_) => pc.Store? && |pc.dp| == IN_CELLS
       case WaitHit => pc.Wait? && s.c.lock == Free && s.c.pub[OUT_TAG] == pc.seqnr
       case WaitTimeout => pc.Wait? && s.c.lock == Free
       case BeginRead(sync) => pc == Idle && s.c.lock == Free && (sync ==> s.c.updated)
       case CopyOne(cell) => pc.Snap? && cell < OUT_CELLS && cell != OUT_TAG && cell !in pc.done
       case EndRead => pc.Snap? && StateDone(pc.done)
       case Stop(_) =>
         // stop() takes no lock: it is alone among the senders
         pc == Idle && s.c.running && s.c.last + 1 < WRAP && (forall u | 0 <= u < |s.c.pcs| :: !Sending(s.c.pcs[u]))
       case EndStop => pc == Stopping
  }

  function SetPc(c: ClientState, t: nat, pc: ThreadPc): ClientState
    requires t < |c.pcs|
  {
    c.(pcs := c.pcs[t := pc])
  }

  ghost function ClientApply(cfg: Config, s: State, t: nat, st: ClientStep): State
    requires ClientEnabled(cfg, s, t, st)
  {
    var pc := s.c.pcs[t];
    match st
    case BeginSend(kind, v) =>
      s.(c := SetPc(s.c, t, Fill(kind, v, 0)).(lock := Client(t)),
         h := if kind == Pose then s.h.(req := NoRequest) else s.h)
    case FillOne =>
      s.(c := SetPc(s.c, t, Fill(pc.kind, pc.v, pc.i + 1))
              .(inp := s.c.inp[Base(pc.kind) + pc.i := pc.v[pc.i]]))
    case Number =>
      var next := NextSeqnr(s.c.last);
      s.(c := SetPc(s.c, t, Store(pc.kind, pc.v, [])).(last := next, inp := Numbered(s.c.inp, next, pc.kind)))
    case StoreOne =>
      s.(c := SetPc(s.c, t, Store(pc.kind, pc.v, pc.dp + [s.c.inp[|pc.dp|]])))
    case Transmit(ok) =>
      var calls := s.h.calls + [Call(pc.kind, pc.v, ok)];
      if !ok then
        s.(c := SetPc(s.c, t, Idle).(lock := Free), h := s.h.(calls := calls))
      else
        var after := if pc.kind == Pose then Wait(s.c.inp[IN_SEQNR], pc.v) else Idle;
        s.(c := SetPc(s.c, t, after).(lock := Free, inp := s.c.inp[IN_CMD := NO_COMMAND]),
           w := s.w.(sent := s.w.sent + [pc.dp]),
           h := if pc.kind == Pose
                then s.h.(calls := calls, req := Request(s.c.inp[IN_SEQNR], pc.v, |s.w.sent|))
                else s.h.(calls := calls))
    case WaitHit =>
      s.(c := SetPc(s.c, t, Idle),
         h := s.h.(answers := s.h.answers + [Answer(pc.seqnr, pc.pose, QrefOf(s.c.pub))]))
    case WaitTimeout =>
      s.(c := SetPc(s.c, t, Idle))
    case BeginRead(sync) =>
      s.(c := SetPc(s.c, t, Snap(sync, {}, ZERO_OUT)).(lock := Client(t), updated := false))
    case CopyOne(cell) =>
      s.(c := SetPc(s.c, t, Snap(pc.sync, pc.done + {cell}, pc.out[cell := s.c.pub[cell]])))
    case EndRead =>
      var drain := pc.sync && |s.c.log| > 500;
      s.(c := SetPc(s.c, t, Idle).(lock := Free, log := if drain then [] else s.c.log),
         h := s.h.(snaps := s.h.snaps + [Read(pc.sync, |s.h.pubs|, pc.out)],
                   batches := if drain then s.h.batches + [s.c.log] else s.h.batches))
    case Stop(sent) =>
      var next := NextSeqnr(s.c.last);
      var frame := Numbered(s.c.inp, next, Halt);
      s.(c := SetPc(s.c, t, Stopping).(last := next, inp := frame),
         w := if sent then s.w.(sent := s.w.sent + [frame]) else s.w,
         h := s.h.(calls := s.h.calls + [Call(Halt, ZERO_VEC, sent)]))
    case EndStop =>
      s.(c := SetPc(s.c, t, Idle).(running := false))
  }

  // ----- Receiver thread -----

  datatype RxStep = Block | Quit | Take | ParseOne(cell: nat) | LockState | PublishOne(cell: nat) | Finish(local: Word)

  ghost predicate RxEnabled(s: State, st: RxStep) {
    && WireOk(s.w)
    && match st
       case Block => s.rx.pc == RxLoop && s.c.running
       case Quit => s.rx.pc == RxLoop && !s.c.running
       case Take => s.rx.pc == RxBlocked && s.w.received < |s.w.emitted|
       case ParseOne(cell) =>
         s.rx.pc.RxParse? && cell < OUT_CELLS && cell !in s.rx.pc.done
         && s.rx.pc.n < |s.w.emitted| && s.w.emitted[s.rx.pc.n].Data?
       case LockState => s.rx.pc.RxParse? && AllDone(s.rx.pc.done) && s.c.lock == Free
       case PublishOne(cell) => s.rx.pc.RxPublish? && cell < OUT_CELLS && cell !in s.rx.pc.done
       case Finish(_) =>
         s.rx.pc.RxPublish? && AllDone(s.rx.pc.done)
         && s.rx.pc.n < |s.w.emitted| && s.w.emitted[s.rx.pc.n].Data?
  }

  ghost function RxApply(s: State, st: RxStep): State
    requires RxEnabled(s, st)
  {
    match st
    case Block => s.(rx := s.rx.(pc := RxBlocked))
    case Quit => s.(rx := s.rx.(pc := RxExited))
    case Take =>
      // a frame that is not a data package is dropped by rtdeh_->recv()
      s.(rx := s.rx.(pc := if s.w.emitted[s.w.received].Data? then RxParse(s.w.received, {}) else RxLoop),
         w := s.w.(received := s.w.received + 1))
    case ParseOne(cell) =>
      s.(rx := RxState(RxParse(s.rx.pc.n, s.rx.pc.done + {cell}),
                       s.rx.buf[cell := s.w.emitted[s.rx.pc.n].cells[cell]]))
    case LockState =>
      s.(rx := s.rx.(pc := RxPublish(s.rx.pc.n, {})), c := s.c.(lock := Receiver))
    case PublishOne(cell) =>
      s.(rx := s.rx.(pc := RxPublish(s.rx.pc.n, s.rx.pc.done + {cell})),
         c := s.c.(pub := s.c.pub[cell := s.rx.buf[cell]]))
    case Finish(local) =>
      s.(rx := s.rx.(pc := RxLoop),
         c := s.c.(lock := Free, updated := true, log := s.c.log + [Stamp(local, s.c.pub[OUT_TS])]),
         h := s.h.(pubs := s.h.pubs + [s.rx.pc.n],
                   stamps := s.h.stamps + [Stamp(local, s.w.emitted[s.rx.pc.n].cells[OUT_TS])]))
  }

  // ----- Wires -----

  datatype WireStep = Deliver | Emit(ts: Word, telemetry: Telemetry) | EmitOther

  ghost predicate WireEnabled(s: State, st: WireStep) {
    st == Deliver ==> s.w.applied < |s.w.sent|
  }

  ghost function WireApply(s: State, st: WireStep): State
    requires WireEnabled(s, st)
  {
    match st
    case Deliver => s.(w := s.w.(applied := s.w.applied + 1))
    case Emit(ts, telemetry) =>
      s.(w := s.w.(emitted := s.w.emitted + [Data(MakeOut(s.r.ack, ts, telemetry, s.r.tag, s.r.qref))]))
    case EmitOther => s.(w := s.w.(emitted := s.w.emitted + [Other]))
  }

  // ----- The script's main loop -----

  datatype MainStep = ReadSeqnr | ReadCommand | ReadWord | Commit | WriteAck | Leave

  /** The branch of the command the script has read (in the script's own numbers), and the words
      it has read so far. */
  ghost predicate Carrying(pc: MainPc) {
    pc.ReadQd? || pc.ReadPose? || pc.HaltCmd?
  }

  function CmdOf(pc: MainPc): Word {
    if pc.ReadQd? then 2 else if pc.ReadPose? then 3 else 1
  }

  function WordsOf(pc: MainPc): seq<Word> {
    if pc.ReadQd? || pc.ReadPose? then pc.words else []
  }

  /** The script is between reading a sequence number and acting on it. */
  ghost predicate Reading(pc: MainPc) {
    pc.ReadCmd? || Carrying(pc)
  }

  ghost predicate MainEnabled(s: State, st: MainStep) {
    && WireOk(s.w)
    && match st
       case ReadSeqnr => s.m.pc == Top && s.g.keepRunning
       case ReadCommand => s.m.pc == ReadCmd
       case ReadWord => (s.m.pc.ReadQd? || s.m.pc.ReadPose?) && |s.m.pc.words| < DOF
       case Commit => s.m.pc == HaltCmd || ((s.m.pc.ReadQd? || s.m.pc.ReadPose?) && |s.m.pc.words| == DOF)
       case WriteAck => s.m.pc == Ack
       case Leave => s.m.pc == Top && !s.g.keepRunning
  }

  ghost function MainApply(s: State, st: MainStep): State
    requires MainEnabled(s, st)
  {
    var at := s.w.applied - 1;
    match st
    case ReadSeqnr =>
      var seqnr := Regs(s.w)[IN_SEQNR];
      if seqnr == s.m.oldSeqnr then s.(m := s.m.(seqnr := seqnr))
      else s.(m := MainState(ReadCmd, seqnr, seqnr, at, []))
    case ReadCommand =>
      var cmd := Regs(s.w)[IN_CMD];
      if cmd == 1 then s.(m := s.m.(pc := HaltCmd, ats := [at]))
      else if cmd == 2 then s.(m := s.m.(pc := ReadQd([]), ats := [at]))
      else if cmd == 3 then s.(m := s.m.(pc := ReadPose([]), ats := [at]))
      else
        s.(m := s.m.(pc := Ack, ats := [at]),
           h := s.h.(handled := s.h.handled + [Handled(s.m.seqnr, cmd, [], s.m.from, [at])]))
    case ReadWord =>
      if s.m.pc.ReadQd? then
        s.(m := s.m.(pc := ReadQd(s.m.pc.words + [Regs(s.w)[IN_QD + |s.m.pc.words|]]), ats := s.m.ats + [at]))
      else
        s.(m := s.m.(pc := ReadPose(s.m.pc.words + [Regs(s.w)[IN_POSE + |s.m.pc.words|]]), ats := s.m.ats + [at]))
    case Commit =>
      // the critical section that ends the branch
      s.(m := s.m.(pc := Ack),
         g := match s.m.pc
              case ReadQd(words) => s.g.(tqd := words, updatedQd := true)
              case ReadPose(words) => s.g.(tPose := words, tSeqnr := s.m.seqnr, updatedPose := true)
              case _ => s.g.(keepRunning := false, tqd := ZERO_VEC),
         h := s.h.(handled := s.h.handled + [Handled(s.m.seqnr, CmdOf(s.m.pc), WordsOf(s.m.pc), s.m.from, s.m.ats)]))
    case WriteAck => s.(m := s.m.(pc := Top), r := s.r.(ack := s.m.seqnr))
    case Leave => s.(m := s.m.(pc := Exited))
  }

  // ----- The script's inverse-kinematics thread -----

  datatype IkStep = TestRunning | Poll | Compute | WriteOne | WriteTag | IkLeave

  ghost predicate IkEnabled(s: State, st: IkStep) {
    match st
    case TestRunning => s.k.pc == IkLoop && s.g.keepRunning
    case Poll => s.k.pc == IkPoll
    case Compute => s.k.pc == IkCompute
    case WriteOne => s.k.pc.IkWrite? && s.k.pc.i < DOF
    case WriteTag => s.k.pc.IkWrite? && s.k.pc.i == DOF
    case IkLeave => s.k.pc == IkLoop && !s.g.keepRunning
  }

  ghost function IkApply(cfg: Config, s: State, st: IkStep): State
    requires IkEnabled(s, st)
  {
    match st
    case TestRunning => s.(k := s.k.(pc := IkPoll))
    case Poll =>
      if s.g.updatedPose then s.(k := IkState(IkCompute, s.g.tPose, s.g.tSeqnr), g := s.g.(updatedPose := false))
      else s.(k := s.k.(pc := IkLoop))
    case Compute => s.(k := s.k.(pc := IkWrite(cfg.ik(s.k.pose), 0)))
    case WriteOne =>
      s.(k := s.k.(pc := IkWrite(s.k.pc.q, s.k.pc.i + 1)),
         r := s.r.(qref := s.r.qref[s.k.pc.i := s.k.pc.q[s.k.pc.i]]))
    case WriteTag => s.(k := s.k.(pc := IkLoop), r := s.r.(tag := s.k.seqnr))
    case IkLeave => s.(k := s.k.(pc := IkExited))
  }

  // ----- Runs -----

  datatype Step = ThreadStep(t: nat, cs: ClientStep) | ReceiverStep(rs: RxStep) | LinkStep(ws: WireStep)
                | ScriptStep(ms: MainStep) | SolverStep(ks: IkStep)

  ghost predicate Enabled(cfg: Config, s: State, st: Step) {
    match st
    case ThreadStep(t, cs) => ClientEnabled(cfg, s, t, cs)
    case ReceiverStep(rs) => RxEnabled(s, rs)
    case LinkStep(ws) => WireEnabled(s, ws)
    case ScriptStep(ms) => MainEnabled(s, ms)
    case SolverStep(ks) => IkEnabled(s, ks)
  }

  ghost function Apply(cfg: Config, s: State, st: Step): State
    requires Enabled(cfg, s, st)
  {
    match st
    case ThreadStep(t, cs) => ClientApply(cfg, s, t, cs)
    case ReceiverStep(rs) => RxApply(s, rs)
    case LinkStep(ws) => WireApply(s, ws)
    case ScriptStep(ms) => MainApply(s, ms)
    case SolverStep(ks) => IkApply(cfg, s, ks)
  }

  /** No step takes a frame back. */
  lemma WiresGrow(cfg: Config, s: State, st: Step)
    requires WireOk(s.w) && Enabled(cfg, s, st)
    ensures var w, w' := s.w, Apply(cfg, s, st).w;
            && WireOk(w') && w.applied <= w'.applied
            && |w.sent| <= |w'.sent| && w.sent == w'.sent[..|w.sent|]
            && |w.emitted| <= |w'.emitted| && w.emitted == w'.emitted[..|w.emitted|]
  {
  }

  /** These steps lead from s to t. */
  ghost predicate Runs(cfg: Config, s: State, steps: seq<Step>, t: State)
    decreases |steps|
  {
    if steps == [] then s == t
    else
      var last := |steps| - 1;
      exists m :: Runs(cfg, s, steps[..last], m) && Enabled(cfg, m, steps[last]) && t == Apply(cfg, m, steps[last])
  }

  /** Some run leads from s to t. */
  ghost predicate Leads(cfg: Config, s: State, t: State) {
    exists steps :: Runs(cfg, s, steps, t)
  }

  /** t is reached from some initial state by some run. */
  ghost predicate Reachable(cfg: Config, t: State) {
    exists s :: Init(cfg, s) && Leads(cfg, s, t)
  }
}

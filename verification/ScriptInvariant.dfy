/** What the script does with the commands: each sequence number at most once, none after the
    first hidden, and every word it acts on read from a frame it knows. */
module ScriptInvariant {
  import opened Cells
  import opened CommandLog
  import opened Protocol
  import opened SenderInvariant
  import opened ChainInvariant

  function WordCount(cmd: Word): nat {
    if cmd == Code(Speed) || cmd == Code(Pose) then DOF else 0
  }

  /** The command word and each word after it are those of the frames in the registers when they
      were read, none of them older than the frame before. */
  ghost predicate ReadFrom(w: WireState, cmd: Word, words: seq<Word>, from: nat, ats: seq<nat>) {
    && |ats| == 1 + |words| && |words| <= WordCount(cmd)
    && from <= ats[0] && (forall i, j | 0 <= i < j < |ats| :: ats[i] <= ats[j])
    && ats[|ats| - 1] < w.applied <= |w.sent|
    && cmd == w.sent[ats[0]][IN_CMD]
    && (forall i | 0 <= i < |words| :: words[i] == Payload(w.sent[ats[1 + i]], cmd)[i])
  }

  ghost predicate HandledOk(w: WireState, e: Handled) {
    && ReadFrom(w, e.cmd, e.data, e.from, e.ats)
    && |e.data| == WordCount(e.cmd)
    && w.sent[e.from][IN_SEQNR] == e.seqnr
  }

  /** The frame the last word was read from. */
  function To(e: Handled): nat
    requires e.ats != []
  {
    e.ats[|e.ats| - 1]
  }

  /** The action is on the whole command of frame f: command word and every word after it. */
  ghost predicate OwnCommand(w: WireState, e: Handled, f: nat) {
    && (forall k | 0 <= k < |e.ats| :: e.ats[k] == f)
    && f < |w.sent| && e.cmd == w.sent[f][IN_CMD] && e.data == Payload(w.sent[f], e.cmd)
  }

  ghost predicate ReadingOk(s: State) {
    && s.m.from < s.w.applied <= |s.w.sent| && s.w.sent[s.m.from][IN_SEQNR] == s.m.seqnr
    && (Carrying(s.m.pc) ==> ReadFrom(s.w, CmdOf(s.m.pc), WordsOf(s.m.pc), s.m.from, s.m.ats))
  }

  ghost predicate HandledInv(s: State) {
    && (forall i | 0 <= i < |s.h.handled| :: HandledOk(s.w, s.h.handled[i]))
    && (forall i, j | 0 <= i < j < |s.h.handled| :: s.h.handled[i].seqnr < s.h.handled[j].seqnr)
  }

  /** Where the script stands with the last number it acted on; none, if it acted on none. */
  ghost predicate LastHandled(s: State) {
    if s.h.handled == [] then
      s.g.keepRunning && (s.m.pc == Top || Reading(s.m.pc)) && (s.m.pc == Top ==> s.m.oldSeqnr == 0)
    else
      var last := s.h.handled[|s.h.handled| - 1].seqnr;
      if Reading(s.m.pc) then last < s.m.oldSeqnr else last == s.m.oldSeqnr
  }

  ghost predicate ScriptInv(s: State) {
    WireOk(s.w) && HandledInv(s) && LastHandled(s) && (Reading(s.m.pc) ==> ReadingOk(s))
  }

  lemma ReadFromStays(w: WireState, w': WireState, cmd: Word, words: seq<Word>, from: nat, ats: seq<nat>)
    requires ReadFrom(w, cmd, words, from, ats) && w.applied <= w'.applied <= |w'.sent|
    requires |w.sent| <= |w'.sent| && w.sent == w'.sent[..|w.sent|]
    ensures ReadFrom(w', cmd, words, from, ats)
  {
    forall k | 0 <= k < |ats|
      ensures ats[k] < |w.sent| && w'.sent[ats[k]] == w.sent[ats[k]]
    {
      assert ats[k] <= ats[|ats| - 1];
    }
  }

  lemma HandledStays(w: WireState, w': WireState, e: Handled)
    requires HandledOk(w, e) && w.applied <= w'.applied <= |w'.sent|
    requires |w.sent| <= |w'.sent| && w.sent == w'.sent[..|w.sent|]
    ensures HandledOk(w', e)
  {
    ReadFromStays(w, w', e.cmd, e.data, e.from, e.ats);
    assert e.from <= e.ats[0] <= e.ats[|e.ats| - 1];
  }

  lemma ScriptFrame(s: State, s': State)
    requires ScriptInv(s) && s'.m == s.m && s'.h.handled == s.h.handled && s'.g.keepRunning == s.g.keepRunning
    requires s.w.applied <= s'.w.applied <= |s'.w.sent| && s'.w.received <= |s'.w.emitted|
    requires |s.w.sent| <= |s'.w.sent| && s.w.sent == s'.w.sent[..|s.w.sent|]
    ensures ScriptInv(s')
  {
    forall i | 0 <= i < |s.h.handled|
      ensures HandledOk(s'.w, s'.h.handled[i])
    {
      HandledStays(s.w, s'.w, s.h.handled[i]);
    }
    if Carrying(s.m.pc) {
      ReadFromStays(s.w, s'.w, CmdOf(s.m.pc), WordsOf(s.m.pc), s.m.from, s.m.ats);
    }
  }

  /** Reading one more word of the registers. */
  lemma OneMoreWord(w: WireState, cmd: Word, words: seq<Word>, from: nat, ats: seq<nat>, x: Word)
    requires ReadFrom(w, cmd, words, from, ats) && |words| < WordCount(cmd)
    requires x == Payload(w.sent[w.applied - 1], cmd)[|words|]
    ensures ReadFrom(w, cmd, words + [x], from, ats + [w.applied - 1])
  {
    var more := ats + [w.applied - 1];
    forall i, j | 0 <= i < j < |more|
      ensures more[i] <= more[j]
    {
      assert ats[i] <= ats[|ats| - 1];
    }
  }

  /** The script moves on within a command. */
  lemma ReadingMoves(s: State, s': State)
    requires ScriptInv(s) && Reading(s.m.pc) && Reading(s'.m.pc) && ReadingOk(s')
    requires s'.w == s.w && s'.h.handled == s.h.handled && s'.g == s.g && s'.m.oldSeqnr == s.m.oldSeqnr
    ensures ScriptInv(s')
  {
  }

  /** The script is done with a command. */
  lemma ActsOn(s: State, s': State, e: Handled)
    requires ScriptInv(s) && Reading(s.m.pc) && s'.m.pc == Ack && s'.w == s.w && s'.m.oldSeqnr == s.m.oldSeqnr
    requires s'.h.handled == s.h.handled + [e] && HandledOk(s.w, e) && e.seqnr == s.m.oldSeqnr
    ensures ScriptInv(s')
  {
  }

  lemma ReadWordStep(s: State)
    requires ScriptInv(s) && MainEnabled(s, ReadWord)
    ensures ScriptInv(MainApply(s, ReadWord))
  {
    WordTaken(s);
    ReadingMoves(s, MainApply(s, ReadWord));
  }

  lemma WordTaken(s: State)
    requires WireOk(s.w) && (s.m.pc.ReadQd? || s.m.pc.ReadPose?) && |s.m.pc.words| < DOF && ReadingOk(s)
    ensures ReadingOk(MainApply(s, ReadWord))
  {
    var cmd, words := CmdOf(s.m.pc), s.m.pc.words;
    var x := Payload(Regs(s.w), cmd)[|words|];
    OneMoreWord(s.w, cmd, words, s.m.from, s.m.ats, x);
    assert x == Regs(s.w)[(if s.m.pc.ReadQd? then IN_QD else IN_POSE) + |words|];
  }

  lemma CommitStep(s: State)
    requires s.m.seqnr == s.m.oldSeqnr && ScriptInv(s) && MainEnabled(s, Commit)
    ensures ScriptInv(MainApply(s, Commit))
  {
    var e := Handled(s.m.seqnr, CmdOf(s.m.pc), WordsOf(s.m.pc), s.m.from, s.m.ats);
    ActsOn(s, MainApply(s, Commit), e);
  }

  lemma ReadCommandStep(s: State)
    requires s.m.seqnr == s.m.oldSeqnr && ScriptInv(s) && MainEnabled(s, ReadCommand)
    ensures ScriptInv(MainApply(s, ReadCommand))
  {
    var s', cmd := MainApply(s, ReadCommand), Regs(s.w)[IN_CMD];
    assert ReadFrom(s.w, cmd, [], s.m.from, [s.w.applied - 1]);
    if s'.m.pc == Ack {
      ActsOn(s, s', Handled(s.m.seqnr, cmd, [], s.m.from, [s.w.applied - 1]));
    } else {
      ReadingMoves(s, s');
    }
  }

  lemma ScriptOwnStep(s: State, st: MainStep)
    requires ControllerChain(s) && ScriptInv(s) && MainEnabled(s, st)
    ensures ScriptInv(MainApply(s, st))
  {
    match st
    case ReadWord => ReadWordStep(s);
    case Commit => CommitStep(s);
    case ReadCommand => ReadCommandStep(s);
    case ReadSeqnr =>
    case WriteAck =>
    case Leave =>
  }

  lemma ScriptStepKeeps(cfg: Config, s: State, st: Step)
    requires ControllerChain(s) && ScriptInv(s) && Enabled(cfg, s, st)
    ensures ScriptInv(Apply(cfg, s, st))
  {
    WiresGrow(cfg, s, st);
    match st
    case ScriptStep(ms) => ScriptOwnStep(s, ms);
    case ThreadStep(t, cs) => ScriptFrame(s, ClientApply(cfg, s, t, cs));
    case ReceiverStep(rs) => ScriptFrame(s, RxApply(s, rs));
    case LinkStep(ws) => ScriptFrame(s, WireApply(s, ws));
    case SolverStep(ks) => ScriptFrame(s, IkApply(cfg, s, ks));
  }

  /** An action whose last word came from the frame its number came from is on that whole frame. */
  lemma UndisturbedIsOwn(w: WireState, e: Handled)
    requires HandledOk(w, e)
    ensures OwnCommand(w, e, e.from) <==> To(e) == e.from
  {
    if To(e) == e.from {
      SameFrameIsOwn(w, e, e.from);
    }
  }

  /** An action all of whose words come from one frame is on that frame's whole command. */
  lemma SameFrameIsOwn(w: WireState, e: Handled, f: nat)
    requires HandledOk(w, e) && e.ats[0] == f == To(e)
    ensures OwnCommand(w, e, f)
  {
    forall k | 0 <= k < |e.ats|
      ensures e.ats[k] == f
    {
      assert e.ats[0] <= e.ats[k] <= To(e);
    }
    assert e.data == Payload(w.sent[f], e.cmd);
  }

  /** De-duplication: if the script finds its old number in the registers, then it has acted on
      that number, and for a number above 1 on the very command that is still in them. */
  lemma HiddenOnlyIfRead(cfg: Config, s: State)
    requires ValidConfig(cfg) && SentFacts(cfg, s) && ControllerChain(s) && ScriptInv(s)
    requires s.m.pc == Top && Regs(s.w)[IN_SEQNR] == s.m.oldSeqnr && s.m.oldSeqnr > 1
    ensures s.h.handled != []
    ensures var e := s.h.handled[|s.h.handled| - 1];
            e.seqnr == s.m.oldSeqnr && OwnCommand(s.w, e, s.w.applied - 1)
  {
    var e := s.h.handled[|s.h.handled| - 1];
    assert HandledOk(s.w, e);
    assert e.from == s.w.applied - 1;
    assert e.from <= e.ats[0] <= To(e);
    SameFrameIsOwn(s.w, e, e.from);
  }
}

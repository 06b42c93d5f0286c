/** Image-before-Commit (crates/pg-am-btree/src/index.rs, module section
    "FPI-before-commit", and the image gate of
    crates/pg-storage/src/buffer_pool.rs).

    One page that is split again and again, seen by the splitter, by other leaf
    writers and by the checkpointer. A page image is replayed whatever the page
    holds, so an image must show the page as the log has it at that point. */
module BtreeImages {

  type Lsn = nat

  /** What the log says about the page. */
  datatype Note =
    | Image(flagged: bool)
    | Prepare
    | Commit
    | Write
    | Elsewhere

  /** The splitter: after Prepare and Copy it pre-touches the page, appends the
      Commit, and clears the flag under a later latch hold. */
  datatype Phase = Idle | Prepared | Touched | Appended(commitLsn: Lsn)

  /** A leaf writer holds the write latch from reading the flag to its apply. */
  datatype Latch = Free | Writer(sawFlag: bool, gated: bool)

  datatype State = State(
    log: seq<Note>, phase: Phase, latch: Latch,
    flagged: bool, pdLsn: Lsn, needsFpi: bool, checkpoint: Lsn)

  datatype Step =
    | SplitPrepare
    | PreTouch
    | AppendCommit
    | ApplyCommit
    | WriterLatch
    | WriterGate
    | WriterApply
    | Flush
    | Checkpoint(begin: Lsn)
    | OtherPage

  /** The two rules of the protocol: writers skip the image of a flagged page,
      and the Commit is applied without one. */
  datatype Rules = Rules(skipFlagged: bool, applyWithoutImage: bool)

  const PROTOCOL := Rules(true, true)

  /** `ensure_fpi`: due once per checkpoint cycle, for a page with an on-disk
      image. The live page takes the image's LSN. */
  function EnsureImage(s: State): State
  {
    if s.needsFpi && s.checkpoint > 0 && s.pdLsn < s.checkpoint then
      s.(log := s.log + [Image(s.flagged)], pdLsn := |s.log| + 1)
    else s
  }

  /** Append a record about the page and stamp it. */
  function Record(s: State, note: Note): State
  {
    s.(log := s.log + [note], pdLsn := |s.log| + 1)
  }

  predicate Enabled(s: State, step: Step)
  {
    match step
    case SplitPrepare => s.latch.Free? && s.phase.Idle? && !s.flagged
    case PreTouch => s.latch.Free? && s.phase.Prepared?
    case AppendCommit => s.phase.Touched?
    case ApplyCommit => s.latch.Free? && s.phase.Appended?
    case WriterLatch => s.latch.Free?
    case WriterGate => s.latch.Writer? && !s.latch.gated
    case WriterApply => s.latch.Writer? && s.latch.gated
    case Checkpoint(begin) => s.checkpoint <= begin <= |s.log|
    case _ => true
  }

  function Next(s: State, step: Step, rules: Rules): State
    requires Enabled(s, step)
  {
    match step
    case SplitPrepare => Record(EnsureImage(s), Prepare).(flagged := true, phase := Prepared)
    case PreTouch => EnsureImage(s).(phase := Touched)
    case AppendCommit => s.(log := s.log + [Commit], phase := Appended(|s.log| + 1))
    case ApplyCommit =>
      var t := if rules.applyWithoutImage then s else EnsureImage(s);
      t.(flagged := false, phase := Idle, pdLsn := if s.phase.commitLsn > t.pdLsn then s.phase.commitLsn else t.pdLsn)
    case WriterLatch => s.(latch := Writer(s.flagged, false))
    case WriterGate =>
      var t := if rules.skipFlagged && s.latch.sawFlag then s else EnsureImage(s);
      t.(latch := Writer(s.latch.sawFlag, true))
    case WriterApply => Record(s, Write).(latch := Free)
    case Flush => s.(needsFpi := true)
    case Checkpoint(begin) => s.(checkpoint := begin)
    case OtherPage => s.(log := s.log + [Elsewhere])
  }

  /** A split of the page is open after `log`: a Prepare with no Commit yet. */
  predicate Open(log: seq<Note>)
  {
    if log == [] then false
    else
      match log[|log| - 1]
      case Prepare => true
      case Commit => false
      case _ => Open(log[..|log| - 1])
  }

  /** Every image shows the flag the log has at that point; in particular none
      that is still flagged comes after its split's Commit. */
  ghost predicate ImagesTrue(log: seq<Note>)
  {
    forall i :: 0 <= i < |log| ==> ImageTrueAt(log, i)
  }

  ghost predicate ImageTrueAt(log: seq<Note>, i: nat)
    requires i < |log|
  {
    log[i].Image? ==> log[i].flagged == Open(log[..i])
  }

  ghost predicate Inv(s: State)
  {
    && ImagesTrue(s.log)
    && (s.flagged <==> !s.phase.Idle?)
    && (Open(s.log) <==> s.phase.Prepared? || s.phase.Touched?)
    && (s.latch.Writer? ==> s.latch.sawFlag == s.flagged)
  }

  ghost predicate Init(s: State)
  {
    s.log == [] && s.phase.Idle? && s.latch.Free? && !s.flagged && s.checkpoint == 0
  }

  lemma AppendNote(log: seq<Note>, note: Note)
    requires ImagesTrue(log) && (note.Image? ==> note.flagged == Open(log))
    ensures ImagesTrue(log + [note])
    ensures Open(log + [note]) == (match note case Prepare => true case Commit => false case _ => Open(log))
  {
    var log' := log + [note];
    assert log'[..|log|] == log;
    forall i | 0 <= i < |log'| ensures ImageTrueAt(log', i) {
      assert i < |log| ==> ImageTrueAt(log, i) && log'[..i] == log[..i];
    }
  }

  /** An image taken while the flag is what the log says. */
  lemma EnsureImageKeeps(s: State)
    requires ImagesTrue(s.log) && s.flagged == Open(s.log)
    ensures ImagesTrue(EnsureImage(s).log) && Open(EnsureImage(s).log) == Open(s.log)
  {
    AppendNote(s.log, Image(s.flagged));
  }

  lemma StepKeepsInv(s: State, step: Step)
    requires Inv(s) && Enabled(s, step)
    ensures Inv(Next(s, step, PROTOCOL))
  {
    match step
    case SplitPrepare =>
      EnsureImageKeeps(s);
      AppendNote(EnsureImage(s).log, Prepare);
    case PreTouch => EnsureImageKeeps(s);
    case AppendCommit => AppendNote(s.log, Commit);
    case WriterGate =>
      if !s.latch.sawFlag {
        EnsureImageKeeps(s);
      }
    case WriterApply => AppendNote(s.log, Write);
    case OtherPage => AppendNote(s.log, Elsewhere);
    case _ =>
  }

  /** The state after a sequence of steps, each enabled when taken. */
  ghost predicate Reaches(s: State, steps: seq<Step>, rules: Rules, t: State)
    decreases |steps|
  {
    if steps == [] then s == t
    else Enabled(s, steps[0]) && Reaches(Next(s, steps[0], rules), steps[1..], rules, t)
  }

  lemma {:induction false} RunKeepsInv(s: State, steps: seq<Step>, t: State)
    requires Inv(s) && Reaches(s, steps, PROTOCOL, t)
    ensures Inv(t)
    decreases |steps|
  {
    if steps == [] {
    } else {
      StepKeepsInv(s, steps[0]);
      RunKeepsInv(Next(s, steps[0], PROTOCOL), steps[1..], t);
    }
  }

  /** The flag replay gives the page: images are restored unconditionally. */
  function ReplayedFlag(log: seq<Note>): bool
  {
    if log == [] then false
    else
      match log[|log| - 1]
      case Image(f) => f
      case Prepare => true
      case Commit => false
      case _ => ReplayedFlag(log[..|log| - 1])
  }

  lemma {:induction false} ReplayedFlagIsOpen(log: seq<Note>)
    requires ImagesTrue(log)
    ensures ReplayedFlag(log) == Open(log)
  {
    if log == [] {
    } else {
      var n := |log| - 1;
      assert ImageTrueAt(log, n);
      forall i | 0 <= i < n ensures ImageTrueAt(log[..n], i) {
        assert ImageTrueAt(log, i) && log[..n][..i] == log[..i];
      }
      ReplayedFlagIsOpen(log[..n]);
    }
  }

  /** Image-before-Commit, over every interleaving: no image of the flagged
      page comes after its split's Commit, and wherever the log is cut by a
      crash, replay flags the page exactly when its last split is unfinished
      there. */
  lemma ImageBeforeCommit(s: State, steps: seq<Step>, t: State, cut: nat)
    requires Init(s) && Reaches(s, steps, PROTOCOL, t) && cut <= |t.log|
    ensures forall i :: 0 <= i < |t.log| && t.log[i] == Image(true) ==> Open(t.log[..i])
    ensures ReplayedFlag(t.log[..cut]) == Open(t.log[..cut])
  {
    RunKeepsInv(s, steps, t);
    forall i | 0 <= i < |t.log| && t.log[i] == Image(true) ensures Open(t.log[..i]) {
      assert ImageTrueAt(t.log, i);
    }
    forall i | 0 <= i < cut ensures ImageTrueAt(t.log[..cut], i) {
      assert ImageTrueAt(t.log, i) && t.log[..cut][..i] == t.log[..i];
    }
    ReplayedFlagIsOpen(t.log[..cut]);
  }

  const FRESH := State([], Idle, Free, false, 0, false, 0)

  lemma {:induction false} ReachesOne(s: State, step: Step, rest: seq<Step>, rules: Rules, t: State)
    requires Enabled(s, step) && Reaches(Next(s, step, rules), rest, rules, t)
    ensures Reaches(s, [step] + rest, rules, t)
  {
    assert ([step] + rest)[1..] == rest;
  }

  /** Both rules are needed: drop either and a checkpoint published between the
      Commit and the clearing of the flag lets a flagged image in after the
      Commit, which replay then believes. */
  lemma BothRulesNeeded(rules: Rules) returns (steps: seq<Step>, t: State)
    requires rules != PROTOCOL
    ensures Init(FRESH) && Reaches(FRESH, steps, rules, t)
    ensures exists i :: 0 <= i < |t.log| && t.log[i] == Image(true) && !Open(t.log[..i])
    ensures ReplayedFlag(t.log) && !Open(t.log)
  {
    var s1 := Next(FRESH, Flush, rules);
    var s2 := Next(s1, SplitPrepare, rules);
    var s3 := Next(s2, PreTouch, rules);
    var s4 := Next(s3, AppendCommit, rules);
    var s5 := Next(s4, Checkpoint(2), rules);
    assert s5.log == [Prepare, Commit];
    var rest: seq<Step>;
    if !rules.skipFlagged {
      var s6 := Next(s5, WriterLatch, rules);
      t := Next(s6, WriterGate, rules);
      ReachesOne(s6, WriterGate, [], rules, t);
      ReachesOne(s5, WriterLatch, [WriterGate], rules, t);
      rest := [WriterLatch] + [WriterGate];
    } else {
      t := Next(s5, ApplyCommit, rules);
      ReachesOne(s5, ApplyCommit, [], rules, t);
      rest := [ApplyCommit] + [];
    }
    assert t.log == [Prepare, Commit, Image(true)];
    assert t.log[..2] == [Prepare, Commit];
    assert t.log[2] == Image(true) && !Open(t.log[..2]);
    ReachesOne(s4, Checkpoint(2), rest, rules, t);
    ReachesOne(s3, AppendCommit, [Checkpoint(2)] + rest, rules, t);
    ReachesOne(s2, PreTouch, [AppendCommit] + ([Checkpoint(2)] + rest), rules, t);
    ReachesOne(s1, SplitPrepare, [PreTouch] + ([AppendCommit] + ([Checkpoint(2)] + rest)), rules, t);
    steps := [Flush] + ([SplitPrepare] + ([PreTouch] + ([AppendCommit] + ([Checkpoint(2)] + rest))));
    ReachesOne(FRESH, Flush, [SplitPrepare] + ([PreTouch] + ([AppendCommit] + ([Checkpoint(2)] + rest))), rules, t);
  }
}

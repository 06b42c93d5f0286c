/** The whole life of the B+Tree's data file: online work, page flushes, WAL
    syncs, crashes at any moment (recovery included) and replay.

    `hist` is an auxiliary variable: `hist[k]` is the data file as the online
    run left it after `k` records. */
module BtreeDurability {
  import opened Outcome
  import opened BtreePages
  import opened BtreeLog
  import opened BtreeReplay

  /** `next` is the record replay applies next; `next == |log|` is the online
      phase. `synced` counts the records known to be durable. */
  datatype Db = Db(
    log: seq<Record>, hist: seq<Pages>, synced: nat, disk: Pages, mem: Pages, next: nat)

  datatype Step =
    | Write(record: Record)
    | FlushPage(page: PageId)
    | SyncWal(upTo: nat)
    | Crash(kept: nat, redoPoint: nat)
    | ReplayOne

  /** `flush_frame`: the WAL is synced up to the page's LSN before the page is
      written. */
  function Flushed(s: Db, p: PageId): Db
    requires p < |s.mem| == |s.disk|
  {
    s.(disk := s.disk[p := s.mem[p]],
       synced := if s.mem[p].lsn > s.synced then s.mem[p].lsn else s.synced)
  }

  /** A Copy flushes the right page before the left page's latch is released,
      online (`split_copy_on_guards`) and in redo alike. */
  function AfterCopyFlush(s: Db, r: Record): Db
    requires r.Copy? ==> r.right < |s.mem| == |s.disk|
  {
    if r.Copy? then Flushed(s, r.right) else s
  }

  /** Redo of a Copy flushes only where it starts from the anchored left page;
      the branches for a left page that is elsewhere return early. */
  predicate FlushesInRedo(mem: Pages, r: Record)
  {
    r.Copy? && r.left < |mem| && mem[r.left].lsn == r.preLsn
  }

  ghost predicate Next(s: Db, step: Step, s': Db)
  {
    match step
    case Write(r) =>
      // A page allocated as a right twin has no image in the log.
      var n := |s.log| + 1;
      && s.next == |s.log| && RightPagesNotImaged(s.log + [r])
      && Describes(s.mem, r, n) && Online(s.mem, r, n).Ok?
      && var mem := Online(s.mem, r, n).value;
         var s1 := s.(log := s.log + [r], hist := s.hist + [mem], mem := mem, next := n);
         (r.Copy? ==> r.right < |mem| == |s.disk|) && s' == AfterCopyFlush(s1, r)
    case FlushPage(p) => p < |s.mem| == |s.disk| && s' == Flushed(s, p)
    case SyncWal(n) => s.synced <= n <= |s.log| && s' == s.(synced := n)
    case Crash(kept, c) =>
      // The log keeps at least what was synced; memory is lost; replay starts
      // at a point whose effects are all on disk.
      && s.synced <= kept <= |s.log| < |s.hist| && c <= kept
      && |s.hist[c]| == |s.disk| && CaughtUp(s.hist, s.disk, c)
      && s' == s.(log := s.log[..kept], hist := s.hist[..kept + 1], mem := s.disk, next := c)
    case ReplayOne =>
      && s.next < |s.log| && Redo(s.mem, s.log[s.next], s.next + 1).Ok?
      && var s1 := s.(mem := Redo(s.mem, s.log[s.next], s.next + 1).value, next := s.next + 1);
         (s.log[s.next].Copy? ==> s.log[s.next].right < |s1.mem| == |s.disk|)
         && s' == if FlushesInRedo(s.mem, s.log[s.next]) then AfterCopyFlush(s1, s.log[s.next]) else s1
  }

  /** For the Copy at position `j`: a left page past it, in memory or on disk,
      has its right page on disk past it, and memory does not fall behind. */
  ghost predicate CopyOrderAt(r: Record, j: nat, mem: Pages, disk: Pages)
  {
    r.Copy? && |mem| == |disk| && r.left < |mem| && r.right < |mem| ==>
      && (mem[r.left].lsn > j || disk[r.left].lsn > j ==> disk[r.right].lsn > j)
      && (disk[r.right].lsn > j ==> mem[r.right].lsn > j)
  }

  ghost predicate CopyOrder(log: seq<Record>, mem: Pages, disk: Pages)
  {
    forall j :: 0 <= j < |log| ==> CopyOrderAt(log[j], j, mem, disk)
  }

  ghost predicate Inv(s: Db)
  {
    && IsHistory(s.hist, s.log)
    && OnHistory(s.hist, s.disk) && OnHistory(s.hist, s.mem)
    && s.next <= |s.log| && |s.hist[s.next]| == |s.mem| && CaughtUp(s.hist, s.mem, s.next)
    && s.synced <= |s.log| && (forall p :: 0 <= p < |s.disk| ==> s.disk[p].lsn <= s.synced)
    && RightPagesNotImaged(s.log)
    && CopyOrder(s.log, s.mem, s.disk)
  }

  ghost predicate Init(s: Db)
  {
    && s.log == [] && s.hist == [s.mem] && s.disk == s.mem && s.next == 0 && s.synced == 0
    && forall p :: 0 <= p < |s.mem| ==> s.mem[p].lsn == 0
  }

  lemma InitHolds(s: Db)
    requires Init(s)
    ensures Inv(s)
  {}

  /** Caught up with the whole log, the pages are the online pages. */
  lemma CaughtUpIsFinal(h: seq<Pages>, log: seq<Record>, k: nat, s: Pages, p: PageId)
    requires IsHistory(h, log) && k <= |log| && OnHistory(h, s) && p < |s|
    requires |h[k]| == |s| && CaughtUp(h, s, k) && s[p].lsn <= k
    ensures s[p] == h[k][p]
  {
    HistoryPage(h, log, k, p);
    HistoryPage(h, log, s[p].lsn, p);
    LsnMonotone(h, log, s[p].lsn, k, p);
  }

  lemma RecoveredExactly(s: Db)
    requires Inv(s) && s.next == |s.log|
    ensures s.mem == s.hist[|s.log|]
  {
    hide HistoryStep;
    forall p | 0 <= p < |s.mem| ensures s.mem[p] == s.hist[|s.log|][p] {
      CaughtUpIsFinal(s.hist, s.log, |s.log|, s.mem, p);
    }
  }

  /** Where memory is relative to record `next`: each page is the page that
      record was written for, or past it. */
  lemma MemAtOrPast(s: Db)
    requires Inv(s) && s.next < |s.log|
    ensures AtOrPast(s.hist[s.next], s.next + 1, s.mem)
  {
    hide HistoryStep;
    HistoryLsns(s.hist, s.log, s.next);
    forall p | 0 <= p < |s.mem| && s.mem[p].lsn <= s.next ensures s.mem[p] == s.hist[s.next][p] {
      CaughtUpIsFinal(s.hist, s.log, s.next, s.mem, p);
    }
  }

  /** Replay never fails, whatever was flushed and whenever it crashed. */
  lemma ReplayNeverFails(s: Db)
    requires Inv(s) && s.next < |s.log|
    ensures Redo(s.mem, s.log[s.next], s.next + 1).Ok?
  {
    hide Redo;
    hide Online;
    MemAtOrPast(s);
    var r := s.log[s.next];
    assert HistoryStep(s.hist, s.log, s.next);
    RedoIsExact(s.hist[s.next], r, s.next + 1, s.hist[s.next + 1], s.mem);
  }

  lemma FlushKeepsOrder(log: seq<Record>, mem: Pages, disk: Pages, p: PageId)
    requires CopyOrder(log, mem, disk) && |mem| == |disk| && p < |mem|
    ensures CopyOrder(log, mem, disk[p := mem[p]])
  {
    forall j | 0 <= j < |log| ensures CopyOrderAt(log[j], j, mem, disk[p := mem[p]]) {
      assert CopyOrderAt(log[j], j, mem, disk);
    }
  }

  lemma FlushKeepsInv(s: Db, p: PageId)
    requires Inv(s) && p < |s.mem|
    ensures Inv(Flushed(s, p))
  {
    FlushKeepsOrder(s.log, s.mem, s.disk, p);
    assert PageOnHistory(s.hist, p, s.mem[p]);
    hide HistoryStep;
    hide CopyOrder;
  }

  lemma CrashKeepsInv(s: Db, kept: nat, c: nat, s': Db)
    requires Inv(s) && Next(s, Crash(kept, c), s')
    ensures Inv(s')
  {
    hide Redo;
    hide Appended;
    HistoryLsns(s.hist, s.log, c);
    forall i | 0 <= i < kept ensures HistoryStep(s'.hist, s'.log, i) {
      assert HistoryStep(s.hist, s.log, i);
    }
    forall j | 0 <= j < |s'.log| ensures CopyOrderAt(s'.log[j], j, s'.mem, s'.disk) {
      assert CopyOrderAt(s.log[j], j, s.mem, s.disk);
    }
  }

  /** A record appended to a caught-up state extends the history. */
  lemma AppendKeepsHistory(s: Db, r: Record, mem: Pages)
    requires Inv(s) && s.next == |s.log| && Appended(s.mem, r, |s.log| + 1, mem)
    ensures IsHistory(s.hist + [mem], s.log + [r])
    ensures |mem| == |s.mem|
    ensures forall p :: 0 <= p < |mem| ==>
              if p in Touched(r) then mem[p].lsn == |s.log| + 1 else mem[p] == s.mem[p]
  {
    RecoveredExactly(s);
    HistoryLsns(s.hist, s.log, |s.log|);
    OnlineFrame(s.mem, r, |s.log| + 1, mem);
    hide HistoryStep;
    forall i | 0 <= i <= |s.log| ensures HistoryStep(s.hist + [mem], s.log + [r], i) {
      assert i < |s.log| ==> HistoryStep(s.hist, s.log, i);
    }
  }

  /** Moving touched pages forward keeps the order of every Copy, once the
      right page of a Copy just applied is on disk. */
  lemma MoveKeepsOrder(log: seq<Record>, r: Record, k: nat, mem: Pages, disk: Pages, mem': Pages, disk': Pages)
    requires k < |log| && log[k] == r && |mem| == |mem'| == |disk| == |disk'|
    requires forall j :: 0 <= j < |log| && j != k ==> CopyOrderAt(log[j], j, mem, disk)
    requires RightPagesNotImaged(log)
    requires forall p :: 0 <= p < |mem| ==>
               || mem'[p] == mem[p]
               || (p in Touched(r) && mem'[p].lsn == k + 1 && (r.Image? || mem[p].lsn <= k))
    requires forall p :: 0 <= p < |mem| ==> disk'[p] == if r.Copy? && p == r.right then mem'[p] else disk[p]
    requires r.Copy? && r.right < |mem| ==> mem'[r.right].lsn > k
    requires forall j :: 0 <= j < k && log[j].Copy? && log[j].left < |mem| && log[j].right < |mem| ==>
               mem[log[j].left].lsn > j
    ensures CopyOrder(log, mem', disk')
  {
    forall j | 0 <= j < |log| ensures CopyOrderAt(log[j], j, mem', disk') {
      assert j != k ==> CopyOrderAt(log[j], j, mem, disk);
    }
  }

  lemma WriteKeepsInv(s: Db, r: Record, s': Db)
    requires Inv(s) && Next(s, Write(r), s')
    ensures Inv(s')
  {
    var n := |s.log|;
    assert Appended(s.mem, r, n + 1, s'.mem);
    hide Online;
    hide Redo;
    AppendKeepsHistory(s, r, s'.mem);
    FinalPages(s'.hist, s'.log);
    hide HistoryStep;
    assert OnHistory(s'.hist, s.disk) by {
      forall p | 0 <= p < |s.disk| ensures PageOnHistory(s'.hist, p, s.disk[p]) {
        assert PageOnHistory(s.hist, p, s.disk[p]);
      }
    }
    assert CopyOrder(s'.log, s'.mem, s'.disk) by {
      CopiesReached(s, n);
      MoveKeepsOrder(s'.log, r, n, s.mem, s.disk, s'.mem, s'.disk);
    }
    hide CopyOrder;
    hide RightPagesNotImaged;
  }

  /** The left page of every Copy before `next` is past it. */
  lemma CopiesReached(s: Db, k: nat)
    requires Inv(s) && k == s.next
    ensures forall j :: 0 <= j < k && s.log[j].Copy? && s.log[j].left < |s.mem| ==>
              s.mem[s.log[j].left].lsn > j
  {
    forall j | 0 <= j < k && s.log[j].Copy? && s.log[j].left < |s.mem|
      ensures s.mem[s.log[j].left].lsn > j
    {
      TouchedStays(s.hist, s.log, j, k, s.log[j].left);
    }
  }

  /** What replaying one record does to memory. */
  lemma ReplayMoves(s: Db, mem: Pages)
    requires Inv(s) && s.next < |s.log| && Redo(s.mem, s.log[s.next], s.next + 1) == Ok(mem)
    ensures |mem| == |s.mem| && OnHistory(s.hist, mem)
    ensures |s.hist[s.next + 1]| == |mem| && CaughtUp(s.hist, mem, s.next + 1)
    ensures forall p :: 0 <= p < |mem| ==>
              || (mem[p] == s.mem[p] && (p in Touched(s.log[s.next]) ==> mem[p].lsn > s.next))
              || (p in Touched(s.log[s.next]) && mem[p].lsn == s.next + 1
                  && (s.log[s.next].Image? || s.mem[p].lsn <= s.next))
  {
    var r, lsn := s.log[s.next], s.next + 1;
    MemAtOrPast(s);
    assert HistoryStep(s.hist, s.log, s.next);
    hide Redo;
    RedoIsExact(s.hist[s.next], r, lsn, s.hist[lsn], s.mem);
    OnlineFrame(s.hist[s.next], r, lsn, s.hist[lsn]);
    hide HistoryStep;
    hide Appended;
    forall p | 0 <= p < |mem| ensures PageOnHistory(s.hist, p, mem[p]) {
      assert PageOnHistory(s.hist, p, s.mem[p]);
    }
  }

  /** Off the anchor, redo of a Copy has nothing left to do. */
  lemma OffAnchorDone(s: Db, mem: Pages)
    requires Inv(s) && s.next < |s.log| && Redo(s.mem, s.log[s.next], s.next + 1) == Ok(mem)
    requires s.log[s.next].Copy? && !FlushesInRedo(s.mem, s.log[s.next])
    ensures mem == s.mem
  {
    MemAtOrPast(s);
    assert HistoryStep(s.hist, s.log, s.next);
    hide Online;
  }

  lemma ReplayKeepsInv(s: Db, s': Db)
    requires Inv(s) && Next(s, ReplayOne, s')
    ensures Inv(s')
  {
    hide Redo;
    ReplayMoves(s, s'.mem);
    hide HistoryStep;
    assert CopyOrder(s'.log, s'.mem, s'.disk) by {
      if s.log[s.next].Copy? && !FlushesInRedo(s.mem, s.log[s.next]) {
        OffAnchorDone(s, s'.mem);
      } else {
        CopiesReached(s, s.next);
        MoveKeepsOrder(s.log, s.log[s.next], s.next, s.mem, s.disk, s'.mem, s'.disk);
      }
    }
    hide CopyOrder;
    hide RightPagesNotImaged;
  }

  lemma StepKeepsInv(s: Db, step: Step, s': Db)
    requires Inv(s) && Next(s, step, s')
    ensures Inv(s')
  {
    match step
    case Write(r) => WriteKeepsInv(s, r, s');
    case FlushPage(p) => FlushKeepsInv(s, p);
    case SyncWal(n) =>
    case Crash(kept, c) => CrashKeepsInv(s, kept, c, s');
    case ReplayOne => ReplayKeepsInv(s, s');
  }

  ghost predicate IsRun(run: seq<Db>, steps: seq<Step>)
  {
    && |run| == |steps| + 1 && Init(run[0])
    && forall i :: 0 <= i < |steps| ==> RunStep(run, steps, i)
  }

  ghost predicate RunStep(run: seq<Db>, steps: seq<Step>, i: nat)
    requires i < |steps| && |run| == |steps| + 1
  {
    Next(run[i], steps[i], run[i + 1])
  }

  lemma {:induction false} RunKeepsInv(run: seq<Db>, steps: seq<Step>, k: nat)
    requires IsRun(run, steps) && k <= |steps|
    ensures Inv(run[k])
  {
    if k == 0 {
      InitHolds(run[0]);
    } else {
      RunKeepsInv(run, steps, k - 1);
      assert RunStep(run, steps, k - 1);
      StepKeepsInv(run[k - 1], steps[k - 1], run[k]);
    }
  }

  /** Over every run with any number of crashes, some of them during recovery:
      replay never fails, and whenever recovery is complete the pages are
      exactly those of the online run up to the end of the surviving log. */
  lemma CrashRecovery(run: seq<Db>, steps: seq<Step>, k: nat)
    requires IsRun(run, steps) && k <= |steps|
    ensures run[k].next < |run[k].log| ==>
              Redo(run[k].mem, run[k].log[run[k].next], run[k].next + 1).Ok?
    ensures run[k].next == |run[k].log| ==>
              |run[k].hist| == |run[k].log| + 1 && run[k].mem == run[k].hist[|run[k].log|]
    ensures IsHistory(run[k].hist, run[k].log)
  {
    hide Redo;
    RunKeepsInv(run, steps, k);
    if run[k].next < |run[k].log| {
      ReplayNeverFails(run[k]);
    } else {
      RecoveredExactly(run[k]);
    }
  }
}

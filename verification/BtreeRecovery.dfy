/** Recovery as a whole (crates/pg-storage/src/recovery.rs): redo from the
    checkpoint, then the undo pass. */
module BtreeRecovery {
  import opened Keys
  import opened Outcome
  import opened BtreePages
  import opened BtreeLog
  import opened BtreeReplay
  import opened BtreeDurability
  import opened BtreeChain
  import opened BtreeContent
  import opened BtreeRuns
  import opened BtreeClr
  import opened BtreeCascade
  import opened BtreeRound
  import opened BtreeEvents
  import opened BtreePending
  import opened BtreeUndo
  import opened BtreeRooted
  import opened BtreeAssured
  import opened BtreeRedo
  import opened BtreeReady

  /** The run of an index: online steps only, each as the code writes it, over a
      file that was ready to begin with. */
  ghost predicate IndexRun(h: seq<Pages>, first: seq<PageId>, log: seq<Record>)
  {
    && IsHistory(h, log) && TreeInv(h[0], first) && OnlineReady(h[0], first)
    && DisciplinedRun(h, first, log) && OrderlyRun(h, log)
  }

  // ---- The log a crash leaves ----

  lemma {:induction false} PrefixChain(first: seq<PageId>, log: seq<Record>, k: nat, i: nat)
    requires i <= k <= |log|
    ensures ChainAfter(first, log[..k], i) == ChainAfter(first, log, i)
  {
    hide NextChain;
    if i == 0 {
    } else {
      PrefixChain(first, log, k, i - 1);
    }
  }

  lemma {:induction false} PrefixLive(h: seq<Pages>, first: seq<PageId>, log: seq<Record>, k: nat, i: nat)
    requires |h| == |log| + 1 && i <= k <= |log|
    ensures LiveAfter(h[..k + 1], first, log[..k], i) == LiveAfter(h, first, log, i)
  {
    if i == 0 {
    } else {
      PrefixLive(h, first, log, k, i - 1);
      PrefixChain(first, log, k, i - 1);
    }
  }

  /** What survives of the log is the log of a run. */
  lemma PrefixRun(h: seq<Pages>, first: seq<PageId>, log: seq<Record>, k: nat)
    requires IndexRun(h, first, log) && k <= |log|
    ensures IndexRun(h[..k + 1], first, log[..k])
    ensures ChainAfter(first, log[..k], k) == ChainAfter(first, log, k)
    ensures LiveAfter(h[..k + 1], first, log[..k], k) == LiveAfter(h, first, log, k)
    ensures RightPagesNotImaged(log) ==> RightPagesNotImaged(log[..k])
  {
    var h', log' := h[..k + 1], log[..k];
    hide OnlineReady;
    hide Disciplined;
    hide Orderly;
    hide Appended;
    hide TreeInv;
    forall i | 0 <= i < k
      ensures HistoryStep(h', log', i) && DisciplinedAt(h', first, log', i) && Orderly(h'[i], log'[i])
    {
      PrefixChain(first, log, k, i);
      assert HistoryStep(h, log, i) && DisciplinedAt(h, first, log, i) && Orderly(h[i], log[i]);
    }
    PrefixChain(first, log, k, k);
    PrefixLive(h, first, log, k, k);
  }

  // ---- Redo and undo ----

  /** What replay leaves in memory is a file the undo pass can work on, with the
      tracker it needs. */
  lemma ReplayedReady(h: seq<Pages>, first: seq<PageId>, log: seq<Record>, c: nat)
    requires IndexRun(h, first, log) && c <= |log|
    ensures Sane(h[|log|], |log|) && Ready(h[|log|], ChainAfter(first, log, |log|))
    ensures forall p :: p in Track(log, c, |log|) ==> Flagged(h[|log|], p)
    ensures Elements(Contents(h[|log|], ChainAfter(first, log, |log|))) == LiveAfter(h, first, log, |log|)
    ensures Hinted(h[|log|], ChainAfter(first, log, |log|))
  {
    EveryPrefixReady(h, first, log, |log|);
    ContentsRefine(h, first, log, |log|);
    OrderlyKeepsFlags(h, log);
    TrackerExact(h, log, c, |log|);
    hide IndexRun;
    hide SpineInv;
    hide Contents;
    hide OrderlyRun;
    forall p | p in Track(log, c, |log|) ensures Flagged(h[|log|], p) {
      TrackedInFile(h, log, c, |log|, p);
      assert SplitSince(h, c, |log|, p);
      assert FlaggedAt(h, |log|, p);
    }
  }

  lemma {:induction false} TrackedInFile(h: seq<Pages>, log: seq<Record>, c: nat, k: nat, p: PageId)
    requires IsHistory(h, log) && c <= k <= |log| && p in Track(log, c, k)
    ensures p < |h[k]|
  {
    if k == c {
    } else {
      assert HistoryStep(h, log, k - 1);
      HistoryLsns(h, log, k);
      HistoryLsns(h, log, k - 1);
      if p in Track(log, c, k - 1) {
        TrackedInFile(h, log, c, k - 1, p);
      }
    }
  }

  /** Recovery from any crash image the flush order of the splits allows: redo
      never refuses, and when the undo pass succeeds no split is pending and the
      leaf chain holds exactly what the surviving log inserted and did not
      delete. */
  method Recover(disk: Pages, log: seq<Record>, c: nat, ghost h: seq<Pages>, ghost first: seq<PageId>)
    returns (r: Result<Pages>, ghost chain: seq<PageId>, ghost order: seq<PageId>, ghost trace: seq<Pages>,
             ghost hist: seq<Pages>, ghost events: seq<Event>)
    requires IndexRun(h, first, log) && c <= |log| && CrashImage(h, log, disk, c)
    requires RightPagesNotImaged(log) && RightBeforeLeft(log, disk)
    ensures r.Ok? ==> forall p :: 0 <= p < |r.value| ==> !r.value[p].flags.splitIncomplete
    ensures r.Ok? ==> SpineInv(r.value, chain) && Elements(Contents(r.value, chain)) == LiveAfter(h, first, log, |log|)
    ensures r.Ok? && NoneNamed(h[|log|], ChainAfter(first, log, |log|)) ==> TreeInv(r.value, chain)
    ensures (forall p: PageId :: !Flagged(h[|log|], p)) ==> r == Ok(h[|log|])
    ensures Undone(h[|log|], Track(log, c, |log|), order, trace, r.Ok?) && (r.Ok? ==> trace[|order|] == r.value)
    ensures Assured(h[|log|], Track(log, c, |log|)) ==> r.Ok? && EntriesKept(h[|log|], r.value)
    ensures UndoRun(|log|, hist, events) && hist[0] == h[|log|] && (r.Ok? ==> hist[|events|] == r.value)
  {
    hide UndoRun;
    hide SpineInv;
    hide Contents;
    hide Hinted;
    hide NoneNamed;
    hide Sound;
    hide Scheduled;
    hide AllClean;
    hide AllFinishable;
    hide RoundsHold;
    hide RoundsTaken;
    hide Assured;
    hide EntriesKept;
    FlushOrderIsSafe(log, disk, c);
    ReplayedReady(h, first, log, c);
    hide IndexRun;
    hide DisciplinedRun;
    var redo := new RedoPass(disk);
    var replayed := redo.ReplayWal(log, c, h);
    var u := new UndoPass(redo.pages, |log|);
    var done;
    done, chain, order, trace := Undo(u, redo.tracker, ChainAfter(first, log, |log|));
    hist, events := u.hist, u.events;
    assert order != [] ==> order[0] in order;
    if Assured(h[|log|], Track(log, c, |log|)) {
      AssuredPass(h[|log|], Track(log, c, |log|), order, trace, done.Ok?);
    }
    if done.Err? {
      return Err(done.error), chain, order, trace, hist, events;
    }
    return Ok(u.pages), chain, order, trace, hist, events;
  }
}

/** Redo convergence (crates/pg-am-btree/src/redo.rs).

    A crash leaves every page on disk as it was after some prefix of the log,
    a different prefix for each page. Replaying the log over such an image
    ends in exactly the online pages if and only if, at every Copy record, the
    left page is past the copy only where the right page is. */
module BtreeReplay {
  import opened Keys
  import opened Outcome
  import opened BtreePages
  import opened BtreeLog

  /** `replay_wal` from position `j` on. */
  function Replay(mem: Pages, log: seq<Record>, j: nat): Result<Pages>
    requires j <= |log|
    decreases |log| - j
  {
    if j == |log| then Ok(mem)
    else
      var mem1 :- Redo(mem, log[j], j + 1);
      Replay(mem1, log, j + 1)
  }

  /** A page with LSN `n` is the page as it was after `n` records. */
  ghost predicate PageOnHistory(h: seq<Pages>, p: PageId, page: Page)
  {
    page.lsn < |h| && p < |h[page.lsn]| && page == h[page.lsn][p]
  }

  ghost predicate OnHistory(h: seq<Pages>, s: Pages)
    requires |h| > 0
  {
    && |s| == |h[0]|
    && forall p :: 0 <= p < |s| ==> PageOnHistory(h, p, s[p])
  }

  /** Pages that are on the history or were written after its end. */
  ghost predicate OnOrPast(h: seq<Pages>, s: Pages)
    requires |h| > 0
  {
    && |s| == |h[0]|
    && forall p :: 0 <= p < |s| ==> PageOnHistory(h, p, s[p]) || s[p].lsn >= |h|
  }

  /** Every effect of the first `c` records has reached `s`. */
  ghost predicate CaughtUp(h: seq<Pages>, s: Pages, c: nat)
    requires c < |h| && |h[c]| == |s|
  {
    forall p :: 0 <= p < |s| ==> h[c][p].lsn <= s[p].lsn
  }

  lemma {:induction false} HistoryPage(h: seq<Pages>, log: seq<Record>, k: nat, p: PageId)
    requires IsHistory(h, log) && k <= |log| && p < |h[0]|
    ensures |h[k]| == |h[0]|
    ensures h[k][p].lsn <= k
    ensures forall j :: h[k][p].lsn <= j <= k ==> p < |h[j]| && h[j][p] == h[k][p]
    ensures k > 0 && p in Touched(log[k - 1]) ==> h[k][p].lsn == k
  {
    hide Online;
    if k == 0 {
    } else {
      HistoryLsns(h, log, k - 1);
      assert HistoryStep(h, log, k - 1);
      OnlineFrame(h[k - 1], log[k - 1], k, h[k]);
      HistoryPage(h, log, k - 1, p);
    }
  }

  lemma {:induction false} HistoryLsns(h: seq<Pages>, log: seq<Record>, k: nat)
    requires IsHistory(h, log) && k <= |log|
    ensures |h[k]| == |h[0]|
    ensures forall p :: 0 <= p < |h[k]| ==> h[k][p].lsn <= k
  {
    if k == 0 {
    } else {
      HistoryLsns(h, log, k - 1);
      assert HistoryStep(h, log, k - 1);
      OnlineFrame(h[k - 1], log[k - 1], k, h[k]);
    }
  }

  /** A page image of `p` is among the records `log[c..j]`. */
  ghost predicate Imaged(log: seq<Record>, c: nat, j: nat, p: PageId)
    requires c <= j <= |log|
  {
    exists i :: c <= i < j && log[i].Image? && log[i].page == p
  }

  /** Replay from `c` has not reached, at position `j`, the version of `p`
      that was already on disk, and has not thrown it away either. */
  ghost predicate Ahead(log: seq<Record>, disk: Pages, c: nat, j: nat, p: PageId)
    requires c <= j <= |log| && p < |disk|
  {
    disk[p].lsn > j && !Imaged(log, c, j, p)
  }

  /** The pages replay holds at position `j`, in closed form. */
  ghost predicate ReplayedTo(h: seq<Pages>, log: seq<Record>, disk: Pages, c: nat, j: nat, mem: Pages)
    requires c <= j <= |log| && |h| == |log| + 1 && |h[j]| == |disk|
  {
    && |mem| == |disk|
    && forall p :: 0 <= p < |disk| ==> mem[p] == if Ahead(log, disk, c, j, p) then disk[p] else h[j][p]
  }

  /** At every Copy, a left page ahead of replay has its right page ahead too. */
  ghost predicate CopySafe(log: seq<Record>, disk: Pages, c: nat, from: nat)
    requires c <= from <= |log|
  {
    forall j :: from <= j < |log| ==> CopySafeAt(log, disk, c, j)
  }

  ghost predicate CopySafeAt(log: seq<Record>, disk: Pages, c: nat, j: nat)
    requires c <= j < |log|
  {
    log[j].Copy? && WithinFile(log[j], |disk|) && Ahead(log, disk, c, j, log[j].left) ==>
      Ahead(log, disk, c, j, log[j].right)
  }

  /** The left page a Copy rebuilds does not depend on the right page. */
  lemma CopyLeftAlone(left: Page, right: Page, right': Page, start: nat)
    requires ApplySplitCopy(left, right, start, true).Ok?
    ensures ApplySplitCopy(left, right', start, false).Ok?
    ensures ApplySplitCopy(left, right', start, false).value.0
            == ApplySplitCopy(left, right, start, true).value.0
  {}

  /** Each page is the one the record was written for, or already past it. */
  ghost predicate AtOrPast(s: Pages, lsn: Lsn, mem: Pages)
  {
    && |mem| == |s|
    && forall p :: 0 <= p < |s| ==> s[p].lsn < lsn && (mem[p] == s[p] || mem[p].lsn >= lsn)
  }

  /** Exactly the touched pages that were behind are brought up to date. */
  ghost predicate BroughtUp(r: Record, lsn: Lsn, s': Pages, mem: Pages, out: Pages)
  {
    && |out| == |mem| == |s'|
    && forall p :: 0 <= p < |mem| ==>
         out[p] == if p in Touched(r) && (r.Image? || mem[p].lsn < lsn) then s'[p] else mem[p]
  }

  lemma RedoPrepareIsExact(s: Pages, r: Record, lsn: Lsn, s': Pages, mem: Pages)
    requires r.Prepare? && Appended(s, r, lsn, s') && AtOrPast(s, lsn, mem)
    ensures Redo(mem, r, lsn).Ok? && BroughtUp(r, lsn, s', mem, Redo(mem, r, lsn).value)
  {
    var left := mem[r.left];
    if left.lsn < lsn {
      assert !IsFresh(left);
      assert RedoPrepareLeft(left, r.right, r.level, r.highKey, lsn) == Ok(s'[r.left]);
    }
  }

  lemma RedoCopyIsExact(s: Pages, r: Record, lsn: Lsn, s': Pages, mem: Pages)
    requires r.Copy? && Appended(s, r, lsn, s') && AtOrPast(s, lsn, mem)
    ensures Redo(mem, r, lsn).Ok? <==> !(mem[r.left].lsn >= lsn && mem[r.right].lsn < lsn)
    ensures Redo(mem, r, lsn).Ok? ==> BroughtUp(r, lsn, s', mem, Redo(mem, r, lsn).value)
  {
    CopyKeepsLsn(s[r.left], s[r.right], r.start);
    CopyLeftAlone(s[r.left], s[r.right], mem[r.right], r.start);
  }

  lemma RedoCommitIsExact(s: Pages, r: Record, lsn: Lsn, s': Pages, mem: Pages)
    requires r.Commit? && Appended(s, r, lsn, s') && AtOrPast(s, lsn, mem)
    ensures Redo(mem, r, lsn).Ok? && BroughtUp(r, lsn, s', mem, Redo(mem, r, lsn).value)
  {}

  /** One redo handler: it brings exactly the pages that are behind up to date,
      and fails only for a Copy whose left page alone is past it. An image is
      restored whatever the page holds. */
  lemma RedoIsExact(s: Pages, r: Record, lsn: Lsn, s': Pages, mem: Pages)
    requires Appended(s, r, lsn, s') && AtOrPast(s, lsn, mem)
    ensures Redo(mem, r, lsn).Ok? <==>
            !(r.Copy? && mem[r.left].lsn >= lsn && mem[r.right].lsn < lsn)
    ensures Redo(mem, r, lsn).Ok? ==> BroughtUp(r, lsn, s', mem, Redo(mem, r, lsn).value)
  {
    match r
    case Prepare(_, _, _, _, _) => RedoPrepareIsExact(s, r, lsn, s', mem);
    case Copy(_, _, _, _) => RedoCopyIsExact(s, r, lsn, s', mem);
    case Commit(_, _, _, _, _) => RedoCommitIsExact(s, r, lsn, s', mem);
    case _ =>
  }

  lemma RedoStep(h: seq<Pages>, log: seq<Record>, disk: Pages, c: nat, j: nat, mem: Pages,
                 out: Result<Pages>)
    requires IsHistory(h, log) && OnOrPast(h, disk) && c <= j < |log|
    requires |h[j]| == |h[j + 1]| == |disk| && ReplayedTo(h, log, disk, c, j, mem)
    requires out == Redo(mem, log[j], j + 1)
    ensures out.Ok? <==> CopySafeAt(log, disk, c, j)
    ensures out.Ok? ==> ReplayedTo(h, log, disk, c, j + 1, out.value)
  {
    hide Redo;
    hide Online;
    var r := log[j];
    assert HistoryStep(h, log, j);
    HistoryLsns(h, log, j);
    OnlineFrame(h[j], r, j + 1, h[j + 1]);
    RedoIsExact(h[j], r, j + 1, h[j + 1], mem);
    if out.Ok? {
      forall p | 0 <= p < |disk|
        ensures out.value[p] == if Ahead(log, disk, c, j + 1, p) then disk[p] else h[j + 1][p]
      {
        HistoryPage(h, log, j + 1, p);
        assert PageOnHistory(h, p, disk[p]) || disk[p].lsn >= |h|;
        ImagedNext(log, c, j, p);
      }
    }
  }

  lemma ImagedNext(log: seq<Record>, c: nat, j: nat, p: PageId)
    requires c <= j < |log|
    ensures Imaged(log, c, j + 1, p) <==> Imaged(log, c, j, p) || (log[j].Image? && log[j].page == p)
  {}

  lemma {:induction false} ReplayFrom(h: seq<Pages>, log: seq<Record>, disk: Pages, c: nat, j: nat, mem: Pages)
    requires IsHistory(h, log) && OnOrPast(h, disk) && c <= j <= |log|
    requires |h[j]| == |h[|log|]| == |disk| && ReplayedTo(h, log, disk, c, j, mem)
    ensures Replay(mem, log, j).Ok? <==> CopySafe(log, disk, c, j)
    ensures Replay(mem, log, j).Ok? ==> ReplayedTo(h, log, disk, c, |log|, Replay(mem, log, j).value)
    decreases |log| - j
  {
    hide Redo;
    hide Online;
    if j >= |log| {
    } else {
      HistoryLsns(h, log, j + 1);
      HistoryLsns(h, log, |log|);
      var out := Redo(mem, log[j], j + 1);
      RedoStep(h, log, disk, c, j, mem, out);
      if out.Ok? {
        ReplayFrom(h, log, disk, c, j + 1, out.value);
      }
    }
  }

  /** Replay of a log over pages some of which were written after its end: those
      stay, unless an image throws them back; the others end online. */
  lemma ReplayPast(h: seq<Pages>, log: seq<Record>, disk: Pages, c: nat)
    requires IsHistory(h, log) && OnOrPast(h, disk) && c <= |log|
    requires |h[c]| == |h[|log|]| == |disk| && CaughtUp(h, disk, c)
    ensures Replay(disk, log, c).Ok? <==> CopySafe(log, disk, c, c)
    ensures Replay(disk, log, c).Ok? ==> ReplayedTo(h, log, disk, c, |log|, Replay(disk, log, c).value)
  {
    forall p | 0 <= p < |disk|
      ensures disk[p] == if Ahead(log, disk, c, c, p) then disk[p] else h[c][p]
    {
      HistoryPage(h, log, c, p);
      if disk[p].lsn <= c {
        assert PageOnHistory(h, p, disk[p]);
        HistoryPage(h, log, disk[p].lsn, p);
      }
    }
    ReplayFrom(h, log, disk, c, c, disk);
  }

  /** Redo convergence: for every online run, every crash image and every redo
      point, replay ends in exactly the online pages, and it fails only where
      CopySafe, a condition on the image and the log, fails. */
  lemma ReplayConverges(h: seq<Pages>, log: seq<Record>, disk: Pages, c: nat)
    requires IsHistory(h, log) && OnHistory(h, disk) && c <= |log|
    requires |h[c]| == |disk| && CaughtUp(h, disk, c)
    ensures Replay(disk, log, c).Ok? <==> CopySafe(log, disk, c, c)
    ensures Replay(disk, log, c).Ok? ==> Replay(disk, log, c).value == h[|log|]
  {
    HistoryLsns(h, log, |log|);
    assert forall p :: 0 <= p < |disk| ==> PageOnHistory(h, p, disk[p]);
    hide IsHistory;
    ReplayPast(h, log, disk, c);
  }

  /** No page that a Copy fills had an image logged before it. */
  ghost predicate RightPagesNotImaged(log: seq<Record>)
  {
    forall i, j :: 0 <= i < j < |log| && log[j].Copy? && log[i].Image? ==> log[i].page != log[j].right
  }

  /** A left page on disk past a Copy has its right page on disk past it. */
  ghost predicate RightBeforeLeft(log: seq<Record>, disk: Pages)
  {
    forall j :: 0 <= j < |log| ==> RightBeforeLeftAt(log[j], j, disk)
  }

  ghost predicate RightBeforeLeftAt(r: Record, j: nat, disk: Pages)
  {
    r.Copy? && r.left < |disk| && r.right < |disk| ==>
      (disk[r.left].lsn > j ==> disk[r.right].lsn > j)
  }

  /** The flush order of the split is enough for CopySafe, as long as no right
      page was ever imaged in the replayed log. */
  lemma FlushOrderIsSafe(log: seq<Record>, disk: Pages, c: nat)
    requires c <= |log| && RightPagesNotImaged(log) && RightBeforeLeft(log, disk)
    ensures CopySafe(log, disk, c, c)
  {
    forall j | c <= j < |log| ensures CopySafeAt(log, disk, c, j) {
      assert RightBeforeLeftAt(log[j], j, disk);
    }
  }

  /** Replaying over the pages replay produced changes nothing. */
  lemma ReplayTwice(h: seq<Pages>, log: seq<Record>, disk: Pages, c: nat)
    requires IsHistory(h, log) && OnHistory(h, disk) && c <= |log|
    requires |h[c]| == |disk| && CaughtUp(h, disk, c)
    requires RightPagesNotImaged(log) && RightBeforeLeft(log, disk)
    ensures Replay(disk, log, c).Ok?
    ensures Replay(Replay(disk, log, c).value, log, c) == Replay(disk, log, c)
  {
    FlushOrderIsSafe(log, disk, c);
    ReplayConverges(h, log, disk, c);
    var end := h[|log|];
    FinalPages(h, log);
    forall j | 0 <= j < |log| ensures RightBeforeLeftAt(log[j], j, end) {
      if log[j].Copy? && log[j].right < |end| {
        TouchedStays(h, log, j, |log|, log[j].right);
      }
    }
    assert CaughtUp(h, end, c) by {
      forall p | 0 <= p < |end| ensures h[c][p].lsn <= end[p].lsn {
        LsnMonotone(h, log, c, |log|, p);
      }
    }
    FlushOrderIsSafe(log, end, c);
    ReplayConverges(h, log, end, c);
  }

  lemma FinalPages(h: seq<Pages>, log: seq<Record>)
    requires IsHistory(h, log)
    ensures OnHistory(h, h[|log|])
  {
    HistoryLsns(h, log, |log|);
    forall p | 0 <= p < |h[|log|]| ensures PageOnHistory(h, p, h[|log|][p]) {
      HistoryPage(h, log, |log|, p);
    }
  }

  lemma LsnMonotone(h: seq<Pages>, log: seq<Record>, i: nat, k: nat, p: PageId)
    requires IsHistory(h, log) && i <= k <= |log| && p < |h[0]|
    ensures p < |h[i]| && p < |h[k]| && h[i][p].lsn <= h[k][p].lsn
  {
    HistoryPage(h, log, i, p);
    HistoryPage(h, log, k, p);
  }

  lemma TouchedStays(h: seq<Pages>, log: seq<Record>, j: nat, k: nat, p: PageId)
    requires IsHistory(h, log) && j < k <= |log| && p < |h[0]| && p in Touched(log[j])
    ensures p < |h[k]| && h[k][p].lsn > j
  {
    HistoryPage(h, log, j + 1, p);
    LsnMonotone(h, log, j + 1, k, p);
  }

  // A two-entry leaf (page 1) is split onto page 2, which had been imaged for
  // a previous owner earlier in the log.
  const LOW := Entry([1], 7, 0)
  const HIGH := Entry([2], 7, 1)
  const LEAF := InitPage(0, Flags(true, true, false)).(entries := [LOW, HIGH], upper := PD_SPECIAL - 22)
  const TENANT := InitPage(0, Flags(true, false, false))
  const FLAGGED := LEAF.(lsn := 2, flags := Flags(true, true, true), next := 2)
  const TWIN := InitRightPage(1, INVALID, 0).(lsn := 2)
  const LEFT_HALF := FLAGGED.(lsn := 3, entries := [LOW], upper := PD_SPECIAL - 11)
  const RIGHT_HALF := TWIN.(lsn := 3, entries := [HIGH], upper := PD_SPECIAL - 11)

  const RECYCLE_LOG: seq<Record> :=
    [Image(2, TENANT), Prepare(1, 2, 0, INVALID, [2]), Copy(1, 2, 1, 2)]
  const RECYCLE_HISTORY: seq<Pages> :=
    [[ZERO_PAGE, LEAF, ZERO_PAGE],
     [ZERO_PAGE, LEAF, TENANT.(lsn := 1)],
     [ZERO_PAGE, FLAGGED, TWIN],
     [ZERO_PAGE, LEFT_HALF, RIGHT_HALF]]

  lemma RecycleIsHistory()
    ensures IsHistory(RECYCLE_HISTORY, RECYCLE_LOG)
  {
    var h := RECYCLE_HISTORY;
    assert HistoryStep(h, RECYCLE_LOG, 0) by {
      assert h[0][2 := Stamp(TENANT, 1)] == h[1];
    }
    assert HistoryStep(h, RECYCLE_LOG, 1) by {
      assert h[1][2 := TWIN][1 := FLAGGED] == h[2];
    }
    assert HistoryStep(h, RECYCLE_LOG, 2) by {
      RecycleCopy();
      assert h[2][1 := LEFT_HALF][2 := RIGHT_HALF] == h[3];
    }
  }

  lemma RecycleCopy()
    ensures ApplySplitCopy(FLAGGED, TWIN, 1, true)
            == Ok((LEFT_HALF.(lsn := 2), RIGHT_HALF.(lsn := 2)))
  {
    assert FLAGGED.entries[1..] == [HIGH] && FLAGGED.entries[..1] == [LOW];
    AppendAllExact(TWIN, [HIGH]);
    AppendAllExact(InitPage(0, FLAGGED.flags), [LOW]);
    assert TWIN.entries + [HIGH] == [HIGH] && InitPage(0, FLAGGED.flags).entries + [LOW] == [LOW];
  }

  /** A page image is replayed whatever the page holds, so CopySafe is not an
      accident of the statement: a page that was imaged, freed and then handed
      out as a right twin is thrown back by replay. Both halves of the split
      are on disk here, and recovery still refuses. */
  lemma RecycledRightPageRefused() returns (h: seq<Pages>, log: seq<Record>, disk: Pages)
    ensures IsHistory(h, log) && OnHistory(h, disk) && |h[0]| == |disk| && CaughtUp(h, disk, 0)
    ensures RightBeforeLeft(log, disk) && Replay(disk, log, 0).Err?
  {
    h, log := RECYCLE_HISTORY, RECYCLE_LOG;
    disk := h[3];
    RecycleIsHistory();
    FinalPages(h, log);
    assert Imaged(log, 0, 2, 2) by { assert log[0].Image? && log[0].page == 2; }
    assert Ahead(log, disk, 0, 2, 1);
    assert !CopySafeAt(log, disk, 0, 2);
    ReplayConverges(h, log, disk, 0);
  }
}

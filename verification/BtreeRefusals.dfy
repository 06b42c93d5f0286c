/** Splits the undo pass cannot finish, and promotions it publishes on the wrong
    page (crates/pg-am-btree/src/undo.rs, crates/pg-am-btree/src/index.rs). */
module BtreeRefusals {
  import opened Keys
  import opened Outcome
  import opened Sequences
  import opened BtreePages
  import opened BtreeLog
  import opened BtreeReplay
  import opened BtreeChain
  import opened BtreeContent
  import opened BtreeSearch
  import opened BtreeFinish
  import opened BtreeInner
  import opened BtreeScan
  import opened BtreeClr
  import opened BtreeFresh
  import opened BtreeCascade
  import opened BtreeRound
  import opened BtreePending
  import opened BtreeSound
  import opened BtreeUndo

  ghost predicate UnlinkPlan(s: Pages, left: PageId)
    requires left < |s| && s[left].next < |s|
  {
    s[s[left].next].entries == [] && !NeverHadEntries(s[s[left].next])
  }

  // ---- Small files and full parents ----

  /** In a file of at most 65,536 pages no promotion of the cascade is published
      on the wrong page. */
  lemma SmallFileIsStraight(s: Pages, left: PageId, start: nat)
    requires Ordered(s) && |s| <= 65536 && left < |s| && s[left].next < |s|
    ensures StraightRound(s, left, start)
  {
    hide Internal;
    hide Ascent;
    match ChoosePlan(s[left], s[s[left].next], start) {
      case Err(_) =>
      case Ok((_, separator)) =>
        var c := Ascent(s, left, separator);
        if c.Top? && MetaPage(s, c.root).Some? {
          TopInFile(s, left, separator);
          OnlyLargeRootsMissed(s, c.root);
        }
    }
  }

  lemma TopInFile(s: Pages, left: PageId, separator: Key)
    requires left < |s| && Ascent(s, left, separator).Top?
    ensures Ascent(s, left, separator).root < |s|
  {}

  /** Nothing at or above `level` is flagged. */
  ghost predicate FlagFree(s: Pages, level: nat)
  {
    forall p :: 0 <= p < |s| && s[p].flags.splitIncomplete ==> s[p].level < level
  }

  /** A page with fewer than two entries has room for one more. */
  ghost predicate Roomy(s: Pages)
  {
    forall p :: 0 <= p < |s| && s[p].level > 0 && GoodGeometry(s[p]) && |s[p].entries| < 2 ==>
      FreeSpace(s[p]) >= MAX_INDEX_KEY_BYTES + 12
  }

  /** Finishing from the root downwards keeps the cascade away from flagged
      pages: a climb from a level above which nothing is flagged is never
      stuck. */
  lemma {:induction false} NeverStuck(s: Pages, left: PageId, level: nat, d: Entry, newId: PageId)
    requires Ordered(s) && Roomy(s) && FlagFree(s, level + 1) && |d.key| <= MAX_INDEX_KEY_BYTES
    ensures !ClimbFrom(s, left, level, d, newId).Stuck?
    decreases MAX_LEVEL - level
  {
    hide SplitSlot;
    if left >= |s| || s[left].flags.root || level >= MAX_LEVEL || Parent(s, left, level).None? {
    } else {
      var p := Parent(s, left, level).value;
      if FreeSpace(s[p]) < EntryCost(level + 1, d) {
        assert Internal(s[p], |s|);
        SplitSlotIsBest(level + 1, s[p].entries, d);
        FullPageCost(s[p]);
        var start := SplitSlot(level + 1, s[p].entries, d).value;
        NeverStuck(s, p, level + 1, Entry(s[p].entries[start].key, newId, 0), newId + 1);
        assert !ClimbSplit(s, p, level + 1, d, newId).Stuck?;
      }
    }
  }

  lemma FullPageCost(page: Page)
    requires Accounted(page)
    ensures TotalCost(page.level, page.entries) <= PAGE_CAPACITY
  {}

  // ---- The median slot ----

  /** The median slot is looked up before the plan is known. A split that only the
      page scan found is refused when its left page has fewer than two entries.
      Such a page is past its Copy, so no plan uses the slot: with any slot at
      all the same split is finished or not. */
  lemma MedianRefused(s: Pages, chain: seq<PageId>, k: nat, slot: nat)
    requires SpineInv(s, chain) && k < |chain| && Flagged(s, chain[k]) && |s[chain[k]].entries| < 2
    ensures s[chain[k]].next < |s| && !Finishable(s, chain[k], None) && !AwaitsCopy(s, chain[k])
    ensures Finishable(s, chain[k], Some(slot)) <==> CanFinish(s, chain[k], 1)
  {
    hide Contents;
    hide Placeable;
    assert NextAt(s, chain, k) && TwinAt(s, chain, k) && NextAt(s, chain, k + 1);
  }

  /** A pass that gets past its first round could finish it. */
  lemma FirstRound(s: Pages, trace: seq<Pages>, order: seq<PageId>, tracked: map<PageId, Option<nat>>)
    requires 1 <= |trace| <= |order| + 1 && order != [] && RoundsHold(s, trace, order, tracked) && Sound(s)
    requires CleanAt(trace, order, tracked, 0)
    ensures |trace| > 1 ==> FinishableAt(trace, order, tracked, 0)
  {
    hide FinishableAt;
    hide CleanAt;
    assert AllClean(trace, order, tracked, 1);
    RoundsHeldOnce(s, trace, order, tracked);
  }

  lemma RoundsHeldOnce(s: Pages, trace: seq<Pages>, order: seq<PageId>, tracked: map<PageId, Option<nat>>)
    requires 1 <= |trace| && order != [] && RoundsHold(s, trace, order, tracked) && Sound(s)
    requires AllClean(trace, order, tracked, 1)
    ensures |trace| > 1 ==> AllFinishable(trace, order, tracked, 1)
  {}

  lemma OnlyOne(order: seq<PageId>, s: Pages, p: PageId)
    requires Scheduled(s, order) && (forall q: PageId :: q in order <==> q == p)
    ensures order == [p]
  {
    assert p in order;
    assert forall i :: 0 <= i < |order| ==> order[i] in order;
    assert |order| > 1 ==> Before(s, order[0], order[1]);
  }

  // A root leaf of two entries split in the middle, and its meta page.
  const MEDIAN_META := InitPage(0, Flags(false, false, false)).(entries := [Entry([], 1, 0)], upper := PD_SPECIAL - 10)
  const MEDIAN_FILE: Pages := [ZERO_PAGE, LEFT_HALF, RIGHT_HALF, MEDIAN_META]

  lemma PairContentsOf(s: Pages, p: PageId, q: PageId)
    ensures Contents(s, [p, q]) == EntriesOf(s, p) + EntriesOf(s, q)
  {
    assert [p, q][1..] == [q] && [q][1..] == [];
    assert Contents(s, []) == [] && Contents(s, [q]) == EntriesOf(s, q);
  }

  lemma MedianChain()
    ensures SpineInv(MEDIAN_FILE, [1, 2]) && Contents(MEDIAN_FILE, [1, 2]) == [LOW, HIGH]
  {
    var s, chain := MEDIAN_FILE, [1, 2];
    OneEntry(0, LOW);
    OneEntry(0, HIGH);
    assert NextAt(s, chain, 0) && NextAt(s, chain, 1) && TwinAt(s, chain, 0) && TwinAt(s, chain, 1);
    PairContentsOf(s, 1, 2);
    assert EntryLess(LOW, HIGH);
  }

  lemma MedianFile()
    ensures Sane(MEDIAN_FILE, 3) && Ready(MEDIAN_FILE, [1, 2]) && Sound(MEDIAN_FILE)
    ensures forall p: PageId :: Flagged(MEDIAN_FILE, p) <==> p == 1
  {
    var s := MEDIAN_FILE;
    MedianChain();
    hide SpineInv;
    OneEntry(0, LOW);
    OneEntry(0, HIGH);
    assert PendingAt(s, 1);
  }

  /** With any slot at all its split could be finished. */
  lemma MedianFinishable(slot: nat)
    ensures Finishable(MEDIAN_FILE, 1, Some(slot)) && !Finishable(MEDIAN_FILE, 1, None)
  {
    var s := MEDIAN_FILE;
    assert Answers(s[3], 1) && !Answers(s[1], 1) && !Answers(s[2], 1);
    assert EntryLess(LOW, HIGH);
    assert Ascent(s, 1, HIGH.key) == Top(1, 0);
  }

  /** However a pass over the file goes, it ends in a refusal. */
  lemma MedianUndone(order: seq<PageId>, trace: seq<Pages>, ok: bool)
    requires Undone(MEDIAN_FILE, map[], order, trace, ok)
    ensures !ok
  {
    MedianFile();
    MedianFinishable(0);
    hide Ready;
    hide Sound;
    hide RoundsHold;
    hide Finishable;
    OnlyOne(order, MEDIAN_FILE, 1);
    FirstRound(MEDIAN_FILE, trace, order, map[]);
  }

  /** A root leaf of two entries split in the middle, flushed by a checkpoint
      between Copy and Commit: the undo pass refuses, although the split could be
      finished with any slot. */
  method MedianRefusal() returns (s: Pages, r: Result<()>)
    ensures s == MEDIAN_FILE && Sound(s) && Ready(s, [1, 2]) && (forall p: PageId :: Flagged(s, p) <==> p == 1)
    ensures r.Err? && forall slot :: Finishable(s, 1, Some(slot))
  {
    MedianFile();
    forall slot ensures Finishable(MEDIAN_FILE, 1, Some(slot)) {
      MedianFinishable(slot);
    }
    hide Sane;
    hide Ready;
    hide Sound;
    hide Undone;
    hide Finishable;
    s := MEDIAN_FILE;
    var u := new UndoPass(s, 3);
    ghost var chain, order, trace;
    r, chain, order, trace := Undo(u, map[], [1, 2]);
    MedianUndone(order, trace, r.Ok?);
  }

  // ---- Nested splits ----

  /** The twin of a flagged page has no parent, so while its outer split is
      pending it can be finished exactly if its own twin is drained. */
  lemma NestedFinishable(s: Pages, outer: PageId, slot: Option<nat>)
    requires Sound(s) && Flagged(s, outer) && Flagged(s, s[outer].next)
    ensures var left := s[outer].next;
            && left < |s| && s[left].next < |s|
            && (Finishable(s, left, slot) <==> StartSlot(s[left], slot).Ok? && UnlinkPlan(s, left))
  {
    hide Ordered;
    assert PendingAt(s, outer) && PendingAt(s, s[outer].next);
    UnlinkedFinishable(s, s[outer].next, slot);
  }

  /** The same for any flagged page without a parent that is not a root. */
  lemma UnlinkedFinishable(s: Pages, left: PageId, slot: Option<nat>)
    requires left < |s| && s[left].next < |s| && !s[left].flags.root && !HasDownlink(s, left)
    ensures Finishable(s, left, slot) <==> StartSlot(s[left], slot).Ok? && UnlinkPlan(s, left)
  {
    NoParent(s, left, s[left].level);
    hide Parent;
    hide HasDownlink;
  }

  lemma NoParent(s: Pages, c: PageId, level: nat)
    ensures Parent(s, c, level).Some? ==> HasDownlink(s, c)
  {
    if Parent(s, c, level).Some? {
      var p := Parent(s, c, level).value;
      var i :| 0 <= i < |s[p].entries| && s[p].entries[i].page == c;
      assert DownlinkAt(s[p], i, c);
    }
  }

  /** Of two nested splits the one with the smaller left page comes first.
      Finishing the outer one first gives the inner one a parent exactly when
      the outer plan is not Unlink; otherwise the inner one stays without, and
      can be finished exactly if its twin is drained. */
  lemma OuterFinished(s: Pages, outer: PageId, s1: Pages, rec: Clr, plan: Plan, lsn: Lsn, s': Pages, slot: Option<nat>)
    requires Finished(s, outer, s1, rec, plan, lsn, s') && Flagged(s, rec.right)
    ensures Before(s, outer, rec.right) <==> outer < rec.right
    ensures rec.right < |s| <= |s'| && Flagged(s', rec.right) && s'[rec.right].next == s[rec.right].next < |s'|
    ensures HasDownlink(s', rec.right) <==> !plan.Unlink?
    ensures !plan.Unlink? ==> Parent(s', rec.right, rec.level).Some?
    ensures plan.Unlink? ==>
              (Finishable(s', rec.right, slot) <==> StartSlot(s'[rec.right], slot).Ok? && UnlinkPlan(s', rec.right))
  {
    TwinsHere(s, outer, s1, rec, plan, lsn, s');
    FinishResult(s, outer, s1, rec, plan, lsn, s');
    RoundFinishes(s, outer, s1, rec, plan, lsn, s');
    assert RoundAt(s, outer, s', rec.right) && PendingAt(s, rec.right);
    hide FinishDone;
    hide OnlyFinished;
    hide HalfReady;
    if plan.Unlink? {
      assert s1 == s && IsUnlink(rec);
      HalfAccounted(s[rec.left], s[rec.right]);
      UnlinkAddsNothing(s, rec, s', rec.right);
      hide HasDownlink;
      hide Finished;
      UnlinkedFinishable(s', rec.right, slot);
    } else {
      DownlinkAdded(s, outer, s1, rec, plan, lsn, s');
    }
  }

  lemma HalfAccounted(left: Page, right: Page)
    requires HalfReady(left) && HalfReady(right)
    ensures Accounted(left) && Accounted(right)
  {}

  lemma UnlinkAddsNothing(s: Pages, rec: Clr, s': Pages, c: PageId)
    requires ClrWithinFile(rec, |s|) && FinishDone(s, rec, Unlink, s') && IsUnlink(rec)
    requires Accounted(s[rec.left]) && Accounted(s[rec.right]) && s[rec.right].level == s[rec.left].level
    ensures HasDownlink(s', c) ==> HasDownlink(s, c)
  {
    hide TotalBytes;
    if HasDownlink(s', c) {
      var p, i :| 0 <= p < |s'| && DownlinkAt(s'[p], i, c);
      if p == rec.right && s'[p].entries != s[p].entries {
        assert s[rec.left].entries[|s'[rec.left].entries| + i] == s'[p].entries[i];
        assert DownlinkAt(s[rec.left], |s'[rec.left].entries| + i, c);
      } else {
        assert DownlinkAt(s[p], i, c);
      }
    }
  }

  lemma DownlinkAdded(s: Pages, outer: PageId, s1: Pages, rec: Clr, plan: Plan, lsn: Lsn, s': Pages)
    requires Finished(s, outer, s1, rec, plan, lsn, s') && FinishDone(s1, rec, plan, s') && !plan.Unlink?
    ensures HasDownlink(s', rec.right) && Parent(s', rec.right, rec.level).Some?
  {
    var d := DownlinkPage(rec);
    ClrMoves(s1, rec, lsn, s');
    hide ApplyClr;
    hide TotalBytes;
    var i := if rec.newRoot != INVALID then 1 else rec.slot;
    assert s'[d].entries[i] == Entry(rec.separator, rec.right, 0);
    assert DownlinkAt(s'[d], i, rec.right);
    assert IsParent(s'[d], rec.right, rec.level);
  }

  // A leaf (page 2) and its twin (page 1) both have a split pending; page 3 is
  // the twin's twin. No parent points at page 1.
  const FIRST := Entry([1], 7, 0)
  const SECOND := Entry([2], 7, 1)
  const THIRD := Entry([3], 7, 2)

  function NestedLeaf(e: Entry, prev: PageId, next: PageId, flagged: bool): Page
  {
    InitPage(0, Flags(true, false, flagged)).(prev := prev, next := next, entries := [e], upper := PD_SPECIAL - 11)
  }

  const NESTED_ROOT := InitPage(1, Flags(false, true, false)).(entries := [Entry([], 2, 0)], upper := PD_SPECIAL - 8)
  const NESTED_FILE: Pages :=
    [ZERO_PAGE, NestedLeaf(SECOND, 2, 3, true), NestedLeaf(FIRST, INVALID, 1, true), NestedLeaf(THIRD, 1, INVALID, false),
     NESTED_ROOT]
  const NESTED_CHAIN: seq<PageId> := [2, 1, 3]
  const NESTED_SLOTS: map<PageId, Option<nat>> := map[1 := Some(1), 2 := Some(1)]

  lemma NestedChain()
    ensures TreeInv(NESTED_FILE, NESTED_CHAIN)
  {
    var s, chain := NESTED_FILE, NESTED_CHAIN;
    OneEntry(0, FIRST);
    OneEntry(0, SECOND);
    OneEntry(0, THIRD);
    assert NextAt(s, chain, 0) && NextAt(s, chain, 1) && NextAt(s, chain, 2);
    assert TwinAt(s, chain, 0) && TwinAt(s, chain, 1) && TwinAt(s, chain, 2);
    assert chain[..1][0] == 2 && chain[..2][1] == 1;
    assert HintAt(s, chain, 0) && HintAt(s, chain, 1) && HintAt(s, chain, 2);
    assert chain[1..] == [1, 3];
    PairContentsOf(s, 1, 3);
    assert Contents(s, chain) == [FIRST, SECOND, THIRD];
    assert EntryLess(FIRST, SECOND) && EntryLess(SECOND, THIRD) && EntryLess(FIRST, THIRD);
  }

  lemma NestedOrdered()
    ensures Ordered(NESTED_FILE) && !HasDownlink(NESTED_FILE, 1) && !HasDownlink(NESTED_FILE, 3)
  {
    OneEntry(1, Entry([], 2, 0));
  }

  lemma NestedReady()
    ensures Sane(NESTED_FILE, 0) && Ready(NESTED_FILE, NESTED_CHAIN)
    ensures forall p: PageId :: Flagged(NESTED_FILE, p) <==> p == 1 || p == 2
  {
    NestedChain();
    hide SpineInv;
    hide Hinted;
  }

  lemma NestedLeafReady(e: Entry, prev: PageId, next: PageId, flagged: bool)
    requires |e.key| == 1
    ensures HalfReady(NestedLeaf(e, prev, next, flagged))
  {
    OneEntry(0, e);
  }

  lemma NestedFile()
    ensures Sane(NESTED_FILE, 0) && Ready(NESTED_FILE, NESTED_CHAIN) && Sound(NESTED_FILE)
    ensures forall p: PageId :: Flagged(NESTED_FILE, p) <==> p == 1 || p == 2
  {
    var s := NESTED_FILE;
    NestedReady();
    NestedOrdered();
    hide Sane;
    hide Ready;
    hide Ordered;
    hide HasDownlink;
    NestedLeafReady(FIRST, INVALID, 1, true);
    NestedLeafReady(SECOND, 2, 3, true);
    NestedLeafReady(THIRD, 1, INVALID, false);
    hide HalfReady;
    assert PendingAt(s, 1) && PendingAt(s, 2);
  }

  /** The outer split could be finished, the inner one not before it. */
  lemma NestedSlots()
    ensures CleanSlot(NESTED_FILE, 1, Some(1)) && !Finishable(NESTED_FILE, 1, Some(1))
    ensures Finishable(NESTED_FILE, 2, Some(1))
  {
    var s := NESTED_FILE;
    NestedFile();
    NestedOrdered();
    NestedFinishable(s, 2, Some(1));
    hide Sound;
    hide Ready;
    hide Ordered;
    NoParent(s, 1, 0);
    hide HasDownlink;
    assert EntryLess(FIRST, SECOND);
    assert IsParent(s[4], 2, 0) && Parent(s, 2, 0) == Some(4);
    assert Ascent(s, 2, SECOND.key) == Room;
  }

  lemma LowerFirst(order: seq<PageId>, s: Pages)
    requires Scheduled(s, order) && (forall q: PageId :: q in order <==> q == 1 || q == 2)
    requires |s| > 2 && s[1].level == s[2].level
    ensures order != [] && order[0] == 1
  {
    assert 1 in order;
    assert forall i :: 0 <= i < |order| ==> order[i] in order;
    var i :| 0 <= i < |order| && order[i] == 1;
    assert i > 0 ==> Before(s, order[0], order[i]);
  }

  lemma NestedUndone(order: seq<PageId>, trace: seq<Pages>, ok: bool)
    requires Undone(NESTED_FILE, NESTED_SLOTS, order, trace, ok)
    ensures !ok
  {
    NestedFile();
    NestedSlots();
    hide Ready;
    hide Sound;
    hide RoundsHold;
    hide Finishable;
    hide CleanSlot;
    LowerFirst(order, NESTED_FILE);
    FirstRound(NESTED_FILE, trace, order, NESTED_SLOTS);
  }

  /** The whole pass refuses such a file: the inner split comes first and has no
      parent to go to, although the outer one could be finished. */
  method NestedRefusal() returns (s: Pages, r: Result<()>)
    ensures s == NESTED_FILE && Sound(s) && TreeInv(s, NESTED_CHAIN)
    ensures (forall p: PageId :: Flagged(s, p) <==> p == 1 || p == 2) && s[2].next == 1
    ensures r.Err? && Finishable(s, 2, Some(1)) && !Finishable(s, 1, Some(1))
  {
    NestedFile();
    NestedSlots();
    NestedChain();
    hide Sane;
    hide Ready;
    hide Sound;
    hide Undone;
    hide Finishable;
    hide CleanSlot;
    hide TreeInv;
    s := NESTED_FILE;
    var u := new UndoPass(s, 0);
    ghost var chain, order, trace;
    r, chain, order, trace := Undo(u, NESTED_SLOTS, NESTED_CHAIN);
    NestedUndone(order, trace, r.Ok?);
  }

  // ---- Hints ----

  // Page 2 was split onto page 1, which was drained again before the Commit; its
  // right neighbour, page 3, names it.
  const DRAINED_TWIN := InitRightPage(2, 3, 0).(upper := PD_SPECIAL - 11)
  const HINT_ROOT := InitPage(1, Flags(false, true, false)).(
    entries := [Entry([], 2, 0), Entry([3], 3, 0)], upper := PD_SPECIAL - 17)
  const HINT_FILE: Pages :=
    [ZERO_PAGE, DRAINED_TWIN, NestedLeaf(FIRST, INVALID, 1, true), NestedLeaf(THIRD, 1, INVALID, false), HINT_ROOT]

  lemma HintChain()
    ensures TreeInv(HINT_FILE, NESTED_CHAIN)
  {
    var s, chain := HINT_FILE, NESTED_CHAIN;
    OneEntry(0, FIRST);
    OneEntry(0, THIRD);
    assert NextAt(s, chain, 0) && NextAt(s, chain, 1) && NextAt(s, chain, 2);
    assert TwinAt(s, chain, 0) && TwinAt(s, chain, 1) && TwinAt(s, chain, 2);
    assert chain[..1][0] == 2 && chain[..2][1] == 1;
    assert HintAt(s, chain, 0) && HintAt(s, chain, 1) && HintAt(s, chain, 2);
    assert chain[1..] == [1, 3];
    PairContentsOf(s, 1, 3);
    assert Contents(s, chain) == [FIRST, THIRD];
    assert EntryLess(FIRST, THIRD);
  }

  lemma HintOrdered()
    ensures Ordered(HINT_FILE) && !HasDownlink(HINT_FILE, 1)
  {
    var a, b := Entry([], 2, 0), Entry([3], 3, 0);
    OneEntry(1, a);
    OneEntry(1, b);
    TotalBytesConcat(1, [a], [b]);
    assert HINT_ROOT.entries == [a] + [b] && EntryLess(a, b);
  }

  lemma HintFile()
    ensures Sane(HINT_FILE, 0) && Ready(HINT_FILE, NESTED_CHAIN) && Sound(HINT_FILE)
    ensures forall p: PageId :: Flagged(HINT_FILE, p) <==> p == 2
    ensures PlanOf(HINT_FILE, 2, Some(1)) == Some(Unlink) && DropsNamed(HINT_FILE, NESTED_CHAIN, 2, Unlink)
  {
    var s := HINT_FILE;
    HintChain();
    hide SpineInv;
    hide Hinted;
    HintOrdered();
    hide Ordered;
    hide HasDownlink;
    NestedLeafReady(FIRST, INVALID, 1, true);
    assert PendingAt(s, 2);
    assert s[NESTED_CHAIN[2]].prev == NESTED_CHAIN[1];
  }

  lemma HintFinishes()
    ensures StraightSlot(HINT_FILE, 2, Some(1)) && Finishable(HINT_FILE, 2, Some(1))
  {}

  /** Undo unlinks the drained page, and the hint of page 3 names a page that is
      no longer on the chain. */
  method StaleHint() returns (s: Pages, after: Pages, ghost leaves: seq<PageId>)
    ensures s == HINT_FILE && Sound(s) && TreeInv(s, NESTED_CHAIN)
    ensures leaves == [2, 3] && SpineInv(after, leaves) && Contents(after, leaves) == Contents(s, NESTED_CHAIN)
    ensures |after| > 3 && after[3].prev == 1 && !Hinted(after, leaves)
  {
    HintChain();
    HintFile();
    HintFinishes();
    hide Sane;
    hide Sound;
    hide SpineInv;
    hide Contents;
    hide Hinted;
    hide DropsNamed;
    hide PlanOf;
    hide StraightSlot;
    hide Finishable;
    s := HINT_FILE;
    var u := new UndoPass(s, 0);
    var r;
    ghost var plan;
    r, leaves, plan := FinishNext(u, 2, Some(1), NESTED_CHAIN);
    after := u.pages;
    TakenFinishes(s, 2, Some(1), after);
    assert RoundAt(s, 2, after, 3);
    assert leaves == [2, 3];
  }

  // ---- Promotions ----

  /** The topmost pending split is that of a root that no meta page names any
      more: its promotion was published, its Commit was not logged. */
  ghost predicate Dethroned(s: Pages, left: PageId)
  {
    && Flagged(s, left) && s[left].flags.root && MetaPage(s, left).None? && s[left].next < |s|
    && forall q: PageId :: Flagged(s, q) && q != left ==> Before(s, left, q)
  }

  lemma FirstOf(order: seq<PageId>, s: Pages, left: PageId)
    requires Scheduled(s, order) && (forall q: PageId :: q in order <==> Flagged(s, q)) && Flagged(s, left)
    requires forall q: PageId :: Flagged(s, q) && q != left ==> Before(s, left, q)
    ensures order != [] && order[0] == left
  {
    assert left in order;
    var i :| 0 <= i < |order| && order[i] == left;
    assert order[0] in order;
    assert i > 0 ==> Before(s, order[0], order[i]);
  }

  lemma DethronedRound(s: Pages, left: PageId, slot: Option<nat>)
    requires left < |s| && s[left].next < |s| && s[left].flags.root && MetaPage(s, left).None?
    ensures CleanSlot(s, left, slot)
    ensures Finishable(s, left, slot) <==> StartSlot(s[left], slot).Ok? && UnlinkPlan(s, left)
  {}

  /** A crash between the record that publishes a promotion and the Commit of its
      split: whatever the tracker knows, a pass over the file is refused unless
      the right page was drained and no downlink is needed. Where no other split
      is pending that and a slot decide. */
  lemma PromotionLost(s: Pages, left: PageId, tracked: map<PageId, Option<nat>>, order: seq<PageId>, trace: seq<Pages>,
                      ok: bool)
    requires Sound(s) && Dethroned(s, left) && Undone(s, tracked, order, trace, ok)
    ensures ok ==> UnlinkPlan(s, left)
    ensures (forall q: PageId :: Flagged(s, q) ==> q == left) ==>
              (ok <==> StartSlot(s[left], SlotOf(tracked, left)).Ok? && UnlinkPlan(s, left))
  {
    FirstOf(order, s, left);
    DethronedRound(s, left, SlotOf(tracked, left));
    hide Sound;
    hide RoundsHold;
    hide RoundsTaken;
    hide Finishable;
    hide CleanSlot;
    hide MetaPage;
    hide UnlinkPlan;
    hide StartSlot;
    FirstRound(s, trace, order, tracked);
    if forall q: PageId :: Flagged(s, q) ==> q == left {
      OnlyOne(order, s, left);
      assert CleanAt(trace, order, tracked, 0);
      assert FinishableAt(trace, order, tracked, 0) <==> Finishable(s, left, SlotOf(tracked, left));
    }
  }

  // The root leaf of the median example, with its new root (page 4) seeded and
  // published.
  const PUBLISHED_META := InitPage(0, Flags(false, false, false)).(
    entries := [Entry([], 1, 0), Entry([], 4, 1)], upper := PD_SPECIAL - 20)
  const SEEDED_ROOT := InitPage(1, Flags(false, true, false)).(entries := [Entry([], 1, 0)], upper := PD_SPECIAL - 8)
  const PROMOTED_FILE: Pages := [ZERO_PAGE, LEFT_HALF, RIGHT_HALF, PUBLISHED_META, SEEDED_ROOT]

  lemma PromotedChain()
    ensures TreeInv(PROMOTED_FILE, [1, 2])
  {
    var s, chain := PROMOTED_FILE, [1, 2];
    OneEntry(0, LOW);
    OneEntry(0, HIGH);
    assert NextAt(s, chain, 0) && NextAt(s, chain, 1) && TwinAt(s, chain, 0) && TwinAt(s, chain, 1);
    assert chain[..1][0] == 1;
    assert HintAt(s, chain, 0) && HintAt(s, chain, 1);
    PairContentsOf(s, 1, 2);
    assert EntryLess(LOW, HIGH);
  }

  lemma PromotedReady()
    ensures Sane(PROMOTED_FILE, 3) && Ready(PROMOTED_FILE, [1, 2])
    ensures forall p: PageId :: Flagged(PROMOTED_FILE, p) <==> p == 1
  {
    PromotedChain();
    hide SpineInv;
    hide Hinted;
  }

  lemma PromotedFile()
    ensures Sound(PROMOTED_FILE) && Dethroned(PROMOTED_FILE, 1) && !UnlinkPlan(PROMOTED_FILE, 1)
  {
    var s := PROMOTED_FILE;
    PromotedReady();
    hide Ready;
    hide Sane;
    PromotedOrdered();
    hide Ordered;
    hide HasDownlink;
    OneEntry(0, LOW);
    OneEntry(0, HIGH);
    assert PendingAt(s, 1);
    assert !Answers(s[1], 1) && !Answers(s[2], 1) && !Answers(s[3], 1) && !Answers(s[4], 1);
  }

  lemma PromotedOrdered()
    ensures Ordered(PROMOTED_FILE) && !HasDownlink(PROMOTED_FILE, 2)
  {
    OneEntry(1, Entry([], 1, 0));
  }

  /** Such a file, which a crash leaves after three more records, is refused. */
  method PromotionRefusal(slot: Option<nat>) returns (s: Pages, r: Result<()>)
    ensures s == PROMOTED_FILE && Sound(s) && TreeInv(s, [1, 2]) && (forall p: PageId :: Flagged(s, p) <==> p == 1)
    ensures r.Err?
  {
    PromotedFile();
    PromotedReady();
    PromotedChain();
    hide Sane;
    hide Ready;
    hide Sound;
    hide Undone;
    hide Dethroned;
    hide TreeInv;
    s := PROMOTED_FILE;
    var u := new UndoPass(s, 3);
    ghost var chain, order, trace;
    r, chain, order, trace := Undo(u, map[1 := slot], [1, 2]);
    PromotionLost(s, 1, map[1 := slot], order, trace, r.Ok?);
  }

  /** A root split finished with the meta search misled: the record ends up on
      the page that was answered, the root's own meta page is left as it was,
      and the page it names is no root any more. */
  lemma MisledPromotion(s: Pages, left: PageId, s1: Pages, rec: Clr, plan: Plan, lsn: Lsn, s': Pages, meta: PageId)
    requires FinishedBy(s, left, s1, rec, plan, lsn, s') && !plan.Unlink? && s[left].flags.root
    requires 0 < meta < |s| && Answers(s[meta], left) && MetaPage(s, left) != Some(meta) && meta != s[left].next
    ensures meta < |s'| == |s| + 1 && s'[meta] == s[meta] && !s'[left].flags.root && rec.newRoot == |s|
    ensures MetaPage(s, left).Some?
    ensures var m := MetaPage(s, left).value;
            m != s[left].next ==> s'[m].entries == s[m].entries + [MetaEntry(s[m].level, rec.newRoot, rec.level + 1)]
  {
    ClrByPage(s1, rec, lsn + 1, s');
    assert s1[meta] == s1[..|s|][meta] && s1[left] == s1[..|s|][left];
    hide ApplyClr;
    hide Framed;
    hide ChoosePlan;
    assert meta != left;
    var m := MetaPage(s, left).value;
    RootDropped(s1[left], s1[rec.right], rec, lsn + 1);
    hide ClrHalves;
    hide ClrNewRoot;
    if m != rec.right {
      assert s1[m] == s1[..|s|][m];
      MetaAppended(s1[m], rec, lsn + 1);
    }
  }

  lemma RootDropped(left: Page, right: Page, rec: Clr, lsn: Lsn)
    requires left.lsn < lsn && !IsUnlink(rec) && ClrHalves(left, right, rec, lsn).Ok?
    ensures !ClrHalves(left, right, rec, lsn).value.0.flags.root
  {}

  lemma MetaAppended(page: Page, rec: Clr, lsn: Lsn)
    requires page.lsn < lsn && ClrMeta(page, rec, lsn).Ok?
    ensures ClrMeta(page, rec, lsn).value.entries == page.entries + [MetaEntry(page.level, rec.newRoot, rec.level + 1)]
  {
    var e := MetaEntry(page.level, rec.newRoot, rec.level + 1);
    assert InsertAt(page.entries, |page.entries|, e) == page.entries + [e];
  }

  const MISLED_ROOT := InitPage(0, Flags(true, true, true)).(next := 5, entries := [LOW], upper := PD_SPECIAL - 11)
  const MISLED_TWIN := InitRightPage(65537, INVALID, 0).(entries := [HIGH], upper := PD_SPECIAL - 11)

  lemma MisledIsSound()
    ensures var s := MisledFile(MISLED_ROOT, MISLED_TWIN);
            && Sane(s, 0) && Sound(s) && Flagged(s, 65537) && Paired(s, 65537)
            && StraightRound(s, 65537, 1) && CanFinish(s, 65537, 1)
  {
    var s := MisledFile(MISLED_ROOT, MISLED_TWIN);
    MetaSearchMisled(MISLED_ROOT, MISLED_TWIN);
    OneEntry(0, LOW);
    OneEntry(0, HIGH);
    assert forall p: PageId :: Flagged(s, p) <==> p == 65537;
    assert !HasDownlink(s, 5);
    assert PendingAt(s, 65537);
    assert EntryLess(LOW, HIGH);
    hide MetaPage;
  }

  /** It happens: on this file, whose every page is sound, the root split is
      finished, page 4 still names the old root, and page 2 has gained a
      downlink to a page that does not exist. */
  method MisledRound() returns (r: Result<Lsn>, after: Pages)
    ensures r.Ok? && |after| > 65537 && after[4] == TRUE_META && !after[65537].flags.root
    ensures exists e :: after[2].entries == IMPOSTOR.entries + [e] && e.page >= |after|
  {
    MisledIsSound();
    MetaSearchMisled(MISLED_ROOT, MISLED_TWIN);
    hide Sane;
    hide Sound;
    hide CanFinish;
    hide StraightRound;
    var file := MisledFile(MISLED_ROOT, MISLED_TWIN);
    hide MisledFile;
    var u := new UndoPass(file, 0);
    ghost var s1, rec, plan;
    r, s1, rec, plan := FinishIncompleteSplit(u, 65537, 1);
    after := u.pages;
    MisledPromotion(file, 65537, s1, rec, plan, u.lsn - 1, after, 4);
  }
}

/** Files on which the undo pass cannot fail (crates/pg-am-btree/src/undo.rs): a
    condition on the file a crash leaves, not on how the rounds go. */
module BtreeAssured {
  import opened Keys
  import opened Outcome
  import opened Sequences
  import opened BtreePages
  import opened BtreeLog
  import opened BtreeReplay
  import opened BtreeContent
  import opened BtreeSearch
  import opened BtreeFinish
  import opened BtreeInner
  import opened BtreeScan
  import opened BtreeClr
  import opened BtreeFresh
  import opened BtreeRooted
  import opened BtreeCascade
  import opened BtreeRound
  import opened BtreePending
  import opened BtreeSound
  import opened BtreeUndo
  import opened BtreeRefusals

  // ---- The two halves of a pending split ----

  /** The slot is known, the halves do not overlap and fit, and a new root over
      them would be in order. */
  ghost predicate Firm(s: Pages, left: PageId, slot: Option<nat>)
    requires left < |s| && s[left].next < |s|
  {
    && StartSlot(s[left], slot).Ok?
    && FirmFrom(s[left], s[s[left].next], left, s[left].next, StartSlot(s[left], slot).value)
  }

  ghost predicate FirmFrom(left: Page, right: Page, l: PageId, r: PageId, start: nat)
  {
    match ChoosePlan(left, right, start)
    case Err(_) => false
    case Ok((plan, separator)) =>
      && HalvesFit(left, right, start, plan)
      && (left.entries != [] && right.entries != [] ==> EntryLess(LastOf(left), right.entries[0]))
      && (left.flags.root ==> separator != [] || l < r)
  }

  ghost function PendingPages(s: Pages): set<PageId>
  {
    set p: PageId | p < |s| && Flagged(s, p)
  }

  /** Everything the pass needs of the file it starts from: sound, every page in
      a published tree that can grow by one level for each pending split, room in
      the file for the pages each may take, and firm halves. */
  ghost predicate Assured(s: Pages, tracked: map<PageId, Option<nat>>)
  {
    && Sound(s) && Hung(s, |PendingPages(s)|) && |s| + (MAX_LEVEL + 1) * |PendingPages(s)| <= 65536
    && |s| > 0 && !s[0].flags.splitIncomplete && (forall p :: 0 <= p < |s| ==> s[p].level <= MAX_LEVEL)
    && (forall p: PageId :: Flagged(s, p) ==> s[p].next < |s| && Firm(s, p, SlotOf(tracked, p)))
  }

  /** The same with the splits that are left in the order of the pass. */
  ghost predicate AssuredFor(s: Pages, tracked: map<PageId, Option<nat>>, todo: seq<PageId>)
  {
    && Sound(s) && Hung(s, |todo|) && |s| + (MAX_LEVEL + 1) * |todo| <= 65536
    && |s| > 0 && !s[0].flags.splitIncomplete && (forall p :: 0 <= p < |s| ==> s[p].level <= MAX_LEVEL)
    && Scheduled(s, todo) && (forall p: PageId :: p in todo <==> Flagged(s, p))
    && (forall p: PageId :: Flagged(s, p) ==> s[p].next < |s| && Firm(s, p, SlotOf(tracked, p)))
  }

  // ---- A round can be finished ----

  lemma TightRoom(page: Page)
    requires Node(page) && Tight(page) && |page.entries| == 1 && |page.entries[0].key| <= MAX_INDEX_KEY_BYTES
    ensures FreeSpace(page) >= MAX_INDEX_KEY_BYTES + 12
  {
    OneEntry(page.level, page.entries[0]);
    assert page.entries == [page.entries[0]];
  }

  lemma FlaggedTwin(s: Pages, p: PageId, level: nat)
    requires Sound(s) && IsTwin(s, p) && p < |s| && s[p].level == level
    ensures !FlagFree(s, level)
  {
    var q :| 0 < q < |s| && TwinOf(s[q], p);
    assert Flagged(s, q) && PendingAt(s, q);
  }

  /** Nothing in the way of the climb: it ends at a page with room or at a root
      that can be promoted. */
  lemma {:induction false} ClimbReaches(s: Pages, left: PageId, level: nat, d: Entry, newId: PageId, k: nat)
    requires Sound(s) && Hung(s, k) && k > 0 && FlagFree(s, level + 1) && |d.key| <= MAX_INDEX_KEY_BYTES
    requires 0 < left < |s| && s[left].level == level && Grounded(s, left)
    requires s[left].flags.root ==> Crowned(s, left, k)
    requires forall p :: 0 <= p < |s| ==> s[p].level <= MAX_LEVEL
    ensures Reached(s, ClimbFrom(s, left, level, d, newId), false)
    decreases MAX_LEVEL - level
  {
    hide SplitSlot;
    hide Pending;
    if s[left].flags.root {
    } else {
      var p := Parent(s, left, level).value;
      assert HungAt(s, p, k) && Inner(s[p]) && Internal(s[p], |s|);
      if FreeSpace(s[p]) < EntryCost(level + 1, d) {
        if |s[p].entries| == 1 {
          TightRoom(s[p]);
        }
        SplitSlotIsBest(level + 1, s[p].entries, d);
        FullPageCost(s[p]);
        var start := SplitSlot(level + 1, s[p].entries, d).value;
        if IsTwin(s, p) {
          FlaggedTwin(s, p, level + 1);
        }
        FreeAbove(s, level + 1);
        ClimbReaches(s, p, level + 1, Entry(s[p].entries[start].key, newId, 0), newId + 1, k);
        assert ClimbSplit(s, p, level + 1, d, newId)
               == ClimbFrom(s, p, level + 1, Entry(s[p].entries[start].key, newId, 0), newId + 1);
      }
    }
  }

  lemma FreeAbove(s: Pages, level: nat)
    requires FlagFree(s, level)
    ensures FlagFree(s, level + 1) && forall p :: 0 <= p < |s| && s[p].level >= level ==> !s[p].flags.splitIncomplete
  {}

  /** The round whose turn it is has the highest level of all. */
  lemma FirstIsTop(s: Pages, todo: seq<PageId>)
    requires Scheduled(s, todo) && todo != [] && (forall p: PageId :: p in todo <==> Flagged(s, p))
    requires |s| > 0 && !s[0].flags.splitIncomplete
    ensures todo[0] in todo && Flagged(s, todo[0]) && FlagFree(s, s[todo[0]].level + 1)
  {
    assert todo[0] in todo;
    forall p | 0 <= p < |s| && s[p].flags.splitIncomplete ensures s[p].level < s[todo[0]].level + 1 {
      assert Flagged(s, p);
      var i :| 0 <= i < |todo| && todo[i] == p;
      assert i > 0 ==> Before(s, todo[0], todo[i]);
    }
  }

  lemma FirmPlaceable(s: Pages, left: PageId, separator: Key, k: nat)
    requires Sound(s) && Hung(s, k) && k > 0 && |s| <= 65536 && |separator| <= MAX_INDEX_KEY_BYTES
    requires Flagged(s, left) && FlagFree(s, s[left].level + 1)
    requires forall p :: 0 <= p < |s| ==> s[p].level <= MAX_LEVEL
    ensures Placeable(s, left, separator)
    ensures s[left].flags.root ==> MetaPage(s, left).Some? && s[MetaPage(s, left).value].level == 0
  {
    assert HungAt(s, left, k);
    ClimbReaches(s, left, s[left].level, Entry(separator, s[left].next, 0), |s|, k);
    if s[left].flags.root {
      AnswersLow(s, MetaPage(s, left).value, left);
    }
  }

  lemma RoundReady(s: Pages, tracked: map<PageId, Option<nat>>, todo: seq<PageId>)
    requires AssuredFor(s, tracked, todo) && todo != []
    ensures Flagged(s, todo[0]) && s[todo[0]].next < |s|
    ensures CleanSlot(s, todo[0], SlotOf(tracked, todo[0])) && Finishable(s, todo[0], SlotOf(tracked, todo[0]))
  {
    FirstIsTop(s, todo);
    var left := todo[0];
    assert Firm(s, left, SlotOf(tracked, left)) && PendingAt(s, left);
    var start := StartSlot(s[left], SlotOf(tracked, left)).value;
    var separator := ChoosePlan(s[left], s[s[left].next], start).value.1;
    SmallFileIsStraight(s, left, start);
    SeparatorBound(s[left], s[s[left].next], start);
    hide StraightRound;
    hide Placeable;
    hide PendingAt;
    FirmPlaceable(s, left, separator, |todo|);
  }

  // ---- And leaves the rest assured ----

  lemma MovedSides(left: Page, right: Page, rec: Clr, lsn: Lsn, left': Page, right': Page)
    requires left.lsn < lsn && right.lsn < lsn && ClrHalves(left, right, rec, lsn) == Ok((left', right')) && !IsUnlink(rec)
    requires Accounted(left) && Accounted(right) && right.level == left.level && !left.flags.leaf && !right.flags.leaf
    requires right.entries == [] && NeverHadEntries(right) && rec.start < |left.entries|
    ensures SidesKept(left, right, left', right')
  {
    var out := ApplySplitCopy(left, right, rec.start, true).value;
    CopyTight(left, right, rec.start, out.0, out.1);
    hide ApplySplitCopy;
    hide TotalBytes;
  }

  lemma CopyTight(left: Page, right: Page, start: nat, left': Page, right': Page)
    requires Accounted(left) && Accounted(right) && right.level == left.level && start < |left.entries|
    requires right.entries == [] && NeverHadEntries(right) && ApplySplitCopy(left, right, start, true) == Ok((left', right'))
    ensures left'.entries + right'.entries == left.entries + right.entries && Tight(left') && Tight(right')
  {
    var es := left.entries;
    hide AppendAll;
    hide Rebuild;
    hide TotalBytes;
    RebuildExact(left, start);
    AppendAllExact(right, es[start..]);
    assert right'.entries == es[start..] && left'.entries == es[..start];
    assert es == es[..start] + es[start..];
  }

  lemma KeptSides(left: Page, right: Page, rec: Clr, lsn: Lsn, left': Page, right': Page)
    requires left.lsn < lsn && right.lsn < lsn && ClrHalves(left, right, rec, lsn) == Ok((left', right')) && !IsUnlink(rec)
    requires Accounted(left) && Sorted(left.entries) && !left.flags.leaf && !right.flags.leaf
    requires right.entries != [] && (left.entries != [] ==> EntryLess(LastOf(left), right.entries[0]))
    ensures SidesKept(left, right, left', right')
  {
    hide ApplySplitCopy;
    hide TotalBytes;
    if left.entries != [] {
      AllBelow(left.entries, right.entries[0]);
      BisectSorted(left.entries, right.entries[0], 0, |left.entries|);
      RepackTight(left, right);
    }
  }

  lemma RepackTight(left: Page, right: Page)
    requires Accounted(left) && left.entries != []
    ensures var out := ApplySplitCopy(left, right, |left.entries|, false);
            && out.Ok? && out.value.0.entries == left.entries && out.value.1 == right && Tight(out.value.0)
            && out.value.0.level == left.level
  {
    hide AppendAll;
    hide Rebuild;
    RebuildExact(left, |left.entries|);
    hide TotalBytes;
    assert left.entries[..|left.entries|] == left.entries;
  }

  /** The record that finishes a firm split loses nothing. */
  lemma FinishSides(left: Page, right: Page, rec: Clr, lsn: Lsn, left': Page, right': Page, plan: Plan)
    requires left.lsn < lsn && right.lsn < lsn && ClrHalves(left, right, rec, lsn) == Ok((left', right'))
    requires HalfReady(left) && HalfReady(right) && right.level == left.level > 0 && !IsUnlink(rec) && !plan.Unlink?
    requires ChoosePlan(left, right, rec.start) == Ok((plan, rec.separator))
    requires FirmFrom(left, right, rec.left, rec.right, rec.start)
    ensures SidesKept(left, right, left', right')
  {
    hide ClrHalves;
    hide SidesKept;
    hide Accounted;
    if right.entries == [] {
      MovedSides(left, right, rec, lsn, left', right');
    } else {
      KeptSides(left, right, rec, lsn, left', right');
    }
  }

  lemma AllBelow(es: seq<Entry>, e: Entry)
    requires Sorted(es) && es != [] && EntryLess(es[|es| - 1], e)
    ensures LowerBound(es, e) == |es|
  {
    LowerBoundSplits(es, e);
    EntryTrichotomy(es[|es| - 1], e);
  }

  lemma FinishDownlink(s: Pages, left: PageId, s1: Pages, rec: Clr, plan: Plan, lsn: Lsn, s': Pages)
    requires Finished(s, left, s1, rec, plan, lsn, s') && !plan.Unlink? && ClrApplied(s1, rec, lsn + 1, s')
    ensures DownlinkHooked(s1, rec, s')
  {
    hide ApplyClr;
    hide ClrHalves;
    hide ClrDownlink;
    hide ClrMeta;
    hide TotalBytes;
    hide LowerBound;
    hide Sound;
    hide Steady;
    hide Above;
    hide Framed;
    hide ChoosePlan;
    var d := DownlinkPage(rec);
    DownlinkTight(s1[d], rec, lsn + 1, s'[d]);
  }

  lemma FinishMeta(s: Pages, left: PageId, s1: Pages, rec: Clr, plan: Plan, lsn: Lsn, s': Pages)
    requires Finished(s, left, s1, rec, plan, lsn, s') && !plan.Unlink? && ClrApplied(s1, rec, lsn + 1, s')
    ensures MetaHooked(s1, rec, s')
    ensures rec.newRoot != INVALID ==> MetaPage(s1, rec.left) == Some(rec.meta)
  {
    hide ApplyClr;
    hide ClrHalves;
    hide ClrDownlink;
    hide ClrMeta;
    hide TotalBytes;
    hide RoomFor;
    hide Sound;
    hide Steady;
    hide Above;
    hide Framed;
    hide ChoosePlan;
    if rec.newRoot != INVALID {
      assert s1 == s + [s1[|s|]];
      MetaGrows(s, s1[|s|], 1, left);
      assert s1[rec.meta] == s[rec.meta] && Answers(s[rec.meta], left);
      hide Answers;
      MetaAppends(s1[rec.meta], rec, lsn + 1, s'[rec.meta]);
    }
  }

  lemma FinishNames(s: Pages, left: PageId, s1: Pages, rec: Clr, plan: Plan, lsn: Lsn, s': Pages)
    requires Finished(s, left, s1, rec, plan, lsn, s') && !plan.Unlink?
    ensures rec.left == left && 0 < left && 0 < rec.right && ClrWithinFile(rec, |s1|) && ClrDistinct(rec) && Sane(s1, lsn)
    ensures !IsUnlink(rec) && ChoosePlan(s[left], s[rec.right], rec.start) == Ok((plan, rec.separator))
    ensures (rec.newRoot != INVALID <==> s[left].flags.root) && ApplyClr(s1, rec, lsn + 1) == Ok(s') && Flagged(s, left)
  {
    hide ApplyClr;
    hide ChoosePlan;
    hide Sound;
    hide Steady;
    hide Above;
    hide RoomFor;
    hide Framed;
  }

  lemma HalfOffMeta(page: Page)
    requires HalfReady(page)
    ensures OffMeta(page) && GoodGeometry(page)
  {}

  lemma FinishHooked(s: Pages, left: PageId, s1: Pages, rec: Clr, plan: Plan, lsn: Lsn, s': Pages)
    requires Finished(s, left, s1, rec, plan, lsn, s') && !plan.Unlink?
    requires FirmFrom(s[left], s[s[left].next], left, s[left].next, rec.start)
    ensures Hooked(s1, rec, lsn + 1, s') && |s| <= |s1|
    ensures s1[left] == s[left] && (rec.newRoot != INVALID ==> MetaPage(s1, rec.left) == Some(rec.meta))
  {
    TwinsHere(s, left, s1, rec, plan, lsn, s');
    FinishNames(s, left, s1, rec, plan, lsn, s');
    ClrMoves(s1, rec, lsn, s');
    ClrByPage(s1, rec, lsn + 1, s');
    FinishDownlink(s, left, s1, rec, plan, lsn, s');
    FinishMeta(s, left, s1, rec, plan, lsn, s');
    assert ClrHalves(s1[left], s1[rec.right], rec, lsn + 1) == Ok((s'[left], s'[rec.right]));
    assert s1[left].lsn < lsn + 1 && s1[rec.right].lsn < lsn + 1;
    HalfOffMeta(s1[left]);
    HalfOffMeta(s1[rec.right]);
    hide Finished;
    hide ApplyClr;
    hide ClrHalves;
    hide ClrApplied;
    hide ClrMoved;
    hide DownlinkHooked;
    hide MetaHooked;
    hide SidesKept;
    hide HasDownlink;
    hide HalfReady;
    hide FirmFrom;
    hide ChoosePlan;
    RootDropped(s1[left], s1[rec.right], rec, lsn + 1);
    if rec.level > 0 {
      FinishSides(s1[left], s1[rec.right], rec, lsn + 1, s'[left], s'[rec.right], plan);
    }
  }

  /** Only two leaves changed, and only the first lost its flag. */
  ghost predicate LeavesOnly(s: Pages, left: PageId, right: PageId, s': Pages)
  {
    && |s'| == |s| && 0 < left < |s| && 0 < right < |s|
    && (forall p :: p == left || p == right ==> s[p].level == s'[p].level == 0 && s[p].flags.leaf && s'[p].flags.leaf)
    && s'[left].upper == s[left].upper && s'[right].upper == s[right].upper
    && s[left].next == right && !s'[left].flags.splitIncomplete
    && s'[right].flags == s[right].flags && s'[right].next == s[right].next
    && forall p :: 0 <= p < |s| && p != left && p != right ==> s'[p] == s[p]
  }

  lemma SameMeta(s: Pages, left: PageId, right: PageId, s': Pages, root: PageId)
    requires LeavesOnly(s, left, right, s')
    ensures MetaPage(s', root) == MetaPage(s, root)
  {
    assert forall q :: 0 <= q < |s| ==> (Answers(s'[q], root) <==> Answers(s[q], root));
    hide Answers;
    var m, m' := MetaPage(s, root), MetaPage(s', root);
    if m.Some? {
      assert Answers(s'[m.value], root);
    }
    if m'.Some? {
      assert Answers(s[m'.value], root);
    }
  }

  lemma LeavesKeep(s: Pages, left: PageId, right: PageId, s': Pages)
    requires LeavesOnly(s, left, right, s')
    ensures EntriesKept(s, s')
  {
    forall level: nat, e: Entry | Holds(s, level, e) ensures Holds(s', level, e) {
      var p :| 0 < p < |s| && HoldsAt(s[p], level, e);
      HeldBy(s', p, level, e);
    }
  }

  lemma LeavesHang(s: Pages, left: PageId, right: PageId, s': Pages, k: nat, p: PageId)
    requires LeavesOnly(s, left, right, s') && 0 < p < |s| && HungAt(s, p, k)
    ensures HungAt(s', p, k)
  {
    SameMeta(s, left, right, s', p);
    LeavesKeep(s, left, right, s');
    if Parent(s, p, s[p].level).Some? {
      ParentKept(s, s', p, s[p].level);
    }
    hide Answers;
    hide EntriesKept;
    if IsTwin(s, p) && p != right {
      var q :| 0 < q < |s| && TwinOf(s[q], p);
      assert TwinOf(s'[q], p);
    }
  }

  lemma SteadyLeaves(s: Pages, left: PageId, right: PageId, s': Pages)
    requires LeavesOnly(s, left, right, s')
    ensures Steady(s, s', 0)
  {
    LeavesKeep(s, left, right, s');
    hide EntriesKept;
    forall k: nat | Hung(s, k) ensures Hung(s', k) {
      forall p: PageId, id: PageId | 0 < p < |s'| ensures WrittenAt(s', p, id) {
        assert WrittenAt(s, p, id);
      }
      hide HungAt;
      forall p | 0 < p < |s'| ensures HungAt(s', p, k) {
        LeavesHang(s, left, right, s', k, p);
      }
    }
  }

  /** A drained right page above the leaves would have its space back. */
  lemma UnlinkIsLeaf(s: Pages, left: PageId, s1: Pages, rec: Clr, plan: Plan, lsn: Lsn, s': Pages, k: nat)
    requires Finished(s, left, s1, rec, plan, lsn, s') && plan.Unlink? && Hung(s, k)
    ensures LeavesOnly(s, left, rec.right, s')
  {
    TwinsHere(s, left, s1, rec, plan, lsn, s');
    ClrByPage(s1, rec, lsn + 1, s');
    assert HungAt(s, rec.right, k);
    hide ApplyClr;
    hide HasDownlink;
    hide Pending;
    hide Ordered;
    hide Hung;
    hide Sorted;
    DrainedIsLeaf(s[rec.right]);
  }

  lemma DrainedIsLeaf(page: Page)
    requires HalfReady(page) && (Node(page) ==> Tight(page)) && page.entries == [] && !NeverHadEntries(page)
    ensures page.level == 0 && page.flags.leaf
  {}

  lemma RoundSteady(s: Pages, left: PageId, s1: Pages, rec: Clr, plan: Plan, lsn: Lsn, s': Pages, k: nat)
    requires Finished(s, left, s1, rec, plan, lsn, s') && Hung(s, k) && Ordered(s')
    requires FirmFrom(s[left], s[s[left].next], left, s[left].next, rec.start)
    ensures Steady(s, s', 1) && |s'| <= |s| + MAX_LEVEL + 1
  {
    hide Steady;
    hide Hung;
    hide Ordered;
    if plan.Unlink? {
      UnlinkIsLeaf(s, left, s1, rec, plan, lsn, s', k);
      hide Finished;
      SteadyLeaves(s, left, rec.right, s');
      SteadyMore(s, s', 0, 1);
    } else {
      FinishHooked(s, left, s1, rec, plan, lsn, s');
      FinishNames(s, left, s1, rec, plan, lsn, s');
      CascadeSteady(s, left, s1, rec, plan, lsn, s');
      hide Finished;
      hide Hooked;
      SteadyHooked(s1, rec, lsn + 1, s');
      SteadyTransitive(s, s1, s', if s[left].flags.root then 0 else 1, if rec.newRoot != INVALID then 1 else 0);
    }
  }

  lemma CascadeSteady(s: Pages, left: PageId, s1: Pages, rec: Clr, plan: Plan, lsn: Lsn, s': Pages)
    requires Finished(s, left, s1, rec, plan, lsn, s') && !plan.Unlink?
    ensures left < |s| && Steady(s, s1, if s[left].flags.root then 0 else 1) && Ordered(s1)
    ensures |s'| == |s1| <= |s| + MAX_LEVEL + 1
  {
    hide ApplyClr;
    hide ChoosePlan;
    hide Sound;
    hide Steady;
    hide Above;
    hide RoomFor;
    hide Framed;
  }

  /** A page at or below the level of the round that is neither of its halves and
      no meta page is not touched. */
  lemma RoundStill(s: Pages, left: PageId, s1: Pages, rec: Clr, plan: Plan, lsn: Lsn, s': Pages, p: PageId)
    requires Finished(s, left, s1, rec, plan, lsn, s') && p < |s| && p != left && p != s[left].next
    requires s[p].level <= s[left].level && HalfReady(s[p])
    ensures p < |s'| && s'[p] == s[p]
  {
    TwinsHere(s, left, s1, rec, plan, lsn, s');
    ClrByPage(s1, rec, lsn + 1, s');
    hide ApplyClr;
    hide ClrHalves;
    hide ClrDownlink;
    hide ClrMeta;
    hide ChoosePlan;
    hide Sound;
    if !plan.Unlink? {
      CascadeStill(s, s1, s[left].level + 1, p);
      NotNamed(s, left, s1, rec, plan, lsn, s', p);
    }
  }

  lemma CascadeStill(s: Pages, s1: Pages, level: nat, p: PageId)
    requires Above(s, s1, level) && p < |s| && s[p].level < level && HalfReady(s[p])
    ensures s1[p] == s[p]
  {
    hide HasDownlink;
  }

  lemma NotNamed(s: Pages, left: PageId, s1: Pages, rec: Clr, plan: Plan, lsn: Lsn, s': Pages, p: PageId)
    requires Finished(s, left, s1, rec, plan, lsn, s') && p < |s| && p != left && p != s[left].next && !plan.Unlink?
    requires p < |s1| && s1[p] == s[p] && s[p].level <= s[left].level && HalfReady(s[p])
    ensures p !in ClrPages(rec)
  {
    hide ApplyClr;
    hide Above;
    hide Steady;
    hide Sound;
    hide Ordered;
    hide ChoosePlan;
    hide LowerBound;
    hide Accounted;
    hide Sorted;
    hide Framed;
  }

  lemma NotNested(s: Pages, k: nat, p: PageId, q: PageId)
    requires Sound(s) && Hung(s, k) && Flagged(s, p) && Flagged(s, q)
    ensures s[p].next != q
  {
    assert PendingAt(s, p) && HungAt(s, q, k);
    hide HasDownlink;
    hide Parent;
    NoParent(s, q, s[q].level);
  }

  lemma OthersStill(s: Pages, left: PageId, s1: Pages, rec: Clr, plan: Plan, lsn: Lsn, s': Pages, q: PageId, k: nat)
    requires Finished(s, left, s1, rec, plan, lsn, s') && Hung(s, k) && FlagFree(s, s[left].level + 1)
    requires Flagged(s, q) && q != left
    ensures q < |s'| && s'[q] == s[q] && s[q].next < |s| <= |s'| && s'[s[q].next] == s[s[q].next]
  {
    assert Sound(s) && Flagged(s, left) && PendingAt(s, q) && |s| <= |s'|;
    NotNested(s, k, left, q);
    NotNested(s, k, q, left);
    hide Finished;
    hide Hung;
    hide HalfReady;
    hide HasDownlink;
    RoundStill(s, left, s1, rec, plan, lsn, s', q);
    RoundStill(s, left, s1, rec, plan, lsn, s', s[q].next);
  }

  lemma RestScheduled(s: Pages, s': Pages, todo: seq<PageId>)
    requires Scheduled(s, todo) && todo != [] && |s| <= |s'| && forall p :: 0 <= p < |s| ==> s'[p].level == s[p].level
    ensures Scheduled(s', todo[1..])
  {
    forall i, j | 0 <= i < j < |todo| - 1 ensures Before(s', todo[1..][i], todo[1..][j]) {
      assert Before(s, todo[i + 1], todo[j + 1]);
    }
  }

  lemma SameLevels(s: Pages, left: PageId, s': Pages)
    requires OnlyFinished(s, left, s')
    ensures |s| <= |s'| && forall p :: 0 <= p < |s| ==> s'[p].level == s[p].level
  {
    forall p | 0 <= p < |s| ensures s'[p].level == s[p].level {
      assert RoundAt(s, left, s', p);
    }
  }

  lemma StillFirm(s: Pages, left: PageId, s1: Pages, rec: Clr, plan: Plan, lsn: Lsn, s': Pages,
                  tracked: map<PageId, Option<nat>>, todo: seq<PageId>, q: PageId)
    requires AssuredFor(s, tracked, todo) && todo != [] && left == todo[0] && Finished(s, left, s1, rec, plan, lsn, s')
    requires Flagged(s, q) && q != left
    ensures q < |s'| && s'[q].next < |s'| && Firm(s', q, SlotOf(tracked, q))
  {
    FirstIsTop(s, todo);
    assert s[q].next < |s| && Firm(s, q, SlotOf(tracked, q));
    hide Finished;
    hide Hung;
    hide Sound;
    hide FirmFrom;
    OthersStill(s, left, s1, rec, plan, lsn, s', q, |todo|);
  }

  /** After a round that was taken, the rest is assured. */
  lemma RoundAssures(s: Pages, tracked: map<PageId, Option<nat>>, todo: seq<PageId>, s': Pages)
    requires AssuredFor(s, tracked, todo) && todo != [] && Taken(s, todo[0], SlotOf(tracked, todo[0]), s')
    ensures AssuredFor(s', tracked, todo[1..]) && EntriesKept(s, s')
  {
    var left := todo[0];
    var slot := SlotOf(tracked, left);
    RoundReady(s, tracked, todo);
    var s1, rec, plan, lsn :| TakenBy(s, left, slot, s1, rec, plan, lsn, s');
    assert Finished(s, left, s1, rec, plan, lsn, s') && StartSlot(s[left], slot) == Ok(rec.start);
    assert Firm(s, left, slot);
    RoundKeepsSound(s, left, s1, rec, plan, lsn, s');
    RoundFinishes(s, left, s1, rec, plan, lsn, s');
    SameLevels(s, left, s');
    RestScheduled(s, s', todo);
    RoundFlags(s, left, s');
    DropFirst(s, todo, 0);
    assert todo[0..] == todo;
    RoundSteady(s, left, s1, rec, plan, lsn, s', |todo|);
    FirstUnflagged(s, left, s');
    hide OnlyFinished;
    hide TakenBy;
    hide Finished;
    hide Hung;
    hide Sound;
    hide EntriesKept;
    hide Firm;
    hide Scheduled;
    forall q: PageId | Flagged(s', q) ensures s'[q].next < |s'| && Firm(s', q, SlotOf(tracked, q)) {
      StillFirm(s, left, s1, rec, plan, lsn, s', tracked, todo, q);
    }
  }

  lemma FirstUnflagged(s: Pages, left: PageId, s': Pages)
    requires OnlyFinished(s, left, s') && |s| > 0 && !s[0].flags.splitIncomplete
    ensures !s'[0].flags.splitIncomplete
  {
    assert RoundAt(s, left, s', 0);
  }

  // ---- The pass ----

  ghost function Members(order: seq<PageId>): (m: set<PageId>)
    ensures forall p :: p in m <==> p in order
  {
    if order == [] then {} else {order[0]} + Members(order[1..])
  }

  lemma {:induction false} Distinct(s: Pages, order: seq<PageId>)
    requires Scheduled(s, order)
    ensures |Members(order)| == |order|
  {
    if order == [] {
    } else {
      var rest := order[1..];
      forall i, j | 0 <= i < j < |rest| ensures Before(s, rest[i], rest[j]) {
        assert Before(s, order[i + 1], order[j + 1]);
      }
      Distinct(s, rest);
      forall i | 0 <= i < |rest| ensures rest[i] != order[0] {
        assert Before(s, order[0], order[i + 1]);
      }
      assert order[0] !in rest;
    }
  }

  lemma PendingCount(s: Pages, order: seq<PageId>)
    requires Scheduled(s, order) && forall p: PageId :: p in order <==> Flagged(s, p)
    ensures |order| == |PendingPages(s)|
  {
    Distinct(s, order);
    assert Members(order) == PendingPages(s);
  }

  lemma KeptTransitive(s: Pages, s1: Pages, s2: Pages)
    requires EntriesKept(s, s1) && EntriesKept(s1, s2)
    ensures EntriesKept(s, s2)
  {
    hide Holds;
  }

  lemma {:induction false} AssuredAt(trace: seq<Pages>, order: seq<PageId>, tracked: map<PageId, Option<nat>>, i: nat)
    requires 1 <= |trace| <= |order| + 1 && AssuredFor(trace[0], tracked, order) && RoundsTaken(trace, order, tracked)
    requires i < |trace|
    ensures AssuredFor(trace[i], tracked, order[i..]) && EntriesKept(trace[0], trace[i])
  {
    hide AssuredFor;
    hide Taken;
    hide Holds;
    if i == 0 {
      assert order[0..] == order;
    } else {
      AssuredAt(trace, order, tracked, i - 1);
      assert TakenAt(trace, order, tracked, i - 1);
      assert order[i - 1..][1..] == order[i..];
      RoundAssures(trace[i - 1], tracked, order[i - 1..], trace[i]);
      KeptTransitive(trace[0], trace[i - 1], trace[i]);
    }
  }

  /** Success from the file alone: on an assured file every pass finishes every
      split, and no downlink is lost. */
  lemma AssuredPass(s: Pages, tracked: map<PageId, Option<nat>>, order: seq<PageId>, trace: seq<Pages>, ok: bool)
    requires Assured(s, tracked) && Undone(s, tracked, order, trace, ok)
    ensures ok && EntriesKept(s, trace[|order|])
  {
    PendingCount(s, order);
    assert AssuredFor(s, tracked, order) && Sound(s);
    hide Assured;
    hide AssuredFor;
    hide RoundsHold;
    hide RoundsTaken;
    hide Sound;
    hide Scheduled;
    hide EntriesKept;
    var n := Started(trace, order);
    hide FinishableAt;
    hide CleanAt;
    forall i | 0 <= i < n ensures CleanAt(trace, order, tracked, i) && FinishableAt(trace, order, tracked, i) {
      AssuredAt(trace, order, tracked, i);
      TurnReady(trace, order, tracked, i);
    }
    assert AllClean(trace, order, tracked, n) && AllFinishable(trace, order, tracked, n);
    AssuredAt(trace, order, tracked, |order|);
  }

  lemma TurnReady(trace: seq<Pages>, order: seq<PageId>, tracked: map<PageId, Option<nat>>, i: nat)
    requires i < |trace| && i < |order| && AssuredFor(trace[i], tracked, order[i..])
    ensures CleanAt(trace, order, tracked, i) && FinishableAt(trace, order, tracked, i)
  {
    hide AssuredFor;
    hide CleanSlot;
    hide Finishable;
    assert order[i..][0] == order[i];
    RoundReady(trace[i], tracked, order[i..]);
  }

  // ---- A file that is assured ----

  /** The split that the median lookup refuses (module BtreeRefusals) is assured
      once its slot is on record. */
  lemma MedianAssured(slot: nat)
    ensures Assured(MEDIAN_FILE, map[1 := Some(slot)])
  {
    var s := MEDIAN_FILE;
    MedianFile();
    hide Ready;
    hide Sound;
    hide Sane;
    assert PendingPages(s) == {1};
    assert Answers(s[3], 1) && !Answers(s[1], 1) && !Answers(s[2], 1);
    assert MetaPage(s, 1) == Some(3);
    assert HungAt(s, 1, 1) && HungAt(s, 2, 1) && HungAt(s, 3, 1);
    forall p: PageId, id: PageId | 0 < p < |s| ensures WrittenAt(s, p, id) {}
    assert EntryLess(LOW, HIGH);
    assert Firm(s, 1, Some(slot));
  }

  method MedianFinished(slot: nat) returns (r: Result<()>)
    ensures r.Ok?
  {
    MedianAssured(slot);
    MedianFile();
    hide Assured;
    hide Undone;
    hide Ready;
    hide Sane;
    hide Sound;
    hide EntriesKept;
    var u := new UndoPass(MEDIAN_FILE, 3);
    ghost var chain, order, trace;
    r, chain, order, trace := Undo(u, map[1 := Some(slot)], [1, 2]);
    AssuredPass(MEDIAN_FILE, map[1 := Some(slot)], order, trace, r.Ok?);
  }
}

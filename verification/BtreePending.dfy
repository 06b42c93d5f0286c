/** When the undo pass can finish a split, and what a sound file is after it did
    (crates/pg-am-btree/src/index.rs, `finish_incomplete_split`). */
module BtreePending {
  import opened Keys
  import opened Outcome
  import opened Sequences
  import opened BtreePages
  import opened BtreeLog
  import opened BtreeContent
  import opened BtreeSearch
  import opened BtreeFinish
  import opened BtreeInner
  import opened BtreeScan
  import opened BtreeClr
  import opened BtreeFresh
  import opened BtreeCascade
  import opened BtreeRound

  // ---- Sound files with splits pending ----

  ghost predicate HalfReady(page: Page)
  {
    && Accounted(page) && Sorted(page.entries) && WithinKeyBound(page.entries)
    && (page.flags.leaf <==> page.level == 0)
  }

  /** A flagged page and its twin as redo leaves them: no parent points at the
      twin yet. The twin may be flagged itself. */
  ghost predicate PendingAt(s: Pages, p: PageId)
    requires p < |s|
  {
    && Paired(s, p) && HalfReady(s[p]) && HalfReady(s[s[p].next])
    && !s[s[p].next].flags.root && !HasDownlink(s, s[p].next)
  }

  ghost predicate Pending(s: Pages)
  {
    && (forall p: PageId :: Flagged(s, p) ==> PendingAt(s, p))
    && (forall p: PageId, q: PageId :: Flagged(s, p) && Flagged(s, q) && p != q ==> s[p].next != s[q].next)
  }

  ghost predicate Sound(s: Pages)
  {
    Ordered(s) && Pending(s)
  }

  // ---- When a split can be finished ----

  /** The split slot undo passes on: the tracked one, else the median. */
  function StartSlot(left: Page, tracked: Option<nat>): Result<nat>
  {
    match tracked
    case Some(slot) => Ok(slot)
    case None => if |left.entries| < 2 then Err(Corrupted) else Ok(|left.entries| / 2)
  }

  /** The boundary between the halves is not inverted, and something stays
      left of it. */
  predicate HalvesFit(left: Page, right: Page, start: nat, plan: Plan)
  {
    match plan
    case Move => start >= 1
    case NoMove => left.entries == [] || (right.entries != [] && EntryLess(left.entries[0], right.entries[0]))
    case Unlink => true
  }

  ghost function Ascent(s: Pages, left: PageId, separator: Key): Climb
    requires left < |s|
  {
    ClimbFrom(s, left, s[left].level, Entry(separator, s[left].next, 0), |s|)
  }

  /** The climb from the left page ends where the downlink can go. The meta
      record of its own promotion needs room too, unless the search answered
      the right page, which the record has stamped by then. */
  ghost predicate Placeable(s: Pages, left: PageId, separator: Key)
    requires left < |s|
  {
    && Reached(s, Ascent(s, left, separator), s[left].flags.root)
    && (s[left].flags.root && MetaPage(s, left).Some? ==>
          MetaPage(s, left).value == s[left].next || FreeSpace(s[MetaPage(s, left).value]) >= 14)
  }

  ghost predicate CanFinish(s: Pages, left: PageId, start: nat)
    requires left < |s| && s[left].next < |s|
  {
    match ChoosePlan(s[left], s[s[left].next], start)
    case Err(_) => false
    case Ok((plan, separator)) =>
      plan.Unlink? || (HalvesFit(s[left], s[s[left].next], start, plan) && Placeable(s, left, separator))
  }

  /** A round of the undo pass succeeds: there is a start slot, the halves fit,
      and the downlink has somewhere to go or is not needed. */
  ghost predicate Finishable(s: Pages, left: PageId, tracked: Option<nat>)
    requires left < |s| && s[left].next < |s|
  {
    StartSlot(s[left], tracked).Ok? && CanFinish(s, left, StartSlot(s[left], tracked).value)
  }

  /** No promotion of a full parent is published on the wrong page. */
  ghost predicate StraightRound(s: Pages, left: PageId, start: nat)
    requires left < |s| && s[left].next < |s|
  {
    match ChoosePlan(s[left], s[s[left].next], start)
    case Err(_) => true
    case Ok((plan, separator)) => plan.Unlink? || Straight(s, Ascent(s, left, separator), s[left].flags.root)
  }

  /** Nor that of the split itself, and its new root is in order. */
  ghost predicate CleanRound(s: Pages, left: PageId, start: nat)
    requires left < |s| && s[left].next < |s|
  {
    && StraightRound(s, left, start)
    && match ChoosePlan(s[left], s[s[left].next], start)
       case Err(_) => true
       case Ok((plan, separator)) =>
         !plan.Unlink? && s[left].flags.root && MetaPage(s, left).Some? ==>
           s[MetaPage(s, left).value].level == 0 && (separator != [] || left < s[left].next)
  }

  lemma MoveFits(left: Page, right: Page, start: nat)
    requires Accounted(left) && Accounted(right) && right.level == left.level
    requires right.entries == [] && NeverHadEntries(right) && 1 <= start < |left.entries|
    ensures ApplySplitCopy(left, right, start, true).Ok? && GoodGeometry(ApplySplitCopy(left, right, start, true).value.0)
  {
    var es := left.entries;
    assert es == es[..start] + es[start..];
    TotalBytesConcat(left.level, es[..start], es[start..]);
    AppendAllExact(right, es[start..]);
    RebuildExact(left, start);
  }

  lemma KeepFits(left: Page, right: Page)
    requires HalfReady(left) && left.entries != [] && right.entries != []
    ensures var at := SearchSlot(left.entries, right.entries[0]);
            && (at == 0 <==> !EntryLess(left.entries[0], right.entries[0]))
            && (at > 0 ==> ApplySplitCopy(left, right, at, false).Ok?
                           && GoodGeometry(ApplySplitCopy(left, right, at, false).value.0))
  {
    BisectSorted(left.entries, right.entries[0], 0, |left.entries|);
    var at := SearchSlot(left.entries, right.entries[0]);
    RebuildExact(left, at);
    RebuiltTwice(left, at);
  }

  /** The record's first step is refused exactly when the halves do not fit. */
  lemma HalvesIff(left: Page, right: Page, rec: Clr, lsn: Lsn, plan: Plan)
    requires left.lsn < lsn && right.lsn < lsn && HalfReady(left) && HalfReady(right) && right.level == left.level
    requires ChoosePlan(left, right, rec.start) == Ok((plan, rec.separator)) && (IsUnlink(rec) <==> plan.Unlink?)
    ensures ClrHalves(left, right, rec, lsn).Ok? <==> HalvesFit(left, right, rec.start, plan)
  {
    hide TotalBytes;
    hide Sorted;
    hide WithinKeyBound;
    if plan.Move? && rec.start >= 1 {
      MoveFits(left, right, rec.start);
      hide ApplySplitCopy;
    } else if plan.NoMove? && left.entries != [] {
      KeepFits(left, right);
      hide ApplySplitCopy;
    }
  }

  /** The whole record, after the cascade, is refused exactly when the halves do
      not fit or the meta record does not. */
  lemma FinishIff(s1: Pages, rec: Clr, plan: Plan, lsn: Lsn)
    requires Sane(s1, lsn) && ClrWithinFile(rec, |s1|) && ClrDistinct(rec)
    requires HalfReady(s1[rec.left]) && HalfReady(s1[rec.right]) && s1[rec.right].level == s1[rec.left].level
    requires ChoosePlan(s1[rec.left], s1[rec.right], rec.start) == Ok((plan, rec.separator))
    requires (IsUnlink(rec) <==> plan.Unlink?)
    requires rec.newRoot == INVALID && rec.parent != INVALID ==>
               RoomFor(s1, rec.parent, rec.slot, rec.level + 1, Entry(rec.separator, rec.right, 0))
    requires rec.meta != INVALID ==> GoodGeometry(s1[rec.meta])
    ensures ApplyClr(s1, rec, lsn + 1).Ok? <==>
            HalvesFit(s1[rec.left], s1[rec.right], rec.start, plan)
            && (rec.meta != INVALID ==> FreeSpace(s1[rec.meta]) >= 14)
  {
    hide TotalBytes;
    hide LowerBound;
    HalvesIff(s1[rec.left], s1[rec.right], rec, lsn + 1, plan);
    SeparatorBound(s1[rec.left], s1[rec.right], rec.start);
    hide ClrHalves;
    hide HalvesFit;
    hide ChoosePlan;
    RootApplies(s1[rec.newRoot], rec, lsn + 1);
    hide ClrNewRoot;
    if rec.meta != INVALID && FreeSpace(s1[rec.meta]) < 14 {
      MetaNeedsRoom(s1, rec, lsn);
    }
  }

  lemma SeparatorBound(left: Page, right: Page, start: nat)
    requires HalfReady(left) && HalfReady(right) && ChoosePlan(left, right, start).Ok?
    ensures |ChoosePlan(left, right, start).value.1| <= MAX_INDEX_KEY_BYTES
  {}

  /** The twin pages are not touched by the cascade above them. */
  lemma TwinsUnmoved(s: Pages, left: PageId, s1: Pages)
    requires Flagged(s, left) && PendingAt(s, left) && Above(s, s1, s[left].level + 1)
    ensures s1[left] == s[left] && s1[s[left].next] == s[s[left].next]
  {
    hide HasDownlink;
    hide Accounted;
    hide Sorted;
  }

  // ---- The record of a round ----

  /** What the cascade hands to the round. */
  ghost predicate Handed(s: Pages, left: PageId, s1: Pages, plan: Plan, place: Spot)
    requires left < |s|
  {
    if plan.Unlink? then s1 == s && place == Spot(INVALID, 0, INVALID, INVALID)
    else Framed(s, s1) && Usable(s, s1, place, left, s[left].level)
  }

  lemma RecordNames(s: Pages, left: PageId, s1: Pages, plan: Plan, place: Spot, start: nat, separator: Key)
    requires Flagged(s, left) && Paired(s, left) && Handed(s, left, s1, plan, place)
    ensures var rec := ClrAt(left, s[left].next, s[left].level, start, separator, place);
            && ClrWithinFile(rec, |s1|) && ClrDistinct(Effective(rec)) && (IsUnlink(Effective(rec)) <==> plan.Unlink?)
            && (rec.meta == rec.right ==> rec.newRoot != INVALID && rec.newRoot != rec.right)
            && (Effective(rec) == rec || rec.meta == rec.right)
            && (plan.Unlink? || DownlinkPage(Effective(rec)) != INVALID)
            && (rec.newRoot != INVALID ==>
                  rec.newRoot == |s| && |s1| == |s| + 1 && s1[..|s|] == s && rec.level < MAX_LEVEL
                  && PublishedOn(s, Effective(rec)))
            && (s[left].flags.root && !plan.Unlink? ==> rec.newRoot != INVALID)
            && (rec.newRoot == INVALID && rec.parent != INVALID ==> !s1[rec.parent].flags.leaf)
            && (rec.meta != INVALID ==> s1[rec.meta].flags == Flags(false, false, false) && GoodGeometry(s1[rec.meta]))
  {
    if !plan.Unlink? {
      assert FrameAt(s[left], s1[left]) && FrameAt(s[s[left].next], s1[s[left].next]);
      if s[left].flags.root {
        assert Answers(s[place.meta], left);
        assert s1[place.meta] == s1[..|s|][place.meta];
      }
    }
  }

  /** The outcome of a round, in any file and in a sound one. */
  lemma RoundRecorded(s: Pages, left: PageId, s1: Pages, plan: Plan, place: Spot, start: nat, separator: Key, lsn: Lsn,
                      s': Pages)
    requires Flagged(s, left) && Paired(s, left) && Handed(s, left, s1, plan, place) && Sane(s1, lsn)
    requires ChoosePlan(s[left], s[s[left].next], start) == Ok((plan, separator))
    requires var rec := ClrAt(left, s[left].next, s[left].level, start, separator, place);
             ClrWithinFile(rec, |s1|) && ApplyClr(s1, rec, lsn + 1) == Ok(s')
    ensures var rec := Effective(ClrAt(left, s[left].next, s[left].level, start, separator, place));
            FinishedBy(s, left, s1, rec, plan, lsn, s')
  {
    hide ApplyClr;
    hide ChoosePlan;
    RecordNames(s, left, s1, plan, place, start, separator);
    var rec := ClrAt(left, s[left].next, s[left].level, start, separator, place);
    if rec.meta == rec.right {
      MetaOnRight(s1, rec, lsn);
    }
    FramedGrows(s, ZERO_PAGE);
  }

  lemma RoundIff(s: Pages, left: PageId, s1: Pages, plan: Plan, place: Spot, start: nat, separator: Key, lsn: Lsn)
    requires Flagged(s, left) && PendingAt(s, left) && Handed(s, left, s1, plan, place) && Sane(s1, lsn)
    requires ChoosePlan(s[left], s[s[left].next], start) == Ok((plan, separator))
    requires !plan.Unlink? ==> Above(s, s1, s[left].level + 1) && Reached(s, Ascent(s, left, separator), s[left].flags.root)
    requires !plan.Unlink? && !s[left].flags.root ==>
               RoomFor(s1, place.parent, place.slot, s[left].level + 1, Entry(separator, s[left].next, 0))
    ensures var rec := ClrAt(left, s[left].next, s[left].level, start, separator, place);
            ClrWithinFile(rec, |s1|) && (ApplyClr(s1, rec, lsn + 1).Ok? <==> CanFinish(s, left, start))
  {
    hide ApplyClr;
    hide HalfReady;
    hide Above;
    hide HasDownlink;
    hide RoomFor;
    hide Reached;
    RecordNames(s, left, s1, plan, place, start, separator);
    var rec := ClrAt(left, s[left].next, s[left].level, start, separator, place);
    if rec.meta == rec.right {
      MetaOnRight(s1, rec, lsn);
    }
    if !plan.Unlink? {
      TwinsUnmoved(s, left, s1);
      if s[left].flags.root {
        assert s1[place.meta] == s1[..|s|][place.meta];
      }
    }
    FinishIff(s1, Effective(rec), plan, lsn);
  }
}

/** The undo cascade (crates/pg-am-btree/src/index.rs): finding room for a
    downlink by splitting the parent, its parent, and so on up to the root. */
module BtreeCascade {
  import opened Keys
  import opened Outcome
  import opened Sequences
  import opened BtreePages
  import opened BtreeLog
  import opened BtreeContent
  import opened BtreeSearch
  import opened BtreeFinish
  import opened BtreeInner
  import opened BtreeScan
  import opened BtreeClr
  import opened BtreeFresh
  import opened BtreeRooted
  import opened BtreeRound
  import opened BtreeEvents

  // ---- Where a cascade leads ----

  /** How the climb from a page through its parents ends. */
  datatype Climb =
    | Orphan                        // a page no parent points at
    | Stuck                         // a full parent that cannot be split
    | Room                          // a parent with room
    | Top(root: PageId, level: nat) // a root, which has to be promoted

  /** The climb of a downlink `d` for the level above `left`: past every parent
      that is full, each handing up the separator its own split would make. A
      page allocated on the way takes the next id. */
  ghost function ClimbFrom(s: Pages, left: PageId, level: nat, d: Entry, newId: PageId): (c: Climb)
    ensures c.Top? ==> c.root < |s| && s[c.root].flags.root && c.level >= level
    decreases MAX_LEVEL - level, 0
  {
    if left >= |s| then Orphan
    else if s[left].flags.root then Top(left, level)
    else if level >= MAX_LEVEL || Parent(s, left, level).None? then Orphan
    else ClimbPast(s, Parent(s, left, level).value, level + 1, d, newId)
  }

  ghost function ClimbPast(s: Pages, p: PageId, level: nat, d: Entry, newId: PageId): (c: Climb)
    ensures c.Top? ==> c.root < |s| && s[c.root].flags.root && c.level >= level
    decreases MAX_LEVEL - level, 2
  {
    if p < |s| && FreeSpace(s[p]) >= EntryCost(level, d) then Room
    else ClimbSplit(s, p, level, d, newId)
  }

  ghost function ClimbSplit(s: Pages, p: PageId, level: nat, d: Entry, newId: PageId): (c: Climb)
    ensures c.Top? ==> c.root < |s| && s[c.root].flags.root && c.level >= level
    decreases MAX_LEVEL - level, 1
  {
    if p >= |s| || s[p].flags.splitIncomplete || SplitSlot(level, s[p].entries, d).None? then Stuck
    else
      var start := SplitSlot(level, s[p].entries, d).value;
      ClimbFrom(s, p, level, Entry(s[p].entries[start].key, newId, 0), newId + 1)
  }

  /** The climb ends where the downlink can go: a page with room, or a root
      that can still be promoted and whose meta search answers. When the
      cascade itself writes the promotion (`!own`), the page it answers needs
      room for one more record. */
  ghost predicate Reached(s: Pages, c: Climb, own: bool)
  {
    || c.Room?
    || (c.Top? && c.level < MAX_LEVEL && MetaPage(s, c.root).Some?
        && (own || FreeSpace(s[MetaPage(s, c.root).value]) >= 14))
  }

  /** The search of a promotion in the cascade answers a page of level 0. */
  ghost predicate Straight(s: Pages, c: Climb, own: bool)
  {
    !own && c.Top? && MetaPage(s, c.root).Some? ==> s[MetaPage(s, c.root).value].level == 0
  }

  /** An empty page at the end of the file changes none of this. */
  lemma {:induction false} ClimbGrows(s: Pages, page: Page, left: PageId, level: nat, d: Entry, newId: PageId)
    requires page.entries == [] && left < |s|
    ensures ClimbFrom(s + [page], left, level, d, newId) == ClimbFrom(s, left, level, d, newId)
    decreases MAX_LEVEL - level
  {
    hide SplitSlot;
    var s' := s + [page];
    assert s'[left] == s[left];
    ParentGrows(s, page, 1, left, level);
    if s[left].flags.root || level >= MAX_LEVEL || Parent(s, left, level).None? {
    } else {
      var p := Parent(s, left, level).value;
      assert s'[p] == s[p];
      if FreeSpace(s[p]) < EntryCost(level + 1, d) && SplitSlot(level + 1, s[p].entries, d).Some? {
        var start := SplitSlot(level + 1, s[p].entries, d).value;
        ClimbGrows(s, page, p, level + 1, Entry(s[p].entries[start].key, newId, 0), newId + 1);
      }
      assert ClimbSplit(s', p, level + 1, d, newId) == ClimbSplit(s, p, level + 1, d, newId)
             || FreeSpace(s[p]) >= EntryCost(level + 1, d);
      assert ClimbPast(s', p, level + 1, d, newId) == ClimbPast(s, p, level + 1, d, newId);
    }
  }

  lemma ReachedGrows(s: Pages, page: Page, c: Climb, own: bool)
    requires page.entries == []
    ensures Reached(s + [page], c, own) <==> Reached(s, c, own)
    ensures Straight(s + [page], c, own) <==> Straight(s, c, own)
  {
    if c.Top? {
      MetaGrows(s, page, 1, c.root);
    }
  }

  // ---- Places for a downlink ----

  /** Where a compensation record puts its downlink. */
  datatype Spot = Spot(parent: PageId, slot: nat, newRoot: PageId, meta: PageId)

  function ClrAt(left: PageId, right: PageId, level: nat, start: nat, separator: Key, place: Spot): Clr
  {
    Clr(left, right, level, start, place.parent, separator, place.slot, place.newRoot, place.meta)
  }

  /** Above a root: a page just reserved and the page the meta search answered.
      Otherwise a page of the level above that is not a leaf. */
  ghost predicate Usable(s0: Pages, s: Pages, place: Spot, left: PageId, level: nat)
    requires left < |s0|
  {
    if s0[left].flags.root then
      && level < MAX_LEVEL && place.parent == INVALID && place.newRoot == |s0| < |s| == |s0| + 1
      && s[..|s0|] == s0 && s[|s0|] == ZERO_PAGE.(lsn := s[|s0|].lsn) && Some(place.meta) == MetaPage(s0, left)
    else
      && place.newRoot == INVALID && place.meta == INVALID
      && 0 < place.parent < |s| && s[place.parent].level == level + 1 && !s[place.parent].flags.leaf
  }

  /** A downlink that can be added to a sound file. */
  ghost predicate Addable(s: Pages, d: Entry)
  {
    Ordered(s) && |d.key| <= MAX_INDEX_KEY_BYTES && !HasDownlink(s, d.page)
  }

  /** The record of a cascade split names different pages, none of them a leaf
      or flagged but the parent. */
  lemma PlacedInner(s0: Pages, s1: Pages, s: Pages, rec: Clr, place: Spot)
    requires 0 < rec.left < |s0| == rec.right && |s1| == |s0| + 1 && s1[..|s0|] == s0
    requires s1[rec.left].level == rec.level > 0
    requires !s0[rec.left].flags.leaf && !s0[rec.left].flags.splitIncomplete
    requires s1[rec.right].entries == [] && !s1[rec.right].flags.leaf && !s1[rec.right].flags.splitIncomplete
    requires s1[rec.right].level == rec.level
    requires rec == ClrAt(rec.left, rec.right, rec.level, rec.start, rec.separator, place)
    requires Framed(s1, s) && Usable(s1, s, place, rec.left, rec.level)
    ensures SplitsInner(s0, s, rec) && rec.left < |s| && rec.right < |s| && !IsUnlink(rec)
  {
    assert s1[rec.left] == s0[rec.left];
    assert FrameAt(s1[rec.left], s[rec.left]) && FrameAt(s1[rec.right], s[rec.right]);
    if s1[rec.left].flags.root {
      assert Answers(s1[place.meta], rec.left);
      assert s[place.meta] == s[..|s1|][place.meta];
    }
  }

  lemma PlacedSplit(s0: Pages, s1: Pages, s: Pages, rec: Clr, place: Spot)
    requires 0 < rec.left < rec.right == |s0| && s0[rec.left].level == rec.level
    requires 0 < rec.level < MAX_LEVEL && SplitsInner(s0, s, rec)
    requires Internal(s0[rec.left], |s0|) && 1 <= rec.start < |s0[rec.left].entries|
    requires rec == ClrAt(rec.left, rec.right, rec.level, rec.start, s0[rec.left].entries[rec.start].key, place)
    requires |s1| == |s0| + 1 && s1[..|s0|] == s0
    requires s1[rec.right] == InitRightPage(rec.left, s0[rec.left].next, rec.level).(lsn := s1[rec.right].lsn)
    requires Above(s1, s, rec.level + 1) && Usable(s1, s, place, rec.left, rec.level)
    requires if s0[rec.left].flags.root then s[place.meta].level == 0 && FreeSpace(s[place.meta]) >= 14
             else RoomFor(s, place.parent, place.slot, rec.level + 1, Entry(rec.separator, rec.right, 0))
    ensures FreshSplit(s, rec) && s[rec.left] == s0[rec.left]
  {
    hide Internal;
    hide HasDownlink;
    hide LowerBound;
    assert s1[rec.left] == s0[rec.left];
    assert s[rec.left] == s0[rec.left] && s[rec.right] == s1[rec.right];
    if s0[rec.left].flags.root {
      assert Answers(s1[place.meta], rec.left);
      assert s[place.meta] == s[..|s1|][place.meta];
    }
  }

  // ---- What the methods promise in a sound file ----

  /** A downlink is placed exactly if the climb ends where it can go, and the
      file stays sound as long as no promotion on the way was published on the
      wrong page: no downlink is lost, and at most one root is promoted. */
  ghost predicate PlaceOutcome(s: Pages, left: PageId, level: nat, d: Entry, r: Result<Spot>, s': Pages)
    requires left < |s|
  {
    var c, own := ClimbFrom(s, left, level, d, |s|), s[left].flags.root;
    Addable(s, d) && Straight(s, c, own) ==>
      && (r.Ok? <==> Reached(s, c, own))
      && (r.Ok? ==> Ordered(s') && Above(s, s', level + 1) && Steady(s, s', if own then 0 else 1))
      && (r.Ok? && !own ==>
            RoomFor(s', r.value.parent, r.value.slot, level + 1, d) && Inner(s'[r.value.parent]))
  }

  ghost predicate Splits(s: Pages, p: PageId, level: nat, pending: Entry, c: Climb)
    requires p < |s|
  {
    && Ordered(s) && Inner(s[p]) && |pending.key| <= MAX_INDEX_KEY_BYTES && pending !in s[p].entries
    && Straight(s, c, false)
  }

  ghost predicate SlotOutcome(s: Pages, p: PageId, level: nat, d: Entry, r: Result<(PageId, nat)>, s': Pages)
    requires p < |s|
  {
    var c := ClimbPast(s, p, level, d, |s|);
    Splits(s, p, level, d, c) ==>
      && (r.Ok? <==> Reached(s, c, false))
      && (r.Ok? ==> Ordered(s') && Above(s, s', level) && Steady(s, s', 1))
      && (r.Ok? ==> RoomFor(s', r.value.0, r.value.1, level, d) && Inner(s'[r.value.0]))
  }

  ghost predicate SplitOutcome(s: Pages, p: PageId, level: nat, pending: Entry, r: Result<(PageId, Entry)>, s': Pages)
    requires p < |s|
  {
    var c := ClimbSplit(s, p, level, pending, |s|);
    Splits(s, p, level, pending, c) ==>
      && (r.Ok? <==> Reached(s, c, false))
      && (r.Ok? ==> Ordered(s') && Above(s, s', level) && Steady(s, s', 1))
      && (r.Ok? ==>
            var half := if EntryLess(pending, r.value.1) then p else r.value.0;
            HasRoom(s', half, level, pending) && Inner(s'[half]))
      && (r.Ok? ==> NewHalf(s', r.value.0, level, r.value.1))
  }

  /** The page begins with `first`, and some page above has a downlink to it under
      that key. */
  ghost predicate NewHalf(s: Pages, p: PageId, level: nat, first: Entry)
  {
    p < |s| && s[p].entries != [] && s[p].entries[0] == first
    && exists q :: 0 <= q < |s| && s[q].level == level + 1 && Entry(first.key, p, 0) in s[q].entries
  }

  /** The page file as the undo pass sees it: recovery is single-threaded. */
  class UndoPass {
    var pages: Pages
    var lsn: Lsn
    // The log of the pass, on top of everything up to `base`, and the file
    // after each of its events.
    ghost const base: Lsn
    ghost var hist: seq<Pages>
    ghost var events: seq<Event>

    ghost predicate Valid()
      reads this
    {
      && Sane(pages, lsn) && UndoRun(base, hist, events) && base <= lsn
      && |hist| == |events| + 1 && hist[|events|] == pages
    }

    constructor (pages: Pages, lsn: Lsn)
      requires Sane(pages, lsn)
      ensures Valid() && this.pages == pages && this.lsn == lsn
      ensures base == lsn && hist == [pages] && events == []
    {
      this.pages, this.lsn := pages, lsn;
      base, hist, events := lsn, [pages], [];
    }

    /** A pass that takes over from an interrupted one. */
    constructor Resume(lsn: Lsn, pages: Pages, ghost base: Lsn, ghost hist: seq<Pages>, ghost events: seq<Event>)
      requires Sane(pages, lsn) && UndoRun(base, hist, events) && hist[|events|] == pages && base <= lsn
      ensures Valid() && this.pages == pages && this.lsn == lsn
      ensures this.base == base && this.hist == hist && this.events == events
    {
      this.pages, this.lsn := pages, lsn;
      this.base, this.hist, this.events := base, hist, events;
    }

    /** The event is in the log, and the pages are what it left. */
    ghost method Note(i: nat, e: Event)
      requires UndoRun(base, hist, events) && i <= |events| && Occurs(base, hist[|events|], e, pages)
      requires Framed(hist[i], pages) || Completes(hist[i], hist[|events|], e, pages)
      modifies `hist, `events
      ensures UndoRun(base, hist, events) && hist[|events|] == pages
      ensures hist == old(hist) + [pages] && events == old(events) + [e]
    {
      assert |hist| == |events| + 1;
      hide UndoRun;
      hide Framed;
      hide Completes;
      hide Occurs;
      RunExtends(base, hist, events, i, e, pages);
      hist, events := hist + [pages], events + [e];
    }

    /** `new_page`, initialised and logged by a post-image. */
    method NewPage(page: Page) returns (id: PageId)
      requires Valid() && page.lsn == 0 && page.level <= MAX_LEVEL && !page.flags.leaf && !page.flags.splitIncomplete
      modifies this
      ensures Valid() && lsn == old(lsn) + 1
      ensures id == |old(pages)| && pages == old(pages) + [page.(lsn := lsn)]
      ensures hist == old(hist) + [pages] && events == old(events) + [Create(id, pages[id])]
    {
      hide UndoRun;
      lsn := lsn + 1;
      id := |pages|;
      FramedGrows(pages, page.(lsn := lsn));
      pages := pages + [page.(lsn := lsn)];
      Note(|events|, Create(id, pages[id]));
    }

    /** `new_page`, for a page that its first record will write from scratch. */
    method ReservePage() returns (id: PageId)
      requires Valid()
      modifies this
      ensures Valid() && lsn == old(lsn) && id == |old(pages)| && pages == old(pages) + [ZERO_PAGE]
      ensures hist == old(hist) + [pages] && events == old(events) + [Reserve]
    {
      hide UndoRun;
      id := |pages|;
      FramedGrows(pages, ZERO_PAGE);
      pages := pages + [ZERO_PAGE];
      Note(|events|, Reserve);
    }

    /** `find_parent_page`: the first parent in the file, and a refusal exactly
        when there is none. */
    method FindParent(child: PageId, level: nat) returns (r: Result<PageId>)
      ensures r.Ok? <==> Parent(pages, child, level).Some?
      ensures r.Ok? ==> Parent(pages, child, level) == Some(r.value) && IsParent(pages[r.value], child, level)
    {
      var pid := 1;
      while pid < |pages|
        invariant pid >= 1 && ParentFrom(pages, pid, child, level) == Parent(pages, child, level)
      {
        if GoodGeometry(pages[pid]) && !pages[pid].flags.leaf && pages[pid].level == level + 1 {
          var found := PointsAt(pages[pid].entries, child);
          if found {
            return Ok(pid);
          }
        }
        pid := pid + 1;
      }
      return Err(Corrupted);
    }

    /** `find_meta_page_for_root`: the first page whose last entry reads as a
        meta record of the root, whatever its level. */
    method FindMeta(root: PageId) returns (r: Result<PageId>)
      ensures r.Ok? <==> MetaPage(pages, root).Some?
      ensures r.Ok? ==> MetaPage(pages, root) == Some(r.value)
    {
      var pid := 1;
      while pid < |pages|
        invariant pid >= 1 && MetaFrom(pages, pid, root) == MetaPage(pages, root)
      {
        var page := pages[pid];
        if GoodGeometry(page) && page.flags == Flags(false, false, false) && page.entries != [] {
          if RecordRoot(page.level, page.entries[|page.entries| - 1]) == Some(root) {
            return Ok(pid);
          }
        }
        pid := pid + 1;
      }
      return Err(Corrupted);
    }

    /** `emit_and_apply_clr`: a pre-image of every page the record names, the
        record, then its application step by step. A refusal leaves the steps
        before it applied. */
    method EmitAndApplyClr(rec: Clr) returns (r: Result<Lsn>, ghost images: map<PageId, Page>)
      requires Sane(pages, lsn) && ClrWithinFile(rec, |pages|)
      modifies `pages, `lsn
      ensures old(lsn) < lsn && Sane(old(pages), lsn - 1) && ImagesOf(old(pages), rec, images, lsn)
      ensures r.Ok? <==> ApplyClr(old(pages), rec, lsn).Ok?
      ensures r.Ok? ==> r.value == lsn && ApplyClr(old(pages), rec, lsn) == Ok(pages)
      ensures r.Err? ==>
                || pages == old(pages)
                || Ok(pages) == ApplyHalves(old(pages), rec, lsn)
                || (ApplyHalves(old(pages), rec, lsn).Ok?
                    && Ok(pages) == ApplyDownlink(ApplyHalves(old(pages), rec, lsn).value, rec, lsn))
    {
      hide ApplyHalves;
      hide ApplyDownlink;
      hide ApplyMeta;
      var named := [rec.left, rec.right, rec.parent, rec.newRoot, rec.meta];
      images := map[];
      for i := 0 to |named|
        invariant pages == old(pages) && old(lsn) <= lsn
        invariant forall j :: 0 <= j < i && named[j] != INVALID ==> named[j] in images
        invariant forall p :: p in images ==> p < |pages| && images[p] == pages[p].(lsn := images[p].lsn) && images[p].lsn <= lsn
      {
        if named[i] != INVALID {
          lsn := lsn + 1;
          images := images[named[i] := pages[named[i]].(lsn := lsn)];
        }
      }
      lsn := lsn + 1;
      AllImaged(named, rec);
      var halves := ApplyHalves(pages, rec, lsn);
      if halves.Err? {
        return Err(Corrupted), images;
      }
      pages := halves.value;
      var linked := ApplyDownlink(pages, rec, lsn);
      if linked.Err? {
        return Err(Corrupted), images;
      }
      pages := linked.value;
      var published := ApplyMeta(pages, rec, lsn);
      if published.Err? {
        return Err(Corrupted), images;
      }
      pages := published.value;
      return Ok(lsn), images;
    }

    /** Where the downlink `(separator, right)` goes: a new root above a root
        page, otherwise the parent or, when that is full, a half of it. */
    method PlaceDownlink(left: PageId, level: nat, separator: Key, right: PageId) returns (r: Result<Spot>)
      requires Valid() && left < |pages| && pages[left].level == level && right < |pages|
      modifies this
      ensures r.Ok? ==> Valid() && old(lsn) <= lsn && Framed(old(pages), pages)
      ensures r.Ok? ==> Usable(old(pages), pages, r.value, left, level)
      ensures r.Ok? ==> |pages| + level <= |old(pages)| + MAX_LEVEL + 1
      ensures UndoRun(base, hist, events) && old(hist) <= hist && old(events) <= events
      ensures PlaceOutcome(old(pages), left, level, Entry(separator, right, 0), r, pages)
      decreases MAX_LEVEL - level, 0
    {
      hide PlaceOutcome;
      hide SlotOutcome;
      hide Framed;
      hide UndoRun;
      ghost var s := pages;
      var d := Entry(separator, right, 0);
      if pages[left].flags.root {
        if level >= MAX_LEVEL {
          RootRefused(s, left, level, d, pages);
          return Err(Corrupted);
        }
        var newRoot := ReservePage();
        PromotionGrows(s, pages[newRoot], left, level);
        var meta := FindMeta(left);
        if meta.Err? {
          RootRefused(s, left, level, d, pages);
          return Err(Corrupted);
        }
        r := Ok(Spot(INVALID, 1, newRoot, meta.value));
        RootPlaced(s, left, level, d, r, pages);
        return;
      }
      var parent := FindParent(left, level);
      if parent.Err? {
        OrphanRefused(s, left, level, d, pages);
        return Err(Corrupted);
      }
      var place := EnsureDownlinkSlot(parent.value, level + 1, d);
      r := if place.Ok? then Ok(Spot(place.value.0, place.value.1, INVALID, INVALID)) else Err(Corrupted);
      ParentPlaced(s, left, level, d, parent.value, place, r, pages);
    }

    /** `ensure_downlink_slot`: a page at `level` with room for the downlink,
        and its sorted slot there. */
    method EnsureDownlinkSlot(parent: PageId, level: nat, downlink: Entry) returns (r: Result<(PageId, nat)>)
      requires Valid() && 0 < parent < |pages| && pages[parent].level == level > 0
      requires GoodGeometry(pages[parent]) && !pages[parent].flags.leaf
      modifies this
      ensures r.Ok? ==> Valid() && old(lsn) <= lsn && Framed(old(pages), pages)
      ensures r.Ok? ==> 0 < r.value.0 < |pages| && pages[r.value.0].level == level && !pages[r.value.0].flags.leaf
      ensures r.Ok? ==> |pages| + level <= |old(pages)| + MAX_LEVEL + 2
      ensures UndoRun(base, hist, events) && old(hist) <= hist && old(events) <= events
      ensures SlotOutcome(old(pages), parent, level, downlink, r, pages)
      decreases MAX_LEVEL - level, 2
    {
      hide SlotOutcome;
      hide SplitOutcome;
      hide UndoRun;
      ghost var s := pages;
      var target := parent;
      if FreeSpace(pages[parent]) < EntryCost(level, downlink) {
        var outcome := SplitPageInUndo(parent, level, downlink);
        if outcome.Err? {
          NoSlot(s, parent, level, downlink, outcome, pages);
          return Err(Corrupted);
        }
        var (right, rightFirst) := outcome.value;
        target := if EntryLess(downlink, rightFirst) then parent else right;
        assert FrameAt(s[parent], pages[parent]);
        var slot := SearchPage(pages[target].entries, downlink);
        SlotOnHalf(s, parent, level, downlink, outcome, target, slot, pages);
        return Ok((target, slot));
      }
      FramedGrows(s, ZERO_PAGE);
      var slot := SearchPage(pages[target].entries, downlink);
      SlotOnParent(s, parent, level, downlink, slot);
      return Ok((target, slot));
    }

    /** `split_page_in_undo`: a whole split in one compensation record. */
    method SplitPageInUndo(left: PageId, level: nat, pending: Entry) returns (r: Result<(PageId, Entry)>)
      requires Valid() && 0 < left < |pages| && pages[left].level == level > 0
      requires GoodGeometry(pages[left]) && !pages[left].flags.leaf
      modifies this
      ensures r.Ok? ==> Valid() && old(lsn) <= lsn && Framed(old(pages), pages)
      ensures r.Ok? ==> |old(pages)| == r.value.0 < |pages| && pages[r.value.0].level == level && !pages[r.value.0].flags.leaf
      ensures r.Ok? ==> |pages| + level <= |old(pages)| + MAX_LEVEL + 2
      ensures UndoRun(base, hist, events) && old(hist) <= hist && old(events) <= events
      ensures SplitOutcome(old(pages), left, level, pending, r, pages)
      decreases MAX_LEVEL - level, 1
    {
      hide SplitOutcome;
      hide PlaceOutcome;
      hide SplitsInner;
      hide Usable;
      hide ApplyClr;
      hide SplitSlot;
      hide Framed;
      hide UndoRun;
      ghost var s0, first := pages, |events|;
      var page := pages[left];
      if page.flags.splitIncomplete {
        SplitBlocked(s0, left, level, pending, pages);
        return Err(Corrupted);
      }
      var start := ChooseSplitSlot(level, page.entries, Some(pending));
      if start.Err? {
        SplitBlocked(s0, left, level, pending, pages);
        return Err(Corrupted);
      }
      var right := NewPage(InitRightPage(left, page.next, level));
      ghost var s1 := pages;
      var rightFirst := page.entries[start.value];
      var place := PlaceDownlink(left, level, rightFirst.key, right);
      if place.Err? {
        SplitUnplaced(s0, s1, left, level, pending, start.value, place, pages);
        return Err(Corrupted);
      }
      var rec := ClrAt(left, right, level, start.value, rightFirst.key, place.value);
      ghost var s := pages;
      PlacedInner(s0, s1, s, rec, place.value);
      NamesDistinct(s0, s, rec);
      assert hist[first] == old(hist)[first];
      var done := EmitSplit(rec, place.value, first, s0, s1);
      r := if done.Ok? then Ok((right, rightFirst)) else Err(Corrupted);
      SplitEmitted(s0, s1, s, rec, place.value, lsn - 1, r, pages, pending);
    }

    /** The record of a split that began on file `first` of the pass. */
    method EmitSplit(rec: Clr, ghost place: Spot, ghost first: nat, ghost s0: Pages, ghost s1: Pages)
      returns (r: Result<Lsn>)
      requires Valid() && first <= |events| && hist[first] == s0
      requires ClrWithinFile(rec, |pages|) && SplitsInner(s0, pages, rec)
      requires |s1| == |s0| + 1 && s1[..|s0|] == s0 && rec.left < |s0| && 0 < rec.right == |s0| && Framed(s1, pages)
      requires !s1[|s0|].flags.leaf && !s1[|s0|].flags.splitIncomplete
      requires rec == ClrAt(rec.left, rec.right, rec.level, rec.start, rec.separator, place)
      requires Usable(s1, pages, place, rec.left, rec.level)
      modifies this
      ensures old(lsn) < lsn && Sane(old(pages), lsn - 1)
      ensures r.Ok? <==> ApplyClr(old(pages), rec, lsn).Ok?
      ensures r.Ok? ==> ApplyClr(old(pages), rec, lsn) == Ok(pages) && Valid() && Framed(s0, pages)
      ensures r.Ok? ==> |pages| == |old(pages)| && pages[rec.right].level == s1[rec.right].level && !pages[rec.right].flags.leaf
      ensures UndoRun(base, hist, events) && old(hist) <= hist && old(events) <= events
    {
      hide UndoRun;
      hide ApplyClr;
      hide Framed;
      hide SplitsInner;
      hide Usable;
      hide ImagesOf;
      hide ApplyHalves;
      hide ApplyDownlink;
      hide Completes;
      hide Occurs;
      hide Sane;
      ghost var s := pages;
      ghost var images;
      r, images := EmitAndApplyClr(rec);
      if r.Ok? {
        SplitFramed(s0, s1, s, rec, lsn - 1, pages);
        SplitOccurs(base, s0, s1, s, rec, place, images, lsn, pages);
        Note(first, Finish(rec, images, lsn));
      }
    }
  }

  lemma AllImaged(named: seq<PageId>, rec: Clr)
    requires named == [rec.left, rec.right, rec.parent, rec.newRoot, rec.meta]
    ensures forall p :: p in Named(rec) ==> exists j :: 0 <= j < |named| && named[j] == p && named[j] != INVALID
  {
    forall p | p in Named(rec) ensures exists j :: 0 <= j < |named| && named[j] == p && named[j] != INVALID {
      assert named[0] == rec.left && named[1] == rec.right && named[2] == rec.parent && named[3] == rec.newRoot
             && named[4] == rec.meta;
    }
  }

  lemma SplitOccurs(base: Lsn, s0: Pages, s1: Pages, s: Pages, rec: Clr, place: Spot, images: map<PageId, Page>, lsn: Lsn,
                    s': Pages)
    requires |s1| == |s0| + 1 && rec.left < |s0| && 0 < rec.right == |s0| && SplitsInner(s0, s, rec)
    requires rec == ClrAt(rec.left, rec.right, rec.level, rec.start, rec.separator, place)
    requires Usable(s1, s, place, rec.left, rec.level)
    requires base < lsn && Sane(s, lsn - 1) && ImagesOf(s, rec, images, lsn)
    requires ApplyClr(s, rec, lsn) == Ok(s') && Sane(s', lsn)
    ensures Occurs(base, s, Finish(rec, images, lsn), s')
  {
    hide ApplyClr;
  }

  lemma RootRefused(s: Pages, left: PageId, level: nat, d: Entry, s': Pages)
    requires left < |s| && s[left].flags.root && (level >= MAX_LEVEL || MetaPage(s, left).None?)
    ensures PlaceOutcome(s, left, level, d, Err(Corrupted), s')
  {}

  lemma RootPlaced(s: Pages, left: PageId, level: nat, d: Entry, r: Result<Spot>, s': Pages)
    requires left < |s| && s[left].flags.root && level < MAX_LEVEL && MetaPage(s, left).Some? && r.Ok?
    requires (Ordered(s) ==> Ordered(s')) && Above(s, s', level + 1) && Steady(s, s', 0)
    ensures PlaceOutcome(s, left, level, d, r, s')
  {
    hide Above;
    hide Ordered;
    hide Steady;
  }

  lemma OrphanRefused(s: Pages, left: PageId, level: nat, d: Entry, s': Pages)
    requires left < |s| && !s[left].flags.root && Parent(s, left, level).None?
    ensures PlaceOutcome(s, left, level, d, Err(Corrupted), s')
  {}

  lemma ParentPlaced(s: Pages, left: PageId, level: nat, d: Entry, parent: PageId, place: Result<(PageId, nat)>,
                     r: Result<Spot>, s': Pages)
    requires left < |s| && !s[left].flags.root && Parent(s, left, level) == Some(parent) && level < MAX_LEVEL
    requires SlotOutcome(s, parent, level + 1, d, place, s') && (r.Ok? <==> place.Ok?)
    requires r.Ok? ==> r.value.parent == place.value.0 && r.value.slot == place.value.1
    ensures PlaceOutcome(s, left, level, d, r, s')
  {
    hide Above;
    hide Ordered;
    hide RoomFor;
    hide HasDownlink;
    hide Steady;
    if Addable(s, d) {
      Unlinked(s, parent, d);
    }
  }

  lemma NoSlot(s: Pages, p: PageId, level: nat, d: Entry, outcome: Result<(PageId, Entry)>, s': Pages)
    requires p < |s| && FreeSpace(s[p]) < EntryCost(level, d) && SplitOutcome(s, p, level, d, outcome, s') && outcome.Err?
    ensures SlotOutcome(s, p, level, d, Err(Corrupted), s')
  {
    hide Ordered;
    hide Steady;
  }

  lemma SlotOnHalf(s: Pages, p: PageId, level: nat, d: Entry, outcome: Result<(PageId, Entry)>, target: PageId, slot: nat,
                   s': Pages)
    requires p < |s| && FreeSpace(s[p]) < EntryCost(level, d) && SplitOutcome(s, p, level, d, outcome, s') && outcome.Ok?
    requires target == (if EntryLess(d, outcome.value.1) then p else outcome.value.0) && level > 0 && target < |s'|
    requires Sorted(s'[target].entries) ==> slot == LowerBound(s'[target].entries, d)
    ensures SlotOutcome(s, p, level, d, Ok((target, slot)), s')
  {
    hide Above;
    hide Steady;
  }

  lemma SlotOnParent(s: Pages, p: PageId, level: nat, d: Entry, slot: nat)
    requires 0 < p < |s| && s[p].level == level > 0 && GoodGeometry(s[p]) && FreeSpace(s[p]) >= EntryCost(level, d)
    requires Sorted(s[p].entries) ==> slot == LowerBound(s[p].entries, d)
    ensures SlotOutcome(s, p, level, d, Ok((p, slot)), s)
  {
    AboveGrows(s, ZERO_PAGE, level);
    SteadySame(s);
    SteadyMore(s, s, 0, 1);
    hide Above;
    hide Steady;
  }

  lemma SplitBlocked(s: Pages, p: PageId, level: nat, pending: Entry, s': Pages)
    requires p < |s| && (s[p].flags.splitIncomplete || SplitSlot(level, s[p].entries, pending).None?)
    ensures SplitOutcome(s, p, level, pending, Err(Corrupted), s')
  {}

  lemma SplitUnplaced(s0: Pages, s1: Pages, left: PageId, level: nat, pending: Entry, start: nat, place: Result<Spot>,
                      s': Pages)
    requires left < |s0| && s0[left].level == level > 0 && GoodGeometry(s0[left])
    requires !s0[left].flags.splitIncomplete && SplitSlot(level, s0[left].entries, pending) == Some(start)
    requires |s1| == |s0| + 1 && s1[..|s0|] == s0
    requires s1[|s0|] == InitRightPage(left, s0[left].next, level).(lsn := s1[|s0|].lsn)
    requires PlaceOutcome(s1, left, level, Entry(s0[left].entries[start].key, |s0|, 0), place, s') && place.Err?
    ensures SplitOutcome(s0, left, level, pending, Err(Corrupted), s')
  {
    hide Ordered;
    hide SplitSlot;
    hide ValidSplit;
    hide ClimbFrom;
    hide ClimbSplit;
    hide Internal;
    hide Addable;
    hide Straight;
    if Splits(s0, left, level, pending, ClimbSplit(s0, left, level, pending, |s0|)) {
      SplitPrepared(s0, s1, left, level, pending, start);
    }
  }

  lemma SplitEmitted(s0: Pages, s1: Pages, s: Pages, rec: Clr, place: Spot, lsn: Lsn, r: Result<(PageId, Entry)>,
                     s': Pages, pending: Entry)
    requires 0 < rec.left < rec.right == |s0| && s0[rec.left].level == rec.level > 0 && GoodGeometry(s0[rec.left])
    requires !s0[rec.left].flags.splitIncomplete
    requires SplitSlot(rec.level, s0[rec.left].entries, pending) == Some(rec.start)
    requires |s1| == |s0| + 1 && s1[..|s0|] == s0
    requires s1[rec.right] == InitRightPage(rec.left, s0[rec.left].next, rec.level).(lsn := s1[rec.right].lsn)
    requires rec == ClrAt(rec.left, rec.right, rec.level, rec.start, s0[rec.left].entries[rec.start].key, place)
    requires PlaceOutcome(s1, rec.left, rec.level, Entry(rec.separator, rec.right, 0), Ok(place), s)
    requires Usable(s1, s, place, rec.left, rec.level) && Framed(s1, s) && SplitsInner(s0, s, rec) && Sane(s, lsn)
    requires ClrWithinFile(rec, |s|) && (r.Ok? <==> ApplyClr(s, rec, lsn + 1).Ok?)
    requires r.Ok? ==> ApplyClr(s, rec, lsn + 1) == Ok(s') && r.value == (rec.right, s0[rec.left].entries[rec.start])
    ensures SplitOutcome(s0, rec.left, rec.level, pending, r, s')
  {
    hide Ordered;
    hide SplitSlot;
    hide ValidSplit;
    hide ClimbFrom;
    hide ClimbSplit;
    hide Internal;
    hide Addable;
    hide Straight;
    hide ApplyClr;
    hide Framed;
    hide Above;
    hide RoomFor;
    hide SplitsInner;
    hide Usable;
    hide Reached;
    hide FreshSplit;
    hide Steady;
    var c := ClimbSplit(s0, rec.left, rec.level, pending, |s0|);
    if Splits(s0, rec.left, rec.level, pending, c) {
      SplitPrepared(s0, s1, rec.left, rec.level, pending, rec.start);
      SplitDecides(s0, s1, s, rec, place, lsn, c);
      if r.Ok? {
        assert s1 == s0 + [s1[|s0|]];
        SplitEffect(s0, s1[|s0|], s, rec, lsn, s', pending);
        SplitSteady(s0, s1, s, rec, place, lsn, s');
        HalvesHold(s, rec, lsn, s');
        HalfNamed(s, rec, lsn, s');
      }
    }
  }

  /** A cascade split as a whole: a page is added, the levels above make room,
      the record is applied. */
  lemma SplitSteady(s0: Pages, s1: Pages, s: Pages, rec: Clr, place: Spot, lsn: Lsn, s': Pages)
    requires 0 < rec.left < |s0| && |s1| == |s0| + 1 && s1[..|s0|] == s0 && rec.level > 0
    requires s1[|s0|] == InitRightPage(rec.left, s0[rec.left].next, rec.level).(lsn := s1[|s0|].lsn)
    requires rec == ClrAt(rec.left, rec.right, rec.level, rec.start, rec.separator, place)
    requires Steady(s1, s, if s0[rec.left].flags.root then 0 else 1) && Ordered(s) && Ordered(s')
    requires Usable(s1, s, place, rec.left, rec.level) && SplitsInner(s0, s, rec) && Sane(s, lsn)
    requires FreshSplit(s, rec) && s[rec.left] == s0[rec.left] && ApplyClr(s, rec, lsn + 1) == Ok(s')
    requires !s0[rec.left].flags.root ==> Inner(s[place.parent])
    ensures Steady(s0, s', 1)
  {
    hide Steady;
    hide Ordered;
    hide ApplyClr;
    var n := if s0[rec.left].flags.root then 0 else 1;
    assert s1 == s0 + [s1[|s0|]] && s1[rec.left] == s0[rec.left];
    EmptyTight(rec.left, s0[rec.left].next, rec.level, s1[|s0|].lsn);
    SteadyGrows(s0, s1[|s0|]);
    SteadyTransitive(s0, s1, s, 0, n);
    if s0[rec.left].flags.root {
      assert s == s1 + [s[|s1|]];
      MetaGrows(s1, s[|s1|], 1, rec.left);
      assert Answers(s1[place.meta], rec.left) && s[place.meta] == s1[place.meta];
    }
    FreshHooked(s, rec, lsn, s');
    SplittableInner(s, rec);
    hide Usable;
    hide FreshSplit;
    hide SplitsInner;
    SteadyHooked(s, rec, lsn + 1, s');
    SteadyTransitive(s0, s, s', n, if rec.newRoot != INVALID then 1 else 0);
  }

  lemma SplittableInner(s: Pages, rec: Clr)
    requires FreshSplit(s, rec) && !s[rec.left].flags.leaf
    ensures Inner(s[rec.left])
  {}

  lemma EmptyTight(left: PageId, next: PageId, level: nat, lsn: Lsn)
    requires level > 0
    ensures Blank(InitRightPage(left, next, level).(lsn := lsn))
  {}

  lemma HalvesHold(s: Pages, rec: Clr, lsn: Lsn, s': Pages)
    requires FreshSplit(s, rec) && Sane(s, lsn) && Ordered(s) && ApplyClr(s, rec, lsn + 1) == Ok(s')
    requires !s[rec.left].flags.leaf
    ensures Inner(s'[rec.left]) && Inner(s'[rec.right])
  {
    SplitResult(s, rec, lsn, s');
    ClrMoves(s, rec, lsn, s');
    hide ApplyClr;
    hide TotalBytes;
    hide LowerBound;
    hide Sorted;
  }

  lemma HalfNamed(s: Pages, rec: Clr, lsn: Lsn, s': Pages)
    requires FreshSplit(s, rec) && Sane(s, lsn) && Ordered(s) && ApplyClr(s, rec, lsn + 1) == Ok(s')
    ensures NewHalf(s', rec.right, rec.level, s[rec.left].entries[rec.start])
  {
    hide ApplyClr;
    hide Ordered;
    SplitResult(s, rec, lsn, s');
    hide Accounted;
    hide HasRoom;
    hide Internal;
    var d, link := DownlinkPage(rec), Entry(rec.separator, rec.right, 0);
    if rec.newRoot == INVALID {
      InsertedElements(s[d].entries, rec.slot, link);
    } else {
      assert s'[d].entries[1] == link;
    }
  }

  /** The weak half of a cascade split. */
  lemma SplitFramed(s0: Pages, s1: Pages, s: Pages, rec: Clr, lsn: Lsn, s': Pages)
    requires Sane(s, lsn) && SplitsInner(s0, s, rec) && ApplyClr(s, rec, lsn + 1) == Ok(s')
    requires |s1| == |s0| + 1 && s1[..|s0|] == s0 && rec.right == |s0| && Framed(s1, s)
    requires !s1[|s0|].flags.leaf && !s1[|s0|].flags.splitIncomplete
    ensures Framed(s0, s') && Sane(s', lsn + 1) && |s'| == |s|
    ensures s'[rec.right].level == s1[rec.right].level && !s'[rec.right].flags.leaf
  {
    assert s1 == s0 + [s1[|s0|]];
    FramedGrows(s0, s1[|s0|]);
    FramedTransitive(s0, s1, s);
    InnerFramed(s0, s, rec, lsn, s');
    assert FrameAt(s1[rec.right], s[rec.right]);
    ClrMoves(s, rec, lsn, s');
    hide ApplyClr;
  }

  lemma MetaNeedsRoom(s: Pages, rec: Clr, lsn: Lsn)
    requires Sane(s, lsn) && ClrWithinFile(rec, |s|) && ClrDistinct(rec)
    requires rec.meta != INVALID && FreeSpace(s[rec.meta]) < 14
    ensures ApplyClr(s, rec, lsn + 1).Err?
  {
    if ApplyClr(s, rec, lsn + 1).Ok? {
      ClrByPage(s, rec, lsn + 1, ApplyClr(s, rec, lsn + 1).value);
    }
  }

  /** In a sound file the record of a cascade split is refused exactly when the
      climb does not end well. */
  lemma SplitDecides(s0: Pages, s1: Pages, s: Pages, rec: Clr, place: Spot, lsn: Lsn, c: Climb)
    requires 0 < rec.left < rec.right == |s0| && s0[rec.left].level == rec.level
    requires 0 < rec.level && SplitsInner(s0, s, rec) && Sane(s, lsn)
    requires Internal(s0[rec.left], |s0|) && 1 <= rec.start < |s0[rec.left].entries|
    requires rec == ClrAt(rec.left, rec.right, rec.level, rec.start, s0[rec.left].entries[rec.start].key, place)
    requires |s1| == |s0| + 1 && s1[..|s0|] == s0
    requires s1[rec.right] == InitRightPage(rec.left, s0[rec.left].next, rec.level).(lsn := s1[rec.right].lsn)
    requires Above(s1, s, rec.level + 1) && Usable(s1, s, place, rec.left, rec.level)
    requires Reached(s0, c, s0[rec.left].flags.root) && Straight(s0, c, false)
    requires s0[rec.left].flags.root ==> c == Top(rec.left, rec.level)
    requires !s0[rec.left].flags.root ==>
               RoomFor(s, place.parent, place.slot, rec.level + 1, Entry(rec.separator, rec.right, 0))
    ensures ApplyClr(s, rec, lsn + 1).Ok? <==> Reached(s0, c, false)
    ensures ApplyClr(s, rec, lsn + 1).Ok? ==> FreshSplit(s, rec) && s[rec.left] == s0[rec.left]
  {
    hide Above;
    hide Internal;
    hide RoomFor;
    hide SplitsInner;
    hide FreshSplit;
    hide ApplyClr;
    if s0[rec.left].flags.root {
      assert s1[rec.left] == s0[rec.left] && s1 == s0 + [s1[|s0|]];
      MetaGrows(s0, s1[|s0|], 1, rec.left);
      assert s[place.meta] == s[..|s1|][place.meta] == s1[place.meta] == s0[place.meta];
      if FreeSpace(s[place.meta]) < 14 {
        NamesDistinct(s0, s, rec);
        MetaNeedsRoom(s, rec, lsn);
      } else {
        PlacedSplit(s0, s1, s, rec, place);
        FreshApplies(s, rec, lsn);
      }
    } else {
      assert s1[rec.left] == s0[rec.left];
      LevelBelowTop(s, place, rec, lsn);
      PlacedSplit(s0, s1, s, rec, place);
      FreshApplies(s, rec, lsn);
    }
  }

  /** What the split of a sound page hands to the level above. */
  lemma SplitPrepared(s0: Pages, s1: Pages, left: PageId, level: nat, pending: Entry, start: nat)
    requires Ordered(s0) && left < |s0| && s0[left].level == level > 0 && GoodGeometry(s0[left])
    requires !s0[left].flags.splitIncomplete && SplitSlot(level, s0[left].entries, pending) == Some(start)
    requires |s1| == |s0| + 1 && s1[..|s0|] == s0
    requires s1[|s0|] == InitRightPage(left, s0[left].next, level).(lsn := s1[|s0|].lsn)
    requires Straight(s0, ClimbSplit(s0, left, level, pending, |s0|), false)
    ensures Internal(s0[left], |s0|) && ValidSplit(level, s0[left].entries, pending, start)
    ensures var d, c := Entry(s0[left].entries[start].key, |s0|, 0), ClimbSplit(s0, left, level, pending, |s0|);
            && Addable(s1, d) && c == ClimbFrom(s1, left, level, d, |s1|)
            && (forall own :: Reached(s1, c, own) <==> Reached(s0, c, own))
            && (forall own :: Straight(s1, c, own))
            && (s0[left].flags.root ==> c == Top(left, level))
            && s1[left] == s0[left]
  {
    hide Reached;
    hide Straight;
    hide ClimbFrom;
    hide ClimbSplit;
    hide Internal;
    hide Ordered;
    hide ValidSplit;
    hide SplitSlot;
    var right := s1[|s0|];
    var d, c := Entry(s0[left].entries[start].key, |s0|, 0), ClimbSplit(s0, left, level, pending, |s0|);
    assert s1 == s0 + [right];
    PreparedSound(s0, right, left, level, pending, start);
    hide Addable;
    if s0[left].flags.root {
      TopAtRoot(s0, left, level, pending);
    }
    HandsSeparatorUp(s0, left, level, pending, start);
    ClimbGrows(s0, right, left, level, d, |s0| + 1);
    forall own ensures Reached(s1, c, own) <==> Reached(s0, c, own)
      ensures Straight(s1, c, own)
    {
      ReachedGrows(s0, right, c, own);
      StraightAlways(s0, c, own);
    }
  }

  lemma PreparedSound(s: Pages, right: Page, left: PageId, level: nat, pending: Entry, start: nat)
    requires Ordered(s) && left < |s| && s[left].level == level > 0 && GoodGeometry(s[left])
    requires SplitSlot(level, s[left].entries, pending) == Some(start)
    requires right.entries == [] && right.upper <= PD_SPECIAL
    ensures Internal(s[left], |s|) && ValidSplit(level, s[left].entries, pending, start)
    ensures Addable(s + [right], Entry(s[left].entries[start].key, |s|, 0))
  {
    hide HasDownlink;
    hide SplitSlot;
    hide ValidSplit;
    SplitSlotIsBest(level, s[left].entries, pending);
    OrderedGrows(s, right);
  }

  lemma StraightAlways(s: Pages, c: Climb, own: bool)
    requires Straight(s, c, false)
    ensures Straight(s, c, own)
  {}

  lemma HandsSeparatorUp(s: Pages, p: PageId, level: nat, pending: Entry, start: nat)
    requires p < |s| && !s[p].flags.splitIncomplete && SplitSlot(level, s[p].entries, pending) == Some(start)
    ensures ClimbSplit(s, p, level, pending, |s|)
            == ClimbFrom(s, p, level, Entry(s[p].entries[start].key, |s|, 0), |s| + 1)
  {}

  lemma TopAtRoot(s: Pages, p: PageId, level: nat, pending: Entry)
    requires p < |s| && !s[p].flags.splitIncomplete && SplitSlot(level, s[p].entries, pending).Some? && s[p].flags.root
    ensures ClimbSplit(s, p, level, pending, |s|) == Top(p, level)
  {}

  lemma NamesDistinct(s0: Pages, s: Pages, rec: Clr)
    requires SplitsInner(s0, s, rec)
    ensures ClrWithinFile(rec, |s|) && ClrDistinct(rec)
  {}

  lemma LevelBelowTop(s: Pages, place: Spot, rec: Clr, lsn: Lsn)
    requires Sane(s, lsn) && RoomFor(s, place.parent, place.slot, rec.level + 1, Entry(rec.separator, rec.right, 0))
    ensures rec.level < MAX_LEVEL
  {}

  lemma PromotionGrows(s: Pages, page: Page, left: PageId, level: nat)
    requires left < |s| && page.entries == [] && page.upper <= PD_SPECIAL
    requires !page.flags.leaf && !page.flags.splitIncomplete
    requires !page.flags.root && IsFresh(page)
    ensures Framed(s, s + [page]) && MetaPage(s + [page], left) == MetaPage(s, left)
    ensures Ordered(s) ==> Ordered(s + [page])
    ensures Above(s, s + [page], level + 1) && Steady(s, s + [page], 0)
  {
    SteadyGrows(s, page);
    FramedGrows(s, page);
    MetaGrows(s, page, 1, left);
    AboveGrows(s, page, level + 1);
    if Ordered(s) {
      OrderedGrows(s, page);
    }
  }
}

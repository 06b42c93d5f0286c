/** The undo pass (crates/pg-am-btree/src/undo.rs): find every unfinished
    split, finish them from the root downwards. */
module BtreeUndo {
  import opened Keys
  import opened Outcome
  import opened Sequences
  import opened BtreePages
  import opened BtreeLog
  import opened BtreeReplay
  import opened BtreeChain
  import opened BtreeContent
  import opened BtreeSearch
  import opened BtreeFinish
  import opened BtreeFinishContent
  import opened BtreeInner
  import opened BtreeScan
  import opened BtreeClr
  import opened BtreeFresh
  import opened BtreeRooted
  import opened BtreeCascade
  import opened BtreeRound
  import opened BtreeEvents
  import opened BtreePending
  import opened BtreeSound
  import opened BtreeFence

  // ---- One split ----

  /** In a sound file a split is finished exactly if it can be, and a clean
      round puts the downlink where it belongs. */
  ghost predicate FinishOutcome(s: Pages, left: PageId, start: nat, ok: bool, s1: Pages, rec: Clr, plan: Plan)
    requires left < |s| && s[left].next < |s|
  {
    && (Sound(s) && StraightRound(s, left, start) ==> (ok <==> CanFinish(s, left, start)))
    && (ok && Sound(s) && CleanRound(s, left, start) ==>
          rec.left < |s| && ClrWithinFile(rec, |s1|) && WellPlaced(s, s1, rec, plan))
  }

  /** `finish_incomplete_split`. In any file, success is one compensation record
      that finishes exactly this split. */
  method FinishIncompleteSplit(u: UndoPass, left: PageId, start: nat)
    returns (r: Result<Lsn>, ghost s1: Pages, ghost rec: Clr, ghost plan: Plan)
    requires u.Valid() && Flagged(u.pages, left) && Paired(u.pages, left)
    modifies u
    ensures r.Ok? ==> u.lsn > 0 && FinishedBy(old(u.pages), left, s1, rec, plan, u.lsn - 1, u.pages) && rec.start == start
    ensures UndoRun(u.base, u.hist, u.events) && old(u.hist) <= u.hist && old(u.events) <= u.events
    ensures r.Ok? ==> u.Valid()
    ensures FinishOutcome(old(u.pages), left, start, r.Ok?, s1, rec, plan)
    ensures r.Ok? && !plan.Unlink? ==>
              Fences(old(u.pages), rec, u.pages, Sound(old(u.pages)) && CleanRound(old(u.pages), left, start))
  {
    hide Fences;
    hide UndoRun;
    hide ImagesOf;
    hide Occurs;
    hide Completes;
    hide ApplyHalves;
    hide ApplyDownlink;
    hide FinishOutcome;
    hide FinishedBy;
    hide ApplyClr;
    hide PlaceOutcome;
    hide Handed;
    ghost var s, first := u.pages, |u.events|;
    var right, level := u.pages[left].next, u.pages[left].level;
    var chosen := ChoosePlan(u.pages[left], u.pages[right], start);
    plan, s1, rec := Move, s, Clr(0, 0, 0, 0, 0, [], 0, 0, 0);
    if chosen.Err? {
      NoPlan(s, left, start, s1, rec, plan);
      return Err(Corrupted), s1, rec, plan;
    }
    var (chosenPlan, separator) := chosen.value;
    plan := chosenPlan;
    var place := Spot(INVALID, 0, INVALID, INVALID);
    if chosenPlan != Unlink {
      var placed := u.PlaceDownlink(left, level, separator, right);
      s1 := u.pages;
      if placed.Err? {
        NotPlaced(s, left, start, plan, separator, placed, s1, rec);
        return Err(Corrupted), s1, rec, plan;
      }
      place := placed.value;
    }
    HandedOver(s, left, s1, plan, place);
    RecordNames(s, left, s1, plan, place, start, separator);
    var record := ClrAt(left, right, level, start, separator, place);
    rec := Effective(record);
    var done;
    ghost var images;
    done, images := u.EmitAndApplyClr(record);
    Emitted(s, left, s1, plan, place, start, separator, u.lsn - 1, done.Ok?);
    if done.Err? {
      return Err(Corrupted), s1, rec, plan;
    }
    RoundRecorded(s, left, s1, plan, place, start, separator, u.lsn - 1, u.pages);
    RoundOccurs(u.base, s, left, s1, plan, place, start, separator, images, u.lsn, u.pages);
    assert u.hist[first] == old(u.hist)[first];
    u.Note(first, Finish(record, images, u.lsn));
    FenceHere(s, left, start, s1, rec, plan, u.lsn - 1, u.pages);
    return Ok(done.value), s1, rec, plan;
  }

  lemma RoundOccurs(base: Lsn, s: Pages, left: PageId, s1: Pages, plan: Plan, place: Spot, start: nat, separator: Key,
                    images: map<PageId, Page>, lsn: Lsn, s': Pages)
    requires base < lsn && Flagged(s, left) && Paired(s, left) && Handed(s, left, s1, plan, place)
    requires var rec := ClrAt(left, s[left].next, s[left].level, start, separator, place);
             && FinishedBy(s, left, s1, Effective(rec), plan, lsn - 1, s') && ClrWithinFile(rec, |s1|)
             && ImagesOf(s1, rec, images, lsn) && ApplyClr(s1, rec, lsn) == Ok(s')
    ensures var e := Finish(ClrAt(left, s[left].next, s[left].level, start, separator, place), images, lsn);
            Occurs(base, s1, e, s') && Completes(s, s1, e, s') && Sane(s', lsn)
  {
    hide ApplyClr;
    hide OnlyFinished;
    hide Framed;
    hide ChoosePlan;
    hide PublishedOn;
    hide ImagesOf;
    hide Sane;
    var rec := ClrAt(left, s[left].next, s[left].level, start, separator, place);
    RoundFinishes(s, left, s1, Effective(rec), plan, lsn - 1, s');
    assert CompletesBy(s, s1, Finish(rec, images, lsn), plan, s');
  }

  lemma FenceHere(s: Pages, left: PageId, start: nat, s1: Pages, rec: Clr, plan: Plan, lsn: Lsn, s': Pages)
    requires FinishedBy(s, left, s1, rec, plan, lsn, s') && FinishOutcome(s, left, start, true, s1, rec, plan)
    ensures !plan.Unlink? ==> Fences(s, rec, s', Sound(s) && CleanRound(s, left, start))
  {
    hide Fences;
    hide Sound;
    hide WellPlaced;
    hide CleanRound;
    hide StraightRound;
    hide CanFinish;
    hide ApplyClr;
    hide ChoosePlan;
    if !plan.Unlink? {
      RoundFences(s, left, s1, rec, plan, lsn, s', Sound(s) && CleanRound(s, left, start));
    }
  }

  lemma NoPlan(s: Pages, left: PageId, start: nat, s1: Pages, rec: Clr, plan: Plan)
    requires left < |s| && s[left].next < |s| && ChoosePlan(s[left], s[s[left].next], start).Err?
    ensures FinishOutcome(s, left, start, false, s1, rec, plan)
  {}

  lemma HandedOver(s: Pages, left: PageId, s1: Pages, plan: Plan, place: Spot)
    requires left < |s|
    requires if plan.Unlink? then s1 == s && place == Spot(INVALID, 0, INVALID, INVALID)
             else Framed(s, s1) && Usable(s, s1, place, left, s[left].level)
    ensures Handed(s, left, s1, plan, place)
  {}

  lemma Emitted(s: Pages, left: PageId, s1: Pages, plan: Plan, place: Spot, start: nat, separator: Key, lsn: Lsn, ok: bool)
    requires Flagged(s, left) && Paired(s, left) && Handed(s, left, s1, plan, place) && Sane(s1, lsn)
    requires ChoosePlan(s[left], s[s[left].next], start) == Ok((plan, separator)) && |s1| <= |s| + MAX_LEVEL + 1
    requires !plan.Unlink? ==> PlaceOutcome(s, left, s[left].level, Entry(separator, s[left].next, 0), Ok(place), s1)
    requires var rec := ClrAt(left, s[left].next, s[left].level, start, separator, place);
             ClrWithinFile(rec, |s1|) && (ok <==> ApplyClr(s1, rec, lsn + 1).Ok?)
    ensures FinishOutcome(s, left, start, ok, s1,
                          Effective(ClrAt(left, s[left].next, s[left].level, start, separator, place)), plan)
  {
    hide HasDownlink;
    hide ApplyClr;
    hide PlaceOutcome;
    hide Handed;
    hide Ordered;
    hide Above;
    hide RoomFor;
    hide Ascent;
    hide Reached;
    hide Straight;
    hide CanFinish;
    hide WellPlaced;
    hide Steady;
    if Sound(s) && StraightRound(s, left, start) {
      if !plan.Unlink? {
        WherePlaced(s, left, start, plan, separator, place, s1);
      }
      assert PendingAt(s, left);
      hide PendingAt;
      RoundIff(s, left, s1, plan, place, start, separator, lsn);
      if CleanRound(s, left, start) {
        RoundPlaced(s, left, s1, plan, place, start, separator);
      }
    }
  }

  lemma PlaceApplies(s: Pages, left: PageId, start: nat, plan: Plan, separator: Key)
    requires Flagged(s, left) && Paired(s, left) && Sound(s) && StraightRound(s, left, start)
    requires ChoosePlan(s[left], s[s[left].next], start) == Ok((plan, separator)) && !plan.Unlink?
    ensures Addable(s, Entry(separator, s[left].next, 0)) && PendingAt(s, left)
    ensures Straight(s, Ascent(s, left, separator), s[left].flags.root)
  {
    hide HasDownlink;
    hide Ordered;
    hide Straight;
    hide Ascent;
    assert PendingAt(s, left);
    SeparatorBound(s[left], s[s[left].next], start);
  }

  lemma NotPlaced(s: Pages, left: PageId, start: nat, plan: Plan, separator: Key, placed: Result<Spot>, s1: Pages, rec: Clr)
    requires Flagged(s, left) && Paired(s, left)
    requires ChoosePlan(s[left], s[s[left].next], start) == Ok((plan, separator)) && !plan.Unlink?
    requires PlaceOutcome(s, left, s[left].level, Entry(separator, s[left].next, 0), placed, s1) && placed.Err?
    ensures FinishOutcome(s, left, start, false, s1, rec, plan)
  {
    hide HasDownlink;
    hide Addable;
    hide Straight;
    hide Reached;
    hide Sound;
    hide StraightRound;
    if Sound(s) && StraightRound(s, left, start) {
      PlaceApplies(s, left, start, plan, separator);
    }
  }

  lemma WherePlaced(s: Pages, left: PageId, start: nat, plan: Plan, separator: Key, place: Spot, s1: Pages)
    requires Flagged(s, left) && Paired(s, left) && Sound(s) && StraightRound(s, left, start)
    requires ChoosePlan(s[left], s[s[left].next], start) == Ok((plan, separator)) && !plan.Unlink?
    requires PlaceOutcome(s, left, s[left].level, Entry(separator, s[left].next, 0), Ok(place), s1)
    ensures PendingAt(s, left) && Ordered(s1) && Above(s, s1, s[left].level + 1)
    ensures Steady(s, s1, if s[left].flags.root then 0 else 1)
    ensures Reached(s, Ascent(s, left, separator), s[left].flags.root)
    ensures !s[left].flags.root ==>
              && RoomFor(s1, place.parent, place.slot, s[left].level + 1, Entry(separator, s[left].next, 0))
              && place.parent < |s1| && Inner(s1[place.parent])
  {
    hide HasDownlink;
    hide Addable;
    hide Straight;
    hide Reached;
    hide Above;
    hide Steady;
    PlaceApplies(s, left, start, plan, separator);
  }

  lemma RoundPlaced(s: Pages, left: PageId, s1: Pages, plan: Plan, place: Spot, start: nat, separator: Key)
    requires Flagged(s, left) && PendingAt(s, left) && Handed(s, left, s1, plan, place) && CleanRound(s, left, start)
    requires ChoosePlan(s[left], s[s[left].next], start) == Ok((plan, separator)) && |s1| <= |s| + MAX_LEVEL + 1
    requires !plan.Unlink? ==> Ordered(s1) && Above(s, s1, s[left].level + 1)
    requires !plan.Unlink? ==> Steady(s, s1, if s[left].flags.root then 0 else 1)
    requires !plan.Unlink? && !s[left].flags.root ==>
               && RoomFor(s1, place.parent, place.slot, s[left].level + 1, Entry(separator, s[left].next, 0))
               && place.parent < |s1| && Inner(s1[place.parent])
    ensures var rec := Effective(ClrAt(left, s[left].next, s[left].level, start, separator, place));
            ClrWithinFile(rec, |s1|) && WellPlaced(s, s1, rec, plan)
  {
    hide Above;
    hide Ordered;
    hide RoomFor;
    hide Straight;
    hide Steady;
    hide HasDownlink;
    hide Accounted;
    hide Sorted;
    RecordNames(s, left, s1, plan, place, start, separator);
    if !plan.Unlink? && s[left].flags.root {
      assert Answers(s[place.meta], left);
      assert s1[place.meta] == s1[..|s|][place.meta];
    }
  }

  // ---- The order ----

  /** Splits nearer the root first, then by left page id. */
  predicate Before(s: Pages, p: PageId, q: PageId)
  {
    && p < |s| && q < |s|
    && (s[p].level > s[q].level || (s[p].level == s[q].level && p < q))
  }

  ghost predicate Scheduled(s: Pages, order: seq<PageId>)
  {
    forall i, j :: 0 <= i < j < |order| ==> Before(s, order[i], order[j])
  }

  method InsertInOrder(s: Pages, order: seq<PageId>, p: PageId) returns (order': seq<PageId>)
    requires Scheduled(s, order) && p < |s| && p !in order && forall q: PageId :: q in order ==> q < |s|
    ensures Scheduled(s, order')
    ensures forall q: PageId :: q in order' <==> q in order || q == p
  {
    var i := 0;
    while i < |order| && Before(s, order[i], p)
      invariant 0 <= i <= |order|
      invariant forall j :: 0 <= j < i ==> Before(s, order[j], p)
    {
      i := i + 1;
    }
    order' := InsertAt(order, i, p);
    InsertedInOrder(s, order, i, p);
    assert forall q: PageId :: q in order ==> q in order' by {
      forall q: PageId | q in order ensures q in order' {
        var j :| 0 <= j < |order| && order[j] == q;
        assert order'[if j < i then j else j + 1] == q;
      }
    }
    assert order'[i] == p;
  }

  lemma InsertedInOrder(s: Pages, order: seq<PageId>, i: nat, p: PageId)
    requires Scheduled(s, order) && p < |s| && p !in order && forall q: PageId :: q in order ==> q < |s|
    requires i <= |order| && (forall j :: 0 <= j < i ==> Before(s, order[j], p))
    requires i < |order| ==> !Before(s, order[i], p)
    ensures Scheduled(s, InsertAt(order, i, p))
  {
    var order' := InsertAt(order, i, p);
    if i < |order| {
      assert order[i] in order && Before(s, p, order[i]);
    }
    forall a, b | 0 <= a < b < |order'| ensures Before(s, order'[a], order'[b]) {
      if a != i && b != i {
        assert Before(s, order[if a < i then a else a - 1], order[if b < i then b else b - 1]);
      } else if a == i && b > i + 1 {
        assert Before(s, order[i], order[b - 1]);
      }
    }
  }

  /** The tracker redo left behind, completed by the page scan and sorted: one
      entry for every flagged page, from the root downwards. */
  method Schedule(s: Pages, tracked: map<PageId, Option<nat>>) returns (order: seq<PageId>)
    requires forall p :: p in tracked ==> Flagged(s, p)
    ensures Scheduled(s, order) && forall p: PageId :: p in order <==> Flagged(s, p)
  {
    order := [];
    var pid := 1;
    while pid < |s|
      invariant pid >= 1 && Scheduled(s, order)
      invariant forall p: PageId :: p in order <==> Flagged(s, p) && p < pid
    {
      if pid in tracked || s[pid].flags.splitIncomplete {
        order := InsertInOrder(s, order, pid);
      }
      pid := pid + 1;
    }
  }

  // ---- The pass ----

  function SlotOf(tracked: map<PageId, Option<nat>>, p: PageId): Option<nat>
  {
    if p in tracked then tracked[p] else None
  }

  /** No leaf names the right page of a pending split as its left neighbour. */
  ghost predicate NoneNamed(s: Pages, chain: seq<PageId>)
  {
    forall k :: 0 <= k < |chain| - 1 && Flagged(s, chain[k]) ==> Unnamed(s, chain, k)
  }

  lemma StillUnnamed(s: Pages, left: PageId, s': Pages, chain: seq<PageId>, chain': seq<PageId>, k: nat, k0: nat)
    requires Spine(s, chain) && OnlyFinished(s, left, s') && (forall p :: p in chain' ==> p in chain)
    requires k + 1 < |chain'| && k0 + 1 < |chain| && chain'[k + 1] == chain[k0 + 1] && Unnamed(s, chain, k0)
    ensures Unnamed(s', chain', k)
  {
    hide Accounted;
    forall j | 0 <= j < |chain'| ensures chain'[j] < |s'| && s'[chain'[j]].prev != chain'[k + 1] {
      assert chain'[j] in chain';
      var j0 := IndexOf(chain, chain'[j]);
      assert NextAt(s, chain, j0) && RoundAt(s, left, s', chain[j0]);
    }
  }

  /** Without such a leaf no round breaks the hints. */
  lemma RoundKeepsUnnamed(s: Pages, left: PageId, s': Pages, chain: seq<PageId>, chain': seq<PageId>, plan: Plan)
    requires Ready(s, chain) && Flagged(s, left) && OnlyFinished(s, left, s') && NoneNamed(s, chain)
    requires chain' == ChainAfterRound(chain, left, plan) && Spine(s', chain')
    ensures NoneNamed(s', chain') && !DropsNamed(s, chain, left, plan)
  {
    hide Contents;
    hide TotalBytes;
    hide Unnamed;
    hide Accounted;
    hide Apart;
    ShorterChain(chain, left, plan);
    forall k | 0 <= k < |chain'| - 1 && Flagged(s', chain'[k]) ensures Unnamed(s', chain', k) {
      var q := chain'[k];
      assert q in chain' && q in chain;
      var k0 := IndexOf(chain, q);
      assert RoundAt(s, left, s', q) && Flagged(s, q);
      assert NextAt(s', chain', k) && NextAt(s, chain, k0) && TwinAt(s, chain, k0);
      StillUnnamed(s, left, s', chain, chain', k, k0);
    }
  }

  ghost predicate StraightSlot(s: Pages, left: PageId, slot: Option<nat>)
    requires left < |s| && s[left].next < |s|
  {
    StartSlot(s[left], slot).Ok? ==> StraightRound(s, left, StartSlot(s[left], slot).value)
  }

  ghost predicate CleanSlot(s: Pages, left: PageId, slot: Option<nat>)
    requires left < |s| && s[left].next < |s|
  {
    StartSlot(s[left], slot).Ok? ==> CleanRound(s, left, StartSlot(s[left], slot).value)
  }

  /** The plan the right page calls for. */
  ghost function PlanOf(s: Pages, left: PageId, slot: Option<nat>): Option<Plan>
    requires left < |s| && s[left].next < |s|
  {
    match StartSlot(s[left], slot)
    case Err(_) => None
    case Ok(start) => match ChoosePlan(s[left], s[s[left].next], start) case Err(_) => None case Ok((plan, _)) => Some(plan)
  }

  lemma PlanTaken(s: Pages, left: PageId, slot: Option<nat>, s1: Pages, rec: Clr, plan: Plan, lsn: Lsn, s': Pages)
    requires FinishedBy(s, left, s1, rec, plan, lsn, s') && StartSlot(s[left], slot) == Ok(rec.start)
    ensures PlanOf(s, left, slot) == Some(plan)
  {
    hide ChoosePlan;
    hide ApplyClr;
  }

  lemma ReadySpine(s: Pages, chain: seq<PageId>)
    requires Ready(s, chain)
    ensures Spine(s, chain)
  {}

  /** A round that finished the split of `left` took the file from `s` to `s'`:
      over the pages `s1` the cascade left, by the one record `rec` made from the
      slot on record. In a sound file a clean round put the downlink where it
      belongs. */
  ghost predicate TakenBy(s: Pages, left: PageId, slot: Option<nat>, s1: Pages, rec: Clr, plan: Plan, lsn: Lsn, s': Pages)
  {
    && FinishedBy(s, left, s1, rec, plan, lsn, s') && StartSlot(s[left], slot) == Ok(rec.start)
    && (if slot.Some? then rec.start == slot.value else 2 * rec.start <= |s[left].entries| <= 2 * rec.start + 1)
    && (Sound(s) && CleanSlot(s, left, slot) ==> WellPlaced(s, s1, rec, plan))
    && (plan.Unlink? || Fences(s, rec, s', Sound(s) && CleanSlot(s, left, slot)))
  }

  ghost predicate Taken(s: Pages, left: PageId, slot: Option<nat>, s': Pages)
  {
    OnlyFinished(s, left, s') && exists s1, rec, plan, lsn :: TakenBy(s, left, slot, s1, rec, plan, lsn, s')
  }

  lemma TakenHere(s: Pages, left: PageId, slot: Option<nat>, s1: Pages, rec: Clr, plan: Plan, lsn: Lsn, s': Pages)
    requires OnlyFinished(s, left, s') && FinishedBy(s, left, s1, rec, plan, lsn, s') && StartSlot(s[left], slot) == Ok(rec.start)
    requires FinishOutcome(s, left, rec.start, true, s1, rec, plan)
    requires !plan.Unlink? ==> Fences(s, rec, s', Sound(s) && CleanRound(s, left, rec.start))
    ensures Taken(s, left, slot, s')
  {
    hide OnlyFinished;
    hide Sound;
    hide WellPlaced;
    hide CleanRound;
    hide StraightRound;
    hide ApplyClr;
    hide Fences;
    assert TakenBy(s, left, slot, s1, rec, plan, lsn, s');
  }

  /** One round of the undo loop. */
  method FinishNext(u: UndoPass, left: PageId, slot: Option<nat>, ghost chain: seq<PageId>)
    returns (r: Result<Lsn>, ghost chain': seq<PageId>, ghost plan: Plan)
    requires u.Valid() && Ready(u.pages, chain) && Flagged(u.pages, left) && u.pages[left].next < |u.pages|
    modifies u
    ensures UndoRun(u.base, u.hist, u.events) && old(u.hist) <= u.hist && old(u.events) <= u.events
    ensures r.Ok? ==> u.Valid() && Taken(old(u.pages), left, slot, u.pages) && Ready(u.pages, chain')
    ensures r.Ok? ==> Contents(u.pages, chain') == Contents(old(u.pages), chain)
    ensures r.Ok? ==> PlanOf(old(u.pages), left, slot) == Some(plan) && chain' == ChainAfterRound(chain, left, plan)
    ensures r.Ok? && Hinted(old(u.pages), chain) ==>
              (Hinted(u.pages, chain') <==> !DropsNamed(old(u.pages), chain, left, plan))
    ensures r.Ok? && NoneNamed(old(u.pages), chain) ==>
              NoneNamed(u.pages, chain') && (Hinted(old(u.pages), chain) ==> Hinted(u.pages, chain'))
    ensures Sound(old(u.pages)) && StraightSlot(old(u.pages), left, slot) ==>
              (r.Ok? <==> Finishable(old(u.pages), left, slot))
    ensures r.Ok? && Sound(old(u.pages)) && CleanSlot(old(u.pages), left, slot) ==> Sound(u.pages)
  {
    hide UndoRun;
    hide SpineInv;
    hide Contents;
    hide Sound;
    hide CanFinish;
    hide StraightRound;
    hide WellPlaced;
    hide FinishedBy;
    hide NoneNamed;
    hide Hinted;
    hide Taken;
    hide PlanOf;
    hide Fences;
    ghost var s := u.pages;
    chain', plan := chain, Move;
    var start := StartSlot(u.pages[left], slot);
    if start.Err? {
      return Err(Corrupted), chain', plan;
    }
    ghost var s1, rec;
    r, s1, rec, plan := FinishIncompleteSplit(u, left, start.value);
    if r.Ok? {
      PlanTaken(s, left, slot, s1, rec, plan, u.lsn - 1, u.pages);
      RoundFinishes(s, left, s1, rec, plan, u.lsn - 1, u.pages);
      TakenHere(s, left, slot, s1, rec, plan, u.lsn - 1, u.pages);
      RoundKeepsChain(s, left, s1, rec, plan, u.lsn - 1, u.pages, chain);
      chain' := ChainAfterRound(chain, left, plan);
      if NoneNamed(s, chain) {
        ReadySpine(u.pages, chain');
        RoundKeepsUnnamed(s, left, u.pages, chain, chain', plan);
      }
      if Sound(s) && CleanRound(s, left, start.value) {
        RoundKeepsSound(s, left, s1, rec, plan, u.lsn - 1, u.pages);
      }
    }
  }

  /** Round `i` of the pass can succeed, on the pages it starts from. */
  ghost predicate FinishableAt(trace: seq<Pages>, order: seq<PageId>, tracked: map<PageId, Option<nat>>, i: nat)
    requires i < |trace| && i < |order|
  {
    && order[i] < |trace[i]| && trace[i][order[i]].next < |trace[i]|
    && Finishable(trace[i], order[i], SlotOf(tracked, order[i]))
  }

  ghost predicate CleanAt(trace: seq<Pages>, order: seq<PageId>, tracked: map<PageId, Option<nat>>, i: nat)
    requires i < |trace| && i < |order|
  {
    && order[i] < |trace[i]| && trace[i][order[i]].next < |trace[i]|
    && CleanSlot(trace[i], order[i], SlotOf(tracked, order[i]))
  }

  /** The rounds that were started: all of them, or those up to the one that
      was refused. */
  function Started(trace: seq<Pages>, order: seq<PageId>): (n: nat)
    ensures n <= |trace| && n <= |order|
  {
    if |trace| < |order| then |trace| else |order|
  }

  ghost predicate AllFinishable(trace: seq<Pages>, order: seq<PageId>, tracked: map<PageId, Option<nat>>, n: nat)
    requires n <= |trace| && n <= |order|
  {
    forall i :: 0 <= i < n ==> FinishableAt(trace, order, tracked, i)
  }

  ghost predicate AllClean(trace: seq<Pages>, order: seq<PageId>, tracked: map<PageId, Option<nat>>, n: nat)
    requires n <= |trace| && n <= |order|
  {
    forall i :: 0 <= i < n ==> CleanAt(trace, order, tracked, i)
  }

  lemma TraceSame(trace: seq<Pages>, s: Pages, order: seq<PageId>, tracked: map<PageId, Option<nat>>, n: nat)
    requires n <= |trace| && n <= |order|
    ensures AllFinishable(trace + [s], order, tracked, n) <==> AllFinishable(trace, order, tracked, n)
    ensures AllClean(trace + [s], order, tracked, n) <==> AllClean(trace, order, tracked, n)
  {
    hide Finishable;
    hide CleanSlot;
    forall i | 0 <= i < n
      ensures FinishableAt(trace + [s], order, tracked, i) <==> FinishableAt(trace, order, tracked, i)
      ensures CleanAt(trace + [s], order, tracked, i) <==> CleanAt(trace, order, tracked, i)
    {
      assert (trace + [s])[i] == trace[i];
    }
    if AllFinishable(trace + [s], order, tracked, n) {
      forall i | 0 <= i < n ensures FinishableAt(trace, order, tracked, i) {
        assert FinishableAt(trace + [s], order, tracked, i);
      }
    }
    if AllClean(trace + [s], order, tracked, n) {
      forall i | 0 <= i < n ensures CleanAt(trace, order, tracked, i) {
        assert CleanAt(trace + [s], order, tracked, i);
      }
    }
  }

  lemma OneMore(trace: seq<Pages>, order: seq<PageId>, tracked: map<PageId, Option<nat>>, n: nat)
    requires n < |trace| && n < |order|
    ensures AllFinishable(trace, order, tracked, n + 1) <==>
            AllFinishable(trace, order, tracked, n) && FinishableAt(trace, order, tracked, n)
    ensures AllClean(trace, order, tracked, n + 1) <==>
            AllClean(trace, order, tracked, n) && CleanAt(trace, order, tracked, n)
  {
    hide FinishableAt;
    hide CleanAt;
  }

  /** Every round that succeeded could: as long as the rounds were clean. */
  ghost predicate RoundsHold(s: Pages, trace: seq<Pages>, order: seq<PageId>, tracked: map<PageId, Option<nat>>)
  {
    Sound(s) ==>
      forall n :: 0 <= n < |trace| && n <= |order| && AllClean(trace, order, tracked, n) ==>
        AllFinishable(trace, order, tracked, n)
  }

  /** The pages a round starts from are what the round before it made of its
      own. */
  ghost predicate RoundsTaken(trace: seq<Pages>, order: seq<PageId>, tracked: map<PageId, Option<nat>>)
    requires |trace| <= |order| + 1
  {
    forall i :: 0 <= i < |trace| - 1 ==> TakenAt(trace, order, tracked, i)
  }

  ghost predicate TakenAt(trace: seq<Pages>, order: seq<PageId>, tracked: map<PageId, Option<nat>>, i: nat)
    requires i + 1 < |trace| && i < |order|
  {
    Taken(trace[i], order[i], SlotOf(tracked, order[i]), trace[i + 1])
  }

  lemma RoundTaken(trace: seq<Pages>, order: seq<PageId>, tracked: map<PageId, Option<nat>>, s': Pages)
    requires 0 < |trace| <= |order| && RoundsTaken(trace, order, tracked)
    requires Taken(trace[|trace| - 1], order[|trace| - 1], SlotOf(tracked, order[|trace| - 1]), s')
    ensures RoundsTaken(trace + [s'], order, tracked)
  {
    hide Taken;
    forall i | 0 <= i < |trace| ensures TakenAt(trace + [s'], order, tracked, i) {
      assert i < |trace| - 1 ==> TakenAt(trace, order, tracked, i);
    }
  }

  /** How a pass over `s` went: which splits were pending and in what order they
      were taken, and the pages each round started from, made from those of the
      round before by finishing its split. The pass succeeded exactly
      when every round did, and on a sound file, while the rounds are clean, that
      is exactly when each could be finished. */
  ghost predicate Undone(s: Pages, tracked: map<PageId, Option<nat>>, order: seq<PageId>, trace: seq<Pages>, ok: bool)
  {
    && Scheduled(s, order) && (forall p: PageId :: p in order <==> Flagged(s, p))
    && 1 <= |trace| <= |order| + 1 && trace[0] == s && (ok <==> |trace| == |order| + 1)
    && RoundsTaken(trace, order, tracked) && RoundsHold(s, trace, order, tracked)
    && (Sound(s) && AllClean(trace, order, tracked, Started(trace, order)) ==>
          (ok <==> AllFinishable(trace, order, tracked, Started(trace, order))))
  }

  lemma RoundHolds(s: Pages, trace: seq<Pages>, s': Pages, order: seq<PageId>, tracked: map<PageId, Option<nat>>)
    requires RoundsHold(s, trace, order, tracked) && 0 < |trace| <= |order|
    requires Sound(s) && AllClean(trace, order, tracked, |trace|) ==> FinishableAt(trace, order, tracked, |trace| - 1)
    ensures RoundsHold(s, trace + [s'], order, tracked)
  {
    hide AllClean;
    hide AllFinishable;
    hide FinishableAt;
    hide CleanAt;
    hide Sound;
    if Sound(s) {
      forall n | 0 <= n < |trace| + 1 && n <= |order| && AllClean(trace + [s'], order, tracked, n)
        ensures AllFinishable(trace + [s'], order, tracked, n)
      {
        TraceSame(trace, s', order, tracked, n);
        if n == |trace| {
          OneMore(trace, order, tracked, n - 1);
        }
      }
    }
  }

  lemma RoundBooked(s: Pages, trace: seq<Pages>, s': Pages, order: seq<PageId>, tracked: map<PageId, Option<nat>>)
    requires 0 < |trace| <= |order| && RoundsTaken(trace, order, tracked) && RoundsHold(s, trace, order, tracked)
    requires Taken(trace[|trace| - 1], order[|trace| - 1], SlotOf(tracked, order[|trace| - 1]), s')
    requires Sound(s) && AllClean(trace, order, tracked, |trace|) ==> FinishableAt(trace, order, tracked, |trace| - 1)
    ensures RoundsTaken(trace + [s'], order, tracked) && RoundsHold(s, trace + [s'], order, tracked)
    ensures AllClean(trace + [s'], order, tracked, |trace|) <==> AllClean(trace, order, tracked, |trace|)
  {
    hide *;
    RoundTaken(trace, order, tracked, s');
    RoundHolds(s, trace, s', order, tracked);
    TraceSame(trace, s', order, tracked, |trace|);
  }

  /** `BTreeUndoHandler::undo`. Whatever splits the crash left behind, in
      however many indexes, nested or not: once the pass succeeds no page is
      flagged, and every leaf chain is in order and spells out what it did
      before. In a sound file the pass succeeds exactly if every round it starts
      can be finished, on the pages that round finds (`trace`). */
  method Undo(u: UndoPass, tracked: map<PageId, Option<nat>>, ghost chain: seq<PageId>)
    returns (r: Result<()>, ghost chain': seq<PageId>, ghost order: seq<PageId>, ghost trace: seq<Pages>)
    requires u.Valid() && Ready(u.pages, chain)
    requires forall p :: p in tracked ==> Flagged(u.pages, p)
    modifies u
    ensures r.Ok? ==> forall p :: 0 <= p < |u.pages| ==> !u.pages[p].flags.splitIncomplete
    ensures r.Ok? ==> Ready(u.pages, chain') && Contents(u.pages, chain') == Contents(old(u.pages), chain)
    ensures r.Ok? && NoneNamed(old(u.pages), chain) && Hinted(old(u.pages), chain) ==> TreeInv(u.pages, chain')
    ensures Undone(old(u.pages), tracked, order, trace, r.Ok?) && (r.Ok? ==> trace[|order|] == u.pages)
    ensures UndoRun(u.base, u.hist, u.events) && old(u.hist) <= u.hist && old(u.events) <= u.events
    ensures r.Ok? ==> u.Valid()
  {
    hide UndoRun;
    hide Sane;
    hide SpineInv;
    hide Contents;
    hide Sound;
    hide Finishable;
    hide CleanSlot;
    hide StraightSlot;
    hide NoneNamed;
    hide Hinted;
    hide Paired;
    hide OnlyFinished;
    hide Ready;
    hide Scheduled;
    hide PlanOf;
    hide AllClean;
    hide AllFinishable;
    hide RoundsHold;
    hide RoundsTaken;
    hide Taken;
    var todo := Schedule(u.pages, tracked);
    ghost var s0 := u.pages;
    order, chain', trace := todo, chain, [s0];
    NothingTaken(s0, order, tracked);
    var i := 0;
    while i < |todo|
      invariant 0 <= i <= |todo| && todo == order && u.Valid() && Ready(u.pages, chain')
      invariant old(u.hist) <= u.hist && old(u.events) <= u.events
      invariant forall p: PageId :: Flagged(u.pages, p) <==> p in order[i..]
      invariant Contents(u.pages, chain') == Contents(s0, chain)
      invariant NoneNamed(s0, chain) ==> NoneNamed(u.pages, chain') && (Hinted(s0, chain) ==> Hinted(u.pages, chain'))
      invariant |trace| == i + 1 && trace[0] == s0 && trace[i] == u.pages
      invariant Sound(s0) && AllClean(trace, order, tracked, i) ==> Sound(u.pages)
      invariant RoundsHold(s0, trace, order, tracked) && RoundsTaken(trace, order, tracked)
    {
      var left := todo[i];
      assert left in order[i..];
      assert Flagged(u.pages, left);
      PairIn(u.pages, chain', left);
      ghost var s := u.pages;
      var done;
      ghost var plan;
      done, chain', plan := FinishNext(u, left, SlotOf(tracked, left), chain');
      if CleanAt(trace, order, tracked, i) {
        CleanIsStraight(s, left, SlotOf(tracked, left));
      }
      OneMore(trace, order, tracked, i);
      if done.Err? {
        return Err(done.error), chain', order, trace;
      }
      StillFlagged(s0, order, i, s, SlotOf(tracked, left), u.pages);
      RoundBooked(s0, trace, u.pages, order, tracked);
      trace := trace + [u.pages];
      i := i + 1;
    }
    NoneLeft(u.pages, chain');
    assert Started(trace, order) == |order|;
    RoundsHeld(s0, trace, order, tracked, |order|);
    return Ok(()), chain', order, trace;
  }

  lemma RoundsHeld(s: Pages, trace: seq<Pages>, order: seq<PageId>, tracked: map<PageId, Option<nat>>, n: nat)
    requires RoundsHold(s, trace, order, tracked) && n < |trace| && n <= |order|
    ensures Sound(s) && AllClean(trace, order, tracked, n) ==> AllFinishable(trace, order, tracked, n)
  {}

  lemma NoneLeft(s: Pages, chain: seq<PageId>)
    requires Ready(s, chain) && forall p: PageId :: !Flagged(s, p)
    ensures SpineInv(s, chain) && forall p :: 0 <= p < |s| ==> !s[p].flags.splitIncomplete
  {
    forall p | 0 <= p < |s| ensures !s[p].flags.splitIncomplete {
      assert !Flagged(s, p);
    }
  }

  lemma PairIn(s: Pages, chain: seq<PageId>, left: PageId)
    requires Ready(s, chain) && Flagged(s, left)
    ensures s[left].next < |s|
  {}

  lemma CleanIsStraight(s: Pages, left: PageId, slot: Option<nat>)
    requires left < |s| && s[left].next < |s| && CleanSlot(s, left, slot)
    ensures StraightSlot(s, left, slot)
  {}

  lemma NothingTaken(s: Pages, order: seq<PageId>, tracked: map<PageId, Option<nat>>)
    ensures RoundsHold(s, [s], order, tracked) && RoundsTaken([s], order, tracked)
  {}

  lemma TakenFinishes(s: Pages, left: PageId, slot: Option<nat>, s': Pages)
    requires Taken(s, left, slot, s')
    ensures OnlyFinished(s, left, s')
  {}

  lemma StillFlagged(s0: Pages, order: seq<PageId>, i: nat, s: Pages, slot: Option<nat>, s': Pages)
    requires Scheduled(s0, order) && i < |order| && Taken(s, order[i], slot, s')
    requires forall p: PageId :: Flagged(s, p) <==> p in order[i..]
    ensures forall p: PageId :: Flagged(s', p) <==> p in order[i + 1..]
  {
    hide Scheduled;
    hide Taken;
    hide OnlyFinished;
    DropFirst(s0, order, i);
    TakenFinishes(s, order[i], slot, s');
    RoundFlags(s, order[i], s');
  }

  lemma RoundFlags(s: Pages, left: PageId, s': Pages)
    requires OnlyFinished(s, left, s')
    ensures forall p: PageId :: Flagged(s', p) <==> Flagged(s, p) && p != left
  {
    forall p: PageId | p < |s| ensures Flagged(s', p) <==> Flagged(s, p) && p != left {
      assert RoundAt(s, left, s', p);
    }
  }

  lemma DropFirst(s0: Pages, order: seq<PageId>, i: nat)
    requires Scheduled(s0, order) && i < |order|
    ensures forall p: PageId :: p in order[i + 1..] <==> p in order[i..] && p != order[i]
  {
    assert order[i..] == [order[i]] + order[i + 1..];
    forall j | i < j < |order| ensures order[j] != order[i] {
      assert Before(s0, order[i], order[j]);
    }
  }
}

/** The index as it runs (crates/pg-am-btree/src/index.rs): deletes, inserts,
    splits and root promotions on the page file, each logging what it does.

    The methods keep, as a ghost, the history of the file, so everything the
    other modules prove of disciplined runs holds of what they did. A descent
    is a parameter: it may enter the chain at any leaf. */
module BtreeIndex {
  import opened Keys
  import opened Outcome
  import opened Sequences
  import opened BtreePages
  import opened BtreeLog
  import opened BtreeReplay
  import opened BtreeChain
  import opened BtreeContent
  import opened BtreeRuns
  import opened BtreeSearch
  import opened BtreeWalk
  import opened BtreeReads
  import opened BtreePlacement
  import opened BtreeInner
  import opened BtreeClr
  import opened BtreeRound
  import opened BtreeReady
  import opened BtreeRedo
  import opened BtreeScan
  import opened BtreeUndo
  import opened BtreeRefusals
  import opened BtreeRooted
  import opened BtreeAssured
  import opened BtreeRecovery
  import opened BtreeCareful
  import opened BtreePending
  import opened BtreeSplit
  import opened BtreeClimb
  import opened BtreeTidy

  lemma {:induction false} ChainPrefix(first: seq<PageId>, log: seq<Record>, r: Record, k: nat)
    requires k <= |log|
    ensures ChainAfter(first, log + [r], k) == ChainAfter(first, log, k)
  {
    if k == 0 {
    } else {
      ChainPrefix(first, log, r, k - 1);
    }
  }

  /** A disciplined record extends a disciplined run. */
  lemma ExtendRun(h: seq<Pages>, first: seq<PageId>, log: seq<Record>, r: Record, s': Pages)
    requires IsHistory(h, log) && DisciplinedRun(h, first, log) && OrderlyRun(h, log)
    requires Appended(h[|log|], r, |log| + 1, s') && Disciplined(h[|log|], ChainAfter(first, log, |log|), r)
    requires Orderly(h[|log|], r)
    ensures IsHistory(h + [s'], log + [r]) && DisciplinedRun(h + [s'], first, log + [r]) && OrderlyRun(h + [s'], log + [r])
    ensures ChainAfter(first, log + [r], |log| + 1) == NextChain(ChainAfter(first, log, |log|), r)
  {
    hide Disciplined;
    hide Orderly;
    hide Appended;
    var h', log' := h + [s'], log + [r];
    forall i | 0 <= i < |log'|
      ensures HistoryStep(h', log', i) && DisciplinedAt(h', first, log', i) && Orderly(h'[i], log'[i])
    {
      ChainPrefix(first, log, r, i);
      assert i < |log| ==> HistoryStep(h, log, i) && DisciplinedAt(h, first, log, i) && Orderly(h[i], log[i]);
    }
    ChainPrefix(first, log, r, |log|);
  }

  /** The file is the end of a disciplined, orderly online run, and its leaf chain
      is sound. */
  ghost predicate RunsTo(h: seq<Pages>, first: seq<PageId>, log: seq<Record>, chain: seq<PageId>, s: Pages)
  {
    && IsHistory(h, log) && h[|log|] == s && TreeInv(h[0], first) && OnlineReady(h[0], first)
    && DisciplinedRun(h, first, log) && OrderlyRun(h, log) && chain == ChainAfter(first, log, |log|)
    && TreeInv(s, chain)
  }

  /** Images are logged for pages of the upper levels only, and no page a Copy
      fills was imaged before. */
  ghost predicate ImagesKnown(log: seq<Record>, inner: set<PageId>)
  {
    && RightPagesNotImaged(log)
    && forall i :: 0 <= i < |log| && log[i].Image? ==> log[i].page in inner
  }

  lemma ImagesStep(log: seq<Record>, inner: set<PageId>, r: Record)
    requires ImagesKnown(log, inner) && (r.Copy? ==> r.right !in inner)
    ensures ImagesKnown(log + [r], if r.Image? then inner + {r.page} else inner)
  {}

  lemma ImagesGrow(log: seq<Record>, inner: set<PageId>, inner': set<PageId>)
    requires ImagesKnown(log, inner) && inner <= inner'
    ensures ImagesKnown(log, inner')
  {}

  lemma RunTree(h: seq<Pages>, first: seq<PageId>, log: seq<Record>, chain: seq<PageId>, s: Pages)
    requires RunsTo(h, first, log, chain, s)
    ensures TreeInv(s, chain)
  {}

  lemma RunIsRecorded(h: seq<Pages>, first: seq<PageId>, log: seq<Record>, chain: seq<PageId>, s: Pages)
    requires RunsTo(h, first, log, chain, s)
    ensures IndexRun(h, first, log)
  {}

  lemma Applies(s: Pages, r: Record, lsn: Lsn)
    requires Describes(s, r, lsn) && Online(s, r, lsn).Ok?
    ensures WithinFile(r, |s|) && Appended(s, r, lsn, Online(s, r, lsn).value)
  {}

  lemma Advance(h: seq<Pages>, first: seq<PageId>, log: seq<Record>, chain: seq<PageId>, s: Pages, r: Record, s': Pages)
    requires RunsTo(h, first, log, chain, s) && Appended(s, r, |log| + 1, s') && Disciplined(s, chain, r) && Orderly(s, r)
    ensures RunsTo(h + [s'], first, log + [r], NextChain(chain, r), s')
    ensures Contents(s', NextChain(chain, r)) == NextContents(s, chain, r)
  {
    assert h != [] && |h| == |log| + 1 && h[|log|] == s && IsHistory(h, log) && DisciplinedRun(h, first, log);
    assert OrderlyRun(h, log) && OnlineReady(h[0], first);
    hide Disciplined;
    hide Orderly;
    hide OnlineReady;
    hide Appended;
    hide SpineInv;
    hide Hinted;
    hide Contents;
    StepRefines(s, chain, r, |log| + 1, s');
    ExtendRun(h, first, log, r, s');
  }

  /** At its lower bound an absent pair is in its place. */
  lemma LowerBoundPlaced(es: seq<Entry>, e: Entry)
    requires Sorted(es) && e !in es
    ensures Placed(es, LowerBound(es, e), e)
  {
    LowerBoundSplits(es, e);
    forall i | LowerBound(es, e) <= i < |es| ensures EntryLess(e, es[i]) {
      EntryTrichotomy(e, es[i]);
      assert es[i] in es;
    }
  }

  /** Only its place keeps the set sorted. */
  lemma MisplacedUnsorted(es: seq<Entry>, at: nat, e: Entry)
    requires at <= |es| && !Placed(es, at, e)
    ensures !Sorted(InsertAt(es, at, e))
  {
    var es' := InsertAt(es, at, e);
    if i :| 0 <= i < at && !EntryLess(es[i], e) {
      assert es'[i] == es[i] && es'[at] == e;
    } else {
      var i :| at <= i < |es| && !EntryLess(e, es[i]);
      assert es'[i + 1] == es[i] && es'[at] == e;
    }
  }

  /** The run behind the file was careful, from a sound start. */
  ghost predicate CarefulTo(h: seq<Pages>, first: seq<PageId>, log: seq<Record>)
  {
    |h| == |log| + 1 && CarefulRun(h, first, log) && RunSound(h[0], first)
  }

  lemma ExtendCareful(h: seq<Pages>, first: seq<PageId>, log: seq<Record>, chain: seq<PageId>, s: Pages, r: Record, s': Pages)
    requires RunsTo(h, first, log, chain, s) && CarefulTo(h, first, log) && Careful(s, chain, r)
    ensures CarefulTo(h + [s'], first, log + [r])
  {
    var h', log' := h + [s'], log + [r];
    hide Careful;
    hide RunSound;
    hide TreeInv;
    hide OnlineReady;
    forall i | 0 <= i < |log'| ensures CarefulAt(h', first, log', i) {
      ChainPrefix(first, log, r, i);
      assert i < |log| ==> CarefulAt(h, first, log, i);
    }
  }

  /** So the file is sound, whatever splits are pending in it. */
  lemma CarefulSound(h: seq<Pages>, first: seq<PageId>, log: seq<Record>, chain: seq<PageId>, s: Pages)
    requires RunsTo(h, first, log, chain, s) && CarefulTo(h, first, log)
    ensures RunSound(s, chain)
  {
    hide RunSound;
    hide TreeInv;
    hide OnlineReady;
    EveryPrefixSound(h, first, log, |log|);
  }

  /** The split of `left` onto `right` is pending. */
  ghost predicate Splitting(s: Pages, left: PageId, right: PageId)
  {
    left < |s| && s[left].flags.splitIncomplete && s[left].next == right
  }

  /** The root stays, or a page from outside the tree becomes it. */
  ghost predicate RootGrown(s: Pages, s': Pages, chain: seq<PageId>, inner: set<PageId>, meta: PageId)
  {
    && meta < |s| && meta < |s'| && s[meta].entries != [] && s'[meta].entries != []
    && (LastOf(s'[meta]).page == LastOf(s[meta]).page || !InTree(chain, inner, LastOf(s'[meta]).page))
  }

  /** A pending split of a page that is not the root, onto one that is not. */
  ghost predicate Committable(s: Pages, meta: PageId, left: PageId, right: PageId)
  {
    && Splitting(s, left, right) && meta < |s| && s[meta].entries != []
    && LastOf(s[meta]).page != left && LastOf(s[meta]).page != right
  }

  /** The page takes the pair and a line pointer. */
  predicate HasSpace(s: Pages, p: PageId, e: Entry)
  {
    p < |s| && FreeSpace(s[p]) >= EntryCost(0, e)
  }

  class Index {
    var pages: Pages
    var log: seq<Record>
    var meta: PageId
    var rootPage: PageId
    var treeLevel: nat
    var free: seq<PageId>
    ghost var hist: seq<Pages>
    ghost var first: seq<PageId>
    ghost var chain: seq<PageId>
    ghost var inner: set<PageId>

    ghost predicate Recorded()
      reads this
    {
      RunsTo(hist, first, log, chain, pages)
    }

    ghost predicate Valid()
      reads this
    {
      && Recorded() && Settled(pages, chain) && WithinKeyBound(Contents(pages, chain))
      && Upper(pages, chain, inner, free, meta) && ImagesKnown(log, inner)
    }

    /** No stray internal pages, and a careful run: then every file a crash can
        leave is sound for the undo pass. Every method keeps it. */
    ghost predicate Tidy()
      reads this
    {
      TidyPages(pages, inner, meta) && CarefulTo(hist, first, log)
    }

    /** An index over any sound tree, its history starting here. */
    constructor (s: Pages, meta: PageId, free: seq<PageId>, ghost chain: seq<PageId>, ghost inner: set<PageId>)
      requires TreeInv(s, chain) && Settled(s, chain) && WithinKeyBound(Contents(s, chain))
      requires Upper(s, chain, inner, free, meta) && OnlineReady(s, chain) && forall p :: 0 <= p < |s| ==> s[p].lsn == 0
      ensures Valid() && pages == s && this.chain == chain && log == []
      ensures this.meta == meta && this.free == free && this.inner == inner
      ensures TidyPages(s, inner, meta) && RunSound(s, chain) ==> Tidy()
    {
      pages, log, this.meta, this.free := s, [], meta, free;
      rootPage, treeLevel := LastOf(s[meta]).page, LastOf(s[meta]).slot;
      hist, first, this.chain, this.inner := [s], chain, chain, inner;
    }

    /** `create`: a root leaf and a meta page that names it, over a file with
        some spare pages. It stands for the empty set. */
    constructor Create(spare: nat)
      ensures Valid() && Tidy() && Contents(pages, chain) == [] && |free| == spare
    {
      hide Settled;
      hide Upper;
      hide TreeInv;
      hide Contents;
      hide OnlineReady;
      hide TidyPages;
      hide RunSound;
      pages, log, meta, free := NewFile(spare), [], 1, seq(spare, i requires 0 <= i => 3 + i);
      rootPage, treeLevel := 2, 0;
      hist, first, chain, inner := [NewFile(spare)], [2], [2], {};
      NewFileSound(spare);
      NewFileTidy(spare);
    }

    /** Whatever the methods did: from any crash image the flush order of the
        splits allows, replaying the log brings back exactly these pages, and
        their chain holds what was inserted and not deleted. */
    lemma Recoverable(disk: Pages, c: nat)
      requires Valid() && c <= |log| < |hist| && OnHistory(hist, disk) && |hist[c]| == |disk| && CaughtUp(hist, disk, c)
      requires RightBeforeLeft(log, disk) && |hist| == |log| + 1
      ensures Replay(disk, log, c) == Ok(pages)
      ensures Elements(Contents(pages, chain)) == LiveAfter(hist, first, log, |log|)
    {
      hide TreeInv;
      hide Contents;
      hide Upper;
      hide Settled;
      FlushOrderIsSafe(log, disk, c);
      ReplayConverges(hist, log, disk, c);
      ContentsRefine(hist, first, log, |log|);
    }

    /** A crash at any moment of what the methods did: the first `k` records
        survive, the file is any image the flush order of the splits allows,
        and recovery starts at any redo point whose effects are in it. When it
        succeeds no split is pending, and the leaf chain holds exactly what the
        surviving records inserted and did not delete. When no internal page was
        left astray, the file redo brings back is sound for the undo pass, so
        `Undone` says exactly when recovery succeeds; an assured one is always
        recovered, without a lost downlink. */
    method CrashAndRecover(disk: Pages, k: nat, c: nat)
      returns (r: Result<Pages>, ghost leaves: seq<PageId>, ghost order: seq<PageId>, ghost trace: seq<Pages>)
      requires Valid() && c <= k <= |log| && |hist| == |log| + 1
      requires CrashImage(hist[..k + 1], log[..k], disk, c) && RightBeforeLeft(log[..k], disk)
      ensures r.Ok? ==> forall p :: 0 <= p < |r.value| ==> !r.value[p].flags.splitIncomplete
      ensures r.Ok? ==> SpineInv(r.value, leaves)
      ensures r.Ok? ==> Elements(Contents(r.value, leaves)) == LiveAfter(hist, first, log, k)
      ensures (forall p: PageId :: !Flagged(hist[k], p)) ==> r == Ok(hist[k])
      ensures Undone(hist[k], Track(log[..k], c, k), order, trace, r.Ok?) && (Tidy() ==> Sound(hist[k]))
      ensures r.Ok? ==> trace[|order|] == r.value
      ensures Assured(hist[k], Track(log[..k], c, k)) ==> r.Ok? && EntriesKept(hist[k], r.value)
    {
      hide SpineInv;
      hide Contents;
      hide Upper;
      hide Settled;
      hide Undone;
      hide Assured;
      hide EntriesKept;
      hide Sound;
      hide RunSound;
      hide TidyPages;
      RunIsRecorded(hist, first, log, chain, pages);
      if CarefulTo(hist, first, log) {
        EveryPrefixSound(hist, first, log, k);
      }
      PrefixRun(hist, first, log, k);
      assert RightPagesNotImaged(log[..k]);
      hide IndexRun;
      hide RunsTo;
      hide CrashImage;
      ghost var files, events;
      r, leaves, order, trace, files, events := Recover(disk, log[..k], c, hist[..k + 1], first);
    }

    /** A crash between the record that publishes a promotion and the Commit of
        the root split behind it (`CreateNewRoot` says which file that is):
        whatever was flushed, recovery is refused unless the right page was
        drained. */
    method CrashAfterPublishing(left: PageId, disk: Pages, k: nat, c: nat) returns (r: Result<Pages>)
      requires Valid() && Tidy() && c <= k <= |log| && |hist| == |log| + 1
      requires CrashImage(hist[..k + 1], log[..k], disk, c) && RightBeforeLeft(log[..k], disk)
      requires Dethroned(hist[k], left)
      ensures r.Ok? ==> UnlinkPlan(hist[k], left)
    {
      hide Dethroned;
      hide Undone;
      hide Upper;
      hide Settled;
      hide Contents;
      hide RunsTo;
      hide CrashImage;
      hide Sound;
      hide CarefulTo;
      hide TidyPages;
      hide Assured;
      ghost var leaves, order, trace;
      r, leaves, order, trace := CrashAndRecover(disk, k, c);
      PromotionLost(hist[k], left, Track(log[..k], c, k), order, trace, r.Ok?);
    }

    /** Append the record, apply it under the latches, stamp the pages. */
    method LogAndApply(r: Record)
      requires Recorded() && Describes(pages, r, |log| + 1) && Online(pages, r, |log| + 1).Ok?
      modifies this
      ensures log == old(log) + [r] && first == old(first) && chain == NextChain(old(chain), r)
      ensures inner == old(inner) && free == old(free) && meta == old(meta)
      ensures rootPage == old(rootPage) && treeLevel == old(treeLevel)
      ensures old(ImagesKnown(log, inner)) && (r.Copy? ==> r.right !in inner) ==>
                ImagesKnown(log, if r.Image? then inner + {r.page} else inner)
      ensures Appended(old(pages), r, |log|, pages)
      ensures old(CarefulTo(hist, first, log) && Careful(pages, chain, r)) ==> CarefulTo(hist, first, log)
      ensures old(Disciplined(pages, chain, r) && Orderly(pages, r)) ==>
                Recorded() && Contents(pages, chain) == old(NextContents(pages, chain, r))
    {
      hide Online;
      hide Describes;
      hide Appended;
      hide Disciplined;
      hide Orderly;
      hide NextContents;
      hide NextChain;
      hide Contents;
      hide RunsTo;
      hide ImagesKnown;
      hide CarefulTo;
      hide Careful;
      Applies(pages, r, |log| + 1);
      if ImagesKnown(log, inner) && (r.Copy? ==> r.right !in inner) {
        ImagesStep(log, inner, r);
      }
      ghost var s, h, l := pages, hist, log;
      log := log + [r];
      pages := Online(pages, r, |log|).value;
      hist := hist + [pages];
      if CarefulTo(h, first, l) && Careful(s, chain, r) {
        ExtendCareful(h, first, l, chain, s, r, pages);
      }
      if Disciplined(s, chain, r) && Orderly(s, r) {
        Advance(h, first, l, chain, s, r, pages);
      }
      chain := NextChain(chain, r);
    }

    /** `delete`: removes exactly the pair, and refuses only what the index
        does not hold or cannot reach within the hop bound. */
    method Delete(e: Entry, start: PageId) returns (r: Result<nat>)
      requires Valid() && start in chain
      modifies this
      ensures Valid() && chain == old(chain) && inner == old(inner) && free == old(free) && meta == old(meta)
      ensures r.Ok? ==> e in old(Contents(pages, chain))
      ensures r.Ok? ==> forall x :: x in Contents(pages, chain) <==> x in old(Contents(pages, chain)) && x != e
      ensures r.Err? ==> pages == old(pages) && log == old(log)
      ensures r == Err(EntryNotFound) ==> e !in old(Contents(pages, chain))
      ensures 2 * |chain| <= MAX_CHAIN_HOPS ==> (r.Ok? <==> e in old(Contents(pages, chain)))
      ensures old(Tidy()) ==> Tidy()
    {
      hide TreeInv;
      hide Contents;
      hide Online;
      hide TidyPages;
      hide CarefulTo;
      hide Careful;
      TreeParts(pages, chain);
      var found := FindForDelete(pages, start, e, chain);
      if found.Err? {
        return Err(found.error);
      }
      var (leaf, slot) := found.value;
      ghost var s, k := pages, IndexOf(chain, leaf);
      DeleteApplies(s, chain, k, slot, |log| + 1);
      QuietCareful(s, chain, BtreeLog.Delete(leaf, slot));
      LogAndApply(BtreeLog.Delete(leaf, slot));
      DeleteEffect(s, chain, k, slot, |log|, pages);
      UpperKept(s, pages, chain, inner, free, meta, leaf);
      TidyKept(s, pages, chain, leaf, inner, free, meta);
      return Ok(slot);
    }

    /** The optimistic pass of `insert`: `Ok(true)` when the pair was placed,
        `Ok(false)` when the leaf it belongs on is full. Placing an absent pair
        keeps the index sound exactly when no blind hint misled the walk. */
    method TryInsert(e: Entry, start: PageId) returns (r: Result<bool>)
      requires Valid() && start in chain
      modifies this
      ensures chain == old(chain) && inner == old(inner) && free == old(free) && meta == old(meta)
      ensures |e.key| > MAX_INDEX_KEY_BYTES <==> r == Err(KeyTooLarge)
      ensures r != Ok(true) ==> pages == old(pages) && log == old(log) && Valid()
      ensures r == Err(DuplicateKey) ==> e in old(Contents(pages, chain))
      ensures r.Ok? <==> |e.key| <= MAX_INDEX_KEY_BYTES && old(Place(pages, start, e, 0)).Ok?
      ensures r.Ok? ==> (r.value <==> HasSpace(old(pages), old(Place(pages, start, e, 0)).value.0, e))
      ensures r == Ok(true) ==>
                (Valid() <==> e !in old(Contents(pages, chain))
                              && !old(Misled(pages, chain, IndexOf(chain, start), e)))
      ensures r == Ok(true) && Valid() ==>
                forall x :: x in Contents(pages, chain) <==> x in old(Contents(pages, chain)) || x == e
      ensures old(Tidy()) ==> Tidy()
    {
      hide TreeInv;
      hide Contents;
      hide Online;
      hide TidyPages;
      hide CarefulTo;
      hide Careful;
      hide Place;
      hide Misled;
      TreeParts(pages, chain);
      if |e.key| > MAX_INDEX_KEY_BYTES {
        return Err(KeyTooLarge);
      }
      var place := PinLeafForInsert(pages, start, e, chain);
      if place.Err? {
        PlacementErrors(pages, chain, IndexOf(chain, start), e);
        return Err(place.error);
      }
      var (leaf, pos) := place.value;
      ghost var s, i := pages, IndexOf(chain, start);
      ghost var k := Landing(s, chain, i, e, leaf, pos);
      if FreeSpace(pages[leaf]) < EntryCost(0, e) {
        return Ok(false);
      }
      InsertApplies(s, chain, k, pos, e, |log| + 1);
      QuietCareful(s, chain, InsertRecord(pages, leaf, pos, e));
      LogAndApply(InsertRecord(pages, leaf, pos, e));
      InsertEffect(s, chain, k, pos, e, |log|, pages);
      UpperKept(s, pages, chain, inner, free, meta, leaf);
      TidyKept(s, pages, chain, leaf, inner, free, meta);
      return Ok(true);
    }

    /** The records of the first two steps of a split. */
    method LogSplit(left: PageId, right: PageId, start: nat)
      requires Recorded() && Splittable(pages, left, right) && (left !in chain ==> pages[left].level > 0)
      requires 0 < right && right !in chain && right !in inner && ImagesKnown(log, inner)
      requires 1 <= start < |pages[left].entries| && Orderly(pages, PrepareRecord(pages, left, right))
      modifies this
      ensures Recorded() && Contents(pages, chain) == old(Contents(pages, chain)) && ImagesKnown(log, inner)
      ensures chain == SplitChain(old(chain), left, right) && SplitPair(old(pages), pages, left, right, start)
      ensures inner == old(inner) && free == old(free) && meta == old(meta)
      ensures old(CarefulTo(hist, first, log) && Careful(pages, chain, PrepareRecord(pages, left, right))) ==>
                CarefulTo(hist, first, log)
    {
      hide Contents;
      hide Online;
      hide Describes;
      hide Disciplined;
      hide ImagesKnown;
      hide SplitPair;
      hide PreparedPair;
      hide NextContents;
      hide NextChain;
      hide CarefulTo;
      hide Careful;
      RunTree(hist, first, log, chain, pages);
      hide RunsTo;
      hide TreeInv;
      ghost var s, c := pages, chain;
      PrepareApplies(s, left, right, |log| + 1);
      SplitDisciplined(s, Online(s, PrepareRecord(s, left, right), |log| + 1).value, c, inner, left, right, start);
      PrepareIsQuiet(s, c, left, right);
      LogAndApply(PrepareRecord(pages, left, right));
      CopyApplies(s, pages, left, right, start, |log| + 1);
      CopyIsQuiet(pages, chain, left, right, start);
      CopyCareful(s, pages, chain, left, right, start);
      LogAndApply(CopyRecord(pages, left, right, start));
    }

    /** The first two steps of a split, Prepare and Copy, under one latch hold.
        The leaf chain spells out what it did before. */
    method SplitPage(left: PageId, right: PageId, pending: Option<Entry>) returns (r: Result<nat>)
      requires Valid() && (left in chain || left in inner) && left < |pages|
      requires IsSpare(pages, chain, inner, meta, right) && right !in free
      requires pending.Some? ==> |pending.value.key| <= MAX_INDEX_KEY_BYTES
      modifies this
      ensures r != Err(DuplicateKey)
      ensures Valid() && Contents(pages, chain) == old(Contents(pages, chain))
      ensures meta == old(meta) && free == old(free)
      ensures r.Err? <==> |old(pages)[left].entries| < 2 || old(pages)[left].flags.splitIncomplete
      ensures r.Err? ==> pages == old(pages) && log == old(log) && chain == old(chain) && inner == old(inner)
      ensures r.Ok? ==> SplitPair(old(pages), pages, left, right, r.value)
      ensures r.Ok? ==> chain == SplitChain(old(chain), left, right) && inner == SplitInner(old(inner), left, right)
      ensures r.Ok? ==> NoDownlink(pages, inner, right)
      ensures r.Ok? ==> forall c :: old(NoDownlink(pages, inner, c)) ==> NoDownlink(pages, inner, c)
      ensures r.Ok? && pending.Some? ==>
                ValidSplit(old(pages)[left].level, old(pages)[left].entries, pending.value, r.value)
      ensures r.Ok? ==> r.value == SplitStart(old(pages)[left], pending) && 1 <= r.value < |old(pages)[left].entries|
      ensures old(Tidy()) ==> Tidy()
    {
      hide TreeInv;
      hide Contents;
      hide Upper;
      hide NoDownlink;
      hide Settled;
      hide ImagesKnown;
      hide ValidSplit;
      hide SplitPair;
      hide TidyPages;
      hide CarefulTo;
      hide Careful;
      hide Internal;
      RunTree(hist, first, log, chain, pages);
      hide RunsTo;
      TreePage(pages, chain, inner, free, meta, left);
      var page := pages[left];
      if page.flags.splitIncomplete {
        return Err(Unsupported);
      }
      if |page.entries| < 2 {
        return Err(Corrupted);
      }
      var start := ChooseSplitSlot(page.level, page.entries, pending);
      ghost var s, c := pages, chain;
      PrepareTidy(s, c, inner, meta, left, right);
      LogSplit(left, right, start.value);
      SplitKeeps(s, pages, c, inner, free, meta, left, right, start.value);
      SplitTidy(s, pages, c, inner, free, meta, left, right, start.value);
      ImagesGrow(log, inner, SplitInner(inner, left, right));
      inner := SplitInner(inner, left, right);
      return Ok(start.value);
    }

    /** `reserve_split_page`: a page id from the allocator. */
    method Reserve() returns (r: Option<PageId>)
      requires Valid()
      modifies this
      ensures Valid() && pages == old(pages) && log == old(log) && chain == old(chain) && inner == old(inner)
      ensures meta == old(meta)
      ensures r.None? ==> free == old(free) == []
      ensures r.Some? ==> old(free) == [r.value] + free && r.value !in free && r.value < |pages|
      ensures r.Some? ==> IsSpare(pages, chain, inner, meta, r.value)
      ensures hist == old(hist) && first == old(first)
    {
      hide Contents;
      hide RunsTo;
      if free == [] {
        return None;
      }
      r := Some(free[0]);
      free := free[1..];
    }

    /** The records of a root promotion: the new page's image, its seed, and the
        meta page's new last record. */
    method LogNewRoot(left: PageId, newRoot: PageId, level: nat)
      requires Recorded() && IsSpare(pages, chain, inner, meta, newRoot) && level < MAX_LEVEL
      requires meta < |pages| && meta !in chain && pages[meta].level == 0 && GoodGeometry(pages[meta])
      requires FreeSpace(pages[meta]) >= 14 && ImagesKnown(log, inner)
      modifies this
      ensures Recorded() && Contents(pages, chain) == old(Contents(pages, chain)) && chain == old(chain)
      ensures inner == old(inner) + {newRoot} && free == old(free) && meta == old(meta) && ImagesKnown(log, inner)
      ensures Promoted(old(pages), pages, left, newRoot, meta, level)
      ensures old(CarefulTo(hist, first, log) && RootAt(pages, left)) ==> CarefulTo(hist, first, log)
    {
      hide Contents;
      hide Online;
      hide Describes;
      hide Disciplined;
      hide NoDownlink;
      hide ImagesKnown;
      hide NextContents;
      hide NextChain;
      hide Promoted;
      hide RunsTo;
      hide Orderly;
      hide Unclaimed;
      hide Accounted;
      hide CarefulTo;
      hide Careful;
      hide RootAt;
      ghost var s := pages;
      var image := Image(newRoot, NewRoot(level + 1));
      ImageApplies(s, newRoot, level, |log| + 1);
      NotALeaf(s, chain, image, newRoot);
      ImageOrderly(s, newRoot, level);
      PromotionCareful(hist, first, log, chain, s, left, newRoot, level);
      LogAndApply(image);
      inner := inner + {newRoot};
      SeedApplies(s, pages, left, newRoot, level, |log| + 1);
      NotALeaf(pages, chain, SeedRecord(left, newRoot, level), newRoot);
      LogAndApply(SeedRecord(left, newRoot, level));
      MetaApplies(s, pages, left, newRoot, meta, level, |log| + 1);
      NotALeaf(pages, chain, MetaRecord(pages, newRoot, meta, level), meta);
      QuietCareful(pages, chain, MetaRecord(pages, newRoot, meta, level));
      LogAndApply(MetaRecord(pages, newRoot, meta, level));
    }

    /** `create_new_root`: log and seed a page above the old root, then publish
        it in the meta page. */
    method CreateNewRoot(left: PageId, level: nat) returns (r: Result<PageId>)
      requires Valid() && (left in chain || left in inner) && left < |pages| && pages[left].level == level
      requires meta < |pages| && pages[meta].entries != [] && LastOf(pages[meta]).page == left
      modifies this
      ensures r != Err(DuplicateKey)
      ensures Valid() && Contents(pages, chain) == old(Contents(pages, chain)) && chain == old(chain) && meta == old(meta)
      ensures r.Err? ==> pages == old(pages) && log == old(log) && inner == old(inner) && free == old(free)
      ensures r.Err? <==> level >= MAX_LEVEL || old(free) == []
      ensures r.Ok? ==> old(free) == [r.value] + free && inner == old(inner) + {r.value}
      ensures r.Ok? ==> old(IsSpare(pages, chain, inner, meta, r.value))
      ensures r.Ok? ==> Promoted(old(pages), pages, left, r.value, meta, level)
      ensures r.Ok? ==> forall c :: c != left && old(NoDownlink(pages, inner, c)) ==> NoDownlink(pages, inner, c)
      ensures r.Ok? ==> rootPage == r.value && treeLevel == level + 1
      ensures old(Tidy()) ==> Tidy()
      ensures r.Ok? && old(Topmost(pages, meta, left) && OnlyMeta(pages, meta, left)) ==> Dethroned(pages, left)
    {
      hide TreeInv;
      hide Contents;
      hide Upper;
      hide NoDownlink;
      hide Settled;
      hide ImagesKnown;
      hide Promoted;
      hide RunsTo;
      hide Unclaimed;
      hide WithinKeyBound;
      hide TidyPages;
      hide CarefulTo;
      hide Topmost;
      hide OnlyMeta;
      hide Dethroned;
      RunTree(hist, first, log, chain, pages);
      TreePage(pages, chain, inner, free, meta, left);
      if level >= MAX_LEVEL {
        return Err(Corrupted);
      }
      MetaHasRoom(pages, chain, inner, free, meta);
      var id := Reserve();
      if id.None? {
        return Err(BufferPoolFull);
      }
      var newRoot := id.value;
      ghost var s, inner0 := pages, inner;
      TidyRoot(s, inner0, meta);
      LogNewRoot(left, newRoot, level);
      PromotedSettled(s, pages, chain, inner0, meta, left, newRoot, level);
      PromotedUpper(s, pages, chain, inner0, free, meta, left, newRoot, level);
      PromotedTidy(s, pages, chain, inner0, meta, left, newRoot, level);
      Dethrones(s, pages, chain, inner0, meta, left, newRoot, level);
      rootPage, treeLevel := newRoot, level + 1;
      return Ok(newRoot);
    }

    /** The Commit record itself, on a parent that has room. */
    method CommitOn(left: PageId, right: PageId, separator: Key, parent: PageId, slot: nat)
      requires Valid() && (left in chain || left in inner) && left < |pages| && parent in inner && parent < |pages|
      requires left != parent && 0 < |separator| <= MAX_INDEX_KEY_BYTES
      requires 0 < right < |pages| && right !in free && NoDownlink(pages, inner, right)
      requires slot == LowerBound(pages[parent].entries, Entry(separator, right, 0))
      requires FreeSpace(pages[parent]) >= EntryCost(pages[parent].level, Entry(separator, right, 0))
      modifies this
      ensures Valid() && Contents(pages, chain) == old(Contents(pages, chain))
      ensures chain == old(chain) && inner == old(inner) && free == old(free) && meta == old(meta)
      ensures CommitPair(old(pages), pages, left, parent, slot, Entry(separator, right, 0)) && |pages| == |old(pages)|
      ensures Entry(separator, right, 0) in pages[parent].entries
      ensures forall c :: c != right && old(NoDownlink(pages, inner, c)) ==> NoDownlink(pages, inner, c)
      ensures old(Tidy() && Committable(pages, meta, left, right)) ==> Tidy()
    {
      hide TidyPages;
      hide CarefulTo;
      hide Careful;
      hide Committable;
      hide TreeInv;
      hide Contents;
      hide Online;
      hide Describes;
      hide Disciplined;
      hide Upper;
      hide NoDownlink;
      hide Settled;
      hide ImagesKnown;
      hide NextContents;
      hide NextChain;
      hide CommitPair;
      ghost var s := pages;
      var downlink := Entry(separator, right, 0);
      TreePage(s, chain, inner, free, meta, left);
      TreePage(s, chain, inner, free, meta, parent);
      CommitApplies(s, left, right, parent, separator, slot, |log| + 1);
      CommitIsQuiet(s, chain, left, right, parent, separator, slot);
      CommittableCareful(s, chain, inner, meta, left, right, parent, separator, slot);
      LogAndApply(Commit(left, right, parent, separator, slot));
      CommitSettled(s, pages, chain, left, parent, slot, downlink);
      CommitUpper(s, pages, chain, inner, free, meta, left, parent, slot, downlink);
      CommittedTidy(s, pages, inner, meta, left, parent, slot, downlink);
      assert |pages| == |s| by {
        CommitSize(s, pages, left, parent, slot, downlink);
      }
    }

    /** The commit of a root split: a new root over the two halves. */
    method CommitRoot(left: PageId, right: PageId, separator: Key) returns (r: Result<PageId>)
      requires Valid() && InTree(chain, inner, left) && InTree(chain, inner, right) && left != right
      requires left < |pages| && right < |pages|
      requires 0 < |separator| <= MAX_INDEX_KEY_BYTES && NoDownlink(pages, inner, right)
      modifies this
      ensures r != Err(DuplicateKey)
      ensures Valid() && Contents(pages, chain) == old(Contents(pages, chain))
      ensures chain == old(chain) && old(inner) <= inner && meta == old(meta)
      ensures Kept(old(pages), pages, chain, old(inner), left)
      ensures LinksKept(old(pages), pages, chain, old(inner), inner, left, right)
      ensures RootGrown(old(pages), pages, chain, old(inner), meta)
      ensures old(Tidy() && Splitting(pages, left, right)) ==> Tidy()
      ensures r.Ok? ==> !pages[left].flags.splitIncomplete
      ensures r.Ok? ==> r.value in inner && r.value < |pages| && Entry(separator, right, 0) in pages[r.value].entries
      ensures r.Ok? <==> old(CanCommit(pages, meta, free, [], left, Entry(separator, right, 0)))
      ensures r.Ok? ==> NewLinked(pages, old(inner), inner, meta)
    {
      hide NewLinked;
      hide TidyPages;
      hide CarefulTo;
      hide Committable;
      hide Splitting;
      hide RootGrown;
      hide RunsTo;
      RunTree(hist, first, log, chain, pages);
      hide TreeInv;
      hide Contents;
      hide Upper;
      hide NoDownlink;
      hide Settled;
      hide ImagesKnown;
      hide Kept;
      hide LinksKept;
      hide Promoted;
      hide CommitPair;
      hide LowerBound;
      ghost var s0, inner0 := pages, inner;
      KeptReflexive(s0, chain, inner0, left, right);
      MetaHasRoom(pages, chain, inner, free, meta);
      RootStays(s0, s0, chain, inner0, meta);
      rootPage, treeLevel := LastOf(pages[meta]).page, LastOf(pages[meta]).slot;
      if rootPage != left {
        return Err(Unsupported);
      }
      var root := CreateNewRoot(left, pages[left].level);
      if root.Err? {
        return Err(root.error);
      }
      NewRootApart(s0, pages, chain, inner0, meta, left, right, root.value);
      AfterPromotion(s0, pages, chain, inner0, inner, meta, left, right, root.value, separator);
      ghost var s1 := pages;
      RunTree(hist, first, log, chain, pages);
      TreePage(pages, chain, inner, free, meta, right);
      CommitOn(left, right, separator, root.value, 1);
      RootLinked(s0, s1, pages, inner0, meta, left, root.value, pages[left].level, 1, Entry(separator, right, 0));
      CommitKeepsRoot(s0, s1, pages, chain, inner0, meta, left, root.value, 1, Entry(separator, right, 0));
      CommitFinishes(s0, s1, pages, chain, inner0, inner, left, right, root.value, 1, Entry(separator, right, 0));
      return Ok(root.value);
    }

    /** `split_commit_guarded`: the last step of a split, up the latched path.
        A full parent is split first, and so on up to a new root. Nothing at
        or below the split's level changes but the left page's flags; a refusal
        leaves the split unfinished and the index sound. */
    method SplitCommit(left: PageId, right: PageId, separator: Key, path: seq<PageId>) returns (r: Result<PageId>)
      requires Valid() && InTree(chain, inner, left) && InTree(chain, inner, right) && left != right
      requires left < |pages| && right < |pages| && pages[right].level == pages[left].level
      requires 0 < |separator| <= MAX_INDEX_KEY_BYTES && NoDownlink(pages, inner, right)
      requires PathAbove(pages, inner, path, pages[left].level)
      modifies this
      ensures r != Err(DuplicateKey)
      ensures Valid() && Contents(pages, chain) == old(Contents(pages, chain))
      ensures chain == old(chain) && old(inner) <= inner && meta == old(meta)
      ensures Kept(old(pages), pages, chain, old(inner), left)
      ensures LinksKept(old(pages), pages, chain, old(inner), inner, left, right)
      ensures RootGrown(old(pages), pages, chain, old(inner), meta)
      ensures old(Tidy() && Splitting(pages, left, right)) ==> Tidy()
      ensures r.Ok? ==> !pages[left].flags.splitIncomplete
      ensures r.Ok? ==> r.value in inner && r.value < |pages| && Entry(separator, right, 0) in pages[r.value].entries
      ensures r.Ok? <==> old(CanCommit(pages, meta, free, path, left, Entry(separator, right, 0)))
      ensures r.Ok? ==> NewLinked(pages, old(inner), inner, meta)
      decreases |path|, 1
    {
      NoneNew(pages, inner, meta);
      hide NewLinked;
      hide CanSplitUp;
      hide TidyPages;
      hide CarefulTo;
      hide Committable;
      hide Splitting;
      hide RootGrown;
      hide TreeInv;
      hide Contents;
      hide Upper;
      hide NoDownlink;
      hide Settled;
      hide ImagesKnown;
      hide Kept;
      hide LinksKept;
      hide CommitPair;
      hide LowerBound;
      hide RunsTo;
      ghost var s0, inner0 := pages, inner;
      var downlink := Entry(separator, right, 0);
      KeptReflexive(s0, chain, inner0, left, right);
      RunTree(hist, first, log, chain, pages);
      RootNamed(pages, chain, inner, free, meta);
      RootStays(s0, s0, chain, inner0, meta);
      TreePage(pages, chain, inner, free, meta, left);
      TreePage(pages, chain, inner, free, meta, right);
      if path == [] {
        r := CommitRoot(left, right, separator);
        return;
      }
      var parent := path[|path| - 1];
      assert parent in inner && pages[parent].level == pages[left].level + 1;
      TreePage(pages, chain, inner, free, meta, parent);
      var points := PointsAt(pages[parent].entries, left);
      if !points {
        return Err(Unsupported);
      }
      RootApart(hist, first, log, chain, pages, inner, meta, left, right, parent);
      var target := parent;
      if FreeSpace(pages[parent]) < EntryCost(pages[parent].level, downlink) {
        var half := SplitParent(left, right, downlink, path);
        if half.Err? {
          return Err(half.error);
        }
        RootStaysApart(s0, pages, chain, inner0, meta, left, right);
        target := half.value;
      }
      RunTree(hist, first, log, chain, pages);
      TreePage(pages, chain, inner, free, meta, right);
      TreePage(pages, chain, inner, free, meta, target);
      var slot := SearchPage(pages[target].entries, downlink);
      ghost var s2 := pages;
      CommitOn(left, right, separator, target, slot);
      CommitKeepsLinked(s2, pages, inner0, inner, meta, left, target, slot, downlink);
      CommitKeepsRoot(s0, s2, pages, chain, inner0, meta, left, target, slot, downlink);
      CommitFinishes(s0, s2, pages, chain, inner0, inner, left, right, target, slot, downlink);
      return Ok(target);
    }

    /** A parent without room is split and committed first; the downlink goes
        to the half it sorts into, which then has room for it. */
    method SplitParent(left: PageId, right: PageId, downlink: Entry, path: seq<PageId>) returns (r: Result<PageId>)
      requires Valid() && InTree(chain, inner, left) && InTree(chain, inner, right) && left != right
      requires left < |pages| && right < |pages| && pages[right].level == pages[left].level
      requires 0 < |downlink.key| <= MAX_INDEX_KEY_BYTES && downlink.page == right && NoDownlink(pages, inner, right)
      requires path != [] && PathAbove(pages, inner, path, pages[left].level)
      modifies this
      ensures r != Err(DuplicateKey)
      ensures Valid() && Contents(pages, chain) == old(Contents(pages, chain))
      ensures chain == old(chain) && old(inner) <= inner && meta == old(meta) && |pages| == |old(pages)|
      ensures Kept(old(pages), pages, chain, old(inner), left)
      ensures LinksKept(old(pages), pages, chain, old(inner), inner, left, right) && NoDownlink(pages, inner, right)
      ensures pages[left] == old(pages)[left] && RootGrown(old(pages), pages, chain, old(inner), meta)
      ensures old(Tidy()) ==> Tidy()
      ensures r.Ok? ==> r.value in inner && r.value < |pages| && r.value != left
      ensures r.Ok? ==> pages[r.value].level == old(pages)[left].level + 1
      ensures r.Ok? ==> FreeSpace(pages[r.value]) >= EntryCost(pages[r.value].level, downlink)
      ensures r.Ok? <==> old(CanSplitUp(pages, meta, free, path, downlink))
      ensures r.Ok? ==> NewLinked(pages, old(inner), inner, meta)
      ensures r.Ok? && r.value !in old(inner) ==> LowerBound(pages[r.value].entries, downlink) > 0
      decreases |path|, 0
    {
      hide NewLinked;
      hide LowerBound;
      hide CanCommit;
      hide SplitStart;
      hide TidyPages;
      hide CarefulTo;
      hide Splitting;
      hide RootGrown;
      hide TreeInv;
      hide Contents;
      hide Upper;
      hide NoDownlink;
      hide Settled;
      hide ImagesKnown;
      hide Kept;
      hide LinksKept;
      hide SplitPair;
      hide ValidSplit;
      hide RunsTo;
      ghost var s0, inner0 := pages, inner;
      KeptReflexive(s0, chain, inner0, left, right);
      var parent := path[|path| - 1];
      assert parent in inner && pages[parent].level == pages[left].level + 1;
      RunTree(hist, first, log, chain, pages);
      TreePage(pages, chain, inner, free, meta, parent);
      var page := pages[parent];
      RootNamed(pages, chain, inner, free, meta);
      RootStays(s0, s0, chain, inner0, meta);
      var id := Reserve();
      if id.None? {
        return Err(BufferPoolFull);
      }
      var split := SplitPage(parent, id.value, Some(downlink));
      if split.Err? {
        return Err(split.error);
      }
      ghost var s1 := pages;
      SplitPending(s0, s1, meta, parent, id.value, split.value);
      AfterParentSplit(s0, s1, chain, inner0, meta, left, parent, id.value, split.value, path);
      var rightFirst := page.entries[split.value];
      ParentFrame(s0, s1, chain, inner0, meta, left, parent, id.value, split.value, path, free, rightFirst.key);
      var up := SplitCommit(parent, id.value, rightFirst.key, path[..|path| - 1]);
      AfterCascade(s0, s1, pages, chain, inner0, inner, meta, left, right, parent, id.value, split.value);
      RootClimbs(s0, s1, pages, chain, inner0, inner0 + {id.value}, meta);
      if up.Err? {
        return Err(up.error);
      }
      var target := if EntryLess(downlink, rightFirst) then parent else id.value;
      NotLinked(s0, inner0, parent, downlink);
      HalfHasRoom(s0, s1, parent, id.value, split.value, downlink);
      HalfStays(s0, s1, pages, chain, inner0, parent, id.value, split.value, target);
      HalfFirst(s0, s1, pages, chain, inner0, parent, id.value, split.value, downlink);
      HalfLinked(pages, inner0, inner, meta, id.value, rightFirst, up.value);
      return Ok(target);
    }

    /** `insert_into_page` on the leaf that owns the pair and has room. */
    method InsertOn(leaf: PageId, e: Entry, ghost k: nat)
      requires Valid() && Owner(pages, chain, k, e) && chain[k] == leaf < |pages| && e !in pages[leaf].entries
      requires |e.key| <= MAX_INDEX_KEY_BYTES && FreeSpace(pages[leaf]) >= EntryCost(0, e)
      modifies this
      ensures Valid() && chain == old(chain) && inner == old(inner) && free == old(free) && meta == old(meta)
      ensures e !in old(Contents(pages, chain))
      ensures forall x :: x in Contents(pages, chain) <==> x in old(Contents(pages, chain)) || x == e
      ensures OnlyLeaf(old(pages), pages, leaf) && pages[leaf].flags == old(pages)[leaf].flags
      ensures LowerBound(old(pages)[leaf].entries, e) <= |old(pages)[leaf].entries|
      ensures pages[leaf].entries == InsertAt(old(pages)[leaf].entries, LowerBound(old(pages)[leaf].entries, e), e)
      ensures old(Tidy()) ==> Tidy()
    {
      hide TidyPages;
      hide CarefulTo;
      hide Careful;
      hide TreeInv;
      hide Contents;
      hide Online;
      hide Owner;
      hide Upper;
      hide Settled;
      hide ImagesKnown;
      hide LowerBound;
      hide Placed;
      ghost var s := pages;
      TreeParts(s, chain);
      OwnerPlaced(s, chain, k, e);
      var pos := SearchPage(pages[leaf].entries, e);
      InsertApplies(s, chain, k, pos, e, |log| + 1);
      InsertCareful(s, chain, k, pos, e);
      LogAndApply(InsertRecord(pages, leaf, pos, e));
      InsertWrites(s, leaf, pos, e, |log|, pages);
      InsertEffect(s, chain, k, pos, e, |log|, pages);
      UpperKept(s, pages, chain, inner, free, meta, leaf);
      TidyKept(s, pages, chain, leaf, inner, free, meta);
    }

    /** `insert_pessimistic`, from the leaf and the latched path its descent
        ends with: place the pair, splitting the leaf when it is full. `Retry`
        changes nothing the index stands for; a refusal half-way up leaves the
        index sound, with the pair in it if it got that far. */
    method InsertPessimistic(e: Entry, leaf: PageId, path: seq<PageId>) returns (r: Result<Pass>)
      requires Valid() && leaf in chain && leaf < |pages| && PathAbove(pages, inner, path, 0)
      requires |e.key| <= MAX_INDEX_KEY_BYTES
      requires FreeSpace(pages[leaf]) < EntryCost(0, e) ==> CutsAboveMarker(pages[leaf], Carried(pages[leaf], e))
      modifies this
      ensures Valid()
      ensures r == Ok(Done) ==> e !in old(Contents(pages, chain)) && Added(old(Contents(pages, chain)), Contents(pages, chain), e)
      ensures r == Ok(Retry) ==> Contents(pages, chain) == old(Contents(pages, chain))
      ensures r.Err? ==> || Contents(pages, chain) == old(Contents(pages, chain))
                         || Added(old(Contents(pages, chain)), Contents(pages, chain), e)
      ensures r == Err(DuplicateKey) ==> e in old(Contents(pages, chain)) && pages == old(pages)
      ensures r == Ok(Done) <==>
                old(BelongsHere(pages, chain, leaf, e) && PlacesNow(pages, meta, free, path, leaf, e, Carried(pages[leaf], e).Some?))
      ensures r == Ok(Retry) <==>
                old(|| pages[leaf].flags.splitIncomplete
                    || (ReachesRight(pages, leaf) && !NothingBeyond(pages, chain, leaf, e))
                    || (BelongsHere(pages, chain, leaf, e)
                        && PlacesLater(pages, meta, free, path, leaf, e, Carried(pages[leaf], e).Some?)))
      ensures r == Err(DuplicateKey) <==>
                old(!pages[leaf].flags.splitIncomplete && ReachesRight(pages, leaf) && NothingBeyond(pages, chain, leaf, e)
                    && e in pages[leaf].entries)
      ensures old(BelongsHere(pages, chain, leaf, e) && !HasSpace(pages, leaf, e) && free != [] && |pages[leaf].entries| < 2) ==>
                r == Err(Corrupted) && pages == old(pages) && chain == old(chain)
      ensures r.Ok? ==> forall p :: p in chain && p !in old(chain) ==> FirstLinked(pages, inner, p)
      ensures r.Ok? && old(NoneFlagged(pages, chain)) ==> NoneFlagged(pages, chain)
      ensures old(Tidy()) ==> Tidy()
    {
      hide CanSplitLeaf;
      hide FirstLinked;
      hide TidyPages;
      hide CarefulTo;
      hide TreeInv;
      hide Contents;
      hide Upper;
      hide Settled;
      hide ImagesKnown;
      hide NoDownlink;
      hide SkipEmpty;
      hide LowerBound;
      hide Sorted;
      hide WithinKeyBound;
      var page := pages[leaf];
      ghost var k := IndexOf(chain, leaf);
      TreeParts(pages, chain);
      TreePage(pages, chain, inner, free, meta, leaf);
      LeafOf(pages, chain, k);
      if page.flags.splitIncomplete {
        return Ok(Retry);
      }
      var skip := SkipEmptyLeaves(pages, page.next, 0);
      if skip.Err? {
        return Err(Corrupted);
      }
      var (q, h) := skip.value;
      BeyondIff(pages, chain, k, e, q, h);
      if q != INVALID && AtOrBelow(pages[q].entries[0], e) {
        return Ok(Retry);
      }
      hide NothingBeyond;
      var slot := LeafInsertSlot(page.entries, e);
      if slot.Err? {
        return Err(slot.error);
      }
      var leftEdge := slot.value == 0 && page.prev != INVALID;
      if !leftEdge {
        LeafOwns(pages, chain, k, e, q, h);
      }
      r := PlaceOrSplit(e, leaf, path, leftEdge, k);
    }

    /** Place the pair on its leaf, or split the leaf. */
    method PlaceOrSplit(e: Entry, leaf: PageId, path: seq<PageId>, leftEdge: bool, ghost k: nat) returns (r: Result<Pass>)
      requires Valid() && k < |chain| && chain[k] == leaf < |pages| && PathAbove(pages, inner, path, 0)
      requires !pages[leaf].flags.splitIncomplete && |e.key| <= MAX_INDEX_KEY_BYTES
      requires !HasSpace(pages, leaf, e) ==> CutsAboveMarker(pages[leaf], if leftEdge then None else Some(e))
      requires e !in pages[leaf].entries && (!leftEdge ==> Owner(pages, chain, k, e))
      modifies this
      ensures Valid()
      ensures r == Ok(Done) ==> e !in old(Contents(pages, chain)) && Added(old(Contents(pages, chain)), Contents(pages, chain), e)
      ensures r == Ok(Retry) ==> Contents(pages, chain) == old(Contents(pages, chain))
      ensures r.Err? ==> || Contents(pages, chain) == old(Contents(pages, chain))
                         || Added(old(Contents(pages, chain)), Contents(pages, chain), e)
      ensures r != Err(DuplicateKey)
      ensures r == Ok(Done) <==> old(PlacesNow(pages, meta, free, path, leaf, e, !leftEdge))
      ensures r == Ok(Retry) <==> old(PlacesLater(pages, meta, free, path, leaf, e, !leftEdge))
      ensures old(!HasSpace(pages, leaf, e) && free != [] && |pages[leaf].entries| < 2) ==>
                r == Err(Corrupted) && pages == old(pages) && chain == old(chain)
      ensures r.Ok? ==> forall p :: p in chain && p !in old(chain) ==> FirstLinked(pages, inner, p)
      ensures r.Ok? && old(NoneFlagged(pages, chain)) ==> NoneFlagged(pages, chain)
      ensures old(Tidy()) ==> Tidy()
    {
      hide CanSplitLeaf;
      hide FirstLinked;
      hide TidyPages;
      hide CarefulTo;
      hide TreeInv;
      hide Contents;
      hide Upper;
      hide Settled;
      hide ImagesKnown;
      hide NoDownlink;
      hide WithinKeyBound;
      hide Owner;
      hide CutsAboveMarker;
      hide PathAbove;
      hide RunsTo;
      hide OnlyLeaf;
      if FreeSpace(pages[leaf]) >= EntryCost(0, e) {
        if leftEdge {
          return Ok(Retry);
        }
        ghost var s := pages;
        InsertOn(leaf, e, k);
        InsertFlags(s, pages, chain, leaf, INVALID);
        return Ok(Done);
      }
      var id := Reserve();
      if id.None? {
        return Ok(Retry);
      }
      ghost var c := chain;
      r := SplitAndInsert(e, leaf, id.value, path, leftEdge, k);
      if r.Ok? {
        LinkedElements(c, k, id.value);
      }
    }

    /** The pair goes to the half it sorts into. */
    method InsertIntoHalf(e: Entry, leaf: PageId, right: PageId, rightFirst: Entry, ghost k: nat, ghost path: seq<PageId>)
      requires Valid() && k + 1 < |chain| && chain[k] == leaf < |pages| && chain[k + 1] == right < |pages| && leaf != right
      requires Owner(pages, chain, if EntryLess(e, rightFirst) then k else k + 1, e)
      requires e !in pages[leaf].entries && e !in pages[right].entries && |e.key| <= MAX_INDEX_KEY_BYTES
      requires FreeSpace(pages[if EntryLess(e, rightFirst) then leaf else right]) >= EntryCost(0, e)
      modifies this
      ensures Valid() && chain == old(chain) && inner == old(inner) && free == old(free) && meta == old(meta)
      ensures e !in old(Contents(pages, chain)) && Added(old(Contents(pages, chain)), Contents(pages, chain), e)
      ensures |pages| == |old(pages)|
      ensures forall p :: 0 <= p < |pages| && p != leaf && p != right ==> pages[p] == old(pages)[p]
      ensures GrewBehind(old(pages)[right].entries, pages[right].entries, e, rightFirst)
      ensures pages[leaf].level == old(pages)[leaf].level && pages[right].level == old(pages)[right].level
      ensures old(PathAbove(pages, inner, path, 0)) ==> PathAbove(pages, inner, path, 0)
      ensures old(NoDownlink(pages, inner, right)) ==> NoDownlink(pages, inner, right)
      ensures old(OnlyFlagged(pages, chain, leaf)) ==> OnlyFlagged(pages, chain, leaf)
      ensures old(Splitting(pages, leaf, right)) ==> Splitting(pages, leaf, right)
      ensures old(Tidy()) ==> Tidy()
    {
      hide TidyPages;
      hide CarefulTo;
      hide Splitting;
      hide TreeInv;
      hide Contents;
      hide Upper;
      hide Settled;
      hide ImagesKnown;
      hide NoDownlink;
      hide Owner;
      hide PathAbove;
      hide OnlyFlagged;
      hide OnlyLeaf;
      hide Sorted;
      hide WithinKeyBound;
      ghost var s := pages;
      TreePage(s, chain, inner, free, meta, leaf);
      TreePage(s, chain, inner, free, meta, right);
      if EntryLess(e, rightFirst) {
        InsertOn(leaf, e, k);
        AfterInsert(s, pages, chain, inner, leaf, leaf, right, path);
      } else {
        InsertOn(right, e, k + 1);
        AfterInsert(s, pages, chain, inner, right, leaf, right, path);
      }
    }

    /** The split of a full leaf. A pair at the left edge of a leaf that has a
        left sibling is not carried along: the split is at the median, and the
        next pass places the pair. */
    method SplitAndInsert(e: Entry, leaf: PageId, right: PageId, path: seq<PageId>, leftEdge: bool, ghost k: nat)
      returns (r: Result<Pass>)
      requires Valid() && k < |chain| && chain[k] == leaf < |pages| && PathAbove(pages, inner, path, 0)
      requires !pages[leaf].flags.splitIncomplete
      requires |e.key| <= MAX_INDEX_KEY_BYTES && CutsAboveMarker(pages[leaf], if leftEdge then None else Some(e))
      requires e !in pages[leaf].entries && (!leftEdge ==> Owner(pages, chain, k, e))
      requires IsSpare(pages, chain, inner, meta, right) && right !in free
      modifies this
      ensures Valid()
      ensures r == Ok(Done) ==> e !in old(Contents(pages, chain)) && Added(old(Contents(pages, chain)), Contents(pages, chain), e)
      ensures r == Ok(Retry) ==> Contents(pages, chain) == old(Contents(pages, chain))
      ensures r.Err? ==> || Contents(pages, chain) == old(Contents(pages, chain))
                         || Added(old(Contents(pages, chain)), Contents(pages, chain), e)
      ensures r != Err(DuplicateKey)
      ensures r.Ok? <==> old(CanSplitLeaf(pages, meta, free, path, leaf, if leftEdge then None else Some(e), right))
      ensures r.Ok? ==> r.value == if leftEdge then Retry else Done
      ensures |old(pages)[leaf].entries| < 2 ==> r == Err(Corrupted) && pages == old(pages) && chain == old(chain)
      ensures r.Ok? ==> chain == old(Linked(chain, k, right)) && FirstLinked(pages, inner, right)
      ensures r.Ok? && old(NoneFlagged(pages, chain)) ==> NoneFlagged(pages, chain)
      ensures old(Tidy()) ==> Tidy()
    {
      hide CanCommit;
      hide NewLinked;
      hide FirstLinked;
      hide TidyPages;
      hide CarefulTo;
      hide Splitting;
      hide RootGrown;
      hide TreeInv;
      hide Contents;
      hide Upper;
      hide Settled;
      hide ImagesKnown;
      hide NoDownlink;
      hide LowerBound;
      hide Sorted;
      hide WithinKeyBound;
      hide SplitPair;
      hide ValidSplit;
      hide Kept;
      hide LinksKept;
      hide Owner;
      hide PathAbove;
      hide NoneFlagged;
      hide OnlyFlagged;
      hide OnlyLeaf;
      hide Added;
      hide CutsAboveMarker;
      hide SplitStart;
      hide RunsTo;
      RunTree(hist, first, log, chain, pages);
      RootNamed(pages, chain, inner, free, meta);
      var page := pages[leaf];
      ghost var s0, c0, inner0 := pages, chain, inner;
      TreeParts(s0, c0);
      TreePage(s0, c0, inner0, free, meta, leaf);
      var split := SplitPage(leaf, right, if leftEdge then None else Some(e));
      if split.Err? {
        return Err(Corrupted);
      }
      ghost var s1 := pages;
      SplitPending(s0, s1, meta, leaf, right, split.value);
      SplitKeyReal(page, e, leftEdge, split.value);
      AfterLeafSplit(s0, s1, c0, inner0, meta, k, right, split.value, path);
      var rightFirst := page.entries[split.value];
      if !leftEdge {
        OwnerAfterSplit(s0, s1, c0, k, right, split.value, e);
        HalfHasRoom(s0, s1, leaf, right, split.value, e);
        NotInHalves(s0, s1, leaf, right, split.value, e);
        InsertIntoHalf(e, leaf, right, rightFirst, k, path);
      }
      ghost var s2 := pages;
      RunTree(hist, first, log, chain, pages);
      LeafFrame(s0, s1, s2, c0, inner0, meta, k, right, split.value, path, free, rightFirst.key);
      RightFirst(s0, s1, s2, leaf, right, split.value, e);
      var done := SplitCommit(leaf, right, rightFirst.key, path);
      if done.Err? {
        return Err(done.error);
      }
      RightLinked(s2, pages, chain, inner0, inner, leaf, right, rightFirst, done.value);
      CommitFlags(s2, pages, chain, inner0, leaf);
      return Ok(if leftEdge then Retry else Done);
    }
  }

  /** No leaf but `leaf` has a split pending. */
  ghost predicate OnlyFlagged(s: Pages, chain: seq<PageId>, leaf: PageId)
  {
    forall i :: 0 <= i < |chain| && chain[i] < |s| && chain[i] != leaf ==> !s[chain[i]].flags.splitIncomplete
  }

  lemma InsertFlags(s: Pages, s': Pages, chain: seq<PageId>, p: PageId, leaf: PageId)
    requires OnlyLeaf(s, s', p) && s'[p].flags == s[p].flags
    ensures OnlyFlagged(s, chain, leaf) ==> OnlyFlagged(s', chain, leaf)
    ensures NoneFlagged(s, chain) ==> NoneFlagged(s', chain)
  {}

  lemma CommitFlags(s: Pages, s': Pages, chain: seq<PageId>, inner: set<PageId>, leaf: PageId)
    requires TreeInv(s, chain) && Kept(s, s', chain, inner, leaf) && s'[leaf].flags.splitIncomplete == false
    ensures OnlyFlagged(s, chain, leaf) ==> NoneFlagged(s', chain)
  {
    hide Contents;
    if OnlyFlagged(s, chain, leaf) {
      forall i | 0 <= i < |chain| && chain[i] < |s'| ensures !s'[chain[i]].flags.splitIncomplete {
        assert LinkedAt(s, chain, i) && InTree(chain, inner, chain[i]);
      }
    }
  }

  lemma SplitKeyReal(page: Page, e: Entry, leftEdge: bool, start: nat)
    requires CutsAboveMarker(page, if leftEdge then None else Some(e)) && 1 <= start < |page.entries|
    requires start == SplitStart(page, if leftEdge then None else Some(e))
    ensures page.entries[start].key != []
  {}

  /** What the Commit needs to know once the leaf is split. */
  lemma AfterLeafSplit(s0: Pages, s1: Pages, chain: seq<PageId>, inner: set<PageId>, meta: PageId, k: nat,
                       right: PageId, start: nat, path: seq<PageId>)
    requires k < |chain| && SplitPair(s0, s1, chain[k], right, start) && IsSpare(s0, chain, inner, meta, right)
    requires start < |s0[chain[k]].entries| && chain[k] !in inner && PathAbove(s0, inner, path, 0) && s0[chain[k]].level == 0
    requires forall i, j :: 0 <= i < j < |chain| ==> chain[i] != chain[j]
    requires WithinKeyBound(Contents(s0, chain)) && Sorted(Contents(s0, chain)) && s0[chain[k]].entries[start].key != []
    ensures |s1| == |s0| && right < |s1| && chain[k] != right && start < |s0[chain[k]].entries|
    ensures s1[right].level == 0 && s1[chain[k]].level == 0
    ensures SplitChain(chain, chain[k], right) == Linked(chain, k, right) && SplitInner(inner, chain[k], right) == inner
    ensures PathAbove(s1, inner, path, 0) && 0 < |s0[chain[k]].entries[start].key| <= MAX_INDEX_KEY_BYTES
    ensures NoneFlagged(s0, chain) ==> OnlyFlagged(s1, Linked(chain, k, right), chain[k])
  {
    hide TotalBytes;
    hide Contents;
    assert IndexOf(chain, chain[k]) == k;
    LeafOf(s0, chain, k);
    var first := s0[chain[k]].entries[start];
    assert first in Contents(s0, chain);
    forall i | 0 <= i < |path| ensures s1[path[i]] == s0[path[i]] {
      assert path[i] in inner;
    }
  }

  lemma NotInHalves(s: Pages, s': Pages, left: PageId, right: PageId, start: nat, e: Entry)
    requires SplitPair(s, s', left, right, start) && e !in s[left].entries
    ensures e !in s'[left].entries && e !in s'[right].entries
  {
    hide TotalBytes;
  }

  /** A write to a leaf leaves the path and the downlinks alone. */
  lemma AfterInsert(s: Pages, s': Pages, chain: seq<PageId>, inner: set<PageId>, p: PageId, leaf: PageId, right: PageId,
                    path: seq<PageId>)
    requires OnlyLeaf(s, s', p) && s'[p].flags == s[p].flags && p !in inner && leaf < |s| && right < |s|
    ensures |s'| == |s| && s'[leaf].level == s[leaf].level && s'[right].level == s[right].level
    ensures forall q :: 0 <= q < |s| && q != p ==> s'[q] == s[q]
    ensures PathAbove(s, inner, path, 0) ==> PathAbove(s', inner, path, 0)
    ensures NoDownlink(s, inner, right) ==> NoDownlink(s', inner, right)
    ensures OnlyFlagged(s, chain, leaf) ==> OnlyFlagged(s', chain, leaf)
    ensures Splitting(s, leaf, right) ==> Splitting(s', leaf, right)
  {
    hide TotalBytes;
  }

  /** Splitting a leaf and writing to its halves leaves the path above alone. */
  lemma LeafFrame(s0: Pages, s1: Pages, s2: Pages, chain: seq<PageId>, inner: set<PageId>, meta: PageId, k: nat,
                  right: PageId, start: nat, path: seq<PageId>, free: seq<PageId>, key: Key)
    requires k < |chain| && SplitPair(s0, s1, chain[k], right, start) && IsSpare(s0, chain, inner, meta, right)
    requires chain[k] !in inner && PathAbove(s0, inner, path, 0) && meta < |s0| && meta != chain[k]
    requires |s2| == |s1| && forall p :: 0 <= p < |s2| && p != chain[k] && p != right ==> s2[p] == s1[p]
    requires s2[chain[k]].level == s1[chain[k]].level
    ensures CanCommit(s2, meta, free, path, chain[k], Entry(key, right, 0))
            <==> CanCommit(s0, meta, free, path, chain[k], Entry(key, right, 0))
  {
    hide TotalBytes;
    hide CanCommit;
    forall i | 0 <= i < |path| ensures path[i] < |s0| && s2[path[i]] == s0[path[i]] {
      assert path[i] in inner;
    }
    CommitFrame(s0, s2, meta, free, path, chain[k], Entry(key, right, 0));
  }

  /** The entry was added at its lower bound or not at all, and only if it sorts at or
      above `first`. */
  ghost predicate GrewBehind(es: seq<Entry>, es': seq<Entry>, e: Entry, first: Entry)
  {
    || es' == es
    || (!EntryLess(e, first) && LowerBound(es, e) <= |es| && es' == InsertAt(es, LowerBound(es, e), e))
  }

  lemma InsertWrites(s: Pages, leaf: PageId, pos: nat, e: Entry, lsn: Lsn, s': Pages)
    requires leaf < |s| && pos <= |s[leaf].entries| && Appended(s, InsertRecord(s, leaf, pos, e), lsn, s')
    ensures leaf < |s'| && s'[leaf].entries == InsertAt(s[leaf].entries, pos, e)
  {}

  /** The first entry of the right half stays first. */
  lemma RightFirst(s0: Pages, s1: Pages, s2: Pages, leaf: PageId, right: PageId, start: nat, e: Entry)
    requires SplitPair(s0, s1, leaf, right, start) && right < |s2| && e !in s0[leaf].entries
    requires GrewBehind(s1[right].entries, s2[right].entries, e, s0[leaf].entries[start])
    ensures s2[right].entries != [] && s2[right].entries[0] == s0[leaf].entries[start]
  {
    hide TotalBytes;
    EntryTrichotomy(e, s0[leaf].entries[start]);
  }

  lemma RightLinked(s: Pages, s': Pages, chain: seq<PageId>, inner0: set<PageId>, inner: set<PageId>, leaf: PageId,
                    right: PageId, first: Entry, up: PageId)
    requires Kept(s, s', chain, inner0, leaf) && right in chain && right != leaf && right < |s| && s[right].level <= s[leaf].level
    requires s[right].entries != [] && s[right].entries[0] == first
    requires up in inner && up < |s'| && Entry(first.key, right, 0) in s'[up].entries
    ensures FirstLinked(s', inner, right)
  {
    assert InTree(chain, inner0, right);
    assert LinkFrom(s', up, Entry(first.key, right, 0));
  }

  datatype Pass = Done | Retry

  function NewFile(spare: nat): Pages
  {
    var meta := InitPage(0, Flags(false, false, false)).(entries := [Entry([], 2, 0)], upper := PD_SPECIAL - 10);
    [ZERO_PAGE, meta, InitPage(0, Flags(true, true, false))] + seq(spare, _ => ZERO_PAGE)
  }

  lemma NewFileSound(spare: nat)
    ensures TreeInv(NewFile(spare), [2]) && Settled(NewFile(spare), [2]) && Contents(NewFile(spare), [2]) == []
    ensures Upper(NewFile(spare), [2], {}, seq(spare, i requires 0 <= i => 3 + i), 1)
    ensures forall p :: 0 <= p < |NewFile(spare)| ==> NewFile(spare)[p].lsn == 0
    ensures OnlineReady(NewFile(spare), [2])
  {
    NewFileChain(spare);
    NewFileUpper(spare);
    hide SpineInv;
    hide Upper;
    hide Hinted;
    NewFileUnflagged(spare);
  }

  lemma NewFileTidy(spare: nat)
    ensures TidyPages(NewFile(spare), {}, 1) && RunSound(NewFile(spare), [2])
  {
    NewFileChain(spare);
    NewFileUnflagged(spare);
    hide SpineInv;
    hide Contents;
    hide Hinted;
    hide Settled;
    assert NewFile(spare)[2].flags.root;
  }

  lemma NewFileUnflagged(spare: nat)
    ensures forall p :: 0 <= p < |NewFile(spare)| ==>
              NewFile(spare)[p].lsn == 0 && NewFile(spare)[p].level == 0 && !NewFile(spare)[p].flags.splitIncomplete
  {}

  lemma NewFileChain(spare: nat)
    ensures TreeInv(NewFile(spare), [2]) && Settled(NewFile(spare), [2]) && Contents(NewFile(spare), [2]) == []
  {
    var s := NewFile(spare);
    assert [2][1..] == [] && Contents(s, []) == [];
    assert LinkedAt(s, [2], 0);
  }

  lemma NewFileUpper(spare: nat)
    ensures Upper(NewFile(spare), [2], {}, seq(spare, i requires 0 <= i => 3 + i), 1)
  {}

  /** The separator the split of a full leaf hands up is a real key, not the
      marker below every key. */
  ghost predicate CutsAboveMarker(page: Page, pending: Option<Entry>)
  {
    var start := SplitStart(page, pending);
    1 <= start < |page.entries| ==> page.entries[start].key != []
  }

  /** What the split makes room for: the pair, unless it goes to the left edge of
      a leaf that has a left sibling. */
  ghost function Carried(page: Page, e: Entry): Option<Entry>
  {
    if LowerBound(page.entries, e) == 0 && page.prev != INVALID then None else Some(e)
  }

  /** The next non-empty leaf, if any, is within the hop bound. */
  predicate ReachesRight(s: Pages, leaf: PageId)
    requires leaf < |s|
  {
    SkipEmpty(s, s[leaf].next, 0).Ok?
  }

  /** Every leaf right of `leaf` is empty or begins above the pair. */
  ghost predicate NothingBeyond(s: Pages, chain: seq<PageId>, leaf: PageId, e: Entry)
    requires leaf in chain
  {
    forall j :: IndexOf(chain, leaf) < j < |chain| ==> DominatedAt(s, chain, j, e)
  }

  /** An absent pair on a leaf without a pending split that is not too far left. */
  ghost predicate BelongsHere(s: Pages, chain: seq<PageId>, leaf: PageId, e: Entry)
    requires leaf < |s| && leaf in chain
  {
    && !s[leaf].flags.splitIncomplete && ReachesRight(s, leaf) && NothingBeyond(s, chain, leaf, e)
    && e !in s[leaf].entries
  }

  /** Away from the left edge: there is room, or the leaf can be split for the
      pair. */
  ghost predicate PlacesNow(s: Pages, meta: PageId, free: seq<PageId>, path: seq<PageId>, leaf: PageId, e: Entry, inside: bool)
  {
    && inside
    && (HasSpace(s, leaf, e) || (free != [] && CanSplitLeaf(s, meta, free[1..], path, leaf, Some(e), free[0])))
  }

  /** At the left edge, unless the split of a full leaf is refused; elsewhere without
      room and without a page. */
  ghost predicate PlacesLater(s: Pages, meta: PageId, free: seq<PageId>, path: seq<PageId>, leaf: PageId, e: Entry, inside: bool)
  {
    if HasSpace(s, leaf, e) then !inside
    else free == [] || (!inside && CanSplitLeaf(s, meta, free[1..], path, leaf, None, free[0]))
  }

  /** What the look at the next non-empty leaf finds out. */
  lemma BeyondIff(s: Pages, chain: seq<PageId>, k: nat, e: Entry, q: PageId, h: nat)
    requires IsChain(s, chain) && Sorted(Contents(s, chain)) && k < |chain| && chain[k] < |s| && IndexOf(chain, chain[k]) == k
    requires SkipEmpty(s, s[chain[k]].next, 0) == Ok((q, h))
    ensures q != INVALID ==> q < |s| && s[q].entries != []
    ensures q != INVALID && AtOrBelow(s[q].entries[0], e) <==> !NothingBeyond(s, chain, chain[k], e)
  {
    hide Contents;
    hide SkipEmpty;
    hide Sorted;
    LeafLinks(s, chain, k);
    SkipOnChain(s, chain, k + 1, 0);
    var m := NextNonEmpty(s, chain, k + 1);
    if m < |chain| {
      LeafLinks(s, chain, m);
      if DominatedAt(s, chain, m, e) {
        NothingRight(s, chain, k, e);
      }
    } else {
      NothingRight(s, chain, k, e);
    }
  }

  ghost predicate Added(es: seq<Entry>, es': seq<Entry>, e: Entry)
  {
    forall x :: x in es' <==> x in es || x == e
  }

  /** No leaf has a split pending. */
  ghost predicate NoneFlagged(s: Pages, chain: seq<PageId>)
  {
    forall i :: 0 <= i < |chain| && chain[i] < |s| ==> !s[chain[i]].flags.splitIncomplete
  }

  /** The owner of an absent pair holds its place. */
  lemma OwnerPlaced(s: Pages, chain: seq<PageId>, k: nat, e: Entry)
    requires IsChain(s, chain) && Sorted(Contents(s, chain)) && Owner(s, chain, k, e) && e !in EntriesOf(s, chain[k])
    ensures k < |chain| && chain[k] < |s| && Sorted(s[chain[k]].entries) && e !in Contents(s, chain)
    ensures Placed(Contents(s, chain), Position(s, chain, k, LowerBound(s[chain[k]].entries, e)), e)
  {
    hide Contents;
    hide LowerBound;
    hide Placed;
    var es, leaf := Contents(s, chain), EntriesOf(s, chain[k]);
    assert LinkedAt(s, chain, k);
    OwnerPosition(s, chain, k, e);
    var slot := LowerBound(leaf, e);
    LowerBoundFinds(es, e);
    if slot < |leaf| {
      EntryAt(s, chain, k, slot);
      assert leaf[slot] in leaf;
    } else {
      OwnerEnd(s, chain, k, e);
      EntryTrichotomy(e, e);
    }
    LowerBoundPlaced(es, e);
  }

  /** What the write descent checks of the leaf it stops at makes it the
      owner. */
  lemma LeafOwns(s: Pages, chain: seq<PageId>, k: nat, e: Entry, q: PageId, h: nat)
    requires IsChain(s, chain) && Sorted(Contents(s, chain)) && k < |chain| && chain[k] < |s|
    requires SkipEmpty(s, s[chain[k]].next, 0) == Ok((q, h))
    requires q != INVALID ==> !AtOrBelow(s[q].entries[0], e)
    requires LowerBound(s[chain[k]].entries, e) > 0 || s[chain[k]].prev == INVALID
    ensures Owner(s, chain, k, e)
  {
    hide Contents;
    hide SkipEmpty;
    LeafLinks(s, chain, k);
    SkipOnChain(s, chain, k + 1, 0);
    var m := NextNonEmpty(s, chain, k + 1);
    if m < |chain| {
      LeafLinks(s, chain, m);
    }
    NothingRight(s, chain, k, e);
    if LowerBound(s[chain[k]].entries, e) > 0 {
      EntryTrichotomy(s[chain[k]].entries[0], e);
    }
  }

  /** After a split, the half the pair is compared into owns it. */
  lemma OwnerAfterSplit(s: Pages, s': Pages, chain: seq<PageId>, k: nat, right: PageId, start: nat, e: Entry)
    requires IsChain(s, chain) && Owner(s, chain, k, e) && right !in chain
    requires SplitPair(s, s', chain[k], right, start)
    ensures var k' := if EntryLess(e, s[chain[k]].entries[start]) then k else k + 1;
            Owner(s', Linked(chain, k, right), k', e)
  {
    hide TotalBytes;
    var chain' := Linked(chain, k, right);
    var k' := if EntryLess(e, s[chain[k]].entries[start]) then k else k + 1;
    assert LinkedAt(s, chain, k);
    forall j | k' < j < |chain'| ensures DominatedAt(s', chain', j, e) {
      if j > k + 1 {
        assert DominatedAt(s, chain, j - 1, e);
        assert LinkedAt(s, chain, j - 1);
      }
    }
    assert k' == k && k > 0 ==> !DominatedAt(s, chain, k, e);
  }

  /** A page of the tree. */
  ghost predicate InTree(chain: seq<PageId>, inner: set<PageId>, p: PageId) { p in chain || p in inner }

  /** The path from the root down to the parent of a page at `level`. */
  ghost predicate PathAbove(s: Pages, inner: set<PageId>, path: seq<PageId>, level: nat)
  {
    forall i :: 0 <= i < |path| ==> path[i] in inner && path[i] < |s| && s[path[i]].level == level + |path| - i
  }

  /** At or below the level of `left` only its flags changed. */
  ghost predicate Kept(s: Pages, s': Pages, chain: seq<PageId>, inner: set<PageId>, left: PageId)
  {
    && |s'| == |s| && left < |s|
    && s'[left] == s[left].(lsn := s'[left].lsn, flags := s'[left].flags)
    && forall p: PageId :: InTree(chain, inner, p) && p < |s| && p != left && s[p].level <= s[left].level ==> s'[p] == s[p]
  }

  /** At or below that level only `right` gained a downlink, and `left` under a
      new root. */
  ghost predicate LinksKept(s: Pages, s': Pages, chain: seq<PageId>, inner: set<PageId>, inner': set<PageId>,
                            left: PageId, right: PageId)
  {
    forall c: PageId ::
      (InTree(chain, inner, c) && c < |s| && left < |s| && s[c].level <= s[left].level && c != left && c != right
       && NoDownlink(s, inner, c)) ==> NoDownlink(s', inner', c)
  }

  lemma KeptReflexive(s: Pages, chain: seq<PageId>, inner: set<PageId>, left: PageId, right: PageId)
    requires left < |s|
    ensures Kept(s, s, chain, inner, left) && LinksKept(s, s, chain, inner, inner, left, right)
  {}

  lemma CommitSize(s: Pages, s': Pages, left: PageId, parent: PageId, slot: nat, downlink: Entry)
    requires CommitPair(s, s', left, parent, slot, downlink)
    ensures |s'| == |s|
  {}

  lemma NotLinked(s: Pages, inner: set<PageId>, p: PageId, downlink: Entry)
    requires p in inner && p < |s| && NoDownlink(s, inner, downlink.page)
    ensures downlink !in s[p].entries
  {
    assert NoLink(s[p], downlink.page);
  }

  /** A Commit finishes what the steps above it prepared. */
  lemma CommitFinishes(s0: Pages, s: Pages, s': Pages, chain: seq<PageId>, inner0: set<PageId>, inner: set<PageId>,
                       left: PageId, right: PageId, target: PageId, slot: nat, downlink: Entry)
    requires Kept(s0, s, chain, inner0, left) && LinksKept(s0, s, chain, inner0, inner, left, right)
    requires CommitPair(s, s', left, target, slot, downlink) && s[target].level > s0[left].level
    requires forall c :: c != right && NoDownlink(s, inner, c) ==> NoDownlink(s', inner, c)
    ensures Kept(s0, s', chain, inner0, left) && LinksKept(s0, s', chain, inner0, inner, left, right)
    ensures !s'[left].flags.splitIncomplete
  {
    hide NoDownlink;
    hide TotalBytes;
  }

  /** A root promotion does not touch the old tree. */
  lemma AfterPromotion(s0: Pages, s: Pages, chain: seq<PageId>, inner0: set<PageId>, inner: set<PageId>, meta: PageId,
                       left: PageId, right: PageId, newRoot: PageId, separator: Key)
    requires left < |s0| && Promoted(s0, s, left, newRoot, meta, s0[left].level) && InTree(chain, inner0, left)
    requires IsSpare(s0, chain, inner0, meta, newRoot) && meta !in chain && meta !in inner0
    requires forall c :: c != left && NoDownlink(s0, inner0, c) ==> NoDownlink(s, inner, c)
    requires 0 < |separator| <= MAX_INDEX_KEY_BYTES
    ensures Kept(s0, s, chain, inner0, left) && LinksKept(s0, s, chain, inner0, inner, left, right) && |s| == |s0|
    ensures s[newRoot].level > s0[left].level && left != newRoot
    ensures FreeSpace(s[newRoot]) >= EntryCost(s[newRoot].level, Entry(separator, right, 0))
    ensures LowerBound(s[newRoot].entries, Entry(separator, right, 0)) == 1
  {
    hide NoDownlink;
    var e := Entry(separator, right, 0);
    assert EntryLess(RootSeed(left), e);
    assert LowerBound([RootSeed(left)], e) == 1;
  }

  lemma AfterParentSplit(s0: Pages, s1: Pages, chain: seq<PageId>, inner0: set<PageId>, meta: PageId,
                         left: PageId, parent: PageId, p2: PageId, start: nat, path: seq<PageId>)
    requires left < |s0| && SplitPair(s0, s1, parent, p2, start) && IsSpare(s0, chain, inner0, meta, p2)
    requires PathAbove(s0, inner0, path, s0[left].level) && path != [] && parent == path[|path| - 1]
    requires InnerAt(s0, parent)
    ensures |s1| == |s0| && parent != p2 && start < |s0[parent].entries|
    ensures s1[p2].level == s1[parent].level == s0[parent].level
    ensures PathAbove(s1, inner0 + {p2}, path[..|path| - 1], s1[parent].level)
    ensures 0 < |s0[parent].entries[start].key| <= MAX_INDEX_KEY_BYTES
  {
    hide TotalBytes;
    var path' := path[..|path| - 1];
    forall i | 0 <= i < |path'| ensures path'[i] in inner0 && s1[path'[i]] == s0[path'[i]] {
      assert path[i] in inner0;
    }
  }

  lemma NoneNew(s: Pages, inner: set<PageId>, meta: PageId)
    ensures NewLinked(s, inner, inner, meta)
  {}

  lemma RootLinked(s0: Pages, s1: Pages, s: Pages, inner0: set<PageId>, meta: PageId, left: PageId, root: PageId,
                   level: nat, slot: nat, d: Entry)
    requires Promoted(s0, s1, left, root, meta, level) && CommitPair(s1, s, left, root, slot, d)
    requires meta != left && meta != root
    ensures NewLinked(s, inner0, inner0 + {root}, meta)
  {
    hide TotalBytes;
    assert IsRoot(s, meta, root);
  }

  /** The right half of the parent keeps its first entry, and what sorts at or
      above it goes behind it. */
  lemma HalfFirst(s0: Pages, s1: Pages, s2: Pages, chain: seq<PageId>, inner0: set<PageId>, parent: PageId, p2: PageId,
                  start: nat, d: Entry)
    requires SplitPair(s0, s1, parent, p2, start) && Kept(s1, s2, chain, inner0 + {p2}, parent) && s1[p2].level == s1[parent].level
    requires d !in s0[parent].entries
    ensures p2 < |s2| && s2[p2].entries != [] && s2[p2].entries[0] == s0[parent].entries[start]
    ensures !EntryLess(d, s0[parent].entries[start]) ==> LowerBound(s2[p2].entries, d) > 0
  {
    hide TotalBytes;
    assert InTree(chain, inner0 + {p2}, p2);
    EntryTrichotomy(d, s0[parent].entries[start]);
  }

  /** Splitting the parent leaves the path above it alone. */
  lemma ParentFrame(s0: Pages, s1: Pages, chain: seq<PageId>, inner0: set<PageId>, meta: PageId,
                    left: PageId, parent: PageId, p2: PageId, start: nat, path: seq<PageId>, free: seq<PageId>, key: Key)
    requires left < |s0| && SplitPair(s0, s1, parent, p2, start) && IsSpare(s0, chain, inner0, meta, p2)
    requires PathAbove(s0, inner0, path, s0[left].level) && path != [] && parent == path[|path| - 1]
    requires meta < |s0| && meta !in inner0
    ensures CanCommit(s1, meta, free, path[..|path| - 1], parent, Entry(key, p2, 0))
            <==> CanCommit(s0, meta, free, path[..|path| - 1], parent, Entry(key, p2, 0))
  {
    hide TotalBytes;
    hide CanCommit;
    var path' := path[..|path| - 1];
    forall i | 0 <= i < |path'| ensures path'[i] < |s0| && s1[path'[i]] == s0[path'[i]] {
      assert path[i] in inner0;
    }
    CommitFrame(s0, s1, meta, free, path', parent, Entry(key, p2, 0));
  }

  /** Splitting and committing a parent leaves the child level alone. */
  lemma AfterCascade(s0: Pages, s1: Pages, s2: Pages, chain: seq<PageId>, inner0: set<PageId>, inner2: set<PageId>,
                     meta: PageId, left: PageId, right: PageId, parent: PageId, p2: PageId, start: nat)
    requires left < |s0| && SplitPair(s0, s1, parent, p2, start) && IsSpare(s0, chain, inner0, meta, p2)
    requires s0[parent].level == s0[left].level + 1 && InTree(chain, inner0, left)
    requires InTree(chain, inner0, right) && right < |s0| && s0[right].level == s0[left].level
    requires forall c :: NoDownlink(s0, inner0, c) ==> NoDownlink(s1, inner0 + {p2}, c)
    requires Kept(s1, s2, chain, inner0 + {p2}, parent)
    requires LinksKept(s1, s2, chain, inner0 + {p2}, inner2, parent, p2)
    ensures Kept(s0, s2, chain, inner0, left) && LinksKept(s0, s2, chain, inner0, inner2, left, right) && |s2| == |s0|
    ensures NoDownlink(s0, inner0, right) ==> NoDownlink(s2, inner2, right)
    ensures s2[left] == s0[left]
  {
    hide TotalBytes;
    hide NoDownlink;
    assert InTree(chain, inner0 + {p2}, left) && InTree(chain, inner0 + {p2}, right);
    forall p: PageId | InTree(chain, inner0, p) && p < |s0| && s0[p].level <= s0[left].level ensures s2[p] == s0[p] {
      assert InTree(chain, inner0 + {p2}, p) && p != parent && p != p2;
    }
  }

  /** The half that was chosen still has its room. */
  lemma HalfStays(s0: Pages, s1: Pages, s2: Pages, chain: seq<PageId>, inner0: set<PageId>, parent: PageId,
                  p2: PageId, start: nat, target: PageId)
    requires SplitPair(s0, s1, parent, p2, start) && Kept(s1, s2, chain, inner0 + {p2}, parent)
    requires target == parent || target == p2
    ensures FreeSpace(s2[target]) == FreeSpace(s1[target]) && s2[target].level == s0[parent].level
    ensures s2[target].level == s1[target].level
  {
    hide TotalBytes;
    assert InTree(chain, inner0 + {p2}, p2);
  }

  lemma MetaHasRoom(s: Pages, chain: seq<PageId>, inner: set<PageId>, free: seq<PageId>, meta: PageId)
    requires Upper(s, chain, inner, free, meta)
    ensures 0 < meta < |s| && meta !in chain && meta !in inner && GoodGeometry(s[meta])
    ensures s[meta].level == 0 && s[meta].entries != []
    ensures var last := LastOf(s[meta]);
            && (last.page in chain || last.page in inner) && last.page < |s| && s[last.page].level == last.slot
            && (last.slot < MAX_LEVEL ==> FreeSpace(s[meta]) >= 14)
  {}

  lemma ImageApplies(s: Pages, newRoot: PageId, level: nat, lsn: Lsn)
    requires newRoot < |s| && lsn > 0
    ensures var r := Image(newRoot, NewRoot(level + 1));
            && Describes(s, r, lsn) && Online(s, r, lsn).Ok?
            && var s1 := Online(s, r, lsn).value;
               |s1| == |s| && s1 == s[newRoot := NewRoot(level + 1).(lsn := s1[newRoot].lsn)]
  {}

  /** A record about a page that is not a leaf says nothing about the chain. */
  lemma NotALeaf(s: Pages, chain: seq<PageId>, r: Record, p: PageId)
    requires p !in chain && (r.Image? || r.Insert?) && r.page == p
    ensures Disciplined(s, chain, r) && NextChain(chain, r) == chain && NextContents(s, chain, r) == Contents(s, chain)
    ensures r.Insert? ==> Orderly(s, r)
  {}

  lemma ImageOrderly(s: Pages, newRoot: PageId, level: nat)
    requires Unclaimed(s, newRoot) && level < MAX_LEVEL
    ensures Orderly(s, Image(newRoot, NewRoot(level + 1)))
  {}

  lemma CommitIsQuiet(s: Pages, chain: seq<PageId>, left: PageId, right: PageId, parent: PageId, sep: Key, slot: nat)
    requires parent !in chain
    ensures var r := Commit(left, right, parent, sep, slot);
            Disciplined(s, chain, r) && NextChain(chain, r) == chain && NextContents(s, chain, r) == Contents(s, chain)
  {}

  lemma PrepareIsQuiet(s: Pages, chain: seq<PageId>, left: PageId, right: PageId)
    requires left < |s| && s[left].entries != []
    ensures NextContents(s, chain, PrepareRecord(s, left, right)) == Contents(s, chain)
  {}

  lemma CopyIsQuiet(s: Pages, chain: seq<PageId>, left: PageId, right: PageId, start: nat)
    requires left < |s|
    ensures NextContents(s, chain, CopyRecord(s, left, right, start)) == Contents(s, chain)
    ensures NextChain(chain, CopyRecord(s, left, right, start)) == chain
  {}

  lemma KeyBoundInsert(es: seq<Entry>, at: nat, e: Entry)
    requires WithinKeyBound(es) && at <= |es| && |e.key| <= MAX_INDEX_KEY_BYTES
    ensures WithinKeyBound(InsertAt(es, at, e))
  {}

  lemma TidyKept(s: Pages, s': Pages, chain: seq<PageId>, leaf: PageId, inner: set<PageId>, free: seq<PageId>, meta: PageId)
    requires Upper(s, chain, inner, free, meta) && leaf in chain && OnlyLeaf(s, s', leaf)
    ensures TidyPages(s, inner, meta) ==> TidyPages(s', inner, meta)
  {
    hide TidyPages;
    assert leaf in inner ==> InnerAt(s, leaf);
    if TidyPages(s, inner, meta) {
      TidyLeaf(s, s', leaf, inner, meta);
    }
  }

  lemma PrepareTidy(s: Pages, chain: seq<PageId>, inner: set<PageId>, meta: PageId, left: PageId, right: PageId)
    requires left < |s| && s[left].entries != [] && (left !in chain ==> InnerAt(s, left))
    requires IsSpare(s, chain, inner, meta, right)
    ensures TidyPages(s, inner, meta) ==> Careful(s, chain, PrepareRecord(s, left, right))
  {
    hide Careful;
    hide Internal;
    hide NoDownlink;
    if TidyPages(s, inner, meta) {
      PrepareCareful(s, chain, inner, left, right);
    }
  }

  lemma SplitTidy(s: Pages, s': Pages, chain: seq<PageId>, inner: set<PageId>, free: seq<PageId>, meta: PageId,
                  left: PageId, right: PageId, start: nat)
    requires Upper(s, chain, inner, free, meta) && SplitPair(s, s', left, right, start)
    requires IsSpare(s, chain, inner, meta, right) && left != meta && (left in inner || s[left].level == 0)
    requires forall c :: NoDownlink(s, inner, c) ==> NoDownlink(s', SplitInner(inner, left, right), c)
    ensures TidyPages(s, inner, meta) ==> TidyPages(s', SplitInner(inner, left, right), meta)
  {
    hide NoDownlink;
    hide TidyPages;
    hide SplitPair;
    hide IsSpare;
    RootNamed(s, chain, inner, free, meta);
    hide Upper;
    if TidyPages(s, inner, meta) {
      TidySplit(s, s', chain, inner, meta, left, right, start);
    }
  }

  /** The split of the root is pending, and none is ahead of it in the undo
      pass. */
  ghost predicate Topmost(s: Pages, meta: PageId, left: PageId)
  {
    && Flagged(s, left) && s[left].flags.root && s[left].next < |s| && s[left].next != meta
    && forall q: PageId :: Flagged(s, q) && q != left ==> Before(s, left, q)
  }

  ghost predicate OnlyMeta(s: Pages, meta: PageId, root: PageId)
  {
    forall p :: 0 < p < |s| && Answers(s[p], root) ==> p == meta
  }

  /** Publishing the new root leaves the old one without a meta page. */
  lemma Dethrones(s: Pages, s': Pages, chain: seq<PageId>, inner: set<PageId>, meta: PageId, left: PageId,
                  newRoot: PageId, level: nat)
    requires Promoted(s, s', left, newRoot, meta, level) && IsSpare(s, chain, inner, meta, newRoot) && left != meta
    requires left != newRoot && s[meta].level == 0
    ensures Topmost(s, meta, left) && OnlyMeta(s, meta, left) ==> Dethroned(s', left)
  {
    hide NoDownlink;
    if Topmost(s, meta, left) && OnlyMeta(s, meta, left) {
      assert Unclaimed(s, newRoot);
      assert LastOf(s'[meta]) == Entry([], newRoot, level + 1);
      forall p | 0 < p < |s'| ensures !Answers(s'[p], left) {
        assert p != meta && p != newRoot ==> s'[p] == s[p];
      }
      forall q: PageId | Flagged(s', q) && q != left ensures Before(s', left, q) {
        assert Flagged(s, q);
      }
    }
  }

  ghost predicate RootAt(s: Pages, p: PageId) { 0 < p < |s| && s[p].flags.root }

  lemma TidyRoot(s: Pages, inner: set<PageId>, meta: PageId)
    requires meta < |s| && s[meta].entries != [] && 0 < LastOf(s[meta]).page
    ensures TidyPages(s, inner, meta) ==> RootAt(s, LastOf(s[meta]).page)
  {}

  /** A root has no pending split to its left, so a promotion's records are
      careful ones. */
  lemma PromotionCareful(h: seq<Pages>, first: seq<PageId>, log: seq<Record>, chain: seq<PageId>, s: Pages,
                         left: PageId, newRoot: PageId, level: nat)
    requires RunsTo(h, first, log, chain, s) && newRoot < |s| && newRoot !in chain && Unclaimed(s, newRoot)
    ensures CarefulTo(h, first, log) && RootAt(s, left) ==>
              Careful(s, chain, Image(newRoot, NewRoot(level + 1)))
    ensures forall s1: Pages {:trigger Careful(s1, chain, SeedRecord(left, newRoot, level))} ::
              CarefulTo(h, first, log) && RootAt(s, left) && |s1| == |s|
              && s1 == s[newRoot := NewRoot(level + 1).(lsn := s1[newRoot].lsn)] ==>
                Careful(s1, chain, SeedRecord(left, newRoot, level))
  {
    hide Careful;
    hide Unclaimed;
    if CarefulTo(h, first, log) && RootAt(s, left) {
      CarefulSound(h, first, log, chain, s);
      hide CarefulTo;
      hide RunsTo;
      RootIsNoTwin(s, chain, left);
      hide RunSound;
      ImageCareful(s, chain, newRoot, level);
      forall s1: Pages | |s1| == |s| && s1 == s[newRoot := NewRoot(level + 1).(lsn := s1[newRoot].lsn)]
        ensures Careful(s1, chain, SeedRecord(left, newRoot, level))
      {
        forall q: PageId | Flagged(s1, q) ensures s1[q].next != left {
          assert Flagged(s, q) && s1[q] == s[q];
        }
        SeedCareful(s1, chain, left, newRoot, level);
      }
    }
  }

  lemma PromotedTidy(s: Pages, s': Pages, chain: seq<PageId>, inner: set<PageId>, meta: PageId, left: PageId,
                     newRoot: PageId, level: nat)
    requires Promoted(s, s', left, newRoot, meta, level) && left != newRoot
    requires IsSpare(s, chain, inner, meta, newRoot) && s[meta].level == 0
    requires forall c :: c != left && NoDownlink(s, inner, c) ==> NoDownlink(s', inner + {newRoot}, c)
    ensures TidyPages(s, inner, meta) ==> TidyPages(s', inner + {newRoot}, meta)
  {
    hide NoDownlink;
    hide TidyPages;
    hide Promoted;
    hide Unclaimed;
    if TidyPages(s, inner, meta) {
      TidyPromoted(s, s', chain, inner, meta, left, newRoot, level);
    }
  }

  lemma CommittableCareful(s: Pages, chain: seq<PageId>, inner: set<PageId>, meta: PageId, left: PageId, right: PageId,
                           parent: PageId, sep: Key, slot: nat)
    requires 0 < left < |s| && 0 < right < |s| && parent in inner && InnerAt(s, parent) && NoDownlink(s, inner, right)
    requires |sep| <= MAX_INDEX_KEY_BYTES && slot == LowerBound(s[parent].entries, Entry(sep, right, 0))
    ensures Committable(s, meta, left, right) ==> Careful(s, chain, Commit(left, right, parent, sep, slot))
  {
    hide Careful;
    hide InnerAt;
    hide NoDownlink;
    hide LowerBound;
    if Committable(s, meta, left, right) {
      CommitCareful(s, chain, inner, left, right, parent, sep, slot);
    }
  }

  lemma CommittedTidy(s: Pages, s': Pages, inner: set<PageId>, meta: PageId, left: PageId, parent: PageId, slot: nat,
                      downlink: Entry)
    requires CommitPair(s, s', left, parent, slot, downlink) && parent in inner && parent != meta && left != meta
    requires left < |s| && (left in inner || s[left].level == 0)
    requires forall c :: c != downlink.page && NoDownlink(s, inner, c) ==> NoDownlink(s', inner, c)
    ensures TidyPages(s, inner, meta) && Committable(s, meta, left, downlink.page) ==> TidyPages(s', inner, meta)
  {
    hide NoDownlink;
    hide CommitPair;
    hide TidyPages;
    if TidyPages(s, inner, meta) && Committable(s, meta, left, downlink.page) {
      TidyCommit(s, s', inner, meta, left, parent, slot, downlink);
    }
  }

  // ---- The root ----

  lemma RootStays(s: Pages, s': Pages, chain: seq<PageId>, inner: set<PageId>, meta: PageId)
    requires meta < |s| == |s'| && s[meta].entries != [] && s'[meta] == s[meta]
    ensures RootGrown(s, s', chain, inner, meta)
  {}

  lemma RootClimbs(s0: Pages, s1: Pages, s2: Pages, chain: seq<PageId>, inner: set<PageId>, inner1: set<PageId>, meta: PageId)
    requires meta < |s0| == |s1| && s1[meta] == s0[meta] && RootGrown(s1, s2, chain, inner1, meta) && inner <= inner1
    ensures RootGrown(s0, s2, chain, inner, meta)
  {}

  lemma SplitPending(s: Pages, s': Pages, meta: PageId, left: PageId, right: PageId, start: nat)
    requires SplitPair(s, s', left, right, start) && left != meta && right != meta
    ensures Splitting(s', left, right) && |s'| == |s| && (meta < |s| ==> s'[meta] == s[meta])
  {
    hide TotalBytes;
  }

  /** A page with a downlink is not the root, and neither is the right page of a
      pending split. */
  lemma RootApart(h: seq<Pages>, first: seq<PageId>, log: seq<Record>, chain: seq<PageId>, s: Pages, inner: set<PageId>,
                  meta: PageId, left: PageId, right: PageId, parent: PageId)
    requires RunsTo(h, first, log, chain, s) && 0 < left && parent in inner && parent < |s|
    requires exists i :: 0 <= i < |s[parent].entries| && s[parent].entries[i].page == left
    ensures CarefulTo(h, first, log) && TidyPages(s, inner, meta) && Splitting(s, left, right) ==>
              Committable(s, meta, left, right)
  {
    if CarefulTo(h, first, log) && TidyPages(s, inner, meta) && Splitting(s, left, right) {
      CarefulSound(h, first, log, chain, s);
      hide CarefulTo;
      hide RunsTo;
      RootIsNoTwin(s, chain, LastOf(s[meta]).page);
      hide RunSound;
      assert Flagged(s, left);
      assert !NoLink(s[parent], left);
    }
  }

  lemma RootStaysApart(s: Pages, s': Pages, chain: seq<PageId>, inner: set<PageId>, meta: PageId, left: PageId, right: PageId)
    requires RootGrown(s, s', chain, inner, meta) && left < |s| == |s'| && s'[left] == s[left]
    requires InTree(chain, inner, left) && InTree(chain, inner, right)
    ensures Committable(s, meta, left, right) ==> Committable(s', meta, left, right)
  {}

  lemma NewRootApart(s: Pages, s': Pages, chain: seq<PageId>, inner: set<PageId>, meta: PageId, left: PageId, right: PageId,
                     newRoot: PageId)
    requires left < |s| && Promoted(s, s', left, newRoot, meta, s[left].level) && IsSpare(s, chain, inner, meta, newRoot)
    requires InTree(chain, inner, left) && InTree(chain, inner, right) && left != meta && s[meta].entries != []
    ensures RootGrown(s, s', chain, inner, meta)
    ensures Splitting(s, left, right) ==> Committable(s', meta, left, right)
  {
    hide NoDownlink;
    hide Unclaimed;
    assert LastOf(s'[meta]) == Entry([], newRoot, s[left].level + 1);
  }

  lemma CommitKeepsRoot(s0: Pages, s: Pages, s': Pages, chain: seq<PageId>, inner: set<PageId>, meta: PageId,
                        left: PageId, parent: PageId, slot: nat, downlink: Entry)
    requires RootGrown(s0, s, chain, inner, meta) && CommitPair(s, s', left, parent, slot, downlink)
    requires left != meta && parent != meta
    ensures RootGrown(s0, s', chain, inner, meta)
  {
    hide TotalBytes;
  }

  lemma InsertCareful(s: Pages, chain: seq<PageId>, k: nat, pos: nat, e: Entry)
    requires IsChain(s, chain) && k < |chain| && chain[k] < |s| && |e.key| <= MAX_INDEX_KEY_BYTES
    ensures Careful(s, chain, InsertRecord(s, chain[k], pos, e))
  {
    hide Careful;
    assert NextAt(s, chain, k);
    QuietCareful(s, chain, InsertRecord(s, chain[k], pos, e));
  }

  lemma RootNamed(s: Pages, chain: seq<PageId>, inner: set<PageId>, free: seq<PageId>, meta: PageId)
    requires Upper(s, chain, inner, free, meta)
    ensures meta < |s| && s[meta].entries != [] && InTree(chain, inner, LastOf(s[meta]).page)
    ensures meta !in inner && meta !in chain
  {}

  lemma TreeParts(s: Pages, chain: seq<PageId>)
    requires TreeInv(s, chain)
    ensures IsChain(s, chain) && Sorted(Contents(s, chain))
  {}

  lemma DeleteApplies(s: Pages, chain: seq<PageId>, k: nat, slot: nat, lsn: Lsn)
    requires TreeInv(s, chain) && Settled(s, chain) && k < |chain| && slot < |EntriesOf(s, chain[k])|
    ensures var r := BtreeLog.Delete(chain[k], slot);
            Describes(s, r, lsn) && Online(s, r, lsn).Ok? && Disciplined(s, chain, r)
  {
    hide Contents;
    hide TotalBytes;
    assert LinkedAt(s, chain, k);
  }

  lemma DeleteEffect(s: Pages, chain: seq<PageId>, k: nat, slot: nat, lsn: Lsn, s': Pages)
    requires TreeInv(s, chain) && Settled(s, chain) && k < |chain| && slot < |EntriesOf(s, chain[k])|
    requires Appended(s, BtreeLog.Delete(chain[k], slot), lsn, s') && WithinKeyBound(Contents(s, chain))
    ensures Settled(s', chain) && WithinKeyBound(Contents(s', chain))
    ensures EntriesOf(s, chain[k])[slot] in Contents(s, chain) && OnlyLeaf(s, s', chain[k])
    ensures forall x :: x in Contents(s', chain) <==>
              x in Contents(s, chain) && x != EntriesOf(s, chain[k])[slot]
  {
    hide Contents;
    hide TotalBytes;
    assert LinkedAt(s, chain, k);
    assert !AwaitsCopy(s, chain[k]);
    DeleteIsEdit(s, BtreeLog.Delete(chain[k], slot), lsn, s');
    hide Online;
    hide Edit;
    EditSettled(s, s', chain, k);
    DeleteContents(s, s', chain, k, slot);
    RemovalKeepsSorted(Contents(s, chain), Position(s, chain, k, slot));
  }

  /** The walk refuses as a duplicate only what the chain holds. */
  lemma PlacementErrors(s: Pages, chain: seq<PageId>, i: nat, e: Entry)
    requires IsChain(s, chain) && Sorted(Contents(s, chain)) && i < |chain|
    requires Place(s, chain[i], e, 0).Err?
    ensures Place(s, chain[i], e, 0).error != KeyTooLarge
    ensures Place(s, chain[i], e, 0) == Err(DuplicateKey) ==> e in Contents(s, chain)
  {
    hide Contents;
    hide IsChain;
    hide Misled;
    hide Place;
    if Place(s, chain[i], e, 0) == Err(DuplicateKey) && e !in Contents(s, chain) {
      var k, slot := PlacementIff(s, chain, i, e, 0);
    }
  }

  /** Where the walk lands, and when that is the pair's place. */
  lemma Landing(s: Pages, chain: seq<PageId>, i: nat, e: Entry, leaf: PageId, pos: nat) returns (k: nat)
    requires IsChain(s, chain) && Sorted(Contents(s, chain)) && i < |chain|
    requires Place(s, chain[i], e, 0) == Ok((leaf, pos))
    ensures k < |chain| && chain[k] == leaf < |s| && pos <= |s[leaf].entries| && s[leaf].level == 0
    ensures Placed(Contents(s, chain), Position(s, chain, k, pos), e)
            <==> e !in Contents(s, chain) && !Misled(s, chain, i, e)
  {
    hide Contents;
    hide Place;
    hide Misled;
    k := PlaceLands(s, chain, i, e, 0);
    assert LinkedAt(s, chain, k);
    if e !in Contents(s, chain) {
      var k', slot := PlacementIff(s, chain, i, e, 0);
      assert k' == k;
    } else if Placed(Contents(s, chain), Position(s, chain, k, pos), e) {
      PlacedKeepsSorted(Contents(s, chain), Position(s, chain, k, pos), e);
    }
  }

  function InsertRecord(s: Pages, leaf: PageId, pos: nat, e: Entry): Record
    requires leaf < |s|
  {
    Insert(leaf, pos, s[leaf].level, s[leaf].flags, e)
  }

  lemma InsertApplies(s: Pages, chain: seq<PageId>, k: nat, pos: nat, e: Entry, lsn: Lsn)
    requires TreeInv(s, chain) && k < |chain| && chain[k] < |s| && pos <= |s[chain[k]].entries|
    requires |e.key| <= MAX_INDEX_KEY_BYTES && FreeSpace(s[chain[k]]) >= EntryCost(0, e)
    ensures var r := InsertRecord(s, chain[k], pos, e);
            && Describes(s, r, lsn) && Online(s, r, lsn).Ok?
            && (Disciplined(s, chain, r) <==> Placed(Contents(s, chain), Position(s, chain, k, pos), e))
  {
    hide Contents;
    hide TotalBytes;
    assert LinkedAt(s, chain, k);
  }

  /** The chain stays sound exactly when the pair went to its place. */
  lemma InsertEffect(s: Pages, chain: seq<PageId>, k: nat, pos: nat, e: Entry, lsn: Lsn, s': Pages)
    requires TreeInv(s, chain) && Settled(s, chain) && k < |chain| && chain[k] < |s|
    requires Appended(s, InsertRecord(s, chain[k], pos, e), lsn, s')
    requires WithinKeyBound(Contents(s, chain)) && |e.key| <= MAX_INDEX_KEY_BYTES
    ensures Settled(s', chain) && WithinKeyBound(Contents(s', chain))
    ensures OnlyLeaf(s, s', chain[k]) && s'[chain[k]].flags == s[chain[k]].flags
    ensures TreeInv(s', chain) ==> Placed(Contents(s, chain), Position(s, chain, k, pos), e)
    ensures forall x :: x in Contents(s', chain) <==> x in Contents(s, chain) || x == e
  {
    hide Contents;
    hide TotalBytes;
    assert LinkedAt(s, chain, k);
    InsertIsEdit(s, InsertRecord(s, chain[k], pos, e), lsn, s');
    assert s'[chain[k]].flags == s[chain[k]].flags;
    hide Online;
    hide Edit;
    hide InsertAt;
    hide Placed;
    hide Sorted;
    hide WithinKeyBound;
    EditSettled(s, s', chain, k);
    InsertContents(s, s', chain, k, pos, e);
    var es, at := Contents(s, chain), Position(s, chain, k, pos);
    KeyBoundInsert(es, at, e);
    InsertedElements(es, at, e);
    if !Placed(es, at, e) {
      MisplacedUnsorted(es, at, e);
    }
  }
}

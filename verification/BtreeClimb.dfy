/** When the Commit of a split gets through (crates/pg-am-btree/src/index.rs,
    `split_commit_guarded`): the latched path, the room on it and the pages the
    allocator has left decide. */
module BtreeClimb {
  import opened Keys
  import opened Outcome
  import opened Sequences
  import opened BtreePages
  import opened BtreeLog
  import opened BtreeSearch
  import opened BtreeInner
  import opened BtreeSplit

  /** Where a page is split: to make room for the pending entry, or at the
      median. */
  ghost function SplitStart(page: Page, pending: Option<Entry>): nat
  {
    if pending.None? then |page.entries| / 2
    else
      match SplitSlot(page.level, page.entries, pending.value)
      case None => 0
      case Some(slot) => slot
  }

  /** Some entry has that child. */
  predicate Names(page: Page, child: PageId)
  {
    exists i :: 0 <= i < |page.entries| && page.entries[i].page == child
  }

  /** `split_commit_guarded` of the split of `left` with the downlink `d` gets
      through: above the path `left` is the published root, below the level
      bound, and there is a page for a new one; on the path the parent points at
      `left` and has room, or can be split in turn. */
  ghost predicate CanCommit(s: Pages, meta: PageId, free: seq<PageId>, path: seq<PageId>, left: PageId, d: Entry)
    decreases |path|, 1
  {
    if path == [] then
      && meta < |s| && s[meta].entries != [] && LastOf(s[meta]).page == left
      && left < |s| && s[left].level < MAX_LEVEL && free != []
    else
      var p := path[|path| - 1];
      && p < |s| && Names(s[p], left)
      && (FreeSpace(s[p]) >= EntryCost(s[p].level, d) || CanSplitUp(s, meta, free, path, d))
  }

  /** The last page of the path can be split for `d`, and that split can be
      committed. */
  ghost predicate CanSplitUp(s: Pages, meta: PageId, free: seq<PageId>, path: seq<PageId>, d: Entry)
    requires path != []
    decreases |path|, 0
  {
    var p := path[|path| - 1];
    && p < |s| && |s[p].entries| >= 2 && !s[p].flags.splitIncomplete && free != []
    && var cut := SplitStart(s[p], Some(d));
       cut < |s[p].entries|
       && CanCommit(s, meta, free[1..], path[..|path| - 1], p, Entry(s[p].entries[cut].key, free[0], 0))
  }

  /** A full leaf can be split for what it carries along, onto the page `right`, and
      the split can be committed. */
  ghost predicate CanSplitLeaf(s: Pages, meta: PageId, free: seq<PageId>, path: seq<PageId>, leaf: PageId,
                               carried: Option<Entry>, right: PageId)
  {
    && leaf < |s| && |s[leaf].entries| >= 2
    && var cut := SplitStart(s[leaf], carried);
       cut < |s[leaf].entries| && CanCommit(s, meta, free, path, leaf, Entry(s[leaf].entries[cut].key, right, 0))
  }

  /** Only the path, the meta page and the level of `left` matter. */
  lemma {:induction false} CommitFrame(s: Pages, s': Pages, meta: PageId, free: seq<PageId>, path: seq<PageId>,
                                       left: PageId, d: Entry)
    requires |s'| == |s| && meta < |s| && s'[meta] == s[meta] && left < |s| && s'[left].level == s[left].level
    requires forall i :: 0 <= i < |path| ==> path[i] < |s| && s'[path[i]] == s[path[i]]
    ensures CanCommit(s', meta, free, path, left, d) <==> CanCommit(s, meta, free, path, left, d)
    decreases |path|
  {
    hide SplitStart;
    hide Names;
    if path == [] {
    } else {
      var p := path[|path| - 1];
      var cut := SplitStart(s[p], Some(d));
      if free != [] && cut < |s[p].entries| {
        CommitFrame(s, s', meta, free[1..], path[..|path| - 1], p, Entry(s[p].entries[cut].key, free[0], 0));
      }
    }
  }

  /** Every page of the path points at the next one, the last at `left`, the first
      is the published root, and none is too small to be split or has a split
      pending. */
  ghost predicate ParentsPath(s: Pages, meta: PageId, path: seq<PageId>, left: PageId)
  {
    && meta < |s| && s[meta].entries != [] && LastOf(s[meta]).page == (path + [left])[0]
    && forall i :: 0 <= i < |path| ==> ParentAt(s, path[i], (path + [left])[i + 1])
  }

  ghost predicate ParentAt(s: Pages, p: PageId, child: PageId)
  {
    InnerAt(s, p) && Names(s[p], child) && |s[p].entries| >= 2 && !s[p].flags.splitIncomplete
  }

  lemma CutExists(s: Pages, p: PageId, d: Entry)
    requires InnerAt(s, p) && |s[p].entries| >= 2 && |d.key| <= MAX_INDEX_KEY_BYTES
    ensures SplitStart(s[p], Some(d)) < |s[p].entries|
    ensures |s[p].entries[SplitStart(s[p], Some(d))].key| <= MAX_INDEX_KEY_BYTES
  {
    hide SplitSlot;
    SplitSlotIsBest(s[p].level, s[p].entries, d);
  }

  /** Along such a path, below the level bound, a page for every level and one for
      a new root are enough. */
  lemma {:induction false} EnoughPages(s: Pages, meta: PageId, free: seq<PageId>, path: seq<PageId>, left: PageId, d: Entry)
    requires ParentsPath(s, meta, path, left) && left < |s| && |d.key| <= MAX_INDEX_KEY_BYTES
    requires s[(path + [left])[0]].level < MAX_LEVEL && |free| > |path|
    ensures CanCommit(s, meta, free, path, left, d)
    decreases |path|
  {
    hide SplitStart;
    hide Names;
    if path == [] {
      assert path + [left] == [left];
    } else {
      var n := |path| - 1;
      var p := path[n];
      assert (path + [left])[n + 1] == left && ParentAt(s, p, left);
      CutExists(s, p, d);
      var above := path[..n];
      assert above + [p] == path;
      forall i | 0 <= i < n ensures ParentAt(s, above[i], (above + [p])[i + 1]) {
        assert (path + [left])[i + 1] == path[i + 1];
        assert ParentAt(s, path[i], (path + [left])[i + 1]);
      }
      hide InnerAt;
      EnoughPages(s, meta, free[1..], above, p, Entry(s[p].entries[SplitStart(s[p], Some(d))].key, free[0], 0));
    }
  }

  /** So a full leaf of at least two entries is split. */
  lemma EnoughForLeaf(s: Pages, meta: PageId, free: seq<PageId>, path: seq<PageId>, leaf: PageId, carried: Option<Entry>,
                      right: PageId)
    requires ParentsPath(s, meta, path, leaf) && leaf < |s| && |s[leaf].entries| >= 2
    requires Accounted(s[leaf]) && Sorted(s[leaf].entries) && WithinKeyBound(s[leaf].entries)
    requires carried.Some? ==> |carried.value.key| <= MAX_INDEX_KEY_BYTES
    requires s[(path + [leaf])[0]].level < MAX_LEVEL && |free| > |path|
    ensures CanSplitLeaf(s, meta, free, path, leaf, carried, right)
  {
    hide SplitSlot;
    if carried.Some? {
      SplitSlotIsBest(s[leaf].level, s[leaf].entries, carried.value);
    }
    hide ParentsPath;
    EnoughPages(s, meta, free, path, leaf, Entry(s[leaf].entries[SplitStart(s[leaf], carried)].key, right, 0));
  }

  // ---- Downlinks to new pages ----

  /** Some internal page has a downlink to `p` under the first key on it. */
  ghost predicate FirstLinked(s: Pages, inner: set<PageId>, p: PageId)
  {
    p < |s| && s[p].entries != [] && exists q :: q in inner && LinkFrom(s, q, Entry(s[p].entries[0].key, p, 0))
  }

  predicate LinkFrom(s: Pages, q: PageId, d: Entry) { q < |s| && d in s[q].entries }

  ghost predicate IsRoot(s: Pages, meta: PageId, p: PageId)
  {
    meta < |s| && s[meta].entries != [] && LastOf(s[meta]).page == p
  }

  /** Every internal page that was added is the root or has such a downlink. */
  ghost predicate NewLinked(s: Pages, inner0: set<PageId>, inner: set<PageId>, meta: PageId)
  {
    forall p :: p in inner && p !in inner0 ==> FirstLinked(s, inner, p) || IsRoot(s, meta, p)
  }

  /** A Commit adds a downlink, in front of none of the new pages' first ones. */
  lemma CommitKeepsLinked(s: Pages, s': Pages, inner0: set<PageId>, inner: set<PageId>, meta: PageId, left: PageId,
                          parent: PageId, slot: nat, d: Entry)
    requires NewLinked(s, inner0, inner, meta) && CommitPair(s, s', left, parent, slot, d)
    requires meta != left && meta != parent && (parent in inner0 || slot > 0)
    ensures NewLinked(s', inner0, inner, meta)
  {
    hide Accounted;
    forall p | p in inner && p !in inner0 && !IsRoot(s', meta, p) ensures FirstLinked(s', inner, p) {
      var q :| q in inner && LinkFrom(s, q, Entry(s[p].entries[0].key, p, 0));
      assert s'[p].entries[0] == s[p].entries[0];
      LinkStays(s, s', left, parent, slot, d, q, Entry(s[p].entries[0].key, p, 0));
    }
  }

  lemma LinkStays(s: Pages, s': Pages, left: PageId, parent: PageId, slot: nat, d: Entry, q: PageId, x: Entry)
    requires CommitPair(s, s', left, parent, slot, d) && LinkFrom(s, q, x)
    ensures LinkFrom(s', q, x)
  {
    hide Accounted;
    if q == parent {
      InsertedElements(s[parent].entries, slot, d);
    }
  }

  /** The right half of a split that was committed under its first key. */
  lemma HalfLinked(s: Pages, inner0: set<PageId>, inner: set<PageId>, meta: PageId, right: PageId, first: Entry, up: PageId)
    requires NewLinked(s, inner0 + {right}, inner, meta) && right < |s| && s[right].entries != []
    requires s[right].entries[0] == first && up in inner && up < |s| && Entry(first.key, right, 0) in s[up].entries
    ensures NewLinked(s, inner0, inner, meta)
  {
    assert LinkFrom(s, up, Entry(first.key, right, 0));
    assert FirstLinked(s, inner, right);
  }
}

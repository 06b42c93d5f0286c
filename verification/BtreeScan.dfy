/** The scans recovery makes over the whole file
    (crates/pg-am-btree/src/index.rs, `find_parent_page` and
    `find_meta_page_for_root`). */
module BtreeScan {
  import opened Keys
  import opened Outcome
  import opened BtreePages
  import opened BtreeLog
  import opened BtreeSearch
  import opened BtreeFinish
  import opened BtreeInner

  // ---- The parent of a page ----

  ghost predicate PointsTo(es: seq<Entry>, child: PageId)
  {
    exists i :: 0 <= i < |es| && es[i].page == child
  }

  ghost predicate IsParent(page: Page, child: PageId, level: nat)
  {
    GoodGeometry(page) && !page.flags.leaf && page.level == level + 1 && PointsTo(page.entries, child)
  }

  /** The first page from `p` on that is a parent of `child`. */
  ghost function ParentFrom(s: Pages, p: PageId, child: PageId, level: nat): (r: Option<PageId>)
    ensures r.Some? ==> p <= r.value < |s| && IsParent(s[r.value], child, level)
    ensures forall q :: p <= q < (if r.Some? then r.value else |s|) ==> !IsParent(s[q], child, level)
    decreases |s| - p
  {
    if p >= |s| then None
    else if IsParent(s[p], child, level) then Some(p)
    else ParentFrom(s, p + 1, child, level)
  }

  ghost function Parent(s: Pages, child: PageId, level: nat): (r: Option<PageId>)
  {
    ParentFrom(s, 1, child, level)
  }

  // ---- The meta page of a root ----

  /** The root an entry names when its bytes are read as a meta record. Ten
      bytes are one: an entry with an empty key on level 0, and above it any
      downlink with a two-byte key, whose key and child then spell the id. */
  function RecordRoot(level: nat, e: Entry): Option<nat>
  {
    if level == 0 then if e.key == [] then Some(e.page) else None
    else if |e.key| == 2 then Some(e.key[0] + 256 * e.key[1] + 65536 * (e.page % 0x1_0000_0000_0000))
    else None
  }

  /** A page without flags whose last entry reads as a meta record of `root`. */
  predicate Answers(page: Page, root: PageId)
  {
    && GoodGeometry(page) && page.flags == Flags(false, false, false) && page.entries != []
    && RecordRoot(page.level, page.entries[|page.entries| - 1]) == Some(root)
  }

  function MetaFrom(s: Pages, p: PageId, root: PageId): (r: Option<PageId>)
    ensures r.Some? ==> p <= r.value < |s| && Answers(s[r.value], root)
    ensures forall q :: p <= q < (if r.Some? then r.value else |s|) ==> !Answers(s[q], root)
    decreases |s| - p
  {
    if p >= |s| then None
    else if Answers(s[p], root) then Some(p)
    else MetaFrom(s, p + 1, root)
  }

  function MetaPage(s: Pages, root: PageId): (r: Option<PageId>)
  {
    MetaFrom(s, 1, root)
  }

  /** An internal page that passes for a meta page of `root`. */
  predicate PassesFor(page: Page, root: PageId)
  {
    && page.level > 0 && GoodGeometry(page) && page.flags == Flags(false, false, false) && page.entries != []
    && var last := page.entries[|page.entries| - 1];
       |last.key| == 2 && last.key[0] + 256 * last.key[1] + 65536 * (last.page % 0x1_0000_0000_0000) == root
  }

  /** The search ends at the meta page of the root exactly when no unflagged
      internal page before it ends in a two-byte-key downlink that spells the
      root's id. */
  lemma MetaSearchIff(s: Pages, meta: PageId, root: PageId)
    requires 0 < meta < |s| && s[meta].level == 0 && Answers(s[meta], root)
    requires forall p :: 0 < p < meta && s[p].level == 0 ==> !Answers(s[p], root)
    ensures MetaPage(s, root) == Some(meta) <==> forall p :: 0 < p < meta ==> !PassesFor(s[p], root)
  {
    if MetaPage(s, root) == Some(meta) {
      forall p | 0 < p < meta ensures !PassesFor(s[p], root) {
        assert !Answers(s[p], root);
      }
    } else {
      var p := MetaPage(s, root).value;
      assert PassesFor(s[p], root);
    }
  }

  /** Such a downlink spells an id of at least 65,536, so only roots from there
      on are ever missed: in a smaller file the answer is a page of level 0. */
  lemma OnlyLargeRootsMissed(s: Pages, root: PageId)
    requires forall p :: 0 <= p < |s| && s[p].level > 0 && GoodGeometry(s[p]) ==> Internal(s[p], |s|)
    requires |s| <= 0x1_0000_0000_0000 && MetaPage(s, root).Some?
    ensures s[MetaPage(s, root).value].level > 0 ==> root >= 65536
  {
    var m := MetaPage(s, root).value;
    if s[m].level > 0 {
      var last := s[m].entries[|s[m].entries| - 1];
      assert 0 < last.page < |s|;
      assert last.page % 0x1_0000_0000_0000 == last.page;
    }
  }

  // ---- A file in which the search misses ----

  // Two indexes. Page 4 is the meta page of root 65537, a leaf. The other index
  // has the leaves 3 and 1 under page 2, whose last downlink is ([1, 0], 1), and
  // page 2 under its root 6, which page 7 names.
  const LEAF_3 := InitPage(0, Flags(true, false, false)).(next := 1, entries := [Entry([0], 7, 0)], upper := PD_SPECIAL - 11)
  const LEAF_1 := InitPage(0, Flags(true, false, false)).(prev := 3, entries := [Entry([1, 0], 7, 1)], upper := PD_SPECIAL - 12)
  const IMPOSTOR := InitPage(1, Flags(false, false, false)).(
    entries := [Entry([], 3, 0), Entry([1, 0], 1, 0)], upper := PD_SPECIAL - 18)
  const OTHER_ROOT := InitPage(2, Flags(false, true, false)).(entries := [Entry([], 2, 0)], upper := PD_SPECIAL - 8)
  const OTHER_META := InitPage(0, Flags(false, false, false)).(entries := [Entry([], 6, 2)], upper := PD_SPECIAL - 10)
  const TRUE_META := InitPage(0, Flags(false, false, false)).(entries := [Entry([], 65537, 0)], upper := PD_SPECIAL - 10)

  function MisledFile(root: Page, twin: Page): (s: Pages)
    ensures |s| == 65538 && s[65537] == root && s[2] == IMPOSTOR && s[4] == TRUE_META && s[5] == twin
    ensures s[1] == LEAF_1 && s[3] == LEAF_3 && s[6] == OTHER_ROOT && s[7] == OTHER_META
    ensures s[0] == ZERO_PAGE && forall p :: 8 <= p < 65537 ==> s[p] == ZERO_PAGE
  {
    [ZERO_PAGE, LEAF_1, IMPOSTOR, LEAF_3, TRUE_META, twin, OTHER_ROOT, OTHER_META] + seq(65529, _ => ZERO_PAGE) + [root]
  }

  /** The search is misled although the meta page is there and every internal
      page is sound. */
  lemma MetaSearchMisled(root: Page, twin: Page)
    ensures var s := MisledFile(root, twin);
            && Answers(s[4], 65537) && s[4].level == 0
            && Internal(s[2], |s|) && s[2].level == 1 && Internal(s[6], |s|)
            && MetaPage(s, 65537) == Some(2)
  {
    var s := MisledFile(root, twin);
    assert !Answers(s[1], 65537) && Answers(s[2], 65537);
    assert MetaFrom(s, 2, 65537) == Some(2);
    OneEntry(1, Entry([], 3, 0));
    OneEntry(1, Entry([1, 0], 1, 0));
    TotalBytesConcat(1, [Entry([], 3, 0)], [Entry([1, 0], 1, 0)]);
    assert IMPOSTOR.entries == [Entry([], 3, 0)] + [Entry([1, 0], 1, 0)];
    assert EntryLess(Entry([], 3, 0), Entry([1, 0], 1, 0));
    OneEntry(2, Entry([], 2, 0));
  }

  // ---- Scans over a file that grows ----

  /** A page without entries is nobody's parent and names no root. */
  lemma {:induction false} ParentGrows(s: Pages, page: Page, p: PageId, child: PageId, level: nat)
    requires page.entries == []
    ensures ParentFrom(s + [page], p, child, level) == ParentFrom(s, p, child, level)
    decreases |s| - p
  {
    if p >= |s| {
      assert p == |s| ==> !IsParent((s + [page])[p], child, level);
      assert p == |s| ==> ParentFrom(s + [page], p + 1, child, level) == None;
    } else {
      assert (s + [page])[p] == s[p];
      ParentGrows(s, page, p + 1, child, level);
    }
  }

  lemma {:induction false} MetaGrows(s: Pages, page: Page, p: PageId, root: PageId)
    requires page.entries == []
    ensures MetaFrom(s + [page], p, root) == MetaFrom(s, p, root)
    decreases |s| - p
  {
    if p >= |s| {
      assert p == |s| ==> MetaFrom(s + [page], p + 1, root) == None;
    } else {
      assert (s + [page])[p] == s[p];
      MetaGrows(s, page, p + 1, root);
    }
  }
}

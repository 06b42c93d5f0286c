/** Pages above the leaves (crates/pg-am-btree/src/index.rs). */
module BtreeInner {
  import opened Keys
  import opened Outcome
  import opened Sequences
  import opened BtreePages
  import opened BtreeSearch

  /** An internal page: sorted downlinks within the key bound, each to a page of
      the file. */
  ghost predicate Internal(page: Page, n: nat)
  {
    && Accounted(page) && Sorted(page.entries) && WithinKeyBound(page.entries)
    && (forall i :: 0 <= i < |page.entries| ==> 0 < page.entries[i].page < n)
  }

  lemma RebuiltTwice(p: Page, n: nat)
    requires Accounted(p) && n <= |p.entries|
    ensures TotalBytes(p.level, p.entries[..n]) <= PD_SPECIAL
    ensures Accounted(p.(entries := p.entries[..n], upper := PD_SPECIAL - TotalBytes(p.level, p.entries[..n])))
  {
    assert p.entries == p.entries[..n] + p.entries[n..];
    TotalBytesConcat(p.level, p.entries[..n], p.entries[n..]);
  }

  /** Cutting an internal page in two leaves two internal pages. */
  lemma HalvesInternal(page: Page, page': Page, n: nat, n': nat, lo: nat, hi: nat)
    requires Internal(page, n) && n <= n' && lo <= hi <= |page.entries|
    requires Accounted(page') && page'.entries == page.entries[lo..hi]
    ensures Internal(page', n')
  {}

  /** A downlink at its searched slot keeps an internal page one. */
  lemma DownlinkInternal(page: Page, page': Page, n: nat, downlink: Entry)
    requires Internal(page, n) && downlink !in page.entries && 0 < downlink.page < n
    requires |downlink.key| <= MAX_INDEX_KEY_BYTES
    requires Accounted(page') && page'.entries == InsertAt(page.entries, LowerBound(page.entries, downlink), downlink)
    ensures Internal(page', n)
  {
    var slot := LowerBound(page.entries, downlink);
    LowerBoundKeepsSorted(page.entries, downlink);
    forall i | 0 <= i < |page'.entries|
      ensures 0 < page'.entries[i].page < n && |page'.entries[i].key| <= MAX_INDEX_KEY_BYTES
    {
      assert page'.entries[i] == if i < slot then page.entries[i] else if i == slot then downlink else page.entries[i - 1];
    }
  }

  /** What an empty separator does. The downlink of the right page goes behind
      the marker in slot 0 exactly when the marker's child has the smaller id;
      otherwise it takes slot 0 and keys below the old separator lead to the
      right page. */
  lemma EmptySeparator(es: seq<Entry>, right: PageId)
    requires Sorted(es) && es != [] && es[0].key == [] && es[0].slot == 0 && es[0].page != right
    requires forall i :: 1 <= i < |es| ==> es[i].key != []
    ensures var at := LowerBound(es, Entry([], right, 0));
            && at == (if es[0].page < right then 1 else 0)
            && (InsertAt(es, at, Entry([], right, 0))[0] == es[0] <==> es[0].page < right)
  {
    var d := Entry([], right, 0);
    if |es| > 1 {
      assert !EntryLess(es[1], d);
    }
    assert LowerBound(es, d) <= 1;
  }

  /** The two downlinks of a new root are in order exactly when the separator is
      not empty or the left page has the smaller id. */
  lemma RootPairSorted(left: PageId, separator: Key, right: PageId)
    ensures Sorted([Entry([], left, 0), Entry(separator, right, 0)]) <==> separator != [] || left < right
  {
    var es := [Entry([], left, 0), Entry(separator, right, 0)];
    assert Sorted(es) <==> EntryLess(es[0], es[1]);
  }
}

/** The split steps on the page file (crates/pg-am-btree/src/index.rs), page by
    page, and the levels above the leaves that they keep. */
module BtreeSplit {
  import opened Keys
  import opened Outcome
  import opened Sequences
  import opened BtreePages
  import opened BtreeLog
  import opened BtreeChain
  import opened BtreeContent
  import opened BtreeSearch
  import opened BtreeInner
  import opened BtreeClr
  import opened BtreeRound
  import opened BtreeReady

  /** No leaf awaits its Copy. */
  ghost predicate Settled(s: Pages, chain: seq<PageId>)
  {
    forall i :: 0 <= i < |chain| ==> !AwaitsCopy(s, chain[i])
  }

  lemma EditSettled(s: Pages, s': Pages, chain: seq<PageId>, k: nat)
    requires TreeInv(s, chain) && k < |chain| && |s| == |s'|
    requires SameElsewhere(s, s', chain, k) && chain[k] < |s| && Edit(s, chain[k], s'[chain[k]])
    requires Settled(s, chain)
    ensures Settled(s', chain)
  {
    hide Contents;
    hide TotalBytes;
    forall i | 0 <= i < |chain| ensures !AwaitsCopy(s', chain[i]) {
      assert NextAt(s, chain, i) && TwinAt(s, chain, i);
      assert !AwaitsCopy(s, chain[i]);
      if s'[chain[i]].flags.splitIncomplete {
        assert NextAt(s, chain, i + 1);
      }
    }
  }

  // ---- The levels above the leaves ----

  ghost predicate NoLink(page: Page, c: PageId)
  {
    forall i :: 0 <= i < |page.entries| ==> page.entries[i].page != c
  }

  /** No internal page has a downlink to `c`. */
  ghost predicate NoDownlink(s: Pages, inner: set<PageId>, c: PageId)
  {
    forall p :: p in inner && p < |s| ==> NoLink(s[p], c)
  }

  /** Only slot 0 can hold the marker below every key. */
  ghost predicate Separated(es: seq<Entry>)
  {
    forall i :: 1 <= i < |es| ==> es[i].key != []
  }

  ghost predicate InnerAt(s: Pages, p: PageId)
  {
    && 0 < p < |s| && 0 < s[p].level <= MAX_LEVEL && !s[p].flags.leaf
    && Internal(s[p], |s|) && Separated(s[p].entries)
  }

  /** A page the allocator can hand out: whatever it holds, nothing in the
      tree refers to it and no pending split claims it. */
  ghost predicate IsSpare(s: Pages, chain: seq<PageId>, inner: set<PageId>, meta: PageId, p: PageId)
  {
    0 < p < |s| && p !in chain && p !in inner && p != meta && NoDownlink(s, inner, p) && Unclaimed(s, p)
  }

  /** The last record of the meta page names the root and its level, and there
      is room for the promotions the 4-bit level still allows. */
  ghost predicate MetaAt(s: Pages, chain: seq<PageId>, inner: set<PageId>, meta: PageId)
  {
    && 0 < meta < |s| && meta !in chain && meta !in inner
    && GoodGeometry(s[meta]) && s[meta].level == 0 && s[meta].entries != []
    && var last := LastOf(s[meta]);
       && (last.page in chain || last.page in inner) && last.page < |s| && s[last.page].level == last.slot
       && last.slot <= MAX_LEVEL && FreeSpace(s[meta]) >= 14 * (MAX_LEVEL - last.slot)
  }

  ghost predicate Upper(s: Pages, chain: seq<PageId>, inner: set<PageId>, free: seq<PageId>, meta: PageId)
  {
    && (forall p :: p in inner ==> InnerAt(s, p))
    && (forall i :: 0 <= i < |free| ==> IsSpare(s, chain, inner, meta, free[i]))
    && (forall i, j :: 0 <= i < j < |free| ==> free[i] != free[j])
    && MetaAt(s, chain, inner, meta)
  }

  ghost predicate OnlyLeaf(s: Pages, s': Pages, leaf: PageId)
  {
    && leaf < |s| == |s'| && s' == s[leaf := s'[leaf]] && s'[leaf].level == s[leaf].level == 0
    && s'[leaf].next == s[leaf].next && s'[leaf].flags == s[leaf].flags
  }

  /** Writing to a leaf leaves the levels above alone. */
  lemma UpperKept(s: Pages, s': Pages, chain: seq<PageId>, inner: set<PageId>, free: seq<PageId>, meta: PageId,
                  leaf: PageId)
    requires Upper(s, chain, inner, free, meta) && leaf in chain && OnlyLeaf(s, s', leaf)
    ensures Upper(s', chain, inner, free, meta)
  {
    hide Internal;
    hide NoLink;
    hide Separated;
    forall p | p in inner ensures InnerAt(s', p) && s'[p] == s[p] {
      assert InnerAt(s, p);
    }
    forall i | 0 <= i < |free| ensures IsSpare(s', chain, inner, meta, free[i]) {
      assert IsSpare(s, chain, inner, meta, free[i]);
    }
  }

  // ---- Prepare and Copy ----

  function PrepareRecord(s: Pages, left: PageId, right: PageId): Record
    requires left < |s| && s[left].entries != []
  {
    Prepare(left, right, s[left].level, s[left].next, LastOf(s[left]).key)
  }

  function CopyRecord(s: Pages, left: PageId, right: PageId, start: nat): Record
    requires left < |s|
  {
    Copy(left, right, start, s[left].lsn)
  }

  /** A page that can be split: at least two entries, no split pending, and a
      fresh page to its right. */
  ghost predicate Splittable(s: Pages, left: PageId, right: PageId)
  {
    && left < |s| && right < |s| && left != right
    && Accounted(s[left]) && |s[left].entries| >= 2 && !s[left].flags.splitIncomplete
  }

  /** Prepare's effect on the two pages. */
  ghost predicate PreparedPair(s: Pages, s': Pages, left: PageId, right: PageId)
    requires left < |s| && right < |s|
  {
    && |s'| == |s|
    && s'[left] == s[left].(lsn := s'[left].lsn, next := right, flags := s[left].flags.(splitIncomplete := true))
    && s'[right] == InitRightPage(left, s[left].next, s[left].level).(lsn := s'[right].lsn)
    && forall p :: 0 <= p < |s| && p != left && p != right ==> s'[p] == s[p]
  }

  /** The effect of both steps: the left page keeps the first `start` entries,
      the right page has the rest, and both are packed. */
  ghost predicate SplitPair(s: Pages, s': Pages, left: PageId, right: PageId, start: nat)
  {
    && left < |s| == |s'| && right < |s| && left != right && 1 <= start < |s[left].entries|
    && PackedWith(s'[left], s[left].(next := right, flags := s[left].flags.(splitIncomplete := true)), s[left].entries[..start])
    && PackedWith(s'[right], InitRightPage(left, s[left].next, s[left].level), s[left].entries[start..])
    && forall p :: 0 <= p < |s| && p != left && p != right ==> s'[p] == s[p]
  }

  ghost predicate PackedWith(page': Page, page: Page, es: seq<Entry>)
  {
    && page' == page.(lsn := page'.lsn, entries := es, upper := page'.upper)
    && page'.upper == PD_SPECIAL - TotalBytes(page.level, es) && Accounted(page')
  }

  lemma PrepareApplies(s: Pages, left: PageId, right: PageId, lsn: Lsn)
    requires Splittable(s, left, right)
    ensures var r := PrepareRecord(s, left, right);
            Describes(s, r, lsn) && Online(s, r, lsn).Ok? && PreparedPair(s, Online(s, r, lsn).value, left, right)
    ensures |Online(s, PrepareRecord(s, left, right), lsn).value| == |s|
  {
    hide TotalBytes;
  }

  lemma CopyPages(left: Page, right: Page, start: nat)
    requires Accounted(left) && 1 <= start < |left.entries|
    requires right == InitRightPage(right.prev, right.next, left.level).(lsn := right.lsn)
    ensures ApplySplitCopy(left, right, start, true).Ok?
    ensures var (l, r) := ApplySplitCopy(left, right, start, true).value;
            PackedWith(l, left, left.entries[..start]) && PackedWith(r, right, left.entries[start..])
  {
    var es := left.entries;
    RebuildExact(left, start);
    RebuiltTwice(left, start);
    LeftCostSplit(left.level, es, start);
    AppendAllExact(right, es[start..]);
    assert right.entries + es[start..] == es[start..];
  }

  lemma CopyApplies(s: Pages, s1: Pages, left: PageId, right: PageId, start: nat, lsn: Lsn)
    requires Splittable(s, left, right) && PreparedPair(s, s1, left, right) && 1 <= start < |s[left].entries|
    ensures var r := CopyRecord(s1, left, right, start);
            Describes(s1, r, lsn) && Online(s1, r, lsn).Ok? && SplitPair(s, Online(s1, r, lsn).value, left, right, start)
  {
    CopyPages(s1[left], s1[right], start);
    hide ApplySplitCopy;
    hide TotalBytes;
  }

  /** On a leaf, Prepare and Copy are disciplined steps, and the chain has the
      right page after the left one. */
  lemma LeafSplitDisciplined(s: Pages, s1: Pages, chain: seq<PageId>, k: nat, right: PageId, start: nat)
    requires TreeInv(s, chain) && k < |chain| && Splittable(s, chain[k], right)
    requires 0 < right && right !in chain && PreparedPair(s, s1, chain[k], right) && start < |s[chain[k]].entries|
    ensures Disciplined(s, chain, PrepareRecord(s, chain[k], right))
    ensures NextChain(chain, PrepareRecord(s, chain[k], right)) == Linked(chain, k, right)
    ensures Disciplined(s1, Linked(chain, k, right), CopyRecord(s1, chain[k], right, start))
  {
    hide Contents;
    hide TotalBytes;
    assert NextAt(s, chain, k);
    assert IndexOf(chain, chain[k]) == k;
    assert Linked(chain, k, right)[k] == chain[k];
  }

  /** The same for a page of either kind. */
  lemma SplitDisciplined(s: Pages, s1: Pages, chain: seq<PageId>, inner: set<PageId>, left: PageId, right: PageId, start: nat)
    requires TreeInv(s, chain) && Splittable(s, left, right) && 0 < right && right !in chain
    requires left !in chain ==> s[left].level > 0
    requires PreparedPair(s, s1, left, right) && start < |s[left].entries|
    ensures Disciplined(s, chain, PrepareRecord(s, left, right))
    ensures NextChain(chain, PrepareRecord(s, left, right)) == SplitChain(chain, left, right)
    ensures Disciplined(s1, SplitChain(chain, left, right), CopyRecord(s1, left, right, start))
  {
    hide Contents;
    if left in chain {
      LeafSplitDisciplined(s, s1, chain, IndexOf(chain, left), right, start);
    }
  }

  ghost function SplitChain(chain: seq<PageId>, left: PageId, right: PageId): seq<PageId>
  {
    if left in chain then Linked(chain, IndexOf(chain, left), right) else chain
  }

  ghost function SplitInner(inner: set<PageId>, left: PageId, right: PageId): set<PageId>
  {
    if left in inner then inner + {right} else inner
  }

  /** What is known of a page of the tree. */
  lemma TreePage(s: Pages, chain: seq<PageId>, inner: set<PageId>, free: seq<PageId>, meta: PageId, p: PageId)
    requires TreeInv(s, chain) && WithinKeyBound(Contents(s, chain)) && Upper(s, chain, inner, free, meta)
    requires p in chain || p in inner
    ensures 0 < p < |s| && Accounted(s[p]) && Sorted(s[p].entries) && WithinKeyBound(s[p].entries)
    ensures TotalCost(s[p].level, s[p].entries) <= PAGE_CAPACITY && p != meta && p !in free
    ensures if p in chain then s[p].level == 0 && p !in inner else 0 < s[p].level <= MAX_LEVEL && InnerAt(s, p)
  {
    hide Contents;
    if p in inner {
      assert InnerAt(s, p);
    }
    if p in chain {
      var k := IndexOf(chain, p);
      assert NextAt(s, chain, k);
      LeafOf(s, chain, k);
    }
    forall i | 0 <= i < |free| ensures free[i] != p {
      assert IsSpare(s, chain, inner, meta, free[i]);
    }
  }

  lemma LeafOf(s: Pages, chain: seq<PageId>, k: nat)
    requires k < |chain| && Sorted(Contents(s, chain)) && WithinKeyBound(Contents(s, chain))
    ensures Sorted(EntriesOf(s, chain[k])) && WithinKeyBound(EntriesOf(s, chain[k]))
    ensures forall e :: e in EntriesOf(s, chain[k]) ==> e in Contents(s, chain)
  {
    ContentsAt(s, chain, k);
    hide Contents;
    var a, leaf, es := Contents(s, chain[..k]), EntriesOf(s, chain[k]), Contents(s, chain);
    forall i | 0 <= i < |leaf| ensures es[|a| + i] == leaf[i] && |leaf[i].key| <= MAX_INDEX_KEY_BYTES {}
    forall i, j | 0 <= i < j < |leaf| ensures EntryLess(leaf[i], leaf[j]) {
      assert EntryLess(es[|a| + i], es[|a| + j]);
    }
  }

  lemma SplitSettled(s: Pages, s': Pages, chain: seq<PageId>, k: nat, right: PageId, start: nat)
    requires TreeInv(s, chain) && Settled(s, chain) && k < |chain| && right !in chain
    requires SplitPair(s, s', chain[k], right, start)
    ensures Settled(s', Linked(chain, k, right))
  {
    hide Contents;
    var chain' := Linked(chain, k, right);
    forall i | 0 <= i < |chain'| ensures !AwaitsCopy(s', chain'[i]) {
      if i != k && i != k + 1 {
        var i0 := if i < k then i else i - 1;
        assert NextAt(s, chain, i0) && TwinAt(s, chain, i0) && !AwaitsCopy(s, chain[i0]);
        if s[chain[i0]].flags.splitIncomplete {
          assert NextAt(s, chain, i0 + 1);
        }
      }
    }
  }

  /** The half the pending entry is compared into has room for it. */
  lemma HalfHasRoom(s: Pages, s': Pages, left: PageId, right: PageId, start: nat, pending: Entry)
    requires SplitPair(s, s', left, right, start) && Sorted(s[left].entries) && pending !in s[left].entries
    requires ValidSplit(s[left].level, s[left].entries, pending, start)
    ensures var half := s'[if EntryLess(pending, s[left].entries[start]) then left else right];
            FreeSpace(half) >= EntryCost(half.level, pending)
  {
    var es := s[left].entries;
    LeftCostSplit(s[left].level, es, start);
    LowerBoundSplits(es, pending);
    EntryTrichotomy(es[start], pending);
  }

  /** The levels above, after a split of a leaf or of an internal page. */
  lemma SplitUpper(s: Pages, s': Pages, chain: seq<PageId>, chain': seq<PageId>, inner: set<PageId>,
                   free: seq<PageId>, meta: PageId, left: PageId, right: PageId, start: nat)
    requires Upper(s, chain, inner, free, meta) && SplitPair(s, s', left, right, start) && !s[left].flags.splitIncomplete
    requires IsSpare(s, chain, inner, meta, right) && right !in free
    requires left in inner ==> chain' == chain
    requires left !in inner ==> left in chain && s[left].level == 0 && forall p :: p in chain' <==> p in chain || p == right
    ensures var inner' := SplitInner(inner, left, right);
            Upper(s', chain', inner', free, meta) && NoDownlink(s', inner', right)
    ensures forall c :: NoDownlink(s, inner, c) ==> NoDownlink(s', SplitInner(inner, left, right), c)
  {
    hide Internal;
    var inner' := SplitInner(inner, left, right);
    forall p | p in inner' ensures InnerAt(s', p) {
      assert p in inner ==> InnerAt(s, p);
      if left in inner && (p == left || p == right) {
        assert InnerAt(s, left);
        assert s[left].entries[..start] == s[left].entries[0..start];
        assert s[left].entries[start..] == s[left].entries[start..|s[left].entries|];
        HalvesInternal(s[left], s'[left], |s|, |s|, 0, start);
        HalvesInternal(s[left], s'[right], |s|, |s|, start, |s[left].entries|);
      }
    }
    forall c | NoDownlink(s, inner, c) ensures NoDownlink(s', inner', c) {
      SplitUnlinked(s, s', inner, left, right, start, c);
    }
    hide NoDownlink;
    forall i | 0 <= i < |free| ensures IsSpare(s', chain', inner', meta, free[i]) {
      assert IsSpare(s, chain, inner, meta, free[i]);
      SplitUnclaimed(s, s', left, right, start, free[i]);
    }
  }

  lemma SplitUnclaimed(s: Pages, s': Pages, left: PageId, right: PageId, start: nat, p: PageId)
    requires SplitPair(s, s', left, right, start) && p != left && p != right && Unclaimed(s, p) && !s[left].flags.splitIncomplete
    ensures Unclaimed(s', p)
  {
    hide TotalBytes;
  }

  /** Everything a split keeps. */
  lemma SplitKeeps(s: Pages, s': Pages, chain: seq<PageId>, inner: set<PageId>, free: seq<PageId>, meta: PageId,
                   left: PageId, right: PageId, start: nat)
    requires TreeInv(s, chain) && Settled(s, chain) && Upper(s, chain, inner, free, meta)
    requires SplitPair(s, s', left, right, start) && IsSpare(s, chain, inner, meta, right) && right !in free
    requires if left in chain then left !in inner && s[left].level == 0 else left in inner
    requires !s[left].flags.splitIncomplete
    ensures Settled(s', SplitChain(chain, left, right))
    ensures Upper(s', SplitChain(chain, left, right), SplitInner(inner, left, right), free, meta)
    ensures NoDownlink(s', SplitInner(inner, left, right), right)
    ensures forall c :: NoDownlink(s, inner, c) ==> NoDownlink(s', SplitInner(inner, left, right), c)
  {
    hide TreeInv;
    hide SplitPair;
    hide Upper;
    hide Settled;
    hide NoDownlink;
    if left in chain {
      var k := IndexOf(chain, left);
      SplitSettled(s, s', chain, k, right, start);
      LinkedElements(chain, k, right);
    } else {
      InnerSplitSettled(s, s', chain, inner, meta, left, right, start);
    }
    SplitUpper(s, s', chain, SplitChain(chain, left, right), inner, free, meta, left, right, start);
  }

  lemma InnerSplitSettled(s: Pages, s': Pages, chain: seq<PageId>, inner: set<PageId>, meta: PageId,
                          left: PageId, right: PageId, start: nat)
    requires TreeInv(s, chain) && Settled(s, chain) && left !in chain
    requires SplitPair(s, s', left, right, start) && IsSpare(s, chain, inner, meta, right)
    ensures Settled(s', chain)
  {
    hide TotalBytes;
    hide Contents;
    ElsewhereSettled(s, s', chain);
  }

  lemma SplitUnlinked(s: Pages, s': Pages, inner: set<PageId>, left: PageId, right: PageId, start: nat, c: PageId)
    requires SplitPair(s, s', left, right, start) && NoDownlink(s, inner, c)
    requires right !in inner
    ensures NoDownlink(s', SplitInner(inner, left, right), c)
  {
    hide TotalBytes;
    forall p | p in SplitInner(inner, left, right) && p < |s'| ensures NoLink(s'[p], c) {
      assert p in inner ==> NoLink(s[p], c);
      assert left in inner ==> NoLink(s[left], c);
    }
  }

  // ---- Commit ----

  /** Commit's effect: the parent has the downlink, the left page loses
      SPLIT_INCOMPLETE and ROOT. */
  ghost predicate CommitPair(s: Pages, s': Pages, left: PageId, parent: PageId, slot: nat, downlink: Entry)
  {
    && left < |s| == |s'| && parent < |s| && left != parent && slot <= |s[parent].entries|
    && s'[parent] == s[parent].(lsn := s'[parent].lsn, entries := InsertAt(s[parent].entries, slot, downlink),
                                upper := s'[parent].upper)
    && Accounted(s'[parent])
    && s'[left] == s[left].(lsn := s'[left].lsn, flags := s[left].flags.(splitIncomplete := false, root := false))
    && forall p :: 0 <= p < |s| && p != left && p != parent ==> s'[p] == s[p]
  }

  lemma CommitApplies(s: Pages, left: PageId, right: PageId, parent: PageId, sep: Key, slot: nat, lsn: Lsn)
    requires left < |s| && parent < |s| && left != parent && GoodGeometry(s[left]) && Accounted(s[parent])
    requires slot <= |s[parent].entries| && |sep| <= MAX_INDEX_KEY_BYTES
    requires FreeSpace(s[parent]) >= EntryCost(s[parent].level, Entry(sep, right, 0))
    ensures var r := Commit(left, right, parent, sep, slot);
            && Describes(s, r, lsn) && Online(s, r, lsn).Ok?
            && CommitPair(s, Online(s, r, lsn).value, left, parent, slot, Entry(sep, right, 0))
  {
    InsertKeepsAccounted(s[parent], slot, Entry(sep, right, 0));
    hide TotalBytes;
  }

  lemma CommitSettled(s: Pages, s': Pages, chain: seq<PageId>, left: PageId, parent: PageId, slot: nat, downlink: Entry)
    requires TreeInv(s, chain) && Settled(s, chain) && parent !in chain
    requires CommitPair(s, s', left, parent, slot, downlink)
    ensures Settled(s', chain)
  {
    hide Contents;
    hide TotalBytes;
    forall i | 0 <= i < |chain| ensures !AwaitsCopy(s', chain[i]) {
      assert NextAt(s, chain, i) && TwinAt(s, chain, i) && !AwaitsCopy(s, chain[i]);
      if s'[chain[i]].flags.splitIncomplete {
        assert NextAt(s, chain, i + 1);
      }
    }
  }

  lemma CommitUpper(s: Pages, s': Pages, chain: seq<PageId>, inner: set<PageId>, free: seq<PageId>, meta: PageId,
                    left: PageId, parent: PageId, slot: nat, downlink: Entry)
    requires Upper(s, chain, inner, free, meta) && CommitPair(s, s', left, parent, slot, downlink)
    requires parent in inner && (left in chain || left in inner) && slot == LowerBound(s[parent].entries, downlink)
    requires NoDownlink(s, inner, downlink.page) && 0 < downlink.page < |s| && downlink.page !in free
    requires 0 < |downlink.key| <= MAX_INDEX_KEY_BYTES
    ensures Upper(s', chain, inner, free, meta) && downlink in s'[parent].entries
    ensures forall c :: c != downlink.page && NoDownlink(s, inner, c) ==> NoDownlink(s', inner, c)
  {
    hide Internal;
    hide LowerBound;
    hide TotalBytes;
    assert InnerAt(s, parent) && NoLink(s[parent], downlink.page);
    assert s'[parent].entries[slot] == downlink;
    forall p | p in inner ensures InnerAt(s', p) {
      assert InnerAt(s, p);
      if p == parent {
        DownlinkInternal(s[p], s'[p], |s|, downlink);
        DownlinkSeparated(s[p].entries, downlink);
      } else if p == left {
        SameInternal(s[p], s'[p], |s|);
      }
    }
    forall c | c != downlink.page && NoDownlink(s, inner, c) ensures NoDownlink(s', inner, c) {
      InsertedUnlinked(s, s', inner, left, parent, slot, downlink, c);
    }
    forall i | 0 <= i < |free| ensures IsSpare(s', chain, inner, meta, free[i]) {
      assert IsSpare(s, chain, inner, meta, free[i]);
    }
  }

  lemma DownlinkSeparated(es: seq<Entry>, downlink: Entry)
    requires Separated(es) && downlink.key != []
    ensures Separated(InsertAt(es, LowerBound(es, downlink), downlink))
  {
    var slot := LowerBound(es, downlink);
    assert slot == 0 && es != [] ==> es[0].key != [];
    forall i | 1 <= i < |es| + 1 ensures InsertAt(es, slot, downlink)[i].key != [] {
      assert InsertAt(es, slot, downlink)[i] == if i < slot then es[i] else if i == slot then downlink else es[i - 1];
    }
  }

  lemma SameInternal(page: Page, page': Page, n: nat)
    requires Internal(page, n) && page'.entries == page.entries && page'.upper == page.upper && page'.level == page.level
    ensures Internal(page', n)
  {
    hide TotalBytes;
  }

  lemma InsertedUnlinked(s: Pages, s': Pages, inner: set<PageId>, left: PageId, parent: PageId, slot: nat,
                         downlink: Entry, c: PageId)
    requires CommitPair(s, s', left, parent, slot, downlink) && NoDownlink(s, inner, c) && c != downlink.page
    ensures NoDownlink(s', inner, c)
  {
    hide TotalBytes;
    forall p | p in inner && p < |s'| ensures NoLink(s'[p], c) {
      assert NoLink(s[p], c);
      if p == parent {
        InsertedElements(s[p].entries, slot, downlink);
        forall i | 0 <= i < |s'[p].entries| ensures s'[p].entries[i].page != c {
          assert s'[p].entries[i] in s'[p].entries;
        }
      }
    }
  }

  // ---- Root promotion ----

  function RootSeed(left: PageId): Entry { Entry([], left, 0) }

  function NewRoot(level: nat): Page { InitPage(level, Flags(false, true, false)) }

  /** The effect of a root promotion: a new root over the old one, and a meta
      record that names it. */
  ghost predicate Promoted(s: Pages, s': Pages, left: PageId, newRoot: PageId, meta: PageId, level: nat)
  {
    && |s'| == |s| && newRoot < |s| && meta < |s| && newRoot != meta
    && s'[newRoot] == NewRoot(level + 1).(lsn := s'[newRoot].lsn, entries := [RootSeed(left)], upper := PD_SPECIAL - 8)
    && s'[meta] == s[meta].(lsn := s'[meta].lsn, entries := s[meta].entries + [Entry([], newRoot, level + 1)],
                            upper := s'[meta].upper)
    && GoodGeometry(s'[meta]) && FreeSpace(s'[meta]) + 14 == FreeSpace(s[meta])
    && forall p :: 0 <= p < |s| && p != newRoot && p != meta ==> s'[p] == s[p]
  }

  function SeedRecord(left: PageId, newRoot: PageId, level: nat): Record
  {
    Insert(newRoot, 0, level + 1, Flags(false, true, false), RootSeed(left))
  }

  function MetaRecord(s: Pages, newRoot: PageId, meta: PageId, level: nat): Record
    requires meta < |s|
  {
    Insert(meta, |s[meta].entries|, 0, Flags(false, false, false), Entry([], newRoot, level + 1))
  }

  lemma SeedApplies(s: Pages, s1: Pages, left: PageId, newRoot: PageId, level: nat, lsn: Lsn)
    requires newRoot < |s| == |s1| && s1 == s[newRoot := NewRoot(level + 1).(lsn := s1[newRoot].lsn)]
    ensures var r := SeedRecord(left, newRoot, level);
            && Describes(s1, r, lsn) && Online(s1, r, lsn).Ok?
            && var s2 := Online(s1, r, lsn).value;
               s2 == s[newRoot := NewRoot(level + 1).(lsn := s2[newRoot].lsn, entries := [RootSeed(left)], upper := PD_SPECIAL - 8)]
  {
    assert InsertAt([], 0, RootSeed(left)) == [RootSeed(left)];
  }

  lemma MetaApplies(s: Pages, s2: Pages, left: PageId, newRoot: PageId, meta: PageId, level: nat, lsn: Lsn)
    requires newRoot < |s| == |s2| && meta < |s| && newRoot != meta && s[meta].level == 0 && GoodGeometry(s[meta])
    requires s2 == s[newRoot := NewRoot(level + 1).(lsn := s2[newRoot].lsn, entries := [RootSeed(left)], upper := PD_SPECIAL - 8)]
    requires FreeSpace(s[meta]) >= 14
    ensures var r := MetaRecord(s2, newRoot, meta, level);
            && Describes(s2, r, lsn) && Online(s2, r, lsn).Ok?
            && Promoted(s, Online(s2, r, lsn).value, left, newRoot, meta, level)
  {
    var e := Entry([], newRoot, level + 1);
    assert InsertAt(s[meta].entries, |s[meta].entries|, e) == s[meta].entries + [e];
  }

  lemma PromotedUpper(s: Pages, s': Pages, chain: seq<PageId>, inner: set<PageId>, free: seq<PageId>, meta: PageId,
                      left: PageId, newRoot: PageId, level: nat)
    requires Upper(s, chain, inner, free, meta) && Promoted(s, s', left, newRoot, meta, level)
    requires IsSpare(s, chain, inner, meta, newRoot) && newRoot !in free && level < MAX_LEVEL
    requires 0 < left < |s| && LastOf(s[meta]).page == left && s[left].level == level
    ensures Upper(s', chain, inner + {newRoot}, free, meta)
    ensures forall c :: c != left && NoDownlink(s, inner, c) ==> NoDownlink(s', inner + {newRoot}, c)
  {
    hide Internal;
    var inner' := inner + {newRoot};
    forall p | p in inner' ensures InnerAt(s', p) {
      assert p in inner ==> InnerAt(s, p);
      if p == newRoot {
        RootInternal(s'[p], left, |s|);
      }
    }
    forall c | c != left && NoDownlink(s, inner, c) ensures NoDownlink(s', inner', c) {
      forall p | p in inner' && p < |s'| ensures NoLink(s'[p], c) {
        assert p in inner ==> NoLink(s[p], c);
      }
    }
    forall i | 0 <= i < |free| ensures IsSpare(s', chain, inner', meta, free[i]) {
      assert IsSpare(s, chain, inner, meta, free[i]);
      assert free[i] != left;
    }
  }

  lemma RootInternal(page: Page, left: PageId, n: nat)
    requires page.entries == [RootSeed(left)] && page.upper == PD_SPECIAL - 8 && page.level > 0 && 0 < left < n
    ensures Internal(page, n)
  {
    assert TotalBytes(page.level, page.entries) == 8;
  }

  /** Steps away from the leaves settle nothing and unsettle nothing. */
  lemma ElsewhereSettled(s: Pages, s': Pages, chain: seq<PageId>)
    requires TreeInv(s, chain) && Settled(s, chain) && |s| == |s'|
    requires forall i :: 0 <= i < |chain| && chain[i] < |s| ==> s'[chain[i]] == s[chain[i]]
    ensures Settled(s', chain)
  {
    hide Contents;
    hide TotalBytes;
    forall i | 0 <= i < |chain| ensures !AwaitsCopy(s', chain[i]) {
      assert NextAt(s, chain, i) && TwinAt(s, chain, i) && !AwaitsCopy(s, chain[i]);
      if s'[chain[i]].flags.splitIncomplete {
        assert NextAt(s, chain, i + 1);
      }
    }
  }

  lemma PromotedSettled(s: Pages, s': Pages, chain: seq<PageId>, inner: set<PageId>, meta: PageId,
                        left: PageId, newRoot: PageId, level: nat)
    requires TreeInv(s, chain) && Settled(s, chain) && Promoted(s, s', left, newRoot, meta, level)
    requires IsSpare(s, chain, inner, meta, newRoot) && meta !in chain
    ensures Settled(s', chain)
  {
    hide Contents;
    hide TotalBytes;
    ElsewhereSettled(s, s', chain);
  }
}

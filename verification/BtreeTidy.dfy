/** Files without stray internal pages, on which every record the index writes is
    a careful one (crates/pg-am-btree/src/index.rs). */
module BtreeTidy {
  import opened Keys
  import opened Outcome
  import opened Sequences
  import opened BtreePages
  import opened BtreeLog
  import opened BtreeReplay
  import opened BtreeChain
  import opened BtreeContent
  import opened BtreeRuns
  import opened BtreeSearch
  import opened BtreeInner
  import opened BtreeClr
  import opened BtreeFresh
  import opened BtreeRound
  import opened BtreePending
  import opened BtreeReady
  import opened BtreeCareful
  import opened BtreeSplit

  /** No page outside the tree looks like an internal page. */
  ghost predicate InnerOnly(s: Pages, inner: set<PageId>)
  {
    forall p :: 0 <= p < |s| && s[p].level > 0 && GoodGeometry(s[p]) ==> p in inner
  }

  /** The root the meta page names is flagged as one, and nothing points at it. */
  ghost predicate RootOk(s: Pages, inner: set<PageId>, meta: PageId)
  {
    && meta < |s| && s[meta].entries != [] && LastOf(s[meta]).page < |s|
    && s[LastOf(s[meta]).page].flags.root && NoDownlink(s, inner, LastOf(s[meta]).page)
  }

  ghost predicate TidyPages(s: Pages, inner: set<PageId>, meta: PageId)
  {
    InnerOnly(s, inner) && RootOk(s, inner, meta)
  }

  lemma Unreferenced(s: Pages, inner: set<PageId>, c: PageId)
    requires InnerOnly(s, inner) && NoDownlink(s, inner, c)
    ensures !HasDownlink(s, c)
  {
    forall p, i | 0 <= p < |s| ensures !DownlinkAt(s[p], i, c) {
      assert p in inner ==> NoLink(s[p], c);
    }
  }

  // ---- The records ----

  lemma QuietCareful(s: Pages, chain: seq<PageId>, r: Record)
    requires r.Delete? || (r.Insert? && |r.entry.key| <= MAX_INDEX_KEY_BYTES && (r.page < |s| ==> s[r.page].level == 0))
    ensures Careful(s, chain, r)
  {}

  lemma PrepareCareful(s: Pages, chain: seq<PageId>, inner: set<PageId>, left: PageId, right: PageId)
    requires left < |s| && s[left].entries != [] && (left !in chain ==> InnerAt(s, left))
    requires InnerOnly(s, inner) && NoDownlink(s, inner, right)
    ensures Careful(s, chain, PrepareRecord(s, left, right))
  {
    hide NoDownlink;
    hide HasDownlink;
    Unreferenced(s, inner, right);
  }

  lemma CopyCareful(s: Pages, s1: Pages, chain: seq<PageId>, left: PageId, right: PageId, start: nat)
    requires 0 < left < |s| && right < |s| && left != right && PreparedPair(s, s1, left, right) && start < |s[left].entries|
    ensures Careful(s1, chain, CopyRecord(s1, left, right, start))
  {}

  lemma ImageCareful(s: Pages, chain: seq<PageId>, newRoot: PageId, level: nat)
    requires Unclaimed(s, newRoot)
    ensures Careful(s, chain, Image(newRoot, NewRoot(level + 1)))
  {}

  lemma SeedCareful(s: Pages, chain: seq<PageId>, left: PageId, newRoot: PageId, level: nat)
    requires newRoot < |s| && s[newRoot].entries == [] && newRoot !in chain && 0 < left < |s|
    requires forall q: PageId :: Flagged(s, q) ==> s[q].next != left
    ensures Careful(s, chain, SeedRecord(left, newRoot, level))
  {}

  lemma CommitCareful(s: Pages, chain: seq<PageId>, inner: set<PageId>, left: PageId, right: PageId, parent: PageId,
                      sep: Key, slot: nat)
    requires 0 < left < |s| && s[left].flags.splitIncomplete && s[left].next == right && 0 < right < |s|
    requires parent in inner && InnerAt(s, parent) && NoDownlink(s, inner, right) && |sep| <= MAX_INDEX_KEY_BYTES
    requires slot == LowerBound(s[parent].entries, Entry(sep, right, 0))
    ensures Careful(s, chain, Commit(left, right, parent, sep, slot))
  {
    hide LowerBound;
    assert NoLink(s[parent], right);
  }

  // ---- The pages ----

  lemma TidyLeaf(s: Pages, s': Pages, leaf: PageId, inner: set<PageId>, meta: PageId)
    requires TidyPages(s, inner, meta) && OnlyLeaf(s, s', leaf) && leaf !in inner && leaf != meta
    ensures TidyPages(s', inner, meta)
  {
    hide NoLink;
    hide GoodGeometry;
  }

  lemma TidySplit(s: Pages, s': Pages, chain: seq<PageId>, inner: set<PageId>, meta: PageId, left: PageId, right: PageId,
                  start: nat)
    requires TidyPages(s, inner, meta) && SplitPair(s, s', left, right, start) && IsSpare(s, chain, inner, meta, right)
    requires left != meta && (left in inner || s[left].level == 0)
    requires LastOf(s[meta]).page in chain || LastOf(s[meta]).page in inner
    requires forall c :: NoDownlink(s, inner, c) ==> NoDownlink(s', SplitInner(inner, left, right), c)
    ensures TidyPages(s', SplitInner(inner, left, right), meta)
  {
    hide NoDownlink;
    hide TotalBytes;
    hide Unclaimed;
  }

  lemma TidyPromoted(s: Pages, s': Pages, chain: seq<PageId>, inner: set<PageId>, meta: PageId, left: PageId,
                     newRoot: PageId, level: nat)
    requires TidyPages(s, inner, meta) && Promoted(s, s', left, newRoot, meta, level) && left != newRoot
    requires IsSpare(s, chain, inner, meta, newRoot) && s[meta].level == 0
    requires forall c :: c != left && NoDownlink(s, inner, c) ==> NoDownlink(s', inner + {newRoot}, c)
    ensures TidyPages(s', inner + {newRoot}, meta)
  {
    hide NoDownlink;
    hide Unclaimed;
    assert LastOf(s'[meta]) == Entry([], newRoot, level + 1);
  }

  lemma TidyCommit(s: Pages, s': Pages, inner: set<PageId>, meta: PageId, left: PageId, parent: PageId, slot: nat,
                   downlink: Entry)
    requires TidyPages(s, inner, meta) && CommitPair(s, s', left, parent, slot, downlink)
    requires parent in inner && parent != meta && left != meta
    requires LastOf(s[meta]).page != left && LastOf(s[meta]).page != downlink.page
    requires left in inner || s[left].level == 0
    requires forall c :: c != downlink.page && NoDownlink(s, inner, c) ==> NoDownlink(s', inner, c)
    ensures TidyPages(s', inner, meta)
  {
    hide NoDownlink;
    hide TotalBytes;
  }

  /** In a sound file a page that is flagged as a root is nobody's right page. */
  lemma RootIsNoTwin(s: Pages, chain: seq<PageId>, root: PageId)
    requires RunSound(s, chain) && root < |s| && s[root].flags.root
    ensures forall q: PageId :: Flagged(s, q) ==> s[q].next != root
  {
    hide SpineInv;
    hide Contents;
    hide HasDownlink;
    forall q: PageId | Flagged(s, q) ensures s[q].next != root {
      assert ClaimAt(s, chain, q);
    }
  }
}

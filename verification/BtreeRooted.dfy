/** Files in which every page above the leaves hangs in a tree whose root is
    published (crates/pg-am-btree/src/index.rs): what a record of the undo pass
    does to the trees. */
module BtreeRooted {
  import opened Keys
  import opened Outcome
  import opened Sequences
  import opened BtreePages
  import opened BtreeLog
  import opened BtreeSearch
  import opened BtreeFinish
  import opened BtreeInner
  import opened BtreeScan
  import opened BtreeClr
  import opened BtreeFresh

  /** A page the search for a parent looks at. */
  predicate Node(page: Page) { page.level > 0 && GoodGeometry(page) && !page.flags.leaf }

  /** No page space was lost to deletes. */
  predicate Tight(page: Page) { page.upper + TotalBytes(page.level, page.entries) == PD_SPECIAL }

  // ---- Downlinks are not lost ----

  predicate HoldsAt(page: Page, level: nat, e: Entry)
  {
    Node(page) && page.level == level && e in page.entries
  }

  /** Some page of that level has this downlink. */
  ghost predicate Holds(s: Pages, level: nat, e: Entry)
  {
    exists p :: 0 < p < |s| && HoldsAt(s[p], level, e)
  }

  ghost predicate EntriesKept(s: Pages, s': Pages)
  {
    forall level: nat, e: Entry :: Holds(s, level, e) ==> Holds(s', level, e)
  }

  lemma HeldBy(s: Pages, p: PageId, level: nat, e: Entry)
    requires 0 < p < |s| && HoldsAt(s[p], level, e)
    ensures Holds(s, level, e)
  {}

  lemma ParentHolds(s: Pages, c: PageId, level: nat)
    ensures Parent(s, c, level).Some? <==> exists e: Entry :: e.page == c && Holds(s, level + 1, e)
  {
    if Parent(s, c, level).Some? {
      var p := Parent(s, c, level).value;
      var i :| 0 <= i < |s[p].entries| && s[p].entries[i].page == c;
      HeldBy(s, p, level + 1, s[p].entries[i]);
    }
    if e: Entry :| e.page == c && Holds(s, level + 1, e) {
      var p :| 0 < p < |s| && HoldsAt(s[p], level + 1, e);
      var i :| 0 <= i < |s[p].entries| && s[p].entries[i] == e;
      assert IsParent(s[p], c, level);
    }
  }

  lemma ParentKept(s: Pages, s': Pages, c: PageId, level: nat)
    requires EntriesKept(s, s') && Parent(s, c, level).Some?
    ensures Parent(s', c, level).Some?
  {
    ParentHolds(s, c, level);
    ParentHolds(s', c, level);
  }

  lemma GrownKeeps(s: Pages, page: Page)
    ensures EntriesKept(s, s + [page])
  {
    forall level: nat, e: Entry | Holds(s, level, e) ensures Holds(s + [page], level, e) {
      var p :| 0 < p < |s| && HoldsAt(s[p], level, e);
      HeldBy(s + [page], p, level, e);
    }
  }

  // ---- Trees ----

  predicate Inner(page: Page) { Node(page) && page.entries != [] }

  ghost predicate Grounded(s: Pages, p: PageId)
    requires p < |s|
  {
    s[p].flags.root || Parent(s, p, s[p].level).Some?
  }

  /** The right page of a pending split. */
  ghost predicate IsTwin(s: Pages, p: PageId)
  {
    exists q :: 0 < q < |s| && TwinOf(s[q], p)
  }

  predicate TwinOf(page: Page, p: PageId) { page.flags.splitIncomplete && page.next == p }

  /** The root is published on a page with room for every promotion its level
      still allows, of which there are at least `k`. */
  ghost predicate Crowned(s: Pages, p: PageId, k: nat)
    requires p < |s|
  {
    && s[p].level + k <= MAX_LEVEL && MetaPage(s, p).Some?
    && FreeSpace(s[MetaPage(s, p).value]) + 14 * s[p].level >= 14 * MAX_LEVEL
  }

  ghost predicate HungAt(s: Pages, p: PageId, k: nat)
    requires p < |s|
  {
    && (Inner(s[p]) ==> Grounded(s, p) || IsTwin(s, p))
    && (s[p].flags.splitIncomplete ==> Grounded(s, p))
    && (s[p].flags.root && (s[p].flags.splitIncomplete || Inner(s[p])) ==> Crowned(s, p, k))
    && (Node(s[p]) ==> Tight(s[p]))
  }

  /** Meta records name pages that have been written. */
  ghost predicate NamesWritten(s: Pages)
  {
    forall p: PageId, id: PageId :: 0 < p < |s| ==> WrittenAt(s, p, id)
  }

  ghost predicate WrittenAt(s: Pages, p: PageId, id: PageId)
    requires p < |s|
  {
    s[p].level == 0 && Answers(s[p], id) ==> id < |s| && !IsFresh(s[id])
  }

  /** Every page with downlinks is a root, has a parent, or waits for one as the
      right page of a pending split; a page whose split is pending does not wait;
      roots are published, and can be promoted `k` times. */
  ghost predicate Hung(s: Pages, k: nat)
  {
    NamesWritten(s) && forall p :: 0 < p < |s| ==> HungAt(s, p, k)
  }

  lemma HungLess(s: Pages, k: nat, k': nat)
    requires Hung(s, k) && k' <= k
    ensures Hung(s, k')
  {
    forall p | 0 < p < |s| ensures HungAt(s, p, k') {
      assert HungAt(s, p, k);
    }
  }

  lemma AnswersHigh(page: Page, n: nat, root: PageId)
    requires Internal(page, n) && n <= 0x1_0000_0000_0000 && page.level > 0 && Answers(page, root)
    ensures root >= 65536
  {
    var last := page.entries[|page.entries| - 1];
    assert 0 < last.page < n;
    assert last.page % 0x1_0000_0000_0000 == last.page;
  }

  /** In a small file only pages of level 0 answer. */
  lemma AnswersLow(s: Pages, q: PageId, root: PageId)
    requires Ordered(s) && |s| <= 65536 && root < 65536 && q < |s| && Answers(s[q], root)
    ensures s[q].level == 0
  {
    if s[q].level > 0 {
      AnswersHigh(s[q], |s|, root);
    }
  }

  // ---- What a record does to the trees ----

  ghost predicate SidesKept(left: Page, right: Page, left': Page, right': Page)
  {
    && !left.flags.leaf && !right.flags.leaf && (Tight(left) ==> Tight(left')) && (Tight(right) ==> Tight(right'))
    && left'.entries + right'.entries == left.entries + right.entries
  }

  /** No meta page looks like this. */
  predicate OffMeta(page: Page) { page.level > 0 || page.flags.leaf }

  ghost predicate DownlinkHooked(s: Pages, rec: Clr, s': Pages)
    requires ClrWithinFile(rec, |s|) && |s'| == |s|
  {
    var d := DownlinkPage(rec);
    && 0 < d && s'[d].level == rec.level + 1 && Node(s'[d]) && Entry(rec.separator, rec.right, 0) in s'[d].entries
    && if rec.newRoot != INVALID then
         IsFresh(s[d]) && !s[d].flags.splitIncomplete && Tight(s'[d]) && Entry([], rec.left, 0) in s'[d].entries
       else
         Inner(s[d]) && (Tight(s[d]) ==> Tight(s'[d])) && forall e :: e in s[d].entries ==> e in s'[d].entries
  }

  ghost predicate MetaHooked(s: Pages, rec: Clr, s': Pages)
    requires ClrWithinFile(rec, |s|) && |s'| == |s|
  {
    if rec.newRoot == INVALID then rec.meta == INVALID
    else
      && rec.meta != INVALID && s[rec.meta].level == 0 && Answers(s[rec.meta], rec.left)
      && s'[rec.meta].entries == s[rec.meta].entries + [Entry([], rec.newRoot, rec.level + 1)]
      && FreeSpace(s'[rec.meta]) + 14 == FreeSpace(s[rec.meta])
  }

  /** The record puts a downlink to its right page into the tree of its left
      page, and moves entries only between the two. */
  ghost predicate Hooked(s: Pages, rec: Clr, lsn: Lsn, s': Pages)
  {
    && ClrWithinFile(rec, |s|) && ClrDistinct(rec) && 0 < rec.left && 0 < rec.right && ClrMoved(s, rec, lsn, s')
    && s[rec.right].level == s[rec.left].level == rec.level && OffMeta(s[rec.left]) && OffMeta(s[rec.right])
    && GoodGeometry(s[rec.left]) && GoodGeometry(s[rec.right])
    && !s'[rec.left].flags.root && !s[rec.right].flags.root && (rec.newRoot != INVALID <==> s[rec.left].flags.root)
    && (rec.level > 0 ==> SidesKept(s[rec.left], s[rec.right], s'[rec.left], s'[rec.right]))
    && DownlinkHooked(s, rec, s') && MetaHooked(s, rec, s')
    && (s[rec.left].flags.splitIncomplete ==> s[rec.left].next == rec.right)
  }

  lemma HookedKeepsEntry(s: Pages, rec: Clr, lsn: Lsn, s': Pages, level: nat, e: Entry)
    requires Hooked(s, rec, lsn, s') && Holds(s, level, e)
    ensures Holds(s', level, e)
  {
    hide TotalBytes;
    var p :| 0 < p < |s| && HoldsAt(s[p], level, e);
    if p == rec.left || p == rec.right {
      var both := s[rec.left].entries + s[rec.right].entries;
      assert e in both;
      assert e in s'[rec.left].entries + s'[rec.right].entries;
      HeldBy(s', if e in s'[rec.left].entries then rec.left else rec.right, level, e);
    } else {
      HeldBy(s', p, level, e);
    }
  }

  lemma HookedKeeps(s: Pages, rec: Clr, lsn: Lsn, s': Pages)
    requires Hooked(s, rec, lsn, s')
    ensures EntriesKept(s, s')
  {
    forall level: nat, e: Entry | Holds(s, level, e) ensures Holds(s', level, e) {
      HookedKeepsEntry(s, rec, lsn, s', level, e);
    }
  }

  /** Both halves have a parent after it, unless the left one is still without. */
  lemma HookedGrounds(s: Pages, rec: Clr, lsn: Lsn, s': Pages)
    requires Hooked(s, rec, lsn, s')
    ensures Grounded(s', rec.right) && (Grounded(s, rec.left) ==> Grounded(s', rec.left))
  {
    hide TotalBytes;
    var d := DownlinkPage(rec);
    HeldBy(s', d, rec.level + 1, Entry(rec.separator, rec.right, 0));
    ParentHolds(s', rec.right, rec.level);
    if s[rec.left].flags.root {
      HeldBy(s', d, rec.level + 1, Entry([], rec.left, 0));
      ParentHolds(s', rec.left, rec.level);
    } else if Grounded(s, rec.left) {
      HookedKeeps(s, rec, lsn, s');
      ParentKept(s, s', rec.left, rec.level);
    }
  }

  lemma StillGrounded(s: Pages, rec: Clr, lsn: Lsn, s': Pages, p: PageId)
    requires Hooked(s, rec, lsn, s') && p < |s| && p != rec.left && p != rec.right && p != rec.newRoot && Grounded(s, p)
    ensures Grounded(s', p)
  {
    hide TotalBytes;
    hide DownlinkHooked;
    hide MetaHooked;
    assert s'[p].level == s[p].level && s'[p].flags == s[p].flags;
    if !s[p].flags.root {
      HookedKeeps(s, rec, lsn, s');
      ParentKept(s, s', p, s[p].level);
    }
  }

  lemma StillTwin(s: Pages, rec: Clr, lsn: Lsn, s': Pages, p: PageId)
    requires Hooked(s, rec, lsn, s') && IsTwin(s, p) && p != rec.right
    ensures IsTwin(s', p)
  {
    hide TotalBytes;
    hide MetaHooked;
    var q :| 0 < q < |s| && TwinOf(s[q], p);
    assert q != rec.left;
    assert TwinOf(s'[q], p);
  }

  /** Of the pages the record names only the meta page answers, for the new root. */
  lemma NamedSilent(s: Pages, rec: Clr, lsn: Lsn, s': Pages, q: PageId, root: PageId)
    requires Hooked(s, rec, lsn, s') && q in ClrPages(rec)
    ensures q < |s'| && (s'[q].level == 0 && Answers(s'[q], root) ==> q == rec.meta && root == rec.newRoot)
    ensures s[q].level == 0 && Answers(s[q], root) ==> q == rec.meta && root == rec.left
  {
    hide TotalBytes;
    if q == rec.meta && rec.newRoot != INVALID {
      assert s'[q].entries[|s'[q].entries| - 1] == Entry([], rec.newRoot, rec.level + 1);
    }
  }

  lemma UnnamedSame(s: Pages, rec: Clr, lsn: Lsn, s': Pages, q: PageId)
    requires Hooked(s, rec, lsn, s') && q < |s| && q !in ClrPages(rec)
    ensures |s'| == |s| && s'[q] == s[q]
  {}

  /** The meta page of another root is not touched and still the first to
      answer. */
  lemma StillCrowned(s: Pages, rec: Clr, lsn: Lsn, s': Pages, p: PageId, k: nat)
    requires Hooked(s, rec, lsn, s') && Ordered(s) && Ordered(s') && |s| <= 65536
    requires p < |s| && p != rec.left && p != rec.newRoot && s'[p].level == s[p].level && Crowned(s, p, k)
    ensures Crowned(s', p, k)
  {
    assert |s'| == |s|;
    hide Hooked;
    hide Ordered;
    var m := MetaPage(s, p).value;
    OtherMeta(s, rec, lsn, s', p, m);
    var m' := MetaPage(s', p).value;
    OtherMeta(s, rec, lsn, s', p, m');
  }

  lemma OtherMeta(s: Pages, rec: Clr, lsn: Lsn, s': Pages, p: PageId, m: PageId)
    requires Hooked(s, rec, lsn, s') && Ordered(s) && Ordered(s') && |s| <= 65536
    requires p < |s| && p != rec.left && p != rec.newRoot && m < |s| && (Answers(s[m], p) || Answers(s'[m], p))
    ensures s'[m] == s[m]
  {
    assert |s'| == |s|;
    hide Hooked;
    hide Ordered;
    hide Answers;
    if m in ClrPages(rec) {
      NamedSilent(s, rec, lsn, s', m, p);
      if Answers(s[m], p) {
        AnswersLow(s, m, p);
      } else {
        AnswersLow(s', m, p);
      }
    } else {
      UnnamedSame(s, rec, lsn, s', m);
    }
  }

  lemma NewlyCrowned(s: Pages, rec: Clr, lsn: Lsn, s': Pages, k: nat)
    requires Hooked(s, rec, lsn, s') && Ordered(s') && |s| <= 65536 && NamesWritten(s)
    requires rec.newRoot != INVALID && k > 0 && Crowned(s, rec.left, k) && MetaPage(s, rec.left) == Some(rec.meta)
    ensures Crowned(s', rec.newRoot, k - 1)
  {
    hide TotalBytes;
    hide Internal;
    var m := rec.meta;
    assert s'[m].entries[|s'[m].entries| - 1] == Entry([], rec.newRoot, rec.level + 1);
    assert Answers(s'[m], rec.newRoot);
    var m' := MetaPage(s', rec.newRoot).value;
    AnswersLow(s', m', rec.newRoot);
    assert WrittenAt(s, m', rec.newRoot);
    if m' in ClrPages(rec) {
      NamedSilent(s, rec, lsn, s', m', rec.newRoot);
    } else {
      UnnamedSame(s, rec, lsn, s', m');
    }
  }

  lemma StillNames(s: Pages, rec: Clr, lsn: Lsn, s': Pages, p: PageId, id: PageId)
    requires Hooked(s, rec, lsn, s') && NamesWritten(s) && 0 < p < |s'| && s'[p].level == 0 && Answers(s'[p], id)
    ensures WrittenAt(s', p, id)
  {
    hide Answers;
    if p in ClrPages(rec) {
      NamedSilent(s, rec, lsn, s', p, id);
    } else {
      UnnamedSame(s, rec, lsn, s', p);
      assert WrittenAt(s, p, id);
      StillOld(s, rec, lsn, s', id);
    }
  }

  lemma StillWritten(s: Pages, rec: Clr, lsn: Lsn, s': Pages)
    requires Hooked(s, rec, lsn, s') && NamesWritten(s)
    ensures NamesWritten(s')
  {
    hide Answers;
    hide Hooked;
    forall p: PageId, id: PageId | 0 < p < |s'| ensures WrittenAt(s', p, id) {
      if s'[p].level == 0 && Answers(s'[p], id) {
        StillNames(s, rec, lsn, s', p, id);
      }
    }
  }

  lemma StillOld(s: Pages, rec: Clr, lsn: Lsn, s': Pages, id: PageId)
    requires Hooked(s, rec, lsn, s') && id < |s| && !IsFresh(s[id])
    ensures !IsFresh(s'[id])
  {
    hide TotalBytes;
  }

  lemma HookedAt(s: Pages, rec: Clr, lsn: Lsn, s': Pages, k: nat, p: PageId)
    requires Hooked(s, rec, lsn, s') && Hung(s, k) && Ordered(s) && Ordered(s') && |s| <= 65536 && 0 < p < |s|
    requires rec.newRoot != INVALID ==> k > 0 && Crowned(s, rec.left, k) && MetaPage(s, rec.left) == Some(rec.meta)
    requires Grounded(s, rec.left) || (!s[rec.left].flags.splitIncomplete && IsTwin(s, rec.left))
    ensures HungAt(s', p, if rec.newRoot != INVALID then k - 1 else k)
  {
    assert HungAt(s, p, k);
    HookedGrounds(s, rec, lsn, s');
    if p == rec.right || (p == rec.left && Grounded(s, p)) {
      HookedSides(s, rec, lsn, s', k);
    } else if p == rec.left {
      StillTwin(s, rec, lsn, s', p);
      HookedSides(s, rec, lsn, s', k);
    } else if p == rec.newRoot {
      NewlyCrowned(s, rec, lsn, s', k);
    } else {
      HookedElsewhere(s, rec, lsn, s', k, p);
    }
  }

  lemma HookedSides(s: Pages, rec: Clr, lsn: Lsn, s': Pages, k: nat)
    requires Hooked(s, rec, lsn, s') && HungAt(s, rec.left, k) && HungAt(s, rec.right, k)
    ensures Node(s'[rec.left]) ==> Tight(s'[rec.left])
    ensures Node(s'[rec.right]) ==> Tight(s'[rec.right])
    ensures !s'[rec.left].flags.root && !s'[rec.right].flags.root && !s'[rec.left].flags.splitIncomplete
  {
    hide TotalBytes;
  }

  lemma HookedElsewhere(s: Pages, rec: Clr, lsn: Lsn, s': Pages, k: nat, p: PageId)
    requires Hooked(s, rec, lsn, s') && Ordered(s) && Ordered(s') && |s| <= 65536 && 0 < p < |s|
    requires p != rec.left && p != rec.right && p != rec.newRoot && HungAt(s, p, k)
    requires rec.newRoot != INVALID ==> k > 0
    ensures HungAt(s', p, if rec.newRoot != INVALID then k - 1 else k)
  {
    SameKind(s, rec, lsn, s', k, p);
    if Inner(s[p]) || s[p].flags.splitIncomplete {
      if Grounded(s, p) {
        StillGrounded(s, rec, lsn, s', p);
      } else {
        StillTwin(s, rec, lsn, s', p);
      }
      if s[p].flags.root {
        StillCrowned(s, rec, lsn, s', p, k);
      }
    }
  }

  lemma SameKind(s: Pages, rec: Clr, lsn: Lsn, s': Pages, k: nat, p: PageId)
    requires Hooked(s, rec, lsn, s') && 0 < p < |s| && p != rec.left && p != rec.right && p != rec.newRoot && HungAt(s, p, k)
    ensures s'[p].level == s[p].level && s'[p].flags == s[p].flags
    ensures Inner(s'[p]) ==> Inner(s[p])
    ensures Node(s'[p]) ==> Tight(s'[p])
  {
    hide TotalBytes;
    hide Crowned;
  }

  lemma HookedHangs(s: Pages, rec: Clr, lsn: Lsn, s': Pages, k: nat)
    requires Hooked(s, rec, lsn, s') && Hung(s, k) && Ordered(s) && Ordered(s') && |s| <= 65536
    requires rec.newRoot != INVALID ==> k > 0 && Crowned(s, rec.left, k) && MetaPage(s, rec.left) == Some(rec.meta)
    requires Grounded(s, rec.left) || (!s[rec.left].flags.splitIncomplete && IsTwin(s, rec.left))
    ensures Hung(s', if rec.newRoot != INVALID then k - 1 else k)
  {
    var k' := if rec.newRoot != INVALID then k - 1 else k;
    StillWritten(s, rec, lsn, s');
    assert |s'| == |s|;
    hide Hooked;
    hide HungAt;
    forall p | 0 < p < |s'| ensures HungAt(s', p, k') {
      HookedAt(s, rec, lsn, s', k, p);
    }
  }

  // ---- Runs of records ----

  /** From `s` to `s'` no downlink is lost and, with at most `n` promotions, every
      page still hangs in a published tree. */
  ghost predicate Steady(s: Pages, s': Pages, n: nat)
  {
    && |s| <= |s'| && EntriesKept(s, s')
    && forall k: nat :: k >= n && Hung(s, k) && |s'| <= 65536 ==> Hung(s', k - n)
  }

  lemma SteadyMore(s: Pages, s': Pages, n: nat, m: nat)
    requires Steady(s, s', n) && n <= m
    ensures Steady(s, s', m)
  {
    hide Hung;
    hide EntriesKept;
    forall k: nat | k >= m && Hung(s, k) && |s'| <= 65536 ensures Hung(s', k - m) {
      assert Hung(s', k - n);
      HungLess(s', k - n, k - m);
    }
  }

  lemma SteadyTransitive(s: Pages, s1: Pages, s2: Pages, n: nat, m: nat)
    requires Steady(s, s1, n) && Steady(s1, s2, m)
    ensures Steady(s, s2, n + m)
  {
    hide Hung;
    hide Holds;
    forall k: nat | k >= n + m && Hung(s, k) && |s2| <= 65536 ensures Hung(s2, k - (n + m)) {
      assert Hung(s1, k - n);
      assert k - n - m == k - (n + m);
    }
  }

  lemma SteadySame(s: Pages)
    ensures Steady(s, s, 0)
  {
    hide Hung;
    hide Holds;
  }

  /** A page without entries or flags at the end of the file. */
  predicate Blank(page: Page)
  {
    && page.entries == [] && !page.flags.root && !page.flags.splitIncomplete
    && (Node(page) ==> Tight(page))
  }

  lemma GrownAt(s: Pages, page: Page, k: nat, p: PageId)
    requires Blank(page) && 0 < p < |s| && HungAt(s, p, k)
    ensures HungAt(s + [page], p, k)
  {
    var s' := s + [page];
    assert s'[p] == s[p];
    ParentGrows(s, page, 1, p, s[p].level);
    MetaGrows(s, page, 1, p);
    if IsTwin(s, p) {
      var q :| 0 < q < |s| && TwinOf(s[q], p);
      assert s'[q] == s[q];
    }
  }

  lemma SteadyGrows(s: Pages, page: Page)
    requires Blank(page)
    ensures Steady(s, s + [page], 0)
  {
    var s' := s + [page];
    GrownKeeps(s, page);
    forall k: nat | Hung(s, k) ensures Hung(s', k) {
      hide Answers;
      hide HungAt;
      forall p: PageId, id: PageId | 0 < p < |s'| ensures WrittenAt(s', p, id) {
        GrownWritten(s, page, p, id);
      }
      forall p | 0 < p < |s'| ensures HungAt(s', p, k) {
        if p < |s| {
          GrownAt(s, page, k, p);
        } else {
          BlankHangs(s', p, k);
        }
      }
    }
  }

  lemma BlankHangs(s: Pages, p: PageId, k: nat)
    requires p < |s| && Blank(s[p])
    ensures HungAt(s, p, k)
  {}

  lemma GrownWritten(s: Pages, page: Page, p: PageId, id: PageId)
    requires Blank(page) && NamesWritten(s) && 0 < p <= |s|
    ensures WrittenAt(s + [page], p, id)
  {
    hide Answers;
    if p < |s| {
      assert WrittenAt(s, p, id);
    } else {
      EmptySilent(page, id);
    }
  }

  lemma EmptySilent(page: Page, id: PageId)
    requires page.entries == []
    ensures !Answers(page, id)
  {}

  lemma SteadyHooked(s: Pages, rec: Clr, lsn: Lsn, s': Pages)
    requires Hooked(s, rec, lsn, s') && Ordered(s) && Ordered(s')
    requires Inner(s[rec.left]) || s[rec.left].flags.splitIncomplete
    requires rec.newRoot != INVALID ==> MetaPage(s, rec.left) == Some(rec.meta)
    ensures Steady(s, s', if rec.newRoot != INVALID then 1 else 0)
  {
    var n := if rec.newRoot != INVALID then 1 else 0;
    assert |s'| == |s|;
    HookedKeeps(s, rec, lsn, s');
    forall k: nat | k >= n && Hung(s, k) && |s'| <= 65536 ensures Hung(s', k - n) {
      assert HungAt(s, rec.left, k) && (rec.newRoot != INVALID ==> s[rec.left].flags.root);
      hide Hooked;
      hide Hung;
      hide Ordered;
      HookedHangs(s, rec, lsn, s', k);
    }
  }

  // ---- Fresh splits ----

  lemma FreshTight(left: Page, right: Page, rec: Clr, lsn: Lsn, left': Page, right': Page)
    requires Accounted(left) && 1 <= rec.start < |left.entries| && !IsUnlink(rec) && left.level > 0
    requires right == InitRightPage(rec.left, left.next, left.level).(lsn := right.lsn) && !left.flags.leaf
    requires left.lsn < lsn && right.lsn < lsn && ClrHalves(left, right, rec, lsn) == Ok((left', right'))
    ensures SidesKept(left, right, left', right') && !left'.flags.root
  {
    FreshHalves(left, right, rec, lsn, left', right');
    hide TotalBytes;
    var es := left.entries;
    assert es[..rec.start] + es[rec.start..] == es + [];
  }

  lemma DownlinkTight(page: Page, rec: Clr, lsn: Lsn, page': Page)
    requires page.lsn < lsn && ClrDownlink(page, rec, lsn) == Ok(page')
    requires rec.newRoot == INVALID ==> Accounted(page) && page.level == rec.level + 1 && !page.flags.leaf
    ensures page'.level == rec.level + 1 && Node(page') && Entry(rec.separator, rec.right, 0) in page'.entries
    ensures if rec.newRoot != INVALID then Tight(page') && Entry([], rec.left, 0) in page'.entries
            else (Tight(page) ==> Tight(page')) && forall e :: e in page.entries ==> e in page'.entries
  {
    FreshDownlink(page, rec, lsn, page');
    var e := Entry(rec.separator, rec.right, 0);
    if rec.newRoot != INVALID {
      var root, a := InitPage(rec.level + 1, Flags(false, true, false)), Entry([], rec.left, 0);
      AppendAllExact(root, [a, e]);
      AppendAllRefills(root, [a, e]);
      assert page'.entries[0] == a && page'.entries[1] == e;
    } else {
      InsertedBytes(page.level, page.entries, rec.slot, e);
      InsertedElements(page.entries, rec.slot, e);
    }
  }

  lemma InsertedBytes(level: nat, es: seq<Entry>, slot: nat, e: Entry)
    requires slot <= |es|
    ensures TotalBytes(level, InsertAt(es, slot, e)) == TotalBytes(level, es) + EntryBytes(level, e)
  {
    var a, b := es[..slot], es[slot..];
    assert es == a + b && InsertAt(es, slot, e) == a + ([e] + b);
    TotalBytesConcat(level, a, b);
    TotalBytesConcat(level, a, [e] + b);
    TotalBytesConcat(level, [e], b);
    OneEntry(level, e);
  }

  lemma MetaAppends(page: Page, rec: Clr, lsn: Lsn, page': Page)
    requires page.lsn < lsn && ClrMeta(page, rec, lsn) == Ok(page') && page.level == 0
    ensures page'.entries == page.entries + [Entry([], rec.newRoot, rec.level + 1)]
    ensures FreeSpace(page') + 14 == FreeSpace(page)
  {
    var e := Entry([], rec.newRoot, rec.level + 1);
    assert InsertAt(page.entries, |page.entries|, e) == page.entries + [e];
  }

  /** What a fresh split needs to be hooked into its tree. */
  ghost predicate Hookable(s: Pages, rec: Clr)
  {
    && FreshSplit(s, rec) && !s[rec.left].flags.leaf && !s[rec.left].flags.splitIncomplete
    && (rec.newRoot != INVALID <==> s[rec.left].flags.root)
    && if rec.newRoot != INVALID then
         IsFresh(s[rec.newRoot]) && !s[rec.newRoot].flags.splitIncomplete && s[rec.meta].level == 0
         && Answers(s[rec.meta], rec.left)
       else Inner(s[rec.parent])
  }

  lemma FreshDownlinkHooked(s: Pages, rec: Clr, lsn: Lsn, s': Pages)
    requires Hookable(s, rec) && Sane(s, lsn) && Ordered(s) && ClrApplied(s, rec, lsn + 1, s')
    ensures DownlinkHooked(s, rec, s')
  {
    hide ClrHalves;
    hide ClrDownlink;
    hide ClrMeta;
    hide TotalBytes;
    hide LowerBound;
    hide Sorted;
    hide Answers;
    var d := DownlinkPage(rec);
    DownlinkTight(s[d], rec, lsn + 1, s'[d]);
  }

  lemma FreshMetaHooked(s: Pages, rec: Clr, lsn: Lsn, s': Pages)
    requires Hookable(s, rec) && Sane(s, lsn) && ClrApplied(s, rec, lsn + 1, s')
    ensures MetaHooked(s, rec, s')
  {
    hide ClrHalves;
    hide ClrDownlink;
    hide ClrMeta;
    hide Internal;
    hide RoomFor;
    hide Answers;
    if rec.newRoot != INVALID {
      MetaAppends(s[rec.meta], rec, lsn + 1, s'[rec.meta]);
    }
  }

  lemma FreshSides(s: Pages, rec: Clr, lsn: Lsn, s': Pages)
    requires Hookable(s, rec) && Sane(s, lsn) && ClrApplied(s, rec, lsn + 1, s')
    ensures 0 < rec.left && 0 < rec.right && ClrWithinFile(rec, |s|) && ClrDistinct(rec) && rec.level > 0
    ensures s[rec.right].level == s[rec.left].level == rec.level && !s[rec.right].flags.root
    ensures GoodGeometry(s[rec.left]) && GoodGeometry(s[rec.right]) && !s'[rec.left].flags.root
    ensures SidesKept(s[rec.left], s[rec.right], s'[rec.left], s'[rec.right])
  {
    hide ClrHalves;
    hide ClrDownlink;
    hide ClrMeta;
    hide LowerBound;
    hide Answers;
    hide TotalBytes;
    hide SidesKept;
    FreshTight(s[rec.left], s[rec.right], rec, lsn + 1, s'[rec.left], s'[rec.right]);
  }

  /** A fresh split of a page with downlinks. */
  lemma FreshHooked(s: Pages, rec: Clr, lsn: Lsn, s': Pages)
    requires Hookable(s, rec) && Sane(s, lsn) && Ordered(s) && ApplyClr(s, rec, lsn + 1) == Ok(s')
    ensures Hooked(s, rec, lsn + 1, s')
  {
    assert ClrWithinFile(rec, |s|) && ClrDistinct(rec) && (rec.newRoot != INVALID <==> s[rec.left].flags.root);
    assert !s[rec.left].flags.splitIncomplete;
    ClrMoves(s, rec, lsn, s');
    ClrByPage(s, rec, lsn + 1, s');
    FreshDownlinkHooked(s, rec, lsn, s');
    FreshMetaHooked(s, rec, lsn, s');
    FreshSides(s, rec, lsn, s');
    hide ApplyClr;
    hide ClrApplied;
    hide ClrMoved;
    hide Hookable;
    hide SidesKept;
    hide DownlinkHooked;
    hide MetaHooked;
  }
}

/** Runs whose every prefix is sound for the undo pass
    (crates/pg-am-btree/src/index.rs): what the code that writes the records
    checks above the leaves. */
module BtreeCareful {
  import opened Keys
  import opened Outcome
  import opened Sequences
  import opened BtreePages
  import opened BtreeLog
  import opened BtreeReplay
  import opened BtreeChain
  import opened BtreeContent
  import opened BtreeRuns
  import opened BtreeSearch
  import opened BtreeInner
  import opened BtreeClr
  import opened BtreeFresh
  import opened BtreeRound
  import opened BtreePending
  import opened BtreeReady

  /** A downlink at its searched slot on an internal page, to a page of the file
      that is not the right page of a pending split. */
  ghost predicate GoodLink(s: Pages, p: PageId, slot: nat, e: Entry)
  {
    && p < |s| && slot == LowerBound(s[p].entries, e) && e !in s[p].entries
    && |e.key| <= MAX_INDEX_KEY_BYTES && 0 < e.page < |s|
  }

  /** What is owed above the leaves: keys within the bound, downlinks where the
      search puts them, no page handed out that an internal page still names, a
      Commit only of a pending split and to its own right page. */
  ghost predicate Careful(s: Pages, chain: seq<PageId>, r: Record)
  {
    match r
    case Image(p, image) =>
      p < |s| ==> image == s[p].(lsn := image.lsn) || (Unclaimed(s, p) && image.entries == [] && Accounted(image))
    case Insert(p, slot, _, _, e) =>
      && (p in chain ==> |e.key| <= MAX_INDEX_KEY_BYTES)
      && (p < |s| && s[p].level > 0 ==>
            GoodLink(s, p, slot, e) && forall q: PageId :: Flagged(s, q) ==> s[q].next != e.page)
    case Delete(p, slot) => true
    case Prepare(l, right, _, _, _) =>
      !HasDownlink(s, right) && (l < |s| && l !in chain ==> s[l].level > 0 && !s[l].flags.leaf)
    case Copy(l, right, start, _) =>
      l !in chain && l < |s| && right < |s| ==>
        Flagged(s, l) && s[l].next == right && s[right].entries == [] && start < |s[l].entries|
    case Commit(l, right, parent, sep, slot) =>
      l < |s| && parent < |s| ==>
        && Flagged(s, l) && s[l].next == right && s[parent].level > 0 && GoodGeometry(s[parent])
        && GoodLink(s, parent, slot, Entry(sep, right, 0))
  }

  ghost predicate ClaimAt(s: Pages, chain: seq<PageId>, p: PageId)
    requires p < |s|
  {
    && Paired(s, p) && !s[s[p].next].flags.root && !HasDownlink(s, s[p].next)
    && if s[p].level == 0 then p in chain
       else !s[p].flags.leaf && !s[s[p].next].flags.leaf && GoodGeometry(s[p]) && GoodGeometry(s[s[p].next])
  }

  /** The state a careful run keeps. */
  ghost predicate RunSound(s: Pages, chain: seq<PageId>)
  {
    && SpineInv(s, chain) && Ordered(s) && WithinKeyBound(Contents(s, chain))
    && (forall p: PageId :: Flagged(s, p) ==> ClaimAt(s, chain, p))
    && (forall p: PageId, q: PageId :: Flagged(s, p) && Flagged(s, q) && p != q ==> s[p].next != s[q].next)
  }

  // ---- It is sound ----

  lemma LeafReady(s: Pages, chain: seq<PageId>, k: nat)
    requires SpineInv(s, chain) && WithinKeyBound(Contents(s, chain)) && k < |chain|
    ensures chain[k] < |s| && HalfReady(s[chain[k]])
  {
    assert NextAt(s, chain, k);
    ContentsAt(s, chain, k);
    hide Contents;
    hide Accounted;
    var a, leaf, es := Contents(s, chain[..k]), s[chain[k]].entries, Contents(s, chain);
    forall i | 0 <= i < |leaf| ensures es[|a| + i] == leaf[i] && |leaf[i].key| <= MAX_INDEX_KEY_BYTES {}
    forall i, j | 0 <= i < j < |leaf| ensures EntryLess(leaf[i], leaf[j]) {
      assert EntryLess(es[|a| + i], es[|a| + j]);
    }
  }

  lemma ClaimReady(s: Pages, chain: seq<PageId>, p: PageId)
    requires RunSound(s, chain) && Flagged(s, p)
    ensures PendingAt(s, p)
  {
    hide Contents;
    assert ClaimAt(s, chain, p);
    hide HasDownlink;
    if s[p].level == 0 {
      var k := IndexOf(chain, p);
      assert TwinAt(s, chain, k) && NextAt(s, chain, k);
      LeafReady(s, chain, k);
      LeafReady(s, chain, k + 1);
    } else {
      assert Internal(s[p], |s|) && Internal(s[s[p].next], |s|);
    }
  }

  lemma RunSoundIsSound(s: Pages, chain: seq<PageId>)
    requires RunSound(s, chain)
    ensures Sound(s)
  {
    hide ClaimAt;
    hide PendingAt;
    hide SpineInv;
    forall p: PageId | Flagged(s, p) ensures PendingAt(s, p) {
      ClaimReady(s, chain, p);
    }
  }

  // ---- Internal pages, record by record ----

  lemma RemovedInternal(page: Page, slot: nat, n: nat)
    requires Internal(page, n) && slot < |page.entries|
    ensures Internal(page.(entries := RemoveAt(page.entries, slot)), n)
  {
    RemoveKeepsAccounted(page, slot);
    var es := RemoveAt(page.entries, slot);
    forall i | 0 <= i < |es| ensures es[i] == page.entries[if i < slot then i else i + 1] {}
  }

  lemma LinkedInternal(page: Page, slot: nat, e: Entry, n: nat, page': Page)
    requires Internal(page, n) && slot == LowerBound(page.entries, e) && e !in page.entries
    requires |e.key| <= MAX_INDEX_KEY_BYTES && 0 < e.page < n && InsertEntryAt(page, slot, e) == Ok(page')
    ensures Internal(page', n)
  {
    InsertKeepsAccounted(page, slot, e);
    DownlinkInternal(page, page', n, e);
  }

  lemma StampedInternal(page: Page, page': Page, n: nat)
    requires Internal(page, n) && page'.entries == page.entries && page'.upper == page.upper && page'.level == page.level
    ensures Internal(page', n)
  {
    hide TotalBytes;
  }

  lemma CopiedInternal(left: Page, right: Page, start: nat, n: nat, l: Page, r: Page)
    requires Internal(left, n) && Accounted(right) && right.entries == [] && right.level == left.level
    requires start < |left.entries| && ApplySplitCopy(left, right, start, true) == Ok((l, r))
    ensures Internal(l, n) && Internal(r, n)
  {
    CopyResult(left, right, start);
    hide ApplySplitCopy;
    hide TotalBytes;
    assert l.entries == left.entries[0..start] && r.entries == left.entries[start..|left.entries|];
    HalvesInternal(left, l, n, n, 0, start);
    HalvesInternal(left, r, n, n, start, |left.entries|);
  }

  lemma OrderedAfter(s: Pages, chain: seq<PageId>, r: Record, lsn: Lsn, s': Pages, p: PageId)
    requires RunSound(s, chain) && Appended(s, r, lsn, s') && Disciplined(s, chain, r) && Careful(s, chain, r)
    requires p < |s'| && s'[p].level > 0 && GoodGeometry(s'[p])
    ensures Internal(s'[p], |s'|)
  {
    match r
    case Insert(q, slot, _, _, e) => OrderedInsert(s, chain, r, lsn, s', p);
    case Delete(q, slot) => OrderedDelete(s, chain, r, lsn, s', p);
    case Image(_, _) => OrderedImage(s, chain, r, lsn, s', p);
    case Prepare(_, _, _, _, _) => OrderedPrepare(s, chain, r, lsn, s', p);
    case Copy(_, _, _, _) => OrderedCopy(s, chain, r, lsn, s', p);
    case Commit(_, _, _, _, _) => OrderedCommit(s, chain, r, lsn, s', p);
  }

  lemma OrderedInsert(s: Pages, chain: seq<PageId>, r: Record, lsn: Lsn, s': Pages, p: PageId)
    requires r.Insert? && Ordered(s) && Appended(s, r, lsn, s') && Careful(s, chain, r)
    requires p < |s'| && s'[p].level > 0 && GoodGeometry(s'[p])
    ensures Internal(s'[p], |s'|)
  {
    hide Internal;
    if p == r.page {
      var page := InsertEntryAt(s[p], r.slot, r.entry).value;
      LinkedInternal(s[p], r.slot, r.entry, |s|, page);
      StampedInternal(page, s'[p], |s|);
    }
  }

  lemma OrderedDelete(s: Pages, chain: seq<PageId>, r: Record, lsn: Lsn, s': Pages, p: PageId)
    requires r.Delete? && Ordered(s) && Appended(s, r, lsn, s')
    requires p < |s'| && s'[p].level > 0 && GoodGeometry(s'[p])
    ensures Internal(s'[p], |s'|)
  {
    hide Internal;
    if p == r.page {
      RemovedInternal(s[p], r.slot, |s|);
      StampedInternal(s[p].(entries := RemoveAt(s[p].entries, r.slot)), s'[p], |s|);
    }
  }

  lemma OrderedImage(s: Pages, chain: seq<PageId>, r: Record, lsn: Lsn, s': Pages, p: PageId)
    requires r.Image? && Ordered(s) && Appended(s, r, lsn, s') && Careful(s, chain, r)
    requires p < |s'| && s'[p].level > 0 && GoodGeometry(s'[p])
    ensures Internal(s'[p], |s'|)
  {
    if p == r.page && r.image == s[p].(lsn := r.image.lsn) {
      StampedInternal(s[p], s'[p], |s|);
    }
  }

  lemma OrderedPrepare(s: Pages, chain: seq<PageId>, r: Record, lsn: Lsn, s': Pages, p: PageId)
    requires r.Prepare? && Ordered(s) && Appended(s, r, lsn, s')
    requires p < |s'| && s'[p].level > 0 && GoodGeometry(s'[p])
    ensures Internal(s'[p], |s'|)
  {
    if p == r.left {
      StampedInternal(s[p], s'[p], |s|);
    }
  }

  lemma OrderedCopy(s: Pages, chain: seq<PageId>, r: Record, lsn: Lsn, s': Pages, p: PageId)
    requires r.Copy? && RunSound(s, chain) && Appended(s, r, lsn, s') && Disciplined(s, chain, r) && Careful(s, chain, r)
    requires p < |s'| && s'[p].level > 0 && GoodGeometry(s'[p])
    ensures Internal(s'[p], |s'|)
  {
    hide Internal;
    hide Contents;
    hide HasDownlink;
    CopyRefills(s[r.left], s[r.right], r.start, true);
    if r.left in chain {
      var k := IndexOf(chain, r.left);
      assert NextAt(s, chain, k) && TwinAt(s, chain, k) && NextAt(s, chain, k + 1);
    } else if p == r.left || p == r.right {
      assert ClaimAt(s, chain, r.left);
      InternalTwins(s, chain, r.left);
      var out := ApplySplitCopy(s[r.left], s[r.right], r.start, true).value;
      CopiedInternal(s[r.left], s[r.right], r.start, |s|, out.0, out.1);
      hide ApplySplitCopy;
      StampedInternal(if p == r.left then out.0 else out.1, s'[p], |s|);
    }
  }

  lemma InternalTwins(s: Pages, chain: seq<PageId>, p: PageId)
    requires RunSound(s, chain) && Flagged(s, p) && s[p].level > 0
    ensures s[p].next < |s| && Internal(s[p], |s|) && Internal(s[s[p].next], |s|) && Accounted(s[s[p].next])
    ensures s[s[p].next].level == s[p].level
  {
    hide Contents;
    hide HasDownlink;
    assert ClaimAt(s, chain, p);
  }

  lemma OrderedCommit(s: Pages, chain: seq<PageId>, r: Record, lsn: Lsn, s': Pages, p: PageId)
    requires r.Commit? && Ordered(s) && Appended(s, r, lsn, s') && Careful(s, chain, r)
    requires p < |s'| && s'[p].level > 0 && GoodGeometry(s'[p])
    ensures Internal(s'[p], |s'|)
  {
    hide Internal;
    if p == r.parent {
      var e := Entry(r.separator, r.right, 0);
      var page := InsertEntryAt(s[p], r.slot, e).value;
      LinkedInternal(s[p], r.slot, e, |s|, page);
      StampedInternal(page, s'[p], |s|);
    } else if p == r.left {
      StampedInternal(s[p], s'[p], |s|);
    }
  }

  // ---- Links and claims ----

  /** The only new downlinks are those inserted. */
  lemma LinksAfter(s: Pages, chain: seq<PageId>, r: Record, lsn: Lsn, s': Pages, c: PageId)
    requires RunSound(s, chain) && Appended(s, r, lsn, s') && Disciplined(s, chain, r) && Careful(s, chain, r)
    requires HasDownlink(s', c)
    ensures WithinFile(r, |s|)
    ensures || HasDownlink(s, c)
            || (r.Insert? && s[r.page].level > 0 && c == r.entry.page)
            || (r.Commit? && c == r.right)
  {
    var p, i :| 0 <= p < |s'| && DownlinkAt(s'[p], i, c);
    assert WithinFile(r, |s|);
    hide Online;
    hide RunSound;
    hide Disciplined;
    hide Careful;
    hide HasDownlink;
    match r
    case Copy(_, _, _, _) => LinksCopied(s, chain, r, lsn, s', c, p, i);
    case Insert(_, _, _, _, _) => LinksInserted(s, r, lsn, s', c, p, i);
    case Delete(_, _) => LinksDeleted(s, r, lsn, s', c, p, i);
    case Commit(_, _, _, _, _) => LinksCommitted(s, r, lsn, s', c, p, i);
    case Image(_, _) => LinksSame(s, chain, r, lsn, s', c, p, i);
    case Prepare(_, _, _, _, _) => LinksSame(s, chain, r, lsn, s', c, p, i);
  }

  lemma LinksInserted(s: Pages, r: Record, lsn: Lsn, s': Pages, c: PageId, p: PageId, i: nat)
    requires r.Insert? && Appended(s, r, lsn, s') && p < |s'| && DownlinkAt(s'[p], i, c)
    ensures HasDownlink(s, c) || (s[r.page].level > 0 && c == r.entry.page)
  {
    var j := if p == r.page && i >= r.slot then i - 1 else i;
    assert DownlinkAt(s[p], j, c) || (p == r.page && c == r.entry.page);
  }

  lemma LinksDeleted(s: Pages, r: Record, lsn: Lsn, s': Pages, c: PageId, p: PageId, i: nat)
    requires r.Delete? && Appended(s, r, lsn, s') && p < |s'| && DownlinkAt(s'[p], i, c)
    ensures HasDownlink(s, c)
  {
    assert DownlinkAt(s[p], if p == r.page && i >= r.slot then i + 1 else i, c);
  }

  lemma LinksCommitted(s: Pages, r: Record, lsn: Lsn, s': Pages, c: PageId, p: PageId, i: nat)
    requires r.Commit? && Appended(s, r, lsn, s') && p < |s'| && DownlinkAt(s'[p], i, c)
    ensures HasDownlink(s, c) || c == r.right
  {
    var j := if p == r.parent && i >= r.slot then i - 1 else i;
    assert DownlinkAt(s[p], j, c) || (p == r.parent && c == r.right);
  }

  lemma LinksSame(s: Pages, chain: seq<PageId>, r: Record, lsn: Lsn, s': Pages, c: PageId, p: PageId, i: nat)
    requires (r.Image? || r.Prepare?) && Appended(s, r, lsn, s') && Careful(s, chain, r)
    requires p < |s'| && DownlinkAt(s'[p], i, c)
    ensures HasDownlink(s, c)
  {
    hide HasDownlink;
    assert s'[p].entries == s[p].entries && s'[p].level == s[p].level && GoodGeometry(s[p]);
    assert DownlinkAt(s[p], i, c);
    LinkHere(s, c, p, i);
  }

  lemma LinkHere(s: Pages, c: PageId, p: PageId, i: nat)
    requires p < |s| && DownlinkAt(s[p], i, c)
    ensures HasDownlink(s, c)
  {}

  lemma LeafCopy(s: Pages, chain: seq<PageId>, r: Record, lsn: Lsn, s': Pages)
    requires r.Copy? && SpineInv(s, chain) && Appended(s, r, lsn, s') && Disciplined(s, chain, r)
    ensures |s'| == |s| && r.left < |s| && r.right < |s|
    ensures r.left in chain ==> s'[r.left].level == 0 && s'[r.right].level == 0
  {
    hide Contents;
    CopyRefills(s[r.left], s[r.right], r.start, true);
    if r.left in chain {
      var k := IndexOf(chain, r.left);
      assert NextAt(s, chain, k) && TwinAt(s, chain, k) && NextAt(s, chain, k + 1);
    }
  }

  lemma LinksCopied(s: Pages, chain: seq<PageId>, r: Record, lsn: Lsn, s': Pages, c: PageId, p: PageId, i: nat)
    requires r.Copy? && RunSound(s, chain) && Appended(s, r, lsn, s') && Disciplined(s, chain, r) && Careful(s, chain, r)
    requires p < |s'| && DownlinkAt(s'[p], i, c)
    ensures HasDownlink(s, c)
  {
    hide HasDownlink;
    LeafCopy(s, chain, r, lsn, s');
    CopyRefills(s[r.left], s[r.right], r.start, true);
    if p != r.left && p != r.right {
      LinkHere(s, c, p, i);
    } else if r.left !in chain {
      InternalTwins(s, chain, r.left);
      CopyResult(s[r.left], s[r.right], r.start);
      hide ApplySplitCopy;
      hide Contents;
      LinkHere(s, c, r.left, if p == r.left then i else r.start + i);
    }
  }

  /** Kind and geometry of a page that is neither initialised by an image nor
      split onto. */
  lemma KindAfter(s: Pages, r: Record, lsn: Lsn, s': Pages, p: PageId)
    requires Appended(s, r, lsn, s') && p < |s|
    requires !(r.Prepare? && p == r.right) && (r.Image? && p == r.page ==> r.image == s[p].(lsn := r.image.lsn))
    ensures |s'| == |s| && s'[p].flags.leaf == s[p].flags.leaf && (s'[p].flags.root ==> s[p].flags.root)
    ensures GoodGeometry(s[p]) ==> GoodGeometry(s'[p])
  {
    if r.Copy? {
      CopyRefills(s[r.left], s[r.right], r.start, true);
      hide ApplySplitCopy;
    }
  }

  lemma ClaimedKind(s: Pages, chain: seq<PageId>, r: Record, lsn: Lsn, s': Pages, q: PageId, p: PageId)
    requires Appended(s, r, lsn, s') && Orderly(s, r) && Flagged(s, q) && p < |s| && (p == q || p == s[q].next)
    ensures |s'| == |s| && s'[p].flags.leaf == s[p].flags.leaf && (s'[p].flags.root ==> s[p].flags.root)
    ensures GoodGeometry(s[p]) ==> GoodGeometry(s'[p])
  {
    hide Online;
    KindAfter(s, r, lsn, s', p);
  }

  /** An old claim. */
  lemma ClaimStays(s: Pages, chain: seq<PageId>, r: Record, lsn: Lsn, s': Pages, p: PageId)
    requires OnlineReady(s, chain) && RunSound(s, chain) && Appended(s, r, lsn, s') && Disciplined(s, chain, r)
    requires Orderly(s, r) && Careful(s, chain, r) && Flagged(s, p) && Flagged(s', p) && Paired(s', p)
    requires s'[p].next == s[p].next && s'[p].level == s[p].level
    ensures ClaimAt(s', NextChain(chain, r), p)
  {
    hide Contents;
    hide SpineInv;
    assert ClaimAt(s, chain, p);
    ClaimedKind(s, chain, r, lsn, s', p, p);
    ClaimedKind(s, chain, r, lsn, s', p, s[p].next);
    if HasDownlink(s', s[p].next) {
      LinksAfter(s, chain, r, lsn, s', s[p].next);
      CommitClears(s, r, lsn, s');
    }
    ChainGrows(chain, r);
  }

  lemma CommitClears(s: Pages, r: Record, lsn: Lsn, s': Pages)
    requires Appended(s, r, lsn, s')
    ensures r.Commit? ==> r.left < |s'| && !s'[r.left].flags.splitIncomplete
  {}

  lemma ChainGrows(chain: seq<PageId>, r: Record)
    ensures forall p :: p in chain ==> p in NextChain(chain, r)
  {
    if r.Prepare? && r.left in chain {
      LinkedElements(chain, IndexOf(chain, r.left), r.right);
    }
  }

  /** A new claim. */
  lemma ClaimMade(s: Pages, chain: seq<PageId>, r: Record, lsn: Lsn, s': Pages)
    requires RunSound(s, chain) && Appended(s, r, lsn, s') && Disciplined(s, chain, r) && r.Prepare?
    requires Orderly(s, r) && Careful(s, chain, r) && Flagged(s', r.left) && Paired(s', r.left)
    ensures ClaimAt(s', NextChain(chain, r), r.left)
  {
    hide Contents;
    var l, right := r.left, r.right;
    assert s'[l].next == right && l != right && s'[l].level == s[l].level;
    assert s'[right] == Stamp(InitRightPage(l, r.oldNext, r.level), lsn);
    assert GoodGeometry(s[l]) && s'[l].flags == s[l].flags.(splitIncomplete := true);
    if HasDownlink(s', right) {
      LinksAfter(s, chain, r, lsn, s', right);
    }
    ChainGrows(chain, r);
    if l in chain {
      assert NextAt(s, chain, IndexOf(chain, l));
    }
  }

  lemma ClaimAfter(s: Pages, chain: seq<PageId>, r: Record, lsn: Lsn, s': Pages, p: PageId)
    requires OnlineReady(s, chain) && RunSound(s, chain) && Appended(s, r, lsn, s') && Disciplined(s, chain, r)
    requires Orderly(s, r) && Careful(s, chain, r) && Flagged(s', p)
    ensures ClaimAt(s', NextChain(chain, r), p)
    ensures if r.Prepare? && p == r.left then s'[p].next == r.right else Flagged(s, p) && s'[p].next == s[p].next
  {
    assert r.Prepare? ==> 0 < r.right;
    StepPaired(s, chain, r, lsn, s', p);
    PageAfter(s, r, lsn, s', p);
    hide Online;
    hide RunSound;
    hide OnlineReady;
    hide Disciplined;
    hide Careful;
    hide ClaimAt;
    hide Paired;
    if r.Prepare? && p == r.left {
      ClaimMade(s, chain, r, lsn, s');
    } else {
      SameLevel(s, r, p);
      ClaimStays(s, chain, r, lsn, s', p);
    }
  }

  lemma SameLevel(s: Pages, r: Record, p: PageId)
    requires Flagged(s, p) && Orderly(s, r)
    ensures !Unclaimed(s, p) && !(r.Prepare? && p == r.right)
  {}

  lemma DistinctAfter(s: Pages, chain: seq<PageId>, r: Record, lsn: Lsn, s': Pages, p: PageId, q: PageId)
    requires OnlineReady(s, chain) && RunSound(s, chain) && Appended(s, r, lsn, s') && Disciplined(s, chain, r)
    requires Orderly(s, r) && Careful(s, chain, r) && Flagged(s', p) && Flagged(s', q) && p != q
    ensures s'[p].next != s'[q].next
  {
    ClaimAfter(s, chain, r, lsn, s', p);
    ClaimAfter(s, chain, r, lsn, s', q);
    assert WithinFile(r, |s|);
    hide Online;
    hide Careful;
    hide Disciplined;
    hide ClaimAt;
    hide SpineInv;
    if r.Prepare? && p == r.left {
      PrepareClaims(s, r, q);
    } else if r.Prepare? && q == r.left {
      PrepareClaims(s, r, p);
    }
  }

  lemma BoundAfter(s: Pages, chain: seq<PageId>, r: Record, lsn: Lsn, s': Pages)
    requires SpineInv(s, chain) && WithinKeyBound(Contents(s, chain)) && Careful(s, chain, r)
    ensures WithinKeyBound(NextContents(s, chain, r))
  {
    hide Contents;
    hide SpineInv;
  }

  /** One record keeps a careful run sound. */
  lemma StepSound(s: Pages, chain: seq<PageId>, r: Record, lsn: Lsn, s': Pages)
    requires OnlineReady(s, chain) && RunSound(s, chain) && Appended(s, r, lsn, s') && Disciplined(s, chain, r)
    requires Orderly(s, r) && Careful(s, chain, r)
    ensures RunSound(s', NextChain(chain, r))
  {
    StepRefines(s, chain, r, lsn, s');
    BoundAfter(s, chain, r, lsn, s');
    hide Contents;
    hide NextContents;
    hide SpineInv;
    hide NextChain;
    hide Online;
    hide Appended;
    hide Disciplined;
    hide Careful;
    hide Orderly;
    hide OnlineReady;
    hide ClaimAt;
    hide Internal;
    forall p | 0 <= p < |s'| && s'[p].level > 0 && GoodGeometry(s'[p]) ensures Internal(s'[p], |s'|) {
      OrderedAfter(s, chain, r, lsn, s', p);
    }
    forall p: PageId | Flagged(s', p) ensures ClaimAt(s', NextChain(chain, r), p) {
      ClaimAfter(s, chain, r, lsn, s', p);
    }
    forall p: PageId, q: PageId | Flagged(s', p) && Flagged(s', q) && p != q ensures s'[p].next != s'[q].next {
      DistinctAfter(s, chain, r, lsn, s', p, q);
    }
  }

  ghost predicate CarefulRun(h: seq<Pages>, chain: seq<PageId>, log: seq<Record>)
    requires |h| == |log| + 1
  {
    forall i :: 0 <= i < |log| ==> CarefulAt(h, chain, log, i)
  }

  ghost predicate CarefulAt(h: seq<Pages>, chain: seq<PageId>, log: seq<Record>, i: nat)
    requires |h| == |log| + 1 && i < |log|
  {
    Careful(h[i], ChainAfter(chain, log, i), log[i])
  }

  /** After every prefix of a careful run the file is sound, so the undo pass
      succeeds exactly as its rounds can be finished. */
  lemma {:induction false} EveryPrefixSound(h: seq<Pages>, chain: seq<PageId>, log: seq<Record>, k: nat)
    requires IsHistory(h, log) && DisciplinedRun(h, chain, log) && OrderlyRun(h, log) && CarefulRun(h, chain, log)
    requires OnlineReady(h[0], chain) && RunSound(h[0], chain) && k <= |log|
    ensures RunSound(h[k], ChainAfter(chain, log, k)) && Sound(h[k])
  {
    hide RunSound;
    hide OnlineReady;
    if k == 0 {
    } else {
      EveryPrefixSound(h, chain, log, k - 1);
      EveryPrefixReady(h, chain, log, k - 1);
      assert HistoryStep(h, log, k - 1) && DisciplinedAt(h, chain, log, k - 1) && Orderly(h[k - 1], log[k - 1]);
      assert CarefulAt(h, chain, log, k - 1);
      hide Disciplined;
      hide Appended;
      hide Orderly;
      hide Careful;
      StepSound(h[k - 1], ChainAfter(chain, log, k - 1), log[k - 1], k, h[k]);
    }
    RunSoundIsSound(h[k], ChainAfter(chain, log, k));
  }
}

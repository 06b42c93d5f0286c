/** Splits that the undo pass makes itself (crates/pg-am-btree/src/index.rs,
    `split_page_in_undo`): a whole split in one compensation record. */
module BtreeFresh {
  import opened Keys
  import opened Outcome
  import opened Sequences
  import opened BtreePages
  import opened BtreeLog
  import opened BtreeContent
  import opened BtreeSearch
  import opened BtreeFinish
  import opened BtreeInner
  import opened BtreeScan
  import opened BtreeClr

  // ---- What a cascade may change ----

  /** No page changes its level or kind, is flagged or unflagged, or becomes a
      root; a flagged page keeps its twin; a leaf is not touched at all. */
  ghost predicate FrameAt(page: Page, page': Page)
  {
    && page'.level == page.level && page'.flags.leaf == page.flags.leaf
    && page'.flags.splitIncomplete == page.flags.splitIncomplete && (page'.flags.root ==> page.flags.root)
    && (page.flags.splitIncomplete ==> page'.next == page.next)
    && (GoodGeometry(page) ==> GoodGeometry(page')) && (page.flags.leaf ==> page' == page)
  }

  ghost predicate Framed(s: Pages, s': Pages)
  {
    && |s| <= |s'|
    && (forall p :: 0 <= p < |s| ==> FrameAt(s[p], s'[p]))
    && (forall p :: |s| <= p < |s'| ==> !s'[p].flags.splitIncomplete && !s'[p].flags.leaf)
  }

  lemma FramedGrows(s: Pages, page: Page)
    requires !page.flags.splitIncomplete && !page.flags.leaf
    ensures Framed(s, s) && Framed(s, s + [page])
  {}

  lemma FramedTransitive(s: Pages, s1: Pages, s2: Pages)
    requires Framed(s, s1) && Framed(s1, s2)
    ensures Framed(s, s2)
  {
    forall p | 0 <= p < |s| ensures FrameAt(s[p], s2[p]) {
      assert FrameAt(s[p], s1[p]) && FrameAt(s1[p], s2[p]);
    }
    forall p | |s| <= p < |s2| ensures !s2[p].flags.splitIncomplete && !s2[p].flags.leaf {
      if p < |s1| {
        assert FrameAt(s1[p], s2[p]);
      }
    }
  }

  /** A record that splits an unflagged page above the leaves onto a new page. */
  ghost predicate SplitsInner(s0: Pages, s: Pages, rec: Clr)
  {
    && ClrWithinFile(rec, |s|) && ClrDistinct(rec) && rec.left != INVALID
    && !s[rec.left].flags.leaf && !s[rec.left].flags.splitIncomplete
    && |s0| <= rec.right && !s[rec.right].flags.leaf && !s[rec.right].flags.splitIncomplete
    && (rec.newRoot != INVALID ==> |s0| <= rec.newRoot && rec.level < MAX_LEVEL)
    && (rec.newRoot == INVALID && rec.parent != INVALID ==> !s[rec.parent].flags.leaf)
    && (rec.meta != INVALID ==> !s[rec.meta].flags.leaf)
  }

  lemma InnerFramedAt(s0: Pages, s: Pages, rec: Clr, lsn: Lsn, s': Pages, p: PageId)
    requires Framed(s0, s) && SplitsInner(s0, s, rec) && ClrMoved(s, rec, lsn, s') && p < |s|
    ensures if p < |s0| then FrameAt(s0[p], s'[p]) else !s'[p].flags.splitIncomplete && !s'[p].flags.leaf
    ensures s'[p] == s[p] || s'[p].lsn == lsn
    ensures s'[p].level == s[p].level || s'[p].level <= MAX_LEVEL
  {
    hide GoodGeometry;
    assert p < |s0| ==> FrameAt(s0[p], s[p]);
  }

  lemma InnerFramed(s0: Pages, s: Pages, rec: Clr, lsn: Lsn, s': Pages)
    requires Sane(s, lsn) && Framed(s0, s) && SplitsInner(s0, s, rec) && ApplyClr(s, rec, lsn + 1) == Ok(s')
    ensures Framed(s0, s') && Sane(s', lsn + 1)
  {
    ClrMoves(s, rec, lsn, s');
    hide ApplyClr;
    hide ClrMoved;
    hide SplitsInner;
    hide FrameAt;
    forall p | 0 <= p < |s'|
      ensures if p < |s0| then FrameAt(s0[p], s'[p]) else !s'[p].flags.splitIncomplete && !s'[p].flags.leaf
      ensures s'[p].lsn <= lsn + 1 && s'[p].level <= MAX_LEVEL
    {
      InnerFramedAt(s0, s, rec, lsn + 1, s', p);
    }
  }

  // ---- Sound files ----

  /** Every page above level 0 that passes the geometry check is an internal
      page. */
  ghost predicate Ordered(s: Pages)
  {
    forall p :: 0 <= p < |s| && s[p].level > 0 && GoodGeometry(s[p]) ==> Internal(s[p], |s|)
  }

  /** A meta page: level 0, no flags. */
  predicate MetaShaped(page: Page)
  {
    page.level == 0 && !page.flags.leaf
  }

  /** Some internal page has a downlink to `c`. */
  ghost predicate HasDownlink(s: Pages, c: PageId)
  {
    exists p, i :: 0 <= p < |s| && DownlinkAt(s[p], i, c)
  }

  predicate DownlinkAt(page: Page, i: int, c: PageId)
  {
    page.level > 0 && GoodGeometry(page) && 0 <= i < |page.entries| && page.entries[i].page == c
  }

  /** The change stayed at or above `level` (and the meta page), and linked only
      new pages and former roots. */
  ghost predicate Above(s: Pages, s': Pages, level: nat)
  {
    && |s| <= |s'|
    && (forall p :: 0 <= p < |s| && s[p].level < level && !MetaShaped(s[p]) ==> s'[p] == s[p])
    && (forall c :: 0 <= c < |s| && HasDownlink(s', c) ==> HasDownlink(s, c) || s[c].flags.root)
  }

  lemma GrownLinks(s0: Pages, right: Page, c: PageId)
    requires right.entries == []
    ensures HasDownlink(s0 + [right], c) ==> HasDownlink(s0, c)
  {
    var s1 := s0 + [right];
    if HasDownlink(s1, c) {
      var p, i :| 0 <= p < |s1| && DownlinkAt(s1[p], i, c);
      assert DownlinkAt(s0[p], i, c);
    }
  }

  lemma AboveGrows(s: Pages, page: Page, level: nat)
    requires page.entries == []
    ensures Above(s, s, level) && Above(s, s + [page], level)
  {
    forall c | 0 <= c < |s| && HasDownlink(s + [page], c) ensures HasDownlink(s, c) {
      GrownLinks(s, page, c);
    }
  }

  /** Growing the file by an empty page, to which no downlink can point. */
  lemma OrderedGrows(s: Pages, page: Page)
    requires Ordered(s) && page.entries == [] && page.upper <= PD_SPECIAL
    ensures Ordered(s + [page]) && !HasDownlink(s + [page], |s|)
  {
    var s' := s + [page];
    forall p | 0 <= p < |s'| && s'[p].level > 0 && GoodGeometry(s'[p]) ensures Internal(s'[p], |s'|) {
      assert p < |s| ==> s'[p] == s[p];
    }
    GrownLinks(s, page, |s|);
  }

  lemma Unlinked(s: Pages, p: PageId, downlink: Entry)
    requires p < |s| && s[p].level > 0 && GoodGeometry(s[p]) && !HasDownlink(s, downlink.page)
    ensures downlink !in s[p].entries
  {
    if downlink in s[p].entries {
      var i :| 0 <= i < |s[p].entries| && s[p].entries[i] == downlink;
      assert DownlinkAt(s[p], i, downlink.page);
    }
  }

  // ---- A fresh split ----

  ghost predicate HasRoom(s: Pages, p: PageId, level: nat, e: Entry)
  {
    && 0 < p < |s| && s[p].level == level && GoodGeometry(s[p])
    && FreeSpace(s[p]) >= EntryCost(level, e) && e !in s[p].entries
  }

  /** The downlink has room on `target`, at the one slot that keeps the page
      sorted. */
  ghost predicate RoomFor(s: Pages, target: PageId, slot: nat, level: nat, downlink: Entry)
  {
    HasRoom(s, target, level, downlink) && slot == LowerBound(s[target].entries, downlink)
  }

  /** `rec` describes a split of `left` that no Prepare announced: `right` was
      just initialised, and the downlink goes to a new root, published in a
      meta page with room, or to a parent that has room for it. */
  ghost predicate FreshSplit(s: Pages, rec: Clr)
  {
    && ClrWithinFile(rec, |s|) && ClrDistinct(rec) && 0 < rec.left < rec.right
    && 0 < rec.level < MAX_LEVEL && s[rec.left].level == rec.level && Internal(s[rec.left], rec.right)
    && s[rec.right] == InitRightPage(rec.left, s[rec.left].next, rec.level).(lsn := s[rec.right].lsn)
    && 1 <= rec.start < |s[rec.left].entries| && rec.separator == s[rec.left].entries[rec.start].key
    && (rec.newRoot == INVALID <==> rec.meta == INVALID)
    && (rec.meta != INVALID ==> MetaShaped(s[rec.meta]) && GoodGeometry(s[rec.meta]) && FreeSpace(s[rec.meta]) >= 14)
    && if rec.newRoot != INVALID then rec.newRoot > rec.right && s[rec.left].flags.root
       else RoomFor(s, rec.parent, rec.slot, rec.level + 1, Entry(rec.separator, rec.right, 0))
  }

  lemma FreshHalvesApply(left: Page, right: Page, rec: Clr, lsn: Lsn)
    requires Accounted(left) && 1 <= rec.start < |left.entries| && !IsUnlink(rec)
    requires right == InitRightPage(rec.left, left.next, left.level).(lsn := right.lsn)
    requires left.lsn < lsn && right.lsn < lsn
    ensures ClrHalves(left, right, rec, lsn).Ok?
  {
    var es := left.entries;
    RebuildExact(left, rec.start);
    LeftCostSplit(left.level, es, rec.start);
    AppendAllExact(right, es[rec.start..]);
    RebuiltTwice(left, rec.start);
  }

  lemma RootApplies(page: Page, rec: Clr, lsn: Lsn)
    requires |rec.separator| <= MAX_INDEX_KEY_BYTES
    ensures ClrNewRoot(page, rec, lsn).Ok?
  {
    var root := InitPage(rec.level + 1, Flags(false, true, false));
    var a, b := Entry([], rec.left, 0), Entry(rec.separator, rec.right, 0);
    AppendAllExact(root, [a, b]);
    OneEntry(rec.level + 1, a);
    OneEntry(rec.level + 1, b);
    TotalBytesConcat(rec.level + 1, [a], [b]);
    assert [a, b] == [a] + [b];
  }

  /** Such a record is never refused. */
  lemma FreshApplies(s: Pages, rec: Clr, lsn: Lsn)
    requires Sane(s, lsn) && FreshSplit(s, rec)
    ensures ApplyClr(s, rec, lsn + 1).Ok?
  {
    hide TotalBytes;
    hide LowerBound;
    FreshHalvesApply(s[rec.left], s[rec.right], rec, lsn + 1);
    hide ClrHalves;
    RootApplies(s[rec.newRoot], rec, lsn + 1);
    hide ClrNewRoot;
  }

  /** What such a record leaves behind, page by page. */
  ghost predicate SplitDone(s: Pages, rec: Clr, lsn: Lsn, s': Pages)
    requires FreshSplit(s, rec)
  {
    && |s'| == |s|
    && HalfOf(s[rec.left], s'[rec.left], s[rec.left].entries[..rec.start])
    && HalfOf(s[rec.right], s'[rec.right], s[rec.left].entries[rec.start..])
    && (var d := DownlinkPage(rec);
        && s'[d].level == rec.level + 1 && Accounted(s'[d])
        && if rec.newRoot != INVALID then
             s'[d].entries == [Entry([], rec.left, 0), Entry(rec.separator, rec.right, 0)]
           else
             s'[d].entries == InsertAt(s[d].entries, rec.slot, Entry(rec.separator, rec.right, 0)))
    && (rec.meta != INVALID ==> MetaShaped(s'[rec.meta]))
    && forall p :: 0 <= p < |s| && p !in ClrPages(rec) ==> s'[p] == s[p]
  }

  ghost predicate HalfOf(page: Page, page': Page, es: seq<Entry>)
  {
    && page'.level == page.level && page'.entries == es && Accounted(page')
    && page'.upper == PD_SPECIAL - TotalBytes(page.level, es)
  }

  lemma FreshHalves(left: Page, right: Page, rec: Clr, lsn: Lsn, left': Page, right': Page)
    requires Accounted(left) && 1 <= rec.start < |left.entries| && !IsUnlink(rec)
    requires right == InitRightPage(rec.left, left.next, left.level).(lsn := right.lsn)
    requires left.lsn < lsn && right.lsn < lsn && ClrHalves(left, right, rec, lsn) == Ok((left', right'))
    ensures HalfOf(left, left', left.entries[..rec.start])
    ensures HalfOf(right, right', left.entries[rec.start..])
  {
    var es := left.entries;
    RebuildExact(left, rec.start);
    AppendAllExact(right, es[rec.start..]);
    assert [] + es[rec.start..] == es[rec.start..];
    RebuiltTwice(left, rec.start);
  }

  lemma FreshDownlink(page: Page, rec: Clr, lsn: Lsn, page': Page)
    requires page.lsn < lsn && ClrDownlink(page, rec, lsn) == Ok(page')
    requires rec.newRoot == INVALID ==> Accounted(page) && page.level == rec.level + 1
    ensures page'.level == rec.level + 1 && Accounted(page')
    ensures if rec.newRoot != INVALID then
              page'.entries == [Entry([], rec.left, 0), Entry(rec.separator, rec.right, 0)]
            else
              && rec.slot <= |page.entries|
              && page'.entries == InsertAt(page.entries, rec.slot, Entry(rec.separator, rec.right, 0))
  {
    if rec.newRoot != INVALID {
      var root := InitPage(rec.level + 1, Flags(false, true, false));
      var seeds := [Entry([], rec.left, 0), Entry(rec.separator, rec.right, 0)];
      AppendAllExact(root, seeds);
      assert root.entries + seeds == seeds;
    } else {
      InsertKeepsAccounted(page, rec.slot, Entry(rec.separator, rec.right, 0));
    }
  }

  lemma SplitResult(s: Pages, rec: Clr, lsn: Lsn, s': Pages)
    requires FreshSplit(s, rec) && Sane(s, lsn) && Ordered(s) && ApplyClr(s, rec, lsn + 1) == Ok(s')
    ensures SplitDone(s, rec, lsn + 1, s')
  {
    hide ClrHalves;
    hide ClrDownlink;
    hide ApplyClr;
    hide TotalBytes;
    ClrByPage(s, rec, lsn + 1, s');
    var d := DownlinkPage(rec);
    FreshHalves(s[rec.left], s[rec.right], rec, lsn + 1, s'[rec.left], s'[rec.right]);
    FreshDownlink(s[d], rec, lsn + 1, s'[d]);
  }

  lemma SplitOrdered(s: Pages, rec: Clr, lsn: Lsn, s': Pages)
    requires FreshSplit(s, rec) && Ordered(s) && SplitDone(s, rec, lsn, s')
    ensures Ordered(s')
  {
    hide Internal;
    hide Accounted;
    forall p | 0 <= p < |s'| && s'[p].level > 0 && GoodGeometry(s'[p]) ensures Internal(s'[p], |s'|) {
      if p == rec.left || p == rec.right {
        SplitHalvesInternal(s, rec, lsn, s');
      } else if p == DownlinkPage(rec) {
        SplitDownlinkInternal(s, rec, lsn, s');
      }
    }
  }

  lemma SplitHalvesInternal(s: Pages, rec: Clr, lsn: Lsn, s': Pages)
    requires FreshSplit(s, rec) && SplitDone(s, rec, lsn, s')
    ensures Internal(s'[rec.left], |s|) && Internal(s'[rec.right], |s|)
  {
    hide Internal;
    hide TotalBytes;
    var left := s[rec.left];
    assert left.entries[..rec.start] == left.entries[0..rec.start];
    assert left.entries[rec.start..] == left.entries[rec.start..|left.entries|];
    HalvesInternal(left, s'[rec.left], rec.right, |s|, 0, rec.start);
    HalvesInternal(left, s'[rec.right], rec.right, |s|, rec.start, |left.entries|);
  }

  lemma SplitDownlinkInternal(s: Pages, rec: Clr, lsn: Lsn, s': Pages)
    requires FreshSplit(s, rec) && Ordered(s) && SplitDone(s, rec, lsn, s')
    ensures Internal(s'[DownlinkPage(rec)], |s|)
  {
    hide TotalBytes;
    var d := DownlinkPage(rec);
    if rec.newRoot == INVALID {
      DownlinkInternal(s[d], s'[d], |s|, Entry(rec.separator, rec.right, 0));
    } else {
      RootPairSorted(rec.left, rec.separator, rec.right);
    }
  }

  /** Seen from before the right page was allocated, the split stayed at or
      above its own level. */
  lemma SplitAbove(s0: Pages, right: Page, s: Pages, rec: Clr, lsn: Lsn, s': Pages)
    requires FreshSplit(s, rec) && SplitDone(s, rec, lsn, s') && rec.right == |s0|
    requires right.entries == [] && Framed(s0 + [right], s) && Above(s0 + [right], s, rec.level + 1)
    ensures Above(s0, s', rec.level)
  {
    var s1 := s0 + [right];
    forall p | 0 <= p < |s0| && s0[p].level < rec.level && !MetaShaped(s0[p]) ensures s'[p] == s0[p] {
      SplitStill(s0, right, s, rec, lsn, s', p);
    }
    forall c | 0 <= c < |s0| && HasDownlink(s', c) ensures HasDownlink(s0, c) || s0[c].flags.root {
      SplitAboveLinks(s0, right, s, rec, lsn, s', c);
    }
  }

  lemma SplitStill(s0: Pages, right: Page, s: Pages, rec: Clr, lsn: Lsn, s': Pages, p: PageId)
    requires FreshSplit(s, rec) && SplitDone(s, rec, lsn, s') && rec.right == |s0| && p < |s0|
    requires Framed(s0 + [right], s) && Above(s0 + [right], s, rec.level + 1)
    requires s0[p].level < rec.level && !MetaShaped(s0[p])
    ensures s'[p] == s0[p]
  {
    hide Internal;
    hide Accounted;
    hide TotalBytes;
    hide LowerBound;
    hide HasDownlink;
    var s1 := s0 + [right];
    assert s1[p] == s0[p] && FrameAt(s1[p], s[p]);
    assert s1[rec.left] == s0[rec.left] && FrameAt(s1[rec.left], s[rec.left]);
  }

  lemma SplitAboveLinks(s0: Pages, right: Page, s: Pages, rec: Clr, lsn: Lsn, s': Pages, c: PageId)
    requires FreshSplit(s, rec) && SplitDone(s, rec, lsn, s') && rec.right == |s0|
    requires right.entries == [] && Framed(s0 + [right], s) && Above(s0 + [right], s, rec.level + 1)
    requires c < |s0| && HasDownlink(s', c)
    ensures HasDownlink(s0, c) || s0[c].flags.root
  {
    SplitLinks(s, rec, lsn, s', c);
    hide Internal;
    hide SplitDone;
    hide HasDownlink;
    hide RoomFor;
    var s1 := s0 + [right];
    assert s1[c] == s0[c] && FrameAt(s1[c], s[c]);
    if HasDownlink(s, c) {
      GrownLinks(s0, right, c);
    }
  }

  /** The only new downlinks are to the right page and, under a new root, to
      the left one. */
  lemma SplitLinks(s: Pages, rec: Clr, lsn: Lsn, s': Pages, c: PageId)
    requires FreshSplit(s, rec) && SplitDone(s, rec, lsn, s') && HasDownlink(s', c)
    ensures HasDownlink(s, c) || c == rec.right || (c == rec.left && s[rec.left].flags.root)
  {
    hide TotalBytes;
    hide LowerBound;
    hide Sorted;
    hide WithinKeyBound;
    var p, i :| 0 <= p < |s'| && DownlinkAt(s'[p], i, c);
    if p == rec.left {
      assert DownlinkAt(s[rec.left], i, c);
    } else if p == rec.right {
      assert DownlinkAt(s[rec.left], rec.start + i, c);
    } else if p == rec.parent && rec.newRoot == INVALID && c != rec.right {
      assert DownlinkAt(s[p], if i < rec.slot then i else i - 1, c);
    } else if p != DownlinkPage(rec) {
      assert DownlinkAt(s[p], i, c);
    }
  }

  /** The half the pending downlink is compared into has room for it. */
  lemma SplitRoom(s: Pages, rec: Clr, lsn: Lsn, s': Pages, pending: Entry)
    requires FreshSplit(s, rec) && SplitDone(s, rec, lsn, s')
    requires pending !in s[rec.left].entries && ValidSplit(rec.level, s[rec.left].entries, pending, rec.start)
    ensures HasRoom(s', if EntryLess(pending, s[rec.left].entries[rec.start]) then rec.left else rec.right,
                    rec.level, pending)
  {
    hide TotalBytes;
    hide RoomFor;
    var es := s[rec.left].entries;
    LeftCostSplit(rec.level, es, rec.start);
    LowerBoundSplits(es, pending);
    EntryTrichotomy(es[rec.start], pending);
  }

  lemma SplitEffect(s0: Pages, right: Page, s: Pages, rec: Clr, lsn: Lsn, s': Pages, pending: Entry)
    requires FreshSplit(s, rec) && Sane(s, lsn) && Ordered(s) && ApplyClr(s, rec, lsn + 1) == Ok(s')
    requires rec.right == |s0| && Framed(s0 + [right], s) && Above(s0 + [right], s, rec.level + 1)
    requires right.entries == []
    requires pending !in s[rec.left].entries && ValidSplit(rec.level, s[rec.left].entries, pending, rec.start)
    ensures Ordered(s') && Above(s0, s', rec.level)
    ensures HasRoom(s', if EntryLess(pending, s[rec.left].entries[rec.start]) then rec.left else rec.right,
                    rec.level, pending)
  {
    SplitResult(s, rec, lsn, s');
    hide ApplyClr;
    hide SplitDone;
    hide FreshSplit;
    SplitOrdered(s, rec, lsn + 1, s');
    SplitAbove(s0, right, s, rec, lsn + 1, s');
    SplitRoom(s, rec, lsn + 1, s', pending);
  }
}

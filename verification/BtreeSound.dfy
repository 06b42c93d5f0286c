/** A sound file stays sound when the undo pass finishes a split
    (crates/pg-am-btree/src/index.rs, `finish_incomplete_split`). */
module BtreeSound {
  import opened Keys
  import opened Outcome
  import opened Sequences
  import opened BtreePages
  import opened BtreeLog
  import opened BtreeContent
  import opened BtreeSearch
  import opened BtreeFinish
  import opened BtreeInner
  import opened BtreeScan
  import opened BtreeClr
  import opened BtreeFresh
  import opened BtreeRooted
  import opened BtreeCascade
  import opened BtreeRound
  import opened BtreePending

  /** The record puts its downlink where it belongs: on a parent with room at the
      sorted slot, or on a new root in order that is published in a meta page.
      The cascade above it lost no downlink. */
  ghost predicate WellPlaced(s: Pages, s1: Pages, rec: Clr, plan: Plan)
    requires rec.left < |s| && ClrWithinFile(rec, |s1|)
  {
    !plan.Unlink? ==>
      && Ordered(s1) && Above(s, s1, rec.level + 1) && |s1| <= |s| + MAX_LEVEL + 1
      && Steady(s, s1, if s[rec.left].flags.root then 0 else 1)
      && (rec.meta != INVALID ==> MetaShaped(s1[rec.meta]))
      && if rec.newRoot != INVALID then
           && s[rec.left].flags.root && (rec.separator != [] || rec.left < rec.right)
           && IsFresh(s1[rec.newRoot]) && Blank(s1[rec.newRoot]) && MetaPage(s, rec.left) == Some(rec.meta)
         else
           && RoomFor(s1, rec.parent, rec.slot, rec.level + 1, Entry(rec.separator, rec.right, 0))
           && Inner(s1[rec.parent]) && rec.meta == INVALID
  }

  ghost predicate Finished(s: Pages, left: PageId, s1: Pages, rec: Clr, plan: Plan, lsn: Lsn, s': Pages)
  {
    FinishedBy(s, left, s1, rec, plan, lsn, s') && Sound(s) && WellPlaced(s, s1, rec, plan)
  }

  // ---- The two halves ----

  ghost predicate HalvesDone(left: Page, right: Page, left': Page, right': Page)
  {
    && left'.level == left.level && right'.level == right.level && Accounted(left') && Accounted(right')
    && left'.flags.leaf == left.flags.leaf && right'.flags == right.flags
    && left'.entries <= left.entries
    && (right'.entries == right.entries
        || (right.entries == [] && left'.entries + right'.entries == left.entries))
  }

  lemma HalvesShape(left: Page, right: Page, rec: Clr, lsn: Lsn, left': Page, right': Page)
    requires left.lsn < lsn && right.lsn < lsn && ClrHalves(left, right, rec, lsn) == Ok((left', right'))
    requires Accounted(left) && Accounted(right) && right.level == left.level
    requires !IsUnlink(rec) && right.entries == [] ==> rec.start < |left.entries|
    ensures HalvesDone(left, right, left', right')
  {
    hide TotalBytes;
    if IsUnlink(rec) {
    } else if right.entries == [] {
      hide ClrHalves;
      MoveHalves(left, right, rec, lsn, left', right');
      assert left'.entries + right'.entries == left.entries;
    } else if left.entries != [] {
      RebuildExact(left, SearchSlot(left.entries, right.entries[0]));
      RebuiltTwice(left, SearchSlot(left.entries, right.entries[0]));
    }
  }

  lemma HalvesReady(left: Page, right: Page, left': Page, right': Page)
    requires HalfReady(left) && HalfReady(right) && right.level == left.level && HalvesDone(left, right, left', right')
    ensures HalfReady(left') && HalfReady(right')
  {
    hide Accounted;
    var n := |left'.entries|;
    assert left'.entries == left.entries[..n];
    if right'.entries != right.entries {
      assert right'.entries == left.entries[n..];
    }
  }

  /** The pages after a finish, one by one. */
  ghost predicate FinishDone(s1: Pages, rec: Clr, plan: Plan, s': Pages)
    requires ClrWithinFile(rec, |s1|)
  {
    && |s'| == |s1| && HalvesDone(s1[rec.left], s1[rec.right], s'[rec.left], s'[rec.right])
    && (!plan.Unlink? ==> DownlinkDone(s1, rec, s'))
    && (rec.meta != INVALID ==> MetaShaped(s'[rec.meta]))
    && forall p :: 0 <= p < |s1| && p !in ClrPages(rec) ==> s'[p] == s1[p]
  }

  ghost predicate DownlinkDone(s1: Pages, rec: Clr, s': Pages)
    requires ClrWithinFile(rec, |s1|) && |s'| == |s1|
  {
    var d := DownlinkPage(rec);
    && d != INVALID && s'[d].level == rec.level + 1 && Accounted(s'[d])
    && if rec.newRoot != INVALID then
         s'[d].entries == [Entry([], rec.left, 0), Entry(rec.separator, rec.right, 0)]
       else
         && rec.slot <= |s1[d].entries|
         && s'[d].entries == InsertAt(s1[d].entries, rec.slot, Entry(rec.separator, rec.right, 0))
  }

  lemma TwinsHere(s: Pages, left: PageId, s1: Pages, rec: Clr, plan: Plan, lsn: Lsn, s': Pages)
    requires Finished(s, left, s1, rec, plan, lsn, s')
    ensures left == rec.left && rec.left < |s| && rec.right < |s| <= |s1| && s[rec.left].next == rec.right
    ensures s1[rec.left] == s[rec.left] && s1[rec.right] == s[rec.right]
    ensures HalfReady(s[rec.left]) && HalfReady(s[rec.right]) && s[rec.right].level == s[rec.left].level == rec.level
    ensures !s[rec.right].flags.root && !HasDownlink(s, rec.right)
    ensures |rec.separator| <= MAX_INDEX_KEY_BYTES
    ensures !plan.Unlink? && s[rec.right].entries == [] ==> rec.start < |s[rec.left].entries|
  {
    hide ApplyClr;
    hide HasDownlink;
    hide Ordered;
    assert PendingAt(s, left);
    SeparatorBound(s[left], s[rec.right], rec.start);
    if !plan.Unlink? {
      TwinsUnmoved(s, left, s1);
    }
  }

  lemma FinishResult(s: Pages, left: PageId, s1: Pages, rec: Clr, plan: Plan, lsn: Lsn, s': Pages)
    requires Finished(s, left, s1, rec, plan, lsn, s')
    ensures FinishDone(s1, rec, plan, s')
  {
    TwinsHere(s, left, s1, rec, plan, lsn, s');
    ClrMoves(s1, rec, lsn, s');
    ClrByPage(s1, rec, lsn + 1, s');
    hide ApplyClr;
    hide ClrHalves;
    hide ClrDownlink;
    hide TotalBytes;
    hide Sorted;
    hide LowerBound;
    hide HasDownlink;
    hide Pending;
    hide ChoosePlan;
    HalvesShape(s1[rec.left], s1[rec.right], rec, lsn + 1, s'[rec.left], s'[rec.right]);
    if !plan.Unlink? {
      var d := DownlinkPage(rec);
      FreshDownlink(s1[d], rec, lsn + 1, s'[d]);
    }
  }

  // ---- Internal pages ----

  lemma FinishHalvesInternal(s: Pages, left: PageId, s1: Pages, rec: Clr, plan: Plan, lsn: Lsn, s': Pages)
    requires Finished(s, left, s1, rec, plan, lsn, s') && FinishDone(s1, rec, plan, s') && rec.level > 0
    ensures |s| <= |s1| && Internal(s'[rec.left], |s1|) && Internal(s'[rec.right], |s1|)
  {
    TwinsHere(s, left, s1, rec, plan, lsn, s');
    hide Finished;
    hide HasDownlink;
    hide TotalBytes;
    var l, r := s1[rec.left], s1[rec.right];
    assert Internal(l, |s|) && Internal(r, |s|) by {
      OrderedPages(s, left, s1, rec, plan, lsn, s');
    }
    var n := |s'[rec.left].entries|;
    assert s'[rec.left].entries == l.entries[0..n];
    HalvesInternal(l, s'[rec.left], |s|, |s1|, 0, n);
    if s'[rec.right].entries == r.entries {
      assert r.entries[0..|r.entries|] == r.entries;
      HalvesInternal(r, s'[rec.right], |s|, |s1|, 0, |r.entries|);
    } else {
      assert s'[rec.right].entries == l.entries[n..|l.entries|];
      HalvesInternal(l, s'[rec.right], |s|, |s1|, n, |l.entries|);
    }
  }

  lemma OrderedPages(s: Pages, left: PageId, s1: Pages, rec: Clr, plan: Plan, lsn: Lsn, s': Pages)
    requires Finished(s, left, s1, rec, plan, lsn, s') && rec.level > 0
    ensures rec.left < |s| && rec.right < |s| && Internal(s[rec.left], |s|) && Internal(s[rec.right], |s|)
  {
    hide ApplyClr;
    hide Internal;
    TwinsHere(s, left, s1, rec, plan, lsn, s');
  }

  lemma FinishDownlinkInternal(s: Pages, left: PageId, s1: Pages, rec: Clr, plan: Plan, lsn: Lsn, s': Pages)
    requires Finished(s, left, s1, rec, plan, lsn, s') && FinishDone(s1, rec, plan, s') && !plan.Unlink?
    ensures Internal(s'[DownlinkPage(rec)], |s1|)
  {
    TwinsHere(s, left, s1, rec, plan, lsn, s');
    hide ApplyClr;
    hide HasDownlink;
    hide TotalBytes;
    hide Pending;
    hide ChoosePlan;
    var d := DownlinkPage(rec);
    if rec.newRoot == INVALID {
      DownlinkInternal(s1[d], s'[d], |s1|, Entry(rec.separator, rec.right, 0));
    } else {
      RootPairSorted(rec.left, rec.separator, rec.right);
    }
  }

  lemma ElsewhereInternal(s1: Pages, rec: Clr, plan: Plan, s': Pages, p: PageId)
    requires Ordered(s1) && ClrWithinFile(rec, |s1|) && FinishDone(s1, rec, plan, s')
    requires plan.Unlink? ==> DownlinkPage(rec) == INVALID && rec.meta == INVALID
    requires p < |s'| && s'[p].level > 0 && GoodGeometry(s'[p]) && p != rec.left && p != rec.right
    requires p == DownlinkPage(rec) ==> plan.Unlink?
    ensures Internal(s'[p], |s'|)
  {
    hide Accounted;
    hide HasDownlink;
  }

  lemma RoundOrdered(s: Pages, left: PageId, s1: Pages, rec: Clr, plan: Plan, lsn: Lsn, s': Pages)
    requires Finished(s, left, s1, rec, plan, lsn, s') && FinishDone(s1, rec, plan, s')
    ensures Ordered(s')
  {
    TwinsHere(s, left, s1, rec, plan, lsn, s');
    assert Ordered(s1);
    assert plan.Unlink? ==> DownlinkPage(rec) == INVALID && rec.meta == INVALID;
    hide Finished;
    hide Internal;
    hide FinishDone;
    forall p | 0 <= p < |s'| && s'[p].level > 0 && GoodGeometry(s'[p]) ensures Internal(s'[p], |s'|) {
      if p == rec.left || p == rec.right {
        FinishHalvesInternal(s, left, s1, rec, plan, lsn, s');
      } else if p == DownlinkPage(rec) && !plan.Unlink? {
        FinishDownlinkInternal(s, left, s1, rec, plan, lsn, s');
      } else {
        ElsewhereInternal(s1, rec, plan, s', p);
      }
    }
  }

  // ---- Other splits ----

  /** New downlinks point at the twin or, under a new root, at the left page. */
  lemma FinishLinks(s1: Pages, rec: Clr, plan: Plan, s': Pages, c: PageId)
    requires ClrWithinFile(rec, |s1|) && FinishDone(s1, rec, plan, s') && HasDownlink(s', c)
    requires Accounted(s1[rec.left]) && Accounted(s1[rec.right]) && s1[rec.right].level == s1[rec.left].level
    requires !plan.Unlink? && rec.newRoot == INVALID ==> s1[rec.parent].level > 0 && GoodGeometry(s1[rec.parent])
    requires plan.Unlink? ==> IsUnlink(rec)
    ensures HasDownlink(s1, c) || c == rec.right || (c == rec.left && rec.newRoot != INVALID)
  {
    hide TotalBytes;
    var p, i :| 0 <= p < |s'| && DownlinkAt(s'[p], i, c);
    var l := s1[rec.left];
    if p == rec.left {
      assert DownlinkAt(l, i, c);
    } else if p == rec.right {
      if s'[p].entries == s1[p].entries {
        assert DownlinkAt(s1[p], i, c);
      } else {
        assert l.entries[|s'[rec.left].entries| + i] == s'[p].entries[i];
        assert DownlinkAt(l, |s'[rec.left].entries| + i, c);
      }
    } else if p == DownlinkPage(rec) && !plan.Unlink? {
      if rec.newRoot == INVALID && c != rec.right {
        assert DownlinkAt(s1[p], if i < rec.slot then i else i - 1, c);
      }
    } else {
      assert DownlinkAt(s1[p], i, c);
    }
  }

  lemma StillUnlinked(s: Pages, left: PageId, s1: Pages, rec: Clr, plan: Plan, lsn: Lsn, s': Pages, c: PageId)
    requires Finished(s, left, s1, rec, plan, lsn, s') && FinishDone(s1, rec, plan, s')
    requires c < |s| && c != rec.right && !s[c].flags.root && !HasDownlink(s, c)
    ensures !HasDownlink(s', c)
  {
    TwinsHere(s, left, s1, rec, plan, lsn, s');
    hide ApplyClr;
    hide HasDownlink;
    hide Pending;
    hide ChoosePlan;
    hide LowerBound;
    hide Sorted;
    hide TotalBytes;
    if HasDownlink(s', c) {
      FinishLinks(s1, rec, plan, s', c);
    }
  }

  /** A page of a pending split is as good after the round as before. */
  lemma StillReady(s: Pages, left: PageId, s1: Pages, rec: Clr, plan: Plan, lsn: Lsn, s': Pages, p: PageId)
    requires Finished(s, left, s1, rec, plan, lsn, s') && FinishDone(s1, rec, plan, s')
    requires OnlyFinished(s, left, s') && Ordered(s') && p < |s| && HalfReady(s[p])
    ensures HalfReady(s'[p])
  {
    TwinsHere(s, left, s1, rec, plan, lsn, s');
    assert RoundAt(s, left, s', p);
    if s[p].level > 0 {
      assert Internal(s'[p], |s'|);
    } else if p == rec.left || p == rec.right {
      hide Finished;
      HalvesReady(s1[rec.left], s1[rec.right], s'[rec.left], s'[rec.right]);
    }
  }

  lemma RoundPendingAt(s: Pages, left: PageId, s1: Pages, rec: Clr, plan: Plan, lsn: Lsn, s': Pages, p: PageId)
    requires Finished(s, left, s1, rec, plan, lsn, s') && FinishDone(s1, rec, plan, s')
    requires OnlyFinished(s, left, s') && Ordered(s') && Flagged(s', p)
    ensures Flagged(s, p) && p != left && s'[p].next == s[p].next && PendingAt(s', p)
  {
    TwinsHere(s, left, s1, rec, plan, lsn, s');
    assert p < |s| && RoundAt(s, left, s', p);
    assert Flagged(s, p) && Flagged(s, left) && Sound(s) && PendingAt(s, p);
    var twin := s[p].next;
    assert RoundAt(s, left, s', twin) && twin != rec.right;
    hide Finished;
    hide HalfReady;
    hide HasDownlink;
    StillReady(s, left, s1, rec, plan, lsn, s', p);
    StillReady(s, left, s1, rec, plan, lsn, s', twin);
    StillUnlinked(s, left, s1, rec, plan, lsn, s', twin);
  }

  /** A round that publishes its promotions where they belong keeps the file
      sound. */
  lemma RoundKeepsSound(s: Pages, left: PageId, s1: Pages, rec: Clr, plan: Plan, lsn: Lsn, s': Pages)
    requires Finished(s, left, s1, rec, plan, lsn, s')
    ensures Sound(s')
  {
    FinishResult(s, left, s1, rec, plan, lsn, s');
    RoundOrdered(s, left, s1, rec, plan, lsn, s');
    RoundFinishes(s, left, s1, rec, plan, lsn, s');
    assert Sound(s);
    hide Finished;
    hide FinishedBy;
    hide FinishDone;
    hide PendingAt;
    hide Ordered;
    hide OnlyFinished;
    forall p: PageId | Flagged(s', p)
      ensures Flagged(s, p) && p != left && s'[p].next == s[p].next && PendingAt(s', p)
    {
      RoundPendingAt(s, left, s1, rec, plan, lsn, s', p);
    }
  }
}

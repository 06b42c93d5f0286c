/** Where the downlink of a finished split leads
    (crates/pg-am-btree/src/index.rs, `finish_incomplete_split`): the separator is
    the first key on the right page, as the record leaves it. */
module BtreeFence {
  import opened Keys
  import opened Outcome
  import opened Sequences
  import opened BtreePages
  import opened BtreeLog
  import opened BtreeChain
  import opened BtreeContent
  import opened BtreeSearch
  import opened BtreeFinish
  import opened BtreeInner
  import opened BtreeClr
  import opened BtreeFresh
  import opened BtreeRound
  import opened BtreePending
  import opened BtreeSound

  /** The key is the first of the right half, and nothing left of it sorts at or
      above the entry that has it. */
  ghost predicate FencedBy(left: seq<Entry>, right: seq<Entry>, key: Key)
  {
    right != [] && right[0].key == key && Sorted(right) && forall e :: e in left ==> EntryLess(e, right[0])
  }

  /** A descent over the page is led to the downlink or past it by exactly the keys
      from its own on, unless it is the first. */
  ghost predicate Guides(page: Page, level: nat, d: Entry)
  {
    page.level == level && Sorted(page.entries) && exists i: nat :: GuidesAt(page.entries, d, i)
  }

  ghost predicate GuidesAt(es: seq<Entry>, d: Entry, i: nat)
  {
    && i < |es| && es[i] == d
    && forall key, slot: nat :: Covers(es, key, slot) ==>
         (!KeyLess(key, d.key) ==> i <= slot) && (KeyLess(key, d.key) && i > 0 ==> slot < i)
  }

  lemma SortedGuides(page: Page, d: Entry)
    requires Sorted(page.entries) && d in page.entries
    ensures Guides(page, page.level, d)
  {
    var es := page.entries;
    var i: nat :| i < |es| && es[i] == d;
    forall key, slot: nat | Covers(es, key, slot)
      ensures (!KeyLess(key, d.key) ==> i <= slot) && (KeyLess(key, d.key) && i > 0 ==> slot < i)
    {
      if KeyLess(key, d.key) && 0 < i <= slot {
        KeyTrichotomy(key, es[slot].key);
        if i < slot {
          KeysAscend(es, i, slot);
          if KeyLess(d.key, es[slot].key) {
            KeyTransitive(key, d.key, es[slot].key);
          }
        }
      }
    }
    assert GuidesAt(es, d, i);
  }

  /** Two pages in order, with their room accounted for. */
  ghost predicate OrderedPair(left: Page, right: Page)
  {
    Sorted(left.entries) && Sorted(right.entries) && Accounted(left) && Accounted(right) && right.level == left.level
  }

  lemma HalvesFence(left: Page, right: Page, rec: Clr, lsn: Lsn, plan: Plan, left': Page, right': Page)
    requires left.lsn < lsn && right.lsn < lsn && ClrHalves(left, right, rec, lsn) == Ok((left', right')) && !IsUnlink(rec)
    requires OrderedPair(left, right) && ChoosePlan(left, right, rec.start) == Ok((plan, rec.separator)) && !plan.Unlink?
    ensures FencedBy(left'.entries, right'.entries, rec.separator) && CutAt(left, right, rec.start, left', right')
  {
    hide TotalBytes;
    if right.entries == [] {
      hide ClrHalves;
      MoveHalves(left, right, rec, lsn, left', right');
      forall e | e in left'.entries ensures EntryLess(e, right'.entries[0]) {
        var i :| 0 <= i < rec.start && left.entries[i] == e;
      }
    } else {
      KeptFence(left, right, rec, lsn, left', right');
    }
  }

  /** Entries that had to move were cut off at the slot; otherwise the right half
      stays as it was. */
  ghost predicate CutAt(left: Page, right: Page, start: nat, left': Page, right': Page)
  {
    if right.entries == [] then
      start < |left.entries| && left'.entries == left.entries[..start] && right'.entries == left.entries[start..]
    else right'.entries == right.entries
  }

  lemma KeptFence(left: Page, right: Page, rec: Clr, lsn: Lsn, left': Page, right': Page)
    requires left.lsn < lsn && right.lsn < lsn && ClrHalves(left, right, rec, lsn) == Ok((left', right')) && !IsUnlink(rec)
    requires OrderedPair(left, right) && right.entries != []
    ensures right'.entries == right.entries && forall e :: e in left'.entries ==> EntryLess(e, right.entries[0])
  {
    hide TotalBytes;
    if left.entries != [] {
      var at := SearchSlot(left.entries, right.entries[0]);
      BisectSorted(left.entries, right.entries[0], 0, |left.entries|);
      LowerBoundSplits(left.entries, right.entries[0]);
      RebuildExact(left, at);
      assert left'.entries == left.entries[..at];
    }
  }

  /** What a finished split owes the descents: the downlink of the right page is
      there; with the halves in order it is a fence between them; and in a sound
      file, by a clean round, it guides. */
  ghost predicate Fences(s: Pages, rec: Clr, s': Pages, clean: bool)
  {
    && rec.left < |s| <= |s'| && rec.right < |s| && DownlinkPage(rec) < |s'|
    && Entry(rec.separator, rec.right, 0) in s'[DownlinkPage(rec)].entries
    && (OrderedPair(s[rec.left], s[rec.right]) && (clean || (s[rec.left].flags.leaf && s[rec.right].flags.leaf)) ==>
          && FencedBy(s'[rec.left].entries, s'[rec.right].entries, rec.separator)
          && CutAt(s[rec.left], s[rec.right], rec.start, s'[rec.left], s'[rec.right]))
    && (clean ==> Guides(s'[DownlinkPage(rec)], rec.level + 1, Entry(rec.separator, rec.right, 0)))
  }

  lemma DownlinkWritten(page: Page, rec: Clr, lsn: Lsn, page': Page)
    requires page.lsn < lsn && ClrDownlink(page, rec, lsn) == Ok(page')
    ensures Entry(rec.separator, rec.right, 0) in page'.entries
  {
    var d := Entry(rec.separator, rec.right, 0);
    if rec.newRoot != INVALID {
      var init := InitPage(rec.level + 1, Flags(false, true, false));
      AppendAllExact(init, [Entry([], rec.left, 0), d]);
      assert page'.entries[1] == d;
    } else {
      InsertedElements(page.entries, rec.slot, d);
    }
  }

  lemma RoundWrites(s: Pages, left: PageId, s1: Pages, rec: Clr, plan: Plan, lsn: Lsn, s': Pages)
    requires FinishedBy(s, left, s1, rec, plan, lsn, s') && !plan.Unlink?
    ensures |s| <= |s1| == |s'| && rec.right < |s| && DownlinkPage(rec) < |s'|
    ensures Entry(rec.separator, rec.right, 0) in s'[DownlinkPage(rec)].entries
    ensures OrderedPair(s[left], s[rec.right]) && s1[left] == s[left] && s1[rec.right] == s[rec.right] ==>
              && FencedBy(s'[left].entries, s'[rec.right].entries, rec.separator)
              && CutAt(s[left], s[rec.right], rec.start, s'[left], s'[rec.right])
  {
    hide ApplyClr;
    hide ChoosePlan;
    hide Framed;
    ClrByPage(s1, rec, lsn + 1, s');
    DownlinkWritten(s1[DownlinkPage(rec)], rec, lsn + 1, s'[DownlinkPage(rec)]);
    hide ClrDownlink;
    hide ClrHalves;
    hide OrderedPair;
    if OrderedPair(s[left], s[rec.right]) && s1[left] == s[left] && s1[rec.right] == s[rec.right] {
      HalvesFence(s[left], s[rec.right], rec, lsn + 1, plan, s'[left], s'[rec.right]);
    }
    hide FencedBy;
    hide CutAt;
    FramedLonger(s, s1);
  }

  lemma FramedLonger(s: Pages, s1: Pages)
    requires Framed(s, s1)
    ensures |s| <= |s1| && forall p :: 0 <= p < |s| && s[p].flags.leaf ==> s1[p] == s[p]
  {
    forall p | 0 <= p < |s| && s[p].flags.leaf ensures s1[p] == s[p] {
      assert FrameAt(s[p], s1[p]);
    }
  }

  /** In a sound file a well placed record guides. */
  lemma FinishGuides(s: Pages, left: PageId, s1: Pages, rec: Clr, plan: Plan, lsn: Lsn, s': Pages)
    requires Finished(s, left, s1, rec, plan, lsn, s') && !plan.Unlink?
    ensures s1[left] == s[left] && s[left].next < |s| && s1[s[left].next] == s[s[left].next] && rec.right == s[left].next
    ensures DownlinkPage(rec) < |s'|
    ensures Guides(s'[DownlinkPage(rec)], rec.level + 1, Entry(rec.separator, rec.right, 0))
  {
    TwinsHere(s, left, s1, rec, plan, lsn, s');
    FinishResult(s, left, s1, rec, plan, lsn, s');
    FinishDownlinkInternal(s, left, s1, rec, plan, lsn, s');
    RoundWrites(s, left, s1, rec, plan, lsn, s');
    hide Finished;
    SortedGuides(s'[DownlinkPage(rec)], Entry(rec.separator, rec.right, 0));
  }

  /** Every round that finishes a split keeps what it owes. */
  lemma RoundFences(s: Pages, left: PageId, s1: Pages, rec: Clr, plan: Plan, lsn: Lsn, s': Pages, clean: bool)
    requires FinishedBy(s, left, s1, rec, plan, lsn, s') && !plan.Unlink?
    requires clean ==> Sound(s) && WellPlaced(s, s1, rec, plan)
    ensures Fences(s, rec, s', clean)
  {
    hide Sound;
    hide WellPlaced;
    hide Guides;
    hide FencedBy;
    hide CutAt;
    hide OrderedPair;
    RoundWrites(s, left, s1, rec, plan, lsn, s');
    FramedLonger(s, s1);
    if clean {
      FinishGuides(s, left, s1, rec, plan, lsn, s');
    }
    hide FinishedBy;
  }
}

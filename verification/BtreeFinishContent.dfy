/** Finishing a lost Commit keeps the index's contents
    (crates/pg-am-btree/src/index.rs, `finish_incomplete_split`). */
module BtreeFinishContent {
  import opened Keys
  import opened Outcome
  import opened Sequences
  import opened BtreePages
  import opened BtreeLog
  import opened BtreeChain
  import opened BtreeContent
  import opened BtreeSearch
  import opened BtreeFinish

  /** The record finishes the unfinished split of leaf `k` by plan `plan`, and
      its other pages are not leaves. */
  ghost predicate Finishes(s: Pages, chain: seq<PageId>, k: nat, rec: Clr, plan: Plan)
  {
    && ClrWithinFile(rec, |s|) && ClrDistinct(rec)
    && k + 1 < |chain| && rec.left == chain[k] && rec.right == chain[k + 1]
    && s[rec.left].flags.splitIncomplete
    && ChoosePlan(s[rec.left], s[rec.right], rec.start) == Ok((plan, rec.separator))
    && (IsUnlink(rec) <==> plan.Unlink?) && (plan.Unlink? || DownlinkPage(rec) != INVALID)
    && DownlinkPage(rec) !in chain && rec.meta !in chain
  }

  /** An unlinked twin leaves the chain. */
  function FinishedChain(chain: seq<PageId>, k: nat, plan: Plan): seq<PageId>
    requires k + 1 < |chain|
  {
    if plan.Unlink? then chain[..k + 1] + chain[k + 2..] else chain
  }

  /** In a sorted chain the left page ends below its twin's first entry, so the
      NoMove truncation keeps the whole left page. */
  lemma TruncationKeepsAll(s: Pages, chain: seq<PageId>, k: nat)
    requires Sorted(Contents(s, chain)) && k + 1 < |chain|
    requires EntriesOf(s, chain[k + 1]) != []
    ensures SearchSlot(EntriesOf(s, chain[k]), EntriesOf(s, chain[k + 1])[0]) == |EntriesOf(s, chain[k])|
  {
    hide Contents;
    var a, es, fs := Contents(s, chain[..k]), EntriesOf(s, chain[k]), EntriesOf(s, chain[k + 1]);
    assert chain == chain[..k] + [chain[k], chain[k + 1]] + chain[k + 2..];
    PairContents(s, chain[..k], chain[k], chain[k + 1], chain[k + 2..]);
    forall i | 0 <= i < |es| ensures EntryLess(es[i], fs[0]) {
      assert Contents(s, chain)[|a| + i] == es[i];
      assert Contents(s, chain)[|a| + |es|] == fs[0];
    }
    forall i, j | 0 <= i < j < |es| ensures EntryLess(es[i], es[j]) {
      assert Contents(s, chain)[|a| + i] == es[i] && Contents(s, chain)[|a| + j] == es[j];
    }
    BisectSorted(es, fs[0], 0, |es|);
  }

  lemma StampStep(s: Pages, chain: seq<PageId>, k: nat, lsn: Lsn)
    requires SpineInv(s, chain) && k < |chain| && chain[k] < |s|
    ensures SpineInv(s[chain[k] := Stamp(s[chain[k]], lsn)], chain)
    ensures Hinted(s, chain) ==> Hinted(s[chain[k] := Stamp(s[chain[k]], lsn)], chain)
    ensures Contents(s[chain[k] := Stamp(s[chain[k]], lsn)], chain) == Contents(s, chain)
  {
    hide Contents;
    hide TotalBytes;
    QuietStep(s, s[chain[k] := Stamp(s[chain[k]], lsn)], chain, k);
  }

  lemma NoMoveStep(s: Pages, chain: seq<PageId>, k: nat, rec: Clr, lsn: Lsn, s': Pages)
    requires SpineInv(s, chain) && Finishes(s, chain, k, rec, NoMove) && s[rec.left].lsn < lsn
    requires ClrApplied(s, rec, lsn, s')
    ensures SpineInv(s', chain) && (Hinted(s, chain) ==> Hinted(s', chain))
    ensures Contents(s', chain) == Contents(s, chain)
  {
    hide Contents;
    hide TotalBytes;
    hide ClrDownlink;
    hide ClrMeta;
    assert NextAt(s, chain, k);
    TruncationKeepsAll(s, chain, k);
    var s1 := s[rec.right := Stamp(s[rec.right], lsn)];
    StampStep(s, chain, k + 1, lsn);
    var left := s[rec.left];
    RebuildExact(left, |left.entries|);
    assert left.entries[..|left.entries|] == left.entries;
    RebuiltAccounted(left);
    QuietStep(s1, s', chain, k);
  }

  lemma RebuiltAccounted(p: Page)
    requires Accounted(p)
    ensures Rebuild(p, p.entries).Ok?
    ensures var q := Rebuild(p, p.entries).value;
            && Accounted(q) && q == p.(upper := q.upper)
            && (p.entries != [] ==> !NeverHadEntries(q))
  {
    RebuildExact(p, |p.entries|);
    assert p.entries[..|p.entries|] == p.entries;
  }

  lemma MoveStep(s: Pages, chain: seq<PageId>, k: nat, rec: Clr, lsn: Lsn, s': Pages)
    requires SpineInv(s, chain) && Finishes(s, chain, k, rec, Move) && s[rec.left].lsn < lsn
    requires ClrApplied(s, rec, lsn, s')
    ensures SpineInv(s', chain) && (Hinted(s, chain) ==> Hinted(s', chain))
    ensures Contents(s', chain) == Contents(s, chain)
  {
    hide Contents;
    hide TotalBytes;
    hide ClrHalves;
    hide ClrDownlink;
    hide ClrMeta;
    assert NextAt(s, chain, k) && NextAt(s, chain, k + 1);
    MoveHalves(s[rec.left], s[rec.right], rec, lsn, s'[rec.left], s'[rec.right]);
    var s1 := s[rec.left := s'[rec.left].(flags := s[rec.left].flags)][rec.right := s'[rec.right]];
    assert Copied(s, chain, k, rec.start, s1);
    CopiedStep(s, chain, k, rec.start, s1);
    hide Copied;
    QuietStep(s1, s', chain, k);
  }

  /** `s'` is `s` with leaf `k` pointing past its empty twin. */
  ghost predicate Skipped(s: Pages, chain: seq<PageId>, k: nat, s': Pages)
  {
    && |s'| == |s| && k + 1 < |chain| && chain[k] < |s| && chain[k + 1] < |s|
    && SameElsewhere(s, s', chain, k) && s[chain[k + 1]].entries == []
    && s'[chain[k]] == s[chain[k]].(lsn := s'[chain[k]].lsn, next := s[chain[k + 1]].next,
                                    flags := s[chain[k]].flags.(splitIncomplete := false))
  }

  lemma SkippedLink(s: Pages, chain: seq<PageId>, k: nat, s': Pages, i: nat)
    requires SpineInv(s, chain) && Skipped(s, chain, k, s') && i < |chain| - 1
    ensures NextAt(s', FinishedChain(chain, k, Unlink), i)
  {
    hide Contents;
    hide TotalBytes;
    var chain' := FinishedChain(chain, k, Unlink);
    var i0 := if i <= k then i else i + 1;
    assert chain'[i] == chain[i0];
    assert NextAt(s, chain, i0) && NextAt(s, chain, k + 1);
  }

  /** No leaf names the right page of the split at `k` as its left neighbour. */
  ghost predicate Unnamed(s: Pages, chain: seq<PageId>, k: nat)
    requires k + 1 < |chain|
  {
    forall j :: 0 <= j < |chain| ==> chain[j] < |s| && s[chain[j]].prev != chain[k + 1]
  }

  /** What is left of a leaf, other than the twin, stays left of it. */
  lemma PrefixShrinks(chain: seq<PageId>, k: nat, i0: nat, p: PageId)
    requires k + 1 < |chain| && i0 < |chain| && i0 != k + 1
    requires forall i, j :: 0 <= i < j < |chain| ==> chain[i] != chain[j]
    ensures p in FinishedChain(chain, k, Unlink)[..if i0 <= k then i0 else i0 - 1]
            <==> p in chain[..i0] && p != chain[k + 1]
  {
    var chain', i := FinishedChain(chain, k, Unlink), if i0 <= k then i0 else i0 - 1;
    if p in chain'[..i] {
      var j :| 0 <= j < i && chain'[j] == p;
      assert chain[if j <= k then j else j + 1] == p;
      assert p in chain[..i0];
    }
    if p in chain[..i0] && p != chain[k + 1] {
      var j :| 0 <= j < i0 && chain[j] == p;
      assert chain'[if j <= k then j else j - 1] == p;
    }
  }

  lemma SkippedHint(s: Pages, chain: seq<PageId>, k: nat, s': Pages, i: nat)
    requires Spine(s, chain) && Hinted(s, chain) && Skipped(s, chain, k, s') && i < |chain| - 1
    ensures var i0 := if i <= k then i else i + 1;
            && chain[i0] < |s|
            && (HintAt(s', FinishedChain(chain, k, Unlink), i) <==> s[chain[i0]].prev != chain[k + 1])
  {
    hide TotalBytes;
    var chain' := FinishedChain(chain, k, Unlink);
    var i0 := if i <= k then i else i + 1;
    assert chain'[i] == chain[i0];
    assert NextAt(s, chain, i0) && HintAt(s, chain, i0) && NextAt(s, chain, k + 1);
    PrefixShrinks(chain, k, i0, s[chain[i0]].prev);
  }

  /** Unlinking a drained twin keeps the hints sound exactly when no leaf named
      the twin. */
  lemma UnlinkHints(s: Pages, chain: seq<PageId>, k: nat, s': Pages)
    requires Spine(s, chain) && Hinted(s, chain) && Skipped(s, chain, k, s')
    ensures Hinted(s', FinishedChain(chain, k, Unlink)) <==> Unnamed(s, chain, k)
  {
    SkippedInside(s, chain, k, s');
    hide Skipped;
    hide NextAt;
    var chain' := FinishedChain(chain, k, Unlink);
    if Unnamed(s, chain, k) {
      forall i | 0 <= i < |chain'| ensures HintAt(s', chain', i) {
        SkippedHint(s, chain, k, s', i);
      }
    }
    if Hinted(s', chain') {
      forall j | 0 <= j < |chain| ensures chain[j] < |s| && s[chain[j]].prev != chain[k + 1] {
        InFile(s, chain, j);
        if j == k + 1 {
          assert HintAt(s, chain, j);
        } else {
          var i := if j <= k then j else j - 1;
          SkippedHint(s, chain, k, s', i);
          assert HintAt(s', chain', i);
        }
      }
    }
  }

  lemma SkippedInside(s: Pages, chain: seq<PageId>, k: nat, s': Pages)
    requires Skipped(s, chain, k, s')
    ensures k + 1 < |chain|
  {}

  lemma SkippedTwin(s: Pages, chain: seq<PageId>, k: nat, s': Pages, i: nat)
    requires SpineInv(s, chain) && Skipped(s, chain, k, s') && i < |chain| - 1
    ensures TwinAt(s', FinishedChain(chain, k, Unlink), i)
  {
    hide Contents;
    hide NextAt;
    hide Accounted;
    var chain' := FinishedChain(chain, k, Unlink);
    var i0 := if i <= k then i else i + 1;
    assert chain'[i] == chain[i0];
    assert TwinAt(s, chain, i0);
    InFile(s, chain, i0);
    if s'[chain[i0]].flags.splitIncomplete {
      assert i != k;
      assert chain'[i + 1] == chain[i0 + 1];
      InFile(s, chain, i0 + 1);
    }
  }

  lemma UnlinkStep(s: Pages, chain: seq<PageId>, k: nat, s': Pages)
    requires SpineInv(s, chain) && Skipped(s, chain, k, s')
    ensures k + 1 < |chain| && SpineInv(s', FinishedChain(chain, k, Unlink))
    ensures Contents(s', FinishedChain(chain, k, Unlink)) == Contents(s, chain)
  {
    hide Contents;
    hide NextAt;
    hide TwinAt;
    SkippedInside(s, chain, k, s');
    var chain' := FinishedChain(chain, k, Unlink);
    hide Skipped;
    forall i | 0 <= i < |chain'| ensures NextAt(s', chain', i) && TwinAt(s', chain', i) {
      SkippedLink(s, chain, k, s', i);
      SkippedTwin(s, chain, k, s', i);
    }
    SkippedContents(s, chain, k, s');
  }

  lemma SkippedContents(s: Pages, chain: seq<PageId>, k: nat, s': Pages)
    requires Skipped(s, chain, k, s') && forall i, j :: 0 <= i < j < |chain| ==> chain[i] != chain[j]
    ensures Contents(s', FinishedChain(chain, k, Unlink)) == Contents(s, chain)
  {
    hide Contents;
    assert chain == chain[..k + 1] + [chain[k + 1]] + chain[k + 2..];
    EmptyLeafContents(s, chain[..k + 1], chain[k + 1], chain[k + 2..]);
    ContentsFrame(s, s', FinishedChain(chain, k, Unlink));
  }

  lemma DownlinkPresent(page: Page, rec: Clr, lsn: Lsn, page': Page)
    requires page.lsn < lsn && ClrDownlink(page, rec, lsn) == Ok(page')
    ensures Entry(rec.separator, rec.right, 0) in page'.entries
  {
    if rec.newRoot != INVALID {
      var root := InitPage(rec.level + 1, Flags(false, true, false));
      var seeds := [Entry([], rec.left, 0), Entry(rec.separator, rec.right, 0)];
      AppendAllExact(root, seeds);
      assert seeds[1] in root.entries + seeds;
    } else {
      assert page'.entries[rec.slot] == Entry(rec.separator, rec.right, 0);
    }
  }

  lemma UnlinkClrStep(s: Pages, chain: seq<PageId>, k: nat, rec: Clr, lsn: Lsn, s': Pages)
    requires SpineInv(s, chain) && Finishes(s, chain, k, rec, Unlink) && s[rec.left].lsn < lsn
    requires ClrApplied(s, rec, lsn, s')
    ensures SpineInv(s', FinishedChain(chain, k, Unlink))
    ensures Contents(s', FinishedChain(chain, k, Unlink)) == Contents(s, chain)
    ensures rec.right !in FinishedChain(chain, k, Unlink)
    ensures Hinted(s, chain) ==> (Hinted(s', FinishedChain(chain, k, Unlink)) <==> Unnamed(s, chain, k))
  {
    hide Contents;
    hide TotalBytes;
    StampStep(s, chain, k + 1, lsn);
    var s1 := s[rec.right := Stamp(s[rec.right], lsn)];
    assert Skipped(s1, chain, k, s');
    hide Skipped;
    UnlinkStep(s1, chain, k, s');
    if Hinted(s, chain) {
      UnlinkHints(s1, chain, k, s');
      assert Unnamed(s1, chain, k) <==> Unnamed(s, chain, k);
    }
  }

  /** Finishing a lost Commit, whichever plan the right page's content calls
      for: the leaf chain spells out the same entries and keeps its invariant,
      SPLIT_INCOMPLETE is cleared, and the right page either has a downlink or
      is out of the chain. The `prev` hints stay sound unless the right page
      goes and some leaf names it. */
  lemma FinishKeepsContents(s: Pages, chain: seq<PageId>, k: nat, rec: Clr, plan: Plan, lsn: Lsn, s': Pages)
    requires SpineInv(s, chain) && Finishes(s, chain, k, rec, plan)
    requires (forall p :: 0 <= p < |s| ==> s[p].lsn < lsn) && ApplyClr(s, rec, lsn) == Ok(s')
    ensures |s'| == |s|
    ensures SpineInv(s', FinishedChain(chain, k, plan))
    ensures Contents(s', FinishedChain(chain, k, plan)) == Contents(s, chain)
    ensures Hinted(s, chain) ==>
              (Hinted(s', FinishedChain(chain, k, plan)) <==> (plan.Unlink? ==> Unnamed(s, chain, k)))
    ensures !s'[rec.left].flags.splitIncomplete
    ensures if plan.Unlink? then rec.right !in FinishedChain(chain, k, plan)
            else Entry(rec.separator, rec.right, 0) in s'[DownlinkPage(rec)].entries
  {
    hide ApplyClr;
    hide Contents;
    hide TotalBytes;
    hide SpineInv;
    hide Hinted;
    hide Unnamed;
    ClrByPage(s, rec, lsn, s');
    FlagCleared(s[rec.left], s[rec.right], rec, lsn);
    hide ClrHalves;
    match plan {
      case Move => MoveStep(s, chain, k, rec, lsn, s');
      case NoMove => NoMoveStep(s, chain, k, rec, lsn, s');
      case Unlink => UnlinkClrStep(s, chain, k, rec, lsn, s');
    }
    if !plan.Unlink? {
      DownlinkPresent(s[DownlinkPage(rec)], rec, lsn, s'[DownlinkPage(rec)]);
    }
  }

  lemma FlagCleared(left: Page, right: Page, rec: Clr, lsn: Lsn)
    requires left.lsn < lsn && ClrHalves(left, right, rec, lsn).Ok?
    ensures !ClrHalves(left, right, rec, lsn).value.0.flags.splitIncomplete
  {}

  /** The halves never refuse: the boundary is not inverted, the truncation
      and the move fit, and the start slot the undo pass falls back to (the
      median) is inside a page that still awaits its Copy. */
  lemma HalvesNeverFail(s: Pages, chain: seq<PageId>, k: nat, rec: Clr, plan: Plan, lsn: Lsn)
    requires SpineInv(s, chain) && Finishes(s, chain, k, rec, plan) && s[rec.left].lsn < lsn
    requires plan.Move? ==> 1 <= rec.start < |s[rec.left].entries|
    ensures ClrHalves(s[rec.left], s[rec.right], rec, lsn).Ok?
    ensures AwaitsCopy(s, rec.left) && s[rec.right].entries == [] ==>
              1 <= |s[rec.left].entries| / 2 < |s[rec.left].entries|
  {
    hide Contents;
    assert NextAt(s, chain, k) && NextAt(s, chain, k + 1) && TwinAt(s, chain, k);
    var left, right := s[rec.left], s[rec.right];
    if plan.Move? {
      var es := left.entries;
      assert es == es[..rec.start] + es[rec.start..];
      TotalBytesConcat(left.level, es[..rec.start], es[rec.start..]);
      AppendAllExact(right, es[rec.start..]);
      RebuildExact(left, rec.start);
    } else if plan.NoMove? {
      TruncationKeepsAll(s, chain, k);
      RebuiltAccounted(left);
      assert left.entries[..|left.entries|] == left.entries;
    }
  }
}

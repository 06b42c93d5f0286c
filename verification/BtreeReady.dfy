/** Every crash of an orderly run leaves the undo pass a file it can work on
    (crates/pg-am-btree/src/index.rs, crates/pg-am-btree/src/undo.rs). */
module BtreeReady {
  import opened Keys
  import opened Outcome
  import opened Sequences
  import opened BtreePages
  import opened BtreeLog
  import opened BtreeReplay
  import opened BtreeChain
  import opened BtreeContent
  import opened BtreeRuns
  import opened BtreeClr
  import opened BtreeRound
  import opened BtreeRedo

  /** No pending split has anything to do with the page. */
  ghost predicate Unclaimed(s: Pages, p: PageId)
  {
    p < |s| ==> !s[p].flags.splitIncomplete && forall q: PageId :: Flagged(s, q) ==> s[q].next != p
  }

  /** What the allocator and the page images owe to pending splits: a page is
      split onto, or initialised by an image, only if none claims it. */
  ghost predicate Orderly(s: Pages, r: Record)
  {
    match r
    case Image(p, image) =>
      p < |s| ==>
        || image == s[p].(lsn := image.lsn)
        || (Unclaimed(s, p) && !image.flags.splitIncomplete && image.level <= MAX_LEVEL)
    case Prepare(l, right, _, _, _) => 0 < l && Unclaimed(s, right)
    case _ => true
  }

  /** Ready for the undo pass, with every twin on its own side. */
  ghost predicate OnlineReady(s: Pages, chain: seq<PageId>)
  {
    && Ready(s, chain) && (forall p :: 0 <= p < |s| ==> s[p].level <= MAX_LEVEL)
    && forall p: PageId :: Flagged(s, p) && p !in chain ==> s[p].next !in chain
  }

  /** What one record does to the flag, the twin and the level of a page. */
  lemma PageAfter(s: Pages, r: Record, lsn: Lsn, s': Pages, p: PageId)
    requires Appended(s, r, lsn, s') && Orderly(s, r) && p < |s|
    ensures |s'| == |s|
    ensures s'[p].flags.splitIncomplete ==>
              if r.Prepare? && p == r.left then s'[p].next == r.right && r.right < |s| && s'[r.right].level == s'[p].level
              else s[p].flags.splitIncomplete && s'[p].next == s[p].next
    ensures s'[p].level == s[p].level || (Unclaimed(s, p) && s'[p].level <= MAX_LEVEL)
            || (r.Prepare? && p == r.right && s'[p].level == s[r.left].level && r.left < |s|)
  {
    if r.Copy? {
      CopyRefills(s[r.left], s[r.right], r.start, true);
      hide ApplySplitCopy;
    }
  }

  lemma StepPaired(s: Pages, chain: seq<PageId>, r: Record, lsn: Lsn, s': Pages, p: PageId)
    requires OnlineReady(s, chain) && Appended(s, r, lsn, s') && Orderly(s, r) && Flagged(s', p)
    requires r.Prepare? ==> 0 < r.right
    ensures p < |s| && Paired(s', p)
  {
    hide SpineInv;
    hide Online;
    hide Orderly;
    PageAfter(s, r, lsn, s', if p < |s| then p else 0);
    if r.Prepare? && p == r.left {
      PageAfter(s, r, lsn, s', r.right);
      assert r.left != r.right;
    } else {
      assert Flagged(s, p) && Paired(s, p);
      PageAfter(s, r, lsn, s', s[p].next);
      if r.Prepare? {
        PrepareClaims(s, r, p);
      }
    }
  }

  lemma PrepareClaims(s: Pages, r: Record, p: PageId)
    requires r.Prepare? && Orderly(s, r) && Flagged(s, p)
    ensures r.right < |s| ==> s[p].next != r.right && p != r.right
  {}

  lemma StepApart(s: Pages, chain: seq<PageId>, r: Record, lsn: Lsn, s': Pages, p: PageId)
    requires OnlineReady(s, chain) && Appended(s, r, lsn, s') && Orderly(s, r) && Flagged(s', p)
    requires r.Prepare? ==> 0 < r.right && r.right !in chain
    requires p !in NextChain(chain, r)
    ensures s'[p].next !in NextChain(chain, r)
  {
    hide SpineInv;
    hide Online;
    hide Orderly;
    PageAfter(s, r, lsn, s', if p < |s| then p else 0);
    if r.Prepare? && r.left in chain {
      LinkedElements(chain, IndexOf(chain, r.left), r.right);
      assert p != r.left;
      PrepareClaims(s, r, p);
      assert r.right < |s|;
    }
  }

  /** One record keeps the file ready. */
  lemma StepReady(s: Pages, chain: seq<PageId>, r: Record, lsn: Lsn, s': Pages)
    requires OnlineReady(s, chain) && Appended(s, r, lsn, s') && Disciplined(s, chain, r) && Orderly(s, r)
    ensures OnlineReady(s', NextChain(chain, r))
  {
    StepRefines(s, chain, r, lsn, s');
    assert r.Prepare? ==> 0 < r.right && r.right !in chain && 0 < r.left;
    PageAfter(s, r, lsn, s', 0);
    hide SpineInv;
    hide Contents;
    hide Online;
    hide Disciplined;
    hide NextChain;
    hide Orderly;
    hide Paired;
    forall p: PageId | Flagged(s', p)
      ensures Paired(s', p) && (p !in NextChain(chain, r) ==> s'[p].next !in NextChain(chain, r))
    {
      StepPaired(s, chain, r, lsn, s', p);
      if p !in NextChain(chain, r) {
        StepApart(s, chain, r, lsn, s', p);
      }
    }
    forall p | 0 <= p < |s'| ensures s'[p].level <= MAX_LEVEL {
      PageAfter(s, r, lsn, s', p);
    }
  }

  ghost predicate OrderlyRun(h: seq<Pages>, log: seq<Record>)
    requires |h| == |log| + 1
  {
    forall i :: 0 <= i < |log| ==> Orderly(h[i], log[i])
  }

  /** After every prefix of every disciplined, orderly run the file is one the
      undo pass can work on. */
  lemma {:induction false} EveryPrefixReady(h: seq<Pages>, chain: seq<PageId>, log: seq<Record>, k: nat)
    requires IsHistory(h, log) && DisciplinedRun(h, chain, log) && OrderlyRun(h, log) && k <= |log|
    requires OnlineReady(h[0], chain)
    ensures OnlineReady(h[k], ChainAfter(chain, log, k)) && Sane(h[k], k)
  {
    HistoryLsns(h, log, k);
    if k == 0 {
    } else {
      EveryPrefixReady(h, chain, log, k - 1);
      assert HistoryStep(h, log, k - 1) && DisciplinedAt(h, chain, log, k - 1) && Orderly(h[k - 1], log[k - 1]);
      hide OnlineReady;
      hide Disciplined;
      hide Appended;
      hide Orderly;
      StepReady(h[k - 1], ChainAfter(chain, log, k - 1), log[k - 1], k, h[k]);
    }
    SaneReady(h[k], ChainAfter(chain, log, k), k);
  }

  lemma SaneReady(s: Pages, chain: seq<PageId>, k: nat)
    requires OnlineReady(s, chain) && forall p :: 0 <= p < |s| ==> s[p].lsn <= k
    ensures Sane(s, k)
  {}

  /** Such a run gives redo's tracker only splits that are really pending. */
  lemma OrderlyKeepsFlags(h: seq<Pages>, log: seq<Record>)
    requires |h| == |log| + 1 && OrderlyRun(h, log)
    ensures FlagsKept(h, log)
  {
    forall i | 0 <= i < |log| ensures KeepsFlags(h[i], log[i]) {
      assert Orderly(h[i], log[i]);
    }
  }
}

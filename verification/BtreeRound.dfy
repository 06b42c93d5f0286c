/** One round of the undo pass: a split whose Commit was lost is finished
    (crates/pg-am-btree/src/index.rs, `finish_incomplete_split`). */
module BtreeRound {
  import opened Keys
  import opened Outcome
  import opened Sequences
  import opened BtreePages
  import opened BtreeLog
  import opened BtreeChain
  import opened BtreeContent
  import opened BtreeSearch
  import opened BtreeFinish
  import opened BtreeFinishContent
  import opened BtreeInner
  import opened BtreeScan
  import opened BtreeClr
  import opened BtreeFresh

  predicate Flagged(s: Pages, p: PageId)
  {
    0 < p < |s| && s[p].flags.splitIncomplete
  }

  /** The twin of a flagged page is another page of the same level. */
  ghost predicate Paired(s: Pages, p: PageId)
    requires p < |s|
  {
    0 < s[p].next < |s| && s[p].next != p && s[s[p].next].level == s[p].level
  }

  /** A promotion is published on the page the search answers, but for the right
      page itself. */
  ghost predicate PublishedOn(s: Pages, rec: Clr)
  {
    match MetaPage(s, rec.left)
    case None => false
    case Some(m) => rec.meta == if m == rec.right then INVALID else m
  }

  /** One finished split, from `s` over `s1`, the pages the cascade left, to
      `s'`. */
  ghost predicate FinishedBy(s: Pages, left: PageId, s1: Pages, rec: Clr, plan: Plan, lsn: Lsn, s': Pages)
  {
    && Flagged(s, left) && Paired(s, left) && Framed(s, s1) && Sane(s1, lsn)
    && rec.left == left && rec.right == s[left].next && rec.level == s[left].level
    && ClrWithinFile(rec, |s1|) && ClrDistinct(rec)
    && ChoosePlan(s[left], s[rec.right], rec.start) == Ok((plan, rec.separator))
    && (IsUnlink(rec) <==> plan.Unlink?) && (plan.Unlink? ==> s1 == s)
    && (plan.Unlink? || DownlinkPage(rec) != INVALID)
    && (rec.newRoot != INVALID ==>
          rec.newRoot == |s| && |s1| == |s| + 1 && s1[..|s|] == s && rec.level < MAX_LEVEL && PublishedOn(s, rec))
    && (s[left].flags.root && !plan.Unlink? ==> rec.newRoot != INVALID)
    && (rec.newRoot == INVALID && rec.parent != INVALID ==> !s1[rec.parent].flags.leaf)
    && (rec.meta != INVALID ==> s1[rec.meta].flags == Flags(false, false, false))
    && ApplyClr(s1, rec, lsn + 1) == Ok(s')
  }

  // ---- In any file ----

  /** Exactly the split of `left` is finished: every other flagged page stays
      flagged with the same twin, no page changes level or kind, no leaf but
      the two is touched. */
  ghost predicate RoundAt(s: Pages, left: PageId, s': Pages, p: PageId)
    requires left < |s| && p < |s| <= |s'|
  {
    && s'[p].level == s[p].level && s'[p].flags.leaf == s[p].flags.leaf && (s'[p].flags.root ==> s[p].flags.root)
    && (GoodGeometry(s[p]) ==> GoodGeometry(s'[p]))
    && s'[p].flags.splitIncomplete == (s[p].flags.splitIncomplete && p != left)
    && (s'[p].flags.splitIncomplete ==> s'[p].next == s[p].next)
    && (s[p].flags.leaf ==> s'[p].prev == s[p].prev)
    && (s[p].flags.leaf && p != left && p != s[left].next ==> s'[p] == s[p])
  }

  ghost predicate OnlyFinished(s: Pages, left: PageId, s': Pages)
  {
    && left < |s| <= |s'|
    && (forall p :: 0 <= p < |s| ==> RoundAt(s, left, s', p))
    && (forall p :: |s| <= p < |s'| ==> !s'[p].flags.splitIncomplete)
  }

  lemma FinishedAt(s: Pages, left: PageId, s1: Pages, rec: Clr, plan: Plan, lsn: Lsn, s': Pages, p: PageId)
    requires FinishedBy(s, left, s1, rec, plan, lsn, s') && ClrMoved(s1, rec, lsn + 1, s') && p < |s1|
    ensures |s'| == |s1| && |s| <= |s1|
    ensures p < |s| ==> RoundAt(s, left, s', p)
    ensures p >= |s| ==> !s'[p].flags.splitIncomplete
    ensures s'[p].lsn <= lsn + 1 && s'[p].level <= MAX_LEVEL
  {
    hide ApplyClr;
    hide GoodGeometry;
    hide ChoosePlan;
    assert p < |s| ==> FrameAt(s[p], s1[p]);
    assert FrameAt(s[left], s1[left]) && FrameAt(s[rec.right], s1[rec.right]);
  }

  lemma RoundFinishes(s: Pages, left: PageId, s1: Pages, rec: Clr, plan: Plan, lsn: Lsn, s': Pages)
    requires FinishedBy(s, left, s1, rec, plan, lsn, s')
    ensures OnlyFinished(s, left, s') && Sane(s', lsn + 1)
  {
    ClrMoves(s1, rec, lsn, s');
    assert |s| <= |s1| == |s'| && left < |s|;
    hide FinishedBy;
    hide ClrMoved;
    hide RoundAt;
    forall p | 0 <= p < |s'|
      ensures p < |s| ==> RoundAt(s, left, s', p)
      ensures p >= |s| ==> !s'[p].flags.splitIncomplete
      ensures s'[p].lsn <= lsn + 1 && s'[p].level <= MAX_LEVEL
    {
      FinishedAt(s, left, s1, rec, plan, lsn, s', p);
    }
  }

  // ---- The leaf chain, in any file ----

  /** A flagged page outside the chain has its twin outside too, unless it is a
      drained leaf that was unlinked from the chain. */
  ghost predicate Apart(s: Pages, chain: seq<PageId>)
  {
    forall p: PageId :: Flagged(s, p) && p !in chain && s[p].next in chain ==> Drained(s[p])
  }

  predicate Drained(page: Page)
  {
    page.entries == [] && !NeverHadEntries(page) && page.flags.leaf
  }

  /** What the undo pass needs of the file: a leaf chain in order, and every
      flagged page with its twin. */
  ghost predicate Ready(s: Pages, chain: seq<PageId>)
  {
    && |s| > 0 && !s[0].flags.splitIncomplete && SpineInv(s, chain) && Apart(s, chain)
    && forall p: PageId :: Flagged(s, p) ==> Paired(s, p)
  }

  lemma NotInChain(s: Pages, chain: seq<PageId>, p: PageId)
    requires Spine(s, chain) && (p == INVALID || p >= |s| || !s[p].flags.leaf)
    ensures p !in chain
  {
    forall i | 0 <= i < |chain| ensures chain[i] != p {
      assert NextAt(s, chain, i);
    }
  }

  lemma FramedLeaves(s: Pages, s1: Pages, chain: seq<PageId>)
    requires SpineInv(s, chain) && Framed(s, s1)
    ensures SpineInv(s1, chain) && Contents(s1, chain) == Contents(s, chain)
    ensures Hinted(s1, chain) <==> Hinted(s, chain)
    ensures forall i :: 0 <= i < |chain| ==> chain[i] < |s| && s1[chain[i]] == s[chain[i]]
  {
    hide Contents;
    hide TotalBytes;
    forall i | 0 <= i < |chain| ensures chain[i] < |s| && s1[chain[i]] == s[chain[i]] {
      assert NextAt(s, chain, i);
      assert FrameAt(s[chain[i]], s1[chain[i]]);
    }
    ElsewhereStep(s, s1, chain);
    if Hinted(s1, chain) {
      forall i | 0 <= i < |chain| ensures HintAt(s, chain, i) {
        assert HintAt(s1, chain, i);
      }
    }
  }

  /** A split of this chain. */
  lemma HereKeepsChain(s: Pages, left: PageId, s1: Pages, rec: Clr, plan: Plan, lsn: Lsn, s': Pages,
                       chain: seq<PageId>, k: nat)
    requires FinishedBy(s, left, s1, rec, plan, lsn, s') && SpineInv(s, chain) && k < |chain| && chain[k] == left
    ensures k + 1 < |chain| && s[left].next == chain[k + 1] && SpineInv(s', FinishedChain(chain, k, plan))
    ensures Contents(s', FinishedChain(chain, k, plan)) == Contents(s, chain)
    ensures Hinted(s, chain) ==>
              (Hinted(s', FinishedChain(chain, k, plan)) <==> (plan.Unlink? ==> Unnamed(s, chain, k)))
  {
    hide Contents;
    hide TotalBytes;
    hide ApplyClr;
    hide NextAt;
    assert TwinAt(s, chain, k);
    InFile(s, chain, k);
    InFile(s, chain, k + 1);
    FramedLeaves(s, s1, chain);
    assert Finishes(s1, chain, k, rec, plan) by {
      NotInChain(if rec.newRoot != INVALID then s else s1, chain, DownlinkPage(rec));
      NotInChain(s1, chain, rec.meta);
    }
    assert plan.Unlink? ==> (Unnamed(s1, chain, k) <==> Unnamed(s, chain, k));
    hide FinishedBy;
    FinishKeepsContents(s1, chain, k, rec, plan, lsn + 1, s');
  }

  lemma DrainedHalves(left: Page, right: Page, rec: Clr, lsn: Lsn)
    requires left.entries == [] && left.lsn < lsn && right.lsn < lsn && ClrHalves(left, right, rec, lsn).Ok?
    ensures ClrHalves(left, right, rec, lsn).value.1 == right.(lsn := lsn)
  {}

  /** A split elsewhere: of internal pages, of another chain, or of a leaf that
      was unlinked. */
  lemma ElsewhereKeepsChain(s: Pages, left: PageId, s1: Pages, rec: Clr, plan: Plan, lsn: Lsn, s': Pages,
                            chain: seq<PageId>)
    requires FinishedBy(s, left, s1, rec, plan, lsn, s') && Ready(s, chain) && left !in chain
    ensures SpineInv(s', chain) && Contents(s', chain) == Contents(s, chain)
    ensures Hinted(s, chain) ==> Hinted(s', chain)
  {
    hide Contents;
    hide TotalBytes;
    RoundFinishes(s, left, s1, rec, plan, lsn, s');
    if rec.right in chain {
      var k := IndexOf(chain, rec.right);
      OrphanStamps(s, left, s1, rec, plan, lsn, s', chain);
      forall i | 0 <= i < |chain| && i != k && chain[i] < |s| ensures s'[chain[i]] == s[chain[i]] {
        assert NextAt(s, chain, i) && RoundAt(s, left, s', chain[i]);
      }
      assert NextAt(s, chain, k);
      hide FinishedBy;
      QuietStep(s, s', chain, k);
    } else {
      forall i | 0 <= i < |chain| && chain[i] < |s| ensures s'[chain[i]] == s[chain[i]] {
        assert NextAt(s, chain, i) && RoundAt(s, left, s', chain[i]);
      }
      hide FinishedBy;
      ElsewhereStep(s, s', chain);
    }
  }

  lemma OrphanStamps(s: Pages, left: PageId, s1: Pages, rec: Clr, plan: Plan, lsn: Lsn, s': Pages, chain: seq<PageId>)
    requires FinishedBy(s, left, s1, rec, plan, lsn, s') && Ready(s, chain) && left !in chain && rec.right in chain
    ensures rec.right < |s| <= |s'| && s'[rec.right] == s[rec.right].(lsn := s'[rec.right].lsn)
  {
    hide Contents;
    hide ClrHalves;
    hide ApplyClr;
    hide ChoosePlan;
    assert Drained(s[left]);
    assert NextAt(s, chain, IndexOf(chain, rec.right));
    assert FrameAt(s[left], s1[left]) && FrameAt(s[rec.right], s1[rec.right]);
    ClrByPage(s1, rec, lsn + 1, s');
    DrainedHalves(s1[left], s1[rec.right], rec, lsn + 1);
  }

  /** What the chain is after the round. */
  ghost function ChainAfterRound(chain: seq<PageId>, left: PageId, plan: Plan): seq<PageId>
  {
    if left in chain && IndexOf(chain, left) + 1 < |chain| then FinishedChain(chain, IndexOf(chain, left), plan) else chain
  }

  /** Whether the round takes a page out of the chain that some leaf names as its
      left neighbour. */
  ghost predicate DropsNamed(s: Pages, chain: seq<PageId>, left: PageId, plan: Plan)
  {
    plan.Unlink? && left in chain && IndexOf(chain, left) + 1 < |chain| && !Unnamed(s, chain, IndexOf(chain, left))
  }

  /** One round keeps the chain, whatever the file looks like otherwise. */
  lemma RoundKeepsChain(s: Pages, left: PageId, s1: Pages, rec: Clr, plan: Plan, lsn: Lsn, s': Pages,
                        chain: seq<PageId>)
    requires FinishedBy(s, left, s1, rec, plan, lsn, s') && Ready(s, chain)
    ensures Ready(s', ChainAfterRound(chain, left, plan))
    ensures Contents(s', ChainAfterRound(chain, left, plan)) == Contents(s, chain)
    ensures Hinted(s, chain) ==> (Hinted(s', ChainAfterRound(chain, left, plan)) <==> !DropsNamed(s, chain, left, plan))
  {
    hide Contents;
    hide SpineInv;
    hide Hinted;
    hide Unnamed;
    var chain' := ChainAfterRound(chain, left, plan);
    RoundFinishes(s, left, s1, rec, plan, lsn, s');
    if left in chain {
      HereKeepsChain(s, left, s1, rec, plan, lsn, s', chain, IndexOf(chain, left));
    } else {
      ElsewhereKeepsChain(s, left, s1, rec, plan, lsn, s', chain);
    }
    RoundKeepsPairs(s, left, s', chain);
    forall p: PageId | Flagged(s', p) && p !in chain' && s'[p].next in chain' ensures Drained(s'[p]) {
      RoundKeepsApart(s, left, s1, rec, plan, lsn, s', chain, p);
    }
  }

  lemma RoundKeepsPairs(s: Pages, left: PageId, s': Pages, chain: seq<PageId>)
    requires Ready(s, chain) && OnlyFinished(s, left, s')
    ensures |s'| > 0 && !s'[0].flags.splitIncomplete
    ensures forall p: PageId :: Flagged(s', p) ==> Flagged(s, p) && p != left && Paired(s', p)
  {
    hide SpineInv;
    assert RoundAt(s, left, s', 0);
    forall p: PageId | Flagged(s', p) ensures Flagged(s, p) && p != left && Paired(s', p) {
      assert p < |s| && RoundAt(s, left, s', p);
      assert Flagged(s, p) && Paired(s, p) && RoundAt(s, left, s', s[p].next);
    }
  }

  lemma RoundKeepsApart(s: Pages, left: PageId, s1: Pages, rec: Clr, plan: Plan, lsn: Lsn, s': Pages,
                        chain: seq<PageId>, p: PageId)
    requires FinishedBy(s, left, s1, rec, plan, lsn, s') && Ready(s, chain) && OnlyFinished(s, left, s')
    requires Flagged(s', p) && p < |s'| && p !in ChainAfterRound(chain, left, plan)
    requires s'[p].next in ChainAfterRound(chain, left, plan)
    ensures Drained(s'[p])
  {
    hide SpineInv;
    hide ApplyClr;
    hide FrameAt;
    assert p < |s| && RoundAt(s, left, s', p) && Flagged(s, p) && p != left;
    ShorterChain(chain, left, plan);
    if p !in chain {
      assert Drained(s[p]);
      if p == rec.right {
        SameRight(s, left, s1, rec, plan, lsn, s');
      }
    } else {
      DroppedTwin(s, chain, left, plan, p);
      SameRight(s, left, s1, rec, plan, lsn, s');
    }
  }

  lemma ShorterChain(chain: seq<PageId>, left: PageId, plan: Plan)
    ensures forall p :: p in ChainAfterRound(chain, left, plan) ==> p in chain
  {}

  lemma CutMember(chain: seq<PageId>, k: nat, p: PageId)
    requires k + 1 < |chain| && p in chain
    ensures p in FinishedChain(chain, k, Unlink) || p == chain[k + 1]
  {
    assert chain == chain[..k + 1] + [chain[k + 1]] + chain[k + 2..];
  }

  lemma DroppedTwin(s: Pages, chain: seq<PageId>, left: PageId, plan: Plan, p: PageId)
    requires SpineInv(s, chain) && p in chain && p !in ChainAfterRound(chain, left, plan)
    ensures left in chain && plan.Unlink? && left < |s| && p == s[left].next
    ensures p < |s| && s[p].flags.leaf
  {
    hide Contents;
    var k := IndexOf(chain, left);
    CutMember(chain, k, p);
    assert NextAt(s, chain, k) && NextAt(s, chain, k + 1);
  }

  /** A drained right page is only stamped. */
  lemma SameRight(s: Pages, left: PageId, s1: Pages, rec: Clr, plan: Plan, lsn: Lsn, s': Pages)
    requires FinishedBy(s, left, s1, rec, plan, lsn, s')
    requires plan.Unlink? || Drained(s[rec.right])
    ensures rec.right < |s| <= |s'|
    ensures plan.Unlink? ==> s[rec.right].entries == [] && !NeverHadEntries(s[rec.right])
    ensures s'[rec.right] == s1[rec.right].(lsn := s'[rec.right].lsn) && (s[rec.right].flags.leaf ==> s1[rec.right] == s[rec.right])
  {
    hide ApplyClr;
    assert FrameAt(s[rec.right], s1[rec.right]) && FrameAt(s[left], s1[left]);
    ClrByPage(s1, rec, lsn + 1, s');
  }
}

/** The walks along the leaf chain (crates/pg-am-btree/src/index.rs).

    A probe may enter the chain at any leaf; separators only choose where. The
    walk counts its hops and gives up past MAX_CHAIN_HOPS. */
module BtreeWalk {
  import opened Keys
  import opened Outcome
  import opened Sequences
  import opened BtreePages
  import opened BtreeLog
  import opened BtreeChain
  import opened BtreeSearch

  const MAX_CHAIN_HOPS := 65536

  /** `pin` and the geometry check every reader makes. */
  predicate Readable(s: Pages, p: PageId)
  {
    p < |s| && GoodGeometry(s[p])
  }

  predicate AtOrBelow(e: Entry, probe: Entry) { !EntryLess(probe, e) }

  /** Skip through empty pages: the first non-empty page from `next` on, or
      INVALID at the end of the chain. */
  function SkipEmpty(s: Pages, next: PageId, hops: nat): (r: Result<(PageId, nat)>)
    ensures r.Ok? ==> hops <= r.value.1
    ensures r.Err? ==> r.error == Corrupted
    ensures r.Ok? && r.value.0 != INVALID ==> Readable(s, r.value.0) && s[r.value.0].entries != []
    decreases MAX_CHAIN_HOPS - hops
  {
    if next == INVALID then Ok((INVALID, hops))
    else if !Readable(s, next) then Err(Corrupted)
    else if s[next].entries != [] then Ok((next, hops))
    else if hops + 1 > MAX_CHAIN_HOPS then Err(Corrupted)
    else SkipEmpty(s, s[next].next, hops + 1)
  }

  /** The page owns nothing at or below the probe. */
  predicate Dominated(page: Page, probe: Entry)
  {
    page.entries == [] || EntryLess(probe, page.entries[0])
  }

  /** `walk_to_position_guard` on the leaf level in locate mode. */
  function Locate(s: Pages, cur: PageId, probe: Entry, hops: nat): Result<PageId>
    decreases MAX_CHAIN_HOPS - hops
  {
    if !Readable(s, cur) then Err(Corrupted)
    else
      var moved := Dominated(s[cur], probe) && s[cur].prev != INVALID;
      var at := if moved then s[cur].prev else cur;
      if !Readable(s, at) then Err(Corrupted)
      else
        var (right, h) :- SkipEmpty(s, s[at].next, if moved then hops + 1 else hops);
        if right != INVALID && AtOrBelow(s[right].entries[0], probe) then
          if h + 1 > MAX_CHAIN_HOPS then Err(Corrupted) else Locate(s, right, probe, h + 1)
        else if !moved then Ok(cur)
        else if h > MAX_CHAIN_HOPS then Err(Corrupted) else Locate(s, at, probe, h)
  }

  /** `pin_leaf_for_write`: the same walk under write latches. A left hop is
      followed by another look to the left, not by a right scan. */
  function LocateForWrite(s: Pages, cur: PageId, probe: Entry, hops: nat): Result<PageId>
    decreases MAX_CHAIN_HOPS - hops
  {
    if !Readable(s, cur) then Err(Corrupted)
    else if Dominated(s[cur], probe) && s[cur].prev != INVALID then
      if hops + 1 > MAX_CHAIN_HOPS then Err(Corrupted) else LocateForWrite(s, s[cur].prev, probe, hops + 1)
    else
      var (right, h) :- SkipEmpty(s, s[cur].next, hops);
      if right != INVALID && AtOrBelow(s[right].entries[0], probe) then
        if h + 1 > MAX_CHAIN_HOPS then Err(Corrupted) else LocateForWrite(s, right, probe, h + 1)
      else Ok(cur)
  }

  // ---- The walk on a chain, by index ----

  function LeafAt(chain: seq<PageId>, i: nat): PageId
  {
    if i < |chain| then chain[i] else INVALID
  }

  /** The first non-empty leaf at or right of `i`. */
  function NextNonEmpty(s: Pages, chain: seq<PageId>, i: nat): (m: nat)
    requires i <= |chain|
    ensures i <= m <= |chain|
    ensures forall j :: i <= j < m ==> EntriesOf(s, chain[j]) == []
    ensures m < |chain| ==> EntriesOf(s, chain[m]) != []
    decreases |chain| - i
  {
    if i == |chain| || EntriesOf(s, chain[i]) != [] then i else NextNonEmpty(s, chain, i + 1)
  }

  /** Skipping costs one hop per empty leaf and fails only on the bound. */
  lemma {:induction false} SkipOnChain(s: Pages, chain: seq<PageId>, i: nat, hops: nat)
    requires IsChain(s, chain) && i <= |chain|
    ensures var m := NextNonEmpty(s, chain, i);
            SkipEmpty(s, LeafAt(chain, i), hops)
            == if m > i && hops + (m - i) > MAX_CHAIN_HOPS then Err(Corrupted)
               else Ok((LeafAt(chain, m), hops + (m - i)))
    decreases |chain| - i
  {
    if i >= |chain| {
    } else {
      assert LinkedAt(s, chain, i);
      if s[chain[i]].entries == [] && hops + 1 <= MAX_CHAIN_HOPS {
        SkipOnChain(s, chain, i + 1, hops + 1);
      }
    }
  }

  /** Leaf `k` is where the probe belongs: the rightmost non-empty leaf whose
      first entry is at or below it, or the chain head when there is none. */
  ghost predicate Owner(s: Pages, chain: seq<PageId>, k: nat, probe: Entry)
  {
    && k < |chain|
    && (k == 0 || !DominatedAt(s, chain, k, probe))
    && forall j :: k < j < |chain| ==> DominatedAt(s, chain, j, probe)
  }

  ghost predicate DominatedAt(s: Pages, chain: seq<PageId>, i: nat, probe: Entry)
    requires i < |chain|
  {
    EntriesOf(s, chain[i]) == [] || EntryLess(probe, EntriesOf(s, chain[i])[0])
  }

  /** Two entries of different leaves are ordered like their leaves. */
  lemma AcrossLeaves(s: Pages, chain: seq<PageId>, i: nat, a: nat, j: nat, b: nat)
    requires Sorted(Contents(s, chain)) && i < j < |chain|
    requires a < |EntriesOf(s, chain[i])| && b < |EntriesOf(s, chain[j])|
    ensures EntryLess(EntriesOf(s, chain[i])[a], EntriesOf(s, chain[j])[b])
  {
    hide Contents;
    EntryAt(s, chain, i, a);
    EntryAt(s, chain, j, b);
    PositionsAscend(s, chain, i, j);
  }

  lemma EntryAt(s: Pages, chain: seq<PageId>, i: nat, a: nat)
    requires i < |chain| && a < |EntriesOf(s, chain[i])|
    ensures Position(s, chain, i, a) < |Contents(s, chain)|
    ensures Contents(s, chain)[Position(s, chain, i, a)] == EntriesOf(s, chain[i])[a]
  {
    ContentsAt(s, chain, i);
    hide Contents;
  }

  lemma PositionsAscend(s: Pages, chain: seq<PageId>, i: nat, j: nat)
    requires i < j < |chain|
    ensures Position(s, chain, i, |EntriesOf(s, chain[i])|) <= Position(s, chain, j, 0)
  {
    ContentsAt(s, chain[..j], i);
    assert chain[..j][..i] == chain[..i];
    hide Contents;
  }

  /** Once one leaf starts above the probe, so does every non-empty leaf right
      of it. */
  lemma DominationSpreads(s: Pages, chain: seq<PageId>, i: nat, j: nat, probe: Entry)
    requires Sorted(Contents(s, chain)) && i < j < |chain|
    requires EntriesOf(s, chain[i]) != [] && DominatedAt(s, chain, i, probe)
    ensures DominatedAt(s, chain, j, probe)
  {
    hide Contents;
    if EntriesOf(s, chain[j]) != [] {
      AcrossLeaves(s, chain, i, 0, j, 0);
      EntryTransitive(probe, EntriesOf(s, chain[i])[0], EntriesOf(s, chain[j])[0]);
    }
  }

  /** Where a locate walk goes from leaf `i`, without counting hops. */
  ghost function Left(s: Pages, chain: seq<PageId>, i: nat, probe: Entry): (j: nat)
    requires IsChain(s, chain) && i < |chain|
    ensures j <= i && (DominatedAt(s, chain, i, probe) && i > 0 ==> j < i && chain[j] == s[chain[i]].prev)
    ensures !(DominatedAt(s, chain, i, probe) && i > 0) ==> j == i
  {
    assert LinkedAt(s, chain, i);
    if DominatedAt(s, chain, i, probe) && i > 0 then
      var j :| 0 <= j < i && chain[j] == s[chain[i]].prev; j
    else i
  }

  /** Nothing right of `i` owns the probe, given that the next non-empty leaf
      does not. */
  lemma NothingRight(s: Pages, chain: seq<PageId>, i: nat, probe: Entry)
    requires IsChain(s, chain) && Sorted(Contents(s, chain)) && i < |chain|
    requires var m := NextNonEmpty(s, chain, i + 1); m < |chain| ==> DominatedAt(s, chain, m, probe)
    ensures forall j :: i < j < |chain| ==> DominatedAt(s, chain, j, probe)
  {
    hide Contents;
    var m := NextNonEmpty(s, chain, i + 1);
    forall j | m < j < |chain| ensures DominatedAt(s, chain, j, probe) {
      DominationSpreads(s, chain, m, j, probe);
    }
  }

  lemma LeafLinks(s: Pages, chain: seq<PageId>, i: nat)
    requires IsChain(s, chain) && i < |chain|
    ensures 0 < chain[i] && Readable(s, chain[i]) && s[chain[i]].next == LeafAt(chain, i + 1)
    ensures i == 0 <==> s[chain[i]].prev == INVALID
  {
    assert LinkedAt(s, chain, i);
    if i > 0 {
      var j :| 0 <= j < i && chain[j] == s[chain[i]].prev;
      assert LinkedAt(s, chain, j);
    }
  }

  /** One turn of the locate walk, by index. */
  ghost function LocateTurn(s: Pages, chain: seq<PageId>, i: nat, probe: Entry, hops: nat): Result<PageId>
    requires IsChain(s, chain) && i < |chain|
  {
    var j := Left(s, chain, i, probe);
    var m := NextNonEmpty(s, chain, j + 1);
    var h := hops + (if j < i then 1 else 0) + (m - j - 1);
    if m > j + 1 && h > MAX_CHAIN_HOPS then Err(Corrupted)
    else if m < |chain| && !DominatedAt(s, chain, m, probe) then
      if h + 1 > MAX_CHAIN_HOPS then Err(Corrupted) else Locate(s, chain[m], probe, h + 1)
    else if j == i then Ok(chain[i])
    else if h > MAX_CHAIN_HOPS then Err(Corrupted) else Locate(s, chain[j], probe, h)
  }

  lemma LocateUnfolds(s: Pages, chain: seq<PageId>, i: nat, probe: Entry, hops: nat)
    requires IsChain(s, chain) && i < |chain|
    ensures Locate(s, chain[i], probe, hops) == LocateTurn(s, chain, i, probe, hops)
  {
    hide SkipEmpty;
    hide NextNonEmpty;
    hide IsChain;
    var j := Left(s, chain, i, probe);
    var m := NextNonEmpty(s, chain, j + 1);
    LeafLinks(s, chain, i);
    LeafLinks(s, chain, j);
    if m < |chain| {
      LeafLinks(s, chain, m);
    }
    SkipOnChain(s, chain, j + 1, if j < i then hops + 1 else hops);
  }

  /** The locate walk, from any leaf, with any separators above: an `Ok`
      result is the owner. */
  lemma {:induction false} LocateSound(s: Pages, chain: seq<PageId>, i: nat, probe: Entry, hops: nat) returns (k: nat)
    requires IsChain(s, chain) && Sorted(Contents(s, chain)) && i < |chain|
    requires Locate(s, chain[i], probe, hops).Ok?
    ensures Owner(s, chain, k, probe) && Locate(s, chain[i], probe, hops) == Ok(chain[k])
    decreases MAX_CHAIN_HOPS - hops
  {
    hide Contents;
    hide Locate;
    hide IsChain;
    LocateUnfolds(s, chain, i, probe, hops);
    var j := Left(s, chain, i, probe);
    var m := NextNonEmpty(s, chain, j + 1);
    var h := hops + (if j < i then 1 else 0) + (m - j - 1);
    if m < |chain| && !DominatedAt(s, chain, m, probe) {
      k := LocateSound(s, chain, m, probe, h + 1);
    } else if j < i {
      k := LocateSound(s, chain, j, probe, h);
    } else {
      k := i;
      NothingRight(s, chain, i, probe);
    }
  }

  /** Hops a locate walk may need from leaf `i`: once a leaf is at or below
      the probe every further leaf costs one hop; before that, every left hop
      may rescan the whole chain. */
  ghost function LocateBudget(s: Pages, chain: seq<PageId>, i: nat, probe: Entry): nat
    requires i < |chain|
  {
    if DominatedAt(s, chain, i, probe) then Rescans(i, |chain|) + |chain| else |chain| - i
  }

  /** One rescan of `n` leaves per leaf up to `i`. */
  function Rescans(i: nat, n: nat): nat
  {
    if i == 0 then n + 1 else Rescans(i - 1, n) + n + 1
  }

  lemma {:induction false} RescansClosed(i: nat, n: nat)
    ensures Rescans(i, n) == (i + 1) * (n + 1)
  {
    if i == 0 {
    } else {
      RescansClosed(i - 1, n);
    }
  }

  lemma {:induction false} RescansStep(j: nat, i: nat, n: nat)
    requires j < i
    ensures Rescans(i, n) >= Rescans(j, n) + n + 1
  {
    if j >= i - 1 {
    } else {
      RescansStep(j, i - 1, n);
    }
  }

  /** Termination with an answer: the walk fails only when the budget, at most
      `n * (n + 2)` for `n` leaves, exceeds the hop bound. */
  lemma {:induction false} LocateFinishes(s: Pages, chain: seq<PageId>, i: nat, probe: Entry, hops: nat)
    requires IsChain(s, chain) && Sorted(Contents(s, chain)) && i < |chain|
    requires hops + LocateBudget(s, chain, i, probe) <= MAX_CHAIN_HOPS
    ensures Locate(s, chain[i], probe, hops).Ok?
    decreases MAX_CHAIN_HOPS - hops
  {
    hide Contents;
    hide Locate;
    hide IsChain;
    hide Sorted;
    LocateUnfolds(s, chain, i, probe, hops);
    var j := Left(s, chain, i, probe);
    var m := NextNonEmpty(s, chain, j + 1);
    var h := hops + (if j < i then 1 else 0) + (m - j - 1);
    assert Rescans(i, |chain|) >= |chain| + 1;
    if m < |chain| && !DominatedAt(s, chain, m, probe) {
      LocateFinishes(s, chain, m, probe, h + 1);
    } else if j < i {
      RescansStep(j, i, |chain|);
      LocateFinishes(s, chain, j, probe, h);
    }
  }

  /** In the number of leaves alone: `n * (n + 2)` hops are always enough. */
  lemma LocateWithin(s: Pages, chain: seq<PageId>, i: nat, probe: Entry)
    requires IsChain(s, chain) && Sorted(Contents(s, chain)) && i < |chain|
    requires |chain| * (|chain| + 2) <= MAX_CHAIN_HOPS
    ensures Locate(s, chain[i], probe, 0).Ok?
  {
    hide Contents;
    hide Locate;
    hide IsChain;
    var n := |chain|;
    RescansClosed(n - 1, n);
    if i < n - 1 {
      RescansStep(i, n - 1, n);
    }
    assert Rescans(i, n) + n <= n * (n + 1) + n == n * (n + 2);
    LocateFinishes(s, chain, i, probe, 0);
  }

  // ---- The hop bound is not only a cycle guard ----

  /** Every leaf but the head was drained by deletes. */
  ghost predicate DrainedTail(s: Pages, chain: seq<PageId>)
  {
    && IsChain(s, chain)
    && forall i :: 1 <= i < |chain| ==> EntriesOf(s, chain[i]) == [] && DirectPrev(s, chain, i)
  }

  ghost predicate DirectPrev(s: Pages, chain: seq<PageId>, i: nat)
    requires 1 <= i < |chain|
  {
    chain[i] < |s| && s[chain[i]].prev == chain[i - 1]
  }

  /** Hops from leaf `i` of such a chain: each left hop rescans every drained
      leaf already passed. */
  function DrainedCost(i: nat, n: nat): nat
    requires i < n
  {
    if i == 0 then n - 1 else DrainedCost(i - 1, n) + 1 + (n - i)
  }

  /** One more leaf costs one more hop in every turn. */
  lemma {:induction false} DrainedCostGrows(i: nat, n: nat)
    requires i < n
    ensures DrainedCost(i, n + 1) == DrainedCost(i, n) + 1 + i
  {
    if i == 0 {
    } else {
      DrainedCostGrows(i - 1, n);
    }
  }

  lemma {:induction false} DrainedCostClosed(n: nat)
    requires n >= 1
    ensures 2 * DrainedCost(n - 1, n) == n * n + 3 * n - 4
  {
    if n <= 1 {
    } else {
      DrainedCostClosed(n - 1);
      DrainedCostGrows(n - 2, n - 1);
      NextSquare(n - 1);
    }
  }

  lemma NextSquare(n: nat)
    ensures (n + 1) * (n + 1) == n * n + 2 * n + 1
  {}

  lemma SquareMonotone(a: nat, b: nat)
    requires a <= b
    ensures a * a <= b * b
  {}

  lemma DrainedTurn(s: Pages, chain: seq<PageId>, i: nat, probe: Entry)
    requires DrainedTail(s, chain) && i < |chain|
    ensures Left(s, chain, i, probe) == if i == 0 then 0 else i - 1
    ensures NextNonEmpty(s, chain, Left(s, chain, i, probe) + 1) == |chain|
  {
    hide NextAt;
    hide HintAt;
    hide Left;
    var j := Left(s, chain, i, probe);
    if i > 0 {
      assert DirectPrev(s, chain, i);
      assert j == i - 1 by {
        assert chain[j] == chain[i - 1];
      }
    }
    var m := NextNonEmpty(s, chain, j + 1);
  }

  lemma {:induction false} DrainedLocate(s: Pages, chain: seq<PageId>, i: nat, probe: Entry, hops: nat)
    requires DrainedTail(s, chain) && i < |chain| && hops <= MAX_CHAIN_HOPS
    ensures Locate(s, chain[i], probe, hops).Ok? <==> hops + DrainedCost(i, |chain|) <= MAX_CHAIN_HOPS
    decreases i
  {
    hide Locate;
    hide DirectPrev;
    hide Spine;
    hide Hinted;
    hide Left;
    LocateUnfolds(s, chain, i, probe, hops);
    DrainedTurn(s, chain, i, probe);
    if i == 0 {
    } else {
      if hops + 1 + (|chain| - i) <= MAX_CHAIN_HOPS {
        DrainedLocate(s, chain, i - 1, probe, hops + 1 + (|chain| - i));
      }
    }
  }

  /** A lookup that enters such a chain at its last leaf is answered exactly
      when at most 359 leaves were drained; past that it reports corruption on
      a sound chain. */
  lemma DrainedTailRefusedIff(s: Pages, chain: seq<PageId>, probe: Entry)
    requires DrainedTail(s, chain) && |chain| > 0
    ensures Locate(s, chain[|chain| - 1], probe, 0).Ok? <==> |chain| <= 360
  {
    hide DrainedTail;
    hide Locate;
    var n := |chain|;
    DrainedLocate(s, chain, n - 1, probe, 0);
    DrainedCostClosed(n);
    hide DrainedCost;
    if n <= 360 {
      SquareMonotone(n, 360);
    } else {
      SquareMonotone(361, n);
    }
  }

  /** A sound chain of `n` leaves with everything right of the head drained. */
  function DrainedPages(n: nat): Pages
    requires n >= 1
  {
    seq(n + 1, i requires 0 <= i <= n => DrainedPage(n, i))
  }

  function DrainedPage(n: nat, i: nat): Page
    requires i <= n
  {
    if i == 0 then ZERO_PAGE
    else InitPage(0, Flags(true, false, false)).(
           prev := i - 1, next := if i < n then i + 1 else INVALID, upper := PD_SPECIAL - 11)
  }

  function DrainedChain(n: nat): (chain: seq<PageId>)
    ensures |chain| == n
  {
    seq(n, i => i + 1)
  }

  lemma DrainedLink(n: nat, i: nat)
    requires n >= 1 && i < n
    ensures var s, chain := DrainedPages(n), DrainedChain(n);
            && NextAt(s, chain, i) && HintAt(s, chain, i) && TwinAt(s, chain, i)
            && EntriesOf(s, chain[i]) == [] && (i > 0 ==> DirectPrev(s, chain, i))
  {
    var chain := DrainedChain(n);
    assert DrainedPages(n)[i + 1] == DrainedPage(n, i + 1);
    assert i > 0 ==> chain[..i][i - 1] == i;
  }

  lemma DrainedDistinct(n: nat)
    ensures forall i, j :: 0 <= i < j < n ==> DrainedChain(n)[i] != DrainedChain(n)[j]
  {}

  lemma DrainedPagesSound(n: nat)
    requires n >= 1
    ensures DrainedTail(DrainedPages(n), DrainedChain(n)) && TreeInv(DrainedPages(n), DrainedChain(n))
  {
    hide NextAt;
    hide HintAt;
    hide TwinAt;
    hide DirectPrev;
    hide DrainedPages;
    hide DrainedChain;
    hide Contents;
    hide EntriesOf;
    var s, chain := DrainedPages(n), DrainedChain(n);
    DrainedDistinct(n);
    forall i | 0 <= i < n
      ensures NextAt(s, chain, i) && HintAt(s, chain, i) && TwinAt(s, chain, i)
      ensures EntriesOf(s, chain[i]) == [] && (i > 0 ==> DirectPrev(s, chain, i))
    {
      DrainedLink(n, i);
    }
    NoContents(s, chain);
  }

  lemma {:induction false} NoContents(s: Pages, chain: seq<PageId>)
    requires forall i :: 0 <= i < |chain| ==> EntriesOf(s, chain[i]) == []
    ensures Contents(s, chain) == []
  {
    if chain == [] {
    } else {
      NoContents(s, chain[1..]);
    }
  }
}

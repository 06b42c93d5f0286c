/** Where an insert lands (crates/pg-am-btree/src/index.rs,
    `pin_leaf_for_insert` and `nearest_nonempty_left`), each insert taken as
    one atomic step. */
module BtreePlacement {
  import opened Keys
  import opened Outcome
  import opened Sequences
  import opened BtreePages
  import opened BtreeLog
  import opened BtreeChain
  import opened BtreeSearch
  import opened BtreeWalk
  import opened BtreeReads

  /** The loop of `nearest_nonempty_left`: walk right to `target`, remembering
      the last non-empty page. */
  function WalkBack(s: Pages, at: PageId, target: PageId, found: PageId, hops: nat): (r: Result<PageId>)
    ensures r.Err? ==> r.error == Corrupted
    decreases MAX_CHAIN_HOPS - hops
  {
    if !Readable(s, at) then Err(Corrupted)
    else
      var found' := if s[at].entries != [] then at else found;
      if s[at].next == target then Ok(found')
      else if s[at].next == INVALID || hops + 1 > MAX_CHAIN_HOPS then Err(Corrupted)
      else WalkBack(s, s[at].next, target, found', hops + 1)
  }

  /** `nearest_nonempty_left`: starts at the `prev` hint. INVALID is `None`. */
  function NearestLeft(s: Pages, page: PageId): Result<PageId>
  {
    if !Readable(s, page) then Err(Corrupted)
    else if s[page].prev == INVALID then Ok(INVALID)
    else WalkBack(s, s[page].prev, page, INVALID, 0)
  }

  /** Re-walking from the left neighbour to the landing page, one hop each. */
  function Cross(s: Pages, w: PageId, target: PageId, hops: nat): (r: Result<nat>)
    ensures if r.Ok? then r.value >= hops else r.error == Corrupted
    decreases MAX_CHAIN_HOPS - hops
  {
    if w == target then Ok(hops)
    else if !Readable(s, w) || hops + 1 > MAX_CHAIN_HOPS then Err(Corrupted)
    else Cross(s, s[w].next, target, hops + 1)
  }

  /** `pin_leaf_for_insert`: the landing leaf and slot. */
  function Place(s: Pages, cur: PageId, e: Entry, hops: nat): (r: Result<(PageId, nat)>)
    ensures r.Err? ==> r.error == Corrupted || r.error == DuplicateKey
    decreases MAX_CHAIN_HOPS - hops
  {
    if !Readable(s, cur) then Err(Corrupted)
    else
      var (right, h) :- SkipEmpty(s, s[cur].next, hops);
      if right != INVALID && AtOrBelow(s[right].entries[0], e) then
        if h + 1 > MAX_CHAIN_HOPS then Err(Corrupted) else Place(s, right, e, h + 1)
      else
        var pos := LowerBound(s[cur].entries, e);
        if pos < |s[cur].entries| && s[cur].entries[pos] == e then Err(DuplicateKey)
        else if pos > 0 then Ok((cur, pos))
        else PlaceAtEdge(s, cur, e, hops, h)
  }

  /** A slot-0 landing: the last entry of the nearest non-empty left page
      decides. */
  function PlaceAtEdge(s: Pages, cur: PageId, e: Entry, hops: nat, h: nat): (r: Result<(PageId, nat)>)
    requires hops <= h && Readable(s, cur)
    ensures r.Err? ==> r.error == Corrupted || r.error == DuplicateKey
    decreases MAX_CHAIN_HOPS - hops, 0
  {
    var left :- NearestLeft(s, cur);
    if left == INVALID then
      var _ :- SkipEmpty(s, s[cur].next, h);
      Ok((cur, 0))
    else if !Readable(s, left) || s[left].entries == [] then Err(Corrupted)
    else
      var h' :- Cross(s, s[left].next, cur, h);
      if !EntryLess(e, LastOf(s[left])) then Ok((cur, 0))
      else if h' + 1 > MAX_CHAIN_HOPS then Err(Corrupted)
      else Place(s, left, e, h' + 1)
  }

  // ---- By index ----

  /** The leaf the `prev` hint of leaf `i` names. */
  ghost function PrevIndex(s: Pages, chain: seq<PageId>, i: nat): (j: nat)
    requires IsChain(s, chain) && 0 < i < |chain|
    ensures j < i && chain[i] < |s| && chain[j] == s[chain[i]].prev
  {
    assert LinkedAt(s, chain, i);
    var j :| 0 <= j < i && chain[j] == s[chain[i]].prev; j
  }

  /** The last non-empty leaf in `[lo, i)`, or `lo - 1`. */
  function LastBefore(s: Pages, chain: seq<PageId>, lo: nat, i: nat): (l: int)
    requires lo <= i <= |chain|
    ensures lo - 1 <= l < i
    ensures l >= lo ==> EntriesOf(s, chain[l]) != []
    ensures forall j :: l < j < i && lo <= j ==> EntriesOf(s, chain[j]) == []
    decreases i
  {
    if i == lo then lo - 1
    else if EntriesOf(s, chain[i - 1]) != [] then i - 1
    else LastBefore(s, chain, lo, i - 1)
  }

  lemma {:induction false} WalkBackOnChain(s: Pages, chain: seq<PageId>, j: nat, i: nat, found: PageId, hops: nat)
    requires IsChain(s, chain) && j < i < |chain|
    ensures var l := LastBefore(s, chain, j, i);
            WalkBack(s, chain[j], chain[i], found, hops)
            == if i - j - 1 > 0 && hops + (i - j - 1) > MAX_CHAIN_HOPS then Err(Corrupted)
               else Ok(if l >= j then chain[l] else found)
    decreases i - j
  {
    assert LinkedAt(s, chain, j) && LinkedAt(s, chain, j + 1);
    var found' := if s[chain[j]].entries != [] then chain[j] else found;
    if j + 1 >= i {
    } else {
      WindowShrinks(s, chain, j, i);
      if hops + 1 <= MAX_CHAIN_HOPS {
        WalkBackOnChain(s, chain, j + 1, i, found', hops + 1);
      }
    }
  }

  lemma {:induction false} WindowShrinks(s: Pages, chain: seq<PageId>, j: nat, i: nat)
    requires j < i <= |chain|
    ensures var l := LastBefore(s, chain, j + 1, i);
            LastBefore(s, chain, j, i) == if l >= j + 1 then l else if EntriesOf(s, chain[j]) != [] then j else j - 1
    decreases i
  {
    if j + 1 >= i || EntriesOf(s, chain[i - 1]) != [] {
    } else {
      WindowShrinks(s, chain, j, i - 1);
    }
  }

  lemma {:induction false} CrossOnChain(s: Pages, chain: seq<PageId>, l: nat, i: nat, hops: nat)
    requires IsChain(s, chain) && l <= i < |chain|
    ensures Cross(s, chain[l], chain[i], hops)
            == if i > l && hops + (i - l) > MAX_CHAIN_HOPS then Err(Corrupted) else Ok(hops + (i - l))
    decreases i - l
  {
    if l >= i {
    } else {
      assert LinkedAt(s, chain, l) && LinkedAt(s, chain, l + 1);
      if hops + 1 <= MAX_CHAIN_HOPS {
        CrossOnChain(s, chain, l + 1, i, hops + 1);
      }
    }
  }

  /** The window the hint opens: leaves `[prev, i)`. */
  ghost function WindowLast(s: Pages, chain: seq<PageId>, i: nat): (l: int)
    requires IsChain(s, chain) && i < |chain|
    ensures -1 <= l < i
    ensures l >= 0 && EntriesOf(s, chain[l]) == [] ==> i > 0
  {
    if i == 0 then -1
    else
      var l := LastBefore(s, chain, PrevIndex(s, chain, i), i);
      if l >= PrevIndex(s, chain, i) then l else -1
  }

  /** The window found a leaf, or the hint is blind: everything from the leaf
      the hint names up to `i` is empty. */
  lemma NearestLeftOnChain(s: Pages, chain: seq<PageId>, i: nat)
    requires IsChain(s, chain) && i < |chain|
    ensures var l := WindowLast(s, chain, i);
            NearestLeft(s, chain[i]).Ok? ==> NearestLeft(s, chain[i]) == Ok(if l >= 0 then chain[l] else INVALID)
    ensures var l := WindowLast(s, chain, i);
            l >= 0 ==> EntriesOf(s, chain[l]) != [] && forall j :: l < j < i ==> EntriesOf(s, chain[j]) == []
    ensures NearestLeft(s, chain[i]).Err? ==> NearestLeft(s, chain[i]) == Err(Corrupted)
  {
    assert LinkedAt(s, chain, i);
    if i > 0 {
      var j := PrevIndex(s, chain, i);
      assert LinkedAt(s, chain, j);
      WalkBackOnChain(s, chain, j, i, INVALID, 0);
    }
  }

  // ---- When the landing is the entry's place ----

  /** Everything from leaf `c` on sorts above `e` (or is empty). */
  ghost predicate AllAbove(s: Pages, chain: seq<PageId>, c: nat, e: Entry)
  {
    forall j :: c <= j < |chain| ==> DominatedAt(s, chain, j, e)
  }

  /** Some leaf left of `c` ends above `e`. */
  ghost predicate LeftAbove(s: Pages, chain: seq<PageId>, c: nat, e: Entry)
  {
    exists j :: 0 <= j < c && j < |chain| && EndsAbove(s, chain, j, e)
  }

  ghost predicate EndsAbove(s: Pages, chain: seq<PageId>, j: nat, e: Entry)
    requires j < |chain|
  {
    var es := EntriesOf(s, chain[j]);
    es != [] && EntryLess(e, es[|es| - 1])
  }

  /** The walk would settle on leaf `c` although `e` belongs further left: the
      `prev` hint of `c` opens onto empty leaves only, and a leaf beyond them
      ends above `e`. */
  ghost predicate BlindAt(s: Pages, chain: seq<PageId>, c: nat, e: Entry)
    requires IsChain(s, chain) && c < |chain|
  {
    AllAbove(s, chain, c, e) && WindowLast(s, chain, c) < 0 && LeftAbove(s, chain, c, e)
  }

  /** A walk entering at leaf `i` meets such a leaf. */
  ghost predicate Misled(s: Pages, chain: seq<PageId>, i: nat, e: Entry)
    requires IsChain(s, chain) && i < |chain|
  {
    exists c :: 0 <= c <= i && (c == i || EntriesOf(s, chain[c]) != []) && BlindAt(s, chain, c, e)
  }

  /** A leaf found by the window is asked instead; the question stays the
      same. */
  lemma MisledMovesLeft(s: Pages, chain: seq<PageId>, i: nat, e: Entry)
    requires IsChain(s, chain) && i < |chain| && WindowLast(s, chain, i) >= 0
    ensures Misled(s, chain, i, e) <==> Misled(s, chain, WindowLast(s, chain, i), e)
  {
    hide IsChain;
    NearestLeftOnChain(s, chain, i);
    var l := WindowLast(s, chain, i);
    if Misled(s, chain, i, e) {
      var c :| 0 <= c <= i && (c == i || EntriesOf(s, chain[c]) != []) && BlindAt(s, chain, c, e);
      assert c <= l;
    }
    if Misled(s, chain, l, e) {
      var c :| 0 <= c <= l && (c == l || EntriesOf(s, chain[c]) != []) && BlindAt(s, chain, c, e);
    }
  }

  /** Entries left of a leaf whose nearest non-empty left page ends at `last`
      all sort at or below it. */
  lemma NothingLeftAbove(s: Pages, chain: seq<PageId>, l: nat, i: nat, e: Entry)
    requires Sorted(Contents(s, chain)) && l < i <= |chain| && l < |chain|
    requires EntriesOf(s, chain[l]) != [] && !EndsAbove(s, chain, l, e)
    requires forall j :: l < j < i ==> EntriesOf(s, chain[j]) == []
    ensures !LeftAbove(s, chain, i, e)
  {
    hide Contents;
    forall j | 0 <= j < i && j < |chain| ensures !EndsAbove(s, chain, j, e) {
      var es, last := EntriesOf(s, chain[j]), EntriesOf(s, chain[l]);
      if j < l && es != [] {
        AcrossLeaves(s, chain, j, |es| - 1, l, |last| - 1);
        LessThanAtOrBelow(es[|es| - 1], last[|last| - 1], e);
        EntryTrichotomy(es[|es| - 1], e);
      }
    }
  }

  lemma NoLeftNoMislead(s: Pages, chain: seq<PageId>, i: nat, e: Entry)
    requires IsChain(s, chain) && i < |chain| && !LeftAbove(s, chain, i, e)
    ensures !Misled(s, chain, i, e)
  {
    hide IsChain;
  }

  /** The slot is the entry's place exactly when nothing left of the leaf sorts
      above it. */
  lemma PlacedIff(s: Pages, chain: seq<PageId>, k: nat, e: Entry)
    requires Sorted(Contents(s, chain)) && k < |chain| && e !in Contents(s, chain)
    requires forall j :: k < j < |chain| ==> DominatedAt(s, chain, j, e)
    ensures var slot := LowerBound(EntriesOf(s, chain[k]), e);
            Placed(Contents(s, chain), Position(s, chain, k, slot), e) <==> !LeftAbove(s, chain, k, e)
  {
    hide Contents;
    hide LowerBound;
    var leaf, es := EntriesOf(s, chain[k]), Contents(s, chain);
    var slot := LowerBound(leaf, e);
    var at := Position(s, chain, k, slot);
    ContentsAt(s, chain, k);
    if LeftAbove(s, chain, k, e) {
      var j :| 0 <= j < k && j < |chain| && EndsAbove(s, chain, j, e);
      var last := |EntriesOf(s, chain[j])| - 1;
      EntryAt(s, chain, j, last);
      PositionsAscend(s, chain, j, k);
      EntryTrichotomy(e, es[Position(s, chain, j, last)]);
    } else {
      PlacedFrom(s, chain, k, e);
    }
  }

  lemma PlacedFrom(s: Pages, chain: seq<PageId>, k: nat, e: Entry)
    requires Sorted(Contents(s, chain)) && k < |chain| && e !in Contents(s, chain)
    requires forall j :: k < j < |chain| ==> DominatedAt(s, chain, j, e)
    requires !LeftAbove(s, chain, k, e)
    ensures Placed(Contents(s, chain), Position(s, chain, k, LowerBound(EntriesOf(s, chain[k]), e)), e)
  {
    hide Contents;
    hide LowerBound;
    hide Sorted;
    hide Placed;
    var leaf, es := EntriesOf(s, chain[k]), Contents(s, chain);
    var a, b := Contents(s, chain[..k]), Contents(s, chain[k + 1..]);
    ContentsAt(s, chain, k);
    if a != [] {
      LastOfPrefix(s, chain, k, e);
      assert es[|a| - 1] == a[|a| - 1] && a[|a| - 1] in es;
      EntryTrichotomy(e, a[|a| - 1]);
    }
    LeafSorted(s, chain, k);
    LowerBoundSplits(leaf, e);
    OwnerRight(s, chain, k, e);
    PlacedInParts(a, leaf, b, LowerBound(leaf, e), e);
  }

  /** A slot of the middle part is the pair's place in the whole. */
  lemma PlacedInParts(a: seq<Entry>, m: seq<Entry>, b: seq<Entry>, slot: nat, e: Entry)
    requires Sorted(a + m + b) && slot <= |m| && e !in a + m + b
    requires a != [] ==> EntryLess(a[|a| - 1], e)
    requires b != [] ==> EntryLess(e, b[0])
    requires forall i :: 0 <= i < slot ==> EntryLess(m[i], e)
    requires forall i :: slot <= i < |m| ==> !EntryLess(m[i], e)
    ensures Placed(a + m + b, |a| + slot, e)
  {
    var es := a + m + b;
    forall i | 0 <= i < |a| + slot ensures EntryLess(es[i], e) {
      if i < |a| - 1 {
        EntryTransitive(es[i], es[|a| - 1], e);
      }
    }
    forall i | |a| + slot <= i < |es| ensures EntryLess(e, es[i]) {
      EntryTrichotomy(e, es[i]);
      assert es[i] in es;
      if i > |a| + |m| {
        EntryTransitive(e, es[|a| + |m|], es[i]);
      }
    }
  }

  lemma PrefixContents(s: Pages, chain: seq<PageId>, k: nat)
    requires 0 < k <= |chain|
    ensures Contents(s, chain[..k]) == Contents(s, chain[..k - 1]) + EntriesOf(s, chain[k - 1])
  {
    assert chain[..k][..k - 1] == chain[..k - 1] && chain[..k][k..] == [];
    ContentsAt(s, chain[..k], k - 1);
  }

  /** The last entry left of leaf `k` is the last entry of some leaf. */
  lemma {:induction false} LastOfPrefix(s: Pages, chain: seq<PageId>, k: nat, e: Entry)
    requires k < |chain| && Contents(s, chain[..k]) != [] && !LeftAbove(s, chain, k, e)
    ensures !EntryLess(e, Contents(s, chain[..k])[|Contents(s, chain[..k])| - 1])
  {
    assert k > 0;
    hide Contents;
    PrefixContents(s, chain, k);
    var leaf := EntriesOf(s, chain[k - 1]);
    assert !EndsAbove(s, chain, k - 1, e);
    if leaf != [] {
    } else {
      assert Contents(s, chain[..k - 1]) + leaf == Contents(s, chain[..k - 1]);
      LastOfPrefix(s, chain, k - 1, e);
    }
  }

  // ---- The walk ----

  /** The answers the walk can give, hop-bound refusals aside. */
  predicate Answered(r: Result<(PageId, nat)>) { r.Ok? || r == Err(DuplicateKey) }

  lemma PlaceUnfolds(s: Pages, chain: seq<PageId>, i: nat, e: Entry, hops: nat)
    requires IsChain(s, chain) && i < |chain| && Answered(Place(s, chain[i], e, hops))
    ensures chain[i] < |s|
    ensures var m := NextNonEmpty(s, chain, i + 1);
            var h := hops + (m - i - 1);
            var es := EntriesOf(s, chain[i]);
            var pos := LowerBound(es, e);
            if m < |chain| && !DominatedAt(s, chain, m, e) then
              && h + 1 <= MAX_CHAIN_HOPS && Answered(Place(s, chain[m], e, h + 1))
              && Place(s, chain[i], e, hops) == Place(s, chain[m], e, h + 1)
            else if pos < |es| && es[pos] == e then Place(s, chain[i], e, hops) == Err(DuplicateKey)
            else if pos > 0 then Place(s, chain[i], e, hops) == Ok((chain[i], pos))
            else
              && Readable(s, chain[i])
              && Place(s, chain[i], e, hops) == PlaceAtEdge(s, chain[i], e, hops, h)
  {
    hide SkipEmpty;
    hide NextNonEmpty;
    hide TotalBytes;
    hide LowerBound;
    hide PlaceAtEdge;
    var m := NextNonEmpty(s, chain, i + 1);
    assert LinkedAt(s, chain, i);
    assert m < |chain| ==> LinkedAt(s, chain, m);
    SkipOnChain(s, chain, i + 1, hops);
  }

  lemma EdgeUnfolds(s: Pages, chain: seq<PageId>, i: nat, e: Entry, hops: nat, h: nat)
    requires IsChain(s, chain) && i < |chain| && hops <= h && Readable(s, chain[i])
    requires Answered(PlaceAtEdge(s, chain[i], e, hops, h))
    ensures var l := WindowLast(s, chain, i);
            if l < 0 || !EndsAbove(s, chain, l, e) then PlaceAtEdge(s, chain[i], e, hops, h) == Ok((chain[i], 0))
            else
              var h' := h + (i - l - 1);
              && h' + 1 <= MAX_CHAIN_HOPS && Answered(Place(s, chain[l], e, h' + 1))
              && PlaceAtEdge(s, chain[i], e, hops, h) == Place(s, chain[l], e, h' + 1)
  {
    hide SkipEmpty;
    hide NearestLeft;
    hide Place;
    hide Cross;
    hide IsChain;
    hide WindowLast;
    hide GoodGeometry;
    NearestLeftOnChain(s, chain, i);
    var l := WindowLast(s, chain, i);
    if l >= 0 {
      LeafLinks(s, chain, l);
      CrossOnChain(s, chain, l + 1, i, h);
    }
  }

  /** Placement of an absent pair, from any leaf: the landing slot is the
      pair's place in the sorted set if and only if no blind hint misleads the
      walk. */
  lemma {:induction false} PlacementIff(s: Pages, chain: seq<PageId>, i: nat, e: Entry, hops: nat) returns (k: nat, slot: nat)
    requires IsChain(s, chain) && Sorted(Contents(s, chain)) && i < |chain| && e !in Contents(s, chain)
    requires Answered(Place(s, chain[i], e, hops))
    ensures k < |chain| && Place(s, chain[i], e, hops) == Ok((chain[k], slot))
    ensures slot <= |EntriesOf(s, chain[k])|
    ensures Placed(Contents(s, chain), Position(s, chain, k, slot), e) <==> !Misled(s, chain, i, e)
    decreases MAX_CHAIN_HOPS - hops
  {
    hide Contents;
    hide Place;
    hide IsChain;
    hide Misled;
    hide Sorted;
    PlaceUnfolds(s, chain, i, e, hops);
    var m := NextNonEmpty(s, chain, i + 1);
    var h := hops + (m - i - 1);
    if m < |chain| && !DominatedAt(s, chain, m, e) {
      k, slot := PlacementIff(s, chain, m, e, h + 1);
      OwnedNotMisled(s, chain, i, m, e);
      OwnedNotMisled(s, chain, m, m, e);
    } else {
      NothingRight(s, chain, i, e);
      Absent(s, chain, i, e);
      k, slot := i, LowerBound(EntriesOf(s, chain[i]), e);
      if slot > 0 {
        AtOrBelowFirst(s, chain, i, e);
        OwnedNotMisled(s, chain, i, i, e);
        OwnedPlaced(s, chain, i, e);
      } else {
        k, slot := EdgePlacement(s, chain, i, e, hops, h);
      }
    }
  }

  /** The slot-0 case of PlacementIff. */
  lemma {:induction false} EdgePlacement(s: Pages, chain: seq<PageId>, i: nat, e: Entry, hops: nat, h: nat)
    returns (k: nat, slot: nat)
    requires IsChain(s, chain) && Sorted(Contents(s, chain)) && i < |chain| && e !in Contents(s, chain)
    requires hops <= h && Readable(s, chain[i]) && Answered(PlaceAtEdge(s, chain[i], e, hops, h))
    requires LowerBound(EntriesOf(s, chain[i]), e) == 0
    requires forall j :: i < j < |chain| ==> DominatedAt(s, chain, j, e)
    ensures k < |chain| && PlaceAtEdge(s, chain[i], e, hops, h) == Ok((chain[k], slot))
    ensures slot <= |EntriesOf(s, chain[k])|
    ensures Placed(Contents(s, chain), Position(s, chain, k, slot), e) <==> !Misled(s, chain, i, e)
    decreases MAX_CHAIN_HOPS - hops, 0
  {
    hide Contents;
    hide Place;
    hide PlaceAtEdge;
    hide IsChain;
    hide Sorted;
    hide Misled;
    hide Placed;
    hide WindowLast;
    EdgeUnfolds(s, chain, i, e, hops, h);
    NearestLeftOnChain(s, chain, i);
    var l := WindowLast(s, chain, i);
    if l >= 0 && EndsAbove(s, chain, l, e) {
      k, slot := PlacementIff(s, chain, l, e, h + (i - l - 1) + 1);
      MisledMovesLeft(s, chain, i, e);
    } else {
      k, slot := i, 0;
      SettledAtEdge(s, chain, i, e);
    }
  }

  /** The walk settles on slot 0 of leaf `i`. */
  lemma SettledAtEdge(s: Pages, chain: seq<PageId>, i: nat, e: Entry)
    requires IsChain(s, chain) && Sorted(Contents(s, chain)) && i < |chain| && e !in Contents(s, chain)
    requires LowerBound(EntriesOf(s, chain[i]), e) == 0
    requires forall j :: i < j < |chain| ==> DominatedAt(s, chain, j, e)
    requires var l := WindowLast(s, chain, i); l < 0 || !EndsAbove(s, chain, l, e)
    ensures Placed(Contents(s, chain), Position(s, chain, i, 0), e) <==> !Misled(s, chain, i, e)
  {
    hide Contents;
    hide IsChain;
    hide Sorted;
    hide Placed;
    hide WindowLast;
    NearestLeftOnChain(s, chain, i);
    PlacedIff(s, chain, i, e);
    var l := WindowLast(s, chain, i);
    if l >= 0 {
      NothingLeftAbove(s, chain, l, i, e);
      NoLeftNoMislead(s, chain, i, e);
    } else if LeftAbove(s, chain, i, e) {
      Absent(s, chain, i, e);
      assert BlindAt(s, chain, i, e);
    } else {
      NoLeftNoMislead(s, chain, i, e);
    }
  }

  lemma Absent(s: Pages, chain: seq<PageId>, i: nat, e: Entry)
    requires i < |chain| && e !in Contents(s, chain)
    ensures e !in EntriesOf(s, chain[i])
    ensures LowerBound(EntriesOf(s, chain[i]), e) == 0 ==> DominatedAt(s, chain, i, e)
  {
    ContentsAt(s, chain, i);
    hide Contents;
    var es := EntriesOf(s, chain[i]);
    if es != [] {
      EntryTrichotomy(es[0], e);
      assert es[0] in es;
    }
  }

  lemma AtOrBelowFirst(s: Pages, chain: seq<PageId>, i: nat, e: Entry)
    requires i < |chain| && LowerBound(EntriesOf(s, chain[i]), e) > 0
    ensures !DominatedAt(s, chain, i, e)
  {
    EntryTrichotomy(EntriesOf(s, chain[i])[0], e);
  }

  /** A leaf at or below `e`, at or right of the entry point, rules blind
      hints out. */
  lemma OwnedNotMisled(s: Pages, chain: seq<PageId>, i: nat, m: nat, e: Entry)
    requires IsChain(s, chain) && i <= m < |chain| && !DominatedAt(s, chain, m, e)
    ensures !Misled(s, chain, i, e)
  {
    hide IsChain;
  }

  lemma OwnedPlaced(s: Pages, chain: seq<PageId>, k: nat, e: Entry)
    requires Sorted(Contents(s, chain)) && k < |chain| && e !in Contents(s, chain)
    requires forall j :: k < j < |chain| ==> DominatedAt(s, chain, j, e)
    requires !DominatedAt(s, chain, k, e)
    ensures Placed(Contents(s, chain), Position(s, chain, k, LowerBound(EntriesOf(s, chain[k]), e)), e)
  {
    hide Contents;
    forall j | 0 <= j < k && j < |chain| ensures !EndsAbove(s, chain, j, e) {
      var es := EntriesOf(s, chain[j]);
      if es != [] {
        AcrossLeaves(s, chain, j, |es| - 1, k, 0);
        LessThanAtOrBelow(es[|es| - 1], EntriesOf(s, chain[k])[0], e);
        EntryTrichotomy(es[|es| - 1], e);
      }
    }
    PlacedIff(s, chain, k, e);
  }

  /** Wherever the walk lands, it is a slot of a leaf of the chain. */
  lemma {:induction false} PlaceLands(s: Pages, chain: seq<PageId>, i: nat, e: Entry, hops: nat) returns (k: nat)
    requires IsChain(s, chain) && i < |chain| && Place(s, chain[i], e, hops).Ok?
    ensures k < |chain| && Place(s, chain[i], e, hops).value.0 == chain[k]
    ensures Place(s, chain[i], e, hops).value.1 <= |EntriesOf(s, chain[k])|
    decreases MAX_CHAIN_HOPS - hops
  {
    hide Place;
    hide PlaceAtEdge;
    hide IsChain;
    hide LowerBound;
    hide WindowLast;
    PlaceUnfolds(s, chain, i, e, hops);
    var m, es := NextNonEmpty(s, chain, i + 1), EntriesOf(s, chain[i]);
    var h := hops + (m - i - 1);
    k := i;
    if m < |chain| && !DominatedAt(s, chain, m, e) {
      k := PlaceLands(s, chain, m, e, h + 1);
    } else if LowerBound(es, e) == 0 {
      EdgeUnfolds(s, chain, i, e, hops, h);
      var l := WindowLast(s, chain, i);
      if l >= 0 && EndsAbove(s, chain, l, e) {
        k := PlaceLands(s, chain, l, e, h + (i - l - 1) + 1);
      }
    }
  }

  /** Every hint that opens onto empty leaves only has nothing behind them. */
  ghost predicate HintsSound(s: Pages, chain: seq<PageId>)
    requires IsChain(s, chain)
  {
    forall c, j :: 0 <= j < c < |chain| && WindowLast(s, chain, c) < 0 ==> EntriesOf(s, chain[j]) == []
  }

  /** With sound hints an absent pair always lands at its place. */
  lemma SoundHintsPlace(s: Pages, chain: seq<PageId>, i: nat, e: Entry) returns (k: nat, slot: nat)
    requires IsChain(s, chain) && Sorted(Contents(s, chain)) && i < |chain| && e !in Contents(s, chain)
    requires HintsSound(s, chain) && Answered(Place(s, chain[i], e, 0))
    ensures k < |chain| && Place(s, chain[i], e, 0) == Ok((chain[k], slot))
    ensures Placed(Contents(s, chain), Position(s, chain, k, slot), e)
  {
    hide Contents;
    hide Place;
    hide IsChain;
    k, slot := PlacementIff(s, chain, i, e, 0);
  }

  // ---- A pair that is already there ----

  /** A walk for a pair held by leaf `d`, entering right of it, stops short:
      at a blind hint, or because the pair is the last of its leaf and the
      comparison with a left neighbour is strict. */
  ghost predicate StopsShort(s: Pages, chain: seq<PageId>, d: nat, i: nat, e: Entry)
    requires IsChain(s, chain) && d < |chain| && i < |chain|
  {
    exists c :: d < c <= i && (c == i || EntriesOf(s, chain[c]) != []) && StopsAt(s, chain, d, c, e)
  }

  ghost predicate StopsAt(s: Pages, chain: seq<PageId>, d: nat, c: nat, e: Entry)
    requires IsChain(s, chain) && d < |chain| && c < |chain|
  {
    WindowLast(s, chain, c) < 0 || (WindowLast(s, chain, c) == d && !EndsAbove(s, chain, d, e))
  }

  /** Leaves right of the one that holds the pair sort above it, leaves left
      of it do not. */
  lemma HolderOrder(s: Pages, chain: seq<PageId>, d: nat, e: Entry, j: nat)
    requires Sorted(Contents(s, chain)) && d < |chain| && j < |chain| && e in EntriesOf(s, chain[d])
    ensures j > d ==> DominatedAt(s, chain, j, e) && (EntriesOf(s, chain[j]) != [] ==> EndsAbove(s, chain, j, e))
    ensures j > d ==> LowerBound(EntriesOf(s, chain[j]), e) == 0 && e !in EntriesOf(s, chain[j])
    ensures !DominatedAt(s, chain, d, e)
  {
    hide Contents;
    var held, es := EntriesOf(s, chain[d]), EntriesOf(s, chain[j]);
    var x :| 0 <= x < |held| && held[x] == e;
    if j > d && es != [] {
      AcrossLeaves(s, chain, d, x, j, 0);
      AcrossLeaves(s, chain, d, x, j, |es| - 1);
      EntryTrichotomy(e, es[0]);
      forall y | 0 <= y < |es| ensures es[y] != e {
        AcrossLeaves(s, chain, d, x, j, y);
        EntryTrichotomy(e, e);
      }
    }
    HolderFirst(s, chain, d, x);
  }

  lemma HolderFirst(s: Pages, chain: seq<PageId>, d: nat, x: nat)
    requires Sorted(Contents(s, chain)) && d < |chain| && x < |EntriesOf(s, chain[d])|
    ensures !EntryLess(EntriesOf(s, chain[d])[x], EntriesOf(s, chain[d])[0])
  {
    hide Contents;
    EntryAt(s, chain, d, 0);
    EntryAt(s, chain, d, x);
    EntryTrichotomy(EntriesOf(s, chain[d])[x], EntriesOf(s, chain[d])[0]);
  }

  lemma StopsShortMovesLeft(s: Pages, chain: seq<PageId>, d: nat, i: nat, e: Entry)
    requires IsChain(s, chain) && d < i < |chain| && EntriesOf(s, chain[d]) != []
    requires var l := WindowLast(s, chain, i); l >= 0 && !(l == d && !EndsAbove(s, chain, d, e))
    ensures d <= WindowLast(s, chain, i)
    ensures StopsShort(s, chain, d, i, e) <==> StopsShort(s, chain, d, WindowLast(s, chain, i), e)
  {
    hide IsChain;
    NearestLeftOnChain(s, chain, i);
    var l := WindowLast(s, chain, i);
    if StopsShort(s, chain, d, i, e) {
      var c :| d < c <= i && (c == i || EntriesOf(s, chain[c]) != []) && StopsAt(s, chain, d, c, e);
      assert c <= l;
    }
    if StopsShort(s, chain, d, l, e) {
      var c :| d < c <= l && (c == l || EntriesOf(s, chain[c]) != []) && StopsAt(s, chain, d, c, e);
    }
  }

  /** A pair already in the index is refused as a duplicate if and only if the
      walk does not stop short of the leaf that holds it; entering at or left
      of that leaf always finds it. */
  lemma {:induction false} DuplicateIff(s: Pages, chain: seq<PageId>, d: nat, i: nat, e: Entry, hops: nat)
    requires IsChain(s, chain) && Sorted(Contents(s, chain)) && d < |chain| && i < |chain|
    requires e in EntriesOf(s, chain[d]) && Answered(Place(s, chain[i], e, hops))
    ensures Place(s, chain[i], e, hops) == Err(DuplicateKey) <==> !StopsShort(s, chain, d, i, e)
    decreases MAX_CHAIN_HOPS - hops
  {
    hide Contents;
    hide Place;
    hide PlaceAtEdge;
    hide IsChain;
    hide Sorted;
    hide StopsShort;
    hide LowerBound;
    PlaceUnfolds(s, chain, i, e, hops);
    HolderOrder(s, chain, d, e, i);
    var m := NextNonEmpty(s, chain, i + 1);
    var h := hops + (m - i - 1);
    if m < |chain| && !DominatedAt(s, chain, m, e) {
      HolderOrder(s, chain, d, e, m);
      DuplicateIff(s, chain, d, m, e, h + 1);
      NoStopLeft(s, chain, d, i, e);
      NoStopLeft(s, chain, d, m, e);
    } else if i <= d {
      FoundHere(s, chain, d, i, e);
      NoStopLeft(s, chain, d, i, e);
    } else {
      assert EntriesOf(s, chain[i]) != [] ==> EntriesOf(s, chain[i])[0] in EntriesOf(s, chain[i]);
      EdgeDuplicate(s, chain, d, i, e, hops, h);
    }
  }

  lemma NoStopLeft(s: Pages, chain: seq<PageId>, d: nat, i: nat, e: Entry)
    requires IsChain(s, chain) && i <= d < |chain|
    ensures !StopsShort(s, chain, d, i, e)
  {
    hide IsChain;
  }

  /** The slot-0 case of DuplicateIff. */
  lemma {:induction false} EdgeDuplicate(s: Pages, chain: seq<PageId>, d: nat, i: nat, e: Entry, hops: nat, h: nat)
    requires IsChain(s, chain) && Sorted(Contents(s, chain)) && d < i < |chain| && hops <= h
    requires e in EntriesOf(s, chain[d]) && Readable(s, chain[i]) && Answered(PlaceAtEdge(s, chain[i], e, hops, h))
    ensures PlaceAtEdge(s, chain[i], e, hops, h) == Err(DuplicateKey) <==> !StopsShort(s, chain, d, i, e)
    decreases MAX_CHAIN_HOPS - hops, 0
  {
    hide Contents;
    hide Place;
    hide PlaceAtEdge;
    hide IsChain;
    hide Sorted;
    hide StopsShort;
    hide WindowLast;
    EdgeUnfolds(s, chain, i, e, hops, h);
    var l := WindowLast(s, chain, i);
    if l < 0 || !EndsAbove(s, chain, l, e) {
      StopsHere(s, chain, d, i, e);
    } else {
      StopsShortMovesLeft(s, chain, d, i, e);
      DuplicateIff(s, chain, d, l, e, h + (i - l - 1) + 1);
    }
  }

  lemma StopsHere(s: Pages, chain: seq<PageId>, d: nat, i: nat, e: Entry)
    requires IsChain(s, chain) && Sorted(Contents(s, chain)) && d < i < |chain| && e in EntriesOf(s, chain[d])
    requires var l := WindowLast(s, chain, i); l < 0 || !EndsAbove(s, chain, l, e)
    ensures StopsShort(s, chain, d, i, e)
  {
    hide Contents;
    hide IsChain;
    hide Sorted;
    hide WindowLast;
    NearestLeftOnChain(s, chain, i);
    var l := WindowLast(s, chain, i);
    if l > d {
      HolderOrder(s, chain, d, e, l);
    }
    assert l < 0 || l == d;
    assert StopsAt(s, chain, d, i, e);
  }

  lemma FoundHere(s: Pages, chain: seq<PageId>, d: nat, i: nat, e: Entry)
    requires Sorted(Contents(s, chain)) && i <= d < |chain| && e in EntriesOf(s, chain[d])
    requires var m := NextNonEmpty(s, chain, i + 1); m < |chain| ==> DominatedAt(s, chain, m, e)
    ensures i == d
    ensures var es, pos := EntriesOf(s, chain[i]), LowerBound(EntriesOf(s, chain[i]), e); pos < |es| && es[pos] == e
  {
    hide Contents;
    hide LowerBound;
    HolderOrder(s, chain, d, e, d);
    var m := NextNonEmpty(s, chain, i + 1);
    if i < d {
      assert m <= d;
      if m < d {
        DominationSpreads(s, chain, m, d, e);
      }
    }
    LeafSorted(s, chain, d);
    LowerBoundFinds(EntriesOf(s, chain[d]), e);
  }

  lemma LeafSorted(s: Pages, chain: seq<PageId>, d: nat)
    requires Sorted(Contents(s, chain)) && d < |chain|
    ensures Sorted(EntriesOf(s, chain[d]))
  {
    hide Contents;
    var es := EntriesOf(s, chain[d]);
    forall a, b | 0 <= a < b < |es| ensures EntryLess(es[a], es[b]) {
      EntryAt(s, chain, d, a);
      EntryAt(s, chain, d, b);
    }
  }

  // ---- A blind hint ----

  // A run of one key over three leaves, the middle one drained by deletes.
  const RUN_LEFT := Entry([7], 9, 0)
  const RUN_RIGHT := Entry([7], 20, 0)
  const RUN_NEW := Entry([7], 5, 0)

  function RunLeaf(es: seq<Entry>, prev: PageId, next: PageId): Page
  {
    InitPage(0, Flags(true, false, false)).(entries := es, upper := PD_SPECIAL - 11, prev := prev, next := next)
  }

  const RUN_PAGES: Pages :=
    [ZERO_PAGE, RunLeaf([RUN_LEFT], INVALID, 2), RunLeaf([], 1, 3), RunLeaf([RUN_RIGHT], 2, INVALID)]

  lemma RunIsSound()
    ensures TreeInv(RUN_PAGES, [1, 2, 3]) && Contents(RUN_PAGES, [1, 2, 3]) == [RUN_LEFT, RUN_RIGHT]
  {
    var s, chain := RUN_PAGES, [1, 2, 3];
    OneEntry(0, RUN_LEFT);
    OneEntry(0, RUN_RIGHT);
    hide TotalBytes;
    assert LinkedAt(s, chain, 0) && LinkedAt(s, chain, 1) && LinkedAt(s, chain, 2) by {
      assert chain[..1][0] == 1 && chain[..2][1] == 2;
    }
    assert chain[1..] == [2, 3] && [2, 3][1..] == [3];
    assert Contents(s, [3]) == [RUN_RIGHT];
    assert Contents(s, [2, 3]) == [RUN_RIGHT];
    assert EntryLess(RUN_LEFT, RUN_RIGHT);
  }

  lemma RunPlaces()
    ensures Place(RUN_PAGES, 3, RUN_NEW, 0) == Ok((3, 0))
  {
    var s := RUN_PAGES;
    assert SkipEmpty(s, INVALID, 0) == Ok((INVALID, 0));
    assert WalkBack(s, 2, 3, INVALID, 0) == Ok(INVALID);
    assert EntryLess(RUN_NEW, RUN_RIGHT) && LowerBound([RUN_RIGHT], RUN_NEW) == 0;
  }

  /** Entering that chain at its last leaf, the pair `(7, 5)` lands right of
      `(7, 9)`: the chain is no longer sorted. */
  lemma BlindHintMisplaces() returns (s: Pages, chain: seq<PageId>, e: Entry)
    ensures TreeInv(s, chain) && |chain| == 3 && e !in Contents(s, chain)
    ensures Place(s, chain[2], e, 0) == Ok((chain[2], 0)) && Misled(s, chain, 2, e)
    ensures !Placed(Contents(s, chain), Position(s, chain, 2, 0), e)
    ensures var es, at := Contents(s, chain), Position(s, chain, 2, 0);
            at <= |es| && !Sorted(InsertAt(es, at, e))
  {
    s, chain, e := RUN_PAGES, [1, 2, 3], RUN_NEW;
    RunIsSound();
    RunPlaces();
    hide Place;
    var es, at := Contents(s, chain), Position(s, chain, 2, 0);
    assert at == 1 by {
      assert chain[..2] == [1, 2] && [1, 2][1..] == [2];
      assert Contents(s, [2]) == [];
    }
    hide Contents;
    var after := InsertAt(es, at, e);
    assert after == [RUN_LEFT, RUN_NEW, RUN_RIGHT];
    assert !EntryLess(after[0], after[1]);
    var k, slot := PlacementIff(s, chain, 2, e, 0);
    assert es[0] == RUN_LEFT;
  }

  // ---- A duplicate that is accepted ----

  const PAIR_PAGES: Pages := [ZERO_PAGE, RunLeaf([RUN_LEFT], INVALID, 2), RunLeaf([RUN_RIGHT], 1, INVALID)]

  lemma PairIsSound()
    ensures TreeInv(PAIR_PAGES, [1, 2]) && Contents(PAIR_PAGES, [1, 2]) == [RUN_LEFT, RUN_RIGHT]
  {
    var s, chain := PAIR_PAGES, [1, 2];
    OneEntry(0, RUN_LEFT);
    OneEntry(0, RUN_RIGHT);
    hide TotalBytes;
    assert LinkedAt(s, chain, 0) && LinkedAt(s, chain, 1) by {
      assert chain[..1][0] == 1;
    }
    assert chain[1..] == [2] && Contents(s, [2]) == [RUN_RIGHT];
    assert EntryLess(RUN_LEFT, RUN_RIGHT);
  }

  lemma PairPlaces()
    ensures Place(PAIR_PAGES, 2, RUN_LEFT, 0) == Ok((2, 0))
  {
    var s := PAIR_PAGES;
    assert SkipEmpty(s, INVALID, 0) == Ok((INVALID, 0));
    assert WalkBack(s, 1, 2, INVALID, 0) == Ok(1);
    assert Cross(s, 2, 2, 0) == Ok(0);
    assert EntryLess(RUN_LEFT, RUN_RIGHT) && LowerBound([RUN_RIGHT], RUN_LEFT) == 0;
    EntryTrichotomy(RUN_LEFT, RUN_LEFT);
  }

  /** A pair that is the last of its leaf, inserted again from the leaf to its
      right, is accepted: the index then holds it twice. */
  lemma DuplicateAccepted() returns (s: Pages, chain: seq<PageId>, e: Entry)
    ensures TreeInv(s, chain) && |chain| == 2 && e in EntriesOf(s, chain[0])
    ensures Place(s, chain[1], e, 0) == Ok((chain[1], 0)) && StopsShort(s, chain, 0, 1, e)
    ensures var es, at := Contents(s, chain), Position(s, chain, 1, 0);
            at <= |es| && InsertAt(es, at, e) == [e] + es && !Sorted(InsertAt(es, at, e))
  {
    s, chain, e := PAIR_PAGES, [1, 2], RUN_LEFT;
    PairIsSound();
    PairPlaces();
    hide Place;
    var es, at := Contents(s, chain), Position(s, chain, 1, 0);
    assert at == 1 by {
      assert chain[..1] == [1] && [1][1..] == [];
      assert Contents(s, [1]) == [RUN_LEFT];
    }
    hide Contents;
    DuplicateIff(s, chain, 0, 1, e, 0);
    var after := InsertAt(es, at, e);
    assert after == [RUN_LEFT, RUN_LEFT, RUN_RIGHT];
    EntryTrichotomy(e, e);
    assert !EntryLess(after[0], after[1]);
  }

  // ---- The walk as it runs ----

  method NearestNonEmptyLeft(s: Pages, page: PageId) returns (r: Result<PageId>)
    ensures r == NearestLeft(s, page)
  {
    if !Readable(s, page) {
      return Err(Corrupted);
    }
    var at: PageId, found: PageId, hops: nat := s[page].prev, INVALID, 0;
    if at == INVALID {
      return Ok(INVALID);
    }
    while true
      invariant NearestLeft(s, page) == WalkBack(s, at, page, found, hops)
      decreases MAX_CHAIN_HOPS - hops
    {
      if !Readable(s, at) {
        return Err(Corrupted);
      }
      if s[at].entries != [] {
        found := at;
      }
      var next := s[at].next;
      if next == page {
        return Ok(found);
      }
      if next == INVALID {
        return Err(Corrupted);
      }
      if hops + 1 > MAX_CHAIN_HOPS {
        return Err(Corrupted);
      }
      at, hops := next, hops + 1;
    }
  }

  method CrossToLanding(s: Pages, from: PageId, target: PageId, hops: nat) returns (r: Result<nat>)
    ensures r == Cross(s, from, target, hops)
  {
    var w: PageId, h: nat := from, hops;
    while w != target
      invariant Cross(s, from, target, hops) == Cross(s, w, target, h)
      decreases MAX_CHAIN_HOPS - h
    {
      if !Readable(s, w) || h + 1 > MAX_CHAIN_HOPS {
        return Err(Corrupted);
      }
      w, h := s[w].next, h + 1;
    }
    return Ok(h);
  }

  /** The walk stays on the chain, whose leaves are sorted. */
  lemma StaysOnChain(s: Pages, chain: seq<PageId>, cur: PageId)
    requires IsChain(s, chain) && Sorted(Contents(s, chain)) && cur in chain
    ensures Readable(s, cur) && Sorted(s[cur].entries)
    ensures forall hops: nat :: SkipEmpty(s, s[cur].next, hops).Ok? ==>
              SkipEmpty(s, s[cur].next, hops).value.0 in [INVALID] + chain
    ensures NearestLeft(s, cur).Ok? ==> NearestLeft(s, cur).value in [INVALID] + chain
  {
    hide Contents;
    hide SkipEmpty;
    hide NearestLeft;
    hide WindowLast;
    var i := IndexOf(chain, cur);
    LeafLinks(s, chain, i);
    LeafSorted(s, chain, i);
    NearestLeftOnChain(s, chain, i);
    forall hops: nat | SkipEmpty(s, s[cur].next, hops).Ok?
      ensures SkipEmpty(s, s[cur].next, hops).value.0 in [INVALID] + chain
    {
      SkipOnChain(s, chain, i + 1, hops);
    }
  }

  /** `pin_leaf_for_insert`. */
  method PinLeafForInsert(s: Pages, start: PageId, e: Entry, ghost chain: seq<PageId>)
    returns (r: Result<(PageId, nat)>)
    requires IsChain(s, chain) && Sorted(Contents(s, chain)) && start in chain
    ensures r == Place(s, start, e, 0)
  {
    hide SkipEmpty;
    hide NearestLeft;
    hide Cross;
    hide LowerBound;
    hide IsChain;
    hide Contents;
    var cur: PageId, hops: nat := start, 0;
    while true
      invariant Place(s, start, e, 0) == Place(s, cur, e, hops) && cur in chain
      decreases MAX_CHAIN_HOPS - hops
    {
      StaysOnChain(s, chain, cur);
      var skip := SkipEmptyLeaves(s, s[cur].next, hops);
      if skip.Err? {
        return Err(skip.error);
      }
      var (right, h) := skip.value;
      if right != INVALID && AtOrBelow(s[right].entries[0], e) {
        if h + 1 > MAX_CHAIN_HOPS {
          return Err(Corrupted);
        }
        cur, hops := right, h + 1;
      } else {
        var pos := SearchPage(s[cur].entries, e);
        if pos < |s[cur].entries| && s[cur].entries[pos] == e {
          return Err(DuplicateKey);
        }
        if pos > 0 {
          return Ok((cur, pos));
        }
        var left := NearestNonEmptyLeft(s, cur);
        if left.Err? {
          return Err(left.error);
        }
        if left.value == INVALID {
          var rest := SkipEmptyLeaves(s, s[cur].next, h);
          if rest.Err? {
            return Err(rest.error);
          }
          return Ok((cur, 0));
        }
        if !Readable(s, left.value) || s[left.value].entries == [] {
          return Err(Corrupted);
        }
        var crossed := CrossToLanding(s, s[left.value].next, cur, h);
        if crossed.Err? {
          return Err(crossed.error);
        }
        if !EntryLess(e, LastOf(s[left.value])) {
          return Ok((cur, 0));
        }
        if crossed.value + 1 > MAX_CHAIN_HOPS {
          return Err(Corrupted);
        }
        cur, hops := left.value, crossed.value + 1;
      }
    }
  }
}

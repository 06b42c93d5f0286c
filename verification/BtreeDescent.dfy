/** The descent from a root to a leaf (crates/pg-am-btree/src/index.rs) on a
    tree whose levels enumerate one another. */
module BtreeDescent {
  import opened Keys
  import opened Outcome
  import opened BtreePages
  import opened BtreeLog
  import opened BtreeChain
  import opened BtreeSearch
  import opened BtreeWalk
  import opened BtreeReads

  // ---- One internal level ----

  /** An internal page neither yields the key to its left neighbour nor loses
      it to the next page on the right. The empty first key, the marker below
      every key, does neither. */
  predicate StaysOn(s: Pages, p: PageId, key: Key, hops: nat)
  {
    && Readable(s, p)
    && !(s[p].entries != [] && KeyLess(key, s[p].entries[0].key) && s[p].prev != INVALID)
    && SkipEmpty(s, s[p].next, hops).Ok?
    && var right := SkipEmpty(s, s[p].next, hops).value.0;
       right == INVALID || s[right].entries[0].key == [] || KeyLess(key, s[right].entries[0].key)
  }

  /** `walk_to_position_guard` above the leaves: it stays on a settled page and
      otherwise ends on one, or runs out of hops. */
  method WalkInternal(s: Pages, start: PageId, key: Key) returns (r: Result<PageId>)
    ensures StaysOn(s, start, key, 0) ==> r == Ok(start)
    ensures r.Ok? ==> exists hops: nat :: StaysOn(s, r.value, key, hops)
  {
    var cur, hops := start, 0;
    while true
      invariant hops == 0 ==> cur == start
      invariant StaysOn(s, start, key, 0) ==> hops == 0
      decreases MAX_CHAIN_HOPS - hops
    {
      ghost var entered := hops;
      if !Readable(s, cur) {
        return Err(Corrupted);
      }
      var moved := s[cur].entries != [] && KeyLess(key, s[cur].entries[0].key) && s[cur].prev != INVALID;
      if moved {
        cur, hops := s[cur].prev, hops + 1;
        if !Readable(s, cur) {
          return Err(Corrupted);
        }
      }
      var skipped := SkipEmpty(s, s[cur].next, hops);
      if skipped.Err? {
        return Err(Corrupted);
      }
      var right := skipped.value.0;
      if right != INVALID && s[right].entries[0].key != [] && !KeyLess(key, s[right].entries[0].key) {
        cur, hops, moved := right, skipped.value.1 + 1, true;
      } else if !moved {
        assert StaysOn(s, cur, key, entered);
        return Ok(cur);
      } else {
        hops := skipped.value.1;
      }
      if hops > MAX_CHAIN_HOPS {
        return Err(Corrupted);
      }
    }
  }

  // ---- Towers ----

  /** The pages of one internal level, left to right, are linked as such, and
      their downlinks name the pages of the level below, each once and in
      order. The level starts with the marker; a page of the level below, if it
      is internal too, starts with the key that leads to it. */
  ghost predicate LevelOver(s: Pages, ids: seq<PageId>, below: seq<PageId>, level: nat)
  {
    && ids != [] && (forall i :: 0 <= i < |ids| ==> NodeAt(s, ids, level, i))
    && Sorted(Contents(s, ids)) && |Contents(s, ids)| == |below|
    && (forall j :: 0 <= j < |below| ==> LeadsTo(s, Contents(s, ids)[j], below[j], level, j == 0))
  }

  ghost predicate NodeAt(s: Pages, ids: seq<PageId>, level: nat, i: nat)
    requires i < |ids|
  {
    && 0 < ids[i] < |s| && s[ids[i]].level == level && s[ids[i]].entries != [] && GoodGeometry(s[ids[i]])
    && s[ids[i]].next == LeafAt(ids, i + 1) && s[ids[i]].prev == if i == 0 then INVALID else ids[i - 1]
  }

  ghost predicate LeadsTo(s: Pages, downlink: Entry, child: PageId, level: nat, first: bool)
  {
    && downlink.page == child && (first ==> downlink.key == [])
    && (level > 1 ==> child < |s| && s[child].entries != [] && s[child].entries[0].key == downlink.key)
  }

  /** A tree as its levels, the leaves first and the root alone at the top. */
  ghost predicate IsTower(s: Pages, tower: seq<seq<PageId>>)
  {
    IsStack(s, tower) && |tower[|tower| - 1]| == 1
  }

  ghost predicate IsStack(s: Pages, tower: seq<seq<PageId>>)
  {
    && tower != []
    && (forall l :: 0 < l < |tower| ==> LevelOver(s, tower[l], tower[l - 1], l))
    && (forall i :: 0 <= i < |tower[0]| ==> 0 < tower[0][i] < |s| && s[tower[0][i]].level == 0)
  }

  /** Page `i` of its level is the one whose range holds the key. */
  ghost predicate Routes(s: Pages, ids: seq<PageId>, i: nat, key: Key)
  {
    && i < |ids|
    && (i == 0 || (EntriesOf(s, ids[i]) != [] && !KeyLess(key, EntriesOf(s, ids[i])[0].key)))
    && (i + 1 < |ids| ==> EntriesOf(s, ids[i + 1]) != [] && KeyLess(key, EntriesOf(s, ids[i + 1])[0].key))
  }

  /** The walk along a level leaves such a page at once. */
  lemma RoutedSettles(s: Pages, ids: seq<PageId>, below: seq<PageId>, level: nat, i: nat, key: Key)
    requires LevelOver(s, ids, below, level) && Routes(s, ids, i, key)
    ensures StaysOn(s, ids[i], key, 0)
  {
    hide Contents;
    hide Sorted;
    assert NodeAt(s, ids, level, i);
    if i + 1 < |ids| {
      assert NodeAt(s, ids, level, i + 1);
    }
    if i == 0 {
      FirstOfLevel(s, ids, below, level);
    }
  }

  lemma FirstOfLevel(s: Pages, ids: seq<PageId>, below: seq<PageId>, level: nat)
    requires LevelOver(s, ids, below, level)
    ensures ids[0] < |s| && s[ids[0]].entries != [] && s[ids[0]].entries[0].key == [] && |below| > 0
  {
    assert NodeAt(s, ids, level, 0);
    ContentsAt(s, ids, 0);
    assert LeadsTo(s, Contents(s, ids)[0], below[0], level, true);
  }

  /** One step down: the child the search picks is the page of the level below
      whose range holds the key. */
  lemma ChildRoutes(s: Pages, ids: seq<PageId>, below: seq<PageId>, level: nat, i: nat, key: Key, slot: nat)
    returns (j: nat)
    requires LevelOver(s, ids, below, level) && Routes(s, ids, i, key)
    requires Covers(EntriesOf(s, ids[i]), key, slot)
    ensures j < |below| && below[j] == EntriesOf(s, ids[i])[slot].page
    ensures level > 1 ==> Routes(s, below, j, key)
    ensures Covers(Contents(s, ids), key, j)
  {
    hide Contents;
    hide Sorted;
    var es, all := EntriesOf(s, ids[i]), Contents(s, ids);
    j := Position(s, ids, i, slot);
    EntryAt(s, ids, i, slot);
    assert LeadsTo(s, all[j], below[j], level, j == 0);
    if slot == 0 && i == 0 {
      ContentsAt(s, ids, 0);
      NothingBefore(s, ids);
    }
    if j + 1 < |below| {
      assert LeadsTo(s, all[j + 1], below[j + 1], level, false);
      if slot + 1 < |es| {
        EntryAt(s, ids, i, slot + 1);
      } else {
        NextPage(s, ids, below, level, i);
        EntryAt(s, ids, i + 1, 0);
      }
    }
    CoversAll(all, key, j);
  }

  /** The first key above the probe decides for all behind it. */
  lemma CoversAll(es: seq<Entry>, key: Key, j: nat)
    requires Sorted(es) && j < |es| && (j == 0 || !KeyLess(key, es[j].key))
    requires j + 1 < |es| ==> KeyLess(key, es[j + 1].key)
    ensures Covers(es, key, j)
  {
    forall i | j < i < |es| ensures KeyLess(key, es[i].key) {
      if i > j + 1 {
        KeysAscend(es, j + 1, i);
        if KeyLess(es[j + 1].key, es[i].key) {
          KeyTransitive(key, es[j + 1].key, es[i].key);
        }
      }
    }
  }

  lemma NothingBefore(s: Pages, ids: seq<PageId>)
    requires ids != []
    ensures Position(s, ids, 0, 0) == 0
  {}

  /** After the last entry of a page comes the first of the next. */
  lemma NextPage(s: Pages, ids: seq<PageId>, below: seq<PageId>, level: nat, i: nat)
    requires LevelOver(s, ids, below, level) && i < |ids|
    requires Position(s, ids, i, |EntriesOf(s, ids[i])|) < |Contents(s, ids)|
    ensures i + 1 < |ids| && Position(s, ids, i + 1, 0) == Position(s, ids, i, |EntriesOf(s, ids[i])|)
    ensures EntriesOf(s, ids[i + 1]) != []
  {
    hide LeadsTo;
    assert ids[|ids|..] == [];
    ContentsAt(s, ids, i);
    assert NodeAt(s, ids, level, i + 1);
    ContentsAt(s, ids[..i + 1], i);
    assert ids[..i + 1][..i] == ids[..i] && ids[..i + 1][i + 1..] == [];
  }

  lemma RunSorted(s: Pages, ids: seq<PageId>, i: nat)
    requires i < |ids| && Sorted(Contents(s, ids))
    ensures Sorted(EntriesOf(s, ids[i]))
  {
    var es := EntriesOf(s, ids[i]);
    hide Contents;
    forall a, b | 0 <= a < b < |es| ensures EntryLess(es[a], es[b]) {
      EntryAt(s, ids, i, a);
      EntryAt(s, ids, i, b);
    }
  }

  /** `descend_to_leaf_guard_from`: for every key the descent takes one page a
      level, never hops sideways above the leaves, and ends on the leaf under the
      last downlink at or below the key. */
  method Descend(s: Pages, root: PageId, key: Key, ghost tower: seq<seq<PageId>>) returns (r: Result<PageId>)
    requires IsTower(s, tower) && tower[|tower| - 1] == [root]
    ensures r.Ok? && r.value in tower[0]
    ensures |tower| > 1 ==>
              exists j: nat :: j < |tower[0]| && Covers(Contents(s, tower[1]), key, j) && r.value == tower[0][j]
  {
    hide Contents;
    hide Sorted;
    var cur := root;
    ghost var l: nat, i: nat := |tower| - 1, 0;
    if l > 0 {
      assert LevelOver(s, tower[l], tower[l - 1], l) && NodeAt(s, tower[l], l, 0);
    }
    while s[cur].level > 0
      invariant l < |tower| && i < |tower[l]| && cur == tower[l][i] && cur < |s| && s[cur].level == l
      invariant l > 0 ==> LevelOver(s, tower[l], tower[l - 1], l) && Routes(s, tower[l], i, key)
      invariant l == 0 && |tower| > 1 ==> Covers(Contents(s, tower[1]), key, i)
      decreases l
    {
      RoutedSettles(s, tower[l], tower[l - 1], l, i, key);
      var at := WalkInternal(s, cur, key);
      cur := at.value;
      RunSorted(s, tower[l], i);
      assert NodeAt(s, tower[l], l, i);
      var child := FindChild(s[cur].entries, key);
      ghost var slot: nat :| Covers(s[cur].entries, key, slot) && child.value == s[cur].entries[slot].page;
      ghost var j := ChildRoutes(s, tower[l], tower[l - 1], l, i, key, slot);
      cur := child.value;
      l, i := l - 1, j;
      if l > 0 {
        assert LevelOver(s, tower[l], tower[l - 1], l);
        assert NodeAt(s, tower[l], l, i);
      }
    }
    return Ok(cur);
  }
}

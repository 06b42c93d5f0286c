/** Lookups, range scans and the search of a delete answer from the sorted set
    (crates/pg-am-btree/src/index.rs). */
module BtreeReads {
  import opened Keys
  import opened Outcome
  import opened Sequences
  import opened BtreePages
  import opened BtreeLog
  import opened BtreeChain
  import opened BtreeSearch
  import opened BtreeWalk

  // ---- The walk of a delete ----

  lemma LocateForWriteUnfolds(s: Pages, chain: seq<PageId>, i: nat, probe: Entry, hops: nat)
    requires IsChain(s, chain) && i < |chain|
    ensures LocateForWrite(s, chain[i], probe, hops) ==
            var j, m := Left(s, chain, i, probe), NextNonEmpty(s, chain, i + 1);
            var h := hops + (m - i - 1);
            if j < i then
              if hops + 1 > MAX_CHAIN_HOPS then Err(Corrupted) else LocateForWrite(s, chain[j], probe, hops + 1)
            else if m > i + 1 && h > MAX_CHAIN_HOPS then Err(Corrupted)
            else if m < |chain| && !DominatedAt(s, chain, m, probe) then
              if h + 1 > MAX_CHAIN_HOPS then Err(Corrupted) else LocateForWrite(s, chain[m], probe, h + 1)
            else Ok(chain[i])
  {
    hide SkipEmpty;
    hide NextNonEmpty;
    hide TotalBytes;
    var m := NextNonEmpty(s, chain, i + 1);
    assert LinkedAt(s, chain, i) && LinkedAt(s, chain, Left(s, chain, i, probe));
    assert m < |chain| ==> LinkedAt(s, chain, m);
    SkipOnChain(s, chain, i + 1, hops);
  }

  /** The walk of a delete ends at the owner too, and within `2n` hops. */
  lemma {:induction false} LocateForWriteSound(s: Pages, chain: seq<PageId>, i: nat, probe: Entry, hops: nat)
    returns (k: nat)
    requires IsChain(s, chain) && Sorted(Contents(s, chain)) && i < |chain|
    ensures LocateForWrite(s, chain[i], probe, hops).Ok? ==>
              Owner(s, chain, k, probe) && LocateForWrite(s, chain[i], probe, hops) == Ok(chain[k])
    ensures hops + WriteBudget(s, chain, i, probe) <= MAX_CHAIN_HOPS ==>
              LocateForWrite(s, chain[i], probe, hops).Ok?
    decreases MAX_CHAIN_HOPS - hops
  {
    hide Contents;
    hide LocateForWrite;
    hide IsChain;
    hide Sorted;
    LocateForWriteUnfolds(s, chain, i, probe, hops);
    var j, m := Left(s, chain, i, probe), NextNonEmpty(s, chain, i + 1);
    var h := hops + (m - i - 1);
    k := i;
    if j < i {
      if hops + 1 <= MAX_CHAIN_HOPS {
        k := LocateForWriteSound(s, chain, j, probe, hops + 1);
      }
    } else if m > i + 1 && h > MAX_CHAIN_HOPS {
    } else if m < |chain| && !DominatedAt(s, chain, m, probe) {
      if h + 1 <= MAX_CHAIN_HOPS {
        k := LocateForWriteSound(s, chain, m, probe, h + 1);
      }
    } else {
      NothingRight(s, chain, i, probe);
    }
  }

  /** Left hops, then one hop per leaf to the right. */
  ghost function WriteBudget(s: Pages, chain: seq<PageId>, i: nat, probe: Entry): nat
    requires i < |chain|
  {
    if DominatedAt(s, chain, i, probe) then i + |chain| else |chain| - i
  }

  // ---- From the owner to the sorted set ----

  /** The owner leaf and the slot found in it are the probe's lower bound in
      the whole sorted set, whatever the separators say. */
  lemma OwnerPosition(s: Pages, chain: seq<PageId>, k: nat, probe: Entry)
    requires Sorted(Contents(s, chain)) && Owner(s, chain, k, probe)
    ensures Sorted(EntriesOf(s, chain[k]))
    ensures Position(s, chain, k, LowerBound(EntriesOf(s, chain[k]), probe)) == LowerBound(Contents(s, chain), probe)
  {
    hide Contents;
    hide LowerBound;
    var es, leaf := Contents(s, chain), EntriesOf(s, chain[k]);
    var a, b := Contents(s, chain[..k]), Contents(s, chain[k + 1..]);
    ContentsAt(s, chain, k);
    assert Sorted(leaf) by {
      forall i, j | 0 <= i < j < |leaf| ensures EntryLess(leaf[i], leaf[j]) {
        assert es[|a| + i] == leaf[i] && es[|a| + j] == leaf[j];
      }
    }
    var slot := LowerBound(leaf, probe);
    var at := |a| + slot;
    LowerBoundSplits(leaf, probe);
    forall i | 0 <= i < at ensures EntryLess(es[i], probe) {
      if i < |a| {
        OwnerLeft(s, chain, k, probe);
        assert leaf != [] && es[|a|] == leaf[0] && EntryLess(es[i], es[|a|]);
        LessThanAtOrBelow(es[i], leaf[0], probe);
      } else {
        assert es[i] == leaf[i - |a|];
      }
    }
    if at < |es| {
      if slot < |leaf| {
        assert es[at] == leaf[slot];
      } else {
        OwnerRight(s, chain, k, probe);
        assert es[at] == b[0];
        EntryTrichotomy(probe, b[0]);
      }
    }
    LowerBoundUnique(es, probe, at);
  }

  lemma LessThanAtOrBelow(a: Entry, b: Entry, probe: Entry)
    requires EntryLess(a, b) && AtOrBelow(b, probe)
    ensures EntryLess(a, probe)
  {
    EntryTrichotomy(b, probe);
    if EntryLess(b, probe) {
      EntryTransitive(a, b, probe);
    }
  }

  /** With entries left of it, the owner is not the chain head by default. */
  lemma OwnerLeft(s: Pages, chain: seq<PageId>, k: nat, probe: Entry)
    requires Owner(s, chain, k, probe) && Contents(s, chain[..k]) != []
    ensures EntriesOf(s, chain[k]) != [] && AtOrBelow(EntriesOf(s, chain[k])[0], probe)
  {
    assert k != 0;
  }

  /** The entries right of the owner all sort above the probe. */
  lemma {:induction false} OwnerRight(s: Pages, chain: seq<PageId>, k: nat, probe: Entry)
    requires k < |chain| && forall j :: k < j < |chain| ==> DominatedAt(s, chain, j, probe)
    ensures Contents(s, chain[k + 1..]) != [] ==> EntryLess(probe, Contents(s, chain[k + 1..])[0])
    decreases |chain| - k
  {
    if k + 1 >= |chain| {
    } else {
      assert DominatedAt(s, chain, k + 1, probe);
      assert chain[k + 1..][1..] == chain[k + 2..];
      if EntriesOf(s, chain[k + 1]) == [] {
        OwnerRight(s, chain, k + 1, probe);
      }
    }
  }

  // ---- The walks as they run ----

  method SkipEmptyLeaves(s: Pages, from: PageId, hops: nat) returns (r: Result<(PageId, nat)>)
    ensures r == SkipEmpty(s, from, hops)
  {
    var next, h := from, hops;
    while next != INVALID && Readable(s, next) && s[next].entries == [] && h + 1 <= MAX_CHAIN_HOPS
      invariant SkipEmpty(s, from, hops) == SkipEmpty(s, next, h)
      decreases MAX_CHAIN_HOPS - h
    {
      next, h := s[next].next, h + 1;
    }
    if next == INVALID {
      return Ok((INVALID, h));
    }
    if !Readable(s, next) || s[next].entries == [] {
      return Err(Corrupted);
    }
    return Ok((next, h));
  }

  /** `walk_to_position_guard` in locate mode: read-latched, moving `cur`. */
  method WalkToPosition(s: Pages, start: PageId, probe: Entry) returns (r: Result<PageId>)
    ensures r == Locate(s, start, probe, 0)
  {
    hide SkipEmpty;
    var cur: PageId, hops: nat := start, 0;
    while true
      invariant Locate(s, start, probe, 0) == Locate(s, cur, probe, hops)
      decreases MAX_CHAIN_HOPS - hops
    {
      if !Readable(s, cur) {
        return Err(Corrupted);
      }
      var moved := false;
      var at, h := cur, hops;
      if Dominated(s[cur], probe) && s[cur].prev != INVALID {
        moved, at, h := true, s[cur].prev, h + 1;
      }
      if !Readable(s, at) {
        return Err(Corrupted);
      }
      var skip := SkipEmptyLeaves(s, s[at].next, h);
      if skip.Err? {
        return Err(skip.error);
      }
      var (right, h') := skip.value;
      h := h';
      if right != INVALID && AtOrBelow(s[right].entries[0], probe) {
        moved, at, h := true, right, h + 1;
      }
      if !moved {
        return Ok(cur);
      }
      if h > MAX_CHAIN_HOPS {
        return Err(Corrupted);
      }
      cur, hops := at, h;
    }
  }

  /** `pin_leaf_for_write`. */
  method PinLeafForWrite(s: Pages, start: PageId, probe: Entry) returns (r: Result<PageId>)
    ensures r == LocateForWrite(s, start, probe, 0)
  {
    hide SkipEmpty;
    var cur: PageId, hops: nat := start, 0;
    while true
      invariant LocateForWrite(s, start, probe, 0) == LocateForWrite(s, cur, probe, hops)
      decreases MAX_CHAIN_HOPS - hops
    {
      if !Readable(s, cur) {
        return Err(Corrupted);
      }
      if Dominated(s[cur], probe) && s[cur].prev != INVALID {
        if hops + 1 > MAX_CHAIN_HOPS {
          return Err(Corrupted);
        }
        cur, hops := s[cur].prev, hops + 1;
      } else {
        var skip := SkipEmptyLeaves(s, s[cur].next, hops);
        if skip.Err? {
          return Err(skip.error);
        }
        var (right, h) := skip.value;
        if right == INVALID || !AtOrBelow(s[right].entries[0], probe) {
          return Ok(cur);
        }
        if h + 1 > MAX_CHAIN_HOPS {
          return Err(Corrupted);
        }
        cur, hops := right, h + 1;
      }
    }
  }

  /** The search of `delete`: it finds the exact pair wherever the chain holds
      it, and reports EntryNotFound only for a pair the index does not hold. */
  method FindForDelete(s: Pages, start: PageId, e: Entry, ghost chain: seq<PageId>)
    returns (r: Result<(PageId, nat)>)
    requires IsChain(s, chain) && Sorted(Contents(s, chain)) && start in chain
    ensures r.Ok? ==>
              && r.value.0 in chain && r.value.0 < |s|
              && r.value.1 < |s[r.value.0].entries| && s[r.value.0].entries[r.value.1] == e
    ensures r == Err(EntryNotFound) ==> e !in Contents(s, chain)
    ensures r.Ok? || r == Err(EntryNotFound) || r == Err(Corrupted)
    ensures 2 * |chain| <= MAX_CHAIN_HOPS ==> (r.Ok? <==> e in Contents(s, chain))
  {
    hide Contents;
    hide LocateForWrite;
    ghost var i := IndexOf(chain, start);
    ghost var k := LocateForWriteSound(s, chain, i, e, 0);
    var leaf := PinLeafForWrite(s, start, e);
    if leaf.Err? {
      return Err(Corrupted);
    }
    assert LinkedAt(s, chain, k);
    OwnerPosition(s, chain, k, e);
    LowerBoundFinds(Contents(s, chain), e);
    ghost var at := LowerBound(Contents(s, chain), e);
    var es := s[leaf.value].entries;
    var pos := SearchPage(es, e);
    if pos < |es| {
      EntryAt(s, chain, k, pos);
    } else {
      OwnerEnd(s, chain, k, e);
    }
    if pos >= |es| || es[pos] != e {
      return Err(EntryNotFound);
    }
    return Ok((leaf.value, pos));
  }

  /** Past the end of the owner's entries the set continues above the probe. */
  lemma OwnerEnd(s: Pages, chain: seq<PageId>, k: nat, probe: Entry)
    requires Owner(s, chain, k, probe)
    ensures var at := Position(s, chain, k, |EntriesOf(s, chain[k])|);
            at < |Contents(s, chain)| ==> EntryLess(probe, Contents(s, chain)[at])
  {
    hide Contents;
    ContentsAt(s, chain, k);
    OwnerRight(s, chain, k, probe);
  }

  // ---- Reading on from the position ----

  /** The last slot of one leaf is the first of the next. */
  lemma NextLeaf(s: Pages, chain: seq<PageId>, k: nat)
    requires k < |chain|
    ensures Position(s, chain, k, |EntriesOf(s, chain[k])|) == |Contents(s, chain[..k + 1])|
  {
    ContentsAt(s, chain[..k + 1], k);
    assert chain[..k + 1][..k] == chain[..k] && chain[..k + 1][k + 1..] == [];
  }

  lemma EndOfChain(s: Pages, chain: seq<PageId>, k: nat)
    requires k + 1 == |chain|
    ensures Position(s, chain, k, |EntriesOf(s, chain[k])|) == |Contents(s, chain)|
  {
    NextLeaf(s, chain, k);
    assert chain[..k + 1] == chain;
  }

  /** The state of a scan: `out` is what lies between the position it started
      from and the slot it has reached. */
  ghost predicate Scanning(s: Pages, chain: seq<PageId>, from: nat, k: nat, slot: nat, out: seq<Entry>)
  {
    && k < |chain| && slot <= |EntriesOf(s, chain[k])|
    && from <= Position(s, chain, k, slot) <= |Contents(s, chain)|
    && out == Contents(s, chain)[from..Position(s, chain, k, slot)]
  }

  lemma ScanOne(s: Pages, chain: seq<PageId>, from: nat, k: nat, slot: nat, out: seq<Entry>)
    requires Scanning(s, chain, from, k, slot, out) && slot < |EntriesOf(s, chain[k])|
    ensures Position(s, chain, k, slot) < |Contents(s, chain)|
    ensures Contents(s, chain)[Position(s, chain, k, slot)] == EntriesOf(s, chain[k])[slot]
    ensures Scanning(s, chain, from, k, slot + 1, out + [EntriesOf(s, chain[k])[slot]])
  {
    hide Contents;
    EntryAt(s, chain, k, slot);
  }

  lemma ScanHop(s: Pages, chain: seq<PageId>, from: nat, k: nat, out: seq<Entry>)
    requires k < |chain| && Scanning(s, chain, from, k, |EntriesOf(s, chain[k])|, out)
    ensures k + 1 < |chain| ==> Scanning(s, chain, from, k + 1, 0, out)
    ensures k + 1 == |chain| ==> out == Contents(s, chain)[from..]
  {
    hide Contents;
    if k + 1 < |chain| {
      NextLeaf(s, chain, k);
    } else {
      EndOfChain(s, chain, k);
    }
  }

  /** No TID sorts below `(INVALID, 0)`. */
  function LowestWith(key: Key): Entry { Entry(key, INVALID, 0) }

  lemma LowestIsLowest(e: Entry, key: Key)
    ensures EntryLess(e, LowestWith(key)) <==> KeyLess(e.key, key)
  {}

  /** On a sorted page or set, keys from `to` on lie above what `to` does. */
  lemma KeysAbove(es: seq<Entry>, key: Key, to: nat)
    requires Sorted(es) && to < |es| && KeyLess(key, es[to].key)
    ensures forall x :: to <= x < |es| ==> KeyLess(key, es[x].key)
  {
    forall x | to < x < |es| ensures KeyLess(key, es[x].key) {
      KeysAscend(es, to, x);
      if KeyLess(es[to].key, es[x].key) {
        KeyTransitive(key, es[to].key, es[x].key);
      }
    }
  }

  /** The entries at or above `key` are those from its lowest entry's place
      on. */
  lemma FromLowest(es: seq<Entry>, key: Key)
    requires Sorted(es)
    ensures forall x :: 0 <= x < |es| ==> (x < LowerBound(es, LowestWith(key)) <==> KeyLess(es[x].key, key))
  {
    hide LowerBound;
    LowerBoundSplits(es, LowestWith(key));
    forall x | 0 <= x < |es| ensures x < LowerBound(es, LowestWith(key)) <==> KeyLess(es[x].key, key) {
      LowestIsLowest(es[x], key);
    }
  }

  /** A run of the sorted set, cut where the key changes, is every entry with
      that key. */
  lemma RunIsAnswer(es: seq<Entry>, key: Key, to: nat)
    requires Sorted(es) && LowerBound(es, LowestWith(key)) <= to <= |es|
    requires forall i :: LowerBound(es, LowestWith(key)) <= i < to ==> es[i].key == key
    requires to < |es| ==> es[to].key != key
    ensures var out := es[LowerBound(es, LowestWith(key))..to];
            Sorted(out) && forall e :: e in out <==> e in es && e.key == key
  {
    hide LowerBound;
    var from := LowerBound(es, LowestWith(key));
    FromLowest(es, key);
    KeyTrichotomy(key, key);
    if to < |es| {
      KeyTrichotomy(es[to].key, key);
      KeysAbove(es, key, to);
    }
    forall x | 0 <= x < |es| ensures from <= x < to <==> es[x].key == key {
      KeyTrichotomy(es[x].key, key);
    }
    SliceOfKey(es, from, to, key);
  }

  lemma SliceOfKey(es: seq<Entry>, from: nat, to: nat, key: Key)
    requires Sorted(es) && from <= to <= |es|
    requires forall x :: 0 <= x < |es| ==> (from <= x < to <==> es[x].key == key)
    ensures Sorted(es[from..to]) && forall e :: e in es[from..to] <==> e in es && e.key == key
  {
    forall e | e in es && e.key == key ensures e in es[from..to] {
      var x :| 0 <= x < |es| && es[x] == e;
      assert es[from..to][x - from] == e;
    }
  }

  /** The loop of `lookup_all`: collect while the key matches. */
  method CollectKey(s: Pages, leaf: PageId, at: nat, key: Key, ghost chain: seq<PageId>, ghost leafIndex: nat)
    returns (r: Result<seq<Entry>>)
    requires IsChain(s, chain) && Sorted(Contents(s, chain)) && leafIndex < |chain| && chain[leafIndex] == leaf
    requires Scanning(s, chain, LowerBound(Contents(s, chain), LowestWith(key)), leafIndex, at, [])
    ensures r.Ok? ==> Sorted(r.value) && forall e :: e in r.value <==> e in Contents(s, chain) && e.key == key
    ensures |chain| <= MAX_CHAIN_HOPS ==> r.Ok?
  {
    hide Contents;
    hide LowerBound;
    hide Scanning;
    hide Sorted;
    ghost var es := Contents(s, chain);
    ghost var from := LowerBound(es, LowestWith(key));
    ghost var k := leafIndex;
    var cur: PageId, slot: nat, hops: nat := leaf, at, 0;
    var out: seq<Entry> := [];
    LastLeaf(s, chain, k);
    while true
      invariant 0 <= k < |chain| && cur == chain[k] && cur < |s| && hops <= k
      invariant Scanning(s, chain, from, k, slot, out)
      invariant forall i :: 0 <= i < |out| ==> out[i].key == key
      decreases |chain| - k
    {
      while slot < |s[cur].entries|
        invariant Scanning(s, chain, from, k, slot, out)
        invariant forall i :: 0 <= i < |out| ==> out[i].key == key
      {
        ScanOne(s, chain, from, k, slot, out);
        if s[cur].entries[slot].key != key {
          ScannedKey(s, chain, from, k, slot, out, key);
          return Ok(out);
        }
        out := out + [s[cur].entries[slot]];
        slot := slot + 1;
      }
      ScanEnds(s, chain, from, k, slot, out);
      ScanHop(s, chain, from, k, out);
      LastLeaf(s, chain, k);
      var next := s[cur].next;
      if next == INVALID {
        assert forall i :: from <= i < |es| ==> es[i] == out[i - from];
        RunIsAnswer(es, key, |es|);
        assert out == es[from..|es|];
        return Ok(out);
      }
      hops := hops + 1;
      if hops > MAX_CHAIN_HOPS {
        return Err(Corrupted);
      }
      cur, slot, k := next, 0, k + 1;
    }
  }

  lemma ScanEnds(s: Pages, chain: seq<PageId>, from: nat, k: nat, slot: nat, out: seq<Entry>)
    requires Scanning(s, chain, from, k, slot, out) && slot >= |EntriesOf(s, chain[k])|
    ensures slot == |EntriesOf(s, chain[k])| && from <= |Contents(s, chain)|
  {}

  lemma ScannedKey(s: Pages, chain: seq<PageId>, from: nat, k: nat, slot: nat, out: seq<Entry>, key: Key)
    requires Scanning(s, chain, from, k, slot, out) && Sorted(Contents(s, chain))
    requires from == LowerBound(Contents(s, chain), LowestWith(key))
    requires slot < |EntriesOf(s, chain[k])| && EntriesOf(s, chain[k])[slot].key != key
    requires forall i :: 0 <= i < |out| ==> out[i].key == key
    ensures Sorted(out) && forall e :: e in out <==> e in Contents(s, chain) && e.key == key
  {
    hide Contents;
    hide LowerBound;
    hide Sorted;
    EntryAt(s, chain, k, slot);
    var es, to := Contents(s, chain), Position(s, chain, k, slot);
    assert forall i :: from <= i < to ==> es[i] == out[i - from];
    RunIsAnswer(es, key, to);
  }

  /** By page, then by slot, no TID twice. */
  predicate InTidOrder(es: seq<Entry>)
  {
    forall i, j :: 0 <= i < j < |es| ==>
      es[i].page < es[j].page || (es[i].page == es[j].page && es[i].slot < es[j].slot)
  }

  lemma RunInTidOrder(es: seq<Entry>, key: Key)
    requires Sorted(es) && forall e :: e in es ==> e.key == key
    ensures InTidOrder(es)
  {
    KeyTrichotomy(key, key);
    forall i, j | 0 <= i < j < |es|
      ensures es[i].page < es[j].page || (es[i].page == es[j].page && es[i].slot < es[j].slot)
    {
      assert es[i] in es && es[j] in es && EntryLess(es[i], es[j]);
    }
  }

  /** `lookup_all`, entering at any leaf: exactly the entries with the key, in
      TID order. */
  method LookupAll(s: Pages, start: PageId, key: Key, ghost chain: seq<PageId>) returns (r: Result<seq<Entry>>)
    requires IsChain(s, chain) && Sorted(Contents(s, chain)) && start in chain
    ensures r.Ok? ==> forall e :: e in r.value <==> e in Contents(s, chain) && e.key == key
    ensures r.Ok? ==> InTidOrder(r.value)
    ensures |chain| * (|chain| + 2) <= MAX_CHAIN_HOPS ==> r.Ok?
  {
    hide Contents;
    hide Locate;
    hide LowerBound;
    var probe := LowestWith(key);
    ghost var i := IndexOf(chain, start);
    Affordable(s, chain, i, probe);
    var leaf := WalkToPosition(s, start, probe);
    if leaf.Err? {
      return Err(Corrupted);
    }
    ghost var k := LocateSound(s, chain, i, probe, 0);
    OwnerPosition(s, chain, k, probe);
    LastLeaf(s, chain, k);
    var slot := SearchPage(s[leaf.value].entries, probe);
    ContentsAt(s, chain, k);
    r := CollectKey(s, leaf.value, slot, key, chain, k);
    if r.Ok? {
      RunInTidOrder(r.value, key);
    }
  }

  lemma LastLeaf(s: Pages, chain: seq<PageId>, k: nat)
    requires IsChain(s, chain) && k < |chain|
    ensures chain[k] < |s|
    ensures s[chain[k]].next == INVALID <==> k + 1 == |chain|
    ensures k + 1 < |chain| ==> s[chain[k]].next == chain[k + 1] && chain[k + 1] < |s|
  {
    assert LinkedAt(s, chain, k);
    assert k + 1 < |chain| ==> LinkedAt(s, chain, k + 1);
  }

  /** The walk to the first leaf and the scan from it fit the hop bound. */
  lemma Affordable(s: Pages, chain: seq<PageId>, i: nat, probe: Entry)
    requires IsChain(s, chain) && Sorted(Contents(s, chain)) && i < |chain|
    ensures |chain| * (|chain| + 2) <= MAX_CHAIN_HOPS ==> Locate(s, chain[i], probe, 0).Ok? && |chain| <= MAX_CHAIN_HOPS
  {
    hide Contents;
    hide Locate;
    if |chain| * (|chain| + 2) <= MAX_CHAIN_HOPS {
      LocateWithin(s, chain, i, probe);
      assert |chain| * 1 <= |chain| * (|chain| + 2);
    }
  }

  // ---- Range scans ----

  /** `low <= key < high`, an open side unbounded. */
  predicate InRange(e: Entry, low: Option<Key>, high: Option<Key>)
  {
    && (low.Some? ==> !KeyLess(e.key, low.value))
    && (high.Some? ==> KeyLess(e.key, high.value))
  }

  /** The bounds of a search for the keys that begin with a string. */
  predicate IsPrefixRange(low: Option<Key>, high: Option<Key>)
  {
    low.Some? && low.value != [] && low.value[|low.value| - 1] < 255 && high == Some(PrefixEnd(low.value))
  }

  lemma PrefixRange(low: Option<Key>, high: Option<Key>)
    ensures IsPrefixRange(low, high) ==>
              low.Some? && forall e: Entry :: InRange(e, low, high) <==> low.value <= e.key
  {
    if IsPrefixRange(low, high) {
      forall e: Entry ensures InRange(e, low, high) <==> low.value <= e.key {
        PrefixIsRange(low.value, e.key);
      }
    }
  }

  function LowKey(low: Option<Key>): Key { if low.Some? then low.value else [] }

  /** A run of the sorted set from the lower bound, cut at the upper bound, is
      every entry in the range. */
  lemma RangeIsAnswer(es: seq<Entry>, low: Option<Key>, high: Option<Key>, to: nat)
    requires Sorted(es) && LowerBound(es, LowestWith(LowKey(low))) <= to <= |es|
    requires high.Some? ==> forall i :: LowerBound(es, LowestWith(LowKey(low))) <= i < to ==> KeyLess(es[i].key, high.value)
    requires to < |es| ==> high.Some? && !KeyLess(es[to].key, high.value)
    ensures var out := es[LowerBound(es, LowestWith(LowKey(low)))..to];
            Sorted(out) && forall e :: e in out <==> e in es && InRange(e, low, high)
  {
    var from := LowerBound(es, LowestWith(LowKey(low)));
    FromLowest(es, LowKey(low));
    if to < |es| {
      KeysNotBelow(es, high.value, to);
    }
    forall x | 0 <= x < |es| ensures from <= x < to <==> InRange(es[x], low, high) {
      assert low.None? ==> !KeyLess(es[x].key, []);
    }
    SliceOfRange(es, from, to, low, high);
  }

  lemma KeysNotBelow(es: seq<Entry>, key: Key, to: nat)
    requires Sorted(es) && to < |es| && !KeyLess(es[to].key, key)
    ensures forall x :: to <= x < |es| ==> !KeyLess(es[x].key, key)
  {
    forall x | to < x < |es| ensures !KeyLess(es[x].key, key) {
      KeysAscend(es, to, x);
      if KeyLess(es[x].key, key) && KeyLess(es[to].key, es[x].key) {
        KeyTransitive(es[to].key, es[x].key, key);
      }
    }
  }

  lemma SliceOfRange(es: seq<Entry>, from: nat, to: nat, low: Option<Key>, high: Option<Key>)
    requires Sorted(es) && from <= to <= |es|
    requires forall x :: 0 <= x < |es| ==> (from <= x < to <==> InRange(es[x], low, high))
    ensures Sorted(es[from..to]) && forall e :: e in es[from..to] <==> e in es && InRange(e, low, high)
  {
    hide InRange;
    forall e | e in es && InRange(e, low, high) ensures e in es[from..to] {
      var x :| 0 <= x < |es| && es[x] == e;
      assert es[from..to][x - from] == e;
    }
  }

  lemma ScannedRange(s: Pages, chain: seq<PageId>, from: nat, k: nat, slot: nat, out: seq<Entry>,
                     low: Option<Key>, high: Option<Key>)
    requires Scanning(s, chain, from, k, slot, out) && Sorted(Contents(s, chain))
    requires from == LowerBound(Contents(s, chain), LowestWith(LowKey(low)))
    requires slot < |EntriesOf(s, chain[k])| && high.Some? && !KeyLess(EntriesOf(s, chain[k])[slot].key, high.value)
    requires forall i :: 0 <= i < |out| ==> KeyLess(out[i].key, high.value)
    ensures Sorted(out) && forall e :: e in out <==> e in Contents(s, chain) && InRange(e, low, high)
  {
    hide Contents;
    hide LowerBound;
    hide Sorted;
    EntryAt(s, chain, k, slot);
    var es, to := Contents(s, chain), Position(s, chain, k, slot);
    assert forall i :: from <= i < to ==> es[i] == out[i - from];
    RangeIsAnswer(es, low, high, to);
  }

  /** The loop of `range_scan`: collect until the upper bound. */
  method CollectRange(s: Pages, leaf: PageId, at: nat, low: Option<Key>, high: Option<Key>,
                      ghost chain: seq<PageId>, ghost leafIndex: nat) returns (r: Result<seq<Entry>>)
    requires IsChain(s, chain) && Sorted(Contents(s, chain)) && leafIndex < |chain| && chain[leafIndex] == leaf
    requires Scanning(s, chain, LowerBound(Contents(s, chain), LowestWith(LowKey(low))), leafIndex, at, [])
    ensures r.Ok? ==> Sorted(r.value) && forall e :: e in r.value <==> e in Contents(s, chain) && InRange(e, low, high)
    ensures |chain| <= MAX_CHAIN_HOPS ==> r.Ok?
    ensures high.None? ==> (r.Ok? <==> |chain| - leafIndex <= MAX_CHAIN_HOPS + 1)
  {
    hide Contents;
    hide LowerBound;
    hide Scanning;
    hide Sorted;
    ghost var es := Contents(s, chain);
    ghost var from := LowerBound(es, LowestWith(LowKey(low)));
    ghost var k := leafIndex;
    var cur: PageId, slot: nat, hops: nat := leaf, at, 0;
    var out: seq<Entry> := [];
    LastLeaf(s, chain, k);
    while true
      invariant 0 <= k < |chain| && cur == chain[k] && cur < |s| && hops == k - leafIndex <= MAX_CHAIN_HOPS
      invariant Scanning(s, chain, from, k, slot, out)
      invariant high.Some? ==> forall i :: 0 <= i < |out| ==> KeyLess(out[i].key, high.value)
      decreases |chain| - k
    {
      while slot < |s[cur].entries|
        invariant Scanning(s, chain, from, k, slot, out)
        invariant high.Some? ==> forall i :: 0 <= i < |out| ==> KeyLess(out[i].key, high.value)
      {
        ScanOne(s, chain, from, k, slot, out);
        if high.Some? && !KeyLess(s[cur].entries[slot].key, high.value) {
          ScannedRange(s, chain, from, k, slot, out, low, high);
          return Ok(out);
        }
        out := out + [s[cur].entries[slot]];
        slot := slot + 1;
      }
      ScanEnds(s, chain, from, k, slot, out);
      ScanHop(s, chain, from, k, out);
      LastLeaf(s, chain, k);
      var next := s[cur].next;
      if next == INVALID {
        assert forall i :: from <= i < |es| ==> es[i] == out[i - from];
        RangeIsAnswer(es, low, high, |es|);
        assert out == es[from..|es|];
        return Ok(out);
      }
      hops := hops + 1;
      if hops > MAX_CHAIN_HOPS {
        return Err(Corrupted);
      }
      cur, slot, k := next, 0, k + 1;
    }
  }

  /** Every leaf holds something, unless it is the only one, and names its left
      neighbour. */
  ghost predicate Packed(s: Pages, chain: seq<PageId>)
  {
    && (|chain| > 1 ==> forall i :: 0 <= i < |chain| ==> EntriesOf(s, chain[i]) != [])
    && forall i :: 0 < i < |chain| ==> chain[i] < |s| && s[chain[i]].prev == chain[i - 1]
  }

  /** On such a chain the walk to the lowest probe steps left leaf by leaf. */
  lemma {:induction false} WalkToHead(s: Pages, chain: seq<PageId>, i: nat, hops: nat)
    requires IsChain(s, chain) && Sorted(Contents(s, chain)) && Packed(s, chain) && i < |chain|
    ensures Locate(s, chain[i], LowestWith([]), hops)
            == if i > 0 && hops + i > MAX_CHAIN_HOPS then Err(Corrupted) else Ok(chain[0])
    decreases i
  {
    hide Contents;
    hide Sorted;
    var probe := LowestWith([]);
    hide Accounted;
    hide SkipEmpty;
    hide IsChain;
    LeafLinks(s, chain, i);
    HeadsAbove(s, chain, if i == 0 then 1 else i);
    if i == 0 {
      SkipOnChain(s, chain, 1, hops);
      if 1 < |chain| {
        LeafLinks(s, chain, 1);
      }
    } else {
      LeafLinks(s, chain, i - 1);
      SkipOnChain(s, chain, i, hops + 1);
      if hops + 1 <= MAX_CHAIN_HOPS {
        WalkToHead(s, chain, i - 1, hops + 1);
      }
    }
  }

  lemma HeadsAbove(s: Pages, chain: seq<PageId>, i: nat)
    requires Sorted(Contents(s, chain)) && Packed(s, chain) && 0 < i <= |chain|
    ensures i < |chain| ==> EntriesOf(s, chain[i]) != [] && EntryLess(LowestWith([]), EntriesOf(s, chain[i])[0])
  {
    hide Contents;
    hide Sorted;
    if i < |chain| {
      assert EntriesOf(s, chain[0]) != [] && EntriesOf(s, chain[i]) != [];
      AcrossLeaves(s, chain, 0, 0, i, 0);
      LowestIsLowest(EntriesOf(s, chain[0])[0], []);
    }
  }

  /** `range_scan`, entering at any leaf: exactly the entries in the range, in
      order. A scan of everything hops once a leaf, so a packed chain of more
      than MAX_CHAIN_HOPS + 1 leaves is refused, and only such a one. */
  method RangeScan(s: Pages, start: PageId, low: Option<Key>, high: Option<Key>, ghost chain: seq<PageId>)
    returns (r: Result<seq<Entry>>)
    requires IsChain(s, chain) && Sorted(Contents(s, chain)) && start in chain
    ensures r.Ok? ==> Sorted(r.value) && forall e :: e in r.value <==> e in Contents(s, chain) && InRange(e, low, high)
    ensures |chain| * (|chain| + 2) <= MAX_CHAIN_HOPS ==> r.Ok?
    ensures low.None? && high.None? && Packed(s, chain) ==> (r.Ok? <==> |chain| <= MAX_CHAIN_HOPS + 1)
    ensures r.Ok? && IsPrefixRange(low, high) ==>
              forall e :: e in r.value <==> e in Contents(s, chain) && low.value <= e.key
  {
    PrefixRange(low, high);
    hide IsPrefixRange;
    hide Contents;
    hide Locate;
    hide LowerBound;
    hide Packed;
    var probe := LowestWith(LowKey(low));
    ghost var i := IndexOf(chain, start);
    Affordable(s, chain, i, probe);
    if low.None? && Packed(s, chain) {
      WalkToHead(s, chain, i, 0);
    }
    var leaf := WalkToPosition(s, start, probe);
    if leaf.Err? {
      return Err(Corrupted);
    }
    ghost var k := LocateSound(s, chain, i, probe, 0);
    OwnerPosition(s, chain, k, probe);
    LastLeaf(s, chain, k);
    var slot := 0;
    if low.Some? {
      slot := SearchPage(s[leaf.value].entries, probe);
    } else {
      NothingBelow(Contents(s, chain));
    }
    ContentsAt(s, chain, k);
    r := CollectRange(s, leaf.value, slot, low, high, chain, k);
  }

  lemma NothingBelow(es: seq<Entry>)
    ensures LowerBound(es, LowestWith([])) == 0
  {
    if es != [] {
      LowestIsLowest(es[0], []);
    }
  }
}

/** Searching one page and choosing where to split it
    (crates/pg-am-btree/src/index.rs). */
module BtreeSearch {
  import opened Keys
  import opened Outcome
  import opened Sequences
  import opened BtreePages

  /** The first slot whose entry is at or above `e`. */
  function LowerBound(es: seq<Entry>, e: Entry): (n: nat)
    ensures n <= |es|
    ensures forall i :: 0 <= i < n ==> EntryLess(es[i], e)
    ensures n < |es| ==> !EntryLess(es[n], e)
  {
    if es == [] || !EntryLess(es[0], e) then 0 else 1 + LowerBound(es[1..], e)
  }

  /** On a sorted page everything from the lower bound on is at or above. */
  lemma LowerBoundSplits(es: seq<Entry>, e: Entry)
    requires Sorted(es)
    ensures forall i :: LowerBound(es, e) <= i < |es| ==> !EntryLess(es[i], e)
  {
    var n := LowerBound(es, e);
    forall i | n < i < |es| ensures !EntryLess(es[i], e) {
      if EntryLess(es[i], e) {
        EntryTransitive(es[n], es[i], e);
      }
    }
  }

  /** The lower bound is the only place that cuts a sorted page this way. */
  lemma LowerBoundUnique(es: seq<Entry>, e: Entry, n: nat)
    requires n <= |es|
    requires forall i :: 0 <= i < n ==> EntryLess(es[i], e)
    requires n < |es| ==> !EntryLess(es[n], e)
    requires Sorted(es)
    ensures LowerBound(es, e) == n
  {
    LowerBoundSplits(es, e);
  }

  /** The slot a binary search between `lo` and `hi` ends at, on any page. */
  function Bisect(es: seq<Entry>, e: Entry, lo: nat, hi: nat): (n: nat)
    requires lo <= hi <= |es|
    ensures lo <= n <= hi
    decreases hi - lo
  {
    if lo == hi then lo
    else
      var mid := (lo + hi) / 2;
      if EntryLess(es[mid], e) then Bisect(es, e, mid + 1, hi) else Bisect(es, e, lo, mid)
  }

  function SearchSlot(es: seq<Entry>, e: Entry): (n: nat)
    ensures n <= |es|
  {
    Bisect(es, e, 0, |es|)
  }

  lemma {:induction false} BisectSorted(es: seq<Entry>, e: Entry, lo: nat, hi: nat)
    requires Sorted(es) && lo <= LowerBound(es, e) <= hi <= |es|
    ensures Bisect(es, e, lo, hi) == LowerBound(es, e)
    decreases hi - lo
  {
    if lo == hi {
    } else {
      LowerBoundSplits(es, e);
      var mid := (lo + hi) / 2;
      if EntryLess(es[mid], e) {
        BisectSorted(es, e, mid + 1, hi);
      } else {
        BisectSorted(es, e, lo, mid);
      }
    }
  }

  /** Binary search: `leaf_lower_bound`, `internal_lower_bound` and
      `entry_lower_bound` alike. On a sorted page it finds the lower bound. */
  method SearchPage(es: seq<Entry>, e: Entry) returns (lo: nat)
    ensures lo == SearchSlot(es, e)
    ensures Sorted(es) ==> lo == LowerBound(es, e)
  {
    hide LowerBound;
    if Sorted(es) {
      BisectSorted(es, e, 0, |es|);
    }
    lo := 0;
    var hi := |es|;
    while lo < hi
      invariant 0 <= lo <= hi <= |es| && Bisect(es, e, lo, hi) == SearchSlot(es, e)
    {
      var mid := (lo + hi) / 2;
      if EntryLess(es[mid], e) {
        lo := mid + 1;
      } else {
        hi := mid;
      }
    }
  }

  /** The exact pair is on a sorted page only at its lower bound. */
  lemma LowerBoundFinds(es: seq<Entry>, e: Entry)
    requires Sorted(es)
    ensures e in es <==> LowerBound(es, e) < |es| && es[LowerBound(es, e)] == e
  {
    LowerBoundSplits(es, e);
    EntryTrichotomy(e, e);
    if e in es {
      var i :| 0 <= i < |es| && es[i] == e;
      assert LowerBound(es, e) <= i;
    }
  }

  lemma LowerBoundKeepsSorted(es: seq<Entry>, e: Entry)
    requires Sorted(es) && e !in es
    ensures Sorted(InsertAt(es, LowerBound(es, e), e))
  {
    var pos := LowerBound(es, e);
    LowerBoundSplits(es, e);
    var es' := InsertAt(es, pos, e);
    forall i, j | 0 <= i < j < |es'| ensures EntryLess(es'[i], es'[j]) {
      var i0, j0 := if i > pos then i - 1 else i, if j > pos then j - 1 else j;
      assert i != pos ==> es'[i] == es[i0];
      assert j != pos ==> es'[j] == es[j0];
      if i == pos { EntryTrichotomy(e, es[j0]); }
    }
  }

  /** `leaf_insert_slot`: on a sorted page the exact pair is refused, and any
      other gets the slot that keeps the page sorted. */
  method LeafInsertSlot(es: seq<Entry>, e: Entry) returns (r: Result<nat>)
    requires Sorted(es)
    ensures r == Err(DuplicateKey) <==> e in es
    ensures e !in es ==> r.Ok? && r.value == LowerBound(es, e) && Sorted(InsertAt(es, r.value, e))
  {
    var pos := SearchPage(es, e);
    LowerBoundFinds(es, e);
    if pos < |es| && es[pos] == e {
      return Err(DuplicateKey);
    }
    LowerBoundKeepsSorted(es, e);
    return Ok(pos);
  }

  /** The entry a descent for `key` follows. */
  ghost predicate Covers(es: seq<Entry>, key: Key, slot: nat)
  {
    && slot < |es|
    && (slot == 0 || !KeyLess(key, es[slot].key))
    && forall i :: slot < i < |es| ==> KeyLess(key, es[i].key)
  }

  /** `find_child`: the last entry whose key is at or below the probe, or the
      first entry. */
  method FindChild(es: seq<Entry>, key: Key) returns (r: Result<PageId>)
    requires Sorted(es)
    ensures es == [] <==> r.Err?
    ensures r.Ok? ==> exists slot: nat :: Covers(es, key, slot) && r.value == es[slot].page
  {
    if es == [] {
      return Err(Corrupted);
    }
    var lo, hi := 0, |es|;
    while lo < hi
      invariant 0 <= lo <= hi <= |es|
      invariant forall i :: 0 <= i < lo ==> !KeyLess(key, es[i].key)
      invariant forall i :: hi <= i < |es| ==> KeyLess(key, es[i].key)
    {
      var mid := (lo + hi) / 2;
      if !KeyLess(key, es[mid].key) {
        forall i | 0 <= i < mid ensures !KeyLess(key, es[i].key) {
          KeysAscend(es, i, mid);
          if KeyLess(key, es[i].key) && KeyLess(es[i].key, es[mid].key) {
            KeyTransitive(key, es[i].key, es[mid].key);
          }
        }
        lo := mid + 1;
      } else {
        forall i | mid < i < |es| ensures KeyLess(key, es[i].key) {
          KeysAscend(es, mid, i);
          if KeyLess(es[mid].key, es[i].key) {
            KeyTransitive(key, es[mid].key, es[i].key);
          }
        }
        hi := mid;
      }
    }
    var slot := if lo == 0 then 0 else lo - 1;
    assert Covers(es, key, slot);
    return Ok(es[slot].page);
  }

  lemma KeysAscend(es: seq<Entry>, i: nat, j: nat)
    requires Sorted(es) && i < j < |es|
    ensures KeyLess(es[i].key, es[j].key) || es[i].key == es[j].key
  {
    assert EntryLess(es[i], es[j]);
  }

  /** `internal_page_points_at`. */
  method PointsAt(es: seq<Entry>, child: PageId) returns (found: bool)
    ensures found <==> exists i :: 0 <= i < |es| && es[i].page == child
  {
    for i := 0 to |es|
      invariant forall j :: 0 <= j < i ==> es[j].page != child
    {
      if es[i].page == child {
        return true;
      }
    }
    return false;
  }

  /** Entries the key bound admits. */
  predicate WithinKeyBound(es: seq<Entry>)
  {
    forall i :: 0 <= i < |es| ==> |es[i].key| <= MAX_INDEX_KEY_BYTES
  }

  /** `left_bytes(s)` of the cost model: entry bytes and one line pointer. */
  function LeftCost(level: nat, es: seq<Entry>, s: nat): nat
    requires s <= |es|
  {
    TotalCost(level, es[..s])
  }

  /** Splitting at `s` leaves room for an entry of that cost, placed at `at`, in
      the half it falls into, and the other half fits as it is. */
  predicate FitsSplit(level: nat, es: seq<Entry>, cost: nat, at: nat, s: nat)
    requires s <= |es|
  {
    var total, left := TotalCost(level, es), LeftCost(level, es, s);
    && total - left + (if s >= at then 0 else cost) <= PAGE_CAPACITY
    && left + (if s >= at then cost else 0) <= PAGE_CAPACITY
  }

  /** The same for a pending entry at its sorted place. */
  predicate ValidSplit(level: nat, es: seq<Entry>, pending: Entry, s: nat)
    requires s <= |es|
  {
    FitsSplit(level, es, EntryCost(level, pending), LowerBound(es, pending), s)
  }

  lemma LeftCostStep(level: nat, es: seq<Entry>, s: nat)
    requires s < |es|
    ensures LeftCost(level, es, s + 1) == LeftCost(level, es, s) + EntryCost(level, es[s])
  {
    assert es[..s + 1] == es[..s] + [es[s]];
    TotalBytesConcat(level, es[..s], [es[s]]);
  }

  lemma LeftCostSplit(level: nat, es: seq<Entry>, s: nat)
    requires s <= |es|
    ensures TotalCost(level, es) == LeftCost(level, es, s) + TotalCost(level, es[s..])
  {
    assert es == es[..s] + es[s..];
    TotalBytesConcat(level, es[..s], es[s..]);
  }

  /** Split-point existence: under the key bound, a page of at least two
      entries always has a valid split point, at or just left of the pending
      entry's place. */
  lemma SplitPointExists(level: nat, es: seq<Entry>, pending: Entry) returns (s: nat)
    requires |es| >= 2 && TotalCost(level, es) <= PAGE_CAPACITY
    requires WithinKeyBound(es) && |pending.key| <= MAX_INDEX_KEY_BYTES
    ensures 1 <= s < |es| && ValidSplit(level, es, pending, s)
  {
    var p := LowerBound(es, pending);
    s := if p <= 1 then 1
         else if p < |es| && LeftCost(level, es, p) + EntryCost(level, pending) <= PAGE_CAPACITY then p
         else p - 1;
    LeftCostSplit(level, es, s);
    if p <= 1 {
      LeftCostStep(level, es, 0);
    } else if s == p - 1 {
      LeftCostStep(level, es, p - 1);
      LeftCostSplit(level, es, p);
      assert p == |es| ==> es[p..] == [];
    }
  }

  function Distance(a: nat, b: nat): nat { if a < b then b - a else a - b }

  /** The slot that fits, looking outwards from the median, `d` slots away on. */
  function NearestFit(level: nat, es: seq<Entry>, cost: nat, at: nat, d: nat): (r: Option<nat>)
    ensures r.Some? ==> 1 <= r.value < |es| && FitsSplit(level, es, cost, at, r.value)
    decreases |es| / 2 + 2 - d
  {
    var high, low := |es| / 2 + d, if |es| / 2 < d then 0 else |es| / 2 - d;
    if d > |es| / 2 + 1 then None
    else if 1 <= high < |es| && FitsSplit(level, es, cost, at, high) then Some(high)
    else if 1 <= low < |es| && FitsSplit(level, es, cost, at, low) then Some(low)
    else NearestFit(level, es, cost, at, d + 1)
  }

  /** The slot a page is split at to make room for a pending entry. */
  function SplitSlot(level: nat, es: seq<Entry>, pending: Entry): (r: Option<nat>)
    ensures r.Some? ==> 1 <= r.value < |es|
  {
    if |es| < 2 then None else NearestFit(level, es, EntryCost(level, pending), SearchSlot(es, pending), 0)
  }

  lemma {:induction false} NearestFitIsNearest(level: nat, es: seq<Entry>, cost: nat, at: nat, d: nat)
    requires forall t :: 1 <= t < |es| && Distance(t, |es| / 2) < d ==> !FitsSplit(level, es, cost, at, t)
    ensures var r := NearestFit(level, es, cost, at, d);
            forall t :: 1 <= t < |es| && FitsSplit(level, es, cost, at, t) ==>
              r.Some? && Distance(r.value, |es| / 2) <= Distance(t, |es| / 2)
    decreases |es| / 2 + 2 - d
  {
    hide FitsSplit;
    if d > |es| / 2 + 1 {
    } else {
      var high, low := |es| / 2 + d, if |es| / 2 < d then 0 else |es| / 2 - d;
      if !(1 <= high < |es| && FitsSplit(level, es, cost, at, high))
         && !(1 <= low < |es| && FitsSplit(level, es, cost, at, low)) {
        NearestFitIsNearest(level, es, cost, at, d + 1);
      }
    }
  }

  /** On a sorted page within the key bound there is such a slot, and it is the
      valid one closest to the median. */
  lemma SplitSlotIsBest(level: nat, es: seq<Entry>, pending: Entry)
    requires Sorted(es) && |es| >= 2
    ensures var r := SplitSlot(level, es, pending);
            && (r.Some? ==> ValidSplit(level, es, pending, r.value))
            && (forall t :: 1 <= t < |es| && ValidSplit(level, es, pending, t) ==>
                  r.Some? && Distance(r.value, |es| / 2) <= Distance(t, |es| / 2))
            && ((TotalCost(level, es) <= PAGE_CAPACITY && WithinKeyBound(es)
                 && |pending.key| <= MAX_INDEX_KEY_BYTES) ==> r.Some?)
  {
    hide FitsSplit;
    hide LowerBound;
    hide TotalCost;
    BisectSorted(es, pending, 0, |es|);
    NearestFitIsNearest(level, es, EntryCost(level, pending), SearchSlot(es, pending), 0);
    if TotalCost(level, es) <= PAGE_CAPACITY && WithinKeyBound(es) && |pending.key| <= MAX_INDEX_KEY_BYTES {
      var s := SplitPointExists(level, es, pending);
    }
  }

  /** The outward scan from the median. */
  method ScanForFit(level: nat, es: seq<Entry>, cost: nat, at: nat) returns (r: Option<nat>)
    ensures r == NearestFit(level, es, cost, at, 0)
  {
    hide FitsSplit;
    var mid := |es| / 2;
    var d := 0;
    while d <= mid + 1
      invariant 0 <= d <= mid + 2 && NearestFit(level, es, cost, at, 0) == NearestFit(level, es, cost, at, d)
    {
      var high, low := mid + d, if mid < d then 0 else mid - d;
      if 1 <= high < |es| && FitsSplit(level, es, cost, at, high) {
        return Some(high);
      }
      if 1 <= low < |es| && FitsSplit(level, es, cost, at, low) {
        return Some(low);
      }
      d := d + 1;
    }
    return None;
  }

  /** `choose_split_slot`. Under the key bound the `PageFull` fallback is
      unreachable on a sorted page, and the slot is a valid one closest to the
      median. */
  method ChooseSplitSlot(level: nat, es: seq<Entry>, pending: Option<Entry>) returns (r: Result<nat>)
    ensures |es| < 2 <==> r == Err(Corrupted)
    ensures |es| >= 2 && pending.None? ==> r == Ok(|es| / 2)
    ensures r.Ok? ==> 1 <= r.value < |es|
    ensures pending.Some? ==> (r.Ok? <==> SplitSlot(level, es, pending.value).Some?)
    ensures pending.Some? && r.Ok? ==> SplitSlot(level, es, pending.value) == Some(r.value)
    ensures r.Ok? && pending.Some? && Sorted(es) ==>
              && ValidSplit(level, es, pending.value, r.value)
              && forall t :: 1 <= t < |es| && ValidSplit(level, es, pending.value, t) ==>
                   Distance(r.value, |es| / 2) <= Distance(t, |es| / 2)
    ensures Sorted(es) && TotalCost(level, es) <= PAGE_CAPACITY && |es| >= 2 && WithinKeyBound(es) ==>
              ((pending.Some? ==> |pending.value.key| <= MAX_INDEX_KEY_BYTES) ==> r.Ok?)
  {
    hide NearestFit;
    hide ValidSplit;
    hide SearchSlot;
    hide TotalCost;
    if |es| < 2 {
      return Err(Corrupted);
    }
    if pending.None? {
      return Ok(|es| / 2);
    }
    if Sorted(es) {
      SplitSlotIsBest(level, es, pending.value);
    }
    hide Sorted;
    var at := SearchPage(es, pending.value);
    var slot := ScanForFit(level, es, EntryCost(level, pending.value), at);
    return if slot.Some? then Ok(slot.value) else Err(PageFull);
  }

  /** After Copy at a valid split point, the half an absent pending entry is
      compared into has room for it. */
  lemma PendingHalfHasRoom(left: Page, right: Page, pending: Entry, s: nat)
    requires Accounted(left) && Sorted(left.entries) && 1 <= s < |left.entries|
    requires right == InitPage(left.level, right.flags).(lsn := right.lsn, prev := right.prev, next := right.next)
    requires pending !in left.entries && ValidSplit(left.level, left.entries, pending, s)
    ensures ApplySplitCopy(left, right, s, true).Ok?
    ensures var (l, r) := ApplySplitCopy(left, right, s, true).value;
            var half := if EntryLess(pending, left.entries[s]) then l else r;
            && l.entries == left.entries[..s] && r.entries == left.entries[s..]
            && FreeSpace(half) >= EntryCost(half.level, pending)
  {
    var es := left.entries;
    RebuildExact(left, s);
    LeftCostSplit(left.level, es, s);
    AppendAllExact(right, es[s..]);
    assert right.entries + es[s..] == es[s..];
    LowerBoundSplits(es, pending);
    EntryTrichotomy(es[s], pending);
  }
}

/** Bottom-up bulk load (crates/pg-am-btree/src/bulkload.rs). */
module BulkLoad {
  import opened Keys
  import opened Outcome
  import opened Sequences
  import opened BtreePages
  import opened BtreeLog
  import opened BtreeChain
  import opened BtreeContent
  import opened BtreeSearch
  import opened BtreeWalk
  import opened BtreeReads
  import opened BtreeDescent

  // ---- Sorting the input ----

  ghost function SortedOf(entries: seq<Entry>): seq<Entry>
  {
    if entries == [] then [] else WithEntry(SortedOf(entries[..|entries| - 1]), entries[|entries| - 1])
  }

  ghost function WithEntry(es: seq<Entry>, e: Entry): seq<Entry>
  {
    if e in es then es else InsertAt(es, LowerBound(es, e), e)
  }

  /** There is only one strictly sorted list of the same entries. */
  lemma {:induction false} SortedUnique(a: seq<Entry>, b: seq<Entry>)
    requires Sorted(a) && Sorted(b) && forall e :: e in a <==> e in b
    ensures a == b
  {
    if a == [] {
      HasMember(b);
    } else {
      SameLast(a, b);
      var x, a', b' := a[|a| - 1], a[..|a| - 1], b[..|b| - 1];
      assert a == a' + [x] && b == b' + [x];
      forall e ensures e in a' <==> e in b' {
        WithoutLast(a, e);
        WithoutLast(b, e);
      }
      SortedUnique(a', b');
    }
  }

  lemma HasMember(es: seq<Entry>)
    ensures es == [] || exists e :: e in es
  {
    if es != [] {
      assert es[0] in es;
    }
  }

  lemma WithoutLast(es: seq<Entry>, e: Entry)
    requires Sorted(es) && es != []
    ensures e in es[..|es| - 1] <==> e in es && e != es[|es| - 1]
  {
    if e in es[..|es| - 1] {
      var i :| 0 <= i < |es| - 1 && es[i] == e;
      EntryTrichotomy(es[i], es[|es| - 1]);
    }
  }

  lemma SameLast(a: seq<Entry>, b: seq<Entry>)
    requires Sorted(a) && Sorted(b) && a != [] && forall e :: e in a <==> e in b
    ensures b != [] && a[|a| - 1] == b[|b| - 1]
  {
    assert a[0] in a;
    var x, y := a[|a| - 1], b[|b| - 1];
    assert x in b && y in a;
    var i :| 0 <= i < |a| && a[i] == y;
    var j :| 0 <= j < |b| && b[j] == x;
    EntryTrichotomy(x, y);
  }

  lemma WithEntrySorts(es: seq<Entry>, e: Entry)
    requires Sorted(es)
    ensures Sorted(WithEntry(es, e)) && |WithEntry(es, e)| <= |es| + 1 && forall x :: x in WithEntry(es, e) <==> x in es || x == e
  {
    if e !in es {
      LowerBoundKeepsSorted(es, e);
      hide Sorted;
      hide LowerBound;
      InsertedElements(es, LowerBound(es, e), e);
    }
  }

  lemma {:induction false} SortedOfSorts(entries: seq<Entry>)
    ensures Sorted(SortedOf(entries)) && |SortedOf(entries)| <= |entries|
    ensures forall e :: e in SortedOf(entries) <==> e in entries
  {
    hide Sorted;
    hide WithEntry;
    if entries == [] {
      NothingSorted();
    } else {
      var n := |entries| - 1;
      SortedOfSorts(entries[..n]);
      assert entries == entries[..n] + [entries[n]];
      WithEntrySorts(SortedOf(entries[..n]), entries[n]);
    }
  }

  lemma NothingSorted()
    ensures Sorted([])
  {}

  /** `sort_by` and `dedup_by`: strictly sorted, same entries. */
  method SortAndDedup(entries: seq<Entry>) returns (out: seq<Entry>)
    ensures Sorted(out) && out == SortedOf(entries) && forall e :: e in out <==> e in entries
  {
    hide Sorted;
    hide LowerBound;
    out := [];
    for i := 0 to |entries|
      invariant out == SortedOf(entries[..i])
    {
      SortedOfSorts(entries[..i]);
      var at := SearchPage(out, entries[i]);
      LowerBoundFinds(out, entries[i]);
      assert entries[..i + 1][..i] == entries[..i];
      if at == |out| || out[at] != entries[i] {
        out := InsertAt(out, at, entries[i]);
      }
    }
    assert entries[..|entries|] == entries;
    SortedOfSorts(entries);
  }

  // ---- Partitioning a level ----

  function Sum(costs: seq<nat>): nat
  {
    if costs == [] then 0 else Sum(costs[..|costs| - 1]) + costs[|costs| - 1]
  }

  type Run = (nat, nat)

  /** One run: it fits a page (or is a single item), and the next item would
      not have fitted any more. */
  ghost predicate GoodRun(costs: seq<nat>, run: Run)
  {
    && run.0 < run.1 <= |costs|
    && (run.1 == run.0 + 1 || Sum(costs[run.0..run.1]) <= PAGE_CAPACITY)
    && (run.1 < |costs| ==> Sum(costs[run.0..run.1 + 1]) > PAGE_CAPACITY)
  }

  /** Runs that follow one another from `0` to `to`. */
  ghost predicate Consecutive(runs: seq<Run>, to: nat)
  {
    && (runs != [] ==> runs[0].0 == 0) && (forall i :: 0 < i < |runs| ==> runs[i].0 == runs[i - 1].1)
    && to == if runs == [] then 0 else runs[|runs| - 1].1
  }

  /** Filling a page from `start` on, with the items up to `end` already on it. */
  ghost function FillTo(costs: seq<nat>, start: nat, end: nat): (e: nat)
    requires start <= end <= |costs|
    ensures end <= e <= |costs| && (end == start < |costs| ==> start < e)
    decreases |costs| - end
  {
    if end < |costs| && (end == start || Sum(costs[start..end + 1]) <= PAGE_CAPACITY) then FillTo(costs, start, end + 1)
    else end
  }

  /** Page after page, each as full as it gets. */
  ghost function Greedy(costs: seq<nat>, start: nat): seq<Run>
    requires start <= |costs|
    decreases |costs| - start
  {
    if start == |costs| then [] else
      var end := FillTo(costs, start, start);
      [(start, end)] + Greedy(costs, end)
  }

  lemma SumPush(costs: seq<nat>, start: nat, end: nat)
    requires start <= end < |costs|
    ensures Sum(costs[start..end + 1]) == Sum(costs[start..end]) + costs[end]
  {
    var more := costs[start..end + 1];
    assert more[..|more| - 1] == costs[start..end];
  }

  /** The inner packing loop of `pack_level`: fill one page. */
  method NextRun(costs: seq<nat>, start: nat) returns (end: nat)
    requires start < |costs|
    ensures GoodRun(costs, (start, end)) && end == FillTo(costs, start, start)
  {
    var used := 0;
    end := start;
    while end < |costs|
      invariant start <= end <= |costs| && used == Sum(costs[start..end])
      invariant FillTo(costs, start, start) == FillTo(costs, start, end)
      invariant end <= start + 1 || used <= PAGE_CAPACITY
    {
      var cost := costs[end];
      SumPush(costs, start, end);
      if end > start && used + cost > PAGE_CAPACITY {
        return;
      }
      used, end := used + cost, end + 1;
    }
  }

  /** The outer loop: page after page. */
  method Partition(costs: seq<nat>) returns (runs: seq<Run>)
    ensures costs == [] ==> runs == [(0, 0)]
    ensures costs != [] ==> Consecutive(runs, |costs|) && forall i :: 0 <= i < |runs| ==> GoodRun(costs, runs[i])
    ensures costs != [] ==> runs == Greedy(costs, 0)
  {
    hide Sum;
    hide FillTo;
    runs := [];
    var start := 0;
    while start < |costs|
      invariant 0 <= start <= |costs| && Consecutive(runs, start) && Greedy(costs, 0) == runs + Greedy(costs, start)
      invariant forall i :: 0 <= i < |runs| ==> GoodRun(costs, runs[i])
    {
      var end := NextRun(costs, start);
      assert Greedy(costs, start) == [(start, end)] + Greedy(costs, end);
      runs := runs + [(start, end)];
      start := end;
    }
    if runs == [] {
      runs := [(0, 0)];
    }
  }

  /** Items within the key bound cost at most a third of a page. */
  ghost predicate Bounded(costs: seq<nat>)
  {
    forall i :: 0 <= i < |costs| ==> costs[i] <= 2712
  }

  lemma {:induction false} SumBound(costs: seq<nat>)
    requires Bounded(costs)
    ensures Sum(costs) <= 2712 * |costs|
  {
    if costs == [] {
    } else {
      SumBound(costs[..|costs| - 1]);
    }
  }

  /** So every run fits a page, and every run but the last has three items. */
  lemma BoundedRun(costs: seq<nat>, run: Run)
    requires Bounded(costs) && GoodRun(costs, run)
    ensures Sum(costs[run.0..run.1]) <= PAGE_CAPACITY
    ensures run.1 < |costs| ==> run.1 >= run.0 + 3
  {
    SumBound(costs[run.0..run.1]);
    if run.1 < |costs| {
      SumBound(costs[run.0..run.1 + 1]);
    }
  }

  /** Each level above is at most a third of the one below, rounded up. */
  lemma {:induction false} LevelsShrink(costs: seq<nat>, runs: seq<Run>, k: nat)
    requires Bounded(costs) && Consecutive(runs, |costs|) && k <= |runs|
    requires forall i :: 0 <= i < |runs| ==> GoodRun(costs, runs[i])
    ensures k < |runs| ==> 3 * k <= runs[k].0
    ensures k == |runs| ==> 3 * k <= |costs| + 2
  {
    if k == 0 {
    } else {
      LevelsShrink(costs, runs, k - 1);
      BoundedRun(costs, runs[k - 1]);
      assert k < |runs| ==> GoodRun(costs, runs[k]);
    }
  }

  // ---- Building pages ----

  function FirstKey(es: seq<Entry>): Key
  {
    if es == [] then [] else es[0].key
  }

  /** A built page and the first leaf key below it. */
  datatype Built = Built(page: PageId, lowKey: Key)

  function LeafCosts(es: seq<Entry>): (costs: seq<nat>)
    ensures |costs| == |es|
  {
    seq(|es|, i requires 0 <= i < |es| => EntryCost(0, es[i]))
  }

  /** How many leaves a sorted list fills, and a list of entries. */
  ghost function LeafCount(es: seq<Entry>): nat
  {
    if es == [] then 1 else |Greedy(LeafCosts(es), 0)|
  }

  ghost function LeavesFor(entries: seq<Entry>): nat { LeafCount(SortedOf(entries)) }

  lemma {:induction false} LeafCostSum(es: seq<Entry>)
    ensures Sum(LeafCosts(es)) == TotalCost(0, es)
  {
    if es == [] {
    } else {
      var n := |es| - 1;
      LeafCostSum(es[..n]);
      assert LeafCosts(es)[..n] == LeafCosts(es[..n]);
      assert es == es[..n] + [es[n]];
      TotalBytesConcat(0, es[..n], [es[n]]);
    }
  }

  /** Filling a page from scratch succeeds when the run fits. */
  lemma FillExact(level: nat, flags: Flags, prev: PageId, next: PageId, es: seq<Entry>)
    requires TotalCost(level, es) <= PAGE_CAPACITY
    ensures AppendAll(InitPage(level, flags).(prev := prev, next := next), es)
            == Ok(Page(0, level, flags, prev, next, es, PD_SPECIAL - TotalBytes(level, es)))
    ensures Accounted(Page(0, level, flags, prev, next, es, PD_SPECIAL - TotalBytes(level, es)))
  {
    var blank := InitPage(level, flags).(prev := prev, next := next);
    AppendAllExact(blank, es);
    assert [] + es == es;
  }

  /** Page `i` of a level whose pages have ids `base`, `base + 1`, ... */
  function PrevId(base: PageId, i: nat): PageId
    requires base > 0
  {
    if i == 0 then INVALID else base + i - 1
  }

  function NextId(base: PageId, i: nat, n: nat): PageId
    requires i < n
  {
    if i + 1 == n then INVALID else base + i + 1
  }

  function Ids(base: PageId, n: nat): (ids: seq<PageId>)
    ensures |ids| == n
  {
    seq(n, i => base + i)
  }

  /** The leaf level as built: run `i` of the entries on page `base + i`. */
  ghost predicate LeafLevel(s: Pages, base: PageId, runs: seq<Run>, es: seq<Entry>, built: nat)
  {
    && 0 < base && base + |runs| <= |s| && built <= |runs|
    && forall i :: 0 <= i < built ==> LeafBuilt(s, base, runs, es, i)
  }

  ghost predicate LeafBuilt(s: Pages, base: PageId, runs: seq<Run>, es: seq<Entry>, i: nat)
    requires 0 < base && i < |runs| && base + |runs| <= |s|
  {
    var page, run := s[base + i], runs[i];
    && run.0 <= run.1 <= |es| && page.entries == es[run.0..run.1] && Accounted(page)
    && page.level == 0 && page.flags.leaf && !page.flags.splitIncomplete
    && page.prev == PrevId(base, i) && page.next == NextId(base, i, |runs|)
  }

  /** The page holds that run of `all`. */
  ghost predicate Piece(s: Pages, id: PageId, run: Run, all: seq<Entry>)
  {
    run.0 <= run.1 <= |all| && EntriesOf(s, id) == all[run.0..run.1]
  }

  lemma PieceAdded(all: seq<Entry>, from: nat, to: nat, es: seq<Entry>)
    requires from <= to <= |all| && es == all[from..to]
    ensures all[..from] + es == all[..to]
  {}

  /** Pieces that follow one another from the start of `all` spell it out. */
  lemma {:induction false} PiecesConcat(s: Pages, ids: seq<PageId>, runs: seq<Run>, all: seq<Entry>, k: nat)
    requires Consecutive(runs, |all|) && |ids| == |runs| && k <= |runs|
    requires forall i :: 0 <= i < |runs| ==> Piece(s, ids[i], runs[i], all)
    ensures var to := if k == 0 then 0 else runs[k - 1].1;
            to <= |all| && Contents(s, ids[..k]) == all[..to]
  {
    if k == 0 {
    } else {
      hide Contents;
      PiecesConcat(s, ids, runs, all, k - 1);
      var run := runs[k - 1];
      assert Piece(s, ids[k - 1], run, all);
      ContentsSnoc(s, ids, k - 1);
      PieceAdded(all, run.0, run.1, EntriesOf(s, ids[k - 1]));
    }
  }

  lemma LeafAdded(s: Pages, s': Pages, base: PageId, runs: seq<Run>, es: seq<Entry>, i: nat)
    requires LeafLevel(s, base, runs, es, i) && i < |runs| && |s'| == |s| && forall p :: 0 <= p < |s| && p != base + i ==> s'[p] == s[p]
    requires runs[i].0 <= runs[i].1 <= |es| && Accounted(s'[base + i])
    requires s'[base + i] == Page(0, 0, Flags(true, false, false), PrevId(base, i), NextId(base, i, |runs|),
                                  es[runs[i].0..runs[i].1], s'[base + i].upper)
    ensures LeafLevel(s', base, runs, es, i + 1) && s'[..base] == s[..base]
  {
    hide Accounted;
    forall j | 0 <= j < i ensures LeafBuilt(s', base, runs, es, j) {
      assert LeafBuilt(s, base, runs, es, j);
    }
  }

  lemma LeafInChain(s: Pages, base: PageId, runs: seq<Run>, es: seq<Entry>, i: nat)
    requires LeafLevel(s, base, runs, es, |runs|) && i < |runs|
    ensures LinkedAt(s, Ids(base, |runs|), i) && TwinAt(s, Ids(base, |runs|), i)
    ensures Piece(s, Ids(base, |runs|)[i], runs[i], es)
  {
    hide TotalBytes;
    var ids := Ids(base, |runs|);
    assert LeafBuilt(s, base, runs, es, i);
    assert i > 0 ==> ids[..i][i - 1] == base + i - 1;
  }

  /** The built leaves are a sound chain that spells out the input. */
  lemma LeavesSound(s: Pages, base: PageId, runs: seq<Run>, es: seq<Entry>)
    requires LeafLevel(s, base, runs, es, |runs|) && Consecutive(runs, |es|) && runs != [] && Sorted(es)
    ensures TreeInv(s, Ids(base, |runs|)) && Contents(s, Ids(base, |runs|)) == es
  {
    hide Contents;
    hide NextAt;
    hide HintAt;
    hide TwinAt;
    hide Piece;
    hide LeafLevel;
    var ids := Ids(base, |runs|);
    forall i | 0 <= i < |ids|
      ensures NextAt(s, ids, i) && HintAt(s, ids, i) && TwinAt(s, ids, i) && Piece(s, ids[i], runs[i], es)
    {
      LeafInChain(s, base, runs, es, i);
    }
    PiecesConcat(s, ids, runs, es, |runs|);
    assert ids[..|runs|] == ids && es[..|es|] == es;
  }

  // ---- Levels ----

  /** How many internal levels `n` pages need at three children a page. */
  function Levels(n: nat): nat
  {
    if n <= 1 then 0 else 1 + Levels((n + 2) / 3)
  }

  lemma {:induction false} LevelsMonotone(m: nat, n: nat)
    requires m <= n
    ensures Levels(m) <= Levels(n)
    decreases n
  {
    if m <= 1 {
    } else {
      LevelsMonotone((m + 2) / 3, (n + 2) / 3);
    }
  }

  function Pow3(k: nat): nat { if k == 0 then 1 else 3 * Pow3(k - 1) }

  /** The 4-bit level field holds every tree of at most `3^15` leaves. */
  lemma {:induction false} LevelsWithin(n: nat, k: nat)
    requires n <= Pow3(k)
    ensures Levels(n) <= k
  {
    if k == 0 || n <= 1 {
    } else {
      LevelsWithin((n + 2) / 3, k - 1);
    }
  }

  // ---- Internal pages ----

  function ChildCosts(children: seq<Built>): (costs: seq<nat>)
    ensures |costs| == |children|
  {
    seq(|children|, i requires 0 <= i < |children| => |children[i].lowKey| + 8 + LINE_POINTER_SIZE)
  }

  /** The downlinks of one run; slot 0 of the level's first page is minus
      infinity. */
  function Downlinks(children: seq<Built>, first: bool): (es: seq<Entry>)
    ensures |es| == |children|
  {
    seq(|children|, j requires 0 <= j < |children| =>
          Entry(if first && j == 0 then [] else children[j].lowKey, children[j].page, 0))
  }

  lemma {:induction false} DownlinkCost(children: seq<Built>, first: bool)
    ensures TotalCost(1, Downlinks(children, first)) <= Sum(ChildCosts(children))
  {
    if children == [] {
    } else {
      var n := |children| - 1;
      DownlinkCost(children[..n], first);
      var es := Downlinks(children, first);
      assert ChildCosts(children)[..n] == ChildCosts(children[..n]);
      assert es == Downlinks(children[..n], first) + [es[n]];
      TotalBytesConcat(1, Downlinks(children[..n], first), [es[n]]);
    }
  }

  lemma {:induction false} SameTotal(level: nat, es: seq<Entry>)
    requires level >= 1
    ensures TotalBytes(level, es) == TotalBytes(1, es)
  {
    if es == [] {
    } else {
      SameTotal(level, es[1..]);
    }
  }

  ghost predicate KeysBounded(built: seq<Built>)
  {
    forall i :: 0 <= i < |built| ==> |built[i].lowKey| <= MAX_INDEX_KEY_BYTES
  }

  /** An internal level as built: page `base + i` holds the downlinks of run
      `i` of the children. */
  ghost predicate InternalBuilt(s: Pages, base: PageId, runs: seq<Run>, children: seq<Built>, level: nat, i: nat)
    requires 0 < base && i < |runs| && base + |runs| <= |s|
  {
    var page, run := s[base + i], runs[i];
    && run.0 < run.1 <= |children| && page.entries == Downlinks(children[run.0..run.1], i == 0) && Accounted(page)
    && page.level == level && page.prev == PrevId(base, i) && page.next == NextId(base, i, |runs|)
  }

  // ---- The levels as a tree ----

  /** What is handed up for page `j`: its id and the key its run starts with. */
  ghost predicate HandsUp(built: Built, base: PageId, run: Run, lows: seq<Key>, j: nat)
  {
    built.page == base + j && (run.0 < |lows| ==> built.lowKey == lows[run.0])
  }

  function EntryKeys(es: seq<Entry>): (ks: seq<Key>)
    ensures |ks| == |es|
  {
    seq(|es|, i requires 0 <= i < |es| => es[i].key)
  }

  ghost predicate NonEmptyRuns(runs: seq<Run>)
  {
    forall k :: 0 <= k < |runs| ==> runs[k].0 < runs[k].1
  }

  lemma LeavesPacked(s: Pages, base: PageId, runs: seq<Run>, es: seq<Entry>)
    requires LeafLevel(s, base, runs, es, |runs|) && (|runs| > 1 ==> NonEmptyRuns(runs))
    ensures Packed(s, Ids(base, |runs|))
  {
    hide Accounted;
    var ids := Ids(base, |runs|);
    forall i | 0 <= i < |ids|
      ensures |ids| > 1 ==> EntriesOf(s, ids[i]) != []
      ensures i > 0 ==> ids[i] < |s| && s[ids[i]].prev == ids[i - 1]
    {
      assert LeafBuilt(s, base, runs, es, i);
    }
  }

  lemma SortedKeys(es: seq<Entry>)
    requires Sorted(es)
    ensures forall i, j :: 0 <= i < j < |es| ==> !KeyLess(EntryKeys(es)[j], EntryKeys(es)[i])
  {
    forall i, j | 0 <= i < j < |es| ensures !KeyLess(es[j].key, es[i].key) {
      KeysAscend(es, i, j);
      KeyTrichotomy(es[i].key, es[j].key);
    }
  }

  /** First keys that do not descend stay so when runs of them are joined. */
  lemma HandedUpOrdered(base: PageId, runs: seq<Run>, lows: seq<Key>, built: seq<Built>)
    requires Consecutive(runs, |lows|) && |built| == |runs| && (|runs| > 1 ==> NonEmptyRuns(runs))
    requires forall j :: 0 <= j < |runs| ==> HandsUp(built[j], base, runs[j], lows, j)
    requires forall i, j :: 0 <= i < j < |lows| ==> !KeyLess(lows[j], lows[i])
    ensures Ascending(built) && PageIds(built) == Ids(base, |runs|)
  {
    forall j | 0 <= j < |runs| ensures built[j].page == base + j {
      assert HandsUp(built[j], base, runs[j], lows, j);
    }
    forall i, j | 0 <= i < j < |built| ensures !KeyLess(built[j].lowKey, built[i].lowKey) {
      RunsAscend(runs, |lows|, i, j);
      RunsAscend(runs, |lows|, j, |runs| - 1);
      assert HandsUp(built[i], base, runs[i], lows, i) && HandsUp(built[j], base, runs[j], lows, j);
    }
  }

  function PageIds(built: seq<Built>): (ids: seq<PageId>)
    ensures |ids| == |built|
  {
    seq(|built|, i requires 0 <= i < |built| => built[i].page)
  }

  /** Page ids ascend and first keys do not descend. */
  ghost predicate Ascending(built: seq<Built>)
  {
    forall i, j :: 0 <= i < j < |built| ==>
      built[i].page < built[j].page && !KeyLess(built[j].lowKey, built[i].lowKey)
  }

  lemma {:induction false} RunsAscend(runs: seq<Run>, to: nat, i: nat, j: nat)
    requires Consecutive(runs, to) && i <= j < |runs|
    requires NonEmptyRuns(runs)
    ensures runs[i].0 <= runs[j].0 && (i < j ==> runs[i].0 < runs[j].0)
    decreases j
  {
    if i == j {
    } else {
      RunsAscend(runs, to, i, j - 1);
    }
  }

  lemma DownlinksSorted(children: seq<Built>)
    requires Ascending(children)
    ensures Sorted(Downlinks(children, true))
  {
    var es := Downlinks(children, true);
    forall i, j | 0 <= i < j < |es| ensures EntryLess(es[i], es[j]) {
      KeyTrichotomy(children[i].lowKey, children[j].lowKey);
      KeyTrichotomy([], children[j].lowKey);
    }
  }

  lemma SliceOfDownlinks(children: seq<Built>, from: nat, to: nat)
    requires from <= to <= |children|
    ensures Downlinks(children[from..to], from == 0) == Downlinks(children, true)[from..to]
  {}

  lemma DownlinkPiece(s: Pages, base: PageId, runs: seq<Run>, children: seq<Built>, level: nat, i: nat)
    requires 0 < base && base + |runs| <= |s| && Consecutive(runs, |children|) && NonEmptyRuns(runs) && i < |runs|
    requires InternalBuilt(s, base, runs, children, level, i)
    ensures Piece(s, Ids(base, |runs|)[i], runs[i], Downlinks(children, true))
  {
    hide Downlinks;
    hide Accounted;
    RunsAscend(runs, |children|, 0, i);
    SliceOfDownlinks(children, runs[i].0, runs[i].1);
  }

  /** The pages of a built level, put side by side, hold one downlink per
      child, in order. */
  lemma DownlinksConcat(s: Pages, base: PageId, runs: seq<Run>, children: seq<Built>, level: nat)
    requires 0 < base && base + |runs| <= |s| && Consecutive(runs, |children|) && NonEmptyRuns(runs)
    requires forall i :: 0 <= i < |runs| ==> InternalBuilt(s, base, runs, children, level, i)
    ensures Contents(s, Ids(base, |runs|)) == Downlinks(children, true)
  {
    hide Contents;
    hide Accounted;
    hide Downlinks;
    var ids, all := Ids(base, |runs|), Downlinks(children, true);
    forall i | 0 <= i < |runs| ensures Piece(s, ids[i], runs[i], all) {
      DownlinkPiece(s, base, runs, children, level, i);
    }
    hide Piece;
    hide InternalBuilt;
    PiecesConcat(s, ids, runs, all, |runs|);
    assert ids[..|runs|] == ids && all[..|all|] == all;
  }

  /** The pages of the level start with the keys that lead to them. */
  ghost predicate StartsBuilt(s: Pages, built: seq<Built>)
  {
    forall i :: 0 <= i < |built| ==>
      && built[i].page < |s| && s[built[i].page].entries != []
      && s[built[i].page].entries[0].key == if i == 0 then [] else built[i].lowKey
  }

  lemma LevelNode(s: Pages, base: PageId, runs: seq<Run>, children: seq<Built>, level: nat, built: Built, i: nat)
    requires 0 < base && base + |runs| <= |s| && i < |runs|
    requires InternalBuilt(s, base, runs, children, level, i) && HandsUp(built, base, runs[i], LowKeys(children), i)
    ensures NodeAt(s, Ids(base, |runs|), level, i)
    ensures built.page == base + i && s[base + i].entries != []
    ensures s[base + i].entries[0].key == if i == 0 then [] else built.lowKey
  {
    hide TotalBytes;
  }

  function LowKeys(built: seq<Built>): (ks: seq<Key>)
    ensures |ks| == |built|
  {
    seq(|built|, i requires 0 <= i < |built| => built[i].lowKey)
  }

  lemma LevelBuilt(s: Pages, base: PageId, runs: seq<Run>, children: seq<Built>, level: nat, built: seq<Built>)
    requires 0 < base && |runs| == |built| && base + |runs| <= |s| && Consecutive(runs, |children|) && NonEmptyRuns(runs)
    requires forall i :: 0 <= i < |runs| ==>
               InternalBuilt(s, base, runs, children, level, i) && HandsUp(built[i], base, runs[i], LowKeys(children), i)
    requires built != [] && Ascending(children) && (level > 1 ==> StartsBuilt(s, children))
    ensures LevelOver(s, PageIds(built), PageIds(children), level) && StartsBuilt(s, built) && Ascending(built)
  {
    hide Contents;
    hide NodeAt;
    hide Downlinks;
    hide Sorted;
    LevelNodes(s, base, runs, children, level, built);
    HandedUpOrdered(base, runs, LowKeys(children), built);
    DownlinksConcat(s, base, runs, children, level);
    hide InternalBuilt;
    hide HandsUp;
    DownlinksSorted(children);
    DownlinksLead(s, children, level);
  }

  lemma LevelNodes(s: Pages, base: PageId, runs: seq<Run>, children: seq<Built>, level: nat, built: seq<Built>)
    requires 0 < base && |runs| == |built| && base + |runs| <= |s|
    requires forall i :: 0 <= i < |runs| ==>
               InternalBuilt(s, base, runs, children, level, i) && HandsUp(built[i], base, runs[i], LowKeys(children), i)
    ensures StartsBuilt(s, built) && forall i :: 0 <= i < |runs| ==> NodeAt(s, Ids(base, |runs|), level, i)
  {
    hide NodeAt;
    forall i | 0 <= i < |runs|
      ensures NodeAt(s, Ids(base, |runs|), level, i)
      ensures built[i].page == base + i && s[base + i].entries != []
      ensures s[base + i].entries[0].key == if i == 0 then [] else built[i].lowKey
    {
      assert InternalBuilt(s, base, runs, children, level, i) && HandsUp(built[i], base, runs[i], LowKeys(children), i);
      hide InternalBuilt;
      hide HandsUp;
      LevelNode(s, base, runs, children, level, built[i], i);
    }
  }

  lemma DownlinksLead(s: Pages, children: seq<Built>, level: nat)
    requires level > 1 ==> StartsBuilt(s, children)
    ensures forall j :: 0 <= j < |children| ==>
              LeadsTo(s, Downlinks(children, true)[j], PageIds(children)[j], level, j == 0)
  {}

  /** Levels stay a stack when pages are added and flags set. */
  lemma StackKept(s: Pages, s': Pages, tower: seq<seq<PageId>>)
    requires IsStack(s, tower) && |s| <= |s'|
    requires forall p :: 0 <= p < |s| ==> s'[p] == s[p].(flags := s'[p].flags)
    ensures IsStack(s', tower)
  {
    hide LevelOver;
    forall l | 0 < l < |tower| ensures LevelOver(s', tower[l], tower[l - 1], l) {
      LevelKept(s, s', tower[l], tower[l - 1], l);
    }
  }

  lemma LevelKept(s: Pages, s': Pages, ids: seq<PageId>, below: seq<PageId>, level: nat)
    requires LevelOver(s, ids, below, level) && |s| <= |s'|
    requires forall p :: 0 <= p < |s| ==> s'[p] == s[p].(flags := s'[p].flags)
    ensures LevelOver(s', ids, below, level)
  {
    hide Contents;
    hide Sorted;
    forall i | 0 <= i < |ids| ensures NodeAt(s', ids, level, i) && EntriesOf(s', ids[i]) == EntriesOf(s, ids[i]) {
      assert NodeAt(s, ids, level, i);
    }
    ContentsFrame(s, s', ids);
    forall j | 0 <= j < |below| ensures LeadsTo(s', Contents(s, ids)[j], below[j], level, j == 0) {
      assert LeadsTo(s, Contents(s, ids)[j], below[j], level, j == 0);
    }
  }

  class BulkLoader {
    var pages: Pages

    constructor (pages: Pages)
      requires |pages| > 0
      ensures this.pages == pages
    {
      this.pages := pages;
    }

    /** Reserve the ids of a level before any of its pages is written. */
    method Allocate(n: nat) returns (base: PageId)
      requires |pages| > 0
      modifies this
      ensures base == |old(pages)| && |pages| == base + n && pages[..base] == old(pages)
    {
      base := |pages|;
      for i := 0 to n
        invariant |pages| == base + i && pages[..base] == old(pages)
      {
        pages := pages + [ZERO_PAGE];
      }
    }

    method FillPage(id: PageId, level: nat, flags: Flags, prev: PageId, next: PageId, es: seq<Entry>)
      requires id < |pages| && TotalCost(level, es) <= PAGE_CAPACITY
      modifies this
      ensures |pages| == |old(pages)| && forall p :: 0 <= p < |pages| && p != id ==> pages[p] == old(pages[p])
      ensures TotalBytes(level, es) <= PD_SPECIAL
      ensures pages[id] == Page(0, level, flags, prev, next, es, PD_SPECIAL - TotalBytes(level, es))
      ensures Accounted(pages[id])
    {
      FillExact(level, flags, prev, next, es);
      var page := InitPage(level, flags).(prev := prev, next := next);
      ghost var blank := page;
      for i := 0 to |es|
        invariant AppendAll(blank, es) == AppendAll(page, es[i..])
      {
        assert es[i..][1..] == es[i + 1..];
        var added := InsertEntryAt(page, |page.entries|, es[i]);
        page := added.value;
      }
      pages := pages[id := page];
    }

    /** The leaf level. */
    method PackLeaves(es: seq<Entry>) returns (built: seq<Built>)
      requires |pages| > 0 && Sorted(es) && WithinKeyBound(es)
      modifies this
      ensures |old(pages)| <= |pages| && pages[..|old(pages)|] == old(pages)
      ensures built != [] && KeysBounded(built) && |built| == LeafCount(es)
      ensures var ids := Ids(|old(pages)|, |built|);
              && TreeInv(pages, ids) && Contents(pages, ids) == es
              && Packed(pages, ids) && PageIds(built) == ids && Ascending(built)
      ensures |pages| == |old(pages)| + |built|
    {
      hide TotalBytes;
      hide Sum;
      hide TreeInv;
      hide Contents;
      hide Packed;
      var costs := LeafCosts(es);
      var runs := Partition(costs);
      assert Consecutive(runs, |es|);
      hide Consecutive;
      var base := Allocate(|runs|);
      built := [];
      for i := 0 to |runs|
        invariant |pages| == base + |runs| && pages[..base] == old(pages) && |built| == i
        invariant LeafLevel(pages, base, runs, es, i) && KeysBounded(built)
        invariant forall j :: 0 <= j < i ==> HandsUp(built[j], base, runs[j], EntryKeys(es), j)
      {
        LeafRunFits(es, runs, i);
        var run := es[runs[i].0..runs[i].1];
        ghost var before := pages;
        FillPage(base + i, 0, Flags(true, false, false), PrevId(base, i), NextId(base, i, |runs|), run);
        LeafAdded(before, pages, base, runs, es, i);
        built := built + [Built(base + i, FirstKey(run))];
      }
      LeavesSound(pages, base, runs, es);
      LeavesPacked(pages, base, runs, es);
      SortedKeys(es);
      HandedUpOrdered(base, runs, EntryKeys(es), built);
    }

    /** One internal level: every child gets exactly one downlink, in order,
        and the level is at most a third of the one below, rounded up. */
    method PackInternal(children: seq<Built>, level: nat) returns (built: seq<Built>, ghost runs: seq<Run>)
      requires |pages| > 0 && children != [] && KeysBounded(children) && level >= 1
      modifies this
      ensures |old(pages)| <= |pages| && pages[..|old(pages)|] == old(pages)
      ensures built != [] && 3 * |built| <= |children| + 2 && KeysBounded(built)
      ensures |runs| == |built| && |pages| == |old(pages)| + |runs| && Consecutive(runs, |children|) && NonEmptyRuns(runs)
      ensures |old(pages)| > 0 && forall i :: 0 <= i < |runs| ==>
                && InternalBuilt(pages, |old(pages)|, runs, children, level, i)
                && HandsUp(built[i], |old(pages)|, runs[i], LowKeys(children), i)
    {
      hide TotalBytes;
      hide Sum;
      var costs := ChildCosts(children);
      var parts := Partition(costs);
      runs := parts;
      assert Bounded(costs);
      LevelsShrink(costs, parts, |parts|);
      var base := Allocate(|parts|);
      built := [];
      for i := 0 to |parts|
        invariant |pages| == base + |parts| && pages[..base] == old(pages) && |built| == i && KeysBounded(built)
        invariant forall j :: 0 <= j < i ==>
                    && InternalBuilt(pages, base, parts, children, level, j)
                    && HandsUp(built[j], base, parts[j], LowKeys(children), j)
      {
        InternalRunFits(children, parts, i, level);
        var run := children[parts[i].0..parts[i].1];
        ghost var before := pages;
        FillPage(base + i, level, Flags(false, false, false), PrevId(base, i), NextId(base, i, |parts|),
                 Downlinks(run, i == 0));
        forall j | 0 <= j < i ensures InternalBuilt(pages, base, parts, children, level, j) {
          assert InternalBuilt(before, base, parts, children, level, j);
        }
        assert InternalBuilt(pages, base, parts, children, level, i);
        assert pages[..base] == before[..base];
        built := built + [Built(base + i, run[0].lowKey)];
      }
    }

    /** `build`: for every entry list within the key bound, a sound leaf chain
        that spells out the sorted, deduplicated input, under levels whose
        downlinks enumerate the level below, up to a single marked root. */
    method Build(entries: seq<Entry>)
      returns (r: Result<(PageId, nat)>, ghost chain: seq<PageId>, ghost tower: seq<seq<PageId>>)
      requires |pages| > 0
      modifies this
      ensures r == Err(KeyTooLarge) <==> !WithinKeyBound(entries)
      ensures WithinKeyBound(entries) ==> r.Ok?
      ensures r.Ok? ==>
                && TreeInv(pages, chain) && Packed(pages, chain) && Contents(pages, chain) == SortedOf(entries)
                && |chain| == LeavesFor(entries) && forall e :: e in Contents(pages, chain) <==> e in entries
      ensures r.Ok? ==>
                && IsTower(pages, tower) && tower[0] == chain && tower[|tower| - 1] == [r.value.0]
                && |tower| == r.value.1 + 1 && r.value.1 <= Levels(|chain|)
                && 0 < r.value.0 < |pages| && pages[r.value.0].flags.root
      ensures r.Ok? ==> |old(pages)| <= |pages| && pages[..|old(pages)|] == old(pages)
    {
      hide Contents;
      hide TreeInv;
      hide Packed;
      hide IsTower;
      chain, tower := [], [];
      for i := 0 to |entries|
        invariant forall j :: 0 <= j < i ==> |entries[j].key| <= MAX_INDEX_KEY_BYTES
        invariant pages == old(pages)
      {
        if |entries[i].key| > MAX_INDEX_KEY_BYTES {
          return Err(KeyTooLarge), chain, tower;
        }
      }
      var es := SortAndDedup(entries);
      StillBounded(entries, es);
      var leaves := PackLeaves(es);
      chain := PageIds(leaves);
      ghost var packed, base := pages, |old(pages)|;
      TopIsLeaf(pages, chain);
      assert forall i :: 0 <= i < |leaves| ==> leaves[i].page == chain[i] == base + i;
      var root, level, levels := PackLevels(leaves, base);
      tower := levels;
      assert pages[..base] == packed[..base] == old(pages);
      LeavesKept(packed, pages, chain);
      MarkRoot(root, base, chain, tower);
      return Ok((root, level)), chain, tower;
    }

    /** Level upon level, until one page is left. */
    method PackLevels(leaves: seq<Built>, ghost base: PageId)
      returns (root: PageId, level: nat, ghost tower: seq<seq<PageId>>)
      requires leaves != [] && KeysBounded(leaves) && Ascending(leaves)
      requires forall i :: 0 <= i < |leaves| ==> 0 < base <= leaves[i].page < |pages| && pages[leaves[i].page].level == 0
      modifies this
      ensures |old(pages)| <= |pages| && pages[..|old(pages)|] == old(pages)
      ensures IsTower(pages, tower) && tower[0] == PageIds(leaves) && tower[|tower| - 1] == [root]
      ensures |tower| == level + 1 && level <= Levels(|leaves|) && base <= root < |pages|
    {
      hide LevelOver;
      hide InternalBuilt;
      hide HandsUp;
      assert leaves[0].page < |pages|;
      var current := leaves;
      level, tower := 0, [PageIds(leaves)];
      while |current| > 1
        invariant 0 < |old(pages)| <= |pages| && pages[..|old(pages)|] == old(pages)
        invariant current != [] && KeysBounded(current) && level + Levels(|current|) <= Levels(|leaves|)
        invariant IsStack(pages, tower) && tower[0] == PageIds(leaves)
        invariant |tower| == level + 1 && tower[level] == PageIds(current)
        invariant Ascending(current) && (level > 0 ==> StartsBuilt(pages, current))
        invariant forall i :: 0 <= i < |current| ==> base <= current[i].page < |pages|
        decreases |current|
      {
        level := level + 1;
        ghost var before, children := pages, current;
        ghost var runs;
        current, runs := PackInternal(current, level);
        LevelsMonotone(|current|, (|children| + 2) / 3);
        NextLevel(before, pages, tower, runs, children, current, level);
        tower := tower + [PageIds(current)];
        assert pages[..|old(pages)|] == before[..|old(pages)|];
      }
      root := current[0].page;
    }

    method MarkRoot(root: PageId, ghost base: PageId, ghost chain: seq<PageId>, ghost tower: seq<seq<PageId>>)
      requires TreeInv(pages, chain) && Packed(pages, chain) && IsTower(pages, tower) && base <= root < |pages|
      modifies this
      ensures TreeInv(pages, chain) && Packed(pages, chain) && Contents(pages, chain) == old(Contents(pages, chain))
      ensures IsTower(pages, tower) && |pages| == |old(pages)| && pages[..base] == old(pages)[..base]
      ensures pages[root].flags.root
    {
      hide Contents;
      hide TreeInv;
      hide LevelOver;
      RootMarked(pages, chain, root);
      ghost var unmarked := pages;
      pages := pages[root := pages[root].(flags := pages[root].flags.(root := true))];
      StackKept(unmarked, pages, tower);
    }
  }

  /** A level built over the top of a stack makes a higher stack. */
  lemma NextLevel(before: Pages, after: Pages, tower: seq<seq<PageId>>, runs: seq<Run>, children: seq<Built>,
                  built: seq<Built>, level: nat)
    requires IsStack(before, tower) && |tower| == level >= 1 && tower[level - 1] == PageIds(children)
    requires 0 < |before| <= |after| && after[..|before|] == before && built != []
    requires |runs| == |built| && |before| + |runs| <= |after| && Consecutive(runs, |children|) && NonEmptyRuns(runs)
    requires forall i :: 0 <= i < |runs| ==>
               && InternalBuilt(after, |before|, runs, children, level, i)
               && HandsUp(built[i], |before|, runs[i], LowKeys(children), i)
    requires Ascending(children) && (level > 1 ==> StartsBuilt(before, children))
    ensures IsStack(after, tower + [PageIds(built)]) && StartsBuilt(after, built) && Ascending(built)
    ensures forall i :: 0 <= i < |built| ==> built[i].page == |before| + i
  {
    hide LevelOver;
    hide InternalBuilt;
    assert forall p :: 0 <= p < |before| ==> after[p] == after[..|before|][p];
    StackKept(before, after, tower);
    LevelBuilt(after, |before|, runs, children, level, built);
    forall i | 0 <= i < |built| ensures built[i].page == |before| + i {
      assert HandsUp(built[i], |before|, runs[i], LowKeys(children), i);
    }
  }

  /** Build, descend to the lowest key and scan: the answer is the sorted,
      deduplicated input. The scan is refused exactly when the input fills more
      than MAX_CHAIN_HOPS + 1 leaves. */
  method BuildThenScan(file: Pages, entries: seq<Entry>) returns (r: Result<seq<Entry>>)
    requires |file| > 0
    ensures r.Ok? <==> WithinKeyBound(entries) && LeavesFor(entries) <= MAX_CHAIN_HOPS + 1
    ensures r.Ok? ==> r.value == SortedOf(entries) && Sorted(r.value) && forall e :: e in r.value <==> e in entries
  {
    hide Contents;
    hide Sorted;
    hide TreeInv;
    hide Packed;
    hide IsTower;
    hide LeavesFor;
    var loader := new BulkLoader(file);
    var built, chain, tower := loader.Build(entries);
    if built.Err? {
      return Err(KeyTooLarge);
    }
    SoundChain(loader.pages, chain);
    var leaf := Descend(loader.pages, built.value.0, [], tower);
    r := RangeScan(loader.pages, leaf.value, None, None, chain);
    if r.Ok? {
      SortedUnique(r.value, Contents(loader.pages, chain));
    }
  }

  // ---- How many leaves ----

  /** Three entries or more to every leaf but the last. */
  lemma LeavesBound(es: seq<Entry>)
    requires WithinKeyBound(es) && es != []
    ensures 3 * LeafCount(es) <= |es| + 2
  {
    var costs := LeafCosts(es);
    GreedyGood(costs, 0);
    GreedyFrom(costs, 0);
    LevelsShrink(costs, Greedy(costs, 0), LeafCount(es));
  }

  lemma {:induction false} FillGood(costs: seq<nat>, start: nat, end: nat)
    requires start <= end <= |costs| && start < |costs| && (end <= start + 1 || Sum(costs[start..end]) <= PAGE_CAPACITY)
    ensures GoodRun(costs, (start, FillTo(costs, start, end)))
    decreases |costs| - end
  {
    if end == |costs| || (end > start && Sum(costs[start..end + 1]) > PAGE_CAPACITY) {
    } else {
      FillGood(costs, start, end + 1);
    }
  }

  lemma {:induction false} GreedyGood(costs: seq<nat>, start: nat)
    requires start <= |costs|
    ensures forall i :: 0 <= i < |Greedy(costs, start)| ==> GoodRun(costs, Greedy(costs, start)[i])
    decreases |costs| - start
  {
    hide GoodRun;
    if start == |costs| {
    } else {
      FillGood(costs, start, start);
      GreedyGood(costs, FillTo(costs, start, start));
    }
  }

  lemma {:induction false} GreedyFrom(costs: seq<nat>, start: nat)
    requires start <= |costs|
    ensures var runs := Greedy(costs, start);
            && (runs != [] <==> start < |costs|) && (runs != [] ==> runs[0].0 == start && runs[|runs| - 1].1 == |costs|)
            && forall i :: 0 < i < |runs| ==> runs[i].0 == runs[i - 1].1
    decreases |costs| - start
  {
    hide FillTo;
    if start == |costs| {
    } else {
      GreedyFrom(costs, FillTo(costs, start, start));
    }
  }

  /** Every list of at most 3 * (MAX_CHAIN_HOPS + 1) - 2 entries is answered. */
  lemma SmallInputScans(entries: seq<Entry>)
    requires WithinKeyBound(entries) && |entries| + 2 <= 3 * (MAX_CHAIN_HOPS + 1)
    ensures LeavesFor(entries) <= MAX_CHAIN_HOPS + 1
  {
    SortedOfSorts(entries);
    StillBounded(entries, SortedOf(entries));
    if SortedOf(entries) != [] {
      LeavesBound(SortedOf(entries));
    }
  }

  /** `n` entries with the longest key there is. */
  function LongKeys(n: nat): (es: seq<Entry>)
    ensures |es| == n
  {
    seq(n, i requires 0 <= i => Entry(seq(MAX_INDEX_KEY_BYTES, _ => 0), i, 0))
  }

  lemma {:induction false} SameCosts(costs: seq<nat>, c: nat)
    requires forall i :: 0 <= i < |costs| ==> costs[i] == c
    ensures Sum(costs) == c * |costs|
  {
    if costs == [] {
    } else {
      SameCosts(costs[..|costs| - 1], c);
    }
  }

  /** Three of them fill a leaf. */
  lemma {:induction false} LongRuns(costs: seq<nat>, runs: seq<Run>, k: nat)
    requires (forall i :: 0 <= i < |costs| ==> costs[i] == 2712) && Consecutive(runs, |costs|) && k <= |runs|
    requires forall i :: 0 <= i < |runs| ==> GoodRun(costs, runs[i])
    ensures (if k == 0 then 0 else runs[k - 1].1) <= 3 * k
  {
    if k == 0 {
    } else {
      LongRuns(costs, runs, k - 1);
      var run := runs[k - 1];
      assert GoodRun(costs, run);
      SameCosts(costs[run.0..run.1], 2712);
    }
  }

  /** So a scan of them is refused if and only if there are more than
      3 * (MAX_CHAIN_HOPS + 1). */
  lemma LongKeysRefused(n: nat)
    ensures WithinKeyBound(LongKeys(n))
    ensures LeavesFor(LongKeys(n)) > MAX_CHAIN_HOPS + 1 <==> n > 3 * (MAX_CHAIN_HOPS + 1)
  {
    var es := LongKeys(n);
    LongKeysSorted(n);
    SortedOfSorts(es);
    SortedUnique(SortedOf(es), es);
    if n > 0 {
      var costs := LeafCosts(es);
      LeavesBound(es);
      GreedyGood(costs, 0);
      GreedyFrom(costs, 0);
      LongRuns(costs, Greedy(costs, 0), |Greedy(costs, 0)|);
    }
  }

  lemma LongKeysSorted(n: nat)
    ensures Sorted(LongKeys(n)) && WithinKeyBound(LongKeys(n))
  {
    var es := LongKeys(n);
    forall i, j | 0 <= i < j < n ensures EntryLess(es[i], es[j]) {
      KeyTrichotomy(es[i].key, es[j].key);
    }
  }

  lemma StillBounded(entries: seq<Entry>, es: seq<Entry>)
    requires WithinKeyBound(entries) && forall e :: e in es <==> e in entries
    ensures WithinKeyBound(es)
  {
    forall i | 0 <= i < |es| ensures |es[i].key| <= MAX_INDEX_KEY_BYTES {
      assert es[i] in entries;
    }
  }

  lemma TopIsLeaf(s: Pages, chain: seq<PageId>)
    requires TreeInv(s, chain)
    ensures forall i :: 0 <= i < |chain| ==> 0 < chain[i] < |s| && s[chain[i]].level == 0
  {
    forall i | 0 <= i < |chain| ensures 0 < chain[i] < |s| && s[chain[i]].level == 0 {
      assert LinkedAt(s, chain, i);
    }
  }

  lemma SoundChain(s: Pages, chain: seq<PageId>)
    requires TreeInv(s, chain)
    ensures IsChain(s, chain) && Sorted(Contents(s, chain))
  {}

  /** Building the levels above leaves the leaves alone. */
  lemma LeavesKept(s: Pages, s': Pages, chain: seq<PageId>)
    requires TreeInv(s, chain) && |s| <= |s'| && s'[..|s|] == s
    ensures TreeInv(s', chain) && Contents(s', chain) == Contents(s, chain)
    ensures Packed(s, chain) ==> Packed(s', chain)
  {
    hide Contents;
    hide TotalBytes;
    forall i | 0 <= i < |chain| ensures chain[i] < |s| && s'[chain[i]] == s[chain[i]] {
      assert LinkedAt(s, chain, i);
    }
    QuietStep(s, s', chain, 0);
  }

  /** Marking the root changes one flag. */
  lemma RootMarked(s: Pages, chain: seq<PageId>, root: PageId)
    requires TreeInv(s, chain) && root < |s|
    ensures var s' := s[root := s[root].(flags := s[root].flags.(root := true))];
            && TreeInv(s', chain) && Contents(s', chain) == Contents(s, chain)
            && (Packed(s, chain) ==> Packed(s', chain))
  {
    hide Contents;
    hide TotalBytes;
    var s' := s[root := s[root].(flags := s[root].flags.(root := true))];
    var k := if root in chain then IndexOf(chain, root) else 0;
    assert LinkedAt(s, chain, k);
    QuietStep(s, s', chain, k);
  }

  lemma InternalRunFits(children: seq<Built>, runs: seq<Run>, i: nat, level: nat)
    requires KeysBounded(children) && i < |runs| && level >= 1 && GoodRun(ChildCosts(children), runs[i])
    ensures runs[i].0 < runs[i].1 <= |children|
    ensures TotalCost(level, Downlinks(children[runs[i].0..runs[i].1], i == 0)) <= PAGE_CAPACITY
  {
    var run := runs[i];
    var slice := children[run.0..run.1];
    assert Bounded(ChildCosts(children));
    BoundedRun(ChildCosts(children), run);
    assert ChildCosts(children)[run.0..run.1] == ChildCosts(slice);
    DownlinkCost(slice, i == 0);
    SameTotal(level, Downlinks(slice, i == 0));
  }

  lemma LeafRunFits(es: seq<Entry>, runs: seq<Run>, i: nat)
    requires WithinKeyBound(es) && i < |runs|
    requires es == [] ==> runs == [(0, 0)]
    requires es != [] ==> GoodRun(LeafCosts(es), runs[i])
    ensures runs[i].0 <= runs[i].1 <= |es| && TotalCost(0, es[runs[i].0..runs[i].1]) <= PAGE_CAPACITY
    ensures WithinKeyBound(es[runs[i].0..runs[i].1])
  {
    if es != [] {
      var run := runs[i];
      BoundedRun(LeafCosts(es), run);
      LeafCostSum(es[run.0..run.1]);
      assert LeafCosts(es)[run.0..run.1] == LeafCosts(es[run.0..run.1]);
    }
  }
}

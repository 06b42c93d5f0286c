/** HOT update chains on a heap page (crates/pg-am-heap/src/heap_am.rs):
    versions of a row linked by `t_ctid` within one page, of which only the
    root has index entries and is visited directly by a scan. */
module HotChains {
  import opened Outcome
  import opened Stamps

  /** `hot` is HEAP_HOT_UPDATED with the slot `t_ctid` names; `origin` is
      auxiliary, the slot a HEAP_ONLY version was updated from. */
  datatype Version = Version(xmin: Xid, stamp: Stamp, hot: Option<nat>, heapOnly: bool, origin: nat)

  type HeapPage = seq<Version>

  predicate Visible(v: Version, seen: set<Xid>) { Sees(seen, v.xmin, v.stamp) }

  /** `saw` is auxiliary: who updated a version of whom. */
  datatype State = State(page: HeapPage, aborted: set<Xid>, saw: set<(Xid, Xid)>)

  datatype Step =
    | Insert(xid: Xid)
    | HotUpdate(xid: Xid, slot: nat, seen: set<Xid>)
    | Delete(xid: Xid, slot: nat)
    | LockRow(xid: Xid, slot: nat, kind: Kind)
    | Abort(xid: Xid)

  /** The row-lock gate lets `x` stamp: nobody's stamp, its own, a lock that is
      over, or the real stamp of a transaction that never commits. */
  predicate MayStamp(s: State, slot: nat, x: Xid)
    requires slot < |s.page|
  {
    var stamp := s.page[slot].stamp;
    IsReal(stamp) ==> stamp.xid == x || stamp.xid in s.aborted
  }

  /** `Delete` is also what a plain update does to the old version; its new
      version is an `Insert`, on this page or another. An update addresses a
      version its own snapshot sees. */
  ghost predicate Next(s: State, step: Step, s': State)
  {
    match step
    case Insert(x) => s' == s.(page := s.page + [Version(x, NoStamp, None, false, |s.page|)])
    case HotUpdate(x, slot, seen) =>
      && slot < |s.page| && MayStamp(s, slot, x) && x in seen && Visible(s.page[slot], seen)
      && s' == s.(page := s.page[slot := s.page[slot].(stamp := Stamp(x, Real), hot := Some(|s.page|))]
                          + [Version(x, NoStamp, None, true, slot)],
                  saw := s.saw + {(x, s.page[slot].xmin)})
    case Delete(x, slot) =>
      && slot < |s.page| && MayStamp(s, slot, x)
      && s' == s.(page := s.page[slot := s.page[slot].(stamp := Stamp(x, Real))])
    case LockRow(x, slot, kind) =>
      && slot < |s.page| && MayStamp(s, slot, x) && !kind.Real? && s.page[slot].stamp != Stamp(x, Real)
      && s' == s.(page := s.page[slot := s.page[slot].(stamp := Stamp(x, kind))])
    case Abort(x) => s' == s.(aborted := s.aborted + {x})
  }

  /** Links rise in slot number and each version is the target of at most the
      one link it was created with. */
  ghost predicate LinkAt(page: HeapPage, u: nat)
    requires u < |page|
  {
    page[u].hot.Some? ==>
      && u < page[u].hot.value < |page|
      && page[page[u].hot.value].heapOnly && page[page[u].hot.value].origin == u
  }

  ghost predicate Links(page: HeapPage)
  {
    forall u :: 0 <= u < |page| ==> LinkAt(page, u)
  }

  /** A chain member whose inserter may commit is still linked from the version
      it replaced, which that inserter deleted. */
  ghost predicate MemberAt(s: State, v: nat)
    requires v < |s.page|
  {
    var p := s.page[v];
    p.heapOnly && p.xmin !in s.aborted ==>
      && p.origin < v && s.page[p.origin].hot == Some(v) && s.page[p.origin].stamp == Stamp(p.xmin, Real)
      && (p.xmin, s.page[p.origin].xmin) in s.saw
  }

  ghost predicate Inv(s: State)
  {
    Links(s.page) && forall v :: 0 <= v < |s.page| ==> MemberAt(s, v)
  }

  lemma StepKeepsInv(s: State, step: Step, s': State)
    requires Inv(s) && Next(s, step, s')
    ensures Inv(s')
  {
    forall u | 0 <= u < |s'.page| ensures LinkAt(s'.page, u) {
      if u < |s.page| {
        assert LinkAt(s.page, u);
      }
    }
    forall v | 0 <= v < |s'.page| ensures MemberAt(s', v) {
      if v < |s.page| {
        assert MemberAt(s, v);
        if step.HotUpdate? && s.page[v].heapOnly && s.page[v].origin == step.slot {
          assert LinkAt(s.page, step.slot);
        }
      }
    }
  }

  ghost predicate IsRun(run: seq<State>, steps: seq<Step>)
  {
    && |run| == |steps| + 1 && run[0] == State([], {}, {})
    && forall i :: 0 <= i < |steps| ==> RunStep(run, steps, i)
  }

  ghost predicate RunStep(run: seq<State>, steps: seq<Step>, i: nat)
    requires i < |steps| && |run| == |steps| + 1
  {
    Next(run[i], steps[i], run[i + 1])
  }

  lemma {:induction false} RunKeepsInv(run: seq<State>, steps: seq<Step>, k: nat)
    requires IsRun(run, steps) && k <= |steps|
    ensures Inv(run[k])
  {
    if k == 0 {
    } else {
      RunKeepsInv(run, steps, k - 1);
      assert RunStep(run, steps, k - 1);
      StepKeepsInv(run[k - 1], steps[k - 1], run[k]);
    }
  }

  // ---- Following a chain forward ----

  /** The chain from a slot on. */
  ghost function ChainFrom(page: HeapPage, u: nat): (c: seq<nat>)
    requires Links(page) && u < |page|
    ensures c != [] && c[0] == u && forall i :: 0 <= i < |c| ==> u <= c[i] < |page|
    decreases |page| - u
  {
    assert LinkAt(page, u);
    if page[u].hot.Some? then [u] + ChainFrom(page, page[u].hot.value) else [u]
  }

  /** The first visible version of a chain. */
  ghost function FirstVisible(page: HeapPage, u: nat, seen: set<Xid>): (r: Option<nat>)
    requires Links(page) && u < |page|
    ensures r.Some? ==> u <= r.value < |page| && Visible(page[r.value], seen)
    decreases |page| - u
  {
    assert LinkAt(page, u);
    if Visible(page[u], seen) then Some(u)
    else if page[u].hot.Some? then FirstVisible(page, page[u].hot.value, seen)
    else None
  }

  /** `follow_hot_chain`: it answers with the first visible version, and never
      exhausts its slot-count bound. */
  method FollowHotChain(page: HeapPage, start: nat, seen: set<Xid>) returns (r: Result<Option<nat>>)
    requires Links(page) && start < |page|
    ensures r == Ok(FirstVisible(page, start, seen))
  {
    var cur := start;
    for hops := 0 to |page|
      invariant hops <= cur < |page|
      invariant FirstVisible(page, start, seen) == FirstVisible(page, cur, seen)
    {
      assert LinkAt(page, cur);
      if Visible(page[cur], seen) {
        return Ok(Some(cur));
      }
      if page[cur].hot.Some? && page[cur].hot.value != cur {
        cur := page[cur].hot.value;
      } else {
        return Ok(None);
      }
    }
    return Err(Corrupted);
  }

  // ---- Back to the root ----

  /** The version the page's links lead back to, or the version itself. */
  ghost function RootOf(page: HeapPage, v: nat): (r: nat)
    requires Links(page) && v < |page|
    ensures r <= v
    decreases v
  {
    if page[v].heapOnly && page[v].origin < v && page[page[v].origin].hot == Some(v)
    then RootOf(page, page[v].origin)
    else v
  }

  /** The reverse links of a page, as `hot_chain_root` collects them. */
  ghost predicate ReverseLinks(page: HeapPage, links: map<nat, nat>)
  {
    && (forall t :: t in links ==> links[t] < |page| && page[links[t]].hot == Some(t))
    && (forall u :: 0 <= u < |page| && page[u].hot.Some? ==> page[u].hot.value in links)
  }

  method CollectLinks(page: HeapPage) returns (links: map<nat, nat>)
    requires Links(page)
    ensures ReverseLinks(page, links)
  {
    links := map[];
    for slot := 0 to |page|
      invariant forall t :: t in links ==> links[t] < slot && page[links[t]].hot == Some(t)
      invariant forall u :: 0 <= u < slot && page[u].hot.Some? ==> page[u].hot.value in links
    {
      if page[slot].hot.Some? {
        links := links[page[slot].hot.value := slot];
      }
    }
  }

  /** `hot_chain_root`: walks the links back, within its bound. */
  method HotChainRoot(page: HeapPage, v: nat) returns (r: Result<nat>)
    requires Links(page) && v < |page|
    ensures r == Ok(RootOf(page, v))
  {
    var links := CollectLinks(page);
    var cur: nat := v;
    for hops := 0 to |page|
      invariant cur + hops < |page| && RootOf(page, v) == RootOf(page, cur)
    {
      if !page[cur].heapOnly {
        return Ok(cur);
      }
      LinkOwner(page, cur, links);
      if cur in links {
        cur := links[cur];
      } else {
        return Ok(cur);
      }
    }
    return Err(Corrupted);
  }

  /** A chain member's only possible predecessor is the version it was updated
      from. */
  lemma LinkOwner(page: HeapPage, v: nat, links: map<nat, nat>)
    requires Links(page) && v < |page| && page[v].heapOnly && ReverseLinks(page, links)
    ensures v in links <==> page[v].origin < v && page[page[v].origin].hot == Some(v)
    ensures v in links ==> links[v] == page[v].origin
  {
    if v in links {
      assert LinkAt(page, links[v]);
    }
  }

  /** Links are injective. */
  lemma LinksInjective(page: HeapPage, u: nat, w: nat)
    requires Links(page) && u < |page| && w < |page| && page[u].hot.Some? && page[u].hot == page[w].hot
    ensures u == w
  {
    assert LinkAt(page, u) && LinkAt(page, w);
  }

  /** The root of anything reached forward from a root is that root. */
  lemma {:induction false} RootRecovered(page: HeapPage, root: nat, i: nat)
    requires Links(page) && root < |page| && !page[root].heapOnly
    requires i < |ChainFrom(page, root)|
    ensures RootOf(page, ChainFrom(page, root)[i]) == root
  {
    if i == 0 {
    } else {
      RootRecovered(page, root, i - 1);
      ChainStep(page, root, i);
    }
  }

  lemma {:induction false} ChainStep(page: HeapPage, u: nat, i: nat)
    requires Links(page) && u < |page| && 0 < i < |ChainFrom(page, u)|
    ensures var c := ChainFrom(page, u);
            && page[c[i - 1]].hot == Some(c[i]) && page[c[i]].heapOnly
            && page[c[i]].origin == c[i - 1] < c[i]
    decreases |page| - u
  {
    assert LinkAt(page, u);
    var n := page[u].hot.value;
    if i <= 1 {
    } else {
      ChainStep(page, n, i - 1);
    }
  }

  // ---- Scanning ----

  /** What the scan does at one slot: nothing at a chain member, else the slot
      or the first visible version behind it. */
  ghost function Yield(page: HeapPage, u: nat, seen: set<Xid>): Option<nat>
    requires Links(page) && u < |page|
  {
    if page[u].heapOnly then None else FirstVisible(page, u, seen)
  }

  /** `scan` of one page. */
  method Scan(page: HeapPage, seen: set<Xid>) returns (r: Result<seq<nat>>)
    requires Links(page)
    ensures r.Ok?
    ensures forall v :: v in r.value <==> exists u :: 0 <= u < |page| && Yield(page, u, seen) == Some(v)
    ensures forall i, j :: 0 <= i < j < |r.value| ==> r.value[i] != r.value[j]
  {
    var out: seq<nat> := [];
    for slot := 0 to |page|
      invariant forall v :: v in out <==> exists u :: 0 <= u < slot && Yield(page, u, seen) == Some(v)
      invariant forall i, j :: 0 <= i < j < |out| ==> out[i] != out[j]
    {
      assert LinkAt(page, slot);
      ghost var before := out;
      if !page[slot].heapOnly {
        if Visible(page[slot], seen) {
          YieldedOnce(page, slot, seen, out);
          out := out + [slot];
        } else if page[slot].hot.Some? && page[slot].hot.value != slot {
          var found := FollowHotChain(page, page[slot].hot.value, seen);
          if found.Err? {
            return Err(Corrupted);
          }
          if found.value.Some? {
            YieldedOnce(page, slot, seen, out);
            out := out + [found.value.value];
          }
        }
      }
      assert forall v :: v in out <==> v in before || Yield(page, slot, seen) == Some(v);
    }
    return Ok(out);
  }

  lemma YieldedOnce(page: HeapPage, slot: nat, seen: set<Xid>, out: seq<nat>)
    requires Links(page) && slot < |page| && Yield(page, slot, seen).Some?
    requires forall v :: v in out <==> exists u :: 0 <= u < slot && Yield(page, u, seen) == Some(v)
    ensures Yield(page, slot, seen).value !in out
  {
    var v := Yield(page, slot, seen).value;
    if v in out {
      var u :| 0 <= u < slot && Yield(page, u, seen) == Some(v);
      YieldRoot(page, u, seen);
      YieldRoot(page, slot, seen);
    }
  }

  /** What a root yields leads back to it. */
  lemma YieldRoot(page: HeapPage, u: nat, seen: set<Xid>)
    requires Links(page) && u < |page| && Yield(page, u, seen).Some?
    ensures RootOf(page, Yield(page, u, seen).value) == u
  {
    var i := FoundOnChain(page, u, seen);
    RootRecovered(page, u, i);
  }

  lemma {:induction false} FoundOnChain(page: HeapPage, u: nat, seen: set<Xid>) returns (i: nat)
    requires Links(page) && u < |page| && FirstVisible(page, u, seen).Some?
    ensures i < |ChainFrom(page, u)| && ChainFrom(page, u)[i] == FirstVisible(page, u, seen).value
    decreases |page| - u
  {
    assert LinkAt(page, u);
    if Visible(page[u], seen) {
      i := 0;
    } else {
      i := FoundOnChain(page, page[u].hot.value, seen);
      i := i + 1;
    }
  }

  /** A snapshot: nobody who aborted, and with an updater also the inserter of
      what it updated. */
  ghost predicate Snapshot(s: State, seen: set<Xid>)
  {
    seen !! s.aborted && forall p :: p in s.saw && p.0 in seen ==> p.1 in seen
  }

  /** A lock is no delete: it changes nothing any snapshot sees, even over the
      stamp of a transaction that never commits. */
  lemma LockHidesNothing(s: State, x: Xid, slot: nat, kind: Kind, s': State, seen: set<Xid>, v: nat)
    requires Next(s, LockRow(x, slot, kind), s') && Snapshot(s, seen) && v < |s.page|
    ensures |s'.page| == |s.page| && (Visible(s'.page[v], seen) <==> Visible(s.page[v], seen))
  {
    assert v == slot && IsReal(s.page[v].stamp) ==> s.page[v].stamp.xid in s.aborted;
  }

  /** A delete hides the version from exactly the snapshots that see the deleter. */
  lemma DeleteHides(s: State, x: Xid, slot: nat, s': State, seen: set<Xid>)
    requires Next(s, Delete(x, slot), s') && Snapshot(s, seen)
    ensures Visible(s'.page[slot], seen) <==> s.page[slot].xmin in seen && x !in seen
  {}

  /** A version by someone seen is found from its root unless a version before
      it on the chain is visible, and none is. */
  lemma {:induction false} FoundFromRoot(s: State, v: nat, seen: set<Xid>)
    requires Inv(s) && Snapshot(s, seen) && v < |s.page| && s.page[v].xmin in seen
    ensures !s.page[RootOf(s.page, v)].heapOnly
    ensures FirstVisible(s.page, RootOf(s.page, v), seen) == FirstVisible(s.page, v, seen)
    decreases v
  {
    assert MemberAt(s, v);
    if !s.page[v].heapOnly {
    } else {
      var u := s.page[v].origin;
      FoundFromRoot(s, u, seen);
    }
  }

  /** Scan completeness: in every reachable state and for every snapshot, root
      plus chain scanning yields exactly the visible versions. */
  lemma YieldsVisible(s: State, seen: set<Xid>, v: nat)
    requires Inv(s) && Snapshot(s, seen)
    ensures (exists u :: 0 <= u < |s.page| && Yield(s.page, u, seen) == Some(v))
            <==> v < |s.page| && Visible(s.page[v], seen)
  {
    if v < |s.page| && Visible(s.page[v], seen) {
      FoundFromRoot(s, v, seen);
      assert Yield(s.page, RootOf(s.page, v), seen) == Some(v);
    }
  }

  /** The scan of any page reached by a run returns every version the snapshot
      sees exactly once, the same as filtering all versions. */
  method ScanReachable(run: seq<State>, steps: seq<Step>, k: nat, seen: set<Xid>) returns (r: Result<seq<nat>>)
    requires IsRun(run, steps) && k <= |steps| && Snapshot(run[k], seen)
    ensures r.Ok?
    ensures forall v: nat :: v in r.value <==> v < |run[k].page| && Visible(run[k].page[v], seen)
    ensures forall i, j :: 0 <= i < j < |r.value| ==> r.value[i] != r.value[j]
  {
    RunKeepsInv(run, steps, k);
    r := Scan(run[k].page, seen);
    forall v: nat ensures v in r.value <==> v < |run[k].page| && Visible(run[k].page[v], seen) {
      YieldsVisible(run[k], seen, v);
    }
  }

  /** Without the rule that an update addresses a version its own snapshot
      sees: transaction 2 updates version 0 twice, and its first new version,
      visible to everyone, is reached from nowhere. */
  lemma BlindUpdateHidesVersion() returns (page: HeapPage, seen: set<Xid>)
    ensures Links(page) && |page| == 3 && Visible(page[1], seen)
    ensures forall u :: 0 <= u < |page| ==> Yield(page, u, seen) != Some(1)
  {
    page := [Version(1, Stamp(2, Real), Some(2), false, 0),
             Version(2, NoStamp, None, true, 0),
             Version(2, NoStamp, None, true, 0)];
    seen := {1, 2};
    assert LinkAt(page, 0) && LinkAt(page, 1) && LinkAt(page, 2);
    assert FirstVisible(page, 2, seen) == Some(2);
    assert Yield(page, 0, seen) == Some(2);
  }
}

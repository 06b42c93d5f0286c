/** The row-lock gate as it runs (crates/pg-am-heap/src/heap_am.rs), for one
    row, with other transactions ending between its lookups. Every state it
    passes through is a state of the machine of module RowLocks. */
module RowLockGate {
  import opened RowLocks
  import opened Stamps

  datatype Verdict = Proceed | ProceedNoStamp | Wait(holder: Xid) | ConcurrentlyUpdated | OwnStamp

  /** What another transaction does meanwhile. */
  datatype Event = Started(xid: Xid) | Flipped(xid: Xid, commits: bool) | Left(xid: Xid)

  lemma ExtendRun(run: seq<Row>, steps: seq<Step>, step: Step, s': Row)
    requires IsRun(run, steps) && Next(run[|steps|], step, s')
    ensures IsRun(run + [s'], steps + [step])
  {
    hide Next;
    forall i | 0 <= i <= |steps| ensures RunStep(run + [s'], steps + [step], i) {
      assert i < |steps| ==> RunStep(run, steps, i);
    }
  }

  class RowLock {
    var stamp: Stamp
    var registry: set<Xid>
    var used: set<Xid>
    var active: set<Xid>
    var committed: set<Xid>
    var aborted: set<Xid>
    ghost var run: seq<Row>
    ghost var steps: seq<Step>

    ghost predicate Valid()
      reads this
    {
      && |run| == |steps| + 1 && IsRun(run, steps)
      && var s := run[|steps|];
         && s.stamp == stamp && s.registry == registry
         && s.used == used && s.active == active && s.committed == committed && s.aborted == aborted
    }

    ghost function Now(): Row
      reads this
      requires Valid()
    {
      run[|steps|]
    }

    constructor ()
      ensures Valid() && stamp == NoStamp && Now().gate.NoGate?
    {
      stamp, registry, used, active, committed, aborted := NoStamp, {}, {}, {}, {}, {};
      run, steps := [Row(NoStamp, {}, NoGate, {}, {}, {}, {}, {}, {}, {})], [];
    }

    /** The state the machine is in follows the fields. */
    ghost method Follow(step: Step, s': Row)
      requires |run| == |steps| + 1 && IsRun(run, steps) && Next(run[|steps|], step, s')
      modifies this`run, this`steps
      ensures |run| == |steps| + 1 && IsRun(run, steps) && run == old(run) + [s'] && steps == old(steps) + [step]
    {
      ExtendRun(run, steps, step, s');
      run, steps := run + [s'], steps + [step];
    }

    /** One event of another transaction, if it can happen now. */
    method Meanwhile(event: Event, self: Xid)
      requires Valid() && (Now().gate.NoGate? || Now().gate.self == self)
      modifies this
      ensures Valid() && Undisturbed(old(Now()), Now(), self)
      ensures old(run) <= run && old(steps) <= steps
    {
      ghost var s := Now();
      match event {
        case Started(x) =>
          if x !in used {
            used, active := used + {x}, active + {x};
            Follow(Begin(x), s.(used := used, active := active));
          }
        case Flipped(x, commits) =>
          if x in active && x !in committed && x !in aborted && x != self {
            if commits {
              committed := committed + {x};
            } else {
              aborted := aborted + {x};
            }
            Follow(Flip(x, commits), s.(committed := committed, aborted := aborted));
          }
        case Left(x) =>
          if x in active && (x in committed || x in aborted) && x != self {
            active := active - {x};
            Follow(Leave(x), s.(active := active));
          }
      }
    }

    method Elapse(events: seq<Event>, self: Xid)
      requires Valid() && (Now().gate.NoGate? || Now().gate.self == self)
      modifies this
      ensures Valid() && Undisturbed(old(Now()), Now(), self)
      ensures old(run) <= run && old(steps) <= steps
    {
      for i := 0 to |events|
        invariant Valid() && Undisturbed(old(Now()), Now(), self)
        invariant old(run) <= run && old(steps) <= steps
      {
        Meanwhile(events[i], self);
      }
    }

    /** A holder is live if the commit log does not know its end and it is still
        in the active set. */
    method LooksAlive(h: Xid, self: Xid, request: Request, ghost todo: set<Xid>, ghost live: set<Xid>,
                      before: seq<Event>, after: seq<Event>) returns (alive: bool)
      requires Valid() && Now().gate == Many(self, request, todo, live, {}) && h in todo
      modifies this
      ensures Valid() && Undisturbed(old(Now()), Now().(gate := old(Now()).gate), self)
      ensures Now().gate == Many(self, request, todo - {h}, if alive then live + {h} else live, {})
      ensures old(run) <= run && old(steps) <= steps
      ensures alive ==> FoundLive(run, steps, |old(steps)|, h)
      ensures old(h in used && !Live(Now(), h)) ==> !alive
    {
      ghost var first := |steps|;
      Elapse(before, self);
      if h in committed || h in aborted {
        Follow(PickHolder(h), Now().(gate := Many(self, request, todo - {h}, live, {})));
        return false;
      }
      ghost var pick := |steps|;
      Follow(PickHolder(h), Now().(gate := Many(self, request, todo - {h}, live, {h})));
      Elapse(after, self);
      alive := h in active;
      ghost var check := |steps|;
      Follow(CheckHolder(h), Now().(gate := Many(self, request, todo - {h}, if alive then live + {h} else live, {})));
      if alive {
        assert LooksUp(steps[pick], steps[check], h) && InProgress(run[pick], h) && h in run[check].active;
      }
    }

    /** `live_share_holders`: prune the registry and the stamped transaction,
        one lookup after the other. */
    method LiveShareHolders(self: Xid, request: Request, between: seq<seq<Event>>) returns (live: set<Xid>)
      requires Valid() && stamp.Stamp? && Now().gate == Many(self, request, registry + {stamp.xid}, {}, {})
      modifies this
      ensures Valid() && Now().gate == Many(self, request, {}, live, {})
      ensures Undisturbed(old(Now()), Now().(gate := old(Now()).gate), self)
      ensures live <= old(registry) + {stamp.xid}
      ensures old(run) <= run && old(steps) <= steps
      ensures forall h :: h in live ==> FoundLive(run, steps, |old(steps)|, h)
      ensures forall h :: h in live && h in old(used) ==> Live(old(Now()), h)
    {
      ghost var first, s0 := |steps|, Now();
      var todo := registry + {stamp.xid};
      live := {};
      var i := 0;
      while todo != {}
        invariant Valid() && Now().gate == Many(self, request, todo, live, {})
        invariant Undisturbed(old(Now()), Now().(gate := old(Now()).gate), self)
        invariant live + todo <= old(registry) + {stamp.xid} && i >= 0
        invariant old(run) <= run && old(steps) <= steps
        invariant forall h :: h in live ==> FoundLive(run, steps, first, h)
        invariant forall h :: h in live && h in s0.used ==> Live(s0, h)
        decreases todo
      {
        var h :| h in todo;
        ghost var run0, steps0 := run, steps;
        var alive := LooksAlive(h, self, request, todo, live, At(between, i), At(between, i + 1));
        todo := todo - {h};
        forall x | x in live ensures FoundLive(run, steps, first, x) {
          FoundStays(run0, steps0, run, steps, first, x);
        }
        if alive {
          FoundEarlier(run, steps, first, |steps0|, h);
          live := live + {h};
        }
        i := i + 2;
      }
    }

    /** `note_stamp_overwrite` and the caller's stamp. */
    method Overwrite(self: Xid, request: Request)
      modifies this`stamp, this`registry
      ensures stamp == Stamp(self, KindOf(request)) && registry == if request.Shared? then {self} else {}
    {
      registry := if request.Shared? then {self} else {};
      stamp := Stamp(self, KindOf(request));
    }

    /** `row_lock_gate` and the stamp it permits, under one latch hold. */
    method Lock(self: Xid, request: Request, between: seq<seq<Event>>) returns (v: Verdict)
      requires Valid() && Now().gate.NoGate? && Live(Now(), self)
      modifies this
      ensures Valid() && Now().gate.NoGate? && Live(Now(), self)
      ensures v.Proceed? ==> stamp == Stamp(self, KindOf(request)) && self in Holders(Now(), request)
      ensures v.Proceed? ==> (request.Writer? <==> stamp.kind.Real?) && (request.Shared? <==> stamp.kind.ShareLock?)
      ensures !v.Proceed? ==> stamp == old(stamp)
      ensures v.ProceedNoStamp? ==> request.Shared? && stamp.Stamp? && !stamp.kind.Real? && self in Now().sharers
      ensures request.Shared? && old(stamp).Stamp? && old(stamp).kind.ShareLock? ==> v.Proceed? || v.ProceedNoStamp?
      ensures v.Wait? ==> stamp.Stamp? && v.holder != self && v.holder in old(registry) + {stamp.xid}
      ensures v.Wait? ==> Live(old(Now()), v.holder) && FoundLive(run, steps, |old(steps)|, v.holder)
      ensures v.ConcurrentlyUpdated? <==> !v.Wait? && old(stamp).Stamp? && old(stamp).xid != self && CommittedReal(Now(), old(stamp))
      ensures v.OwnStamp? <==> old(stamp) == Stamp(self, Real) && !request.Writer?
      ensures old(Unclaimed(Now(), self)) && !v.OwnStamp? ==> v.Proceed? || v.ProceedNoStamp?
    {
      HoldersBegun(run, steps);
      ghost var s := Now();
      match stamp
      case NoStamp =>
        Overwrite(self, request);
        Follow(Enter(self, request), Grant(s, self, request));
        return Proceed;
      case Stamp(xid, kind) =>
        if xid == self && kind.Real? {
          if !request.Writer? {
            Follow(Enter(self, request), GiveUp(s));
            return OwnStamp;
          }
          stamp := Stamp(self, KindOf(request));
          Follow(Enter(self, request), Restamp(s, self, request));
          return Proceed;
        }
        if xid == self && kind.ShareLock? && request.Shared? {
          registry := registry + {self};
          Follow(Enter(self, request), Join(s, self));
          return ProceedNoStamp;
        }
        if xid == self && kind.Lock? {
          if request.Shared? {
            Follow(Enter(self, request), Keep(s, self));
            return ProceedNoStamp;
          }
          stamp := Stamp(self, KindOf(request));
          Follow(Enter(self, request), Restamp(s, self, request));
          return Proceed;
        }
        if kind.ShareLock? {
          v := ShareStampGate(self, request, between);
        } else {
          v := ForeignStampGate(self, request, between);
        }
    }

    /** `share_stamp_gate`: a share stamp, mine under an upgrade or another's. */
    method ShareStampGate(self: Xid, request: Request, between: seq<seq<Event>>) returns (v: Verdict)
      requires Valid() && Now().gate.NoGate? && Live(Now(), self)
      requires stamp.Stamp? && stamp.kind.ShareLock? && (stamp.xid == self ==> !request.Shared?)
      modifies this
      ensures Valid() && Now().gate.NoGate? && Live(Now(), self)
      ensures v.Proceed? || v.ProceedNoStamp? || v.Wait?
      ensures v.Proceed? ==> stamp == Stamp(self, KindOf(request)) && self in Holders(Now(), request)
      ensures !v.Proceed? ==> stamp == old(stamp)
      ensures v.ProceedNoStamp? ==> request.Shared? && self in Now().sharers
      ensures v.Wait? ==> v.holder != self && v.holder in old(registry) + {stamp.xid}
      ensures v.Wait? ==> !request.Shared? && Live(old(Now()), v.holder) && FoundLive(run, steps, |old(steps)|, v.holder)
    {
      HoldersBegun(run, steps);
      ghost var first := |steps|;
      ghost var s0 := Now();
      Follow(Enter(self, request), Now().(gate := Many(self, request, registry + {stamp.xid}, {}, {})));
      hide IsRun;
      var live := LiveShareHolders(self, request, between);
      ghost var run0, steps0 := run, steps;
      assert Live(Now(), self);
      v := SettleShares(self, request, live);
      if v.Wait? {
        FoundStays(run0, steps0, run, steps, first + 1, v.holder);
        FoundEarlier(run, steps, first, first + 1, v.holder);
      }
    }

    /** Once the holders are pruned: join them, replace the stamp, or wait for one. */
    method SettleShares(self: Xid, request: Request, live: set<Xid>) returns (v: Verdict)
      requires Valid() && Now().gate == Many(self, request, {}, live, {}) && Live(Now(), self)
      modifies this
      ensures Valid() && Now().gate.NoGate? && Live(Now(), self) && old(run) <= run && old(steps) <= steps
      ensures v.Proceed? || v.ProceedNoStamp? || v.Wait?
      ensures v.Proceed? <==> if request.Shared? then live == {} else live <= {self}
      ensures v.Proceed? ==> stamp == Stamp(self, KindOf(request)) && self in Holders(Now(), request)
      ensures !v.Proceed? ==> stamp == old(stamp)
      ensures v.ProceedNoStamp? <==> request.Shared? && live != {}
      ensures v.ProceedNoStamp? ==> self in Now().sharers && registry == live + {self}
      ensures v.Wait? ==> v.holder in live && v.holder != self && registry == live
    {
      ghost var s := Now();
      registry := live;
      if request.Shared? {
        if live == {} {
          Overwrite(self, request);
          Follow(Settle, JudgeShares(s));
          return Proceed;
        }
        registry := registry + {self};
        Follow(Settle, JudgeShares(s));
        return ProceedNoStamp;
      }
      if live <= {self} {
        Overwrite(self, request);
        Follow(Settle, JudgeShares(s));
        return Proceed;
      }
      Follow(Settle, JudgeShares(s));
      var blocking :| blocking in live && blocking != self;
      return Wait(blocking);
    }

    /** Another's real or exclusive stamp: read the commit log, check the active
        set, read the commit log again. */
    method ForeignStampGate(self: Xid, request: Request, between: seq<seq<Event>>) returns (v: Verdict)
      requires Valid() && Now().gate.NoGate? && Live(Now(), self)
      requires stamp.Stamp? && !stamp.kind.ShareLock? && stamp.xid != self
      modifies this
      ensures Valid() && Now().gate.NoGate? && Live(Now(), self)
      ensures v.Proceed? || v.ConcurrentlyUpdated? || v == Wait(old(stamp).xid)
      ensures v.Proceed? ==> stamp == Stamp(self, KindOf(request)) && self in Holders(Now(), request)
      ensures !v.Proceed? ==> stamp == old(stamp)
      ensures v.Wait? ==> Live(old(Now()), old(stamp).xid) && FoundLive(run, steps, |old(steps)|, old(stamp).xid)
      ensures v.ConcurrentlyUpdated? <==> !v.Wait? && CommittedReal(Now(), old(stamp))
      ensures !Live(old(Now()), old(stamp).xid) ==> (v.Proceed? <==> !CommittedReal(old(Now()), old(stamp)))
    {
      HoldersBegun(run, steps);
      ghost var first := |steps|;
      var xid, kind := stamp.xid, stamp.kind;
      Follow(Enter(self, request), Now().(gate := One(self, request, Nothing)));
      var busy := StamperIsActive(self, request, between);
      if busy {
        FoundEarlier(run, steps, first, first + 1, xid);
        return Wait(xid);
      }
      ghost var s := Now();
      ghost var step := if s.gate.seen.Nothing? then ReadClog else ReadAgain;
      if xid in committed && kind.Real? {
        Follow(step, Judge(s));
        return ConcurrentlyUpdated;
      }
      Overwrite(self, request);
      Follow(step, Judge(s));
      return Proceed;
    }

    /** The lookups: a stamper that is not active has ended or crashed. */
    method StamperIsActive(self: Xid, request: Request, between: seq<seq<Event>>) returns (busy: bool)
      requires Valid() && stamp.Stamp? && Now().gate == One(self, request, Nothing)
      modifies this
      ensures Valid() && Undisturbed(old(Now()), Now().(gate := old(Now()).gate), self)
      ensures busy ==> Now().gate.NoGate? && FoundLive(run, steps, |old(steps)|, stamp.xid)
      ensures busy && stamp.xid in old(used) ==> Live(old(Now()), stamp.xid)
      ensures !busy ==> || Now().gate == One(self, request, NotActive)
                        || (Now().gate == One(self, request, Nothing) && !InProgress(Now(), stamp.xid))
    {
      var xid := stamp.xid;
      Elapse(At(between, 0), self);
      if xid in committed || xid in aborted {
        return false;
      }
      ghost var read := |steps|;
      Follow(ReadClog, Now().(gate := One(self, request, LooksActive)));
      Elapse(At(between, 1), self);
      if xid in active {
        ghost var check := |steps|;
        Follow(CheckActive, GiveUp(Now()));
        assert LooksUp(steps[read], steps[check], xid) && InProgress(run[read], xid) && xid in run[check].active;
        return true;
      }
      Follow(CheckActive, Now().(gate := One(self, request, NotActive)));
      Elapse(At(between, 2), self);
      return false;
    }

    /** What the row-lock theorems say of the fields. */
    lemma Excludes(x: Xid, y: Xid)
      requires Valid() && Live(Now(), x) && Live(Now(), y) && x != y
      ensures x in Now().writers ==> y !in Now().writers && y !in Now().sharers
      ensures y in Now().sharers ==> stamp.Stamp? && (y == stamp.xid || y in registry)
    {
      LockExclusion(run, steps, |steps|, x, y);
    }
  }

  function At(between: seq<seq<Event>>, i: nat): seq<Event>
  {
    if i < |between| then between[i] else []
  }

  function Holders(s: Row, request: Request): set<Xid>
  {
    if request.Shared? then s.sharers else s.writers
  }

  /** Others begin and end; the row, the pass and `self` stay. */
  ghost predicate Undisturbed(s: Row, s': Row, self: Xid)
  {
    && s'.stamp == s.stamp && s'.registry == s.registry && s'.gate == s.gate
    && s'.writers == s.writers && s'.sharers == s.sharers && s'.overwritten == s.overwritten
    && s.used <= s'.used && s.committed <= s'.committed && s.aborted <= s'.aborted
    && (Live(s, self) ==> Live(s', self))
    && (forall x :: x in s.used && x in s'.active ==> x in s.active)
    && forall x :: x in s.used && !Live(s, x) ==> !Live(s', x) && (x in s'.committed <==> x in s.committed)
  }

  lemma HoldersBegun(run: seq<Row>, steps: seq<Step>)
    requires IsRun(run, steps)
    ensures |run| == |steps| + 1 && run[|steps|].registry <= run[|steps|].used
    ensures run[|steps|].stamp.Stamp? ==> run[|steps|].stamp.xid in run[|steps|].used
  {
    RunKeepsInv(run, steps, |steps|);
  }

  /** The lookup in the commit log and the one in the active set, of a stamper or of
      a share holder. */
  predicate LooksUp(first: Step, second: Step, h: Xid)
  {
    (first.ReadClog? && second.CheckActive?) || (first == PickHolder(h) && second == CheckHolder(h))
  }

  /** Since step `from` the commit log was read and did not know the end of `h`, and
      then the active set was read and had it. */
  ghost predicate FoundLive(run: seq<Row>, steps: seq<Step>, from: nat, h: Xid)
  {
    exists i, j :: from <= i < j < |steps| && j < |run| && LooksUp(steps[i], steps[j], h)
                   && InProgress(run[i], h) && h in run[j].active
  }

  lemma FoundStays(run: seq<Row>, steps: seq<Step>, run': seq<Row>, steps': seq<Step>, from: nat, h: Xid)
    requires FoundLive(run, steps, from, h) && run <= run' && steps <= steps'
    ensures FoundLive(run', steps', from, h)
  {
    var i, j :| from <= i < j < |steps| && j < |run| && LooksUp(steps[i], steps[j], h)
                && InProgress(run[i], h) && h in run[j].active;
    assert LooksUp(steps'[i], steps'[j], h);
  }

  lemma FoundEarlier(run: seq<Row>, steps: seq<Step>, from: nat, from': nat, h: Xid)
    requires FoundLive(run, steps, from', h) && from <= from'
    ensures FoundLive(run, steps, from, h)
  {}

  /** Nobody else holds the row or has deleted it. */
  ghost predicate Unclaimed(s: Row, self: Xid)
  {
    s.stamp.Stamp? ==>
      && (s.stamp.xid != self ==> !CommittedReal(s, s.stamp))
      && forall h :: (h == s.stamp.xid || (s.stamp.kind.ShareLock? && h in s.registry)) && h != self ==> !Live(s, h)
  }
}

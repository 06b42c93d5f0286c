/** The row-lock protocol of the heap (crates/pg-am-heap/src/heap_am.rs), for
    one row.

    A gate pass runs under the page latch, but transactions end, and are
    looked up in the commit log and the active set, while it runs. So a pass is
    a sequence of small steps here, with the ends of other transactions in
    between; each end flips the commit log before it leaves the active set. */
module RowLocks {
  import opened Stamps

  datatype Request = Writer | Exclusive | Shared

  /** A gate pass in flight. `One` looks at a single foreign stamp; `Many`
      prunes the holders of a share lock one by one. */
  datatype Gate =
    | NoGate
    | One(self: Xid, request: Request, seen: Seen)
    | Many(self: Xid, request: Request, todo: set<Xid>, live: set<Xid>, reading: set<Xid>)

  /** What the pass knows about the foreign stamper. */
  datatype Seen = Nothing | LooksActive | NotActive

  /** `writers` and `sharers` are auxiliary: who was granted what on this row,
      ever. `overwritten` are the owners of real stamps that someone else's
      stamp replaced. */
  datatype Row = Row(
    stamp: Stamp, registry: set<Xid>, gate: Gate,
    used: set<Xid>, active: set<Xid>, committed: set<Xid>, aborted: set<Xid>,
    writers: set<Xid>, sharers: set<Xid>, overwritten: set<Xid>)

  datatype Step =
    | Begin(xid: Xid)
    | Flip(xid: Xid, commits: bool)
    | Leave(xid: Xid)
    | Enter(self: Xid, request: Request)
    | ReadClog
    | CheckActive
    | ReadAgain
    | PickHolder(holder: Xid)
    | CheckHolder(holder: Xid)
    | Settle
    | Crash(stamp: Stamp)

  predicate InProgress(s: Row, x: Xid)
  {
    x !in s.committed && x !in s.aborted
  }

  /** A transaction that can still commit, and whose locks count. */
  predicate Live(s: Row, x: Xid)
  {
    x in s.active && InProgress(s, x)
  }

  function KindOf(request: Request): Kind
  {
    match request case Writer => Real case Exclusive => Lock case Shared => ShareLock
  }

  /** `note_stamp_overwrite`, then the caller's stamp, under the same latch. */
  function Grant(s: Row, self: Xid, request: Request): Row
  {
    s.(stamp := Stamp(self, KindOf(request)),
       registry := if request.Shared? then {self} else {},
       gate := NoGate,
       writers := if request.Shared? then s.writers else s.writers + {self},
       sharers := if request.Shared? then s.sharers + {self} else s.sharers,
       overwritten := if s.stamp.Stamp? && s.stamp.kind.Real? && s.stamp.xid != self
                      then s.overwritten + {s.stamp.xid} else s.overwritten)
  }

  /** A stamp over my own real or exclusive one: the registry is left alone. */
  function Restamp(s: Row, self: Xid, request: Request): Row
  {
    s.(stamp := Stamp(self, KindOf(request)), gate := NoGate, writers := s.writers + {self})
  }

  /** `register_share_holder` and leave the stamp alone. */
  function Join(s: Row, self: Xid): Row
  {
    s.(registry := s.registry + {self}, sharers := s.sharers + {self}, gate := NoGate)
  }

  /** A share request under my own exclusive lock: no downgrade. */
  function Keep(s: Row, self: Xid): Row { s.(sharers := s.sharers + {self}, gate := NoGate) }

  /** An error or a wait: the latch is dropped, nothing is stamped. */
  function GiveUp(s: Row): Row { s.(gate := NoGate) }

  /** The branches of `row_lock_gate` that need no lookup, and the start of
      those that do. */
  function Enter1(s: Row, self: Xid, request: Request): Row
  {
    match s.stamp
    case NoStamp => Grant(s, self, request)
    case Stamp(xid, kind) =>
      if xid == self && kind.Real? then
        if request.Writer? then Restamp(s, self, request) else GiveUp(s)
      else if xid == self && kind.Lock? then
        if request.Shared? then Keep(s, self) else Restamp(s, self, request)
      else if xid == self && request.Shared? then Join(s, self)
      else if kind.ShareLock? then s.(gate := Many(self, request, s.registry + {xid}, {}, {}))
      else s.(gate := One(self, request, Nothing))
  }

  /** The verdict on a foreign real or exclusive stamp, once its owner's state
      is known to be terminal or lost. */
  function Judge(s: Row): Row
    requires s.gate.One? && s.stamp.Stamp?
  {
    if s.stamp.xid in s.committed && s.stamp.kind.Real? then GiveUp(s)
    else Grant(s, s.gate.self, s.gate.request)
  }

  /** The verdict on a share stamp: `live` is what pruning left, and is written
      back to the registry. */
  function JudgeShares(s: Row): Row
    requires s.gate.Many?
  {
    var t := s.(registry := s.gate.live);
    if s.gate.request.Shared? then
      if s.gate.live == {} then Grant(t, s.gate.self, Shared) else Join(t, s.gate.self)
    else if s.gate.live <= {s.gate.self} then Grant(t, s.gate.self, s.gate.request)
    else GiveUp(t)
  }

  ghost predicate Next(s: Row, step: Step, s': Row)
  {
    match step
    case Begin(x) => x !in s.used && s' == s.(used := s.used + {x}, active := s.active + {x})
    case Flip(x, commits) =>
      && Live(s, x) && (s.gate.NoGate? || s.gate.self != x)
      && s' == if commits then s.(committed := s.committed + {x}) else s.(aborted := s.aborted + {x})
    case Leave(x) => x in s.active && !InProgress(s, x) && s' == s.(active := s.active - {x})
    case Enter(self, request) => s.gate.NoGate? && Live(s, self) && s' == Enter1(s, self, request)
    case ReadClog =>
      && s.gate.One? && s.gate.seen.Nothing? && s.stamp.Stamp?
      && s' == if InProgress(s, s.stamp.xid) then s.(gate := s.gate.(seen := LooksActive)) else Judge(s)
    case CheckActive =>
      && s.gate.One? && s.gate.seen.LooksActive? && s.stamp.Stamp?
      && s' == if s.stamp.xid in s.active then GiveUp(s) else s.(gate := s.gate.(seen := NotActive))
    case ReadAgain => s.gate.One? && s.gate.seen.NotActive? && s.stamp.Stamp? && s' == Judge(s)
    case PickHolder(h) =>
      && s.gate.Many? && s.gate.reading == {} && h in s.gate.todo
      && s' == s.(gate := s.gate.(todo := s.gate.todo - {h}, reading := if InProgress(s, h) then {h} else {}))
    case CheckHolder(h) =>
      && s.gate.Many? && s.gate.reading == {h}
      && s' == s.(gate := s.gate.(reading := {}, live := if h in s.active then s.gate.live + {h} else s.gate.live))
    case Settle => s.gate.Many? && s.gate.todo == {} && s.gate.reading == {} && s' == JudgeShares(s)
    case Crash(stamp) =>
      // Memory is lost. Lock stamps are not logged, so the row may show an
      // older stamp, but not that of a transaction that commits; a committed
      // real stamp is redone.
      && (CommittedReal(s, s.stamp) || CommittedReal(s, stamp) ==> stamp == s.stamp)
      && (stamp.Stamp? ==> stamp.xid in s.used)
      && s' == s.(active := {}, registry := {}, gate := NoGate, stamp := stamp)
  }

  predicate CommittedReal(s: Row, stamp: Stamp)
  {
    IsReal(stamp) && stamp.xid in s.committed
  }

  /** A granted writer or exclusive lock is the stamp; a granted share lock is
      the stamp or is registered under a share stamp. */
  ghost predicate WritersStamped(s: Row)
  {
    forall x :: x in s.writers && Live(s, x) ==> s.stamp.Stamp? && s.stamp.xid == x && !s.stamp.kind.ShareLock?
  }

  ghost predicate SharersTracked(s: Row)
  {
    forall y :: y in s.sharers && Live(s, y) ==> SharerTracked(s, y)
  }

  ghost predicate SharerTracked(s: Row, y: Xid)
  {
    s.stamp.Stamp? && (s.stamp.xid == y || (s.stamp.kind.ShareLock? && y in s.registry))
  }

  /** The owner of an overwritten real stamp can never commit. */
  ghost predicate OverwrittenLost(s: Row)
  {
    forall x :: x in s.overwritten ==> x in s.used && x !in s.committed && !Live(s, x)
  }

  ghost predicate Sane(s: Row)
  {
    && s.active <= s.used && s.committed <= s.used && s.aborted <= s.used && s.registry <= s.used
    && s.committed !! s.aborted && s.sharers <= s.used && s.writers <= s.used
    && (s.stamp.Stamp? ==> s.stamp.xid in s.used)
  }

  /** What a pass in flight knows. */
  ghost predicate GateSane(s: Row)
  {
    match s.gate
    case NoGate => true
    case One(self, _, seen) =>
      && Live(s, self) && s.stamp.Stamp? && s.stamp.xid != self && !s.stamp.kind.ShareLock?
      && (seen.NotActive? ==> s.stamp.xid !in s.active)
    case Many(self, request, todo, live, reading) =>
      && Live(s, self) && s.stamp.Stamp? && s.stamp.kind.ShareLock?
      && (s.stamp.xid == self ==> !request.Shared?)
      && live <= s.used && todo <= s.used && reading <= s.used
      && forall y :: (y in s.registry || y == s.stamp.xid) && Live(s, y) ==> y in todo || y in live || y in reading
  }

  ghost predicate Inv(s: Row)
  {
    && Sane(s) && GateSane(s) && WritersStamped(s) && SharersTracked(s) && OverwrittenLost(s)
  }

  ghost predicate Init(s: Row)
  {
    s == Row(NoStamp, {}, NoGate, {}, {}, {}, {}, {}, {}, {})
  }

  /** Nobody but `self` holds the row. */
  ghost predicate OthersGone(s: Row, self: Xid)
  {
    && (forall x :: x in s.writers && Live(s, x) ==> x == self)
    && (forall y :: y in s.sharers && Live(s, y) ==> y == self)
  }

  lemma GrantKeepsInv(s: Row, self: Xid, request: Request)
    requires Sane(s) && OverwrittenLost(s) && OthersGone(s, self) && Live(s, self)
    requires request.Shared? ==> self !in s.writers
    requires s.stamp.Stamp? && s.stamp.xid != self && s.stamp.kind.Real? ==>
               !Live(s, s.stamp.xid) && s.stamp.xid !in s.committed
    ensures Inv(Grant(s, self, request))
  {}

  lemma RestampKeepsInv(s: Row, self: Xid, request: Request)
    requires Inv(s) && Live(s, self) && s.stamp.Stamp? && s.stamp.xid == self && !s.stamp.kind.ShareLock?
    requires !request.Shared?
    ensures Inv(Restamp(s, self, request))
  {
    var t := Restamp(s, self, request);
    forall y | y in t.sharers && Live(t, y) ensures SharerTracked(t, y) {
      assert SharerTracked(s, y);
    }
  }

  lemma JoinKeepsInv(s: Row, self: Xid)
    requires Sane(s) && OverwrittenLost(s) && WritersStamped(s) && SharersTracked(s) && Live(s, self)
    requires s.stamp.Stamp? && s.stamp.kind.ShareLock?
    ensures Inv(Join(s, self))
  {}

  lemma EnterKeepsInv(s: Row, self: Xid, request: Request)
    requires Inv(s) && s.gate.NoGate? && Live(s, self)
    ensures Inv(Enter1(s, self, request))
  {
    match s.stamp
    case NoStamp => GrantKeepsInv(s, self, request);
    case Stamp(xid, kind) =>
      if xid == self && !kind.ShareLock? {
        if (kind.Real? && request.Writer?) || (kind.Lock? && !request.Shared?) {
          RestampKeepsInv(s, self, request);
        }
      } else if xid == self && request.Shared? {
        JoinKeepsInv(s, self);
      }
  }

  /** A foreign real or exclusive stamp whose owner is not live is the only
      claim on the row. */
  lemma JudgeKeepsInv(s: Row)
    requires Inv(s) && s.gate.One? && !Live(s, s.stamp.xid)
    ensures Inv(Judge(s))
  {
    if !(s.stamp.xid in s.committed && s.stamp.kind.Real?) {
      GrantKeepsInv(s, s.gate.self, s.gate.request);
    }
  }

  lemma SettleKeepsInv(s: Row)
    requires Inv(s) && s.gate.Many? && s.gate.todo == {} && s.gate.reading == {}
    ensures Inv(JudgeShares(s))
  {
    var t := s.(registry := s.gate.live);
    assert SharersTracked(t) by {
      forall y | y in t.sharers && Live(t, y) ensures SharerTracked(t, y) {
        assert SharerTracked(s, y);
      }
    }
    if s.gate.request.Shared? && s.gate.live != {} {
      JoinKeepsInv(t, s.gate.self);
    } else if s.gate.live <= {s.gate.self} {
      GrantKeepsInv(t, s.gate.self, s.gate.request);
    }
  }

  lemma StepKeepsInv(s: Row, step: Step, s': Row)
    requires Inv(s) && Next(s, step, s')
    ensures Inv(s')
  {
    match step
    case Enter(self, request) => EnterKeepsInv(s, self, request);
    case ReadClog =>
      if !InProgress(s, s.stamp.xid) {
        JudgeKeepsInv(s);
      }
    case ReadAgain => JudgeKeepsInv(s);
    case Settle => SettleKeepsInv(s);
    case Flip(x, _) => FlipKeepsInv(s, step, s');
    case _ => QuietKeepsInv(s, step, s');
  }

  lemma FlipKeepsInv(s: Row, step: Step, s': Row)
    requires Inv(s) && step.Flip? && Next(s, step, s')
    ensures Inv(s')
  {
    assert forall y :: Live(s', y) ==> Live(s, y);
    assert forall y :: SharerTracked(s', y) == SharerTracked(s, y);
  }

  lemma QuietKeepsInv(s: Row, step: Step, s': Row)
    requires Inv(s) && Next(s, step, s')
    requires step.Begin? || step.Leave? || step.CheckActive? || step.PickHolder? || step.CheckHolder? || step.Crash?
    ensures Inv(s')
  {
    assert forall y :: Live(s', y) && y in s.used ==> Live(s, y);
    assert step.Crash? || forall y :: SharerTracked(s', y) == SharerTracked(s, y);
  }

  // ---- Whole runs ----

  ghost predicate IsRun(run: seq<Row>, steps: seq<Step>)
  {
    && |run| == |steps| + 1 && Init(run[0])
    && forall i :: 0 <= i < |steps| ==> RunStep(run, steps, i)
  }

  ghost predicate RunStep(run: seq<Row>, steps: seq<Step>, i: nat)
    requires i < |steps| && |run| == |steps| + 1
  {
    Next(run[i], steps[i], run[i + 1])
  }

  lemma {:induction false} RunKeepsInv(run: seq<Row>, steps: seq<Step>, k: nat)
    requires IsRun(run, steps) && k <= |steps|
    ensures Inv(run[k])
  {
    if k == 0 {
    } else {
      RunKeepsInv(run, steps, k - 1);
      assert RunStep(run, steps, k - 1);
      StepKeepsInv(run[k - 1], steps[k - 1], run[k]);
    }
  }

  /** Row-lock exclusion: in every reachable state a live writer or exclusive
      holder excludes every other live holder, and every live share holder is
      the stamped transaction or is registered. */
  lemma LockExclusion(run: seq<Row>, steps: seq<Step>, k: nat, x: Xid, y: Xid)
    requires IsRun(run, steps) && k <= |steps| && Live(run[k], x) && Live(run[k], y) && x != y
    ensures x in run[k].writers ==> y !in run[k].writers && y !in run[k].sharers
    ensures y in run[k].sharers ==> run[k].stamp.Stamp? && (y == run[k].stamp.xid || y in run[k].registry)
  {
    RunKeepsInv(run, steps, k);
    assert y in run[k].sharers ==> SharerTracked(run[k], y);
  }

  lemma OverwrittenGrows(s: Row, step: Step, s': Row)
    requires Next(s, step, s')
    ensures s.overwritten <= s'.overwritten
  {}

  lemma {:induction false} OverwrittenStays(run: seq<Row>, steps: seq<Step>, j: nat, k: nat)
    requires IsRun(run, steps) && j <= k <= |steps|
    ensures run[j].overwritten <= run[k].overwritten
  {
    if j == k {
    } else {
      OverwrittenStays(run, steps, j, k - 1);
      assert RunStep(run, steps, k - 1);
      OverwrittenGrows(run[k - 1], steps[k - 1], run[k]);
    }
  }

  /** Proceeding over another transaction's real stamp means that transaction
      never commits, then or later: a lock never resurrects a deleted row. */
  lemma OverwrittenNeverCommits(run: seq<Row>, steps: seq<Step>, j: nat, k: nat, x: Xid)
    requires IsRun(run, steps) && j <= k <= |steps| && x in run[j].overwritten
    ensures x !in run[k].committed
  {
    OverwrittenStays(run, steps, j, k);
    RunKeepsInv(run, steps, k);
  }

  lemma CommittedStep(s: Row, step: Step, s': Row)
    requires Inv(s) && Next(s, step, s') && CommittedReal(s, s.stamp)
    ensures s'.stamp == s.stamp && CommittedReal(s', s'.stamp)
  {}

  /** A committed delete or update is final. */
  lemma {:induction false} CommittedIsFinal(run: seq<Row>, steps: seq<Step>, j: nat, k: nat)
    requires IsRun(run, steps) && j <= k <= |steps| && CommittedReal(run[j], run[j].stamp)
    ensures run[k].stamp == run[j].stamp && CommittedReal(run[k], run[k].stamp)
  {
    if j == k {
    } else {
      CommittedIsFinal(run, steps, j, k - 1);
      RunKeepsInv(run, steps, k - 1);
      assert RunStep(run, steps, k - 1);
      CommittedStep(run[k - 1], steps[k - 1], run[k]);
    }
  }

  // ---- The first pass of a cross-page update ----

  /** A cross-page update passes the gate, drops the latch without stamping and
      passes it again. The first pass has already retired the share set. */
  function FirstPass(s: Row): Row
  {
    s.(registry := {}, gate := NoGate)
  }

  /** That costs a lock exactly when the updater itself holds a share that only
      the registry knows. */
  lemma FirstPassKeepsIff(s: Row, self: Xid)
    requires Sane(s) && OverwrittenLost(s) && WritersStamped(s) && SharersTracked(s)
    requires Live(s, self) && OthersGone(s, self)
    ensures Inv(FirstPass(s)) <==>
            !(self in s.sharers && s.stamp.Stamp? && s.stamp.xid != self)
  {
    var t := FirstPass(s);
    assert self in s.sharers ==> SharerTracked(s, self);
    assert SharersTracked(t) <==> (self in s.sharers ==> SharerTracked(t, self));
  }

  const A: Xid := 1
  const B: Xid := 2
  const C: Xid := 3

  // A shares the row and commits, B joined it, C wants it exclusively.
  const SHARED_ROW := Row(Stamp(A, ShareLock), {A, B}, NoGate, {A, B, C}, {B, C}, {A}, {}, {}, {A, B}, {})
  const RETIRED_ROW := FirstPass(SHARED_ROW)
  const LOOKING_ROW := RETIRED_ROW.(gate := Many(C, Exclusive, {A}, {}, {}))
  const EMPTY_ROW := RETIRED_ROW.(gate := Many(C, Exclusive, {}, {}, {}))

  // How it comes about: A and B share the row, then A commits.
  const JOINING := Row(Stamp(A, ShareLock), {A}, Many(B, Shared, {A}, {}, {}), {A, B, C}, {A, B, C}, {}, {}, {}, {A}, {})
  const SHARED_STEPS: seq<Step> :=
    [Begin(A), Begin(B), Begin(C), Enter(A, Shared), Enter(B, Shared), PickHolder(A), CheckHolder(A), Settle,
     Flip(A, true), Leave(A)]
  const SHARED_RUN: seq<Row> :=
    [Row(NoStamp, {}, NoGate, {}, {}, {}, {}, {}, {}, {}),
     Row(NoStamp, {}, NoGate, {A}, {A}, {}, {}, {}, {}, {}),
     Row(NoStamp, {}, NoGate, {A, B}, {A, B}, {}, {}, {}, {}, {}),
     Row(NoStamp, {}, NoGate, {A, B, C}, {A, B, C}, {}, {}, {}, {}, {}),
     JOINING.(gate := NoGate),
     JOINING,
     JOINING.(gate := Many(B, Shared, {}, {}, {A})),
     JOINING.(gate := Many(B, Shared, {}, {A}, {})),
     JOINING.(gate := NoGate, registry := {A, B}, sharers := {A, B}),
     JOINING.(gate := NoGate, registry := {A, B}, sharers := {A, B}, committed := {A}),
     SHARED_ROW]

  lemma SharedStep(i: nat)
    requires i < |SHARED_STEPS|
    ensures RunStep(SHARED_RUN, SHARED_STEPS, i)
  {
    assert {A} - {A} == {} && {} + {A} == {A} && {A, B, C} - {A} == {B, C};
  }

  lemma SharedReached()
    ensures IsRun(SHARED_RUN, SHARED_STEPS) && SHARED_RUN[|SHARED_STEPS|] == SHARED_ROW
  {
    hide RunStep;
    forall i | 0 <= i < |SHARED_STEPS| ensures RunStep(SHARED_RUN, SHARED_STEPS, i) {
      SharedStep(i);
    }
  }

  /** From such a state C is granted the exclusive lock while B still holds its
      share. */
  lemma FirstPassLosesShare() returns (t: Row)
    ensures IsRun(SHARED_RUN, SHARED_STEPS) && SHARED_RUN[|SHARED_STEPS|] == SHARED_ROW && OthersGone(SHARED_ROW, B)
    ensures Next(RETIRED_ROW, Enter(C, Exclusive), LOOKING_ROW)
    ensures Next(LOOKING_ROW, PickHolder(A), EMPTY_ROW)
    ensures Next(EMPTY_ROW, Settle, t)
    ensures Live(t, B) && B in t.sharers && Live(t, C) && C in t.writers
  {
    SharedReached();
    assert {} + {A} == {A} && {A} - {A} == {};
    t := JudgeShares(EMPTY_ROW);
    assert RETIRED_ROW.registry + {A} == {A};
    assert LOOKING_ROW == Enter1(RETIRED_ROW, C, Exclusive);
  }
}

/** The row-lock gate and the update chains together
    (crates/pg-am-heap/src/heap_am.rs): what the gate grants is what the chains
    rely on. */
module GatedUpdates {
  import opened Outcome
  import opened Stamps
  import L = RowLocks
  import H = HotChains

  /** A transaction that never commits. */
  predicate Lost(row: L.Row, x: Xid)
  {
    x in row.used && x !in row.committed && !L.Live(row, x)
  }

  /** What is lost stays lost, in a crash too. */
  lemma LostStays(row: L.Row, step: L.Step, row': L.Row, x: Xid)
    requires L.Next(row, step, row') && Lost(row, x)
    ensures Lost(row', x)
  {}

  /** The version in `slot` carries the row's stamp, and the page's story knows
      exactly the lost transactions. */
  ghost predicate Agree(row: L.Row, s: H.State, slot: nat)
  {
    && slot < |s.page| && s.page[slot].stamp == row.stamp
    && forall x :: x in s.aborted <==> Lost(row, x)
  }

  /** Whenever the gate lets a transaction stamp the row, the rule the chains
      assume holds: the stamp it replaces is no delete, its own, or that of a
      transaction that never commits. */
  lemma GateGrants(row: L.Row, step: L.Step, row': L.Row, s: H.State, slot: nat)
    requires L.Inv(row) && L.Next(row, step, row') && !step.Crash? && row'.stamp != row.stamp && Agree(row, s, slot)
    ensures row'.stamp.Stamp? && H.MayStamp(s, slot, row'.stamp.xid)
    ensures !IsReal(row'.stamp) ==> row.stamp != Stamp(row'.stamp.xid, Real)
  {}

  /** The step of the page's story that a step of the lock protocol is, if any. */
  function Told(row: L.Row, step: L.Step, row': L.Row, slot: nat): Option<H.Step>
  {
    if row'.stamp != row.stamp && row'.stamp.Stamp? then
      Some(if row'.stamp.kind.Real? then H.Delete(row'.stamp.xid, slot)
           else H.LockRow(row'.stamp.xid, slot, row'.stamp.kind))
    else if step.Flip? && !step.commits then Some(H.Abort(step.xid))
    else None
  }

  lemma SameLost(row: L.Row, step: L.Step, row': L.Row, x: Xid)
    requires L.Inv(row) && L.Next(row, step, row') && !step.Crash?
    ensures Lost(row', x) <==> Lost(row, x) || (step.Flip? && !step.commits && x == step.xid)
  {}

  /** Every step of the protocol is a step of the story, or none. */
  lemma StepSimulates(row: L.Row, step: L.Step, row': L.Row, s: H.State, slot: nat) returns (s': H.State)
    requires L.Inv(row) && L.Next(row, step, row') && !step.Crash? && Agree(row, s, slot)
    ensures Agree(row', s', slot)
    ensures match Told(row, step, row', slot) case None => s' == s case Some(hs) => H.Next(s, hs, s')
  {
    forall x ensures Lost(row', x) <==> Lost(row, x) || (step.Flip? && !step.commits && x == step.xid) {
      SameLost(row, step, row', x);
    }
    hide Lost;
    if row'.stamp != row.stamp {
      GateGrants(row, step, row', s, slot);
      assert !step.Flip?;
      s' := s.(page := s.page[slot := s.page[slot].(stamp := row'.stamp)]);
    } else if step.Flip? && !step.commits {
      s' := s.(aborted := s.aborted + {step.xid});
    } else {
      s' := s;
    }
  }

  ghost predicate NoCrash(steps: seq<L.Step>, k: nat)
    requires k <= |steps|
  {
    forall i :: 0 <= i < k ==> !steps[i].Crash?
  }

  /** Every run of the lock protocol of a row, up to a crash, is a run of the
      update chains: what module HotChains proves of its runs holds of versions
      that are stamped through the gate. */
  lemma {:induction false} GateRunIsChainRun(run: seq<L.Row>, steps: seq<L.Step>, inserter: Xid, k: nat)
    returns (told: seq<H.State>, story: seq<H.Step>)
    requires L.IsRun(run, steps) && k <= |steps| && NoCrash(steps, k)
    ensures H.IsRun(told, story) && Agree(run[k], told[|story|], 0) && told[|story|].page[0].xmin == inserter
  {
    if k == 0 {
      var first := H.Version(inserter, NoStamp, None, false, 0);
      told, story := [H.State([], {}, {}), H.State([first], {}, {})], [H.Insert(inserter)];
      assert [] + [first] == [first];
      assert H.RunStep(told, story, 0);
    } else {
      told, story := GateRunIsChainRun(run, steps, inserter, k - 1);
      L.RunKeepsInv(run, steps, k - 1);
      assert L.RunStep(run, steps, k - 1);
      var s := told[|story|];
      var s' := StepSimulates(run[k - 1], steps[k - 1], run[k], s, 0);
      var step := Told(run[k - 1], steps[k - 1], run[k], 0);
      if step.Some? {
        told, story := Extended(told, story, step.value, s');
      }
    }
  }

  lemma Extended(told: seq<H.State>, story: seq<H.Step>, step: H.Step, s': H.State)
    returns (told': seq<H.State>, story': seq<H.Step>)
    requires H.IsRun(told, story) && H.Next(told[|story|], step, s')
    ensures H.IsRun(told', story') && told'[|story'|] == s'
  {
    hide H.Next;
    told', story' := told + [s'], story + [step];
    forall i | 0 <= i < |story'| ensures H.RunStep(told', story', i) {
      assert i < |story| ==> H.RunStep(told, story, i);
    }
  }
}

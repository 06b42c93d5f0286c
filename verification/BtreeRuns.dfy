/** Content refinement over whole runs, crashes and recoveries included. */
module BtreeRuns {
  import opened Outcome
  import opened Sequences
  import opened BtreePages
  import opened BtreeLog
  import opened BtreeReplay
  import opened BtreeDurability
  import opened BtreeChain
  import opened BtreeContent

  /** The leaf chain after `k` records, starting from `chain`. */
  ghost function ChainAfter(chain: seq<PageId>, log: seq<Record>, k: nat): seq<PageId>
    requires k <= |log|
  {
    if k == 0 then chain else NextChain(ChainAfter(chain, log, k - 1), log[k - 1])
  }

  /** The set the index stands for: what was inserted and not deleted. */
  ghost function NextLive(live: set<Entry>, s: Pages, chain: seq<PageId>, r: Record): set<Entry>
  {
    if r.Insert? && r.page in chain then live + {r.entry}
    else if r.Delete? && r.page in chain && r.slot < |EntriesOf(s, r.page)| then
      live - {EntriesOf(s, r.page)[r.slot]}
    else live
  }

  ghost function LiveAfter(h: seq<Pages>, chain: seq<PageId>, log: seq<Record>, k: nat): set<Entry>
    requires |h| == |log| + 1 && k <= |log|
  {
    if k == 0 then Elements(Contents(h[0], chain))
    else NextLive(LiveAfter(h, chain, log, k - 1), h[k - 1], ChainAfter(chain, log, k - 1), log[k - 1])
  }

  ghost function Elements(es: seq<Entry>): set<Entry>
  {
    set e | e in es
  }

  ghost predicate DisciplinedAt(h: seq<Pages>, chain: seq<PageId>, log: seq<Record>, i: nat)
    requires |h| == |log| + 1 && i < |log|
  {
    Disciplined(h[i], ChainAfter(chain, log, i), log[i])
  }

  ghost predicate DisciplinedRun(h: seq<Pages>, chain: seq<PageId>, log: seq<Record>)
    requires |h| == |log| + 1
  {
    forall i :: 0 <= i < |log| ==> DisciplinedAt(h, chain, log, i)
  }

  /** One step on the set: an insert adds an entry that was absent, a delete
      removes one that was present, nothing else changes it. */
  lemma NextElements(s: Pages, chain: seq<PageId>, r: Record, lsn: Lsn, s': Pages)
    requires TreeInv(s, chain) && Appended(s, r, lsn, s') && Disciplined(s, chain, r)
    ensures Elements(NextContents(s, chain, r)) == NextLive(Elements(Contents(s, chain)), s, chain, r)
    ensures r.Insert? && r.page in chain ==> r.entry !in Contents(s, chain)
    ensures r.Delete? && r.page in chain ==>
              r.slot < |EntriesOf(s, r.page)| && EntriesOf(s, r.page)[r.slot] in Contents(s, chain)
  {
    hide Contents;
    var es := Contents(s, chain);
    if r.Insert? && r.page in chain {
      PlacedKeepsSorted(es, Position(s, chain, IndexOf(chain, r.page), r.slot), r.entry);
    } else if r.Delete? && r.page in chain {
      var k := IndexOf(chain, r.page);
      assert LinkedAt(s, chain, k);
      ContentsAt(s, chain, k);
      RemoveInMiddle(Contents(s, chain[..k]), s[chain[k]].entries, Contents(s, chain[k + 1..]), r.slot);
      RemovalKeepsSorted(es, Position(s, chain, k, r.slot));
    }
  }

  /** Content refinement: after every prefix of every disciplined run the leaf
      chain is strictly sorted and spells out inserted minus deleted. */
  lemma {:induction false} ContentsRefine(h: seq<Pages>, chain: seq<PageId>, log: seq<Record>, k: nat)
    requires IsHistory(h, log) && TreeInv(h[0], chain) && DisciplinedRun(h, chain, log) && k <= |log|
    ensures TreeInv(h[k], ChainAfter(chain, log, k))
    ensures Elements(Contents(h[k], ChainAfter(chain, log, k))) == LiveAfter(h, chain, log, k)
  {
    if k == 0 {
    } else {
      ContentsRefine(h, chain, log, k - 1);
      assert HistoryStep(h, log, k - 1) && DisciplinedAt(h, chain, log, k - 1);
      hide TreeInv;
      hide Disciplined;
      hide Appended;
      hide Contents;
      var before := ChainAfter(chain, log, k - 1);
      StepRefines(h[k - 1], before, log[k - 1], k, h[k]);
      NextElements(h[k - 1], before, log[k - 1], k, h[k]);
    }
  }

  /** Steps of a run never touch the initial data file. */
  lemma {:induction false} SameStart(run: seq<Db>, steps: seq<Step>, k: nat)
    requires IsRun(run, steps) && k <= |steps|
    ensures |run[k].hist| > 0 && run[k].hist[0] == run[0].mem
  {
    if k == 0 {
    } else {
      SameStart(run, steps, k - 1);
      RunKeepsInv(run, steps, k - 1);
      hide Inv;
      assert RunStep(run, steps, k - 1);
      hide Redo;
      hide Online;
    }
  }

  /** The index after any number of crashes and recoveries: once replay is
      done, the chain in memory is sorted and holds exactly what the surviving
      log inserted and did not delete. */
  lemma RecoveredContents(run: seq<Db>, steps: seq<Step>, k: nat, chain: seq<PageId>)
    requires IsRun(run, steps) && k <= |steps| && run[k].next == |run[k].log|
    requires TreeInv(run[0].mem, chain)
    requires |run[k].hist| == |run[k].log| + 1 && DisciplinedRun(run[k].hist, chain, run[k].log)
    ensures var s := run[k];
            var now := ChainAfter(chain, s.log, |s.log|);
            && TreeInv(s.mem, now)
            && Elements(Contents(s.mem, now)) == LiveAfter(s.hist, chain, s.log, |s.log|)
  {
    hide TreeInv;
    hide DisciplinedRun;
    hide Contents;
    CrashRecovery(run, steps, k);
    SameStart(run, steps, k);
    ContentsRefine(run[k].hist, chain, run[k].log, |run[k].log|);
  }
}

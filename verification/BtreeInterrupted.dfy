/** Recovery interrupted by a crash, and recovery from that
    (crates/pg-storage/src/recovery.rs, crates/pg-am-btree/src/redo.rs): the log
    of the undo pass is replayed after that of the run, then undo goes on. */
module BtreeInterrupted {
  import opened Keys
  import opened Outcome
  import opened BtreePages
  import opened BtreeLog
  import opened BtreeReplay
  import opened BtreeDurability
  import opened BtreeChain
  import opened BtreeContent
  import opened BtreeRuns
  import opened BtreeFinish
  import opened BtreeClr
  import opened BtreeCascade
  import opened BtreeRound
  import opened BtreeEvents
  import opened BtreeUndo
  import opened BtreeRooted
  import opened BtreeAssured
  import opened BtreeRedo
  import opened BtreeRecovery

  /** What a crash can leave of the file when undo had got as far as `events`: of
      every page a version that the run or the undo pass gave it, of a page that
      undo added possibly none. The file has the length the allocator gave it. */
  ghost predicate InterruptedImage(h: seq<Pages>, log: seq<Record>, hist: seq<Pages>, disk: Pages, c: nat)
    requires c <= |log| && |h| == |log| + 1 && 0 < |hist|
  {
    && |disk| == |hist[|hist| - 1]| && |h[c]| == |h[0]| <= |disk| && CaughtUp(h, disk[..|h[0]|], c)
    && forall p :: 0 <= p < |disk| ==>
         || (p < |h[0]| && PageOnHistory(h, p, disk[p]))
         || ((p < |h[0]| ==> disk[p].lsn > |log|) && VersionFrom(hist, 0, p, disk[p]))
  }

  // ---- The undo log a crash leaves ----

  predicate LaterThan(e: Event, lsn: Lsn)
  {
    match e
    case Reserve => true
    case Create(_, page) => page.lsn > lsn
    case Backup(_, page) => page.lsn > lsn
    case Finish(_, _, l) => l > lsn
  }

  /** An event stamps every page it changes. */
  lemma EventStamps(base: Lsn, s: Pages, e: Event, s': Pages, lsn: Lsn, p: PageId)
    requires Occurs(base, s, e, s') && LaterThan(e, lsn) && PageAt(s', p).lsn <= lsn
    ensures PageAt(s, p) == PageAt(s', p)
  {
    hide ApplyClr;
    hide ImagesOf;
    if e.Finish? {
      EffectiveApplies(s, e.rec, e.lsn);
      AllNamed(s, e.rec);
      ClrMoves(s, Effective(e.rec), e.lsn - 1, s');
    }
  }

  lemma {:induction false} OldVersion(base: Lsn, hist: seq<Pages>, events: seq<Event>, kept: nat, j: nat, lsn: Lsn, p: PageId)
    requires UndoRun(base, hist, events) && kept <= j <= |events| && PageAt(hist[j], p).lsn <= lsn
    requires forall i :: kept <= i < |events| ==> LaterThan(events[i], lsn)
    ensures PageAt(hist[kept], p) == PageAt(hist[j], p)
  {
    if j == kept {
    } else {
      assert OccursAt(base, hist, events, j - 1);
      hide Occurs;
      EventStamps(base, hist[j - 1], events[j - 1], hist[j], lsn, p);
      OldVersion(base, hist, events, kept, j - 1, lsn, p);
    }
  }

  /** The log is synced up to a page's LSN before the page is written: whatever
      part of the undo log survives, the image is one of the undo pass up to
      there. */
  lemma CutImage(h: seq<Pages>, log: seq<Record>, hist: seq<Pages>, events: seq<Event>, disk: Pages, c: nat,
                 kept: nat, lsn: Lsn)
    requires c <= |log| && |h| == |log| + 1 && UndoRun(|log|, hist, events) && |hist| == |events| + 1 && kept <= |events|
    requires InterruptedImage(h, log, hist, disk, c) && |h[0]| == |hist[0]|
    requires forall p :: 0 <= p < |disk| ==> disk[p].lsn <= lsn
    requires forall i :: kept <= i < |events| ==> LaterThan(events[i], lsn)
    ensures UndoRun(|log|, hist[..kept + 1], events[..kept]) && |hist[kept]| <= |disk|
    ensures InterruptedImage(h, log, hist[..kept + 1], disk[..|hist[kept]|], c)
  {
    RunPrefix(|log|, hist, events, kept);
    RunLonger(|log|, hist, events, kept, |events|);
    RunLonger(|log|, hist, events, 0, kept);
    hide UndoRun;
    var hist', disk' := hist[..kept + 1], disk[..|hist[kept]|];
    assert disk'[..|h[0]|] == disk[..|h[0]|];
    forall p | 0 <= p < |disk'| && VersionFrom(hist, 0, p, disk[p]) ensures VersionFrom(hist', 0, p, disk'[p]) {
      var j :| 0 <= j < |hist| && disk[p] == PageAt(hist[j], p);
      if j > kept {
        OldVersion(|log|, hist, events, kept, j, lsn, p);
        assert disk'[p] == PageAt(hist'[kept], p);
      } else {
        assert disk'[p] == PageAt(hist'[j], p);
      }
    }
  }

  // ---- Redo ----

  /** The redo of the run leaves every page as undo found it or as undo left it
      on disk. */
  lemma RunReplayed(h: seq<Pages>, log: seq<Record>, hist: seq<Pages>, disk: Pages, c: nat)
    requires IsHistory(h, log) && c <= |log| && 0 < |hist| && hist[0] == h[|log|] && InterruptedImage(h, log, hist, disk, c)
    requires RightPagesNotImaged(log) && RightBeforeLeft(log, disk[..|h[0]|])
    ensures Replay(disk[..|h[0]|], log, c).Ok?
    ensures Behind(hist, 0, Replay(disk[..|h[0]|], log, c).value + disk[|h[0]|..])
  {
    hide HistoryStep;
    hide Replay;
    hide RightPagesNotImaged;
    hide RightBeforeLeft;
    var n := |h[0]|;
    var front, tail := disk[..n], disk[n..];
    HistoryLsns(h, log, |log|);
    forall p | 0 <= p < n ensures PageOnHistory(h, p, front[p]) || front[p].lsn >= |h| {}
    hide IsHistory;
    FlushOrderIsSafe(log, front, c);
    ReplayPast(h, log, front, c);
    var mem := Replay(front, log, c).value;
    forall p | 0 <= p < |disk| ensures VersionFrom(hist, 0, p, (mem + tail)[p]) {
      if p < n && !Ahead(log, front, c, |log|, p) {
        assert mem[p] == PageAt(hist[0], p);
      } else {
        assert (mem + tail)[p] == disk[p];
      }
    }
  }

  /** Redo has flushed the right page of every Copy, so the flush order holds for
      whatever undo flushes on top of that. */
  lemma FlushedUndoIsSafe(s: Db, disk: Pages)
    requires Inv(s) && s.next == |s.log| && |disk| == |s.disk|
    requires forall p :: 0 <= p < |disk| ==> disk[p] == s.disk[p] || disk[p].lsn > |s.log|
    ensures RightBeforeLeft(s.log, disk)
  {
    CopiesReached(s, |s.log|);
    forall j | 0 <= j < |s.log| ensures RightBeforeLeftAt(s.log[j], j, disk) {
      assert CopyOrderAt(s.log[j], j, s.mem, s.disk);
    }
  }

  /** A compensation record takes its split off the tracker. */
  function TrackEvents(t: Tracker, events: seq<Event>, k: nat): Tracker
    requires k <= |events|
  {
    if k == 0 then t
    else if events[k - 1].Finish? then TrackEvents(t, events, k - 1) - {events[k - 1].rec.left}
    else TrackEvents(t, events, k - 1)
  }

  lemma {:induction false} TrackedLeft(t: Tracker, events: seq<Event>, k: nat)
    requires k <= |events|
    ensures TrackEvents(t, events, k) == t - Lefts(events[..k])
  {
    if k == 0 {
    } else {
      TrackedLeft(t, events, k - 1);
      assert events[..k] == events[..k - 1] + [events[k - 1]];
      var more := if events[k - 1].Finish? then {events[k - 1].rec.left} else {};
      assert Lefts(events[..k]) == Lefts(events[..k - 1]) + more by {
        forall p | p in Lefts(events[..k - 1]) + more ensures p in Lefts(events[..k]) {
          if p in Lefts(events[..k - 1]) {
            var i :| 0 <= i < k - 1 && events[..k - 1][i].Finish? && events[..k - 1][i].rec.left == p;
            assert events[..k][i].rec.left == p;
          } else {
            assert events[..k][k - 1].rec.left == p;
          }
        }
      }
    }
  }

  /** What the interrupted pass reached is a file that undo can work on, with
      the tracker redo hands it. */
  lemma ReachedReady(h: seq<Pages>, first: seq<PageId>, log: seq<Record>, c: nat, hist: seq<Pages>, events: seq<Event>)
    requires IndexRun(h, first, log) && c <= |log| && UndoRun(|log|, hist, events) && hist[0] == h[|log|]
    ensures forall k :: 0 <= k <= |events| ==> Spells(hist[k], Contents(h[|log|], ChainAfter(first, log, |log|)))
    ensures Elements(Contents(h[|log|], ChainAfter(first, log, |log|))) == LiveAfter(h, first, log, |log|)
    ensures forall p :: p in TrackEvents(Track(log, c, |log|), events, |events|) ==> Flagged(hist[|events|], p)
  {
    hide Ready;
    hide Contents;
    hide Hinted;
    ReplayedReady(h, first, log, c);
    hide IndexRun;
    forall k | 0 <= k <= |events| ensures Spells(hist[k], Contents(h[|log|], ChainAfter(first, log, |log|))) {
      RunSpells(|log|, hist, events, k, Contents(h[|log|], ChainAfter(first, log, |log|)));
    }
    TrackedLeft(Track(log, c, |log|), events, |events|);
    assert events[..|events|] == events;
    forall p | p in Track(log, c, |log|) && p !in Lefts(events) ensures Flagged(hist[|events|], p) {
      RunKeepsFlag(|log|, hist, events, |events|, p);
    }
  }

  /** Redo ends exactly in the file the interrupted undo had reached, whatever
      was flushed of it. */
  method RedoAll(disk: Pages, n: nat, log: seq<Record>, c: nat, events: seq<Event>,
                 ghost h: seq<Pages>, ghost hist: seq<Pages>)
    returns (mem: Pages, tracker: Tracker)
    requires IsHistory(h, log) && c <= |log| && n == |h[0]|
    requires UndoRun(|log|, hist, events) && hist[0] == h[|log|] && |hist| == |events| + 1
    requires InterruptedImage(h, log, hist, disk, c) && RightPagesNotImaged(log) && RightBeforeLeft(log, disk[..n])
    ensures mem == hist[|events|] && tracker == TrackEvents(Track(log, c, |log|), events, |events|)
  {
    hide UndoRun;
    hide RedoEvent;
    RunReplayed(h, log, hist, disk, c);
    hide Replay;
    hide Behind;
    var redo := new RedoPass(disk[..n]);
    var replayed := redo.ReplayWal(log, c, h);
    mem, tracker := redo.pages + disk[n..], redo.tracker;
    EventsConverge(|log|, hist, events, 0, mem);
    for k := 0 to |events|
      invariant RedoEvents(mem, events, k) == Ok(hist[|events|])
      invariant tracker == TrackEvents(Track(log, c, |log|), events, k)
    {
      mem := RedoEvent(mem, events[k]).value;
      if events[k].Finish? {
        tracker := tracker - {events[k].rec.left};
      }
    }
  }

  /** Recovery after a crash that interrupted recovery, once or again and again.
      Undo goes on from the file that was reached, and the log it leaves
      continues the same run, so that it may be interrupted in turn. Every
      file on the way spells out what the crash of the run left, and a pass
      that succeeds leaves no split pending. */
  method RecoverAgain(disk: Pages, n: nat, log: seq<Record>, c: nat, events: seq<Event>, lsn: Lsn,
                      ghost h: seq<Pages>, ghost first: seq<PageId>, ghost hist: seq<Pages>)
    returns (r: Result<Pages>, ghost chain: seq<PageId>, ghost order: seq<PageId>, ghost trace: seq<Pages>,
             ghost hist': seq<Pages>, ghost events': seq<Event>)
    requires IndexRun(h, first, log) && c <= |log| && n == |h[0]|
    requires UndoRun(|log|, hist, events) && |hist| == |events| + 1 && hist[0] == h[|log|]
    requires Sane(hist[|events|], lsn) && |log| <= lsn
    requires InterruptedImage(h, log, hist, disk, c) && RightPagesNotImaged(log) && RightBeforeLeft(log, disk[..n])
    ensures UndoRun(|log|, hist', events') && hist <= hist' && events <= events' && (r.Ok? ==> hist'[|events'|] == r.value)
    ensures forall k :: 0 <= k < |hist'| ==> Spells(hist'[k], Contents(h[|log|], ChainAfter(first, log, |log|)))
    ensures r.Ok? ==> forall p :: 0 <= p < |r.value| ==> !r.value[p].flags.splitIncomplete
    ensures r.Ok? ==> SpineInv(r.value, chain) && Elements(Contents(r.value, chain)) == LiveAfter(h, first, log, |log|)
    ensures Undone(hist[|events|], TrackEvents(Track(log, c, |log|), events, |events|), order, trace, r.Ok?)
    ensures Assured(hist[|events|], TrackEvents(Track(log, c, |log|), events, |events|)) ==>
              r.Ok? && EntriesKept(hist[|events|], r.value)
  {
    ghost var es := Contents(h[|log|], ChainAfter(first, log, |log|));
    hide UndoRun;
    hide SpineInv;
    hide Contents;
    hide Sane;
    hide Assured;
    hide EntriesKept;
    hide InterruptedImage;
    hide RightBeforeLeft;
    hide RightPagesNotImaged;
    hide TrackEvents;
    var mem, tracker := RedoAll(disk, n, log, c, events, h, hist);
    ReachedReady(h, first, log, c, hist, events);
    hide IndexRun;
    var u := new UndoPass.Resume(lsn, mem, |log|, hist, events);
    ghost var leaves := SpelledBy(mem, es);
    var done;
    done, chain, order, trace := Undo(u, tracker, leaves);
    hist', events' := u.hist, u.events;
    ReachedReady(h, first, log, c, hist', events');
    RunLength(|log|, hist', events');
    if Assured(mem, tracker) {
      AssuredPass(mem, tracker, order, trace, done.Ok?);
    }
    hide Undone;
    if done.Err? {
      return Err(done.error), chain, order, trace, hist', events';
    }
    return Ok(u.pages), chain, order, trace, hist', events';
  }

  lemma SpelledBy(s: Pages, es: seq<Entry>) returns (chain: seq<PageId>)
    requires Spells(s, es)
    ensures Ready(s, chain) && Contents(s, chain) == es
  {
    chain :| Ready(s, chain) && Contents(s, chain) == es;
  }

  lemma RunLength(base: Lsn, hist: seq<Pages>, events: seq<Event>)
    requires UndoRun(base, hist, events)
    ensures |hist| == |events| + 1
  {}
}

/** The redo pass as it runs: handlers that change pages in place and keep the
    incomplete-split tracker (crates/pg-am-btree/src/redo.rs,
    crates/pg-storage/src/recovery.rs). */
module BtreeRedo {
  import opened Keys
  import opened Outcome
  import opened BtreePages
  import opened BtreeLog
  import opened BtreeReplay
  import opened BtreeSearch

  /** Left pages of splits with no Commit yet, and where their Copy started. */
  type Tracker = map<PageId, Option<nat>>

  function TrackOne(t: Tracker, r: Record): Tracker
  {
    match r
    case Prepare(l, _, _, _, _) => t[l := None]
    case Copy(l, _, start, _) => if l in t then t[l := Some(start)] else t
    case Commit(l, _, _, _, _) => t - {l}
    case _ => t
  }

  /** The tracker after replaying `log[c..k]`. */
  function Track(log: seq<Record>, c: nat, k: nat): Tracker
    requires c <= k <= |log|
  {
    if k == c then map[] else TrackOne(Track(log, c, k - 1), log[k - 1])
  }

  /** The record belongs to a split of `l`. */
  predicate OfSplit(r: Record, l: PageId)
  {
    (r.Prepare? && r.left == l) || (r.Copy? && r.left == l) || (r.Commit? && r.left == l)
  }

  /** The last record of a split of `l` is a Copy from `start`. */
  ghost predicate CopiedFrom(log: seq<Record>, c: nat, k: nat, l: PageId, start: nat)
    requires c <= k <= |log|
  {
    exists j :: c <= j < k && log[j].Copy? && log[j].left == l && log[j].start == start && QuietFrom(log, j + 1, k, l)
  }

  ghost predicate QuietFrom(log: seq<Record>, j: nat, k: nat, l: PageId)
    requires j <= k <= |log|
  {
    forall i :: j <= i < k ==> !OfSplit(log[i], l)
  }

  /** A tracked split has a slot exactly if its Copy was replayed, and then the
      Copy's. */
  lemma {:induction false} TrackedSlot(log: seq<Record>, c: nat, k: nat, l: PageId, start: nat)
    requires c <= k <= |log| && l in Track(log, c, k)
    ensures Track(log, c, k)[l] == Some(start) <==> CopiedFrom(log, c, k, l, start)
  {
    if k == c {
    } else if OfSplit(log[k - 1], l) {
      assert QuietFrom(log, k, k, l);
    } else {
      TrackedSlot(log, c, k - 1, l, start);
      if CopiedFrom(log, c, k - 1, l, start) {
        var j :| c <= j < k - 1 && log[j].Copy? && log[j].left == l && log[j].start == start && QuietFrom(log, j + 1, k - 1, l);
        assert QuietFrom(log, j + 1, k, l);
      }
      if CopiedFrom(log, c, k, l, start) {
        var j :| c <= j < k && log[j].Copy? && log[j].left == l && log[j].start == start && QuietFrom(log, j + 1, k, l);
        assert QuietFrom(log, j + 1, k - 1, l);
      }
    }
  }

  /** What redo of a record owes, whatever run wrote it: over pages that are
      each the one it was written for or already past it, a page at or past
      the record stays as it is and one behind becomes the online page. It
      refuses just a Copy whose left page alone is past it. */
  ghost predicate Exact(mem: Pages, r: Record, lsn: Lsn, ok: bool, out: Pages)
  {
    forall s, s' :: Appended(s, r, lsn, s') && AtOrPast(s, lsn, mem) ==>
      && (ok <==> !(r.Copy? && mem[r.left].lsn >= lsn && mem[r.right].lsn < lsn))
      && (ok ==> BroughtUp(r, lsn, s', mem, out))
  }

  ghost predicate Redone(mem: Pages, r: Record, lsn: Lsn, ok: bool, out: Pages)
  {
    && (ok <==> Redo(mem, r, lsn).Ok?)
    && (ok ==> out == Redo(mem, r, lsn).value)
  }

  lemma RedoneIsExact(mem: Pages, r: Record, lsn: Lsn)
    ensures forall ok, out :: Redone(mem, r, lsn, ok, out) ==> Exact(mem, r, lsn, ok, out)
  {
    hide Redo;
    hide Online;
    forall ok, out, s, s' | Redone(mem, r, lsn, ok, out) && Appended(s, r, lsn, s') && AtOrPast(s, lsn, mem)
      ensures ok <==> !(r.Copy? && mem[r.left].lsn >= lsn && mem[r.right].lsn < lsn)
      ensures ok ==> BroughtUp(r, lsn, s', mem, out)
    {
      RedoIsExact(s, r, lsn, s', mem);
    }
  }

  class RedoPass {
    var pages: Pages
    var tracker: Tracker

    constructor (pages: Pages)
      ensures this.pages == pages && tracker == map[]
    {
      this.pages, tracker := pages, map[];
    }

    method ApplyImage(p: PageId, image: Page, lsn: Lsn) returns (ok: bool)
      modifies `pages
      ensures Redone(old(pages), Image(p, image), lsn, ok, pages)
      ensures Exact(old(pages), Image(p, image), lsn, ok, pages)
    {
      RedoneIsExact(pages, Image(p, image), lsn);
      hide Exact;
      if p >= |pages| {
        return false;
      }
      pages := pages[p := Stamp(image, lsn)];
      return true;
    }

    method ApplyInsert(p: PageId, slot: nat, level: nat, flags: Flags, e: Entry, lsn: Lsn) returns (ok: bool)
      modifies `pages
      ensures Redone(old(pages), Insert(p, slot, level, flags, e), lsn, ok, pages)
      ensures Exact(old(pages), Insert(p, slot, level, flags, e), lsn, ok, pages)
    {
      RedoneIsExact(pages, Insert(p, slot, level, flags, e), lsn);
      hide Exact;
      if p >= |pages| {
        return false;
      }
      if pages[p].lsn >= lsn {
        return true;
      }
      var page := InsertEntryAt(InitIfFresh(pages[p], level, flags), slot, e);
      if page.Err? {
        return false;
      }
      pages := pages[p := Stamp(page.value, lsn)];
      return true;
    }

    method ApplyDelete(p: PageId, slot: nat, lsn: Lsn) returns (ok: bool)
      modifies `pages
      ensures Redone(old(pages), Delete(p, slot), lsn, ok, pages)
      ensures Exact(old(pages), Delete(p, slot), lsn, ok, pages)
    {
      RedoneIsExact(pages, Delete(p, slot), lsn);
      hide Exact;
      if p >= |pages| {
        return false;
      }
      if pages[p].lsn >= lsn {
        return true;
      }
      var page := RemoveEntryAt(pages[p], slot);
      if page.Err? {
        return false;
      }
      pages := pages[p := Stamp(page.value, lsn)];
      return true;
    }

    method ApplyPrepare(l: PageId, r: PageId, level: nat, oldNext: PageId, highKey: Key, lsn: Lsn)
      returns (ok: bool)
      modifies this
      ensures Redone(old(pages), Prepare(l, r, level, oldNext, highKey), lsn, ok, pages)
      ensures Exact(old(pages), Prepare(l, r, level, oldNext, highKey), lsn, ok, pages)
      ensures tracker == old(tracker)[l := None]
    {
      RedoneIsExact(pages, Prepare(l, r, level, oldNext, highKey), lsn);
      hide Exact;
      tracker := tracker[l := None];
      if l >= |pages| || r >= |pages| {
        return false;
      }
      if pages[r].lsn < lsn {
        pages := pages[r := Stamp(InitRightPage(l, oldNext, level), lsn)];
      }
      if pages[l].lsn < lsn {
        pages := pages[l := InitIfFresh(pages[l], level, FlagsForLevel(level))];
        var es := pages[l].entries;
        if |es| > 0 && es[|es| - 1].key != highKey {
          return false;
        }
        var left := ApplyPrepareLeft(pages[l], r);
        if left.Err? {
          return false;
        }
        pages := pages[l := Stamp(left.value, lsn)];
      }
      return true;
    }

    method ApplyCopy(l: PageId, r: PageId, start: nat, preLsn: Lsn, lsn: Lsn) returns (ok: bool)
      modifies this
      ensures Redone(old(pages), Copy(l, r, start, preLsn), lsn, ok, pages)
      ensures Exact(old(pages), Copy(l, r, start, preLsn), lsn, ok, pages)
      ensures tracker == if l in old(tracker) then old(tracker)[l := Some(start)] else old(tracker)
    {
      RedoneIsExact(pages, Copy(l, r, start, preLsn), lsn);
      hide Exact;
      if l in tracker {
        tracker := tracker[l := Some(start)];
      }
      if l >= |pages| || r >= |pages| {
        return false;
      }
      if pages[l].lsn != preLsn {
        if pages[l].lsn >= lsn {
          return pages[r].lsn >= lsn;
        }
        if pages[r].lsn < lsn {
          return false;
        }
        var rebuilt := ApplySplitCopy(pages[l], pages[r], start, false);
        if rebuilt.Err? {
          return false;
        }
        pages := pages[l := Stamp(rebuilt.value.0, lsn)];
        return true;
      }
      var move := pages[r].lsn < lsn;
      var copied := ApplySplitCopy(pages[l], pages[r], start, move);
      if copied.Err? {
        return false;
      }
      if move {
        pages := pages[r := Stamp(copied.value.1, lsn)];
      }
      pages := pages[l := Stamp(copied.value.0, lsn)];
      return true;
    }

    method ApplyCommit(l: PageId, r: PageId, parent: PageId, separator: Key, slot: nat, lsn: Lsn)
      returns (ok: bool)
      modifies this
      ensures Redone(old(pages), Commit(l, r, parent, separator, slot), lsn, ok, pages)
      ensures Exact(old(pages), Commit(l, r, parent, separator, slot), lsn, ok, pages)
      ensures tracker == old(tracker) - {l}
    {
      RedoneIsExact(pages, Commit(l, r, parent, separator, slot), lsn);
      hide Exact;
      tracker := tracker - {l};
      if parent >= |pages| || l >= |pages| {
        return false;
      }
      if pages[parent].lsn < lsn {
        if IsFresh(pages[parent]) {
          return false;
        }
        var page := InsertEntryAt(pages[parent], slot, Entry(separator, r, 0));
        if page.Err? {
          return false;
        }
        pages := pages[parent := Stamp(page.value, lsn)];
      }
      if pages[l].lsn < lsn {
        if IsFresh(pages[l]) {
          return false;
        }
        var left := ApplyCommitLeft(pages[l]);
        if left.Err? {
          return false;
        }
        pages := pages[l := Stamp(left.value, lsn)];
      }
      return true;
    }

    /** One record: the pages behind it, and only those, become the online
        ones. */
    method ApplyRecord(r: Record, lsn: Lsn) returns (ok: bool)
      modifies this
      ensures Redone(old(pages), r, lsn, ok, pages) && Exact(old(pages), r, lsn, ok, pages)
      ensures ok ==> tracker == TrackOne(old(tracker), r)
    {
      hide Redo;
      match r
      case Image(p, image) => ok := ApplyImage(p, image, lsn);
      case Insert(p, slot, level, flags, e) => ok := ApplyInsert(p, slot, level, flags, e, lsn);
      case Delete(p, slot) => ok := ApplyDelete(p, slot, lsn);
      case Prepare(l, right, level, oldNext, highKey) =>
        ok := ApplyPrepare(l, right, level, oldNext, highKey, lsn);
      case Copy(l, right, start, preLsn) => ok := ApplyCopy(l, right, start, preLsn, lsn);
      case Commit(l, right, parent, separator, slot) =>
        ok := ApplyCommit(l, right, parent, separator, slot, lsn);
    }

    /** Replay from the redo point over what a crash left. On the pages of a
        run `h` it ends in exactly the online pages, refusing just where
        CopySafe fails, and the tracker then holds exactly the splits that
        are unfinished and began after the redo point. */
    method ReplayWal(log: seq<Record>, c: nat, ghost h: seq<Pages>) returns (ok: bool)
      requires c <= |log| && tracker == map[]
      modifies this
      ensures ok <==> Replay(old(pages), log, c).Ok?
      ensures ok ==> pages == Replay(old(pages), log, c).value && tracker == Track(log, c, |log|)
      ensures CrashImage(h, log, old(pages), c) ==> (ok <==> CopySafe(log, old(pages), c, c))
      ensures CrashImage(h, log, old(pages), c) && ok ==> pages == h[|log|]
      ensures CrashImage(h, log, old(pages), c) && ok && FlagsKept(h, log) ==>
                forall l :: 0 <= l < |pages| ==> (l in tracker <==> SplitSince(h, c, |log|, l))
    {
      hide Redo;
      hide TrackOne;
      hide Exact;
      hide IsHistory;
      hide SplitSince;
      var i := c;
      while i < |log|
        invariant c <= i <= |log| && tracker == Track(log, c, i)
        invariant Replay(old(pages), log, c) == Replay(pages, log, i)
      {
        var applied := ApplyRecord(log[i], i + 1);
        if !applied {
          ok := false;
          WholeReplay(h, log, old(pages), c);
          return;
        }
        i := i + 1;
      }
      ok := true;
      WholeReplay(h, log, old(pages), c);
    }
  }

  /** `s` is an image a crash of the run `h` can leave, with the effects of the
      first `c` records in it. */
  ghost predicate CrashImage(h: seq<Pages>, log: seq<Record>, s: Pages, c: nat)
    requires c <= |log|
  {
    IsHistory(h, log) && OnHistory(h, s) && |h[c]| == |s| && CaughtUp(h, s, c)
  }

  lemma WholeReplay(h: seq<Pages>, log: seq<Record>, disk: Pages, c: nat)
    requires c <= |log|
    ensures CrashImage(h, log, disk, c) ==> (Replay(disk, log, c).Ok? <==> CopySafe(log, disk, c, c))
    ensures CrashImage(h, log, disk, c) && Replay(disk, log, c).Ok? ==>
              Replay(disk, log, c).value == h[|log|]
    ensures CrashImage(h, log, disk, c) && FlagsKept(h, log) ==>
              |h[|log|]| == |disk| && forall l :: 0 <= l < |disk| ==> (l in Track(log, c, |log|) <==> SplitSince(h, c, |log|, l))
  {
    hide SplitSince;
    if CrashImage(h, log, disk, c) {
      ReplayConverges(h, log, disk, c);
      HistoryLsns(h, log, |log|);
      if FlagsKept(h, log) {
        TrackerExact(h, log, c, |log|);
      }
    }
  }

  /** An image shows its page flagged exactly if it is, and a right page that
      is handed out is not a page still being split. */
  ghost predicate KeepsFlags(s: Pages, r: Record)
  {
    match r
    case Image(p, image) => p < |s| ==> (s[p].flags.splitIncomplete <==> image.flags.splitIncomplete)
    case Prepare(_, right, _, _, _) => right < |s| ==> !s[right].flags.splitIncomplete
    case _ => true
  }

  ghost predicate FlagsKept(h: seq<Pages>, log: seq<Record>)
    requires |h| == |log| + 1
  {
    forall i :: 0 <= i < |log| ==> KeepsFlags(h[i], log[i])
  }

  /** Page `l` is flagged after `k` records and was not all the way from the
      redo point on. */
  ghost predicate SplitSince(h: seq<Pages>, c: nat, k: nat, l: PageId)
    requires c <= k < |h|
  {
    && FlaggedAt(h, k, l)
    && exists i :: c <= i <= k && !FlaggedAt(h, i, l)
  }

  ghost predicate FlaggedAt(h: seq<Pages>, i: nat, l: PageId)
    requires i < |h|
  {
    l < |h[i]| && h[i][l].flags.splitIncomplete
  }

  lemma TrackStep(t: Tracker, s: Pages, r: Record, lsn: Lsn, s': Pages, l: PageId)
    requires Appended(s, r, lsn, s') && KeepsFlags(s, r) && l < |s|
    requires l in t ==> s[l].flags.splitIncomplete
    ensures |s'| == |s| && (l in TrackOne(t, r) ==> s'[l].flags.splitIncomplete)
    ensures s[l].flags.splitIncomplete && s'[l].flags.splitIncomplete ==> (l in TrackOne(t, r) <==> l in t)
    ensures !s[l].flags.splitIncomplete && s'[l].flags.splitIncomplete ==> l in TrackOne(t, r)
  {
    if r.Copy? {
      CopyKeepsFlags(s[r.left], s[r.right], r.start);
    }
  }

  lemma {:induction false} AppendAllKeepsFlags(p: Page, es: seq<Entry>)
    requires AppendAll(p, es).Ok?
    ensures AppendAll(p, es).value.flags == p.flags
    decreases |es|
  {
    if es == [] {
    } else {
      AppendAllKeepsFlags(InsertEntryAt(p, |p.entries|, es[0]).value, es[1..]);
    }
  }

  lemma CopyKeepsFlags(left: Page, right: Page, start: nat)
    requires ApplySplitCopy(left, right, start, true).Ok?
    ensures var (l, r) := ApplySplitCopy(left, right, start, true).value;
            l.flags == left.flags && r.flags == right.flags && start >= 1
  {
    AppendAllKeepsFlags(right, left.entries[start..]);
    AppendAllKeepsFlags(InitPage(left.level, left.flags), left.entries[..start]);
  }

  /** Whatever the redo point, the tracker reports exactly the splits that are
      unfinished in the recovered file and began after it. */
  lemma {:induction false} TrackerExact(h: seq<Pages>, log: seq<Record>, c: nat, k: nat)
    requires IsHistory(h, log) && c <= k <= |log| && FlagsKept(h, log)
    ensures |h[k]| == |h[0]|
    ensures forall l :: 0 <= l < |h[k]| ==> (l in Track(log, c, k) <==> SplitSince(h, c, k, l))
  {
    HistoryLsns(h, log, k);
    if k == c {
    } else {
      TrackerExact(h, log, c, k - 1);
      assert HistoryStep(h, log, k - 1);
      forall l | 0 <= l < |h[k]| ensures l in Track(log, c, k) <==> SplitSince(h, c, k, l) {
        TrackStep(Track(log, c, k - 1), h[k - 1], log[k - 1], k, h[k], l);
        SinceNext(h, c, k, l);
      }
    }
  }

  lemma SinceNext(h: seq<Pages>, c: nat, k: nat, l: PageId)
    requires c < k < |h|
    ensures SplitSince(h, c, k, l) <==>
            FlaggedAt(h, k, l) && (FlaggedAt(h, k - 1, l) ==> SplitSince(h, c, k - 1, l))
  {}
}

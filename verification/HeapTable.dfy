/** The heap as it runs (crates/pg-am-heap/src/heap_am.rs): inserts, deletes,
    updates and lock stamps on the page file, the first three logged. The row-lock
    gate (module RowLockGate) has let each of them proceed.

    The methods keep the history of the file as a ghost, so heap redo is proved
    of what they did. */
module HeapTable {
  import opened Outcome
  import opened HeapRedo
  import opened Stamps

  /** The file now is the file after the log, up to lock stamps. */
  ghost predicate EndsAt(v: History, log: seq<Record>, s: Pages)
  {
    && IsHistory(v, log) && |s| == |v.h[|log|]|
    && forall p :: 0 <= p < |s| ==> SamePage(v.lost, v.h[|log|][p], s[p])
  }

  function Advanced(v: History, s: Pages, cid: nat, s': Pages): History
  {
    v.(h := v.h + [s'], live := v.live + [s], cids := v.cids + [cid])
  }

  lemma Extend(v: History, log: seq<Record>, s: Pages, r: Record, cid: nat, s': Pages)
    requires EndsAt(v, log, s) && Online(s, r, |log| + 1, cid, s')
    ensures EndsAt(Advanced(v, s, cid, s'), log + [r], s')
  {
    var v', log' := Advanced(v, s, cid, s'), log + [r];
    forall i | 0 <= i < |log'| ensures HistoryStep(v', log', i) {
      if i < |log| {
        assert HistoryStep(v, log, i);
      }
    }
  }

  /** The file after a record, page by page. */
  function Applied(s: Pages, r: Record, lsn: Lsn, cid: nat): Pages
    requires forall p :: p in Touched(r) && p < |s| ==> Effect(s[p], p, r, Some(cid)).Ok?
  {
    seq(|s|, p requires 0 <= p < |s| =>
      if p in Touched(r) then StampLsn(Effect(s[p], p, r, Some(cid)).value, lsn) else s[p])
  }

  predicate Applies(s: Pages, r: Record, cid: nat)
  {
    forall p :: p in Touched(r) ==> p < |s| && Effect(s[p], p, r, Some(cid)).Ok?
  }

  /** A file page that takes new versions at its end. */
  predicate HasRoom(s: Pages, p: PageId, t: Tuple)
  {
    p < |s| && !s[p].blank && Used(s[p].tuples) + t.bytes + LINE_POINTER_SIZE <= HEAP_CAPACITY
  }

  predicate HasVersion(s: Pages, p: PageId, slot: nat)
  {
    p < |s| && !s[p].blank && slot < |s[p].tuples|
  }

  /** A deleted or updated version: all but the stamp, the command id and the
      update marks stay. */
  function Superseded(t: Tuple, xmax: Xid, cid: nat, updated: bool, hot: Option<nat>): Tuple
  {
    t.(stamp := Stamp(xmax, Real), cid := cid, updated := t.updated || updated, hot := if hot.Some? then hot else t.hot)
  }

  lemma {:induction false} UsedAfterStamp(ts: seq<Tuple>, slot: nat, t: Tuple)
    requires slot < |ts| && t.bytes == ts[slot].bytes
    ensures Used(ts[slot := t]) == Used(ts)
  {
    if slot > 0 {
      UsedAfterStamp(ts[1..], slot - 1, t);
      assert ts[slot := t][1..] == ts[1..][slot - 1 := t];
    } else {
      assert ts[slot := t][1..] == ts[1..];
    }
  }

  /** A same-page update, HOT or plain, on one page. */
  lemma UpdateEffect(page: Page, p: PageId, slot: nat, t: Tuple, xmax: Xid, cid: nat, hot: bool)
    requires !page.blank && slot < |page.tuples| && Used(page.tuples) + t.bytes + LINE_POINTER_SIZE <= HEAP_CAPACITY
    ensures var ts := page.tuples;
            var r := if hot then HotUpdate(p, slot, |ts|, xmax, t) else Update(p, slot, p, |ts|, xmax, t);
            Effect(page, p, r, Some(cid))
            == Ok(page.(tuples := ts[slot := Superseded(ts[slot], xmax, cid, true, if hot then Some(|ts|) else None)] + [t]))
  {
    var ts := page.tuples;
    var stamped := Superseded(ts[slot], xmax, cid, true, None);
    UsedAfterStamp(ts, slot, stamped);
    if hot {
      var linked := Superseded(ts[slot], xmax, cid, true, Some(|ts|));
      assert ts[slot := stamped][slot := linked] == ts[slot := linked];
      UsedAfterStamp(ts, slot, linked);
    }
  }

  class Table {
    var pages: Pages
    var log: seq<Record>
    ghost var v: History

    ghost predicate Valid()
      reads this
    {
      EndsAt(v, log, pages)
    }

    /** `lost` are the transactions that will never commit. */
    constructor (s: Pages, ghost lost: set<Xid>)
      requires forall p :: 0 <= p < |s| ==> s[p].lsn == 0
      ensures Valid() && pages == s && log == [] && v.lost == lost
    {
      pages, log := s, [];
      v := History([s], [], [], lost);
    }

    method LogAndApply(r: Record, cid: nat)
      requires Valid() && Applies(pages, r, cid) && (r.Image? ==> r.image.lsn == 0)
      modifies this
      ensures Valid() && log == old(log) + [r] && v.lost == old(v.lost)
      ensures pages == Applied(old(pages), r, |log|, cid)
    {
      hide Effect;
      hide EndsAt;
      ghost var s, l := pages, log;
      log := log + [r];
      pages := Applied(pages, r, |log|, cid);
      assert Online(s, r, |l| + 1, cid, pages);
      Extend(v, l, s, r, cid, pages);
      v := Advanced(v, s, cid, pages);
    }

    /** A fresh page joins the relation, its initialisation logged. */
    method AddPage(p: PageId)
      requires Valid() && p < |pages|
      modifies this
      ensures Valid() && v.lost == old(v.lost) && |pages| == |old(pages)|
      ensures pages == old(pages)[p := Page(|log|, false, [])]
    {
      LogAndApply(Image(p, Page(0, false, [])), 0);
    }

    /** `insert`: one more version at the end of the page. */
    method Insert(p: PageId, t: Tuple) returns (r: Result<nat>)
      requires Valid() && p < |pages| && !pages[p].blank
      modifies this
      ensures Valid() && v.lost == old(v.lost) && |pages| == |old(pages)|
      ensures r.Ok? <==> old(HasRoom(pages, p, t))
      ensures r.Err? ==> pages == old(pages) && log == old(log)
      ensures r.Ok? ==> r.value == |old(pages)[p].tuples| && pages[p].tuples == old(pages)[p].tuples + [t]
      ensures forall q :: 0 <= q < |pages| && q != p ==> pages[q] == old(pages)[q]
    {
      if Used(pages[p].tuples) + t.bytes + LINE_POINTER_SIZE > HEAP_CAPACITY {
        return Err(PageFull);
      }
      var slot := |pages[p].tuples|;
      LogAndApply(HeapRedo.Insert(p, slot, t), 0);
      return Ok(slot);
    }

    /** `delete`, once the gate has let it proceed: logical, the version stays
        in its slot. */
    method Delete(p: PageId, slot: nat, xmax: Xid, cid: nat) returns (r: Result<nat>)
      requires Valid() && p < |pages| && !pages[p].blank
      modifies this
      ensures Valid() && v.lost == old(v.lost) && |pages| == |old(pages)|
      ensures r.Ok? <==> old(HasVersion(pages, p, slot))
      ensures r.Err? ==> pages == old(pages) && log == old(log)
      ensures r.Ok? ==>
                pages[p].tuples == old(pages)[p].tuples[slot := Superseded(old(pages)[p].tuples[slot], xmax, cid, false, None)]
      ensures forall q :: 0 <= q < |pages| && q != p ==> pages[q] == old(pages)[q]
    {
      if slot >= |pages[p].tuples| {
        return Err(InvalidSlot);
      }
      LogAndApply(HeapRedo.Delete(p, slot, xmax), cid);
      return Ok(slot);
    }

    /** `update` on a page that has room for the new version: a HOT update when
        no indexed column changed, a plain one otherwise. */
    method UpdateInPage(p: PageId, slot: nat, t: Tuple, xmax: Xid, cid: nat, hot: bool) returns (r: Result<nat>)
      requires Valid() && p < |pages| && !pages[p].blank
      modifies this
      ensures Valid() && v.lost == old(v.lost) && |pages| == |old(pages)|
      ensures r.Ok? <==> old(HasVersion(pages, p, slot) && HasRoom(pages, p, t))
      ensures r.Err? ==> pages == old(pages) && log == old(log)
      ensures r.Ok? ==>
                var ts := old(pages)[p].tuples;
                && r.value == |ts|
                && pages[p].tuples
                   == ts[slot := Superseded(ts[slot], xmax, cid, true, if hot then Some(|ts|) else None)] + [t]
      ensures forall q :: 0 <= q < |pages| && q != p ==> pages[q] == old(pages)[q]
    {
      var ts := pages[p].tuples;
      if slot >= |ts| {
        return Err(InvalidSlot);
      }
      if Used(ts) + t.bytes + LINE_POINTER_SIZE > HEAP_CAPACITY {
        return Err(PageFull);
      }
      hide Effect;
      UpdateEffect(pages[p], p, slot, t, xmax, cid, hot);
      if hot {
        LogAndApply(HotUpdate(p, slot, |ts|, xmax, t), cid);
      } else {
        LogAndApply(Update(p, slot, p, |ts|, xmax, t), cid);
      }
      return Ok(|ts|);
    }

    /** The cross-page branch of `update`. */
    method UpdateAcross(p: PageId, slot: nat, q: PageId, t: Tuple, xmax: Xid, cid: nat) returns (r: Result<nat>)
      requires Valid() && p < |pages| && q < |pages| && p != q && !pages[p].blank && !pages[q].blank
      modifies this
      ensures Valid() && v.lost == old(v.lost) && |pages| == |old(pages)|
      ensures r.Ok? <==> old(HasVersion(pages, p, slot) && HasRoom(pages, q, t))
      ensures r.Err? ==> pages == old(pages) && log == old(log)
      ensures r.Ok? ==>
                && r.value == |old(pages)[q].tuples| && pages[q].tuples == old(pages)[q].tuples + [t]
                && pages[p].tuples
                   == old(pages)[p].tuples[slot := Superseded(old(pages)[p].tuples[slot], xmax, cid, true, None)]
      ensures forall w :: 0 <= w < |pages| && w != p && w != q ==> pages[w] == old(pages)[w]
    {
      if slot >= |pages[p].tuples| {
        return Err(InvalidSlot);
      }
      if Used(pages[q].tuples) + t.bytes + LINE_POINTER_SIZE > HEAP_CAPACITY {
        return Err(PageFull);
      }
      var newSlot := |pages[q].tuples|;
      LogAndApply(Update(p, slot, q, newSlot, xmax, t), cid);
      return Ok(newSlot);
    }

    /** `stamp_lock_only`: not logged. The gate proceeds over no claim but one
        that never takes effect. */
    method LockTuple(p: PageId, slot: nat, xid: Xid, share: bool)
      requires Valid() && HasVersion(pages, p, slot) && Claim(v.lost, pages[p].tuples[slot].stamp).None?
      modifies this
      ensures Valid() && v.lost == old(v.lost) && log == old(log) && |pages| == |old(pages)|
      ensures var page := old(pages)[p];
              pages[p] == page.(tuples := page.tuples[slot := page.tuples[slot].(stamp := Stamp(xid, if share then ShareLock else Lock))])
      ensures forall q :: 0 <= q < |pages| && q != p ==> pages[q] == old(pages)[q]
    {
      ghost var s := pages;
      var ts := pages[p].tuples;
      pages := pages[p := pages[p].(tuples := ts[slot := ts[slot].(stamp := Stamp(xid, if share then ShareLock else Lock))])];
      forall q | 0 <= q < |pages| ensures SamePage(v.lost, v.h[|log|][q], pages[q]) {
        LockedSame(v.lost, v.h[|log|][q], s[q], pages[q], slot);
      }
    }

    /** Whatever the methods did, replay from any per-page crash image brings
        every version, slot and link back, up to what is not logged. */
    lemma Recoverable(disk: Pages, c: nat)
      requires Valid() && |v.h| == |log| + 1 && c <= |log|
      requires OnHistory(v, disk) && |v.h[c]| == |disk| && CaughtUp(v, disk, c)
      ensures Replay(disk, log, c).Ok? && |Replay(disk, log, c).value| == |pages|
      ensures forall p :: 0 <= p < |pages| ==> SamePage(v.lost, pages[p], Replay(disk, log, c).value[p])
    {
      HeapReplayConverges(v, log, disk, c);
      hide Replay;
      var out := Replay(disk, log, c).value;
      forall p | 0 <= p < |pages| ensures SamePage(v.lost, pages[p], out[p]) {
        SameSymmetric(v.lost, v.h[|log|][p], pages[p]);
        SameTransitive(v.lost, pages[p], v.h[|log|][p], out[p]);
      }
    }
  }

  lemma LockedSame(lost: set<Xid>, a: Page, b: Page, b': Page, slot: nat)
    requires SamePage(lost, a, b)
    requires || b' == b
             || (slot < |b.tuples| && Claim(lost, b.tuples[slot].stamp).None?
                 && exists x, kind: Kind :: !kind.Real? && b' == b.(tuples := b.tuples[slot := b.tuples[slot].(stamp := Stamp(x, kind))]))
    ensures SamePage(lost, a, b')
  {}
}

/** Heap redo (crates/pg-am-heap/src/redo.rs) against the online heap
    (crates/pg-am-heap/src/heap_am.rs).

    Lock stamps and command ids are not logged, and the real stamp of a
    transaction that never commits may be replaced by a lock. Replay agrees
    with the online pages on everything else. */
module HeapRedo {
  import opened Outcome
  import opened Stamps

  type PageId = nat
  type Lsn = nat

  const HEAP_CAPACITY := 8144
  const LINE_POINTER_SIZE := 4

  /** A tuple version: `bytes` is its size on the page, `hot` the slot of its
      HOT successor. */
  datatype Tuple = Tuple(
    xmin: Xid, bytes: nat, payload: nat, stamp: Stamp, cid: nat, updated: bool, hot: Option<nat>, heapOnly: bool)

  datatype Page = Page(lsn: Lsn, blank: bool, tuples: seq<Tuple>)

  type Pages = seq<Page>

  datatype Record =
    | Insert(page: PageId, slot: nat, tuple: Tuple)
    | Update(oldPage: PageId, oldSlot: nat, newPage: PageId, newSlot: nat, xmax: Xid, tuple: Tuple)
    | Delete(page: PageId, slot: nat, xmax: Xid)
    | HotUpdate(page: PageId, oldSlot: nat, newSlot: nat, xmax: Xid, tuple: Tuple)
    | Image(page: PageId, image: Page)

  function Touched(r: Record): set<PageId>
  {
    if r.Update? then {r.oldPage, r.newPage} else {r.page}
  }

  function Used(tuples: seq<Tuple>): nat
  {
    if tuples == [] then 0 else tuples[0].bytes + LINE_POINTER_SIZE + Used(tuples[1..])
  }

  function InitIfBlank(p: Page): Page
  {
    if p.blank then p.(blank := false, tuples := []) else p
  }

  function StampLsn(p: Page, lsn: Lsn): Page
  {
    p.(lsn := if lsn > p.lsn then lsn else p.lsn)
  }

  /** `add_tuple`: deletes are logical, so a heap page has no unused slot and
      every add appends. */
  function AddTuple(p: Page, t: Tuple): Result<(Page, nat)>
  {
    if p.blank || Used(p.tuples) + t.bytes + LINE_POINTER_SIZE > HEAP_CAPACITY then Err(PageFull)
    else Ok((p.(tuples := p.tuples + [t]), |p.tuples|))
  }

  /** `stamp_deleted` of the redo path; the live one also sets the command id
      `cid`. */
  function StampDeleted(p: Page, slot: nat, xmax: Xid, updated: bool, cid: Option<nat>): Result<Page>
  {
    if slot >= |p.tuples| then Err(InvalidSlot)
    else
      var t := p.tuples[slot];
      Ok(p.(tuples := p.tuples[slot := t.(
              stamp := Stamp(xmax, Real),
              updated := t.updated || updated,
              cid := if cid.Some? then cid.value else t.cid)]))
  }

  /** `stamp_hot_update`. */
  function StampHotUpdate(p: Page, slot: nat, newSlot: nat, xmax: Xid, cid: Option<nat>): Result<Page>
  {
    var stamped :- StampDeleted(p, slot, xmax, true, cid);
    Ok(stamped.(tuples := stamped.tuples[slot := stamped.tuples[slot].(hot := Some(newSlot))]))
  }

  /** Append and compare the slot with the record's. */
  function AddAt(p: Page, t: Tuple, slot: nat): Result<Page>
  {
    var (page, actual) :- AddTuple(p, t);
    if actual != slot then Err(Corrupted) else Ok(page)
  }

  /** The effect of a record on one page it touches; `cid` only online. */
  function Effect(p: Page, id: PageId, r: Record, cid: Option<nat>): Result<Page>
  {
    match r
    case Insert(_, slot, t) => AddAt(InitIfBlank(p), t, slot)
    case Delete(_, slot, xmax) => StampDeleted(p, slot, xmax, false, cid)
    case HotUpdate(_, from, to, xmax, t) =>
      var stamped :- StampHotUpdate(InitIfBlank(p), from, to, xmax, cid);
      AddAt(stamped, t, to)
    case Update(oldPage, from, newPage, to, xmax, t) =>
      var stamped :- if id == oldPage then StampDeleted(InitIfBlank(p), from, xmax, true, cid) else Ok(InitIfBlank(p));
      if id == newPage then AddAt(stamped, t, to) else Ok(stamped)
    case Image(_, image) => Ok(image)
  }

  /** One page under its own LSN guard. A same-page update stamps and appends
      under one guard; an image is restored whatever the page holds. */
  function RedoPage(s: Pages, p: PageId, r: Record, lsn: Lsn): Result<Pages>
  {
    if p >= |s| then Err(Corrupted)
    else if !r.Image? && s[p].lsn >= lsn then Ok(s)
    else
      var page :- Effect(s[p], p, r, None);
      Ok(s[p := StampLsn(page, lsn)])
  }

  /** The four heap handlers and the image handler. */
  function Redo(s: Pages, r: Record, lsn: Lsn): Result<Pages>
  {
    if r.Update? && r.oldPage != r.newPage then
      var s1 :- RedoPage(s, r.oldPage, r, lsn);
      RedoPage(s1, r.newPage, r, lsn)
    else RedoPage(s, if r.Update? then r.oldPage else r.page, r, lsn)
  }

  function Replay(s: Pages, log: seq<Record>, j: nat): Result<Pages>
    requires j <= |log|
    decreases |log| - j
  {
    if j == |log| then Ok(s)
    else
      var s1 :- Redo(s, log[j], j + 1);
      Replay(s1, log, j + 1)
  }

  // ---- Agreement up to what is not logged ----

  /** The claim a stamp makes on the row: a delete by someone who may commit.
      `lost` are the transactions that never commit. */
  function Claim(lost: set<Xid>, stamp: Stamp): Option<Xid>
  {
    if IsReal(stamp) && stamp.xid !in lost then Some(stamp.xid) else None
  }

  predicate SameTuple(lost: set<Xid>, a: Tuple, b: Tuple)
  {
    && a.(stamp := NoStamp, cid := 0) == b.(stamp := NoStamp, cid := 0)
    && Claim(lost, a.stamp) == Claim(lost, b.stamp)
  }

  /** Same LSN, same versions in the same slots with the same HOT links. */
  ghost predicate SamePage(lost: set<Xid>, a: Page, b: Page)
  {
    && a.lsn == b.lsn && SameBody(lost, a, b)
  }

  ghost predicate SameBody(lost: set<Xid>, a: Page, b: Page)
  {
    && a.blank == b.blank && |a.tuples| == |b.tuples|
    && forall i :: 0 <= i < |a.tuples| ==> SameTuple(lost, a.tuples[i], b.tuples[i])
  }

  lemma {:induction false} SameUsed(lost: set<Xid>, a: seq<Tuple>, b: seq<Tuple>)
    requires |a| == |b| && forall i :: 0 <= i < |a| ==> SameTuple(lost, a[i], b[i])
    ensures Used(a) == Used(b)
  {
    if a == [] {
    } else {
      SameUsed(lost, a[1..], b[1..]);
    }
  }

  lemma SameAdd(lost: set<Xid>, a: Page, b: Page, t: Tuple, slot: nat)
    requires SameBody(lost, a, b) && AddAt(a, t, slot).Ok?
    ensures AddAt(b, t, slot).Ok? && SameBody(lost, AddAt(a, t, slot).value, AddAt(b, t, slot).value)
  {
    SameUsed(lost, a.tuples, b.tuples);
  }

  lemma SameStamp(lost: set<Xid>, a: Page, b: Page, slot: nat, xmax: Xid, updated: bool, cid: Option<nat>)
    requires SameBody(lost, a, b) && StampDeleted(a, slot, xmax, updated, cid).Ok?
    ensures StampDeleted(b, slot, xmax, updated, None).Ok?
    ensures SameBody(lost, StampDeleted(a, slot, xmax, updated, cid).value,
                     StampDeleted(b, slot, xmax, updated, None).value)
  {}

  /** A record does the same to pages that agree. */
  lemma SameEffect(lost: set<Xid>, a: Page, b: Page, id: PageId, r: Record, cid: Option<nat>)
    requires SameBody(lost, a, b) && Effect(a, id, r, cid).Ok?
    ensures Effect(b, id, r, None).Ok?
    ensures SameBody(lost, Effect(a, id, r, cid).value, Effect(b, id, r, None).value)
  {
    var a', b' := InitIfBlank(a), InitIfBlank(b);
    match r {
      case Insert(_, slot, t) => SameAdd(lost, a', b', t, slot);
      case Delete(_, slot, xmax) => SameStamp(lost, a, b, slot, xmax, false, cid);
      case HotUpdate(_, from, to, xmax, t) =>
        SameStamp(lost, a', b', from, xmax, true, cid);
        SameAdd(lost, StampHotUpdate(a', from, to, xmax, cid).value, StampHotUpdate(b', from, to, xmax, None).value,
                t, to);
      case Update(oldPage, from, newPage, to, xmax, t) =>
        if id == oldPage {
          SameStamp(lost, a', b', from, xmax, true, cid);
          a', b' := StampDeleted(a', from, xmax, true, cid).value, StampDeleted(b', from, xmax, true, None).value;
        }
        if id == newPage {
          SameAdd(lost, a', b', t, to);
        }
      case Image(_, image) =>
    }
  }

  lemma SameSymmetric(lost: set<Xid>, a: Page, b: Page)
    requires SamePage(lost, a, b)
    ensures SamePage(lost, b, a)
  {}

  lemma SameTransitive(lost: set<Xid>, a: Page, b: Page, c: Page)
    requires SamePage(lost, a, b) && SamePage(lost, b, c)
    ensures SamePage(lost, a, c)
  {
    forall i | 0 <= i < |a.tuples| ensures SameTuple(lost, a.tuples[i], c.tuples[i]) {
      assert SameTuple(lost, a.tuples[i], b.tuples[i]) && SameTuple(lost, b.tuples[i], c.tuples[i]);
    }
  }

  // ---- Online runs ----

  /** Applying a record online, to the file as lock stamps have left it. */
  ghost predicate Online(s: Pages, r: Record, lsn: Lsn, cid: nat, s': Pages)
  {
    && |s'| == |s| && (r.Image? ==> r.image.lsn < lsn)
    && (forall p :: p in Touched(r) ==> p < |s|)
    && forall p :: 0 <= p < |s| ==> OnlineAt(s[p], p, r, lsn, cid, s'[p])
  }

  ghost predicate OnlineAt(page: Page, p: PageId, r: Record, lsn: Lsn, cid: nat, page': Page)
  {
    if p in Touched(r) then Effect(page, p, r, Some(cid)).Ok? && page' == StampLsn(Effect(page, p, r, Some(cid)).value, lsn)
    else page' == page
  }

  /** `h[k]` is the file right after `k` records, `live[k]` the same file once
      lock stamps have come and gone, just before the next record. */
  datatype History = History(h: seq<Pages>, live: seq<Pages>, cids: seq<nat>, lost: set<Xid>)

  ghost predicate IsHistory(v: History, log: seq<Record>)
  {
    && |v.h| == |log| + 1 && |v.live| == |v.cids| == |log|
    && (forall p :: 0 <= p < |v.h[0]| ==> v.h[0][p].lsn == 0)
    && forall i :: 0 <= i < |log| ==> HistoryStep(v, log, i)
  }

  ghost predicate HistoryStep(v: History, log: seq<Record>, i: nat)
    requires i < |log| && |v.h| == |log| + 1 && |v.live| == |v.cids| == |log|
  {
    && |v.live[i]| == |v.h[i]|
    && (forall p :: 0 <= p < |v.h[i]| ==> SamePage(v.lost, v.h[i][p], v.live[i][p]))
    && Online(v.live[i], log[i], i + 1, v.cids[i], v.h[i + 1])
  }

  lemma EffectLsn(page: Page, p: PageId, r: Record, cid: Option<nat>)
    requires Effect(page, p, r, cid).Ok?
    ensures Effect(page, p, r, cid).value.lsn == if r.Image? then r.image.lsn else page.lsn
  {}

  /** One step of the history, for one page. */
  lemma PageStep(v: History, log: seq<Record>, i: nat, p: PageId)
    requires IsHistory(v, log) && i < |log| && p < |v.h[i]| && v.h[i][p].lsn <= i
    ensures |v.h[i + 1]| == |v.h[i]|
    ensures if p in Touched(log[i]) then v.h[i + 1][p].lsn == i + 1 else SamePage(v.lost, v.h[i][p], v.h[i + 1][p])
  {
    assert HistoryStep(v, log, i);
    var live := v.live[i];
    assert OnlineAt(live[p], p, log[i], i + 1, v.cids[i], v.h[i + 1][p]);
    if p in Touched(log[i]) {
      EffectLsn(live[p], p, log[i], Some(v.cids[i]));
    }
  }

  lemma {:induction false} HistoryPage(v: History, log: seq<Record>, k: nat, p: PageId)
    requires IsHistory(v, log) && k <= |log| && p < |v.h[0]|
    ensures |v.h[k]| == |v.h[0]| && v.h[k][p].lsn <= k
    ensures forall j :: v.h[k][p].lsn <= j <= k ==> p < |v.h[j]| && SamePage(v.lost, v.h[j][p], v.h[k][p])
  {
    if k == 0 {
    } else {
      HistoryPage(v, log, k - 1, p);
      PageStep(v, log, k - 1, p);
      if p !in Touched(log[k - 1]) {
        forall j | v.h[k][p].lsn <= j < k ensures p < |v.h[j]| && SamePage(v.lost, v.h[j][p], v.h[k][p]) {
          SameTransitive(v.lost, v.h[j][p], v.h[k - 1][p], v.h[k][p]);
        }
      }
    }
  }

  // ---- One record ----

  /** A page the record was written for, up to what is not logged, or one
      already past it. */
  ghost predicate AtOrPast(lost: set<Xid>, page: Page, lsn: Lsn, mem: Page)
  {
    page.lsn < lsn && (SamePage(lost, page, mem) || mem.lsn >= lsn)
  }

  /** The touched page a record finds behind becomes the online one; any other
      stays as it is. */
  ghost predicate BroughtUp(lost: set<Xid>, r: Record, p: PageId, lsn: Lsn, page': Page, mem: Page, out: Page)
  {
    if p in Touched(r) && (r.Image? || mem.lsn < lsn) then SamePage(lost, page', out) else out == mem
  }

  lemma RedoPageIsExact(lost: set<Xid>, s: Pages, r: Record, lsn: Lsn, cid: nat, s': Pages, p: PageId, mem: Pages)
    requires Online(s, r, lsn, cid, s') && p in Touched(r) && p < |mem| == |s| && AtOrPast(lost, s[p], lsn, mem[p])
    ensures RedoPage(mem, p, r, lsn).Ok?
    ensures RedoPage(mem, p, r, lsn).value == mem[p := RedoPage(mem, p, r, lsn).value[p]]
    ensures BroughtUp(lost, r, p, lsn, s'[p], mem[p], RedoPage(mem, p, r, lsn).value[p])
  {
    assert OnlineAt(s[p], p, r, lsn, cid, s'[p]);
    if !r.Image? && mem[p].lsn < lsn {
      SameEffect(lost, s[p], mem[p], p, r, Some(cid));
      EffectLsn(mem[p], p, r, None);
      EffectLsn(s[p], p, r, Some(cid));
    }
  }

  ghost predicate AllAtOrPast(lost: set<Xid>, s: Pages, lsn: Lsn, mem: Pages)
  {
    |mem| == |s| && forall p :: 0 <= p < |s| ==> AtOrPast(lost, s[p], lsn, mem[p])
  }

  ghost predicate AllBroughtUp(lost: set<Xid>, r: Record, lsn: Lsn, s': Pages, mem: Pages, out: Pages)
  {
    && |out| == |mem| == |s'|
    && forall p :: 0 <= p < |mem| ==> BroughtUp(lost, r, p, lsn, s'[p], mem[p], out[p])
  }

  /** One heap handler, over pages that are each the one the record was written
      for or already past it: it never refuses, and brings exactly the pages
      that are behind up to date. */
  lemma RedoIsExact(lost: set<Xid>, s: Pages, r: Record, lsn: Lsn, cid: nat, s': Pages, mem: Pages)
    requires Online(s, r, lsn, cid, s') && AllAtOrPast(lost, s, lsn, mem)
    ensures Redo(mem, r, lsn).Ok? && AllBroughtUp(lost, r, lsn, s', mem, Redo(mem, r, lsn).value)
  {
    hide RedoPage;
    hide OnlineAt;
    hide AtOrPast;
    var first := if r.Update? then r.oldPage else r.page;
    assert first in Touched(r);
    RedoPageIsExact(lost, s, r, lsn, cid, s', first, mem);
    if r.Update? && r.oldPage != r.newPage {
      RedoPageIsExact(lost, s, r, lsn, cid, s', r.newPage, RedoPage(mem, first, r, lsn).value);
    }
  }

  // ---- Crash images and replay ----

  /** A page on disk is the page after the records its LSN counts, up to what
      is not logged. */
  ghost predicate OnHistory(v: History, disk: Pages)
    requires |v.h| > 0
  {
    |disk| == |v.h[0]| && forall p :: 0 <= p < |disk| ==> PageOnHistory(v, p, disk[p])
  }

  ghost predicate PageOnHistory(v: History, p: PageId, page: Page)
  {
    page.lsn < |v.h| && p < |v.h[page.lsn]| && SamePage(v.lost, v.h[page.lsn][p], page)
  }

  ghost predicate CaughtUp(v: History, disk: Pages, c: nat)
    requires c < |v.h| && |v.h[c]| == |disk|
  {
    forall p :: 0 <= p < |disk| ==> v.h[c][p].lsn <= disk[p].lsn
  }

  ghost predicate Imaged(log: seq<Record>, c: nat, j: nat, p: PageId)
    requires c <= j <= |log|
  {
    exists i :: c <= i < j && log[i].Image? && log[i].page == p
  }

  ghost predicate Ahead(log: seq<Record>, disk: Pages, c: nat, j: nat, p: PageId)
    requires c <= j <= |log| && p < |disk|
  {
    disk[p].lsn > j && !Imaged(log, c, j, p)
  }

  ghost predicate ReplayedAt(v: History, log: seq<Record>, disk: Pages, c: nat, j: nat, p: PageId, page: Page)
    requires c <= j <= |log| && |v.h| == |log| + 1 && p < |disk|
  {
    if Ahead(log, disk, c, j, p) then page == disk[p] else p < |v.h[j]| && SamePage(v.lost, v.h[j][p], page)
  }

  ghost predicate ReplayedTo(v: History, log: seq<Record>, disk: Pages, c: nat, j: nat, mem: Pages)
    requires c <= j <= |log| && |v.h| == |log| + 1
  {
    |mem| == |disk| && forall p :: 0 <= p < |disk| ==> ReplayedAt(v, log, disk, c, j, p, mem[p])
  }

  /** The record, on one touched page that replay has brought to it. */
  lemma TouchedPage(v: History, log: seq<Record>, disk: Pages, c: nat, j: nat, p: PageId, mem: Pages)
    requires IsHistory(v, log) && OnHistory(v, disk) && c <= j < |log| && p in Touched(log[j]) && p < |disk| == |mem|
    requires ReplayedAt(v, log, disk, c, j, p, mem[p])
    ensures RedoPage(mem, p, log[j], j + 1).Ok?
    ensures RedoPage(mem, p, log[j], j + 1).value == mem[p := RedoPage(mem, p, log[j], j + 1).value[p]]
    ensures ReplayedAt(v, log, disk, c, j + 1, p, RedoPage(mem, p, log[j], j + 1).value[p])
  {
    hide Effect;
    hide RedoPage;
    var r, lsn, live := log[j], j + 1, v.live[j];
    assert HistoryStep(v, log, j);
    HistoryPage(v, log, j, p);
    assert PageOnHistory(v, p, disk[p]);
    assert Imaged(log, c, j + 1, p) <==> Imaged(log, c, j, p) || (r.Image? && r.page == p);
    if mem[p].lsn < lsn {
      SameSymmetric(v.lost, v.h[j][p], live[p]);
      SameTransitive(v.lost, live[p], v.h[j][p], mem[p]);
    }
    RedoPageIsExact(v.lost, live, r, lsn, v.cids[j], v.h[lsn], p, mem);
  }

  lemma UntouchedPage(v: History, log: seq<Record>, disk: Pages, c: nat, j: nat, p: PageId, page: Page)
    requires IsHistory(v, log) && OnHistory(v, disk) && c <= j < |log| && p !in Touched(log[j]) && p < |disk|
    requires ReplayedAt(v, log, disk, c, j, p, page)
    ensures ReplayedAt(v, log, disk, c, j + 1, p, page)
  {
    HistoryPage(v, log, j, p);
    PageStep(v, log, j, p);
    assert PageOnHistory(v, p, disk[p]);
    if !Ahead(log, disk, c, j, p) {
      SameSymmetric(v.lost, v.h[j][p], v.h[j + 1][p]);
      SameTransitive(v.lost, v.h[j + 1][p], v.h[j][p], page);
    }
  }

  lemma RedoStep(v: History, log: seq<Record>, disk: Pages, c: nat, j: nat, mem: Pages)
    requires IsHistory(v, log) && OnHistory(v, disk) && c <= j < |log| && ReplayedTo(v, log, disk, c, j, mem)
    ensures Redo(mem, log[j], j + 1).Ok? && ReplayedTo(v, log, disk, c, j + 1, Redo(mem, log[j], j + 1).value)
  {
    hide RedoPage;
    hide ReplayedAt;
    var r, lsn := log[j], j + 1;
    assert HistoryStep(v, log, j);
    HistoryLength(v, log, j);
    var first := if r.Update? then r.oldPage else r.page;
    TouchedPage(v, log, disk, c, j, first, mem);
    var s1 := RedoPage(mem, first, r, lsn).value;
    if r.Update? && r.oldPage != r.newPage {
      assert s1[r.newPage] == mem[r.newPage];
      TouchedPage(v, log, disk, c, j, r.newPage, s1);
    }
    var out := Redo(mem, r, lsn).value;
    forall p | 0 <= p < |disk| ensures ReplayedAt(v, log, disk, c, j + 1, p, out[p]) {
      if p !in Touched(r) {
        UntouchedPage(v, log, disk, c, j, p, mem[p]);
      }
    }
  }

  lemma {:induction false} HistoryLength(v: History, log: seq<Record>, k: nat)
    requires IsHistory(v, log) && k <= |log|
    ensures |v.h[k]| == |v.h[0]|
  {
    if k == 0 {
    } else {
      HistoryLength(v, log, k - 1);
      assert HistoryStep(v, log, k - 1);
    }
  }

  lemma {:induction false} ReplayFrom(v: History, log: seq<Record>, disk: Pages, c: nat, j: nat, mem: Pages)
    requires IsHistory(v, log) && OnHistory(v, disk) && c <= j <= |log| && ReplayedTo(v, log, disk, c, j, mem)
    ensures Replay(mem, log, j).Ok? && ReplayedTo(v, log, disk, c, |log|, Replay(mem, log, j).value)
    decreases |log| - j
  {
    hide Redo;
    hide ReplayedTo;
    if j >= |log| {
    } else {
      RedoStep(v, log, disk, c, j, mem);
      ReplayFrom(v, log, disk, c, j + 1, Redo(mem, log[j], j + 1).value);
    }
  }

  /** Heap redo convergence: from any per-page crash image and any redo point
      replay succeeds (no slot ever diverges) and reproduces every version,
      slot and HOT link of the online run, up to lock stamps, command ids and
      the stamps of transactions that never commit. */
  lemma HeapReplayConverges(v: History, log: seq<Record>, disk: Pages, c: nat)
    requires IsHistory(v, log) && OnHistory(v, disk) && c <= |log| && |v.h[c]| == |disk| && CaughtUp(v, disk, c)
    ensures Replay(disk, log, c).Ok?
    ensures |Replay(disk, log, c).value| == |disk| == |v.h[|log|]|
    ensures forall p :: 0 <= p < |disk| ==> SamePage(v.lost, v.h[|log|][p], Replay(disk, log, c).value[p])
  {
    forall p | 0 <= p < |disk| ensures ReplayedAt(v, log, disk, c, c, p, disk[p]) {
      StartAt(v, log, disk, c, p);
    }
    ReplayFrom(v, log, disk, c, c, disk);
    HistoryLength(v, log, |log|);
    var out := Replay(disk, log, c).value;
    hide Replay;
    forall p | 0 <= p < |disk| ensures SamePage(v.lost, v.h[|log|][p], out[p]) {
      assert ReplayedAt(v, log, disk, c, |log|, p, out[p]);
      assert PageOnHistory(v, p, disk[p]);
    }
  }

  lemma StartAt(v: History, log: seq<Record>, disk: Pages, c: nat, p: PageId)
    requires IsHistory(v, log) && OnHistory(v, disk) && c <= |log| && |v.h[c]| == |disk| && CaughtUp(v, disk, c)
    requires p < |disk|
    ensures ReplayedAt(v, log, disk, c, c, p, disk[p])
  {
    HistoryPage(v, log, c, p);
    assert PageOnHistory(v, p, disk[p]);
    if disk[p].lsn <= c {
      SameSymmetric(v.lost, v.h[disk[p].lsn][p], v.h[c][p]);
      SameTransitive(v.lost, v.h[c][p], v.h[disk[p].lsn][p], disk[p]);
    }
  }

  predicate Visible(t: Tuple, seen: set<Xid>) { Sees(seen, t.xmin, t.stamp) }

  /** The differences replay leaves are invisible: every snapshot that sees no
      lost transaction sees the same versions. */
  lemma RecoveredVisibility(v: History, log: seq<Record>, disk: Pages, c: nat, p: PageId, slot: nat, seen: set<Xid>)
    requires IsHistory(v, log) && OnHistory(v, disk) && c <= |log| && |v.h[c]| == |disk| && CaughtUp(v, disk, c)
    requires p < |disk| && seen !! v.lost
    ensures Replay(disk, log, c).Ok? && |Replay(disk, log, c).value| == |v.h[|log|]| == |disk|
    ensures var online, recovered := v.h[|log|][p].tuples, Replay(disk, log, c).value[p].tuples;
            && |recovered| == |online|
            && (slot < |online| ==> (Visible(recovered[slot], seen) <==> Visible(online[slot], seen)))
  {
    HeapReplayConverges(v, log, disk, c);
    hide Replay;
    var online, recovered := v.h[|log|][p], Replay(disk, log, c).value[p];
    assert SamePage(v.lost, online, recovered);
    if slot < |online.tuples| {
      assert SameTuple(v.lost, online.tuples[slot], recovered.tuples[slot]);
    }
  }

  // ---- The handlers as they run ----

  /** What redo of a record owes, whatever run wrote it. */
  ghost predicate Exact(mem: Pages, r: Record, lsn: Lsn, ok: bool, out: Pages)
  {
    forall lost, s, cid, s' :: Online(s, r, lsn, cid, s') && AllAtOrPast(lost, s, lsn, mem) ==>
      ok && AllBroughtUp(lost, r, lsn, s', mem, out)
  }

  ghost predicate Redone(mem: Pages, r: Record, lsn: Lsn, ok: bool, out: Pages)
  {
    && (ok <==> Redo(mem, r, lsn).Ok?)
    && (ok ==> out == Redo(mem, r, lsn).value)
  }

  lemma RedoneIsExact(mem: Pages, r: Record, lsn: Lsn)
    ensures forall ok, out :: Redone(mem, r, lsn, ok, out) ==> Exact(mem, r, lsn, ok, out)
  {
    hide Redo;
    hide Online;
    hide AllBroughtUp;
    hide AllAtOrPast;
    forall ok, out, lost, s, cid, s' | Redone(mem, r, lsn, ok, out) && Online(s, r, lsn, cid, s') && AllAtOrPast(lost, s, lsn, mem)
      ensures ok && AllBroughtUp(lost, r, lsn, s', mem, out)
    {
      RedoIsExact(lost, s, r, lsn, cid, s', mem);
    }
  }

  /** `disk` is an image a crash of the run can leave, with the effects of the
      first `c` records in it. */
  ghost predicate CrashImage(v: History, log: seq<Record>, disk: Pages, c: nat)
    requires c <= |log|
  {
    IsHistory(v, log) && OnHistory(v, disk) && |v.h[c]| == |disk| && CaughtUp(v, disk, c)
  }

  class HeapRedoPass {
    var pages: Pages

    constructor (pages: Pages)
      ensures this.pages == pages
    {
      this.pages := pages;
    }

    method ApplyInsert(p: PageId, slot: nat, t: Tuple, lsn: Lsn) returns (ok: bool)
      modifies this
      ensures Redone(old(pages), Insert(p, slot, t), lsn, ok, pages)
      ensures Exact(old(pages), Insert(p, slot, t), lsn, ok, pages)
    {
      RedoneIsExact(pages, Insert(p, slot, t), lsn);
      hide Exact;
      if p >= |pages| {
        return false;
      }
      if pages[p].lsn >= lsn {
        return true;
      }
      pages := pages[p := InitIfBlank(pages[p])];
      var added := AddTuple(pages[p], t);
      if added.Err? || added.value.1 != slot {
        return false;
      }
      pages := pages[p := StampLsn(added.value.0, lsn)];
      return true;
    }

    method ApplyDelete(p: PageId, slot: nat, xmax: Xid, lsn: Lsn) returns (ok: bool)
      modifies this
      ensures Redone(old(pages), Delete(p, slot, xmax), lsn, ok, pages)
      ensures Exact(old(pages), Delete(p, slot, xmax), lsn, ok, pages)
    {
      RedoneIsExact(pages, Delete(p, slot, xmax), lsn);
      hide Exact;
      if p >= |pages| {
        return false;
      }
      if pages[p].lsn >= lsn {
        return true;
      }
      var stamped := StampDeleted(pages[p], slot, xmax, false, None);
      if stamped.Err? {
        return false;
      }
      pages := pages[p := StampLsn(stamped.value, lsn)];
      return true;
    }

    method ApplyHotUpdate(p: PageId, from: nat, to: nat, xmax: Xid, t: Tuple, lsn: Lsn) returns (ok: bool)
      modifies this
      ensures Redone(old(pages), HotUpdate(p, from, to, xmax, t), lsn, ok, pages)
      ensures Exact(old(pages), HotUpdate(p, from, to, xmax, t), lsn, ok, pages)
    {
      RedoneIsExact(pages, HotUpdate(p, from, to, xmax, t), lsn);
      hide Exact;
      if p >= |pages| {
        return false;
      }
      if pages[p].lsn >= lsn {
        return true;
      }
      var stamped := StampHotUpdate(InitIfBlank(pages[p]), from, to, xmax, None);
      if stamped.Err? {
        return false;
      }
      pages := pages[p := stamped.value];
      var added := AddTuple(pages[p], t);
      if added.Err? || added.value.1 != to {
        return false;
      }
      pages := pages[p := StampLsn(added.value.0, lsn)];
      return true;
    }

    /** A same-page update stamps and appends under one guard; across pages
        each page has its own. */
    method ApplyUpdate(oldPage: PageId, from: nat, newPage: PageId, to: nat, xmax: Xid, t: Tuple, lsn: Lsn)
      returns (ok: bool)
      modifies this
      ensures Redone(old(pages), Update(oldPage, from, newPage, to, xmax, t), lsn, ok, pages)
      ensures Exact(old(pages), Update(oldPage, from, newPage, to, xmax, t), lsn, ok, pages)
    {
      RedoneIsExact(pages, Update(oldPage, from, newPage, to, xmax, t), lsn);
      hide Exact;
      if oldPage >= |pages| {
        return false;
      }
      if oldPage == newPage {
        if pages[oldPage].lsn < lsn {
          var stamped := StampDeleted(InitIfBlank(pages[oldPage]), from, xmax, true, None);
          if stamped.Err? {
            return false;
          }
          var added := AddTuple(stamped.value, t);
          if added.Err? || added.value.1 != to {
            return false;
          }
          pages := pages[oldPage := StampLsn(added.value.0, lsn)];
        }
        return true;
      }
      if pages[oldPage].lsn < lsn {
        var stamped := StampDeleted(InitIfBlank(pages[oldPage]), from, xmax, true, None);
        if stamped.Err? {
          return false;
        }
        pages := pages[oldPage := StampLsn(stamped.value, lsn)];
      }
      if newPage >= |pages| {
        return false;
      }
      if pages[newPage].lsn < lsn {
        var added := AddTuple(InitIfBlank(pages[newPage]), t);
        if added.Err? || added.value.1 != to {
          return false;
        }
        pages := pages[newPage := StampLsn(added.value.0, lsn)];
      }
      return true;
    }

    method ApplyImage(p: PageId, image: Page, lsn: Lsn) returns (ok: bool)
      modifies this
      ensures Redone(old(pages), Image(p, image), lsn, ok, pages)
      ensures Exact(old(pages), Image(p, image), lsn, ok, pages)
    {
      RedoneIsExact(pages, Image(p, image), lsn);
      hide Exact;
      if p >= |pages| {
        return false;
      }
      pages := pages[p := StampLsn(image, lsn)];
      return true;
    }

    /** Replay from the redo point over what a crash of the run `v` left: it
        never refuses, and ends in the online pages up to what is not logged. */
    method ReplayWal(log: seq<Record>, c: nat, ghost v: History) returns (ok: bool)
      requires c <= |log|
      modifies this
      ensures ok <==> Replay(old(pages), log, c).Ok?
      ensures ok ==> pages == Replay(old(pages), log, c).value
      ensures CrashImage(v, log, old(pages), c) ==>
                && ok && |pages| == |v.h[|log|]|
                && forall p :: 0 <= p < |pages| ==> SamePage(v.lost, v.h[|log|][p], pages[p])
    {
      hide Redo;
      hide Exact;
      hide IsHistory;
      hide SamePage;
      ghost var disk := pages;
      var i := c;
      ok := true;
      while i < |log| && ok
        invariant c <= i <= |log|
        invariant ok ==> Replay(disk, log, c) == Replay(pages, log, i)
        invariant !ok ==> Replay(disk, log, c).Err?
      {
        match log[i] {
          case Insert(p, slot, t) => ok := ApplyInsert(p, slot, t, i + 1);
          case Update(oldPage, from, newPage, to, xmax, t) =>
            ok := ApplyUpdate(oldPage, from, newPage, to, xmax, t, i + 1);
          case Delete(p, slot, xmax) => ok := ApplyDelete(p, slot, xmax, i + 1);
          case HotUpdate(p, from, to, xmax, t) => ok := ApplyHotUpdate(p, from, to, xmax, t, i + 1);
          case Image(p, image) => ok := ApplyImage(p, image, i + 1);
        }
        i := i + 1;
      }
      if CrashImage(v, log, disk, c) {
        HeapReplayConverges(v, log, disk, c);
      }
    }
  }
}

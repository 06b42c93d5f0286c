/** What the undo pass leaves in the log (crates/pg-am-btree/src/index.rs,
    `emit_and_apply_clr`), and the redo of it by the recovery after the next
    crash (crates/pg-am-btree/src/redo.rs). */
module BtreeEvents {
  import opened Keys
  import opened Outcome
  import opened Sequences
  import opened BtreePages
  import opened BtreeLog
  import opened BtreeChain
  import opened BtreeSearch
  import opened BtreeContent
  import opened BtreeFinish
  import opened BtreeClr
  import opened BtreeFresh
  import opened BtreeRound

  /** A page reserved at the end of the file; a page initialised there, with its
      post-image; a pre-image whose record was lost in a crash; a compensation
      record with the pre-images of the pages it names. An image carries the
      LSN that redo stamps it with. */
  datatype Event =
    | Reserve
    | Create(id: PageId, page: Page)
    | Backup(id: PageId, page: Page)
    | Finish(rec: Clr, images: map<PageId, Page>, lsn: Lsn)

  function Named(rec: Clr): set<PageId>
  {
    {rec.left, rec.right, rec.parent, rec.newRoot, rec.meta} - {INVALID}
  }

  ghost predicate ImagesOf(s: Pages, rec: Clr, images: map<PageId, Page>, lsn: Lsn)
  {
    forall p :: p in Named(rec) ==>
      p in images && p < |s| && images[p].lsn < lsn && images[p] == s[p].(lsn := images[p].lsn)
  }

  /** A record `emit_and_apply_clr` may be given. */
  ghost predicate Recordable(s: Pages, rec: Clr)
  {
    && ClrWithinFile(rec, |s|) && ClrDistinct(Effective(rec)) && rec.left != INVALID && rec.right != INVALID
    && (rec.newRoot != INVALID ==> rec.parent == INVALID)
  }

  /** The event takes the file from `s` to `s'`, after everything up to `base`. */
  ghost predicate Occurs(base: Lsn, s: Pages, e: Event, s': Pages)
  {
    match e
    case Reserve => s' == s + [ZERO_PAGE]
    case Create(id, page) =>
      page.lsn > base && Sane(s, page.lsn - 1) && id == |s| && s' == s + [page] && page.level <= MAX_LEVEL
    case Backup(id, page) =>
      page.lsn > base && Sane(s, page.lsn - 1) && id < |s| && page == s[id].(lsn := page.lsn) && s' == s[id := page]
    case Finish(rec, images, lsn) =>
      && lsn > base && Sane(s, lsn - 1) && Recordable(s, rec) && ImagesOf(s, rec, images, lsn)
      && ApplyClr(s, rec, lsn) == Ok(s') && Sane(s', lsn)
  }

  /** The event finished the split of the page it names, over the pages that a
      cascade made of `s0`. */
  ghost predicate Completes(s0: Pages, s: Pages, e: Event, s': Pages)
  {
    exists plan :: CompletesBy(s0, s, e, plan, s')
  }

  ghost predicate CompletesBy(s0: Pages, s: Pages, e: Event, plan: Plan, s': Pages)
  {
    e.Finish? && e.lsn > 0 && FinishedBy(s0, e.rec.left, s, Effective(e.rec), plan, e.lsn - 1, s')
  }

  /** The event belongs to a cascade that began on some earlier file of the run,
      or ends one. */
  ghost predicate OccursAt(base: Lsn, hist: seq<Pages>, events: seq<Event>, k: nat)
    requires |hist| == |events| + 1 && k < |events|
  {
    && Occurs(base, hist[k], events[k], hist[k + 1])
    && (events[k].Backup? || exists i :: 0 <= i <= k && Follows(hist, events, i, k))
  }

  ghost predicate Follows(hist: seq<Pages>, events: seq<Event>, i: nat, k: nat)
    requires |hist| == |events| + 1 && i <= k < |events|
  {
    Framed(hist[i], hist[k + 1]) || Completes(hist[i], hist[k], events[k], hist[k + 1])
  }

  /** The files of an undo pass, or of several with crashes in between. */
  ghost predicate UndoRun(base: Lsn, hist: seq<Pages>, events: seq<Event>)
  {
    |hist| == |events| + 1 && forall k :: 0 <= k < |events| ==> OccursAt(base, hist, events, k)
  }

  /** One more event, of a cascade that began on file `i`. */
  lemma RunExtends(base: Lsn, hist: seq<Pages>, events: seq<Event>, i: nat, e: Event, s': Pages)
    requires UndoRun(base, hist, events) && Occurs(base, hist[|events|], e, s') && i <= |events|
    requires e.Backup? || Framed(hist[i], s') || Completes(hist[i], hist[|events|], e, s')
    ensures UndoRun(base, hist + [s'], events + [e])
  {
    hide Occurs;
    hide Framed;
    hide Completes;
    var hist', events' := hist + [s'], events + [e];
    forall k | 0 <= k < |events'| ensures OccursAt(base, hist', events', k) {
      if k < |events| {
        assert OccursAt(base, hist, events, k);
        if !events[k].Backup? {
          var j :| 0 <= j <= k && Follows(hist, events, j, k);
          assert Follows(hist', events', j, k);
        }
      } else if !e.Backup? {
        assert Follows(hist', events', i, k);
      }
    }
  }

  /** A crash keeps a prefix. */
  lemma RunPrefix(base: Lsn, hist: seq<Pages>, events: seq<Event>, n: nat)
    requires UndoRun(base, hist, events) && n <= |events|
    ensures UndoRun(base, hist[..n + 1], events[..n])
  {
    hide Occurs;
    hide Framed;
    hide Completes;
    var hist', events' := hist[..n + 1], events[..n];
    forall k | 0 <= k < n ensures OccursAt(base, hist', events', k) {
      assert OccursAt(base, hist, events, k);
      if !events[k].Backup? {
        var j :| 0 <= j <= k && Follows(hist, events, j, k);
        assert Follows(hist', events', j, k);
      }
    }
  }

  // ---- What a run keeps ----

  lemma FramedReady(s: Pages, s': Pages, chain: seq<PageId>)
    requires Ready(s, chain) && Framed(s, s')
    ensures Ready(s', chain) && Contents(s', chain) == Contents(s, chain)
    ensures forall p: PageId :: Flagged(s', p) <==> Flagged(s, p)
  {
    hide SpineInv;
    hide Contents;
    hide Hinted;
    FramedLeaves(s, s', chain);
    assert FrameAt(s[0], s'[0]);
    forall p: PageId | p < |s'|
      ensures Flagged(s', p) <==> Flagged(s, p)
      ensures Flagged(s, p) ==> Paired(s', p) && (p !in chain && s'[p].next in chain ==> Drained(s'[p]))
    {
      if p < |s| {
        assert FrameAt(s[p], s'[p]);
        if Flagged(s, p) {
          assert Paired(s, p) && FrameAt(s[s[p].next], s'[s[p].next]);
        }
      }
    }
  }

  lemma BackupReady(s: Pages, p: PageId, page: Page, chain: seq<PageId>)
    requires Ready(s, chain) && p < |s| && page == s[p].(lsn := page.lsn)
    ensures Ready(s[p := page], chain) && Contents(s[p := page], chain) == Contents(s, chain)
    ensures forall q: PageId :: Flagged(s[p := page], q) <==> Flagged(s, q)
  {
    hide Contents;
    var s' := s[p := page];
    if p in chain {
      QuietStep(s, s', chain, IndexOf(chain, p));
    } else {
      ElsewhereStep(s, s', chain);
    }
    hide SpineInv;
    forall q: PageId | Flagged(s', q) ensures Paired(s', q) && (q !in chain && s'[q].next in chain ==> Drained(s'[q])) {
      assert Flagged(s, q) && Paired(s, q);
    }
  }

  /** Some chain is in order, with every flagged page beside its twin, and spells
      out `es`. */
  ghost predicate Spells(s: Pages, es: seq<Entry>)
  {
    exists chain :: Ready(s, chain) && Contents(s, chain) == es
  }

  /** Every file of the run spells out what the first one did. */
  lemma {:induction false} RunSpells(base: Lsn, hist: seq<Pages>, events: seq<Event>, k: nat, es: seq<Entry>)
    requires UndoRun(base, hist, events) && k <= |events| && Spells(hist[0], es)
    ensures Spells(hist[k], es)
    decreases k
  {
    if k == 0 {
    } else {
      hide Ready;
      hide Contents;
      var e := events[k - 1];
      assert OccursAt(base, hist, events, k - 1);
      if e.Backup? {
        RunSpells(base, hist, events, k - 1, es);
        var chain :| Ready(hist[k - 1], chain) && Contents(hist[k - 1], chain) == es;
        BackupReady(hist[k - 1], e.id, e.page, chain);
      } else {
        var i :| 0 <= i <= k - 1 && Follows(hist, events, i, k - 1);
        RunSpells(base, hist, events, i, es);
        var chain :| Ready(hist[i], chain) && Contents(hist[i], chain) == es;
        if Framed(hist[i], hist[k]) {
          FramedReady(hist[i], hist[k], chain);
        } else {
          var plan :| CompletesBy(hist[i], hist[k - 1], e, plan, hist[k]);
          RoundKeepsChain(hist[i], e.rec.left, hist[k - 1], Effective(e.rec), plan, e.lsn - 1, hist[k], chain);
        }
      }
    }
  }

  function Lefts(events: seq<Event>): set<PageId>
  {
    set i | 0 <= i < |events| && events[i].Finish? :: events[i].rec.left
  }

  /** A flag is cleared only by a record that names the page. */
  lemma {:induction false} RunKeepsFlag(base: Lsn, hist: seq<Pages>, events: seq<Event>, k: nat, p: PageId)
    requires UndoRun(base, hist, events) && k <= |events| && Flagged(hist[0], p) && p !in Lefts(events[..k])
    ensures Flagged(hist[k], p)
    decreases k
  {
    if k == 0 {
    } else {
      var e := events[k - 1];
      assert OccursAt(base, hist, events, k - 1);
      if e.Backup? {
        assert p !in Lefts(events[..k - 1]);
        RunKeepsFlag(base, hist, events, k - 1, p);
      } else {
        var i :| 0 <= i <= k - 1 && Follows(hist, events, i, k - 1);
        assert p !in Lefts(events[..i]);
        RunKeepsFlag(base, hist, events, i, p);
        hide FinishedBy;
        if Framed(hist[i], hist[k]) {
          assert FrameAt(hist[i][p], hist[k][p]);
        } else {
          var plan :| CompletesBy(hist[i], hist[k - 1], e, plan, hist[k]);
          RoundFinishes(hist[i], e.rec.left, hist[k - 1], Effective(e.rec), plan, e.lsn - 1, hist[k]);
          assert events[..k][k - 1] == e;
          assert RoundAt(hist[i], e.rec.left, hist[k], p);
        }
      }
    }
  }

  // ---- Redo ----

  /** Page `p` of a file that is as long as need be. */
  function PageAt(s: Pages, p: PageId): Page
  {
    if p < |s| then s[p] else ZERO_PAGE
  }

  /** The images, then the record. The file is as long as the allocator made it,
      and a page that was never written reads as zeros. */
  function RedoEvent(mem: Pages, e: Event): (r: Result<Pages>)
    ensures r.Ok? ==> |r.value| == |mem|
  {
    match e
    case Reserve => Ok(mem)
    case Create(id, page) => if id >= |mem| then Err(Corrupted) else Ok(mem[id := page])
    case Backup(id, page) => if id >= |mem| then Err(Corrupted) else Ok(mem[id := page])
    case Finish(rec, images, lsn) =>
      if !ClrWithinFile(rec, |mem|) then Err(Corrupted) else ApplyClr(Restored(mem, rec, images), rec, lsn)
  }

  function Restored(mem: Pages, rec: Clr, images: map<PageId, Page>): (s: Pages)
    ensures |s| == |mem|
  {
    seq(|mem|, p requires 0 <= p < |mem| => if p in Named(rec) && p in images then images[p] else mem[p])
  }

  lemma NamedRestored(s: Pages, rec: Clr, images: map<PageId, Page>, lsn: Lsn, mem: Pages, p: PageId)
    requires ImagesOf(s, rec, images, lsn) && |s| <= |mem| && p in Named(rec)
    ensures p < |s| && Restored(mem, rec, images)[p] == s[p].(lsn := Restored(mem, rec, images)[p].lsn)
    ensures Restored(mem, rec, images)[p].lsn < lsn
  {}

  /** A record does not read the LSNs of the pages behind it. */
  lemma HalvesLsnFree(left: Page, right: Page, rec: Clr, lsn: Lsn, x: Lsn, y: Lsn)
    requires left.lsn < lsn && right.lsn < lsn && x < lsn && y < lsn && ClrHalves(left, right, rec, lsn).Ok?
    ensures ClrHalves(left.(lsn := x), right.(lsn := y), rec, lsn) == ClrHalves(left, right, rec, lsn)
  {
    hide ApplySplitCopy;
    hide AppendAll;
    if !IsUnlink(rec) {
      if right.entries != [] {
        if left.entries != [] {
          var at := SearchSlot(left.entries, right.entries[0]);
          CopyLsnFree(left, right, at, false, x, y);
          CopyRefills(left, right, at, false);
        }
      } else {
        CopyLsnFree(left, right, rec.start, true, x, y);
        CopyRefills(left, right, rec.start, true);
      }
    }
  }

  /** The pages the record leaves, page by page. */
  lemma RestoredByPage(s: Pages, rec: Clr, lsn: Lsn, s': Pages, m: Pages, out: Pages)
    requires ClrWithinFile(rec, |s|) && ClrApplied(s, rec, lsn, s') && |s| <= |m| == |out|
    requires forall p :: p in ClrPages(rec) ==> s[p].lsn < lsn && m[p].lsn < lsn && m[p] == s[p].(lsn := m[p].lsn)
    requires forall p :: 0 <= p < |m| ==> out[p] == if p in ClrPages(rec) then s'[p] else m[p]
    ensures ClrApplied(m, rec, lsn, out)
  {
    assert rec.left in ClrPages(rec) && rec.right in ClrPages(rec);
    HalvesLsnFree(s[rec.left], s[rec.right], rec, lsn, m[rec.left].lsn, m[rec.right].lsn);
    hide ClrHalves;
    var d := DownlinkPage(rec);
    if d != INVALID {
      assert d in ClrPages(rec);
      DownlinkConverges(s[d], rec, lsn, s'[d], m[d]);
    }
    hide ClrDownlink;
    if rec.meta != INVALID {
      assert rec.meta in ClrPages(rec);
      MetaConverges(s[rec.meta], rec, lsn, s'[rec.meta], m[rec.meta]);
    }
  }

  lemma AllNamed(s: Pages, rec: Clr)
    requires Recordable(s, rec)
    ensures Named(rec) == ClrPages(Effective(rec)) && ClrWithinFile(Effective(rec), |s|)
  {}

  /** Over the images the record makes of the pages it names what it made of them
      in the pass, and leaves the others alone. */
  lemma RestoredApplies(s: Pages, rec: Clr, images: map<PageId, Page>, lsn: Lsn, s': Pages, mem: Pages)
    requires lsn > 0 && Sane(s, lsn - 1) && Recordable(s, rec) && ApplyClr(s, rec, lsn) == Ok(s')
    requires ImagesOf(s, rec, images, lsn) && |s| <= |mem|
    ensures var out := ApplyClr(Restored(mem, rec, images), rec, lsn);
            && out.Ok? && |out.value| == |mem| && |s'| == |s|
            && forall p :: 0 <= p < |mem| ==>
                 if p in Named(rec) then p < |s| && out.value[p] == s'[p]
                 else out.value[p] == mem[p] && (p < |s| ==> s'[p] == s[p])
  {
    hide ApplyClr;
    var m, rec' := Restored(mem, rec, images), Effective(rec);
    AllNamed(s, rec);
    var out := seq(|mem|, p requires 0 <= p < |mem| => if p in Named(rec) && p < |s'| then s'[p] else m[p]);
    forall p | p in Named(rec) ensures p < |s| && m[p].lsn < lsn && m[p] == s[p].(lsn := m[p].lsn) {
      NamedRestored(s, rec, images, lsn, mem, p);
    }
    assert rec.left in Named(rec) && rec.right in Named(rec);
    EffectiveApplies(s, rec, lsn);
    EffectiveApplies(m, rec, lsn);
    hide Named;
    ClrByPage(s, rec', lsn, s');
    RestoredByPage(s, rec', lsn, s', m, out);
    ClrByPage(m, rec', lsn, out);
    assert forall p :: 0 <= p < |s| && p !in ClrPages(rec') ==> s'[p] == s[p];
  }

  /** The page is some version from file `k` of the run on. */
  ghost predicate VersionFrom(hist: seq<Pages>, k: nat, p: PageId, page: Page)
  {
    exists j :: k <= j < |hist| && page == PageAt(hist[j], p)
  }

  ghost predicate Behind(hist: seq<Pages>, k: nat, mem: Pages)
  {
    && 0 < |hist| && |mem| == |hist[|hist| - 1]|
    && forall p :: 0 <= p < |mem| ==> VersionFrom(hist, k, p, mem[p])
  }

  lemma {:induction false} RunLonger(base: Lsn, hist: seq<Pages>, events: seq<Event>, i: nat, k: nat)
    requires UndoRun(base, hist, events) && i <= k <= |events|
    ensures |hist[i]| <= |hist[k]|
  {
    if i == k {
    } else {
      RunLonger(base, hist, events, i, k - 1);
      assert OccursAt(base, hist, events, k - 1);
      hide FinishedBy;
      hide Framed;
    }
  }

  /** Redo of an event brings the pages it names up to date and leaves the
      others, which it did not change. */
  lemma EventRedone(base: Lsn, s: Pages, e: Event, s': Pages, mem: Pages)
    requires Occurs(base, s, e, s') && |s| <= |s'| <= |mem|
    ensures RedoEvent(mem, e).Ok?
    ensures var out := RedoEvent(mem, e).value;
            forall p :: 0 <= p < |mem| ==>
              || out[p] == PageAt(s', p)
              || (out[p] == mem[p] && PageAt(s', p) == PageAt(s, p))
  {
    hide Named;
    if e.Finish? {
      RestoredApplies(s, e.rec, e.images, e.lsn, s', mem);
    }
    hide ApplyClr;
  }

  lemma EventConverges(base: Lsn, hist: seq<Pages>, events: seq<Event>, k: nat, mem: Pages)
    requires UndoRun(base, hist, events) && k < |events| && Behind(hist, k, mem)
    ensures RedoEvent(mem, events[k]).Ok? && Behind(hist, k + 1, RedoEvent(mem, events[k]).value)
  {
    var e, s, s' := events[k], hist[k], hist[k + 1];
    RunLonger(base, hist, events, k, k + 1);
    RunLonger(base, hist, events, k + 1, |events|);
    assert OccursAt(base, hist, events, k);
    hide UndoRun;
    hide OccursAt;
    hide Occurs;
    hide RedoEvent;
    EventRedone(base, s, e, s', mem);
    var out := RedoEvent(mem, e).value;
    forall p | 0 <= p < |out| ensures VersionFrom(hist, k + 1, p, out[p]) {
      assert VersionFrom(hist, k, p, mem[p]);
      if out[p] != PageAt(s', p) {
        var j :| k <= j < |hist| && mem[p] == PageAt(hist[j], p);
        assert out[p] == mem[p] && j != k;
      }
    }
  }

  /** The redo of the undo pass, from event `k` on. */
  function RedoEvents(mem: Pages, events: seq<Event>, k: nat): Result<Pages>
    requires k <= |events|
    decreases |events| - k
  {
    if k == |events| then Ok(mem)
    else
      var mem1 :- RedoEvent(mem, events[k]);
      RedoEvents(mem1, events, k + 1)
  }

  /** Whatever pages the interrupted pass had flushed, and however often it was
      interrupted, redo ends in the pages it had reached. */
  lemma {:induction false} EventsConverge(base: Lsn, hist: seq<Pages>, events: seq<Event>, k: nat, mem: Pages)
    requires UndoRun(base, hist, events) && k <= |events| && Behind(hist, k, mem)
    ensures RedoEvents(mem, events, k) == Ok(hist[|events|])
    decreases |events| - k
  {
    hide RedoEvent;
    if k == |events| {
      forall p | 0 <= p < |mem| ensures mem[p] == hist[|events|][p] {
        assert VersionFrom(hist, k, p, mem[p]);
      }
      assert mem == hist[|events|];
    } else {
      EventConverges(base, hist, events, k, mem);
      EventsConverge(base, hist, events, k + 1, RedoEvent(mem, events[k]).value);
    }
  }
}

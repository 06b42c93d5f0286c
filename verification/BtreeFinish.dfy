/** Finishing a split whose Commit was lost, and the compensation record it
    writes (crates/pg-am-btree/src/index.rs, `finish_incomplete_split` and
    `apply_split_clr`). */
module BtreeFinish {
  import opened Keys
  import opened Outcome
  import opened Sequences
  import opened BtreePages
  import opened BtreeLog
  import opened BtreeChain
  import opened BtreeContent
  import opened BtreeSearch

  datatype Plan = Move | NoMove | Unlink

  /** `BTreeSplitCLRRecord`. A root split names `newRoot` and `meta`, any other
      split `parent`; an unlink names none. */
  datatype Clr = Clr(
    left: PageId, right: PageId, level: nat, start: nat,
    parent: PageId, separator: Key, slot: nat, newRoot: PageId, meta: PageId)

  predicate IsUnlink(rec: Clr)
  {
    rec.parent == INVALID && rec.newRoot == INVALID && rec.meta == INVALID
  }

  /** The plan and its separator, from the content of the right page. */
  function ChoosePlan(left: Page, right: Page, start: nat): Result<(Plan, Key)>
  {
    if right.entries != [] then Ok((NoMove, right.entries[0].key))
    else if NeverHadEntries(right) then
      if start >= |left.entries| then Err(Corrupted) else Ok((Move, left.entries[start].key))
    else Ok((Unlink, []))
  }

  /** The left page with its split finished. */
  function FinishLeft(left: Page, right: PageId, lsn: Lsn): Result<Page>
  {
    var page :- ApplyCommitLeft(left.(next := right));
    Ok(Stamp(page, lsn))
  }

  /** Step 1 of `apply_split_clr`: the left and right pages. */
  function ClrHalves(left: Page, right: Page, rec: Clr, lsn: Lsn): Result<(Page, Page)>
  {
    if left.lsn >= lsn then
      if !IsUnlink(rec) && right.entries == [] && NeverHadEntries(right) then Err(Corrupted)
      else Ok((left, right))
    else if IsUnlink(rec) then
      if !GoodGeometry(right) || !GoodGeometry(left) then Err(Corrupted)
      else Ok((Stamp(left.(next := right.next, flags := left.flags.(splitIncomplete := false)), lsn),
               Stamp(right, lsn)))
    else if right.entries != [] then
      var at := SearchSlot(left.entries, right.entries[0]);
      if left.entries != [] && at == 0 then Err(Corrupted)
      else
        var kept :- if left.entries == [] then Ok((left, right)) else ApplySplitCopy(left, right, at, false);
        var left' :- FinishLeft(kept.0, rec.right, lsn);
        Ok((left', Stamp(right, lsn)))
    else if !NeverHadEntries(right) then Err(Corrupted)
    else
      var moved :- ApplySplitCopy(left, right, rec.start, true);
      var left' :- FinishLeft(moved.0, rec.right, lsn);
      Ok((left', Stamp(moved.1, lsn)))
  }

  /** Step 2 for a root split: the new root, written from scratch. */
  function ClrNewRoot(page: Page, rec: Clr, lsn: Lsn): Result<Page>
  {
    if page.lsn >= lsn then Ok(page)
    else
      var root :- AppendAll(InitPage(rec.level + 1, Flags(false, true, false)),
                            [Entry([], rec.left, 0), Entry(rec.separator, rec.right, 0)]);
      Ok(Stamp(root, lsn))
  }

  /** Step 2 for any other split: the downlink. */
  function ClrParent(page: Page, rec: Clr, lsn: Lsn): Result<Page>
  {
    if page.lsn >= lsn then Ok(page)
    else
      var parent :- InsertEntryAt(page, rec.slot, Entry(rec.separator, rec.right, 0));
      Ok(Stamp(parent, lsn))
  }

  /** The ten bytes of a meta record, as an entry of the page they end up on: a
      page above level 0 has no slot number in its entries, so there the first
      two bytes read as a key. */
  function MetaEntry(level: nat, root: PageId, rootLevel: nat): (e: Entry)
    ensures EntryBytes(level, e) == 10
  {
    if level == 0 then Entry([], root, rootLevel)
    else Entry([root % 256, (root / 256) % 256], root / 65536 + rootLevel * 0x1_0000_0000_0000, 0)
  }

  /** Step 3 for a root split: publish the new root. */
  function ClrMeta(page: Page, rec: Clr, lsn: Lsn): Result<Page>
  {
    if page.lsn >= lsn then Ok(page)
    else
      var meta :- InsertEntryAt(page, |page.entries|, MetaEntry(page.level, rec.newRoot, rec.level + 1));
      Ok(Stamp(meta, lsn))
  }

  predicate ClrWithinFile(rec: Clr, n: nat)
  {
    rec.left < n && rec.right < n && rec.parent < n && rec.newRoot < n && rec.meta < n
  }

  /** The pages a CLR names are different pages. */
  predicate ClrDistinct(rec: Clr)
  {
    && rec.left != rec.right
    && (rec.parent != INVALID ==> rec.parent != rec.left && rec.parent != rec.right)
    && (rec.newRoot != INVALID ==> rec.newRoot != rec.left && rec.newRoot != rec.right)
    && (rec.meta != INVALID ==> rec.meta != rec.left && rec.meta != rec.right && rec.meta != rec.newRoot && rec.meta != rec.parent)
  }

  /** The file after step 1. */
  function ApplyHalves(s: Pages, rec: Clr, lsn: Lsn): (r: Result<Pages>)
    requires ClrWithinFile(rec, |s|)
    ensures r.Ok? ==> |r.value| == |s|
  {
    var halves :- ClrHalves(s[rec.left], s[rec.right], rec, lsn);
    Ok(s[rec.left := halves.0][rec.right := halves.1])
  }

  /** After step 2. */
  function ApplyDownlink(s: Pages, rec: Clr, lsn: Lsn): (r: Result<Pages>)
    requires ClrWithinFile(rec, |s|)
    ensures r.Ok? ==> |r.value| == |s|
  {
    if rec.newRoot != INVALID then
      var root :- ClrNewRoot(s[rec.newRoot], rec, lsn);
      Ok(s[rec.newRoot := root])
    else if rec.parent != INVALID then
      var parent :- ClrParent(s[rec.parent], rec, lsn);
      Ok(s[rec.parent := parent])
    else Ok(s)
  }

  /** After step 3. */
  function ApplyMeta(s: Pages, rec: Clr, lsn: Lsn): (r: Result<Pages>)
    requires ClrWithinFile(rec, |s|)
    ensures r.Ok? ==> |r.value| == |s|
  {
    if rec.meta != INVALID then
      var meta :- ClrMeta(s[rec.meta], rec, lsn);
      Ok(s[rec.meta := meta])
    else Ok(s)
  }

  /** `apply_split_clr`. */
  function ApplyClr(s: Pages, rec: Clr, lsn: Lsn): (r: Result<Pages>)
    requires ClrWithinFile(rec, |s|)
    ensures r.Ok? ==> |r.value| == |s|
  {
    var s1 :- ApplyHalves(s, rec, lsn);
    var s2 :- ApplyDownlink(s1, rec, lsn);
    ApplyMeta(s2, rec, lsn)
  }

  // ---- Convergence from any durable subset of the record's pages ----

  /** A page as the CLR found it (with whatever older LSN its last image or
      record left) or as the CLR left it. */
  ghost predicate PreOrPost(pre: Page, post: Page, lsn: Lsn, page: Page)
  {
    page == post || (page.lsn < lsn && page == pre.(lsn := page.lsn))
  }

  /** The sorted left page is cut by the first moved entry exactly where the
      move cut it. */
  lemma SameBoundary(es: seq<Entry>, start: nat)
    requires Sorted(es) && start < |es|
    ensures SearchSlot(es, es[start]) == start
  {
    EntryTrichotomy(es[start], es[start]);
    LowerBoundUnique(es, es[start], start);
    BisectSorted(es, es[start], 0, |es|);
  }

  lemma {:induction false} AppendAllLsnFree(p: Page, es: seq<Entry>, x: Lsn)
    ensures AppendAll(p.(lsn := x), es).Ok? == AppendAll(p, es).Ok?
    ensures AppendAll(p, es).Ok? ==> AppendAll(p.(lsn := x), es).value == AppendAll(p, es).value.(lsn := x)
    decreases |es|
  {
    if es == [] {
    } else {
      var q := InsertEntryAt(p, |p.entries|, es[0]);
      assert q.Ok? ==> InsertEntryAt(p.(lsn := x), |p.entries|, es[0]) == Ok(q.value.(lsn := x));
      if q.Ok? {
        AppendAllLsnFree(q.value, es[1..], x);
      }
    }
  }

  /** A copy neither reads nor writes page LSNs. */
  lemma CopyLsnFree(left: Page, right: Page, start: nat, move: bool, x: Lsn, y: Lsn)
    requires ApplySplitCopy(left, right, start, move).Ok?
    ensures var (l, r) := ApplySplitCopy(left, right, start, move).value;
            ApplySplitCopy(left.(lsn := x), right.(lsn := y), start, move)
            == Ok((l.(lsn := x), r.(lsn := y)))
  {
    AppendAllLsnFree(right, left.entries[start..], y);
  }

  lemma MovedHalves(left: Page, right: Page, start: nat)
    requires right.entries == [] && Accounted(right) && right.level == left.level
    requires start < |left.entries| && ApplySplitCopy(left, right, start, true).Ok?
    ensures var (l, r) := ApplySplitCopy(left, right, start, true).value;
            && r == right.(entries := left.entries[start..], upper := r.upper)
            && l.lsn == left.lsn && ApplySplitCopy(left, r, start, false) == Ok((l, r))
  {
    CopyResult(left, right, start);
  }

  lemma MoveConverges(left: Page, right: Page, rec: Clr, lsn: Lsn, left': Page, right': Page, l: Page, r: Page)
    requires left.lsn < lsn && right.lsn < lsn && Sorted(left.entries)
    requires Accounted(right) && right.level == left.level
    requires ClrHalves(left, right, rec, lsn) == Ok((left', right'))
    requires !IsUnlink(rec) && right.entries == [] && rec.start < |left.entries|
    requires PreOrPost(left, left', lsn, l) && PreOrPost(right, right', lsn, r)
    ensures ClrHalves(l, r, rec, lsn) == if l == left' && r != right' then Err(Corrupted) else Ok((left', right'))
  {
    MovedHalves(left, right, rec.start);
    SameBoundary(left.entries, rec.start);
    CopyLsnFree(left, right, rec.start, true, l.lsn, r.lsn);
    var moved := ApplySplitCopy(left, right, rec.start, true).value;
    CopyLsnFree(left, moved.1, rec.start, false, l.lsn, r.lsn);
  }

  lemma NoMoveConverges(left: Page, right: Page, rec: Clr, lsn: Lsn, left': Page, right': Page, l: Page, r: Page)
    requires left.lsn < lsn && right.lsn < lsn
    requires ClrHalves(left, right, rec, lsn) == Ok((left', right'))
    requires !IsUnlink(rec) && right.entries != []
    requires PreOrPost(left, left', lsn, l) && PreOrPost(right, right', lsn, r)
    ensures ClrHalves(l, r, rec, lsn) == if l == left' && r != right' then Ok((left', r)) else Ok((left', right'))
  {
    if left.entries != [] {
      var at := SearchSlot(left.entries, right.entries[0]);
      CopyLsnFree(left, right, at, false, l.lsn, r.lsn);
    }
  }

  /** The two halves converge from every combination but one: the left page
      finished, the right page not, and the move still owed. A Move stopped
      after the right page reached disk is completed by the NoMove truncation
      at the same boundary. */
  lemma HalvesConverge(left: Page, right: Page, rec: Clr, lsn: Lsn, left': Page, right': Page, l: Page, r: Page)
    requires left.lsn < lsn && right.lsn < lsn && Sorted(left.entries)
    requires Accounted(right) && right.level == left.level
    requires ClrHalves(left, right, rec, lsn) == Ok((left', right'))
    requires !IsUnlink(rec) && right.entries == [] ==> rec.start < |left.entries|
    requires PreOrPost(left, left', lsn, l) && PreOrPost(right, right', lsn, r)
    ensures l != left' || r == right' ==> ClrHalves(l, r, rec, lsn) == Ok((left', right'))
    ensures l == left' && r != right' ==>
              ClrHalves(l, r, rec, lsn)
              == if !IsUnlink(rec) && right.entries == [] then Err(Corrupted) else Ok((left', r))
  {
    if !IsUnlink(rec) {
      hide ClrHalves;
      if right.entries == [] {
        MoveConverges(left, right, rec, lsn, left', right', l, r);
      } else {
        NoMoveConverges(left, right, rec, lsn, left', right', l, r);
      }
    }
  }

  /** The page a CLR puts the downlink on, INVALID for an unlink. */
  function DownlinkPage(rec: Clr): PageId
  {
    if rec.newRoot != INVALID then rec.newRoot else rec.parent
  }

  function ClrPages(rec: Clr): set<PageId>
  {
    {rec.left, rec.right}
    + (if DownlinkPage(rec) != INVALID then {DownlinkPage(rec)} else {})
    + (if rec.meta != INVALID then {rec.meta} else {})
  }

  function ClrDownlink(page: Page, rec: Clr, lsn: Lsn): Result<Page>
  {
    if rec.newRoot != INVALID then ClrNewRoot(page, rec, lsn) else ClrParent(page, rec, lsn)
  }

  /** `apply_split_clr` page by page. */
  ghost predicate ClrApplied(s: Pages, rec: Clr, lsn: Lsn, s': Pages)
    requires ClrWithinFile(rec, |s|)
  {
    && |s'| == |s|
    && ClrHalves(s[rec.left], s[rec.right], rec, lsn) == Ok((s'[rec.left], s'[rec.right]))
    && (DownlinkPage(rec) != INVALID ==>
          ClrDownlink(s[DownlinkPage(rec)], rec, lsn) == Ok(s'[DownlinkPage(rec)]))
    && (rec.meta != INVALID ==> ClrMeta(s[rec.meta], rec, lsn) == Ok(s'[rec.meta]))
    && forall p :: 0 <= p < |s| && p !in ClrPages(rec) ==> s'[p] == s[p]
  }

  lemma ClrByPage(s: Pages, rec: Clr, lsn: Lsn, s': Pages)
    requires ClrWithinFile(rec, |s|) && ClrDistinct(rec)
    ensures ApplyClr(s, rec, lsn) == Ok(s') <==> ClrApplied(s, rec, lsn, s')
  {
    hide ClrHalves;
    hide ClrNewRoot;
    hide ClrParent;
    hide ClrMeta;
    if ClrApplied(s, rec, lsn, s') {
      var out := ApplyClr(s, rec, lsn).value;
      forall p | 0 <= p < |s| ensures out[p] == s'[p] {}
      assert out == s';
    }
  }

  lemma DownlinkConverges(pre: Page, rec: Clr, lsn: Lsn, post: Page, page: Page)
    requires pre.lsn < lsn && ClrDownlink(pre, rec, lsn) == Ok(post) && PreOrPost(pre, post, lsn, page)
    ensures ClrDownlink(page, rec, lsn) == Ok(post)
  {
    if rec.newRoot != INVALID {
      AppendAllKeepsLsn(InitPage(rec.level + 1, Flags(false, true, false)),
                        [Entry([], rec.left, 0), Entry(rec.separator, rec.right, 0)]);
    }
  }

  lemma MetaConverges(pre: Page, rec: Clr, lsn: Lsn, post: Page, page: Page)
    requires pre.lsn < lsn && ClrMeta(pre, rec, lsn) == Ok(post) && PreOrPost(pre, post, lsn, page)
    ensures ClrMeta(page, rec, lsn) == Ok(post)
  {}

  /** Every page of the record is as the CLR found it or as it left it. */
  ghost predicate PartlyDurable(s: Pages, rec: Clr, lsn: Lsn, s': Pages, mem: Pages)
  {
    && |mem| == |s| == |s'|
    && forall p :: 0 <= p < |s| ==>
         if p in ClrPages(rec) then PreOrPost(s[p], s'[p], lsn, mem[p]) else mem[p] == s[p]
  }

  /** What `emit_and_apply_clr` has read when it logs the record. */
  ghost predicate ClrDescribes(s: Pages, rec: Clr, lsn: Lsn)
  {
    && ClrWithinFile(rec, |s|) && ClrDistinct(rec)
    && (forall p :: 0 <= p < |s| ==> s[p].lsn < lsn)
    && Sorted(s[rec.left].entries) && Accounted(s[rec.right]) && s[rec.right].level == s[rec.left].level
    && (!IsUnlink(rec) && s[rec.right].entries == [] ==> rec.start < |s[rec.left].entries|)
  }

  /** CLR convergence: from every durable subset of the record's pages in which
      a durable left page comes with a durable right page, applying the record
      ends in the same pages; in particular a second application changes
      nothing. */
  lemma ClrConverges(s: Pages, rec: Clr, lsn: Lsn, s': Pages, mem: Pages)
    requires ClrDescribes(s, rec, lsn) && ApplyClr(s, rec, lsn) == Ok(s')
    requires PartlyDurable(s, rec, lsn, s', mem)
    requires mem[rec.left] == s'[rec.left] ==> mem[rec.right] == s'[rec.right]
    ensures ApplyClr(mem, rec, lsn) == Ok(s')
  {
    hide ClrHalves;
    hide ClrDownlink;
    hide ClrMeta;
    hide ApplyClr;
    hide Sorted;
    hide Accounted;
    ClrByPage(s, rec, lsn, s');
    HalvesConverge(s[rec.left], s[rec.right], rec, lsn, s'[rec.left], s'[rec.right],
                   mem[rec.left], mem[rec.right]);
    var d := DownlinkPage(rec);
    if d != INVALID {
      DownlinkConverges(s[d], rec, lsn, s'[d], mem[d]);
    }
    if rec.meta != INVALID {
      MetaConverges(s[rec.meta], rec, lsn, s'[rec.meta], mem[rec.meta]);
    }
    assert ClrApplied(mem, rec, lsn, s');
    ClrByPage(mem, rec, lsn, s');
  }

  /** Without the flush order (left page durable, right page not) the record
      is refused exactly when it had to move entries: they would be durable
      nowhere. */
  lemma ClrOrderMatters(s: Pages, rec: Clr, lsn: Lsn, s': Pages, mem: Pages)
    requires ClrDescribes(s, rec, lsn) && ApplyClr(s, rec, lsn) == Ok(s')
    requires PartlyDurable(s, rec, lsn, s', mem)
    requires mem[rec.left] == s'[rec.left] && mem[rec.right] != s'[rec.right]
    ensures ApplyClr(mem, rec, lsn).Err? <==> !IsUnlink(rec) && s[rec.right].entries == []
  {
    hide ClrHalves;
    hide ClrDownlink;
    hide ClrMeta;
    hide Sorted;
    hide Accounted;
    ClrByPage(s, rec, lsn, s');
    HalvesConverge(s[rec.left], s[rec.right], rec, lsn, s'[rec.left], s'[rec.right],
                   mem[rec.left], mem[rec.right]);
    if IsUnlink(rec) || s[rec.right].entries != [] {
      hide ApplyClr;
      var s'' := s'[rec.right := mem[rec.right]];
      var d := DownlinkPage(rec);
      if d != INVALID {
        DownlinkConverges(s[d], rec, lsn, s'[d], mem[d]);
      }
      if rec.meta != INVALID {
        MetaConverges(s[rec.meta], rec, lsn, s'[rec.meta], mem[rec.meta]);
      }
      assert ClrApplied(mem, rec, lsn, s'');
      ClrByPage(mem, rec, lsn, s'');
    }
  }

  /** The halves a Move leaves behind. */
  lemma MoveHalves(left: Page, right: Page, rec: Clr, lsn: Lsn, left': Page, right': Page)
    requires left.lsn < lsn && ClrHalves(left, right, rec, lsn) == Ok((left', right')) && !IsUnlink(rec)
    requires Accounted(right) && right.entries == [] && right.level == left.level
    requires rec.start < |left.entries|
    ensures left' == left.(lsn := left'.lsn, next := rec.right, entries := left.entries[..rec.start],
                           upper := left'.upper, flags := left.flags.(splitIncomplete := false, root := false))
    ensures right' == right.(lsn := right'.lsn, entries := left.entries[rec.start..], upper := right'.upper)
    ensures Accounted(left') && !NeverHadEntries(left') && Accounted(right') && !NeverHadEntries(right')
    ensures left'.lsn == lsn && (right.lsn < lsn ==> right'.lsn == lsn)
  {
    hide TotalBytes;
    CopyResult(left, right, rec.start);
  }
}

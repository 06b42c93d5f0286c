/** What a compensation record does to a file in any state, page by page
    (crates/pg-am-btree/src/index.rs, `apply_split_clr`). */
module BtreeClr {
  import opened Keys
  import opened Outcome
  import opened Sequences
  import opened BtreePages
  import opened BtreeLog
  import opened BtreeContent
  import opened BtreeSearch
  import opened BtreeFinish

  /** No page is past `lsn`, and `btpo_level` is a 4-bit field. */
  ghost predicate Sane(s: Pages, lsn: Lsn)
  {
    |s| > 0 && forall p :: 0 <= p < |s| ==> s[p].lsn <= lsn && s[p].level <= MAX_LEVEL
  }

  /** Only entries were added or moved. */
  ghost predicate Refilled(page: Page, lsn: Lsn, page': Page)
  {
    && page' == page.(lsn := lsn, entries := page'.entries, upper := page'.upper)
    && (GoodGeometry(page) ==> GoodGeometry(page'))
  }

  /** The left page of a finished split. */
  ghost predicate Closed(page: Page, lsn: Lsn, page': Page)
  {
    && page'.lsn == lsn && page'.level == page.level && page'.flags.leaf == page.flags.leaf && page'.prev == page.prev
    && !page'.flags.splitIncomplete && (page'.flags.root ==> page.flags.root) && GoodGeometry(page')
  }

  lemma {:induction false} AppendAllRefills(p: Page, es: seq<Entry>)
    requires AppendAll(p, es).Ok?
    ensures Refilled(p, p.lsn, AppendAll(p, es).value)
    decreases |es|
  {
    if es == [] {
    } else {
      AppendAllRefills(InsertEntryAt(p, |p.entries|, es[0]).value, es[1..]);
    }
  }

  lemma CopyRefills(left: Page, right: Page, start: nat, move: bool)
    requires ApplySplitCopy(left, right, start, move).Ok?
    ensures var (l, r) := ApplySplitCopy(left, right, start, move).value;
            Refilled(left, left.lsn, l) && Refilled(right, right.lsn, r) && GoodGeometry(l)
  {
    AppendAllRefills(InitPage(left.level, left.flags), left.entries[..start]);
    if move {
      AppendAllRefills(right, left.entries[start..]);
    }
  }

  lemma HalvesMoved(left: Page, right: Page, rec: Clr, lsn: Lsn)
    requires left.lsn < lsn && right.lsn < lsn && ClrHalves(left, right, rec, lsn).Ok?
    ensures var (l, r) := ClrHalves(left, right, rec, lsn).value;
            Closed(left, lsn, l) && Refilled(right, lsn, r)
  {
    hide ApplySplitCopy;
    if IsUnlink(rec) {
    } else if right.entries != [] {
      if left.entries != [] {
        CopyRefills(left, right, SearchSlot(left.entries, right.entries[0]), false);
      }
    } else {
      CopyRefills(left, right, rec.start, true);
    }
  }

  /** The whole record. */
  ghost predicate ClrMoved(s: Pages, rec: Clr, lsn: Lsn, s': Pages)
    requires ClrWithinFile(rec, |s|)
  {
    && |s'| == |s| && Closed(s[rec.left], lsn, s'[rec.left]) && Refilled(s[rec.right], lsn, s'[rec.right])
    && (rec.newRoot != INVALID ==>
          && s'[rec.newRoot].lsn == lsn && s'[rec.newRoot].level == rec.level + 1
          && s'[rec.newRoot].flags == Flags(false, true, false))
    && (rec.newRoot == INVALID && rec.parent != INVALID ==> Refilled(s[rec.parent], lsn, s'[rec.parent]))
    && (rec.meta != INVALID ==> Refilled(s[rec.meta], lsn, s'[rec.meta]))
    && forall p :: 0 <= p < |s| && p !in ClrPages(rec) ==> s'[p] == s[p]
  }

  lemma RootMoved(page: Page, rec: Clr, lsn: Lsn)
    requires page.lsn < lsn && ClrNewRoot(page, rec, lsn).Ok?
    ensures var root := ClrNewRoot(page, rec, lsn).value;
            root.lsn == lsn && root.level == rec.level + 1 && root.flags == Flags(false, true, false)
  {
    AppendAllRefills(InitPage(rec.level + 1, Flags(false, true, false)),
                     [Entry([], rec.left, 0), Entry(rec.separator, rec.right, 0)]);
  }

  lemma ClrMoves(s: Pages, rec: Clr, lsn: Lsn, s': Pages)
    requires Sane(s, lsn) && ClrWithinFile(rec, |s|) && ClrDistinct(rec) && ApplyClr(s, rec, lsn + 1) == Ok(s')
    ensures ClrMoved(s, rec, lsn + 1, s')
  {
    hide ApplyClr;
    hide ClrHalves;
    hide ClrNewRoot;
    ClrByPage(s, rec, lsn + 1, s');
    HalvesMoved(s[rec.left], s[rec.right], rec, lsn + 1);
    if rec.newRoot != INVALID {
      RootMoved(s[rec.newRoot], rec, lsn + 1);
    }
  }

  /** When the search for the meta page answered the right page itself, the
      last step finds the page stamped already and writes nothing. */
  lemma MetaOnRight(s: Pages, rec: Clr, lsn: Lsn)
    requires ClrWithinFile(rec, |s|) && s[rec.left].lsn <= lsn && s[rec.right].lsn <= lsn
    requires rec.meta == rec.right && rec.newRoot != INVALID && rec.newRoot != rec.right && rec.left != rec.right
    ensures ApplyClr(s, rec, lsn + 1) == ApplyClr(s, rec.(meta := INVALID), lsn + 1)
  {
    var rec', lsn' := rec.(meta := INVALID), lsn + 1;
    SameHalves(s[rec.left], s[rec.right], rec, lsn');
    var s1 := ApplyHalves(s, rec, lsn');
    assert s1 == ApplyHalves(s, rec', lsn');
    if s1.Ok? {
      HalvesMoved(s[rec.left], s[rec.right], rec, lsn');
      SameRoot(s1.value[rec.newRoot], rec, lsn');
      hide ClrHalves;
      hide ClrNewRoot;
      var s2 := ApplyDownlink(s1.value, rec, lsn');
      assert s2 == ApplyDownlink(s1.value, rec', lsn');
      if s2.Ok? {
        assert s2.value[rec.right].lsn == lsn';
        assert s2.value[rec.right := s2.value[rec.right]] == s2.value;
      }
    }
  }

  /** The record with what it really publishes: the meta step on the right page
      itself does nothing. */
  function Effective(rec: Clr): Clr
  {
    if rec.newRoot != INVALID && rec.meta == rec.right then rec.(meta := INVALID) else rec
  }

  lemma EffectiveApplies(s: Pages, rec: Clr, lsn: Lsn)
    requires ClrWithinFile(rec, |s|) && s[rec.left].lsn < lsn && s[rec.right].lsn < lsn && ClrDistinct(Effective(rec))
    ensures ApplyClr(s, Effective(rec), lsn) == ApplyClr(s, rec, lsn)
  {
    if rec.newRoot != INVALID && rec.meta == rec.right {
      hide ApplyClr;
      MetaOnRight(s, rec, lsn - 1);
    }
  }

  lemma SameHalves(left: Page, right: Page, rec: Clr, lsn: Lsn)
    requires rec.newRoot != INVALID
    ensures ClrHalves(left, right, rec.(meta := INVALID), lsn) == ClrHalves(left, right, rec, lsn)
  {}

  lemma SameRoot(page: Page, rec: Clr, lsn: Lsn)
    ensures ClrNewRoot(page, rec.(meta := INVALID), lsn) == ClrNewRoot(page, rec, lsn)
  {}
}

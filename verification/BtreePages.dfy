/** B+Tree pages at entry level (crates/pg-am-btree/src/page.rs and the page
    helpers of index.rs).

    A page is its header fields and the sequence of entries its line pointers
    name, in slot order. `upper` is `pd_upper`: tuple bytes are only ever
    carved downwards, so a page that lost all its entries to deletes still
    differs from one that never had any. The byte-level layout under this
    view is the subject of module SlottedBytes. */
module BtreePages {
  import opened Keys
  import opened Outcome
  import opened Sequences

  type PageId = nat
  type Lsn = nat

  const INVALID: PageId := 0

  const PAGE_HEADER_SIZE := 32
  const LINE_POINTER_SIZE := 4
  const PD_SPECIAL := 8176
  const PAGE_CAPACITY := 8144
  const MAX_INDEX_KEY_BYTES := 2698
  const MAX_LEVEL := 15

  /** A key with its trailer. On a leaf the trailer is a heap TID; on an
      internal page it is the child page and `slot` is 0; on the meta page the
      key is empty and the trailer is (root, tree level). */
  datatype Entry = Entry(key: Key, page: PageId, slot: nat)

  /** Full `(key, trailer)` order, `entry_cmp(a, b) == Less`. */
  predicate EntryLess(a: Entry, b: Entry)
  {
    || KeyLess(a.key, b.key)
    || (a.key == b.key && (a.page < b.page || (a.page == b.page && a.slot < b.slot)))
  }

  lemma EntryTrichotomy(a: Entry, b: Entry)
    ensures !EntryLess(a, a)
    ensures a == b || EntryLess(a, b) || EntryLess(b, a)
    ensures !(EntryLess(a, b) && EntryLess(b, a))
  {
    KeyTrichotomy(a.key, b.key);
    KeyTrichotomy(a.key, a.key);
  }

  lemma EntryTransitive(a: Entry, b: Entry, c: Entry)
    requires EntryLess(a, b) && EntryLess(b, c)
    ensures EntryLess(a, c)
  {
    if KeyLess(a.key, b.key) && KeyLess(b.key, c.key) {
      KeyTransitive(a.key, b.key, c.key);
    }
  }

  /** Strictly increasing in full `(key, trailer)` order. */
  ghost predicate Sorted(es: seq<Entry>)
  {
    forall i, j :: 0 <= i < j < |es| ==> EntryLess(es[i], es[j])
  }

  /** Bytes of an entry: the trailer is 10 bytes on level 0, 8 above. */
  function EntryBytes(level: nat, e: Entry): (n: nat)
    ensures n >= 8
  {
    |e.key| + if level == 0 then 10 else 8
  }

  /** Page space an entry takes: its bytes and one line pointer. */
  function EntryCost(level: nat, e: Entry): (n: nat)
    ensures n >= 12
  {
    EntryBytes(level, e) + LINE_POINTER_SIZE
  }

  datatype Flags = Flags(leaf: bool, root: bool, splitIncomplete: bool)

  function FlagsForLevel(level: nat): Flags
  {
    Flags(level == 0, false, false)
  }

  datatype Page = Page(
    lsn: Lsn, level: nat, flags: Flags, prev: PageId, next: PageId,
    entries: seq<Entry>, upper: nat)

  /** A page of zeros, as the allocator hands it out. */
  const ZERO_PAGE := Page(0, 0, Flags(false, false, false), INVALID, INVALID, [], 0)

  function LastOf(page: Page): Entry
    requires page.entries != []
  {
    page.entries[|page.entries| - 1]
  }

  /** `pd_upper == 0`. */
  predicate IsFresh(p: Page) { p.upper == 0 }

  function Lower(p: Page): nat
  {
    PAGE_HEADER_SIZE + |p.entries| * LINE_POINTER_SIZE
  }

  /** `checked_header`; a fresh page fails it. */
  predicate GoodGeometry(p: Page)
  {
    Lower(p) <= p.upper <= PD_SPECIAL
  }

  function FreeSpace(p: Page): nat
  {
    if p.upper < Lower(p) then 0 else p.upper - Lower(p)
  }

  /** `page_never_had_entries`. */
  predicate NeverHadEntries(p: Page) { p.upper == PD_SPECIAL }

  /** `BtreePage::init`: zeroes everything, `pd_lsn` included. */
  function InitPage(level: nat, flags: Flags): Page
  {
    Page(0, level, flags, INVALID, INVALID, [], PD_SPECIAL)
  }

  function InitIfFresh(p: Page, level: nat, flags: Flags): Page
  {
    if IsFresh(p) then InitPage(level, flags) else p
  }

  /** `stamp_pd_lsn`: the page LSN never moves backwards. */
  function Stamp(p: Page, lsn: Lsn): Page
  {
    p.(lsn := if lsn > p.lsn then lsn else p.lsn)
  }

  function InsertEntryAt(p: Page, slot: nat, e: Entry): Result<Page>
  {
    if !GoodGeometry(p) || slot > |p.entries| then Err(Corrupted)
    else if EntryCost(p.level, e) > PAGE_CAPACITY then Err(KeyTooLarge)
    else if FreeSpace(p) < EntryCost(p.level, e) then Err(PageFull)
    else Ok(p.(entries := InsertAt(p.entries, slot, e),
               upper := p.upper - EntryBytes(p.level, e)))
  }

  function RemoveEntryAt(p: Page, slot: nat): Result<Page>
  {
    if !GoodGeometry(p) || slot >= |p.entries| then Err(Corrupted)
    else Ok(p.(entries := RemoveAt(p.entries, slot)))
  }

  /** `SlottedPage::add_tuple` for each entry in turn; a B+Tree page has no
      unused slot, so every add appends. */
  function AppendAll(p: Page, es: seq<Entry>): Result<Page>
    decreases |es|
  {
    if es == [] then Ok(p)
    else
      var q :- InsertEntryAt(p, |p.entries|, es[0]);
      AppendAll(q, es[1..])
  }

  function ApplyPrepareLeft(p: Page, right: PageId): Result<Page>
  {
    if !GoodGeometry(p) then Err(Corrupted)
    else Ok(p.(flags := p.flags.(splitIncomplete := true), next := right))
  }

  function InitRightPage(left: PageId, oldNext: PageId, level: nat): Page
  {
    InitPage(level, FlagsForLevel(level)).(prev := left, next := oldNext)
  }

  /** Clears SPLIT_INCOMPLETE, and ROOT with it. */
  function ApplyCommitLeft(p: Page): Result<Page>
  {
    if !GoodGeometry(p) then Err(Corrupted)
    else Ok(p.(flags := p.flags.(splitIncomplete := false, root := false)))
  }

  /** The left page re-packed from scratch with the entries it keeps. */
  function Rebuild(p: Page, kept: seq<Entry>): Result<Page>
  {
    var q :- AppendAll(InitPage(p.level, p.flags), kept);
    Ok(q.(lsn := p.lsn, prev := p.prev, next := p.next))
  }

  /** `apply_split_copy`: move the entries from `start` on to the right page
      (unless it already holds them) and rebuild the left page. */
  function ApplySplitCopy(left: Page, right: Page, start: nat, move: bool): Result<(Page, Page)>
  {
    if start == 0 || start > |left.entries| || !GoodGeometry(left) then Err(Corrupted)
    else
      var newRight :- if move then AppendAll(right, left.entries[start..]) else Ok(right);
      var newLeft :- Rebuild(left, left.entries[..start]);
      Ok((newLeft, newRight))
  }

  /** Tuple bytes of a list of entries. */
  function TotalBytes(level: nat, es: seq<Entry>): nat
  {
    if es == [] then 0 else EntryBytes(level, es[0]) + TotalBytes(level, es[1..])
  }

  /** Page space of a list of entries, line pointers included. */
  function TotalCost(level: nat, es: seq<Entry>): nat
  {
    TotalBytes(level, es) + |es| * LINE_POINTER_SIZE
  }

  lemma OneEntry(level: nat, e: Entry)
    ensures TotalBytes(level, [e]) == EntryBytes(level, e)
  {
    assert [e][1..] == [];
    assert TotalBytes(level, []) == 0;
  }

  lemma {:induction false} TotalBytesConcat(level: nat, a: seq<Entry>, b: seq<Entry>)
    ensures TotalBytes(level, a + b) == TotalBytes(level, a) + TotalBytes(level, b)
  {
    if a == [] {
      assert a + b == b;
    } else {
      TotalBytesConcat(level, a[1..], b);
      assert (a + b)[1..] == a[1..] + b;
    }
  }

  /** Appending succeeds exactly when the entries fit, and then adds them in
      order and carves exactly their bytes. */
  lemma {:induction false} AppendAllExact(p: Page, es: seq<Entry>)
    requires GoodGeometry(p)
    ensures AppendAll(p, es).Ok? <==> TotalCost(p.level, es) <= FreeSpace(p)
    ensures AppendAll(p, es).Ok? ==>
              AppendAll(p, es).value
              == p.(entries := p.entries + es, upper := p.upper - TotalBytes(p.level, es))
    decreases |es|
  {
    if es == [] {
      assert p.entries + es == p.entries;
    } else {
      var first := InsertEntryAt(p, |p.entries|, es[0]);
      if first.Ok? {
        AppendAllExact(first.value, es[1..]);
        assert first.value.entries + es[1..] == p.entries + es;
      }
    }
  }

  /** Space accounting every page reached online satisfies: the live entries
      were all carved out of the area above `pd_upper`. */
  predicate Accounted(p: Page)
  {
    GoodGeometry(p) && p.upper + TotalBytes(p.level, p.entries) <= PD_SPECIAL
  }

  lemma InsertKeepsAccounted(p: Page, slot: nat, e: Entry)
    requires Accounted(p) && InsertEntryAt(p, slot, e).Ok?
    ensures Accounted(InsertEntryAt(p, slot, e).value)
  {
    var es := p.entries;
    assert es == es[..slot] + es[slot..];
    TotalBytesConcat(p.level, es[..slot], es[slot..]);
    TotalBytesConcat(p.level, es[..slot] + [e], es[slot..]);
    TotalBytesConcat(p.level, es[..slot], [e]);
  }

  lemma RemoveKeepsAccounted(p: Page, slot: nat)
    requires Accounted(p) && RemoveEntryAt(p, slot).Ok?
    ensures Accounted(RemoveEntryAt(p, slot).value)
  {
    var es := p.entries;
    assert es == es[..slot] + es[slot..];
    assert es[slot..] == [es[slot]] + es[slot + 1..];
    TotalBytesConcat(p.level, es[..slot], es[slot..]);
    TotalBytesConcat(p.level, es[..slot], es[slot + 1..]);
  }

  /** Rebuilding a prefix of an accounted page never runs out of room. */
  lemma RebuildExact(p: Page, n: nat)
    requires Accounted(p) && n <= |p.entries|
    ensures TotalBytes(p.level, p.entries[..n]) <= PD_SPECIAL
    ensures Rebuild(p, p.entries[..n])
            == Ok(p.(entries := p.entries[..n],
                     upper := PD_SPECIAL - TotalBytes(p.level, p.entries[..n])))
  {
    var kept := p.entries[..n];
    assert p.entries == kept + p.entries[n..];
    TotalBytesConcat(p.level, kept, p.entries[n..]);
    AppendAllExact(InitPage(p.level, p.flags), kept);
    assert [] + kept == kept;
  }
}

/** The write-ahead log of the B+Tree: what each record does when it is
    written and what its redo handler does (crates/pg-am-btree/src/index.rs,
    crates/pg-am-btree/src/redo.rs).

    An LSN is a position in the log: record `log[i]` has LSN `i + 1`, and LSN 0
    is `Lsn::INVALID`. */
module BtreeLog {
  import opened Keys
  import opened Outcome
  import opened BtreePages

  /** The data file, page `p` at index `p` (page 0 is never allocated). Its
      length is fixed: a page not used yet holds zeros or the bytes of a
      previous tenant. */
  type Pages = seq<Page>

  datatype Record =
    | Image(page: PageId, image: Page)
    | Insert(page: PageId, slot: nat, level: nat, flags: Flags, entry: Entry)
    | Delete(page: PageId, slot: nat)
    | Prepare(left: PageId, right: PageId, level: nat, oldNext: PageId, highKey: Key)
    | Copy(left: PageId, right: PageId, start: nat, preLsn: Lsn)
    | Commit(left: PageId, right: PageId, parent: PageId, separator: Key, slot: nat)

  /** The pages a record modifies. */
  function Touched(r: Record): set<PageId>
  {
    match r
    case Image(p, _) => {p}
    case Insert(p, _, _, _, _) => {p}
    case Delete(p, _) => {p}
    case Prepare(l, r, _, _, _) => {l, r}
    case Copy(l, r, _, _) => {l, r}
    case Commit(l, _, parent, _, _) => {l, parent}
  }

  /** Every page a record modifies is in a data file of `n` pages. */
  predicate WithinFile(r: Record, n: nat)
  {
    match r
    case Image(p, _) => p < n
    case Insert(p, _, _, _, _) => p < n
    case Delete(p, _) => p < n
    case Prepare(l, r, _, _, _) => l < n && r < n
    case Copy(l, r, _, _) => l < n && r < n
    case Commit(l, _, parent, _, _) => l < n && parent < n
  }

  /** The record says about the pages what the code that writes it reads from
      them; a split's pages are distinct, a page flagged SPLIT_INCOMPLETE is
      not split again. */
  predicate Describes(s: Pages, r: Record, lsn: Lsn)
  {
    && WithinFile(r, |s|)
    && match r
       case Image(_, image) => image.lsn < lsn
       case Insert(_, _, _, _, _) => true
       case Delete(_, _) => true
       case Prepare(l, r, level, oldNext, highKey) =>
         && l != r && |s[l].entries| >= 2 && !s[l].flags.splitIncomplete
         && level == s[l].level && oldNext == s[l].next
         && highKey == s[l].entries[|s[l].entries| - 1].key
       case Copy(l, r, _, preLsn) => l != r && preLsn == s[l].lsn
       case Commit(l, _, parent, _, _) => l != parent
  }

  /** Apply a record under the latches of the pages it modifies. */
  function Online(s: Pages, r: Record, lsn: Lsn): Result<Pages>
    requires WithinFile(r, |s|)
  {
    match r
    case Image(p, image) => Ok(s[p := Stamp(image, lsn)])
    case Insert(p, slot, _, _, e) =>
      var page :- InsertEntryAt(s[p], slot, e);
      Ok(s[p := Stamp(page, lsn)])
    case Delete(p, slot) =>
      var page :- RemoveEntryAt(s[p], slot);
      Ok(s[p := Stamp(page, lsn)])
    case Prepare(l, r, level, oldNext, _) =>
      var left :- ApplyPrepareLeft(s[l], r);
      Ok(s[r := Stamp(InitRightPage(l, oldNext, level), lsn)][l := Stamp(left, lsn)])
    case Copy(l, r, start, _) =>
      var (left, right) :- ApplySplitCopy(s[l], s[r], start, true);
      Ok(s[l := Stamp(left, lsn)][r := Stamp(right, lsn)])
    case Commit(l, r, parent, sep, slot) =>
      var page :- InsertEntryAt(s[parent], slot, Entry(sep, r, 0));
      var left :- ApplyCommitLeft(s[l]);
      Ok(s[parent := Stamp(page, lsn)][l := Stamp(left, lsn)])
  }

  /** `FullPageImageRedoHandler::apply`: unconditional. */
  function RedoImage(s: Pages, p: PageId, image: Page, lsn: Lsn): Result<Pages>
  {
    if p >= |s| then Err(Corrupted) else Ok(s[p := Stamp(image, lsn)])
  }

  /** `BTreeInsertHandler::apply`. */
  function RedoInsert(s: Pages, p: PageId, slot: nat, level: nat, flags: Flags, e: Entry, lsn: Lsn)
    : Result<Pages>
  {
    if p >= |s| then Err(Corrupted)
    else if s[p].lsn >= lsn then Ok(s)
    else
      var page :- InsertEntryAt(InitIfFresh(s[p], level, flags), slot, e);
      Ok(s[p := Stamp(page, lsn)])
  }

  /** `BTreeDeleteHandler::apply`. */
  function RedoDelete(s: Pages, p: PageId, slot: nat, lsn: Lsn): Result<Pages>
  {
    if p >= |s| then Err(Corrupted)
    else if s[p].lsn >= lsn then Ok(s)
    else
      var page :- RemoveEntryAt(s[p], slot);
      Ok(s[p := Stamp(page, lsn)])
  }

  /** The left half of `BTreeSplitPrepareHandler::apply`, with the check that
      the page's last key is the one the record carries. */
  function RedoPrepareLeft(left: Page, right: PageId, level: nat, highKey: Key, lsn: Lsn)
    : Result<Page>
  {
    if left.lsn >= lsn then Ok(left)
    else
      var page := InitIfFresh(left, level, FlagsForLevel(level));
      if page.entries != [] && page.entries[|page.entries| - 1].key != highKey
      then Err(Corrupted)
      else
        var prepared :- ApplyPrepareLeft(page, right);
        Ok(Stamp(prepared, lsn))
  }

  /** `BTreeSplitPrepareHandler::apply`: each page under its own LSN guard. */
  function RedoPrepare(s: Pages, l: PageId, r: PageId, level: nat, oldNext: PageId, highKey: Key,
                       lsn: Lsn): Result<Pages>
  {
    if l >= |s| || r >= |s| then Err(Corrupted)
    else
      var s1 := if s[r].lsn < lsn then s[r := Stamp(InitRightPage(l, oldNext, level), lsn)] else s;
      var left :- RedoPrepareLeft(s1[l], r, level, highKey, lsn);
      Ok(s1[l := left])
  }

  /** `BTreeSplitCopyHandler::apply`. The moved entries are recomputed from the
      left page; how depends on how far each page is past the copy. */
  function RedoCopy(s: Pages, l: PageId, r: PageId, start: nat, preLsn: Lsn, lsn: Lsn)
    : Result<Pages>
  {
    if l >= |s| || r >= |s| then Err(Corrupted)
    else if s[l].lsn != preLsn then
      if s[l].lsn >= lsn then
        if s[r].lsn >= lsn then Ok(s) else Err(Corrupted)
      else if s[r].lsn >= lsn then
        var (left, _) :- ApplySplitCopy(s[l], s[r], start, false);
        Ok(s[l := Stamp(left, lsn)])
      else Err(Corrupted)
    else
      var move := s[r].lsn < lsn;
      var (left, right) :- ApplySplitCopy(s[l], s[r], start, move);
      var s1 := if move then s[r := Stamp(right, lsn)] else s;
      Ok(s1[l := Stamp(left, lsn)])
  }

  /** `BTreeSplitCommitHandler::apply`. */
  function RedoCommit(s: Pages, l: PageId, r: PageId, parent: PageId, sep: Key, slot: nat, lsn: Lsn)
    : Result<Pages>
  {
    if parent >= |s| || l >= |s| then Err(Corrupted)
    else
      var s1 :-
        if s[parent].lsn >= lsn then Ok(s)
        else if IsFresh(s[parent]) then Err(Corrupted)
        else
          var page :- InsertEntryAt(s[parent], slot, Entry(sep, r, 0));
          Ok(s[parent := Stamp(page, lsn)]);
      if s1[l].lsn >= lsn then Ok(s1)
      else if IsFresh(s1[l]) then Err(Corrupted)
      else
        var left :- ApplyCommitLeft(s1[l]);
        Ok(s1[l := Stamp(left, lsn)])
  }

  function Redo(s: Pages, r: Record, lsn: Lsn): Result<Pages>
  {
    match r
    case Image(p, image) => RedoImage(s, p, image, lsn)
    case Insert(p, slot, level, flags, e) => RedoInsert(s, p, slot, level, flags, e, lsn)
    case Delete(p, slot) => RedoDelete(s, p, slot, lsn)
    case Prepare(l, r, level, oldNext, highKey) => RedoPrepare(s, l, r, level, oldNext, highKey, lsn)
    case Copy(l, r, start, preLsn) => RedoCopy(s, l, r, start, preLsn, lsn)
    case Commit(l, r, parent, sep, slot) => RedoCommit(s, l, r, parent, sep, slot, lsn)
  }

  /** `h[k]` is the data file after the first `k` records of an online run. */
  ghost predicate IsHistory(h: seq<Pages>, log: seq<Record>)
  {
    && |h| == |log| + 1
    && (forall p :: 0 <= p < |h[0]| ==> h[0][p].lsn == 0)
    && forall i :: 0 <= i < |log| ==> HistoryStep(h, log, i)
  }

  ghost predicate HistoryStep(h: seq<Pages>, log: seq<Record>, i: nat)
    requires i < |log| && |h| == |log| + 1
  {
    Appended(h[i], log[i], i + 1, h[i + 1])
  }

  ghost predicate Appended(s: Pages, r: Record, lsn: Lsn, s': Pages)
  {
    Describes(s, r, lsn) && Online(s, r, lsn) == Ok(s')
  }

  /** A record changes just the pages it touches, and stamps those with its
      LSN. */
  lemma OnlineFrame(s: Pages, r: Record, lsn: Lsn, s': Pages)
    requires Appended(s, r, lsn, s')
    requires forall p :: 0 <= p < |s| ==> s[p].lsn < lsn
    ensures |s'| == |s|
    ensures forall p :: 0 <= p < |s| ==>
              if p in Touched(r) then s'[p].lsn == lsn else s'[p] == s[p]
  {
    match r
    case Copy(l, r, start, _) => CopyKeepsLsn(s[l], s[r], start);
    case _ =>
  }

  lemma {:induction false} AppendAllKeepsLsn(p: Page, es: seq<Entry>)
    requires AppendAll(p, es).Ok?
    ensures AppendAll(p, es).value.lsn == p.lsn
    decreases |es|
  {
    if es == [] {
    } else {
      AppendAllKeepsLsn(InsertEntryAt(p, |p.entries|, es[0]).value, es[1..]);
    }
  }

  lemma CopyKeepsLsn(left: Page, right: Page, start: nat)
    requires ApplySplitCopy(left, right, start, true).Ok?
    ensures var (l, r) := ApplySplitCopy(left, right, start, true).value;
            l.lsn == left.lsn && r.lsn == right.lsn
  {
    AppendAllKeepsLsn(right, left.entries[start..]);
  }
}

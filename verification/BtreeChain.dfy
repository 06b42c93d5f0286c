/** The leaf chain as a sorted set (crates/pg-am-btree/src/index.rs).

    The sibling chain of the leaves is what the index means: the entries read
    along it, page after page, are a strictly sorted sequence. */
module BtreeChain {
  import opened Keys
  import opened Outcome
  import opened Sequences
  import opened BtreePages
  import opened BtreeLog

  /** `chain[i]` is the `i`-th leaf, along the `next` links. */
  ghost predicate Spine(s: Pages, chain: seq<PageId>)
  {
    && chain != []
    && (forall i :: 0 <= i < |chain| ==> NextAt(s, chain, i))
    && (forall i, j :: 0 <= i < j < |chain| ==> chain[i] != chain[j])
  }

  ghost predicate NextAt(s: Pages, chain: seq<PageId>, i: nat)
    requires i < |chain|
  {
    && 0 < chain[i] < |s|
    && s[chain[i]].level == 0 && s[chain[i]].flags.leaf && Accounted(s[chain[i]])
    && s[chain[i]].next == (if i + 1 < |chain| then chain[i + 1] else INVALID)
  }

  /** `prev` links may be stale: they name some leaf further left, not
      necessarily the neighbour. */
  ghost predicate Hinted(s: Pages, chain: seq<PageId>)
  {
    forall i :: 0 <= i < |chain| ==> HintAt(s, chain, i)
  }

  ghost predicate HintAt(s: Pages, chain: seq<PageId>, i: nat)
    requires i < |chain|
  {
    chain[i] < |s| && if i == 0 then s[chain[i]].prev == INVALID else s[chain[i]].prev in chain[..i]
  }

  ghost predicate IsChain(s: Pages, chain: seq<PageId>)
  {
    Spine(s, chain) && Hinted(s, chain)
  }

  ghost predicate LinkedAt(s: Pages, chain: seq<PageId>, i: nat)
    requires i < |chain|
  {
    NextAt(s, chain, i) && HintAt(s, chain, i)
  }

  lemma InFile(s: Pages, chain: seq<PageId>, i: nat)
    requires Spine(s, chain) && i < |chain|
    ensures 0 < chain[i] < |s|
    ensures s[chain[i]].next == (if i + 1 < |chain| then chain[i + 1] else INVALID)
    ensures Hinted(s, chain) ==> s[chain[i]].prev == INVALID || s[chain[i]].prev in chain
  {
    assert NextAt(s, chain, i);
    assert Hinted(s, chain) ==> HintAt(s, chain, i);
  }

  function EntriesOf(s: Pages, p: PageId): seq<Entry>
  {
    if p < |s| then s[p].entries else []
  }

  /** The entries along a run of leaves. */
  function Contents(s: Pages, chain: seq<PageId>): (es: seq<Entry>)
  {
    if chain == [] then [] else EntriesOf(s, chain[0]) + Contents(s, chain[1..])
  }

  lemma {:induction false} ContentsConcat(s: Pages, a: seq<PageId>, b: seq<PageId>)
    ensures Contents(s, a + b) == Contents(s, a) + Contents(s, b)
  {
    if a == [] {
      assert a + b == b;
    } else {
      ContentsConcat(s, a[1..], b);
      assert (a + b)[1..] == a[1..] + b;
      ConcatAssociative(EntriesOf(s, a[0]), Contents(s, a[1..]), Contents(s, b));
    }
  }

  lemma {:induction false} ContentsFrame(s: Pages, s': Pages, chain: seq<PageId>)
    requires forall i :: 0 <= i < |chain| ==> EntriesOf(s', chain[i]) == EntriesOf(s, chain[i])
    ensures Contents(s', chain) == Contents(s, chain)
  {
    if chain == [] {
    } else {
      ContentsFrame(s, s', chain[1..]);
    }
  }

  /** The chain cut at one leaf. */
  lemma ContentsAt(s: Pages, chain: seq<PageId>, k: nat)
    requires k < |chain|
    ensures Contents(s, chain)
            == Contents(s, chain[..k]) + EntriesOf(s, chain[k]) + Contents(s, chain[k + 1..])
  {
    assert chain == chain[..k] + chain[k..];
    assert chain[k..] == [chain[k]] + chain[k + 1..];
    ContentsConcat(s, chain[..k], chain[k..]);
  }

  lemma ContentsSnoc(s: Pages, chain: seq<PageId>, k: nat)
    requires k < |chain|
    ensures Contents(s, chain[..k + 1]) == Contents(s, chain[..k]) + EntriesOf(s, chain[k])
  {
    assert chain[..k + 1] == chain[..k] + [chain[k]];
    ContentsConcat(s, chain[..k], [chain[k]]);
  }

  /** Changing the entries of one leaf changes that part of the contents. */
  lemma ContentsUpdate(s: Pages, s': Pages, chain: seq<PageId>, k: nat)
    requires k < |chain|
    requires forall i :: 0 <= i < |chain| && i != k ==> EntriesOf(s', chain[i]) == EntriesOf(s, chain[i])
    ensures Contents(s', chain)
            == Contents(s, chain[..k]) + EntriesOf(s', chain[k]) + Contents(s, chain[k + 1..])
  {
    ContentsAt(s', chain, k);
    ContentsFrame(s, s', chain[..k]);
    ContentsFrame(s, s', chain[k + 1..]);
  }

  /** Position in the contents of slot `slot` of leaf `k`. */
  function Position(s: Pages, chain: seq<PageId>, k: nat, slot: nat): nat
    requires k < |chain|
  {
    |Contents(s, chain[..k])| + slot
  }

  /** `e` sorts strictly between what is left and what is right of a slot. */
  ghost predicate Placed(es: seq<Entry>, at: nat, e: Entry)
  {
    && at <= |es|
    && (forall i :: 0 <= i < at ==> EntryLess(es[i], e))
    && (forall i :: at <= i < |es| ==> EntryLess(e, es[i]))
  }

  lemma PlacedKeepsSorted(es: seq<Entry>, at: nat, e: Entry)
    requires Sorted(es) && Placed(es, at, e)
    ensures Sorted(InsertAt(es, at, e))
    ensures e !in es
  {
    EntryTrichotomy(e, e);
    var es' := InsertAt(es, at, e);
    forall i, j | 0 <= i < j < |es'| ensures EntryLess(es'[i], es'[j]) {
      var i0, j0 := if i > at then i - 1 else i, if j > at then j - 1 else j;
      assert i != at ==> es'[i] == es[i0];
      assert j != at ==> es'[j] == es[j0];
    }
  }

  /** A page flagged SPLIT_INCOMPLETE whose right twin was never written: the
      split stopped between Prepare and Copy. */
  predicate AwaitsCopy(s: Pages, p: PageId)
  {
    && p < |s| && s[p].flags.splitIncomplete
    && s[p].next < |s| && NeverHadEntries(s[s[p].next])
  }

  /** The leaves as a set in order. A flagged leaf is directly followed by its
      twin, and a leaf awaiting its Copy still has the two entries it needs. */
  ghost predicate SpineInv(s: Pages, chain: seq<PageId>)
  {
    && Spine(s, chain)
    && Sorted(Contents(s, chain))
    && forall i :: 0 <= i < |chain| ==> TwinAt(s, chain, i)
  }

  ghost predicate TwinAt(s: Pages, chain: seq<PageId>, i: nat)
    requires i < |chain|
  {
    chain[i] < |s| && s[chain[i]].flags.splitIncomplete ==>
      && i + 1 < |chain|
      && (AwaitsCopy(s, chain[i]) ==> |s[chain[i]].entries| >= 2)
  }

  /** The state every online step keeps. */
  ghost predicate TreeInv(s: Pages, chain: seq<PageId>)
  {
    SpineInv(s, chain) && Hinted(s, chain)
  }

  /** What the code around each record guarantees about it; module BtreeIndex
      shows it of the operations that write the records. An insert lands at its
      sorted place (module BtreePlacement says exactly when it does); Prepare to
      Copy is one latch hold, so nothing is deleted in between and the right page
      is still as Prepare initialised it; a new right page is not in the tree; a
      page image of a leaf shows that leaf. */
  ghost predicate Disciplined(s: Pages, chain: seq<PageId>, r: Record)
  {
    match r
    case Image(p, image) => p in chain && p < |s| ==> image == s[p].(lsn := image.lsn)
    case Insert(p, slot, _, _, e) =>
      p in chain ==> Placed(Contents(s, chain), Position(s, chain, IndexOf(chain, p), slot), e)
    case Delete(p, slot) => p in chain ==> !AwaitsCopy(s, p)
    case Prepare(_, right, _, _, _) => 0 < right && right !in chain
    case Copy(l, right, start, _) =>
      if l in chain then
        && AwaitsCopy(s, l) && s[l].next == right && s[right].entries == []
        && start < |s[l].entries|
      else right !in chain
    case Commit(_, _, parent, _, _) => parent !in chain
  }

  ghost function IndexOf(chain: seq<PageId>, p: PageId): (k: nat)
    requires p in chain
    ensures k < |chain| && chain[k] == p
  {
    if chain[0] == p then 0 else 1 + IndexOf(chain[1..], p)
  }

  /** A split links the right page in directly after the left one. */
  ghost function NextChain(chain: seq<PageId>, r: Record): seq<PageId>
  {
    if r.Prepare? && r.left in chain then
      var k := IndexOf(chain, r.left);
      chain[..k + 1] + [r.right] + chain[k + 1..]
    else chain
  }

  /** What a record means for the sorted sequence: only an insert into a leaf
      and a delete from a leaf change it, by that one entry. */
  ghost function NextContents(s: Pages, chain: seq<PageId>, r: Record): seq<Entry>
  {
    var es := Contents(s, chain);
    if r.Insert? && r.page in chain then
      var at := Position(s, chain, IndexOf(chain, r.page), r.slot);
      if at <= |es| then InsertAt(es, at, r.entry) else es
    else if r.Delete? && r.page in chain then
      var at := Position(s, chain, IndexOf(chain, r.page), r.slot);
      if at < |es| then RemoveAt(es, at) else es
    else es
  }

  /** Same leaves, same links, one page's entries and flags changed. */
  ghost predicate SameLinks(s: Pages, s': Pages, chain: seq<PageId>)
  {
    && |s| <= |s'|
    && forall i :: 0 <= i < |chain| && chain[i] < |s| ==> SameLinksAt(s[chain[i]], s'[chain[i]])
  }

  ghost predicate SameLinksAt(p: Page, p': Page)
  {
    && p'.next == p.next && p'.prev == p.prev && p'.level == p.level && p'.flags.leaf == p.flags.leaf
    && (Accounted(p) ==> Accounted(p'))
  }

  lemma SameLinksKeepChain(s: Pages, s': Pages, chain: seq<PageId>)
    requires Spine(s, chain) && SameLinks(s, s', chain)
    ensures Spine(s', chain) && (Hinted(s, chain) ==> Hinted(s', chain))
  {
    forall i | 0 <= i < |chain| ensures NextAt(s', chain, i) && (HintAt(s, chain, i) ==> HintAt(s', chain, i)) {
      assert NextAt(s, chain, i);
      assert SameLinksAt(s[chain[i]], s'[chain[i]]);
    }
  }

  /** Inserting into a leaf, at the entry level. */
  lemma InsertContents(s: Pages, s': Pages, chain: seq<PageId>, k: nat, slot: nat, e: Entry)
    requires k < |chain| && chain[k] < |s| && slot <= |s[chain[k]].entries|
    requires forall i :: 0 <= i < |chain| && i != k ==> EntriesOf(s', chain[i]) == EntriesOf(s, chain[i])
    requires EntriesOf(s', chain[k]) == InsertAt(s[chain[k]].entries, slot, e)
    ensures var es, at := Contents(s, chain), Position(s, chain, k, slot);
            at <= |es| && Contents(s', chain) == InsertAt(es, at, e)
  {
    hide Contents;
    ContentsAt(s, chain, k);
    ContentsUpdate(s, s', chain, k);
    InsertInMiddle(Contents(s, chain[..k]), s[chain[k]].entries, Contents(s, chain[k + 1..]), slot, e);
  }

  lemma DeleteContents(s: Pages, s': Pages, chain: seq<PageId>, k: nat, slot: nat)
    requires k < |chain| && chain[k] < |s| && slot < |s[chain[k]].entries|
    requires forall i :: 0 <= i < |chain| && i != k ==> EntriesOf(s', chain[i]) == EntriesOf(s, chain[i])
    requires EntriesOf(s', chain[k]) == RemoveAt(s[chain[k]].entries, slot)
    ensures var es, at := Contents(s, chain), Position(s, chain, k, slot);
            && at < |es| && es[at] == s[chain[k]].entries[slot]
            && Contents(s', chain) == RemoveAt(es, at)
  {
    hide Contents;
    ContentsAt(s, chain, k);
    ContentsUpdate(s, s', chain, k);
    RemoveInMiddle(Contents(s, chain[..k]), s[chain[k]].entries, Contents(s, chain[k + 1..]), slot);
  }

  lemma RemovalKeepsSorted(es: seq<Entry>, at: nat)
    requires Sorted(es) && at < |es|
    ensures Sorted(RemoveAt(es, at))
    ensures forall e :: e in RemoveAt(es, at) <==> e in es && e != es[at]
  {
    var es' := RemoveAt(es, at);
    forall e | e in es' ensures e in es && e != es[at] {
      var i :| 0 <= i < |es'| && es'[i] == e;
      EntryTrichotomy(e, es[at]);
      assert if i < at then e == es[i] else e == es[i + 1];
    }
    forall e | e in es && e != es[at] ensures e in es' {
      var i :| 0 <= i < |es| && es[i] == e;
      assert if i < at then es'[i] == e else es'[i - 1] == e;
    }
  }
}

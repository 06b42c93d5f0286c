/** Content refinement: every logged step of the index acts on the sorted set
    its leaf chain spells out (crates/pg-am-btree/src/index.rs). */
module BtreeContent {
  import opened Keys
  import opened Outcome
  import opened Sequences
  import opened BtreePages
  import opened BtreeLog
  import opened BtreeChain

  /** The conclusion about one step. */
  ghost predicate Refines(s: Pages, chain: seq<PageId>, r: Record, s': Pages)
  {
    && SpineInv(s', NextChain(chain, r)) && (Hinted(s, chain) ==> Hinted(s', NextChain(chain, r)))
    && Contents(s', NextChain(chain, r)) == NextContents(s, chain, r)
  }

  /** Only leaf `k` may differ. */
  ghost predicate SameElsewhere(s: Pages, s': Pages, chain: seq<PageId>, k: nat)
  {
    && |s| <= |s'|
    && forall i :: 0 <= i < |chain| && i != k && chain[i] < |s| ==> s'[chain[i]] == s[chain[i]]
  }

  /** The edit of a leaf that keeps its links, never sets SPLIT_INCOMPLETE,
      never frees tuple space, and takes nothing from a page awaiting its
      Copy. */
  ghost predicate Edit(s: Pages, p: PageId, page': Page)
    requires p < |s|
  {
    && SameLinksAt(s[p], page')
    && (page'.flags.splitIncomplete ==> s[p].flags.splitIncomplete)
    && (NeverHadEntries(page') ==> NeverHadEntries(s[p]))
    && (AwaitsCopy(s, p) ==> |page'.entries| >= |s[p].entries|)
  }

  lemma EditKeepsTwin(s: Pages, s': Pages, chain: seq<PageId>, k: nat, i: nat)
    requires SpineInv(s, chain) && k < |chain| && i < |chain|
    requires SameElsewhere(s, s', chain, k) && chain[k] < |s| && Edit(s, chain[k], s'[chain[k]])
    ensures TwinAt(s', chain, i)
  {
    hide Contents;
    hide NextAt;
    hide Accounted;
    assert TwinAt(s, chain, i);
    InFile(s, chain, i);
    if s'[chain[i]].flags.splitIncomplete {
      InFile(s, chain, i + 1);
    }
  }

  lemma EditStep(s: Pages, s': Pages, chain: seq<PageId>, k: nat)
    requires SpineInv(s, chain) && k < |chain|
    requires SameElsewhere(s, s', chain, k) && chain[k] < |s| && Edit(s, chain[k], s'[chain[k]])
    requires Sorted(Contents(s', chain))
    ensures SpineInv(s', chain) && (Hinted(s, chain) ==> Hinted(s', chain))
  {
    hide Contents;
    assert forall i :: 0 <= i < |chain| && chain[i] < |s| ==> SameLinksAt(s[chain[i]], s'[chain[i]]);
    SameLinksKeepChain(s, s', chain);
    forall i | 0 <= i < |chain| ensures TwinAt(s', chain, i) {
      EditKeepsTwin(s, s', chain, k, i);
    }
  }

  /** A record that leaves the entries of every leaf alone. */
  lemma QuietStep(s: Pages, s': Pages, chain: seq<PageId>, k: nat)
    requires SpineInv(s, chain) && k < |chain|
    requires SameElsewhere(s, s', chain, k) && chain[k] < |s| && Edit(s, chain[k], s'[chain[k]])
    requires s'[chain[k]].entries == s[chain[k]].entries
    ensures SpineInv(s', chain) && (Hinted(s, chain) ==> Hinted(s', chain))
    ensures Contents(s', chain) == Contents(s, chain)
  {
    hide Contents;
    forall i | 0 <= i < |chain| ensures EntriesOf(s', chain[i]) == EntriesOf(s, chain[i]) {
      assert NextAt(s, chain, i);
    }
    ContentsFrame(s, s', chain);
    EditStep(s, s', chain, k);
  }

  /** A record that changes no leaf. */
  lemma ElsewhereStep(s: Pages, s': Pages, chain: seq<PageId>)
    requires SpineInv(s, chain) && |s| <= |s'|
    requires forall i :: 0 <= i < |chain| && chain[i] < |s| ==> s'[chain[i]] == s[chain[i]]
    ensures SpineInv(s', chain) && (Hinted(s, chain) ==> Hinted(s', chain))
    ensures Contents(s', chain) == Contents(s, chain)
  {
    hide Contents;
    hide TotalBytes;
    assert NextAt(s, chain, 0);
    QuietStep(s, s', chain, 0);
  }

  lemma InsertIsEdit(s: Pages, r: Record, lsn: Lsn, s': Pages)
    requires r.Insert? && Appended(s, r, lsn, s') && Accounted(s[r.page])
    ensures r.slot <= |s[r.page].entries| && |s'| == |s|
    ensures s' == s[r.page := s'[r.page]] && Edit(s, r.page, s'[r.page])
    ensures s'[r.page].entries == InsertAt(s[r.page].entries, r.slot, r.entry)
  {
    InsertKeepsAccounted(s[r.page], r.slot, r.entry);
    hide TotalBytes;
  }

  lemma InsertStep(s: Pages, chain: seq<PageId>, r: Record, lsn: Lsn, s': Pages)
    requires r.Insert? && SpineInv(s, chain) && Appended(s, r, lsn, s') && Disciplined(s, chain, r)
    ensures Refines(s, chain, r, s')
  {
    hide TotalBytes;
    hide Contents;
    if r.page in chain {
      hide Online;
      hide Edit;
      var k := IndexOf(chain, r.page);
      assert NextAt(s, chain, k);
      InsertIsEdit(s, r, lsn, s');
      assert forall i :: 0 <= i < |chain| && i != k ==> EntriesOf(s', chain[i]) == EntriesOf(s, chain[i]);
      InsertContents(s, s', chain, k, r.slot, r.entry);
      PlacedKeepsSorted(Contents(s, chain), Position(s, chain, k, r.slot), r.entry);
      EditStep(s, s', chain, k);
    } else {
      ElsewhereStep(s, s', chain);
    }
  }

  lemma DeleteIsEdit(s: Pages, r: Record, lsn: Lsn, s': Pages)
    requires r.Delete? && Appended(s, r, lsn, s') && Accounted(s[r.page]) && !AwaitsCopy(s, r.page)
    ensures r.slot < |s[r.page].entries| && |s'| == |s|
    ensures s' == s[r.page := s'[r.page]] && Edit(s, r.page, s'[r.page])
    ensures s'[r.page].entries == RemoveAt(s[r.page].entries, r.slot)
  {
    RemoveKeepsAccounted(s[r.page], r.slot);
    hide TotalBytes;
  }

  lemma DeleteStep(s: Pages, chain: seq<PageId>, r: Record, lsn: Lsn, s': Pages)
    requires r.Delete? && SpineInv(s, chain) && Appended(s, r, lsn, s') && Disciplined(s, chain, r)
    ensures Refines(s, chain, r, s')
  {
    hide TotalBytes;
    hide Contents;
    if r.page in chain {
      hide Online;
      hide Edit;
      var k := IndexOf(chain, r.page);
      assert NextAt(s, chain, k);
      DeleteIsEdit(s, r, lsn, s');
      assert forall i :: 0 <= i < |chain| && i != k ==> EntriesOf(s', chain[i]) == EntriesOf(s, chain[i]);
      DeleteContents(s, s', chain, k, r.slot);
      RemovalKeepsSorted(Contents(s, chain), Position(s, chain, k, r.slot));
      EditStep(s, s', chain, k);
    } else {
      ElsewhereStep(s, s', chain);
    }
  }

  lemma ImageIsEdit(s: Pages, r: Record, lsn: Lsn, s': Pages)
    requires r.Image? && Appended(s, r, lsn, s') && r.image == s[r.page].(lsn := r.image.lsn)
    ensures |s'| == |s| && s' == s[r.page := s'[r.page]] && Edit(s, r.page, s'[r.page])
    ensures s'[r.page].entries == s[r.page].entries
  {
    hide TotalBytes;
  }

  lemma ImageStep(s: Pages, chain: seq<PageId>, r: Record, lsn: Lsn, s': Pages)
    requires r.Image? && SpineInv(s, chain) && Appended(s, r, lsn, s') && Disciplined(s, chain, r)
    ensures Refines(s, chain, r, s')
  {
    hide TotalBytes;
    hide Contents;
    if r.page in chain {
      hide Online;
      hide Edit;
      var k := IndexOf(chain, r.page);
      InFile(s, chain, k);
      ImageIsEdit(s, r, lsn, s');
      QuietStep(s, s', chain, k);
    } else {
      ElsewhereStep(s, s', chain);
    }
  }

  lemma CommitStep(s: Pages, chain: seq<PageId>, r: Record, lsn: Lsn, s': Pages)
    requires r.Commit? && SpineInv(s, chain) && Appended(s, r, lsn, s') && Disciplined(s, chain, r)
    ensures Refines(s, chain, r, s')
  {
    hide TotalBytes;
    hide Contents;
    var k := if r.left in chain then IndexOf(chain, r.left) else 0;
    assert NextAt(s, chain, k);
    QuietStep(s, s', chain, k);
  }

  /** What Prepare does to the file. */
  ghost predicate Prepared(s: Pages, chain: seq<PageId>, k: nat, right: PageId, s': Pages)
  {
    && k < |chain| && |s'| == |s| && 0 < right < |s| && right !in chain && chain[k] < |s|
    && (forall i :: 0 <= i < |chain| && i != k && chain[i] < |s| ==> s'[chain[i]] == s[chain[i]])
    && !s[chain[k]].flags.splitIncomplete && |s[chain[k]].entries| >= 2
    && s'[chain[k]] == s[chain[k]].(lsn := s'[chain[k]].lsn, next := right,
                                    flags := s[chain[k]].flags.(splitIncomplete := true))
    && s'[right] == InitRightPage(chain[k], s[chain[k]].next, 0).(lsn := s'[right].lsn)
  }

  function Linked(chain: seq<PageId>, k: nat, right: PageId): seq<PageId>
    requires k < |chain|
  {
    chain[..k + 1] + [right] + chain[k + 1..]
  }

  lemma LinkedElements(chain: seq<PageId>, k: nat, right: PageId)
    requires k < |chain|
    ensures forall p :: p in Linked(chain, k, right) <==> p in chain || p == right
  {
    assert chain == chain[..k + 1] + chain[k + 1..];
  }

  lemma PrefixGrows(chain: seq<PageId>, k: nat, right: PageId, i: nat, p: PageId)
    requires k + 1 < i <= |chain| && p in chain[..i - 1]
    ensures p in Linked(chain, k, right)[..i]
  {
    var j :| 0 <= j < i - 1 && chain[j] == p;
    assert Linked(chain, k, right)[if j <= k then j else j + 1] == p;
  }

  lemma PreparedLink(s: Pages, chain: seq<PageId>, k: nat, right: PageId, s': Pages, i: nat)
    requires Spine(s, chain) && Prepared(s, chain, k, right, s') && i <= |chain|
    ensures NextAt(s', Linked(chain, k, right), i)
    ensures Hinted(s, chain) ==> HintAt(s', Linked(chain, k, right), i)
  {
    var chain' := Linked(chain, k, right);
    assert NextAt(s, chain, k);
    if i <= k + 1 {
      assert i <= k ==> NextAt(s, chain, i);
      assert chain'[..i] == chain[..i];
      assert Hinted(s, chain) && i <= k ==> HintAt(s, chain, i);
    } else {
      assert NextAt(s, chain, i - 1);
      if Hinted(s, chain) {
        assert HintAt(s, chain, i - 1);
        PrefixGrows(chain, k, right, i, s[chain[i - 1]].prev);
      }
    }
  }

  lemma PreparedTwin(s: Pages, chain: seq<PageId>, k: nat, right: PageId, s': Pages, i: nat)
    requires SpineInv(s, chain) && Prepared(s, chain, k, right, s') && i <= |chain|
    ensures TwinAt(s', Linked(chain, k, right), i)
  {
    hide Contents;
    hide NextAt;
    hide Accounted;
    var chain' := Linked(chain, k, right);
    if chain'[i] < |s'| && s'[chain'[i]].flags.splitIncomplete && i != k {
      var i0 := if i < k then i else i - 1;
      assert TwinAt(s, chain, i0);
      InFile(s, chain, i0);
      assert chain'[i + 1] == if i0 + 1 == k + 1 then right else chain[i0 + 1];
      InFile(s, chain, i0 + 1);
    }
  }

  lemma EmptyLeafContents(s: Pages, a: seq<PageId>, p: PageId, b: seq<PageId>)
    requires EntriesOf(s, p) == []
    ensures Contents(s, a + [p] + b) == Contents(s, a + b)
  {
    assert Contents(s, [p]) == [];
    hide Contents;
    ContentsConcat(s, a, b);
    ContentsConcat(s, a + [p], b);
    ContentsConcat(s, a, [p]);
  }

  lemma PreparedContents(s: Pages, chain: seq<PageId>, k: nat, right: PageId, s': Pages)
    requires Spine(s, chain) && Prepared(s, chain, k, right, s')
    ensures Contents(s', Linked(chain, k, right)) == Contents(s, chain)
  {
    hide Contents;
    assert chain == chain[..k + 1] + chain[k + 1..];
    ContentsFrame(s, s', chain);
    EmptyLeafContents(s', chain[..k + 1], right, chain[k + 1..]);
  }

  lemma PreparedStep(s: Pages, chain: seq<PageId>, k: nat, right: PageId, s': Pages)
    requires SpineInv(s, chain) && Prepared(s, chain, k, right, s')
    ensures SpineInv(s', Linked(chain, k, right)) && (Hinted(s, chain) ==> Hinted(s', Linked(chain, k, right)))
    ensures Contents(s', Linked(chain, k, right)) == Contents(s, chain)
  {
    hide TotalBytes;
    hide Contents;
    hide NextAt;
    hide HintAt;
    hide TwinAt;
    var chain' := Linked(chain, k, right);
    forall i | 0 <= i < |chain'|
      ensures NextAt(s', chain', i) && TwinAt(s', chain', i) && (Hinted(s, chain) ==> HintAt(s', chain', i))
    {
      PreparedLink(s, chain, k, right, s', i);
      PreparedTwin(s, chain, k, right, s', i);
    }
    PreparedContents(s, chain, k, right, s');
  }

  lemma PrepareIsPrepared(s: Pages, chain: seq<PageId>, k: nat, r: Record, lsn: Lsn, s': Pages)
    requires r.Prepare? && Appended(s, r, lsn, s') && 0 < r.right && r.right !in chain
    requires k < |chain| && chain[k] == r.left && s[r.left].level == 0
    requires forall i, j :: 0 <= i < j < |chain| ==> chain[i] != chain[j]
    ensures Prepared(s, chain, k, r.right, s')
  {}

  lemma PrepareFrame(s: Pages, r: Record, lsn: Lsn, s': Pages)
    requires r.Prepare? && Appended(s, r, lsn, s')
    ensures |s'| == |s| && forall p :: 0 <= p < |s| && p != r.left && p != r.right ==> s'[p] == s[p]
  {}

  lemma PrepareOnChain(s: Pages, chain: seq<PageId>, k: nat, r: Record, lsn: Lsn, s': Pages)
    requires r.Prepare? && SpineInv(s, chain) && Appended(s, r, lsn, s') && 0 < r.right && r.right !in chain
    requires k < |chain| && chain[k] == r.left
    ensures Prepared(s, chain, k, r.right, s')
  {
    assert NextAt(s, chain, k);
    hide Contents;
    hide Prepared;
    hide Appended;
    hide TwinAt;
    PrepareIsPrepared(s, chain, k, r, lsn, s');
  }

  lemma PrepareOffChain(s: Pages, chain: seq<PageId>, r: Record, lsn: Lsn, s': Pages)
    requires r.Prepare? && SpineInv(s, chain) && Appended(s, r, lsn, s') && r.right !in chain && r.left !in chain
    ensures SpineInv(s', chain) && (Hinted(s, chain) ==> Hinted(s', chain)) && Contents(s', chain) == Contents(s, chain)
  {
    hide SpineInv;
    hide Hinted;
    hide Contents;
    PrepareFrame(s, r, lsn, s');
    hide Appended;
    ElsewhereStep(s, s', chain);
  }

  lemma PrepareStep(s: Pages, chain: seq<PageId>, r: Record, lsn: Lsn, s': Pages)
    requires r.Prepare? && SpineInv(s, chain) && Appended(s, r, lsn, s') && Disciplined(s, chain, r)
    ensures Refines(s, chain, r, s')
  {
    hide SpineInv;
    hide Hinted;
    hide Contents;
    hide Prepared;
    hide Appended;
    if r.left in chain {
      var k := IndexOf(chain, r.left);
      PrepareOnChain(s, chain, k, r, lsn, s');
      PreparedStep(s, chain, k, r.right, s');
    } else {
      PrepareOffChain(s, chain, r, lsn, s');
    }
  }

  /** What Copy does to the two pages: the suffix moves, and neither page can
      pass for one that never had entries. */
  lemma CopyResult(left: Page, right: Page, start: nat)
    requires Accounted(right) && right.entries == [] && right.level == left.level && start < |left.entries|
    requires ApplySplitCopy(left, right, start, true).Ok?
    ensures var (l, r) := ApplySplitCopy(left, right, start, true).value;
            && l == left.(entries := left.entries[..start], upper := l.upper)
            && Accounted(l) && !NeverHadEntries(l)
            && r == right.(entries := left.entries[start..], upper := r.upper)
            && Accounted(r) && !NeverHadEntries(r)
  {
    AppendAllExact(right, left.entries[start..]);
    AppendAllExact(InitPage(left.level, left.flags), left.entries[..start]);
    assert [] + left.entries[..start] == left.entries[..start];
    assert [] + left.entries[start..] == left.entries[start..];
  }

  /** What Copy does to the file. */
  ghost predicate Copied(s: Pages, chain: seq<PageId>, k: nat, start: nat, s': Pages)
  {
    && k + 1 < |chain| && |s'| == |s| && chain[k] < |s| && chain[k + 1] < |s|
    && (forall i :: 0 <= i < |chain| && i != k && i != k + 1 && chain[i] < |s| ==> s'[chain[i]] == s[chain[i]])
    && start < |s[chain[k]].entries| && s[chain[k + 1]].entries == []
    && CopiedPage(s[chain[k]], s'[chain[k]], s[chain[k]].entries[..start])
    && CopiedPage(s[chain[k + 1]], s'[chain[k + 1]], s[chain[k]].entries[start..])
  }

  ghost predicate CopiedPage(p: Page, p': Page, es: seq<Entry>)
  {
    && SameLinksAt(p, p') && p'.flags == p.flags && p'.entries == es && !NeverHadEntries(p')
  }

  lemma CopiedTwin(s: Pages, chain: seq<PageId>, k: nat, start: nat, s': Pages, i: nat)
    requires SpineInv(s, chain) && Copied(s, chain, k, start, s') && i < |chain|
    ensures TwinAt(s', chain, i)
  {
    hide Contents;
    hide NextAt;
    hide Accounted;
    assert TwinAt(s, chain, i);
    InFile(s, chain, i);
    if s'[chain[i]].flags.splitIncomplete {
      InFile(s, chain, i + 1);
    }
  }

  lemma CopiedContents(s: Pages, chain: seq<PageId>, k: nat, start: nat, s': Pages)
    requires Copied(s, chain, k, start, s')
    requires forall i, j :: 0 <= i < j < |chain| ==> chain[i] != chain[j]
    ensures Contents(s', chain) == Contents(s, chain)
  {
    hide Contents;
    var a, b := chain[..k], chain[k + 2..];
    assert chain == a + [chain[k], chain[k + 1]] + b;
    PairContents(s, a, chain[k], chain[k + 1], b);
    PairContents(s', a, chain[k], chain[k + 1], b);
    ContentsFrame(s, s', a);
    ContentsFrame(s, s', b);
    MoveSuffix(Contents(s, a), s[chain[k]].entries, start, Contents(s, b));
  }

  lemma PairContents(s: Pages, a: seq<PageId>, p: PageId, q: PageId, b: seq<PageId>)
    ensures Contents(s, a + [p, q] + b)
            == Contents(s, a) + EntriesOf(s, p) + EntriesOf(s, q) + Contents(s, b)
  {
    assert Contents(s, [p]) == EntriesOf(s, p);
    assert Contents(s, [q]) == EntriesOf(s, q);
    hide Contents;
    ContentsConcat(s, a + [p, q], b);
    ContentsConcat(s, a, [p, q]);
    assert [p, q] == [p] + [q];
    ContentsConcat(s, [p], [q]);
    ConcatAssociative(Contents(s, a), EntriesOf(s, p), EntriesOf(s, q));
  }

  lemma CopyIsCopied(s: Pages, chain: seq<PageId>, k: nat, r: Record, lsn: Lsn, s': Pages)
    requires r.Copy? && Spine(s, chain) && Appended(s, r, lsn, s')
    requires k + 1 < |chain| && chain[k] == r.left && chain[k + 1] == r.right
    requires r.right < |s| && s[r.right].entries == [] && r.left < |s| && r.start < |s[r.left].entries|
    ensures Copied(s, chain, k, r.start, s')
  {
    hide TotalBytes;
    assert NextAt(s, chain, k) && NextAt(s, chain, k + 1);
    CopyResult(s[r.left], s[r.right], r.start);
    hide ApplySplitCopy;
    hide NextAt;
  }

  lemma CopyStep(s: Pages, chain: seq<PageId>, r: Record, lsn: Lsn, s': Pages)
    requires r.Copy? && SpineInv(s, chain) && Appended(s, r, lsn, s') && Disciplined(s, chain, r)
    ensures Refines(s, chain, r, s')
  {
    hide Contents;
    if r.left in chain {
      hide Online;
      var k := IndexOf(chain, r.left);
      assert NextAt(s, chain, k) && TwinAt(s, chain, k);
      CopyIsCopied(s, chain, k, r, lsn, s');
      CopiedStep(s, chain, k, r.start, s');
    } else {
      ElsewhereStep(s, s', chain);
    }
  }

  lemma CopiedStep(s: Pages, chain: seq<PageId>, k: nat, start: nat, s': Pages)
    requires SpineInv(s, chain) && Copied(s, chain, k, start, s')
    ensures SpineInv(s', chain) && (Hinted(s, chain) ==> Hinted(s', chain))
    ensures Contents(s', chain) == Contents(s, chain)
  {
    hide Contents;
    assert forall i :: 0 <= i < |chain| && chain[i] < |s| ==> SameLinksAt(s[chain[i]], s'[chain[i]]);
    SameLinksKeepChain(s, s', chain);
    CopiedContents(s, chain, k, start, s');
    forall i | 0 <= i < |chain| ensures TwinAt(s', chain, i) {
      CopiedTwin(s, chain, k, start, s', i);
    }
  }

  /** One record of any kind. */
  lemma StepRefines(s: Pages, chain: seq<PageId>, r: Record, lsn: Lsn, s': Pages)
    requires SpineInv(s, chain) && Appended(s, r, lsn, s') && Disciplined(s, chain, r)
    ensures Refines(s, chain, r, s')
  {
    hide *;
    match r
    case Image(_, _) => ImageStep(s, chain, r, lsn, s');
    case Insert(_, _, _, _, _) => InsertStep(s, chain, r, lsn, s');
    case Delete(_, _) => DeleteStep(s, chain, r, lsn, s');
    case Prepare(_, _, _, _, _) => PrepareStep(s, chain, r, lsn, s');
    case Copy(_, _, _, _) => CopyStep(s, chain, r, lsn, s');
    case Commit(_, _, _, _, _) => CommitStep(s, chain, r, lsn, s');
  }
}

/** A leaf whose room is taken up by deleted entries
    (crates/pg-am-btree/src/page.rs, `remove_entry_at`): their bytes are only
    reclaimed by a split, and a split needs two entries. */
module BtreeClutter {
  import opened Outcome
  import opened BtreePages
  import opened BtreeLog
  import opened BtreeChain
  import opened BtreeContent
  import opened BtreeSearch
  import opened BtreeWalk
  import opened BtreePlacement
  import opened BtreeRound
  import opened BtreeReady
  import opened BtreeSplit
  import opened BtreeTidy
  import opened BtreeClimb
  import opened BtreeIndex

  // An index of one leaf (page 2), from which every entry was deleted.
  const FULL_LEAF := InitPage(0, Flags(true, true, false)).(upper := 40)
  const CLUTTERED: Pages :=
    [ZERO_PAGE, InitPage(0, Flags(false, false, false)).(entries := [Entry([], 2, 0)], upper := PD_SPECIAL - 10), FULL_LEAF, ZERO_PAGE]

  lemma ClutteredChain()
    ensures TreeInv(CLUTTERED, [2]) && Settled(CLUTTERED, [2]) && Contents(CLUTTERED, [2]) == []
  {
    var s := CLUTTERED;
    assert [2][1..] == [] && Contents(s, []) == [];
    assert LinkedAt(s, [2], 0);
  }

  lemma ClutteredUnflagged()
    ensures forall p :: 0 <= p < |CLUTTERED| ==>
              CLUTTERED[p].lsn == 0 && CLUTTERED[p].level == 0 && !CLUTTERED[p].flags.splitIncomplete
  {}

  lemma ClutteredReady()
    ensures OnlineReady(CLUTTERED, [2]) && Upper(CLUTTERED, [2], {}, [3], 1)
  {
    ClutteredChain();
    ClutteredUnflagged();
    hide SpineInv;
    hide Hinted;
    hide Contents;
  }

  lemma NoRoom(e: Entry)
    ensures Place(CLUTTERED, 2, e, 0) == Ok((2, 0)) && !HasSpace(CLUTTERED, 2, e)
  {}

  lemma Belongs(e: Entry)
    ensures BelongsHere(CLUTTERED, [2], 2, e)
  {}

  /** The index is empty and sound, and refuses every pair: the optimistic pass
      finds no room, the pessimistic one cannot split. */
  method EmptyIndexRefuses(e: Entry) returns (idx: Index, tried: Result<bool>, r: Result<Pass>)
    requires |e.key| <= MAX_INDEX_KEY_BYTES
    ensures idx.Valid() && Contents(idx.pages, idx.chain) == []
    ensures tried == Ok(false) && r == Err(Corrupted)
  {
    ClutteredChain();
    ClutteredReady();
    ClutteredUnflagged();
    NoRoom(e);
    Belongs(e);
    hide Place;
    hide BelongsHere;
    hide HasSpace;
    hide Misled;
    hide TidyPages;
    hide CarefulTo;
    hide PlacesNow;
    hide PlacesLater;
    hide NoneFlagged;
    hide Settled;
    hide TreeInv;
    hide Upper;
    hide Contents;
    hide OnlineReady;
    hide RunsTo;
    hide ImagesKnown;
    idx := new Index(CLUTTERED, 1, [3], [2], {});
    assert [2][0] == 2;
    tried := idx.TryInsert(e, 2);
    r := idx.InsertPessimistic(e, 2, []);
  }
}

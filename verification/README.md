# A verified model of the B+Tree, the heap and their recovery

This project models three parts of a database kernel and proves what they
promise: the Blink-style B+Tree with its crash recovery
(`crates/pg-am-btree`), the heap's row locks, HOT chains and redo
(`crates/pg-am-heap`), and the slotted pages and codecs under both.

Everything is stated for all inputs and all runs. Where a promise of the code
does not hold for all of them, the code is modelled as it is, a lemma gives a
concrete state in which it fails, and another says exactly when it holds.

## How it is put together

- **Pages and log.** `BtreePages` has pages as sequences of entries;
  `SlottedBytes`, `SlottedArrays` and `BtreeBytes` tie them to the 8192 bytes.
  `BtreeLog` has the WAL records, what each does when it is written and what
  its redo handler does. An LSN is a position in the log.
- **Redo.** `BtreeReplay` proves convergence of replay from any crash image,
  `BtreeDurability` that over every run of writes, flushes, WAL syncs, crashes
  (also during recovery) and replay steps, `BtreeRedo` has the handlers and the
  incomplete-split tracker as they run.
- **Meaning.** `BtreeChain`, `BtreeContent` and `BtreeRuns` read the leaf chain
  as a sorted set and prove every logged step, every run and every recovery to
  act on that set. `BtreeWalk`, `BtreeReads` and `BtreePlacement` prove the
  walks, `BtreeDescent` the descent from the root; `BtreeSearch` the page
  searches and the split point.
- **Online operations.** `BtreeSplit`, `BtreeTidy` and `BtreeIndex` have the
  index object: delete, the optimistic and the pessimistic insert, the three
  split steps, the commit cascade and root promotion. Its methods produce exactly
  the disciplined runs that the theorems above are about. `BtreeClimb` says when
  a split gets through and what its downlink is, `BtreeClutter` has a leaf that
  cannot be split.
- **Undo.** `BtreeFinish` and `BtreeFinishContent` have the compensation record,
  `BtreeScan` the searches for a parent and for the meta page, `BtreeCascade` the
  parent cascade, `BtreeUndo` the pass. Two layers of lemmas carry them. In any
  file whose leaf chain is intact, a round finishes its split and keeps the chain
  (`BtreeClr`, `BtreeRound`). In a *sound* file (internal pages sorted, pending
  splits well formed) a round succeeds exactly when `Finishable` says so
  (`BtreeInner`, `BtreeFresh`, `BtreePending`, `BtreeSound`). `BtreeRooted` has
  what the cascade does to the tree above the split: no downlink is lost and
  every page stays under a published root; `BtreeFence` where the new downlink
  leads a descent. From `BtreeRooted` `BtreeAssured` gives a
  condition on the file alone under which every pass succeeds. `BtreeRefusals`
  has the files it cannot finish.
- **Recovery.** `BtreeReady` proves that after every prefix of every run the file
  is one the undo pass can work on, `BtreeCareful` that it is sound,
  `BtreeRecovery` composes redo and undo. `BtreeIndex.Index.CrashAndRecover` is
  that for the index object: any crash, at any record, of anything its methods
  did. `BtreeEvents` has the log the undo pass writes itself, record by record,
  and its replay; `BtreeInterrupted` recovers from a crash in the middle of
  recovery, any number of times over. `BtreeImages` is the page-image rule.
- **Bulk load.** `BulkLoad`.
- **Heap.** `RowLocks` (the lock protocol as a state machine over its lookups,
  with other transactions ending in between) and `RowLockGate` (the gate as it
  runs), `HotChains`, `GatedUpdates` (the two together), `HeapRedo`, `HeapTable`
  `HeapBytes`, `TupleCodec` and `Utf8Text`.

## Where the code falls short of what it promises

- **A recycled page can stop redo** (`BtreeReplay.RecycledRightPageRefused`).
  Page images are replayed whatever the page holds. If a page was imaged, freed
  and handed out again as a split's right page, replay throws it back, and redo
  of the Copy refuses although both halves are on disk.
  `BtreeReplay.ReplayConverges` has the exact condition.
- **An insert can land out of order** (`BtreePlacement.BlindHintMisplaces`).
  `nearest_nonempty_left` looks from the `prev` hint on; its documentation says
  it finds the true nearest non-empty page. If every leaf from the hint on was
  drained, a pair of a duplicate run lands right of a larger one.
  `BtreePlacement.PlacementIff` has the exact condition.
- **A duplicate pair can be accepted** (`BtreePlacement.DuplicateAccepted`),
  exactly when the walk stops short (`BtreePlacement.DuplicateIff`): at a blind
  hint, or because the pair is the last of its leaf and the comparison with a
  left neighbour is strict.
- **A locate walk gives up on sound chains** (`BtreeWalk.DrainedTailRefusedIff`):
  it rescans to the right after every left hop, so its hops grow with the square
  of the number of drained leaves; 359 drained leaves are answered, 360 are
  reported as corruption.
- **A scan of everything refuses a large index** (`BtreeReads.RangeScan`,
  `BulkLoad.BuildThenScan`): the hop bound is counted over the whole scan, so a
  packed chain is answered if and only if it has at most 65,537 leaves.
  `BulkLoad.LongKeysRefused` has inputs that fill more from 196,612 entries on,
  `BulkLoad.SmallInputScans` says that 196,609 entries never do.
- **Deletes can make a leaf refuse every insert**
  (`BtreeClutter.EmptyIndexRefuses`). The bytes of a deleted entry are reclaimed
  by the next split, and a split needs two entries. A leaf that has fewer and no
  room left is full for good: the optimistic pass finds no room and the
  pessimistic one reports corruption (`BtreeIndex.Index.InsertPessimistic`).
- **The meta search can answer the wrong page** (`BtreeScan.MetaSearchMisled`).
  It takes the first page without flags whose last entry has the ten bytes of a
  meta record of the root, and a downlink with a two-byte key has ten bytes. The
  undo pass then publishes the new root on an internal page
  (`BtreeRefusals.MisledRound`). `BtreeScan.MetaSearchIff` has the exact
  condition; a root below page 65,536 is never missed.
- **Recovery can refuse a finished Copy** (`BtreeRefusals.MedianRefusal`): the
  undo pass looks up the median slot before it knows the plan, which fails for a
  left page of fewer than two entries. No plan would have used the slot
  (`BtreeRefusals.MedianRefused`).
- **Recovery can refuse nested splits** (`BtreeRefusals.NestedRefusal`). After a
  commit cascade that gave up, the right page of the unfinished split is full in
  turn and is split, and the parentage test refuses its Commit. Both are pending
  at the crash, the inner one has no parent.
  `BtreeRefusals.NestedFinishable` and `BtreeRefusals.OuterFinished` say exactly
  when they can be finished.
- **Recovery refuses a published promotion** (`BtreeRefusals.PromotionLost`):
  after a crash between the meta record of `create_new_root` and the Commit, the
  old root is still flagged as a root and no meta page names it, so a pass that
  begins with it is refused unless the right page was drained.
  `BtreeRefusals.PromotionRefusal` runs one; `BtreeIndex.Index.CreateNewRoot`
  leaves such a file and `BtreeIndex.Index.CrashAfterPublishing` is the crash.
- **Undo can leave a wrong hint** (`BtreeRefusals.StaleHint`). Unlinking a drained
  right page repairs no `prev` hint, so the hints stay sound if and only if no
  leaf names that page (`BtreeFinishContent.UnlinkHints`).
- **An empty key as a separator** (`BtreeInner.EmptySeparator`,
  `BtreeInner.RootPairSorted`): `encode_key` maps an empty string to the empty
  key, which is also the marker in slot 0 of an internal page. The two sort by
  page id, so the downlink of the right page goes behind the left one's if and
  only if its page id is larger.
- **A cross-page update can lose its own share lock**
  (`RowLocks.FirstPassKeepsIff`, `RowLocks.FirstPassLosesShare`): the first gate
  pass retires the share set before the latch is dropped.

Smaller disagreements, where the model follows the code: a comment in `page.rs`
says that a page of zeros passes the geometry check, the check rejects it;
`HeapAM::redo_handlers` lists three handlers, `heap_redo_handlers` four.

## Assumptions

The buffer pool, the WAL writer, the commit log and the transaction manager are
represented by what the code relies on: latched page access, LSNs that increase,
a WAL synced up to a page's LSN before the page is written, and a commit log
that is flipped before a transaction leaves the active set. Page allocation,
the outcome of a write descent, command ids and the ends of other transactions
are parameters. The allocator hands out no page that the tree or a pending split
still refers to.

## Model

| member | source | states |
|---|---|---|
| Keys.EncodeIntRoundTrip | crates/pg-am-btree/src/key.rs:93-111 | decoding an encoded signed integer of any width gives it back |
| Keys.EncodeIntOrder | crates/pg-am-btree/src/key.rs:93-111 | byte-wise order of the encodings is the numeric order, for every width |
| Keys.KeyLessIff | crates/pg-am-btree/src/index.rs:3073-3084 | one key sorts below another if and only if at the first difference it has ended or has the smaller byte |
| Keys.CommonPrefix | crates/pg-am-btree/src/index.rs:3073-3084 | a common prefix does not matter for the order |
| Keys.PrefixIsRange | crates/pg-am-btree/src/key.rs:44-60 | the keys that begin with a string are exactly those from it on that sort below the string with its last byte raised |
| BtreePages.AppendAllExact | crates/pg-am-heap/src/slotted_page.rs:223-303 | appending a list of entries succeeds exactly when their bytes and line pointers fit, and then adds just them in order |
| BtreePages.RebuildExact | crates/pg-am-btree/src/index.rs:2851-2901 | re-packing a prefix of a page never runs out of room and leaves exactly that prefix |
| BtreeLog.OnlineFrame | crates/pg-am-btree/src/index.rs:2186-2211 | a record changes just the pages it names and stamps those with its LSN |
| BtreeReplay.RedoIsExact | crates/pg-am-btree/src/redo.rs:87-381 | redo brings exactly the touched pages that are behind up to the online pages, and fails only for a Copy whose left page alone is past it |
| BtreeReplay.ReplayConverges | crates/pg-am-btree/src/redo.rs:87-381 | for every online run, per-page crash image and redo point: replay succeeds if and only if no Copy finds its left page alone ahead, and then ends in exactly the online pages |
| BtreeReplay.ReplayPast | crates/pg-am-btree/src/redo.rs:87-381 | the same over an image some of whose pages were written after the end of the log: those stay unless an image throws them back, every other page ends online |
| BtreeReplay.FlushOrderIsSafe | crates/pg-am-btree/src/index.rs:2327-2374 | flushing the right page first is enough for that condition when no right page was imaged before |
| BtreeReplay.ReplayTwice | crates/pg-am-btree/src/redo.rs:87-381 | replaying over replayed pages changes nothing |
| BtreeReplay.RecycledRightPageRefused | crates/pg-storage/src/recovery.rs:368-408 | an online run and a crash image obeying the flush order on which replay refuses, because a right page had been imaged before it was recycled |
| BtreeDurability.ReplayNeverFails | crates/pg-am-btree/src/redo.rs:212-327 | in every state of the crash machine the next redo step succeeds |
| BtreeDurability.CrashRecovery | crates/pg-am-btree/src/redo.rs:87-381 | over every run of writes, flushes, syncs, crashes (also during recovery) and replay steps: replay never fails and a finished recovery has exactly the online pages of the surviving log |
| BtreeRedo.RedoPass.ReplayWal | crates/pg-storage/src/engine.rs:555-636 | over what a crash of any run leaves: it refuses just where some Copy finds its left page alone ahead, otherwise the buffers end in exactly the online pages, and the tracker holds exactly the splits that are unfinished and began after the redo point |
| BtreeRedo.RedoPass.ApplyRecord | crates/pg-am-btree/src/redo.rs:87-381 | the handlers, on buffers each the page the record was written for or already past it: a page at or past the record stays as it is, one behind becomes the online page; refused is just a Copy whose left page alone is past it |
| BtreeRedo.TrackerExact | crates/pg-storage/src/recovery.rs:130-204 | whatever the redo point, after every prefix the tracker holds a page if and only if it is flagged and was not so all the way from the redo point on |
| BtreeRedo.TrackedSlot | crates/pg-storage/src/recovery.rs:130-204 | a tracked split has a slot if and only if its Copy was replayed, and then that of the Copy |
| BtreeChain.PlacedKeepsSorted | crates/pg-am-btree/src/index.rs:2922-2932 | inserting between what sorts below and above keeps the set strictly sorted, and the entry was absent |
| BtreeContent.InsertStep | crates/pg-am-btree/src/index.rs:2186-2211 | an insert at its place adds exactly that entry to the sorted set and keeps the chain sound |
| BtreeContent.DeleteStep | crates/pg-am-btree/src/index.rs:2563-2596 | a delete removes exactly that entry |
| BtreeContent.PrepareStep | crates/pg-am-btree/src/index.rs:2254-2306 | Prepare links the right page in directly after the left one and changes nothing the chain spells out, also when the left page is the right page of an unfinished split |
| BtreeContent.CopyStep | crates/pg-am-btree/src/index.rs:2851-2901 | Copy moves a suffix between neighbours, so the sorted set is unchanged, drained leaves or not |
| BtreeContent.CommitStep | crates/pg-am-btree/src/index.rs:2386-2463 | Commit leaves the leaf chain and its contents alone |
| BtreeContent.StepRefines | crates/pg-am-btree/src/index.rs:1427-1643 | every disciplined record keeps the chain, keeps the `prev` hints sound if they were, and acts on the sorted set as its meaning says |
| BtreeRuns.NextElements | crates/pg-am-btree/src/index.rs:2563-2596 | as a set: an insert adds an absent entry, a delete removes a present one, nothing else changes it |
| BtreeRuns.ContentsRefine | crates/pg-am-btree/src/index.rs:2254-2374 | after every prefix of every run the leaf chain is strictly sorted and holds exactly what was inserted and not deleted |
| BtreeRuns.RecoveredContents | crates/pg-am-btree/src/redo.rs:87-381 | the same after any number of crashes and recoveries, for what the surviving log says |
| BtreeSearch.SearchPage | crates/pg-am-btree/src/index.rs:2905-2918 | the loop computes the bisection on any page, and on a sorted one the first slot at or above the probe |
| BtreeSearch.LeafInsertSlot | crates/pg-am-btree/src/index.rs:2922-2932 | DuplicateKey exactly for a pair on the page; otherwise the slot that keeps the page sorted |
| BtreeSearch.FindChild | crates/pg-am-btree/src/index.rs:3106-3127 | the last entry at or below the key, or the first; an error exactly on an empty page |
| BtreeSearch.PointsAt | crates/pg-am-btree/src/index.rs:2973-2982 | true exactly when some entry has that child |
| BtreeSearch.SplitPointExists | crates/pg-am-btree/src/index.rs:3028-3070 | under the key bound every page of two or more entries has a valid split point for every pending entry |
| BtreeSearch.ChooseSplitSlot | crates/pg-am-btree/src/index.rs:3028-3070 | refuses exactly pages of fewer than two entries and pages without a fitting slot; on a sorted page the slot is a valid one closest to the median, and under the key bound there always is one |
| BtreeSearch.SplitSlotIsBest | crates/pg-am-btree/src/index.rs:3028-3070 | the slot the scan outwards from the median finds is a valid one closest to it, and is found whenever there is one |
| BtreeSearch.PendingHalfHasRoom | crates/pg-am-btree/src/index.rs:3028-3070 | after Copy at a valid slot, the half the pending entry is compared into has room for it |
| BtreeWalk.SkipOnChain | crates/pg-am-btree/src/index.rs:1024-1059 | skipping drained leaves ends at the next non-empty one, one hop each, and fails only on the hop bound |
| BtreeWalk.LocateSound | crates/pg-am-btree/src/index.rs:846-1059 | from any leaf, with stale `prev` links: an answer of the locate walk is the rightmost non-empty leaf whose first entry is at or below the probe, or the chain head |
| BtreeWalk.LocateFinishes | crates/pg-am-btree/src/index.rs:846-1059 | the walk is answered whenever its budget, which counts the drained leaves to the right once for every left hop, stays within the hop bound |
| BtreeWalk.LocateWithin | crates/pg-am-btree/src/index.rs:846-1059 | n leaves with n * (n + 2) within the hop bound are always answered |
| BtreeWalk.DrainedTailRefusedIff | crates/pg-am-btree/src/index.rs:846-1059 | on a drained chain entered at its end the walk is answered if and only if at most 359 leaves were drained |
| BtreeWalk.DrainedPagesSound | crates/pg-am-btree/src/index.rs:846-1059 | such chains exist for every length, and satisfy the chain invariant |
| BtreeReads.LocateForWriteSound | crates/pg-am-btree/src/index.rs:1189-1296 | the walk of a delete ends at the same owner, within twice the number of leaves |
| BtreeReads.OwnerPosition | crates/pg-am-btree/src/index.rs:846-1059 | the owner leaf and the slot found in it are the probe's lower bound in the whole sorted set |
| BtreeReads.WalkToPosition | crates/pg-am-btree/src/index.rs:846-1059 | the loop computes the locate walk |
| BtreeReads.PinLeafForWrite | crates/pg-am-btree/src/index.rs:1189-1296 | the loop computes the walk of a delete |
| BtreeReads.FindForDelete | crates/pg-am-btree/src/index.rs:2563-2596 | finds the exact pair wherever the chain holds it; EntryNotFound only for a pair the index does not hold |
| BtreeReads.LookupAll | crates/pg-am-btree/src/index.rs:585-626 | entering at any leaf, an answer is exactly the entries with the key, by page and then by slot |
| BtreeReads.RangeScan | crates/pg-am-btree/src/index.rs:633-680 | entering at any leaf, an answer is exactly the entries in the range, in order; between a string and its successor that is exactly the keys that begin with the string; a scan of everything over packed leaves is answered if and only if there are at most 65,537 |
| BtreeDescent.Descend | crates/pg-am-btree/src/index.rs:784-813 | for every key the descent takes one page a level, never hops sideways above the leaves, and ends on the leaf under the last downlink at or below the key |
| BtreeDescent.RoutedSettles | crates/pg-am-btree/src/index.rs:784-813 | on the page whose range holds the key the sibling walk of an internal level stops at once |
| BtreeDescent.ChildRoutes | crates/pg-am-btree/src/index.rs:3106-3127 | the child the search picks is the page of the level below whose range holds the key |
| BtreePlacement.PlacementIff | crates/pg-am-btree/src/index.rs:1427-1643 | an absent pair lands at its place in the sorted set if and only if no hint on the way opens onto drained leaves only with a larger entry behind them |
| BtreePlacement.SoundHintsPlace | crates/pg-am-btree/src/index.rs:1427-1643 | with sound hints an absent pair always lands at its place |
| BtreePlacement.DuplicateIff | crates/pg-am-btree/src/index.rs:1427-1643 | a present pair is refused as a duplicate if and only if the walk does not stop short of its leaf |
| BtreePlacement.DuplicateAccepted | crates/pg-am-btree/src/index.rs:1427-1643 | a sound two-leaf chain on which a pair the index holds is accepted again |
| BtreePlacement.BlindHintMisplaces | crates/pg-am-btree/src/index.rs:1316-1361 | a sound three-leaf chain on which an insert breaks the order |
| BtreePlacement.PlaceLands | crates/pg-am-btree/src/index.rs:1427-1643 | wherever the walk lands, it is a slot of a leaf of the chain |
| BtreePlacement.NearestNonEmptyLeft | crates/pg-am-btree/src/index.rs:1316-1361 | the loop returns the last non-empty leaf between the hint and the page |
| BtreePlacement.PinLeafForInsert | crates/pg-am-btree/src/index.rs:1427-1643 | the loop computes the placement walk |
| BtreeSplit.SplitKeeps | crates/pg-am-btree/src/index.rs:2254-2374 | Prepare and Copy keep the upper levels sorted, within the key bound and with downlinks to pages of the file only; no leaf is left waiting for its Copy and the right page has no downlink yet |
| BtreeSplit.HalfHasRoom | crates/pg-am-btree/src/index.rs:1654-1752 | the half a pending entry is compared into has room for it |
| BtreeSplit.CommitUpper | crates/pg-am-btree/src/index.rs:2386-2463 | a Commit at the searched slot keeps the upper levels and links the right page, no other |
| BtreeSplit.PromotedUpper | crates/pg-am-btree/src/index.rs:2488-2525 | a root promotion keeps the upper levels; the meta page has room for every promotion the 4-bit level allows |
| BtreeIndex.Index.Create | crates/pg-am-btree/src/index.rs:407-448 | a new index is sound, tidy, and stands for the empty set |
| BtreeIndex.Index.LogAndApply | crates/pg-am-btree/src/index.rs:2186-2211 | a disciplined record extends a disciplined run, a careful one a careful run, and does to the sorted set what it means |
| BtreeIndex.Index.Delete | crates/pg-am-btree/src/index.rs:2563-2596 | removes exactly the pair, keeps the index sound, and refuses only what the index does not hold or cannot reach within the hop bound |
| BtreeIndex.Index.TryInsert | crates/pg-am-btree/src/index.rs:1083-1143 | answers if and only if the key is within the bound and the walk lands, and then places the pair if and only if the leaf it lands on has room; placing a pair keeps the index sound if and only if it was absent and no blind hint misled the walk; then it adds exactly that pair |
| BtreeIndex.Index.SplitPage | crates/pg-am-btree/src/index.rs:2254-2374 | cuts any page of the tree in two packed halves at a valid point, also the right page of an unfinished split; leaves the sorted set alone, and refuses exactly a page with a pending split of its own or fewer than two entries |
| BtreeIndex.Index.CreateNewRoot | crates/pg-am-btree/src/index.rs:2488-2525 | seeds and publishes a root over the old one; refuses exactly at the level bound or without a page; between publishing and the Commit no page names the old root, if the meta page alone did |
| BtreeIndex.Dethrones | crates/pg-am-btree/src/index.rs:2488-2525 | when the split of the old root is the topmost pending one and the meta page alone names it, publishing the new root leaves it flagged as a root that no page names |
| BtreeIndex.Index.CommitRoot | crates/pg-am-btree/src/index.rs:2004-2073 | the commit of a root split puts both halves under a new root; it succeeds if and only if the page is the published root, below the level bound, and there is a page |
| BtreeIndex.Index.SplitCommit | crates/pg-am-btree/src/index.rs:2004-2158 | succeeds if and only if the parent on the path points at the page and has room or can be split and committed in turn, up to the published root (`CanCommit`); then the right page has its downlink, the left page is no longer flagged, and every page added above has a downlink under its own first key; nothing else at or below the split's level changes, and a refusal leaves the index sound |
| BtreeIndex.Index.SplitParent | crates/pg-am-btree/src/index.rs:2108-2137 | succeeds if and only if there is a page, the parent has two entries and no pending split, and its own split can be committed; then the half the downlink sorts into has room for it |
| BtreeIndex.Index.InsertPessimistic | crates/pg-am-btree/src/index.rs:1654-1752 | Done adds exactly the absent pair, Retry changes nothing the index stands for, an error leaves the index sound; Done, Retry and DuplicateKey are each given by an equivalence on the leaf, the path and the free pages before the call; a full leaf with fewer than two entries is refused; a leaf that was added has a downlink under its own first key, and no new split stays pending; asked of the keys is only that the separator handed up, if the leaf is full, is not empty |
| BtreeClimb.EnoughPages | crates/pg-am-btree/src/index.rs:2004-2158 | along the path of the parents, from the published root below the level bound, one free page for every level and one for a new root are enough for the commit |
| BtreeClimb.EnoughForLeaf | crates/pg-am-btree/src/index.rs:1703-1752 | so a full leaf of at least two entries is split |
| BtreeClimb.CommitFrame | crates/pg-am-btree/src/index.rs:2004-2158 | nothing but the path, the meta page and the level of the page decides |
| BtreeClutter.EmptyIndexRefuses | crates/pg-am-btree/src/page.rs:282-301 | an empty, sound index of one leaf without room that refuses every pair in both passes |
| BtreeIndex.Index.Recoverable | crates/pg-am-btree/src/redo.rs:87-381 | whatever these methods did, replay from any crash image the flush order allows gives back exactly the pages, which hold what was inserted and not deleted |
| BtreeIndex.Index.CrashAndRecover | crates/pg-storage/src/engine.rs:300-390 | a crash at any record of whatever these methods did, with any image the flush order allows and any redo point: redo and undo either refuse or leave no split pending and a leaf chain that holds exactly what the surviving records inserted and did not delete; on a tidy index redo ends in a sound file, so that the rounds that can be finished, each on the pages the one before it left, decide success; on an assured file it succeeds |
| BtreeIndex.Index.CrashAfterPublishing | crates/pg-storage/src/engine.rs:300-390 | a crash of a tidy index between publishing a promotion and the Commit: recovery refuses unless the right page is drained, whatever was flushed and wherever redo starts |
| BtreeFinish.HalvesConverge | crates/pg-am-btree/src/index.rs:3659-3809 | from any durable state of the two pages but the excluded one a compensation record ends in the same halves; an interrupted Move is completed by the NoMove truncation at the same boundary |
| BtreeFinish.ClrConverges | crates/pg-am-btree/src/index.rs:3659-3809 | from any durable subset of its pages in which a durable left page comes with a durable right page, applying the record ends in the same pages; a second application changes nothing |
| BtreeFinish.ClrOrderMatters | crates/pg-am-btree/src/index.rs:3659-3809 | with the left page alone durable the record is refused exactly when it had entries to move |
| BtreeFinishContent.TruncationKeepsAll | crates/pg-am-btree/src/index.rs:3659-3809 | after Copy nothing on the left page sorts at or above the right page's first entry, so the truncation keeps the whole left page |
| BtreeFinishContent.FinishKeepsContents | crates/pg-am-btree/src/index.rs:3277-3380 | whatever plan the right page calls for: same sorted set, flag cleared, right page linked from a parent or out of the chain; sound hints stay sound if and only if no leaf names a page that is unlinked |
| BtreeFinishContent.HalvesNeverFail | crates/pg-am-btree/src/index.rs:3277-3380 | the moves and truncations of the chosen plan always fit |
| BtreeFinishContent.UnlinkHints | crates/pg-am-btree/src/index.rs:3277-3380 | unlinking a drained right page keeps the hints sound if and only if no leaf names it |
| BtreeInner.EmptySeparator | crates/pg-am-btree/src/index.rs:2386-2463 | an empty separator goes behind the marker in slot 0 if and only if the marker's child has the smaller page id; otherwise it takes slot 0 |
| BtreeInner.RootPairSorted | crates/pg-am-btree/src/index.rs:2488-2525 | the two downlinks of a new root are in order if and only if the separator is not empty or the left page has the smaller id |
| BtreeInner.HalvesInternal | crates/pg-am-btree/src/index.rs:2851-2901 | cutting an internal page anywhere leaves two sound internal pages |
| BtreeScan.MetaSearchIff | crates/pg-am-btree/src/index.rs:3814-3852 | the search as written ends at the root's meta page if and only if no unflagged internal page before it ends in a two-byte-key downlink that spells the root's id |
| BtreeScan.MetaSearchMisled | crates/pg-am-btree/src/index.rs:3814-3852 | a file of sound pages with the meta page present on which the search answers an internal page |
| BtreeScan.OnlyLargeRootsMissed | crates/pg-am-btree/src/index.rs:3814-3852 | the search answers an internal page only for a root from page 65,536 on |
| BtreeClr.MetaOnRight | crates/pg-am-btree/src/index.rs:3659-3809 | when the search answered the right page itself, the record's last step writes nothing |
| BtreeCascade.ClimbGrows | crates/pg-am-btree/src/index.rs:3398-3565 | a page added at the end of the file changes nothing about where a downlink goes |
| BtreeCascade.UndoPass.FindParent | crates/pg-am-btree/src/index.rs:3860-3897 | the first page of the file, one level up, with a downlink to the child; refuses if and only if there is none |
| BtreeCascade.UndoPass.FindMeta | crates/pg-am-btree/src/index.rs:3814-3852 | the first page, of whatever level, without flags and with a last entry that reads as a meta record of the root; refuses if and only if there is none |
| BtreeCascade.UndoPass.EmitAndApplyClr | crates/pg-am-btree/src/index.rs:3590-3629 | the record is applied at a later LSN than every page, after an image of every page it names; a refusal leaves exactly the steps before the refused one applied |
| BtreeCascade.UndoPass.PlaceDownlink | crates/pg-am-btree/src/index.rs:3277-3380 | in any file: an answer is a usable place, leaves the leaves, the flags and the levels alone, and every record on the way extends the logged run; with sorted internal pages it answers if and only if the climb reaches a page with room or a root whose meta page is found and has room, only higher levels change, no downlink is lost and at most one root is promoted |
| BtreeCascade.UndoPass.EnsureDownlinkSlot | crates/pg-am-btree/src/index.rs:3398-3441 | terminates; answers if and only if the climb gets through, with a page of that level with room for the downlink and its one sorted slot, and no downlink lost |
| BtreeCascade.UndoPass.SplitPageInUndo | crates/pg-am-btree/src/index.rs:3476-3565 | terminates; answers if and only if the climb gets through; the half the pending downlink is compared into has room for it, the new page has a downlink under its first key, only this level and above change, and no downlink is lost |
| BtreeRooted.HookedKeeps | crates/pg-am-btree/src/index.rs:3659-3809 | a compensation record loses no downlink: what some page of a level held, some page of that level still holds |
| BtreeRooted.HookedHangs | crates/pg-am-btree/src/index.rs:3476-3565 | it leaves every page under a published root that can still grow, by one level less if it promoted a root |
| BtreeRooted.SteadyHooked | crates/pg-am-btree/src/index.rs:3476-3565 | both in a form that composes over the records of a cascade: no downlink lost, and every page still under a published root that can grow, whatever the height to spare at the start |
| BtreeRound.RoundKeepsChain | crates/pg-am-btree/src/index.rs:3277-3380 | a round of undo keeps the leaf chain and its contents, whatever the rest of the file looks like, and says when the hints stay sound |
| BtreeRound.RoundFinishes | crates/pg-am-btree/src/index.rs:3277-3380 | it clears one flag and sets none |
| BtreePending.HalvesIff | crates/pg-am-btree/src/index.rs:3659-3809 | the first step of a compensation record is refused if and only if the halves do not fit |
| BtreePending.FinishIff | crates/pg-am-btree/src/index.rs:3659-3809 | the whole record is refused if and only if the halves do not fit or the meta page has no room |
| BtreePending.RoundIff | crates/pg-am-btree/src/index.rs:3277-3380 | after the cascade the record is accepted if and only if the split could be finished on the pages before it |
| BtreeSound.RoundKeepsSound | crates/pg-am-btree/src/index.rs:3277-3380 | a round that publishes its promotion where it belongs keeps the file sound: internal pages sorted, the other pending splits well formed |
| BtreeUndo.FinishIncompleteSplit | crates/pg-am-btree/src/index.rs:3277-3380 | in any file success is one compensation record that finishes exactly this split, from the given slot, and extends the logged run; unless the right page is unlinked its downlink is written, a fence between the two halves (`Fences`); in a sound file it succeeds if and only if the split can be finished from where it is |
| BtreeUndo.Schedule | crates/pg-am-btree/src/undo.rs:48-101 | one entry for every flagged page, from the root downwards |
| BtreeUndo.Undo | crates/pg-am-btree/src/undo.rs:48-101 | once the pass succeeds no page is flagged, and the leaf chain is intact and spells out what it did before; each round starts from the pages the round before it made by finishing its split; the pass succeeds if and only if every round does, and on a sound file with clean rounds if and only if each could be finished on the pages it started from; the records it logs form a run |
| BtreeUndo.FinishNext | crates/pg-am-btree/src/undo.rs:48-101 | one round: by one record, from the slot on record or the median, it finishes exactly the split of that page with the plan its right page calls for, keeps the chain and its contents, and keeps sound hints sound if and only if no leaf names a page it unlinks; in a sound file it succeeds if and only if the slot is known and the split can be finished |
| BtreeFence.RoundFences | crates/pg-am-btree/src/index.rs:3277-3380 | unless the right page is unlinked: its downlink is there; between ordered halves its key is the first key of the right one, and nothing on the left one sorts at or above that entry; in a sound file, by a clean round, a descent over the parent is led to it or past it by exactly the keys from its own on |
| BtreeFence.HalvesFence | crates/pg-am-btree/src/index.rs:3659-3809 | the halves the record leaves are cut at the slot, or at the first entry of the right one if that had entries |
| BtreeFence.SortedGuides | crates/pg-am-btree/src/index.rs:3106-3127 | on a sorted page a downlink is reached or passed by exactly the keys from its own on, unless it is the first |
| BtreeAssured.ClimbReaches | crates/pg-am-btree/src/index.rs:3398-3565 | with nothing flagged above and every page under a published root that can grow, the climb always finds room |
| BtreeAssured.RoundReady | crates/pg-am-btree/src/index.rs:3277-3380 | the first round on an assured file can be finished, and is clean |
| BtreeAssured.RoundAssures | crates/pg-am-btree/src/index.rs:3277-3380 | a round that was taken leaves the rest of the splits assured and every downlink in place |
| BtreeAssured.AssuredPass | crates/pg-am-btree/src/undo.rs:48-101 | a condition on the file the pass starts from alone (sound, every page under a published root with a level to spare for each pending split, room in the file, halves that fit): every pass succeeds and no downlink is lost |
| BtreeAssured.MedianAssured | crates/pg-am-btree/src/index.rs:3901-3909 | the split the median lookup refuses is assured once its slot is on record, whatever the slot |
| BtreeAssured.MedianFinished | crates/pg-am-btree/src/undo.rs:48-101 | so a pass over it with the slot on record succeeds |
| BtreeRefusals.SmallFileIsStraight | crates/pg-am-btree/src/index.rs:3814-3852 | in a file of at most 65,536 pages no promotion of the cascade goes to the wrong page |
| BtreeRefusals.NeverStuck | crates/pg-am-btree/src/index.rs:3476-3565 | when nothing above is flagged the cascade never meets a page it cannot split |
| BtreeRefusals.MedianRefused | crates/pg-am-btree/src/index.rs:3901-3909 | a scanned split with fewer than two entries on its left page is refused whatever its plan; with a slot, any slot, it is finished or not alike |
| BtreeRefusals.MedianUndone | crates/pg-am-btree/src/index.rs:3901-3909 | every pass over a root leaf split in two single entries and checkpointed before its Commit is refused |
| BtreeRefusals.MedianRefusal | crates/pg-am-btree/src/undo.rs:48-101 | such a pass: a sound file, a split that can be finished with any slot, a refusal |
| BtreeRefusals.NestedFinishable | crates/pg-am-btree/src/index.rs:3860-3897 | the right page of a pending split, itself pending, can be finished if and only if its own right page is drained |
| BtreeRefusals.OuterFinished | crates/pg-am-btree/src/index.rs:3277-3380 | finishing the outer split first, as happens if and only if its page id is smaller, gives the inner one a parent if and only if the outer right page is not unlinked |
| BtreeRefusals.NestedUndone | crates/pg-am-btree/src/index.rs:3860-3897 | every pass over a file with two nested splits, the inner one with the smaller page id, is refused |
| BtreeRefusals.NestedRefusal | crates/pg-am-btree/src/undo.rs:48-101 | such a pass, over a sound file whose outer split can be finished |
| BtreeRefusals.PromotionLost | crates/pg-am-btree/src/index.rs:2488-2525 | over a sound file whose topmost pending split is that of a root that no meta page names, its promotion being published already, a pass succeeds only if the right page is drained, whatever the tracker knows; where it is the only pending split, if and only if it is drained and the slot is known |
| BtreeRefusals.PromotionRefusal | crates/pg-am-btree/src/undo.rs:48-101 | such a pass, over the sound file of a root leaf split and promoted but not committed |
| BtreeRefusals.StaleHint | crates/pg-am-btree/src/index.rs:3277-3380 | a round that unlinks a drained page and keeps the contents, after which the next leaf names a page that is no longer on the chain |
| BtreeRefusals.MisledPromotion | crates/pg-am-btree/src/index.rs:3814-3852 | with the search misled the record goes to the page that was answered, and the root's meta page keeps naming a page that is no root any more |
| BtreeRefusals.MisledRound | crates/pg-am-btree/src/index.rs:3814-3852 | such a round, over a sound file: it succeeds and leaves an internal page with a downlink to no page |
| BtreeReady.StepReady | crates/pg-am-btree/src/index.rs:2254-2374 | every record of an orderly run keeps the file one that undo can work on: chain intact, every pending split with a right page of its own level |
| BtreeReady.EveryPrefixReady | crates/pg-am-btree/src/index.rs:2254-2374 | so after every prefix of every run |
| BtreeReady.OrderlyKeepsFlags | crates/pg-am-btree/src/index.rs:2254-2374 | no record of such a run changes a flag the tracker does not hear of |
| BtreeCareful.StepSound | crates/pg-am-btree/src/index.rs:2254-2525 | every careful record keeps the file sound: internal pages sorted and bounded, pending splits with right pages of their own that nothing points at |
| BtreeCareful.EveryPrefixSound | crates/pg-am-btree/src/index.rs:2254-2525 | so after every prefix of every careful run the undo pass succeeds exactly as its rounds can be finished |
| BtreeRecovery.ReplayedReady | crates/pg-storage/src/engine.rs:300-390 | what redo leaves, pages and tracker, meets everything undo asks for |
| BtreeRecovery.Recover | crates/pg-storage/src/engine.rs:300-390 | redo then undo, from any crash image the flush order allows: redo never refuses; success leaves no split pending and the set the surviving log says, on the pages the last round left; without pending splits the file is exactly the online one; on an assured file it succeeds; the records undo logs form a run from the file redo left |
| BtreeEvents.RunSpells | crates/pg-am-btree/src/index.rs:3590-3629 | after every record of every undo pass, interrupted or not, the file has a leaf chain that spells out what the first file did and every pending split beside its right page |
| BtreeEvents.RunKeepsFlag | crates/pg-am-btree/src/redo.rs:389-404 | a split stays pending until a compensation record names its left page |
| BtreeEvents.EventsConverge | crates/pg-am-btree/src/index.rs:3590-3629 | replaying the log of an undo pass over any mixture of page versions the pass flushed ends in exactly the file it had reached |
| BtreeInterrupted.CutImage | crates/pg-storage/src/buffer_pool.rs:752-806 | with the log synced up to a page before the page is written, what is on disk after a crash that loses the tail of the undo log is an image of the undo pass up to the cut |
| BtreeInterrupted.FlushedUndoIsSafe | crates/pg-am-btree/src/redo.rs:212-327 | once redo is done, whatever undo flushes keeps the flush order of every Copy |
| BtreeInterrupted.RunReplayed | crates/pg-am-btree/src/redo.rs:87-381 | redo of the online log over pages that undo had written since never refuses and leaves each page as undo found it or as undo left it |
| BtreeInterrupted.RedoAll | crates/pg-storage/src/engine.rs:555-636 | redo of both logs ends in exactly the file the interrupted undo had reached, with the finished splits off the tracker |
| BtreeInterrupted.RecoverAgain | crates/pg-storage/src/engine.rs:300-390 | recovery after a crash during recovery: undo goes on from the file it had reached and continues the same run, so that it may be interrupted again; every file on the way spells out what the surviving online log says, and success leaves no split pending |
| BtreeImages.StepKeepsInv | crates/pg-storage/src/buffer_pool.rs:287-321 | every step of the split and of other writers keeps: the flag is what the log says, unless a Commit is appended and not yet applied |
| BtreeImages.ImageBeforeCommit | crates/pg-am-btree/src/index.rs:2039-2105 | over every interleaving with checkpoints and other leaf writers no flagged image of the left page follows its split's Commit, and wherever a crash cuts the log replay flags the page exactly when its last split is unfinished |
| BtreeImages.BothRulesNeeded | crates/pg-am-btree/src/index.rs:1195-1205 | when writers do not skip the image of a flagged page, or the Commit is applied with an image, some run lets such an image in |
| BulkLoad.SortAndDedup | crates/pg-am-btree/src/bulkload.rs:75-105 | the one strictly sorted list with exactly the elements of the input |
| BulkLoad.SortedUnique | crates/pg-am-btree/src/bulkload.rs:75-105 | there is only one such list |
| BulkLoad.NextRun | crates/pg-am-btree/src/bulkload.rs:190-244 | the longest run from here that fits a page, the one the greedy fill takes |
| BulkLoad.Partition | crates/pg-am-btree/src/bulkload.rs:190-244 | the greedy runs: they follow each other without gap or overlap, cover the input, and each fits a page and could not take the next entry |
| BulkLoad.LevelsShrink | crates/pg-am-btree/src/bulkload.rs:75-182 | under the key bound a level has at most a third of the pages of the one below, rounded up |
| BulkLoad.LevelsWithin | crates/pg-am-btree/src/bulkload.rs:75-182 | 3^k leaves need at most k levels above them |
| BulkLoad.LeavesSound | crates/pg-am-btree/src/bulkload.rs:75-182 | packed leaves form a sound chain that spells out the input |
| BulkLoad.BulkLoader.PackLeaves | crates/pg-am-btree/src/bulkload.rs:190-244 | a sound leaf chain with exactly the sorted input |
| BulkLoad.BulkLoader.PackInternal | crates/pg-am-btree/src/bulkload.rs:190-244 | one downlink for every child, in order, the first of the level with the empty key; the level shrinks to a third |
| BulkLoad.BulkLoader.Build | crates/pg-am-btree/src/bulkload.rs:75-182 | KeyTooLarge exactly when a key is over the bound; otherwise packed leaves, as many as the greedy fill of the input takes, that spell out the sorted, deduplicated input, under levels whose downlinks enumerate the level below, up to a single marked root of bounded level |
| BulkLoad.BuildThenScan | crates/pg-am-btree/src/bulkload.rs:75-182 | building, descending and scanning everything gives the sorted, deduplicated input; refused if and only if a key is over the bound or the input fills more than 65,537 leaves, a number that is a function of the input |
| BulkLoad.LeavesBound | crates/pg-am-btree/src/bulkload.rs:190-244 | under the key bound every leaf but the last takes three entries or more |
| BulkLoad.SmallInputScans | crates/pg-am-btree/src/bulkload.rs:75-182 | an input of at most 196,609 entries, under the key bound, fills at most 65,537 leaves |
| BulkLoad.LongKeysRefused | crates/pg-am-btree/src/bulkload.rs:75-182 | n entries with a key of the longest length fill more than 65,537 leaves if and only if n is over 196,611 |
| SlottedBytes.LpRoundTrip | crates/pg-am-heap/src/line_pointer.rs:58-108 | unpacking a packed line pointer gives offset, flags and length back |
| SlottedBytes.ReadClean | crates/pg-am-heap/src/slotted_page.rs:333-364 | on a sound page a read returns what the slot holds |
| SlottedBytes.AddTupleExact | crates/pg-am-heap/src/slotted_page.rs:223-303 | the page stays sound, the returned slot (a free one, else a new one) holds the bytes, every other slot what it held |
| SlottedBytes.DeleteTupleExact | crates/pg-am-heap/src/slotted_page.rs:307-330 | succeeds exactly on a live slot and frees just that slot |
| SlottedBytes.InsertEntryExact | crates/pg-am-btree/src/page.rs:235-279 | sequence insertion on a sound page |
| SlottedBytes.RemoveEntryExact | crates/pg-am-btree/src/page.rs:285-301 | sequence removal on a sound page |
| SlottedBytes.RunRefines | crates/pg-am-heap/src/slotted_page.rs:389-427 | over every run of adds, deletes, inserts and removes live regions stay apart and within bounds, and slots and room follow a plain sequence: each operation is refused exactly when the slot or the room calls for it, and otherwise does what it does to the sequence |
| SlottedArrays.InitWithSpecial | crates/pg-am-heap/src/slotted_page.rs:80-98 | an empty sound page with the special space reserved |
| SlottedArrays.TupleAt | crates/pg-am-heap/src/slotted_page.rs:333-364 | on arbitrary bytes the read stays in bounds, terminates and computes ReadTuple |
| SlottedArrays.AddTupleInPlace | crates/pg-am-heap/src/slotted_page.rs:223-303 | the buffer ends as the specification says, and is untouched on a refusal |
| SlottedArrays.DeleteTupleInPlace | crates/pg-am-heap/src/slotted_page.rs:307-330 | the same for a delete |
| SlottedArrays.InsertEntryInPlace | crates/pg-am-btree/src/page.rs:235-279 | the same for an insert with its shift of the line pointers |
| SlottedArrays.RemoveEntryInPlace | crates/pg-am-btree/src/page.rs:285-301 | the same for a removal |
| BtreeBytes.EntryRoundTrip | crates/pg-am-btree/src/page.rs:379-423 | decoding an encoded leaf or internal entry gives it back |
| BtreeBytes.MetaRoundTrip | crates/pg-am-btree/src/page.rs:426-444 | decoding an encoded meta record gives root and level back |
| BtreeBytes.ReadAsMeta | crates/pg-am-btree/src/index.rs:3814-3852 | at every level the bytes of an entry decode as a meta record exactly when module BtreeScan says so, and name the same root |
| BtreeBytes.MetaRecordBytes | crates/pg-am-btree/src/page.rs:426-444 | the ten bytes of a meta record, on a page of any level, are those of the entry module BtreeFinish appends |
| BtreeBytes.StatusExact | crates/pg-am-btree/src/page.rs:11-17 | level and flags share their byte without loss if and only if the level is within the bound |
| BtreeBytes.InsertRefines | crates/pg-am-btree/src/page.rs:235-279 | the byte-level insert is the entry-level one, with the same refusals; LSN, level, flags and links are kept byte for byte |
| BtreeBytes.RemoveRefines | crates/pg-am-btree/src/page.rs:285-301 | the same for a removal |
| RowLocks.StepKeepsInv | crates/pg-am-heap/src/heap_am.rs:594-891 | every lookup, verdict, begin, end and crash keeps: live writers are stamped, live share holders are stamped or registered, owners of overwritten stamps are lost |
| RowLocks.LockExclusion | crates/pg-am-heap/src/heap_am.rs:594-891 | in every reachable state a live writer or exclusive holder excludes every other live holder, and every live share holder is the stamped transaction or registered |
| RowLocks.OverwrittenNeverCommits | crates/pg-am-heap/src/heap_am.rs:676-731 | whoever's real stamp was overwritten never commits, then or later |
| RowLocks.CommittedIsFinal | crates/pg-am-heap/src/heap_am.rs:1065-1092 | a committed delete or update keeps its stamp in every later state |
| RowLocks.FirstPassKeepsIff | crates/pg-am-heap/src/heap_am.rs:1446-1517 | retiring the share set in a first pass keeps the invariant if and only if the updater holds no share that only the registry knows |
| RowLocks.SharedReached | crates/pg-am-heap/src/heap_am.rs:594-891 | the run of begins, share grants and ends that leads to that state |
| RowLocks.FirstPassLosesShare | crates/pg-am-heap/src/heap_am.rs:1446-1517 | a state, reached by a run from the start, from which another transaction is then granted the row exclusively |
| RowLockGate.RowLock.Lock | crates/pg-am-heap/src/heap_am.rs:594-731 | every path through the gate and its stamp is a run of the machine; Wait is only for a holder that was live at entry and that the commit log and then the active set showed as live; ConcurrentlyUpdated if and only if it does not wait and the foreign stamp is a delete whose owner has committed; a row nobody else holds or has deleted is granted; shares are compatible; what each verdict means for the stamp and the holders |
| RowLockGate.RowLock.ShareStampGate | crates/pg-am-heap/src/heap_am.rs:740-796 | a share stamp is joined by a share request, replaced when nobody else is live, or waited for, and only for a holder found live |
| RowLockGate.RowLock.SettleShares | crates/pg-am-heap/src/heap_am.rs:740-796 | the verdict as a function of the holders that pruning left |
| RowLockGate.RowLock.ForeignStampGate | crates/pg-am-heap/src/heap_am.rs:676-731 | commit log, active set, commit log again: Wait only for a stamper found live; otherwise the row version is dead if and only if the stamp is a delete whose owner has committed, and else the stamp is replaced |
| RowLockGate.RowLock.LiveShareHolders | crates/pg-am-heap/src/heap_am.rs:813-849 | the pruning loop visits every holder once, while others end in between, and keeps only those found live |
| RowLockGate.RowLock.Excludes | crates/pg-am-heap/src/heap_am.rs:594-891 | lock exclusion, of the fields the methods leave behind |
| HotChains.StepKeepsInv | crates/pg-am-heap/src/heap_am.rs:1411-1501 | inserts, HOT updates, deletes, locks and aborts keep links rising and injective, and a committed chain member linked from what it replaced |
| HotChains.LinksInjective | crates/pg-am-heap/src/heap_am.rs:518-539 | two versions never link to the same successor |
| HotChains.FollowHotChain | crates/pg-am-heap/src/heap_am.rs:1157-1192 | the first visible version of the chain; the slot-count bound is never exhausted |
| HotChains.HotChainRoot | crates/pg-am-heap/src/heap_am.rs:1210-1247 | the root the links lead back to; the bound is never exhausted |
| HotChains.RootRecovered | crates/pg-am-heap/src/heap_am.rs:1210-1247 | the root of anything reached forward from a root is that root |
| HotChains.Scan | crates/pg-am-heap/src/heap_am.rs:1296-1352 | never fails, and yields each root's first visible version once |
| HotChains.YieldsVisible | crates/pg-am-heap/src/heap_am.rs:1296-1352 | root-plus-chain scanning yields a version if and only if the snapshot sees it |
| HotChains.ScanReachable | crates/pg-am-heap/src/heap_am.rs:1296-1352 | on every reachable page and for every causally closed snapshot the scan returns every visible version exactly once |
| HotChains.LockHidesNothing | crates/pg-am-heap/src/heap_am.rs:1065-1092 | a row lock changes nothing that any snapshot sees |
| HotChains.DeleteHides | crates/pg-am-heap/src/heap_am.rs:1354-1399 | a delete hides the version from exactly the snapshots that see the deleter |
| HotChains.BlindUpdateHidesVersion | crates/pg-am-heap/src/heap_am.rs:1464-1501 | without the rule that an update addresses a version its snapshot sees, a visible version is reached from nowhere |
| GatedUpdates.GateGrants | crates/pg-am-heap/src/heap_am.rs:594-891 | whenever the gate lets a transaction stamp a row, the stamp it replaces is no delete, its own, or that of a transaction that never commits: what the chains assume |
| GatedUpdates.LostStays | crates/pg-am-heap/src/heap_am.rs:676-731 | a transaction that cannot commit any more never does, crashes included |
| GatedUpdates.GateRunIsChainRun | crates/pg-am-heap/src/heap_am.rs:594-891 | every run of the lock protocol of a row, up to a crash, is a run of the update chains |
| HeapRedo.SameEffect | crates/pg-am-heap/src/redo.rs:271-321 | a record does the same to pages that agree up to lock stamps, command ids and lost stampers |
| HeapRedo.RedoIsExact | crates/pg-am-heap/src/redo.rs:76-321 | each handler, on pages that agree with the one the record was written for or are past it: never refuses, leaves pages at or past it alone and brings the others up to the online page |
| HeapRedo.HeapReplayConverges | crates/pg-am-heap/src/redo.rs:76-321 | from any per-page crash image replay succeeds (no slot diverges) and reproduces every version, slot and HOT link up to those |
| HeapRedo.RecoveredVisibility | crates/pg-am-heap/src/redo.rs:76-321 | every snapshot that sees no lost transaction sees the same versions after recovery |
| HeapRedo.HeapRedoPass.ReplayWal | crates/pg-storage/src/engine.rs:555-636 | over what a crash of any run leaves: it never refuses, and the buffers agree with the online pages up to what is not logged |
| HeapTable.Table.Insert | crates/pg-am-heap/src/heap_am.rs:1254-1294 | one more version at the end of the page, exactly when it fits; every other page as before |
| HeapTable.Table.Delete | crates/pg-am-heap/src/heap_am.rs:1354-1399 | the version stays in its slot and gains the stamp; nothing else changes |
| HeapTable.Table.UpdateInPage | crates/pg-am-heap/src/heap_am.rs:1464-1501 | stamps the old version and appends the new one, linked by HOT or not, exactly when it fits |
| HeapTable.Table.UpdateAcross | crates/pg-am-heap/src/heap_am.rs:1503-1606 | stamps on one page, appends on the other, exactly when both can |
| HeapTable.Table.LockTuple | crates/pg-am-heap/src/heap_am.rs:1065-1092 | a lock stamp is not logged and does not change what the page is after recovery |
| HeapTable.Table.Recoverable | crates/pg-am-heap/src/redo.rs:76-321 | whatever these methods did, replay from any per-page crash image brings every version, slot and link back up to what is not logged |
| HeapBytes.EmptyHolds | crates/pg-am-heap/src/slotted_page.rs:77-100 | an initialised heap page holds nothing and has all its room |
| HeapBytes.AddRefines | crates/pg-am-heap/src/slotted_page.rs:223-303 | adding a tuple to the bytes of a heap page, with its special space, is appending it, in the same slot and with the same refusals |
| TupleCodec.PointerRoundTrip | crates/pg-am-heap/src/toast.rs:64-105 | decoding an encoded external pointer gives it back |
| TupleCodec.DatumRoundTrip | crates/pg-am-heap/src/tuple.rs:395-507 | decoding an encoded column value gives it back and takes exactly its bytes, whatever follows |
| TupleCodec.MatchesIff | crates/pg-am-heap/src/tuple.rs:319-335 | the type check lets exactly those values into a column that come back from it |
| TupleCodec.VarlenaFitsIff | crates/pg-am-heap/src/tuple.rs:388-414 | an inline value is refused if and only if its length would reach the two tag bits of its length word |
| TupleCodec.HeaderRoundTrip | crates/pg-am-heap/src/tuple.rs:154-195 | reading a written header gives all its fields back |
| TupleCodec.BitmapBit | crates/pg-am-heap/src/tuple.rs:297-386 | bit `i % 8` of byte `i / 8` of the null bitmap is the null flag of column `i` |
| TupleCodec.TupleRoundTrip | crates/pg-am-heap/src/tuple.rs:297-507 | for every schema of at most 2047 columns and matching values, nulls and external pointers mixed, decoding an encoded tuple gives the values back, consumes all bytes, and gives a header that differs from the caller's in its structure alone |
| TupleCodec.FilledKeeps | crates/pg-am-heap/src/tuple.rs:341-354 | the header written keeps every identity field; bits 0, 1 and 2 of the infomask say whether there are nulls, variable-width and external values and all others stay; the low eleven bits of infomask2 are the number of columns and the others stay; the version is 0 and the other flags stay; the data offset is the least aligned one behind the header and the bitmap |
| TupleCodec.CheckColumns | crates/pg-am-heap/src/tuple.rs:297-386 | the check loop finds exactly the type mismatches and computes the three infomask bits |
| TupleCodec.BuildBitmap | crates/pg-am-heap/src/tuple.rs:297-386 | setting bits one by one yields the bitmap of the nulls |
| TupleCodec.EncodeRow | crates/pg-am-heap/src/tuple.rs:297-386 | the encoder refuses exactly what it must, and what it writes decodes to the values under a header that differs from the caller's in its structure alone |
| TupleCodec.DecodeRow | crates/pg-am-heap/src/tuple.rs:416-507 | the decoding loop computes the specified decoding on arbitrary bytes |
| Utf8Text.Utf8Iff | crates/pg-am-heap/src/tuple.rs:416-507 | the bytes accepted as text are exactly the encodings of sequences of Unicode scalar values |

## Left out

- The buffer pool, WAL reader and writer, checkpointer, commit-log buffer, transaction manager, lock manager and deadlock detector: only the contracts named under Assumptions are used.
- Latch-level interleavings of the B+Tree: inserts, deletes and split steps are atomic, so the re-validation branches of `pin_leaf_for_insert` that only a concurrent writer can trigger are not modelled.
- BtreeDescent.Descend: proved for trees as bulk load builds them; in a tree that has since changed the descent only chooses where to enter the chain, and every walk is proved from every leaf.
- The restart budget of `insert` and the choice between restarting and failing.
- BtreeIndex.Index.InsertPessimistic: starts from the leaf and the path a write descent ends with; the split that would hand up an empty key is left to `BtreeInner.EmptySeparator`.
- BtreeIndex.Index.TryInsert: the optimistic pass as one step; what happens to a pair that lands on a full leaf is the subject of InsertPessimistic.
- Full-page images of a checkpoint cycle in the redo theorem: they are treated where they matter, in BtreeImages.
- BtreeUndo.Undo: pages allocated by the cascade extend the file; reuse of freed page ids during undo is not modelled. When it succeeds is stated as an equivalence while the rounds are clean and, from the starting file alone, one way in `BtreeAssured.AssuredPass`; what a round with a misled meta search does is in `BtreeRefusals.MisledPromotion`.
- BtreeRecovery.Recover: a crash during recovery is the subject of `BtreeInterrupted.RecoverAgain`; online work after a recovery starts from a file whose LSNs do not begin at 0, and is not modelled.
- GatedUpdates.GateRunIsChainRun: up to a crash, because a crash may restore an older stamp; what recovery makes of stamps is the subject of HeapRedo.
- BulkLoad.BulkLoader.Build: the meta record that publishes the root and the WAL images of the built pages are not modelled; the 4-bit level holds for up to 3^15 leaves.
- RowLocks.LockExclusion: the mode without a row waiter, sub-transactions and the wait queue are not modelled; a crash may restore an older lock stamp.
- HotChains.ScanReachable: command ids are not part of visibility; vacuum and pruning are not modelled.
- HeapTable.Table.UpdateAcross: the choice of the new page and the latch order of the two pages are left out.
- Table and catalog bootstrap, SQL, TOAST storage of chunks, free-list metadata, configuration and file I/O: mostly plumbing over the parts above.

/** Index entries and B+Tree pages as bytes (crates/pg-am-btree/src/page.rs):
    the entry codecs, and the entry-level page of module BtreePages as an
    abstraction of the byte layout. */
module BtreeBytes {
  import opened Keys
  import opened Outcome
  import opened Sequences
  import opened LittleEndian
  import SlottedBytes
  import P = BtreePages
  import opened BtreeFinish
  import opened BtreeScan

  const LOW_48: nat := 0x1_0000_0000_0000

  // ---- Entries ----

  /** `encode_leaf_entry` and `encode_internal_entry`: the key, then the
      trailer. */
  function Encode(level: nat, e: P.Entry): (b: Bytes)
    ensures |b| == P.EntryBytes(level, e)
  {
    e.key + Le(8, e.page) + if level == 0 then Le(2, e.slot) else []
  }

  /** `decode_leaf_entry` and `decode_internal_entry`. */
  function Decode(level: nat, b: Bytes): Result<P.Entry>
  {
    var trailer := if level == 0 then 10 else 8;
    if |b| < trailer then Err(Corrupted)
    else
      var at := |b| - trailer;
      Ok(P.Entry(b[..at], Value(b[at..at + 8]), if level == 0 then Value(b[at + 8..]) else 0))
  }

  /** 64-bit page ids, 16-bit slots, and no slot above the leaves. */
  predicate Encodable(level: nat, e: P.Entry)
  {
    e.page < Pow256(8) && e.slot < Pow256(2) && (level > 0 ==> e.slot == 0)
  }

  /** Entry round trip. */
  lemma EntryRoundTrip(level: nat, e: P.Entry)
    requires Encodable(level, e)
    ensures Decode(level, Encode(level, e)) == Ok(e)
  {
    var b := Encode(level, e);
    var at := |e.key|;
    LeRoundTrip(8, e.page);
    LeRoundTrip(2, e.slot);
    assert b[..at] == e.key && b[at..at + 8] == Le(8, e.page);
    if level == 0 {
      assert b[at + 8..] == Le(2, e.slot);
    }
  }

  /** `encode_meta_record` and `decode_meta_record`. */
  function EncodeMeta(root: nat, level: nat): Bytes { Le(8, root) + Le(2, level) }

  function DecodeMeta(b: Bytes): Result<(nat, nat)>
  {
    if |b| != 10 then Err(Corrupted) else Ok((Value(b[..8]), Value(b[8..])))
  }

  lemma MetaRoundTrip(root: nat, level: nat)
    requires root < Pow256(8) && level < Pow256(2)
    ensures DecodeMeta(EncodeMeta(root, level)) == Ok((root, level))
  {
    LeRoundTrip(8, root);
    LeRoundTrip(2, level);
    var b := EncodeMeta(root, level);
    assert b[..8] == Le(8, root) && b[8..] == Le(2, level);
  }

  lemma HighBytes(v: nat)
    requires v < Pow256(8)
    ensures v == v % LOW_48 + (v / LOW_48) * LOW_48 && v % LOW_48 < Pow256(6)
    ensures Le(8, v) == Le(6, v % LOW_48) + Le(2, v / LOW_48)
  {
    assert Pow256(6) == LOW_48;
    LeAppend(6, 2, v % LOW_48, v / LOW_48);
  }

  /** What `find_meta_page_for_root` reads: the bytes of an entry decode as a meta
      record exactly when module BtreeScan says so, and name the same root. */
  lemma ReadAsMeta(level: nat, e: P.Entry)
    requires e.page < Pow256(8)
    ensures DecodeMeta(Encode(level, e)).Ok? <==> RecordRoot(level, e).Some?
    ensures RecordRoot(level, e).Some? ==> DecodeMeta(Encode(level, e)).value.0 == RecordRoot(level, e).value
  {
    var b := Encode(level, e);
    if level == 0 && e.key == [] {
      assert b[..8] == Le(8, e.page);
      LeRoundTrip(8, e.page);
    } else if level > 0 && |e.key| == 2 {
      HighBytes(e.page);
      assert b[..8] == e.key + Le(6, e.page % LOW_48);
      ValueAfterPair(e.key, Le(6, e.page % LOW_48));
      LeRoundTrip(6, e.page % LOW_48);
      assert e.key[1..] == [e.key[1]] && [e.key[1]][1..] == [];
    }
  }

  /** The bytes of a meta record, appended to any page, are those of the entry
      module BtreeFinish appends. */
  lemma MetaRecordBytes(level: nat, root: nat, rootLevel: nat)
    requires root < Pow256(8) && rootLevel < Pow256(2)
    ensures Encode(level, MetaEntry(level, root, rootLevel)) == EncodeMeta(root, rootLevel)
  {
    if level == 0 {
      assert [] + Le(8, root) + Le(2, rootLevel) == EncodeMeta(root, rootLevel);
    } else {
      var rest := root / 65536;
      var key := [root % 256, (root / 256) % 256];
      assert Pow256(6) == LOW_48 && rest < LOW_48;
      LeAppend(6, 2, rest, rootLevel);
      assert root / 256 / 256 == rest;
      assert Le(8, root) == [root % 256] + Le(7, root / 256) && Le(7, root / 256) == [(root / 256) % 256] + Le(6, rest);
      assert key + (Le(6, rest) + Le(2, rootLevel)) + [] == Le(8, root) + Le(2, rootLevel);
    }
  }

  // ---- Pages ----

  /** `btpo_level` and `btpo_flags`, the upper byte of `pd_flags`. */
  function StatusByte(p: P.Page): nat
  {
    p.level + (if p.flags.leaf then 16 else 0) + (if p.flags.root then 32 else 0)
    + (if p.flags.splitIncomplete then 128 else 0)
  }

  /** Level and flags share the byte without loss exactly up to the level bound. */
  lemma StatusExact(p: P.Page)
    ensures StatusByte(p) % 16 == p.level <==> p.level <= P.MAX_LEVEL
    ensures p.level <= P.MAX_LEVEL ==>
              && StatusByte(p) < 256 && (StatusByte(p) / 16 % 2 == 1 <==> p.flags.leaf)
              && (StatusByte(p) / 32 % 2 == 1 <==> p.flags.root) && (StatusByte(p) / 128 == 1 <==> p.flags.splitIncomplete)
  {
    var high := (if p.flags.leaf then 1 else 0) + (if p.flags.root then 2 else 0) + (if p.flags.splitIncomplete then 8 else 0);
    assert StatusByte(p) == 16 * high + p.level;
  }

  /** The fields of the header and the special space that no entry operation
      touches: `pd_lsn`, level and flags, the sibling links. */
  ghost predicate SameHeader(b: Bytes, p: P.Page)
    requires SlottedBytes.IsPage(b)
  {
    && Value(b[..8]) == p.lsn && b[13] as int == StatusByte(p)
    && Value(b[P.PD_SPECIAL..P.PD_SPECIAL + 8]) == p.prev && Value(b[P.PD_SPECIAL + 8..]) == p.next
  }

  /** The bytes hold exactly the entries of the page, with the same
      `pd_upper`, header fields and links. */
  ghost predicate Represents(b: Bytes, p: P.Page)
  {
    && SlottedBytes.Clean(b) && SameHeader(b, p)
    && SlottedBytes.PdSpecial(b) == P.PD_SPECIAL && SlottedBytes.PdUpper(b) == p.upper
    && |SlottedBytes.Tuples(b)| == |p.entries|
    && forall i :: 0 <= i < |p.entries| ==> SlottedBytes.Tuples(b)[i] == Some(Encode(p.level, p.entries[i]))
  }

  lemma KeepsHeader(b: Bytes, b': Bytes, p: P.Page, p': P.Page)
    requires SlottedBytes.IsPage(b) && SlottedBytes.IsPage(b') && SameHeader(b, p)
    requires forall k :: 0 <= k < 14 || P.PD_SPECIAL <= k < SlottedBytes.PAGE_SIZE ==> b'[k] == b[k]
    requires p'.lsn == p.lsn && p'.level == p.level && p'.flags == p.flags && p'.prev == p.prev && p'.next == p.next
    ensures SameHeader(b', p')
  {
    assert b'[..8] == b[..8] && b'[P.PD_SPECIAL..P.PD_SPECIAL + 8] == b[P.PD_SPECIAL..P.PD_SPECIAL + 8];
    assert b'[P.PD_SPECIAL + 8..] == b[P.PD_SPECIAL + 8..];
  }

  lemma SameGeometry(b: Bytes, p: P.Page)
    requires Represents(b, p)
    ensures P.GoodGeometry(p) && SlottedBytes.BtreeGeometry(b)
    ensures SlottedBytes.PdLower(b) == P.Lower(p)
  {
    hide U16;
    hide SlottedBytes.Tuples;
  }

  /** `insert_entry_at` on the bytes is insertion on the entry-level page, with
      the same refusals. */
  lemma InsertRefines(b: Bytes, p: P.Page, slot: nat, e: P.Entry)
    requires Represents(b, p)
    ensures SlottedBytes.InsertEntryAt(b, slot, Encode(p.level, e)).Ok? <==> P.InsertEntryAt(p, slot, e).Ok?
    ensures P.InsertEntryAt(p, slot, e).Ok? ==>
              Represents(SlottedBytes.InsertEntryAt(b, slot, Encode(p.level, e)).value, P.InsertEntryAt(p, slot, e).value)
  {
    hide U16;
    hide SlottedBytes.LpAt;
    hide SameHeader;
    hide Encode;
    hide SlottedBytes.Carve;
    var x := Encode(p.level, e);
    SameGeometry(b, p);
    if P.InsertEntryAt(p, slot, e).Ok? {
      var p' := P.InsertEntryAt(p, slot, e).value;
      SlottedBytes.InsertEntryExact(b, slot, x);
      InsertedUpper(b, slot, x);
      KeepsHeader(b, SlottedBytes.InsertEntryAt(b, slot, x).value, p, p');
      hide SlottedBytes.InsertEntryAt;
      var b' := SlottedBytes.InsertEntryAt(b, slot, x).value;
      forall i | 0 <= i < |p'.entries| ensures SlottedBytes.Tuples(b')[i] == Some(Encode(p.level, p'.entries[i])) {
        var j := if i <= slot then i else i - 1;
        assert i != slot ==> p'.entries[i] == p.entries[j] && SlottedBytes.Tuples(b')[i] == SlottedBytes.Tuples(b)[j];
      }
    }
  }

  lemma InsertedUpper(b: Bytes, slot: nat, x: Bytes)
    requires SlottedBytes.IsPage(b) && SlottedBytes.InsertEntryAt(b, slot, x).Ok?
    ensures SlottedBytes.IsPage(SlottedBytes.InsertEntryAt(b, slot, x).value)
    ensures SlottedBytes.PdUpper(SlottedBytes.InsertEntryAt(b, slot, x).value) == SlottedBytes.PdUpper(b) - |x|
    ensures forall k :: 0 <= k < 14 || SlottedBytes.PdUpper(b) <= k < SlottedBytes.PAGE_SIZE ==>
                          SlottedBytes.InsertEntryAt(b, slot, x).value[k] == b[k]
  {
    var shifted := SlottedBytes.ShiftRight(b, slot);
    SlottedBytes.ShiftKeeps(b, slot);
    SlottedBytes.CarveHeader(shifted, x, slot, SlottedBytes.PdLower(b) + SlottedBytes.LP_SIZE);
    hide SlottedBytes.Carve;
    hide U16;
  }

  /** `remove_entry_at` on the bytes is removal on the entry-level page. */
  lemma RemoveRefines(b: Bytes, p: P.Page, slot: nat)
    requires Represents(b, p)
    ensures SlottedBytes.RemoveEntryAt(b, slot).Ok? <==> P.RemoveEntryAt(p, slot).Ok?
    ensures P.RemoveEntryAt(p, slot).Ok? ==>
              Represents(SlottedBytes.RemoveEntryAt(b, slot).value, P.RemoveEntryAt(p, slot).value)
  {
    hide U16;
    hide SlottedBytes.LpAt;
    hide SameHeader;
    hide Encode;
    SameGeometry(b, p);
    if P.RemoveEntryAt(p, slot).Ok? {
      var p' := P.RemoveEntryAt(p, slot).value;
      SlottedBytes.RemoveEntryExact(b, slot);
      SlottedBytes.RemoveHeader(b, slot);
      KeepsHeader(b, SlottedBytes.RemoveEntryAt(b, slot).value, p, p');
      hide SlottedBytes.RemoveEntryAt;
      var b' := SlottedBytes.RemoveEntryAt(b, slot).value;
      forall i | 0 <= i < |p'.entries| ensures SlottedBytes.Tuples(b')[i] == Some(Encode(p.level, p'.entries[i])) {
        var j := if i < slot then i else i + 1;
        assert p'.entries[i] == p.entries[j] && SlottedBytes.Tuples(b')[i] == SlottedBytes.Tuples(b)[j];
      }
    }
  }
}

/** Slotted pages in place: the operations of module SlottedBytes on the raw
    page buffer (crates/pg-am-heap/src/slotted_page.rs,
    crates/pg-am-btree/src/page.rs). */
module SlottedArrays {
  import opened Keys
  import opened LittleEndian
  import opened Outcome
  import opened Sequences
  import opened SlottedBytes

  type Buffer = array<byte>

  /** `copy_from_slice`. */
  method Write(a: Buffer, at: nat, x: Bytes)
    requires at + |x| <= a.Length
    modifies a
    ensures a[..] == Put(old(a[..]), at, x)
  {
    for i := 0 to |x|
      invariant forall k :: 0 <= k < a.Length ==> a[k] == if at <= k < at + i then x[k - at] else old(a[k])
    {
      a[at + i] := x[i];
    }
  }

  /** `copy_within(from..to, from + 4)`, back to front. */
  method MoveRight(a: Buffer, from: nat, to: nat)
    requires from <= to && to + LP_SIZE <= a.Length
    modifies a
    ensures a[..] == Put(old(a[..]), from + LP_SIZE, old(a[from..to]))
  {
    var i := to;
    while i > from
      invariant from <= i <= to
      invariant forall k :: 0 <= k < a.Length ==>
                  a[k] == if i + LP_SIZE <= k < to + LP_SIZE then old(a[k - LP_SIZE]) else old(a[k])
    {
      i := i - 1;
      a[i + LP_SIZE] := a[i];
    }
  }

  /** `copy_within(from..to, from - 4)`, front to back. */
  method MoveLeft(a: Buffer, from: nat, to: nat)
    requires LP_SIZE <= from <= to <= a.Length
    modifies a
    ensures a[..] == Put(old(a[..]), from - LP_SIZE, old(a[from..to]))
  {
    for i := from to to
      invariant forall k :: 0 <= k < a.Length ==>
                  a[k] == if from - LP_SIZE <= k < i - LP_SIZE then old(a[k + LP_SIZE]) else old(a[k])
    {
      a[i - LP_SIZE] := a[i];
    }
  }

  /** `init_with_special`. */
  method InitWithSpecial(a: Buffer, special: nat)
    requires a.Length == PAGE_SIZE && special <= PAGE_SIZE - HEADER
    modifies a
    ensures Clean(a[..]) && Tuples(a[..]) == []
    ensures PdSpecial(a[..]) == PdUpper(a[..]) == PAGE_SIZE - special
  {
    for i := 0 to PAGE_SIZE
      invariant forall k :: 0 <= k < i ==> a[k] == 0
    {
      a[i] := 0;
    }
    var top := PAGE_SIZE - special;
    Write(a, 14, Le16(HEADER));
    Write(a, 16, Le16(top));
    Write(a, 18, Le16(top));
    InitFields(a[..], top);
  }

  lemma InitFields(b: Bytes, top: nat)
    requires IsPage(b) && HEADER <= top <= PAGE_SIZE
    requires U16(b, 14) == HEADER && U16(b, 16) == top && U16(b, 18) == top
    ensures Clean(b) && Tuples(b) == [] && PdSpecial(b) == PdUpper(b) == top
  {}

  /** `tuple`: reads stay in bounds and terminate on arbitrary bytes. */
  method TupleAt(a: Buffer, slot: nat) returns (r: Result<Option<Bytes>>)
    requires a.Length == PAGE_SIZE
    ensures r == ReadTuple(a[..], slot, SlotCount(a[..]))
  {
    var b := a[..];
    var cur: nat, fuel: nat := slot, SlotCount(b);
    while true
      invariant ReadTuple(b, slot, SlotCount(b)) == ReadTuple(b, cur, fuel)
      decreases fuel
    {
      if !Geometry(b) {
        return Err(Corrupted);
      }
      if cur >= SlotCount(b) {
        return Ok(None);
      }
      var lp := LpAt(b, cur);
      if lp.flags.Redirect? {
        if fuel == 0 {
          return Err(Corrupted);
        }
        cur, fuel := lp.off, fuel - 1;
      } else if !lp.flags.Normal? {
        return Ok(None);
      } else if lp.off < PdUpper(b) || lp.off + lp.len > PdSpecial(b) {
        return Err(Corrupted);
      } else {
        return Ok(Some(a[lp.off..lp.off + lp.len]));
      }
    }
  }

  /** The first-fit search for a recyclable slot. */
  method FindUnused(a: Buffer) returns (slot: nat)
    requires a.Length == PAGE_SIZE
    ensures slot == FirstUnused(a[..], 0)
  {
    hide LpAt;
    var b := a[..];
    slot := 0;
    while slot < SlotCount(b) && !LpAt(b, slot).flags.Unused?
      invariant 0 <= slot <= SlotCount(b) && FirstUnused(b, 0) == FirstUnused(b, slot)
      decreases SlotCount(b) - slot
    {
      slot := slot + 1;
    }
  }

  /** The writes both insertions end with. */
  method CarveInPlace(a: Buffer, x: Bytes, slot: nat, lower: nat)
    requires a.Length == PAGE_SIZE && |x| <= PdUpper(a[..]) <= PAGE_SIZE && PdUpper(a[..]) - |x| >= lower
    requires HEADER + LP_SIZE * slot + LP_SIZE <= lower
    modifies a
    ensures a[..] == Carve(old(a[..]), x, slot, lower)
  {
    hide U16;
    var upper := PdUpper(a[..]) - |x|;
    Write(a, upper, x);
    Write(a, HEADER + LP_SIZE * slot, Le32(LpBits(Lp(upper, Normal, |x|))));
    Write(a, 14, Le16(lower));
    Write(a, 16, Le16(upper));
  }

  /** `add_tuple`. */
  method AddTupleInPlace(a: Buffer, x: Bytes) returns (r: Result<nat>)
    requires a.Length == PAGE_SIZE
    modifies a
    ensures AddTuple(old(a[..]), x).Err? ==> r == Err(AddTuple(old(a[..]), x).error) && a[..] == old(a[..])
    ensures AddTuple(old(a[..]), x).Ok? ==>
              r == Ok(AddTuple(old(a[..]), x).value.1) && a[..] == AddTuple(old(a[..]), x).value.0
  {
    hide Carve;
    hide LpAt;
    hide U16;
    if !Geometry(a[..]) {
      return Err(Corrupted);
    }
    if |x| == 0 {
      return Err(InvalidArgument);
    }
    if |x| + HEADER + LP_SIZE > PdSpecial(a[..]) {
      return Err(TupleTooLarge);
    }
    var slot := FindUnused(a);
    var lower := if slot < SlotCount(a[..]) then PdLower(a[..]) else PdLower(a[..]) + LP_SIZE;
    if PdUpper(a[..]) - |x| < lower {
      return Err(PageFull);
    }
    CarveInPlace(a, x, slot, lower);
    return Ok(slot);
  }

  /** `delete_tuple`. */
  method DeleteTupleInPlace(a: Buffer, slot: nat) returns (r: Result<()>)
    requires a.Length == PAGE_SIZE
    modifies a
    ensures DeleteTuple(old(a[..]), slot).Err? ==> r == Err(DeleteTuple(old(a[..]), slot).error) && a[..] == old(a[..])
    ensures DeleteTuple(old(a[..]), slot).Ok? ==> r == Ok(()) && a[..] == DeleteTuple(old(a[..]), slot).value
  {
    hide LpAt;
    if !Geometry(a[..]) {
      return Err(Corrupted);
    }
    if slot >= SlotCount(a[..]) || !LpAt(a[..], slot).flags.Normal? {
      return Err(InvalidSlot);
    }
    FieldBounds(a[..], slot);
    Write(a, HEADER + LP_SIZE * slot, Le32(LpBits(LpAt(a[..], slot).(flags := Unused))));
    return Ok(());
  }

  /** `insert_entry_at`: the bytes, then the shifted pointers, then the new
      pointer and the header. */
  method InsertEntryInPlace(a: Buffer, slot: nat, x: Bytes) returns (r: Result<()>)
    requires a.Length == PAGE_SIZE
    modifies a
    ensures InsertEntryAt(old(a[..]), slot, x).Err? ==>
              r == Err(InsertEntryAt(old(a[..]), slot, x).error) && a[..] == old(a[..])
    ensures InsertEntryAt(old(a[..]), slot, x).Ok? ==> r == Ok(()) && a[..] == InsertEntryAt(old(a[..]), slot, x).value
  {
    hide U16;
    ghost var b := a[..];
    if !BtreeGeometry(a[..]) {
      return Err(Corrupted);
    }
    if |x| == 0 {
      return Err(InvalidArgument);
    }
    if slot > SlotCount(a[..]) {
      return Err(Corrupted);
    }
    if |x| + HEADER + LP_SIZE > BTREE_SPECIAL {
      return Err(KeyTooLarge);
    }
    if PdUpper(a[..]) - PdLower(a[..]) < |x| + LP_SIZE {
      return Err(PageFull);
    }
    var lower, upper := PdLower(a[..]), PdUpper(a[..]) - |x|;
    var from := HEADER + LP_SIZE * slot;
    ShiftKeeps(b, slot);
    WritesCommute(b, upper, x, from, lower);
    Write(a, upper, x);
    MoveRight(a, from, lower);
    Write(a, from, Le32(LpBits(Lp(upper, Normal, |x|))));
    Write(a, 14, Le16(lower + LP_SIZE));
    Write(a, 16, Le16(upper));
    return Ok(());
  }

  /** Writing the entry above the pointers and shifting the pointers do not
      interfere. */
  lemma WritesCommute(b: Bytes, upper: nat, x: Bytes, from: nat, to: nat)
    requires from <= to && to + LP_SIZE <= upper && upper + |x| <= |b|
    ensures Put(Put(b, upper, x), from + LP_SIZE, Put(b, upper, x)[from..to])
            == Put(Put(b, from + LP_SIZE, b[from..to]), upper, x)
  {
    assert Put(b, upper, x)[from..to] == b[from..to];
  }

  /** `remove_entry_at`. */
  method RemoveEntryInPlace(a: Buffer, slot: nat) returns (r: Result<()>)
    requires a.Length == PAGE_SIZE
    modifies a
    ensures RemoveEntryAt(old(a[..]), slot).Err? ==>
              r == Err(RemoveEntryAt(old(a[..]), slot).error) && a[..] == old(a[..])
    ensures RemoveEntryAt(old(a[..]), slot).Ok? ==> r == Ok(()) && a[..] == RemoveEntryAt(old(a[..]), slot).value
  {
    hide U16;
    if !BtreeGeometry(a[..]) || slot >= SlotCount(a[..]) {
      return Err(Corrupted);
    }
    var lower := PdLower(a[..]);
    MoveLeft(a, HEADER + LP_SIZE * (slot + 1), lower);
    Write(a, 14, Le16(lower - LP_SIZE));
    return Ok(());
  }
}

/** The byte layout of slotted pages (crates/pg-am-heap/src/slotted_page.rs,
    crates/pg-am-heap/src/line_pointer.rs and the entry operations of
    crates/pg-am-btree/src/page.rs).

    The functions say what each operation does to the 8192 bytes; module
    SlottedArrays does it in place. */
module SlottedBytes {
  import opened Keys
  import opened LittleEndian
  import opened Outcome
  import opened Sequences

  const PAGE_SIZE := 8192
  const HEADER := 32
  const LP_SIZE := 4
  const BTREE_SPECIAL := 8176

  predicate IsPage(b: Bytes) { |b| == PAGE_SIZE }

  // ---- Little-endian fields ----

  /** Overwrite `|x|` bytes from `at` on. */
  function Put(b: Bytes, at: nat, x: Bytes): (b': Bytes)
    requires at + |x| <= |b|
    ensures |b'| == |b|
    ensures forall i :: 0 <= i < |b| ==> b'[i] == if at <= i < at + |x| then x[i - at] else b[i]
  {
    b[..at] + x + b[at + |x|..]
  }

  lemma Put16(b: Bytes, at: nat, v: nat)
    requires at + 2 <= |b| && v < 65536
    ensures U16(Put(b, at, Le16(v)), at) == v
    ensures forall i :: 0 <= i && i + 2 <= |b| && (i + 2 <= at || i >= at + 2) ==> U16(Put(b, at, Le16(v)), i) == U16(b, i)
  {}

  // ---- Line pointers ----

  datatype LpFlags = Unused | Normal | Redirect | Dead

  datatype LinePointer = Lp(off: nat, flags: LpFlags, len: nat)

  function FlagBits(f: LpFlags): nat
  {
    match f case Unused => 0 case Normal => 1 case Redirect => 2 case Dead => 3
  }

  function FlagsOf(bits: nat): LpFlags
  {
    if bits == 0 then Unused else if bits == 1 then Normal else if bits == 2 then Redirect else Dead
  }

  /** `lp_off:15 / lp_flags:2 / lp_len:15`. */
  function LpBits(lp: LinePointer): (v: nat)
    requires lp.off < 32768 && lp.len < 32768
    ensures v < 0x1_0000_0000
  {
    lp.off + 32768 * FlagBits(lp.flags) + 131072 * lp.len
  }

  function LpOf(v: nat): LinePointer
  {
    Lp(v % 32768, FlagsOf(v / 32768 % 4), v / 131072)
  }

  /** Packing and unpacking a line pointer lose nothing. */
  lemma LpRoundTrip(lp: LinePointer)
    requires lp.off < 32768 && lp.len < 32768
    ensures LpOf(LpBits(lp)) == lp
  {
    var v := LpBits(lp);
    var high := FlagBits(lp.flags) + 4 * lp.len;
    assert v == lp.off + 32768 * high;
    assert v / 32768 == high && v % 32768 == lp.off;
    assert v / 131072 == lp.len;
  }

  // ---- The header ----

  function PdLower(b: Bytes): nat requires IsPage(b) { U16(b, 14) }
  function PdUpper(b: Bytes): nat requires IsPage(b) { U16(b, 16) }
  function PdSpecial(b: Bytes): nat requires IsPage(b) { U16(b, 18) }

  /** `checked_header`. */
  predicate Geometry(b: Bytes)
    requires IsPage(b)
  {
    && HEADER <= PdLower(b) <= PdUpper(b) <= PdSpecial(b) <= PAGE_SIZE
    && (PdLower(b) - HEADER) % LP_SIZE == 0
  }

  function SlotCount(b: Bytes): nat
    requires IsPage(b)
  {
    if PdLower(b) < HEADER then 0 else (PdLower(b) - HEADER) / LP_SIZE
  }

  function LpAt(b: Bytes, slot: nat): LinePointer
    requires IsPage(b)
  {
    if HEADER + LP_SIZE * slot + LP_SIZE <= PAGE_SIZE then LpOf(U32(b, HEADER + LP_SIZE * slot))
    else Lp(0, Unused, 0)
  }

  function PutLp(b: Bytes, slot: nat, lp: LinePointer): (b': Bytes)
    requires IsPage(b) && HEADER + LP_SIZE * slot + LP_SIZE <= PAGE_SIZE && lp.off < 32768 && lp.len < 32768
    ensures IsPage(b')
  {
    Put(b, HEADER + LP_SIZE * slot, Le32(LpBits(lp)))
  }

  lemma PutLpReads(b: Bytes, slot: nat, lp: LinePointer)
    requires IsPage(b) && HEADER + LP_SIZE * slot + LP_SIZE <= PAGE_SIZE && lp.off < 32768 && lp.len < 32768
    ensures LpAt(PutLp(b, slot, lp), slot) == lp
    ensures forall i :: 0 <= i != slot ==> LpAt(PutLp(b, slot, lp), i) == LpAt(b, i)
    ensures forall i :: 0 <= i < HEADER ==> PutLp(b, slot, lp)[i] == b[i]
  {
    LpRoundTrip(lp);
    Le32RoundTrip(LpBits(lp));
    var b' := PutLp(b, slot, lp);
    var at := HEADER + LP_SIZE * slot;
    assert b'[at..at + 4] == Le32(LpBits(lp));
    assert U32(b', at) == U32(Le32(LpBits(lp)), 0);
  }

  // ---- What a page holds ----

  /** The bytes a line pointer names, if it is Normal. */
  function TupleOf(b: Bytes, lp: LinePointer): Option<Bytes>
    requires IsPage(b)
  {
    if lp.flags.Normal? && lp.off + lp.len <= PAGE_SIZE then Some(b[lp.off..lp.off + lp.len]) else None
  }

  function Tuples(b: Bytes): (ts: seq<Option<Bytes>>)
    requires IsPage(b)
    ensures |ts| == SlotCount(b)
  {
    seq(SlotCount(b), i requires 0 <= i < SlotCount(b) => TupleOf(b, LpAt(b, i)))
  }

  /** `debug_assert_invariants`: live regions lie in `[pd_upper, pd_special)`
      and do not overlap. */
  ghost predicate Clean(b: Bytes)
  {
    && IsPage(b) && Geometry(b)
    && (forall i :: 0 <= i < SlotCount(b) ==> LpClean(LpAt(b, i), PdUpper(b), PdSpecial(b)))
    && forall i, j :: 0 <= i < j < SlotCount(b) ==> Apart(LpAt(b, i), LpAt(b, j))
  }

  predicate LpClean(lp: LinePointer, upper: nat, special: nat)
  {
    lp.flags.Unused? || (lp.flags.Normal? && lp.len > 0 && upper <= lp.off && lp.off + lp.len <= special)
  }

  predicate Apart(p: LinePointer, q: LinePointer)
  {
    p.flags.Normal? && q.flags.Normal? ==> p.off + p.len <= q.off || q.off + q.len <= p.off
  }

  // ---- Reading any bytes at all ----

  /** `tuple`: Redirect pointers are followed at most slot-count times. */
  function ReadTuple(b: Bytes, slot: nat, fuel: nat): Result<Option<Bytes>>
    requires IsPage(b)
    decreases fuel
  {
    if !Geometry(b) then Err(Corrupted)
    else if slot >= SlotCount(b) then Ok(None)
    else
      var lp := LpAt(b, slot);
      match lp.flags
      case Redirect => if fuel == 0 then Err(Corrupted) else ReadTuple(b, lp.off, fuel - 1)
      case Normal =>
        if lp.off < PdUpper(b) || lp.off + lp.len > PdSpecial(b) then Err(Corrupted)
        else Ok(Some(b[lp.off..lp.off + lp.len]))
      case _ => Ok(None)
  }

  /** On a sound page reading returns what the slot holds. */
  lemma ReadClean(b: Bytes, slot: nat, fuel: nat)
    requires Clean(b)
    ensures ReadTuple(b, slot, fuel) == Ok(if slot < SlotCount(b) then Tuples(b)[slot] else None)
  {
    hide LpAt;
    if slot < SlotCount(b) {
      assert LpClean(LpAt(b, slot), PdUpper(b), PdSpecial(b));
    }
  }

  // ---- Rearranging a page ----

  /** `b'` has the slots `src` of `b`, with -1 for a tuple `x` newly carved
      below the old `pd_upper`. */
  ghost predicate Rearranged(b: Bytes, b': Bytes, x: Bytes, src: seq<int>)
    requires IsPage(b) && IsPage(b')
  {
    && Geometry(b') && PdSpecial(b') == PdSpecial(b) && SlotCount(b') == |src|
    && PdUpper(b') + |x| == PdUpper(b) <= PdSpecial(b)
    && (forall i :: 0 <= i < |src| ==> -1 <= src[i] < SlotCount(b))
    && (forall i, j :: 0 <= i < j < |src| ==> src[i] != src[j])
    && (forall i :: 0 <= i < |src| ==>
          LpAt(b', i) == if src[i] < 0 then Lp(PdUpper(b'), Normal, |x|) else LpAt(b, src[i]))
    && (forall k :: PdUpper(b') <= k < PdUpper(b) ==> b'[k] == x[k - PdUpper(b')])
    && (forall k :: PdUpper(b) <= k < PAGE_SIZE ==> b'[k] == b[k])
  }

  lemma KeptTuple(b: Bytes, b': Bytes, lp: LinePointer, upper: nat, special: nat)
    requires IsPage(b) && IsPage(b') && LpClean(lp, upper, special) && special <= PAGE_SIZE
    requires forall k :: upper <= k < PAGE_SIZE ==> b'[k] == b[k]
    ensures TupleOf(b', lp) == TupleOf(b, lp)
  {
    if lp.flags.Normal? {
      assert b'[lp.off..lp.off + lp.len] == b[lp.off..lp.off + lp.len];
    }
  }

  lemma CarvedBytes(b: Bytes, at: nat, x: Bytes)
    requires at + |x| <= |b| && forall k :: at <= k < at + |x| ==> b[k] == x[k - at]
    ensures b[at..at + |x|] == x
  {}

  /** The page stays sound and its slots hold what they held, the new one the
      new bytes. */
  lemma RearrangedTuples(b: Bytes, b': Bytes, x: Bytes, src: seq<int>)
    requires Clean(b) && IsPage(b') && Rearranged(b, b', x, src)
    requires forall i :: 0 <= i < |src| && src[i] < 0 ==> |x| > 0
    ensures Clean(b')
    ensures forall i :: 0 <= i < |src| ==> Tuples(b')[i] == if src[i] < 0 then Some(x) else Tuples(b)[src[i]]
  {
    hide LpAt;
    hide U16;
    forall i | 0 <= i < |src|
      ensures LpClean(LpAt(b', i), PdUpper(b'), PdSpecial(b'))
      ensures Tuples(b')[i] == if src[i] < 0 then Some(x) else Tuples(b)[src[i]]
    {
      if src[i] < 0 {
        CarvedBytes(b', PdUpper(b'), x);
      } else {
        assert LpClean(LpAt(b, src[i]), PdUpper(b), PdSpecial(b));
        KeptTuple(b, b', LpAt(b, src[i]), PdUpper(b), PdSpecial(b));
      }
    }
    forall i, j | 0 <= i < j < |src| ensures Apart(LpAt(b', i), LpAt(b', j)) {
      assert src[i] >= 0 ==> LpClean(LpAt(b, src[i]), PdUpper(b), PdSpecial(b));
      assert src[j] >= 0 ==> LpClean(LpAt(b, src[j]), PdUpper(b), PdSpecial(b));
      if src[i] >= 0 && src[j] >= 0 {
        assert if src[i] < src[j] then Apart(LpAt(b, src[i]), LpAt(b, src[j])) else Apart(LpAt(b, src[j]), LpAt(b, src[i]));
      }
    }
  }

  // ---- Adding a tuple ----

  /** The first Unused slot from `from` on, or the slot count. */
  function FirstUnused(b: Bytes, from: nat): (s: nat)
    requires IsPage(b) && from <= SlotCount(b)
    ensures from <= s <= SlotCount(b)
    ensures s < SlotCount(b) ==> LpAt(b, s).flags.Unused?
    ensures forall i :: from <= i < s ==> !LpAt(b, i).flags.Unused?
    decreases SlotCount(b) - from
  {
    if from == SlotCount(b) || LpAt(b, from).flags.Unused? then from else FirstUnused(b, from + 1)
  }

  /** Carve `x` below `pd_upper`, point `slot` at it and set the header. */
  function Carve(b: Bytes, x: Bytes, slot: nat, lower: nat): Bytes
    requires IsPage(b) && |x| <= PdUpper(b) <= PAGE_SIZE && PdUpper(b) - |x| >= lower
    requires HEADER + LP_SIZE * slot + LP_SIZE <= lower
  {
    var upper := PdUpper(b) - |x|;
    var b1 := Put(b, upper, x);
    var b2 := PutLp(b1, slot, Lp(upper, Normal, |x|));
    var b3 := Put(b2, 14, Le16(lower));
    Put(b3, 16, Le16(upper))
  }

  function AddTuple(b: Bytes, x: Bytes): Result<(Bytes, nat)>
    requires IsPage(b)
  {
    if !Geometry(b) then Err(Corrupted)
    else if |x| == 0 then Err(InvalidArgument)
    else if |x| + HEADER + LP_SIZE > PdSpecial(b) then Err(TupleTooLarge)
    else
      var slot := FirstUnused(b, 0);
      var lower := if slot < SlotCount(b) then PdLower(b) else PdLower(b) + LP_SIZE;
      if PdUpper(b) - |x| < lower then Err(PageFull)
      else Ok((Carve(b, x, slot, lower), slot))
  }

  lemma LpFrame(b: Bytes, b': Bytes, i: nat)
    requires IsPage(b) && IsPage(b')
    requires forall k :: HEADER + LP_SIZE * i <= k < HEADER + LP_SIZE * i + LP_SIZE && k < PAGE_SIZE ==> b'[k] == b[k]
    ensures LpAt(b', i) == LpAt(b, i)
  {}

  /** The header fields after the last two writes. */
  lemma HeaderWritten(b: Bytes, lower: nat, upper: nat)
    requires IsPage(b) && lower < 65536 && upper < 65536
    ensures var b' := Put(Put(b, 14, Le16(lower)), 16, Le16(upper));
            && PdLower(b') == lower && PdUpper(b') == upper && PdSpecial(b') == PdSpecial(b)
            && forall k :: (0 <= k < 14 || 18 <= k < PAGE_SIZE) ==> b'[k] == b[k]
  {
    var b1 := Put(b, 14, Le16(lower));
    Put16(b, 14, lower);
    Put16(b1, 16, upper);
  }

  lemma CarveHeader(b: Bytes, x: Bytes, slot: nat, lower: nat)
    requires IsPage(b) && |x| <= PdUpper(b) <= PAGE_SIZE && PdUpper(b) - |x| >= lower
    requires HEADER + LP_SIZE * slot + LP_SIZE <= lower
    ensures var b', upper := Carve(b, x, slot, lower), PdUpper(b) - |x|;
            && IsPage(b') && PdLower(b') == lower && PdUpper(b') == upper && PdSpecial(b') == PdSpecial(b)
            && LpAt(b', slot) == Lp(upper, Normal, |x|)
            && (forall k :: upper <= k < PdUpper(b) ==> b'[k] == x[k - upper])
            && (forall k :: PdUpper(b) <= k < PAGE_SIZE ==> b'[k] == b[k])
            && (forall k :: 0 <= k < 14 ==> b'[k] == b[k])
  {
    var upper := PdUpper(b) - |x|;
    var b1 := Put(b, upper, x);
    var lp := Lp(upper, Normal, |x|);
    var b2 := PutLp(b1, slot, lp);
    PutLpReads(b1, slot, lp);
    HeaderWritten(b2, lower, upper);
    LpFrame(b2, Carve(b, x, slot, lower), slot);
  }

  lemma CarveOthers(b: Bytes, x: Bytes, slot: nat, lower: nat, i: nat)
    requires IsPage(b) && |x| <= PdUpper(b) <= PAGE_SIZE && PdUpper(b) - |x| >= lower
    requires HEADER + LP_SIZE * slot + LP_SIZE <= lower && HEADER + LP_SIZE * i + LP_SIZE <= lower && i != slot
    ensures LpAt(Carve(b, x, slot, lower), i) == LpAt(b, i)
  {
    hide LpAt;
    hide U16;
    hide PutLp;
    var upper := PdUpper(b) - |x|;
    var b1 := Put(b, upper, x);
    var b2 := PutLp(b1, slot, Lp(upper, Normal, |x|));
    HeaderWritten(b2, lower, upper);
    LpFrame(b2, Carve(b, x, slot, lower), i);
    PutLpReads(b1, slot, Lp(upper, Normal, |x|));
    LpFrame(b, b1, i);
  }

  /** `add_tuple` on a sound page: the page stays sound, the returned slot
      holds the bytes (a recycled slot, else a new one at the end), and every
      other slot holds what it held. */
  lemma AddTupleExact(b: Bytes, x: Bytes)
    requires Clean(b) && AddTuple(b, x).Ok?
    ensures var (b', slot) := AddTuple(b, x).value;
            && Clean(b') && PdSpecial(b') == PdSpecial(b) && slot <= |Tuples(b)|
            && Tuples(b') == (if slot < |Tuples(b)| then Tuples(b)[slot := Some(x)] else Tuples(b) + [Some(x)])
            && (slot < |Tuples(b)| ==> Tuples(b)[slot] == None)
  {
    hide Carve;
    hide U16;
    hide LpAt;
    var n, slot := SlotCount(b), FirstUnused(b, 0);
    var lower := if slot < n then PdLower(b) else PdLower(b) + LP_SIZE;
    var b' := Carve(b, x, slot, lower);
    var src := seq(if slot < n then n else n + 1, i => if i == slot then -1 else i);
    CarveHeader(b, x, slot, lower);
    forall i | 0 <= i < |src| && i != slot ensures LpAt(b', i) == LpAt(b, i) {
      CarveOthers(b, x, slot, lower, i);
    }
    assert Rearranged(b, b', x, src);
    RearrangedTuples(b, b', x, src);
  }

  // ---- Deleting a tuple ----

  function DeleteTuple(b: Bytes, slot: nat): Result<Bytes>
    requires IsPage(b)
  {
    if !Geometry(b) then Err(Corrupted)
    else if slot >= SlotCount(b) || !LpAt(b, slot).flags.Normal? then Err(InvalidSlot)
    else
      FieldBounds(b, slot);
      Ok(PutLp(b, slot, LpAt(b, slot).(flags := Unused)))
  }

  lemma FieldBounds(b: Bytes, slot: nat)
    requires IsPage(b)
    ensures LpAt(b, slot).off < 32768 && LpAt(b, slot).len < 32768
  {
    if HEADER + LP_SIZE * slot + LP_SIZE <= PAGE_SIZE {
      var v := U32(b, HEADER + LP_SIZE * slot);
      assert v < 0x1_0000_0000;
    }
  }

  /** `delete_tuple` frees exactly that slot. */
  lemma DeleteTupleExact(b: Bytes, slot: nat)
    requires Clean(b)
    ensures DeleteTuple(b, slot).Ok? <==> slot < |Tuples(b)| && Tuples(b)[slot].Some?
    ensures DeleteTuple(b, slot).Ok? ==>
              var b' := DeleteTuple(b, slot).value;
              Clean(b') && PdSpecial(b') == PdSpecial(b) && Tuples(b') == Tuples(b)[slot := None]
  {
    hide LpAt;
    hide U16;
    if slot < SlotCount(b) {
      assert LpClean(LpAt(b, slot), PdUpper(b), PdSpecial(b));
      if LpAt(b, slot).flags.Normal? {
        FieldBounds(b, slot);
        DeletedSlot(b, slot, LpAt(b, slot).(flags := Unused));
      }
    }
  }

  lemma UnlinkedHeader(b: Bytes, slot: nat, lp: LinePointer)
    requires IsPage(b) && Geometry(b) && slot < SlotCount(b) && lp.off < 32768 && lp.len < 32768
    ensures var b' := PutLp(b, slot, lp);
            && PdLower(b') == PdLower(b) && PdUpper(b') == PdUpper(b) && PdSpecial(b') == PdSpecial(b)
            && (forall k :: PdUpper(b) <= k < PAGE_SIZE ==> b'[k] == b[k])
            && forall i :: 0 <= i ==> LpAt(b', i) == if i == slot then lp else LpAt(b, i)
  {
    PutLpReads(b, slot, lp);
  }

  lemma DeletedSlot(b: Bytes, slot: nat, lp: LinePointer)
    requires Clean(b) && slot < SlotCount(b) && lp.flags.Unused? && lp.off < 32768 && lp.len < 32768
    ensures var b' := PutLp(b, slot, lp);
            Clean(b') && PdSpecial(b') == PdSpecial(b) && Tuples(b') == Tuples(b)[slot := None]
  {
    hide LpAt;
    hide U16;
    hide PutLp;
    UnlinkedHeader(b, slot, lp);
    var b' := PutLp(b, slot, lp);
    forall i | 0 <= i < SlotCount(b')
      ensures LpClean(LpAt(b', i), PdUpper(b'), PdSpecial(b')) && (i != slot ==> Tuples(b')[i] == Tuples(b)[i])
    {
      assert LpClean(LpAt(b, i), PdUpper(b), PdSpecial(b));
      KeptTuple(b, b', LpAt(b, i), PdUpper(b), PdSpecial(b));
    }
    forall i, j | 0 <= i < j < SlotCount(b') ensures Apart(LpAt(b', i), LpAt(b', j)) {
      assert Apart(LpAt(b, i), LpAt(b, j));
    }
  }

  // ---- Sorted pages: insert and remove in the middle ----

  /** The geometry of a B+Tree page: exactly 16 bytes of special space. */
  predicate BtreeGeometry(b: Bytes)
    requires IsPage(b)
  {
    Geometry(b) && PdSpecial(b) == BTREE_SPECIAL
  }

  /** Move the line pointers from `slot` on one place right. */
  function ShiftRight(b: Bytes, slot: nat): (b': Bytes)
    requires IsPage(b) && Geometry(b) && slot <= SlotCount(b) && PdLower(b) + LP_SIZE <= PAGE_SIZE
    ensures IsPage(b')
  {
    var from := HEADER + LP_SIZE * slot;
    Put(b, from + LP_SIZE, b[from..PdLower(b)])
  }

  function InsertEntryAt(b: Bytes, slot: nat, x: Bytes): Result<Bytes>
    requires IsPage(b)
  {
    if !BtreeGeometry(b) then Err(Corrupted)
    else if |x| == 0 then Err(InvalidArgument)
    else if slot > SlotCount(b) then Err(Corrupted)
    else if |x| + HEADER + LP_SIZE > BTREE_SPECIAL then Err(KeyTooLarge)
    else if PdUpper(b) - PdLower(b) < |x| + LP_SIZE then Err(PageFull)
    else
      var shifted := ShiftRight(b, slot);
      assert PdUpper(shifted) == PdUpper(b);
      Ok(Carve(shifted, x, slot, PdLower(b) + LP_SIZE))
  }

  lemma ShiftEffect(b: Bytes, slot: nat, i: nat)
    requires IsPage(b) && Geometry(b) && slot <= SlotCount(b) && PdLower(b) + LP_SIZE <= PAGE_SIZE
    requires i <= SlotCount(b) && i != slot
    ensures LpAt(ShiftRight(b, slot), i) == LpAt(b, if i < slot then i else i - 1)
  {
    var b' := ShiftRight(b, slot);
    if i < slot {
      LpFrame(b, b', i);
    } else {
      var at := HEADER + LP_SIZE * i;
      assert forall k :: at <= k < at + LP_SIZE ==> b'[k] == b[k - LP_SIZE];
      assert U32(b', at) == U32(b, at - LP_SIZE);
    }
  }

  lemma ShiftKeeps(b: Bytes, slot: nat)
    requires IsPage(b) && Geometry(b) && slot <= SlotCount(b) && PdLower(b) + LP_SIZE <= PAGE_SIZE
    ensures var b' := ShiftRight(b, slot);
            && PdUpper(b') == PdUpper(b) && PdSpecial(b') == PdSpecial(b)
            && forall k :: 0 <= k < 14 || PdLower(b) + LP_SIZE <= k < PAGE_SIZE ==> b'[k] == b[k]
  {}

  /** `insert_entry_at` on a sound page is sequence insertion. */
  lemma InsertEntryExact(b: Bytes, slot: nat, x: Bytes)
    requires Clean(b) && InsertEntryAt(b, slot, x).Ok?
    ensures var b' := InsertEntryAt(b, slot, x).value;
            && Clean(b') && PdSpecial(b') == PdSpecial(b) && slot <= |Tuples(b)|
            && Tuples(b') == InsertAt(Tuples(b), slot, Some(x))
  {
    hide Carve;
    hide LpAt;
    hide U16;
    hide ShiftRight;
    var n, lower := SlotCount(b), PdLower(b) + LP_SIZE;
    var shifted := ShiftRight(b, slot);
    ShiftKeeps(b, slot);
    var b' := Carve(shifted, x, slot, lower);
    CarveHeader(shifted, x, slot, lower);
    var src := seq(n + 1, i => if i == slot then -1 else if i < slot then i else i - 1);
    forall i | 0 <= i <= n && i != slot ensures LpAt(b', i) == LpAt(b, src[i]) {
      CarveOthers(shifted, x, slot, lower, i);
      ShiftEffect(b, slot, i);
    }
    assert Rearranged(b, b', x, src);
    RearrangedTuples(b, b', x, src);
  }

  function RemoveEntryAt(b: Bytes, slot: nat): Result<Bytes>
    requires IsPage(b)
  {
    if !BtreeGeometry(b) || slot >= SlotCount(b) then Err(Corrupted)
    else
      var from := HEADER + LP_SIZE * (slot + 1);
      var b1 := Put(b, from - LP_SIZE, b[from..PdLower(b)]);
      Ok(Put(b1, 14, Le16(PdLower(b) - LP_SIZE)))
  }

  lemma RemoveEffect(b: Bytes, slot: nat, i: nat)
    requires IsPage(b) && BtreeGeometry(b) && slot < SlotCount(b) && i < SlotCount(b) - 1
    ensures RemoveEntryAt(b, slot).Ok? && IsPage(RemoveEntryAt(b, slot).value)
    ensures LpAt(RemoveEntryAt(b, slot).value, i) == LpAt(b, if i < slot then i else i + 1)
  {
    var b' := RemoveEntryAt(b, slot).value;
    if i < slot {
      LpFrame(b, b', i);
    } else {
      var at := HEADER + LP_SIZE * i;
      assert forall k :: at <= k < at + LP_SIZE ==> b'[k] == b[k + LP_SIZE];
      assert U32(b', at) == U32(b, at + LP_SIZE);
    }
  }

  lemma RemoveHeader(b: Bytes, slot: nat)
    requires IsPage(b) && BtreeGeometry(b) && slot < SlotCount(b)
    ensures RemoveEntryAt(b, slot).Ok? && IsPage(RemoveEntryAt(b, slot).value)
    ensures var b' := RemoveEntryAt(b, slot).value;
            && PdLower(b') == PdLower(b) - LP_SIZE && PdUpper(b') == PdUpper(b) && PdSpecial(b') == PdSpecial(b)
            && forall k :: 0 <= k < 14 || PdUpper(b) <= k < PAGE_SIZE ==> b'[k] == b[k]
  {
    var from := HEADER + LP_SIZE * (slot + 1);
    Put16(Put(b, from - LP_SIZE, b[from..PdLower(b)]), 14, PdLower(b) - LP_SIZE);
  }

  /** `remove_entry_at` on a sound page is sequence removal. */
  lemma RemoveEntryExact(b: Bytes, slot: nat)
    requires Clean(b) && BtreeGeometry(b) && slot < |Tuples(b)|
    ensures RemoveEntryAt(b, slot).Ok?
    ensures var b' := RemoveEntryAt(b, slot).value;
            && Clean(b') && PdSpecial(b') == PdSpecial(b)
            && Tuples(b') == RemoveAt(Tuples(b), slot)
  {
    hide LpAt;
    hide U16;
    hide RemoveEntryAt;
    var n := SlotCount(b);
    RemoveHeader(b, slot);
    var b' := RemoveEntryAt(b, slot).value;
    var src := seq(n - 1, i => if i < slot then i else i + 1);
    forall i | 0 <= i < n - 1 ensures LpAt(b', i) == LpAt(b, src[i]) {
      RemoveEffect(b, slot, i);
    }
    assert Rearranged(b, b', [], src);
    RearrangedTuples(b, b', [], src);
  }

  // ---- Whole runs ----

  datatype Op = Add(tuple: Bytes) | Delete(slot: nat) | Insert(slot: nat, entry: Bytes) | Remove(slot: nat)

  /** A refused operation leaves the page alone. */
  function Perform(b: Bytes, op: Op): Bytes
    requires IsPage(b)
  {
    match op
    case Add(x) => if AddTuple(b, x).Ok? then AddTuple(b, x).value.0 else b
    case Delete(slot) => if DeleteTuple(b, slot).Ok? then DeleteTuple(b, slot).value else b
    case Insert(slot, x) => if InsertEntryAt(b, slot, x).Ok? then InsertEntryAt(b, slot, x).value else b
    case Remove(slot) => if RemoveEntryAt(b, slot).Ok? then RemoveEntryAt(b, slot).value else b
  }

  /** What a page amounts to: its slots, and the room left between the line
      pointers and the tuples. */
  datatype Slots = Slots(slots: seq<Option<Bytes>>, room: nat, special: nat)

  function View(b: Bytes): Slots
    requires IsPage(b) && Geometry(b)
  {
    Slots(Tuples(b), PdUpper(b) - PdLower(b), PdSpecial(b))
  }

  /** The first free slot, or a new one at the end. */
  function FirstFree(slots: seq<Option<Bytes>>): (n: nat)
    ensures n <= |slots| && (n < |slots| ==> slots[n] == None)
    ensures forall i :: 0 <= i < n ==> slots[i] != None
  {
    if slots == [] || slots[0].None? then 0 else 1 + FirstFree(slots[1..])
  }

  /** When an operation is refused, in terms of slots and room alone. */
  predicate Refused(v: Slots, op: Op)
  {
    match op
    case Add(x) =>
      || x == [] || |x| + HEADER + LP_SIZE > v.special
      || |x| + (if FirstFree(v.slots) < |v.slots| then 0 else LP_SIZE) > v.room
    case Delete(slot) => slot >= |v.slots| || v.slots[slot].None?
    case Insert(slot, x) =>
      || v.special != BTREE_SPECIAL || x == [] || slot > |v.slots|
      || |x| + HEADER + LP_SIZE > v.special || |x| + LP_SIZE > v.room
    case Remove(slot) => v.special != BTREE_SPECIAL || slot >= |v.slots|
  }

  /** The same operation on slots and room. */
  function Act(v: Slots, op: Op): Slots
  {
    if Refused(v, op) then v
    else
      match op
      case Add(x) =>
        var n := FirstFree(v.slots);
        if n < |v.slots| then v.(slots := v.slots[n := Some(x)], room := v.room - |x|)
        else v.(slots := v.slots + [Some(x)], room := v.room - |x| - LP_SIZE)
      case Delete(slot) => v.(slots := v.slots[slot := None])
      case Insert(slot, x) => v.(slots := InsertAt(v.slots, slot, Some(x)), room := v.room - |x| - LP_SIZE)
      case Remove(slot) => v.(slots := RemoveAt(v.slots, slot), room := v.room + LP_SIZE)
  }

  /** On a sound page a slot is free exactly when its pointer is Unused. */
  lemma UnusedIsFree(b: Bytes)
    requires Clean(b)
    ensures FirstUnused(b, 0) == FirstFree(Tuples(b))
  {
    hide LpAt;
    hide U16;
    var m, n := FirstUnused(b, 0), FirstFree(Tuples(b));
    forall i | 0 <= i < SlotCount(b) ensures LpAt(b, i).flags.Unused? <==> Tuples(b)[i] == None {
      assert LpClean(LpAt(b, i), PdUpper(b), PdSpecial(b));
    }
  }

  lemma AddActs(b: Bytes, x: Bytes)
    requires Clean(b)
    ensures Clean(Perform(b, Add(x))) && View(Perform(b, Add(x))) == Act(View(b), Add(x))
  {
    hide Carve;
    hide LpAt;
    hide U16;
    hide FirstUnused;
    hide FirstFree;
    assert |Tuples(b)| == SlotCount(b);
    UnusedIsFree(b);
    if AddTuple(b, x).Ok? {
      var slot := FirstUnused(b, 0);
      AddTupleExact(b, x);
      CarveHeader(b, x, slot, if slot < SlotCount(b) then PdLower(b) else PdLower(b) + LP_SIZE);
    }
    hide Tuples;
  }

  lemma DeleteActs(b: Bytes, slot: nat)
    requires Clean(b)
    ensures Clean(Perform(b, Delete(slot))) && View(Perform(b, Delete(slot))) == Act(View(b), Delete(slot))
  {
    hide LpAt;
    hide U16;
    hide Tuples;
    DeleteTupleExact(b, slot);
    if DeleteTuple(b, slot).Ok? {
      FieldBounds(b, slot);
      UnlinkedHeader(b, slot, LpAt(b, slot).(flags := Unused));
    }
  }

  lemma InsertActs(b: Bytes, slot: nat, x: Bytes)
    requires Clean(b)
    ensures Clean(Perform(b, Insert(slot, x))) && View(Perform(b, Insert(slot, x))) == Act(View(b), Insert(slot, x))
  {
    hide LpAt;
    hide U16;
    hide Carve;
    hide ShiftRight;
    assert |Tuples(b)| == SlotCount(b);
    if InsertEntryAt(b, slot, x).Ok? {
      InsertEntryExact(b, slot, x);
      ShiftKeeps(b, slot);
      CarveHeader(ShiftRight(b, slot), x, slot, PdLower(b) + LP_SIZE);
    }
    hide Tuples;
  }

  lemma RemoveActs(b: Bytes, slot: nat)
    requires Clean(b)
    ensures Clean(Perform(b, Remove(slot))) && View(Perform(b, Remove(slot))) == Act(View(b), Remove(slot))
  {
    hide LpAt;
    hide U16;
    assert |Tuples(b)| == SlotCount(b);
    if RemoveEntryAt(b, slot).Ok? {
      RemoveEntryExact(b, slot);
      RemoveHeader(b, slot);
    }
    hide Tuples;
  }

  lemma PerformActs(b: Bytes, op: Op)
    requires Clean(b)
    ensures Clean(Perform(b, op)) && View(Perform(b, op)) == Act(View(b), op)
  {
    match op
    case Add(x) => AddActs(b, x);
    case Delete(slot) => DeleteActs(b, slot);
    case Insert(slot, x) => InsertActs(b, slot, x);
    case Remove(slot) => RemoveActs(b, slot);
  }

  function Acted(v: Slots, ops: seq<Op>, k: nat): Slots
    requires k <= |ops|
  {
    if k == 0 then v else Act(Acted(v, ops, k - 1), ops[k - 1])
  }

  function After(b: Bytes, ops: seq<Op>, k: nat): (b': Bytes)
    requires IsPage(b) && k <= |ops|
    ensures IsPage(b')
  {
    if k == 0 then b else Perform(After(b, ops, k - 1), ops[k - 1])
  }

  /** Byte pages refine sequences: over every run of operations live regions
      stay apart and within bounds, every operation is refused exactly when the
      slots or the room call for it, and otherwise does to the slots what it
      does to a sequence. */
  lemma {:induction false} RunRefines(b: Bytes, ops: seq<Op>, k: nat)
    requires Clean(b) && k <= |ops|
    ensures Clean(After(b, ops, k)) && View(After(b, ops, k)) == Acted(View(b), ops, k)
  {
    if k == 0 {
    } else {
      RunRefines(b, ops, k - 1);
      PerformActs(After(b, ops, k - 1), ops[k - 1]);
      hide Perform;
      hide View;
      hide Act;
    }
  }
}

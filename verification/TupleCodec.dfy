/** The heap tuple format (crates/pg-am-heap/src/tuple.rs and
    crates/pg-am-heap/src/toast.rs): a 64-byte header, a null bitmap, and the
    columns back to back. */
module TupleCodec {
  import opened Keys
  import opened Outcome
  import opened LittleEndian
  import opened Utf8Text

  const TUPLE_HEADER_SIZE := 64
  const MAX_NATTS := 2047
  const TOAST_POINTER_SIZE := 20
  const VARLENA_LEN_MASK := 0x3FFF_FFFF
  const VARLENA_EXTERNAL_FLAG := 0x4000_0000

  datatype ColumnType = Int4 | Int8 | Timestamptz | Uuid | Text | Bytea

  datatype ToastPointer = ToastPointer(rawSize: nat, extSize: nat, valueId: nat, toastRelId: nat)

  /** Text is its UTF-8 bytes. */
  datatype Datum =
    | DInt4(int4: int)
    | DInt8(int8: int)
    | DTimestamptz(micros: int)
    | DUuid(uuid: Bytes)
    | DText(text: Bytes)
    | DBytea(bytes: Bytes)
    | DExternal(pointer: ToastPointer)

  predicate IsVarlena(c: ColumnType) { c.Text? || c.Bytea? }

  /** What the Rust types guarantee of a value. */
  predicate WellTyped(d: Datum)
  {
    match d
    case DInt4(v) => -0x8000_0000 <= v < 0x8000_0000
    case DInt8(v) => -0x8000_0000_0000_0000 <= v < 0x8000_0000_0000_0000
    case DTimestamptz(v) => -0x8000_0000_0000_0000 <= v < 0x8000_0000_0000_0000
    case DUuid(u) => |u| == 16
    case DText(t) => Utf8(t)
    case DBytea(_) => true
    case DExternal(p) =>
      && p.rawSize < 0x1_0000_0000 && p.extSize < 0x1_0000_0000
      && p.valueId < 0x1_0000_0000 && p.toastRelId < 0x1_0000_0000
  }

  /** The type check of `encode_tuple`: an external pointer stands in for
      either varlena type. */
  predicate Matches(c: ColumnType, d: Datum)
  {
    match d
    case DInt4(_) => c.Int4?
    case DInt8(_) => c.Int8?
    case DTimestamptz(_) => c.Timestamptz?
    case DUuid(_) => c.Uuid?
    case DText(_) => c.Text?
    case DBytea(_) => c.Bytea?
    case DExternal(_) => IsVarlena(c)
  }

  // ---- Numbers ----

  /** Two's complement in `n` bytes; `half` is half the range. */
  function LeSigned(n: nat, half: nat, v: int): (b: Bytes)
    requires 0 <= v + half && v < half
    ensures |b| == n
  {
    Le(n, if v < 0 then v + 2 * half else v)
  }

  function SignedValue(half: nat, b: Bytes): int
  {
    if Value(b) < half then Value(b) else Value(b) - 2 * half
  }

  lemma SignedRoundTrip(n: nat, half: nat, v: int)
    requires 0 <= v + half && v < half && 2 * half == Pow256(n)
    ensures SignedValue(half, LeSigned(n, half, v)) == v
  {
    LeRoundTrip(n, if v < 0 then v + 2 * half else v);
  }

  const HALF32 := 0x8000_0000
  const HALF64 := 0x8000_0000_0000_0000

  lemma Widths()
    ensures Pow256(2) == 0x1_0000 && Pow256(4) == 0x1_0000_0000 && Pow256(8) == 0x1_0000_0000_0000_0000
  {
    assert Pow256(2) == 0x1_0000 && Pow256(4) == 0x1_0000 * Pow256(2);
    assert Pow256(6) == 0x1_0000 * Pow256(4) && Pow256(8) == 0x1_0000 * Pow256(6);
  }

  // ---- Columns ----

  function EncodePointer(p: ToastPointer): (b: Bytes)
    ensures |b| == TOAST_POINTER_SIZE
  {
    Le(4, VARLENA_EXTERNAL_FLAG + TOAST_POINTER_SIZE) + Le(4, p.rawSize) + Le(4, p.extSize) + Le(4, p.valueId)
    + Le(4, p.toastRelId)
  }

  /** The high two bits of a varlena header are `01`. */
  predicate IsExternal(v: nat) { v / VARLENA_EXTERNAL_FLAG == 1 }

  function DecodePointer(b: Bytes): Result<ToastPointer>
  {
    if |b| != TOAST_POINTER_SIZE then Err(Corrupted)
    else
      var tag := Value(b[..4]);
      if !IsExternal(tag) || tag % VARLENA_EXTERNAL_FLAG != TOAST_POINTER_SIZE then Err(Corrupted)
      else Ok(ToastPointer(Value(b[4..8]), Value(b[8..12]), Value(b[12..16]), Value(b[16..20])))
  }

  lemma FiveParts(a: Bytes, b: Bytes, c: Bytes, d: Bytes, e: Bytes)
    requires |a| == |b| == |c| == |d| == |e| == 4
    ensures var all := a + b + c + d + e;
            |all| == 20 && all[..4] == a && all[4..8] == b && all[8..12] == c && all[12..16] == d && all[16..20] == e
  {}

  /** Pointer round trip. */
  lemma PointerRoundTrip(p: ToastPointer)
    requires WellTyped(DExternal(p))
    ensures DecodePointer(EncodePointer(p)) == Ok(p)
  {
    var b := EncodePointer(p);
    Widths();
    LeRoundTrip(4, VARLENA_EXTERNAL_FLAG + TOAST_POINTER_SIZE);
    LeRoundTrip(4, p.rawSize);
    LeRoundTrip(4, p.extSize);
    LeRoundTrip(4, p.valueId);
    LeRoundTrip(4, p.toastRelId);
    hide Le;
    FiveParts(Le(4, VARLENA_EXTERNAL_FLAG + TOAST_POINTER_SIZE), Le(4, p.rawSize), Le(4, p.extSize),
              Le(4, p.valueId), Le(4, p.toastRelId));
  }

  /** `write_inline_varlena` refuses a length that would reach the tag bits. */
  predicate VarlenaFits(d: Datum)
  {
    && (d.DText? ==> |d.text| + 4 <= VARLENA_LEN_MASK)
    && (d.DBytea? ==> |d.bytes| + 4 <= VARLENA_LEN_MASK)
  }

  function EncodeDatum(d: Datum): Bytes
    requires WellTyped(d)
  {
    match d
    case DInt4(v) => LeSigned(4, HALF32, v)
    case DInt8(v) => LeSigned(8, HALF64, v)
    case DTimestamptz(v) => LeSigned(8, HALF64, v)
    case DUuid(u) => u
    case DText(t) => Le(4, |t| + 4) + t
    case DBytea(b) => Le(4, |b| + 4) + b
    case DExternal(p) => EncodePointer(p)
  }

  /** One column from the front of `rest`, and how many bytes it took. */
  function DecodeDatum(c: ColumnType, rest: Bytes): Result<(Datum, nat)>
  {
    match c
    case Int4 => if |rest| < 4 then Err(Corrupted) else Ok((DInt4(SignedValue(HALF32, rest[..4])), 4))
    case Int8 => if |rest| < 8 then Err(Corrupted) else Ok((DInt8(SignedValue(HALF64, rest[..8])), 8))
    case Timestamptz => if |rest| < 8 then Err(Corrupted) else Ok((DTimestamptz(SignedValue(HALF64, rest[..8])), 8))
    case Uuid => if |rest| < 16 then Err(Corrupted) else Ok((DUuid(rest[..16]), 16))
    case _ => DecodeVarlena(c, rest)
  }

  function DecodeVarlena(c: ColumnType, rest: Bytes): Result<(Datum, nat)>
  {
    if |rest| < 4 then Err(Corrupted)
    else
      var tag := Value(rest[..4]);
      if IsExternal(tag) then
        if |rest| < TOAST_POINTER_SIZE then Err(Corrupted)
        else
          var p :- DecodePointer(rest[..TOAST_POINTER_SIZE]);
          Ok((DExternal(p), TOAST_POINTER_SIZE))
      else
        var total := tag % VARLENA_EXTERNAL_FLAG;
        if total < 4 || |rest| < total then Err(Corrupted)
        else if c.Text? then
          if Utf8(rest[4..total]) then Ok((DText(rest[4..total]), total)) else Err(Corrupted)
        else Ok((DBytea(rest[4..total]), total))
  }

  lemma VarlenaRoundTrip(c: ColumnType, d: Datum, tail: Bytes)
    requires WellTyped(d) && Matches(c, d) && VarlenaFits(d) && (d.DText? || d.DBytea?)
    ensures DecodeDatum(c, EncodeDatum(d) + tail) == Ok((d, |EncodeDatum(d)|))
  {
    var payload := if d.DText? then d.text else d.bytes;
    var rest := EncodeDatum(d) + tail;
    var total := |payload| + 4;
    Widths();
    LeRoundTrip(4, total);
    hide Le;
    assert rest[..4] == Le(4, total);
    assert rest[4..total] == payload;
    assert total / VARLENA_EXTERNAL_FLAG == 0 && total % VARLENA_EXTERNAL_FLAG == total;
  }

  /** Column round trip, whatever follows. */
  lemma DatumRoundTrip(c: ColumnType, d: Datum, tail: Bytes)
    requires WellTyped(d) && Matches(c, d) && VarlenaFits(d)
    ensures DecodeDatum(c, EncodeDatum(d) + tail) == Ok((d, |EncodeDatum(d)|))
  {
    var rest := EncodeDatum(d) + tail;
    Widths();
    match d
    case DInt4(v) =>
      SignedRoundTrip(4, HALF32, v);
      assert rest[..4] == EncodeDatum(d);
    case DInt8(v) =>
      SignedRoundTrip(8, HALF64, v);
      assert rest[..8] == EncodeDatum(d);
    case DTimestamptz(v) =>
      SignedRoundTrip(8, HALF64, v);
      assert rest[..8] == EncodeDatum(d);
    case DUuid(u) => assert rest[..16] == u;
    case DExternal(p) =>
      PointerRoundTrip(p);
      assert rest[..TOAST_POINTER_SIZE] == EncodePointer(p);
      PointerTag(p, tail);
    case _ => VarlenaRoundTrip(c, d, tail);
  }

  /** The type check lets exactly those values into a column that come back from
      it. */
  lemma MatchesIff(c: ColumnType, d: Datum, rest: Bytes)
    requires WellTyped(d) && VarlenaFits(d)
    ensures Matches(c, d) <==> DecodeDatum(c, EncodeDatum(d) + rest) == Ok((d, |EncodeDatum(d)|))
  {
    if Matches(c, d) {
      DatumRoundTrip(c, d, rest);
    }
    hide DecodePointer;
    hide Utf8;
    hide Value;
    hide EncodeDatum;
  }

  lemma PointerTag(p: ToastPointer, tail: Bytes)
    ensures var rest := EncodePointer(p) + tail; |rest| >= 4 && IsExternal(Value(rest[..4]))
  {
    Widths();
    LeRoundTrip(4, VARLENA_EXTERNAL_FLAG + TOAST_POINTER_SIZE);
    hide Le;
    assert (EncodePointer(p) + tail)[..4] == Le(4, VARLENA_EXTERNAL_FLAG + TOAST_POINTER_SIZE);
  }

  // ---- The header ----

  datatype Header = Header(
    xmin: nat, xmax: nat, agentId: nat, traceId: Bytes, ctidPage: nat, ctidSlot: nat,
    infomask: nat, infomask2: nat, hoff: nat, flags: nat, cid: nat)

  predicate HeaderFits(h: Header)
  {
    && h.xmin < Pow256(8) && h.xmax < Pow256(8) && h.agentId < Pow256(8) && |h.traceId| == 16
    && h.ctidPage < Pow256(8) && h.ctidSlot < Pow256(2)
    && h.infomask < Pow256(2) && h.infomask2 < Pow256(2) && h.hoff < Pow256(2) && h.flags < Pow256(2)
    && h.cid < Pow256(4)
  }

  /** `write_to`; bytes 50 and 51 pad `t_ctid`. */
  function HeaderBytes(h: Header): (b: Bytes)
    requires |h.traceId| == 16
    ensures |b| == TUPLE_HEADER_SIZE
  {
    Le(8, h.xmin) + Le(8, h.xmax) + Le(8, h.agentId) + h.traceId + Le(8, h.ctidPage) + Le(2, h.ctidSlot) + Le(2, 0)
    + Le(2, h.infomask) + Le(2, h.infomask2) + Le(2, h.hoff) + Le(2, h.flags) + Le(4, h.cid)
  }

  /** `read_from`. */
  function ReadHeader(b: Bytes): Result<Header>
  {
    if |b| < TUPLE_HEADER_SIZE then Err(Corrupted)
    else if Value(b[50..52]) != 0 then Err(Corrupted)
    else
      Ok(Header(Value(b[0..8]), Value(b[8..16]), Value(b[16..24]), b[24..40], Value(b[40..48]), Value(b[48..50]),
                Value(b[52..54]), Value(b[54..56]), Value(b[56..58]), Value(b[58..60]), Value(b[60..64])))
  }

  /** Where each field sits. */
  lemma HeaderSlices(h: Header, tail: Bytes)
    requires |h.traceId| == 16
    ensures var b := HeaderBytes(h) + tail;
            && b[0..8] == Le(8, h.xmin) && b[8..16] == Le(8, h.xmax) && b[16..24] == Le(8, h.agentId)
            && b[24..40] == h.traceId && b[40..48] == Le(8, h.ctidPage) && b[48..50] == Le(2, h.ctidSlot)
            && b[50..52] == Le(2, 0) && b[52..54] == Le(2, h.infomask) && b[54..56] == Le(2, h.infomask2)
            && b[56..58] == Le(2, h.hoff) && b[58..60] == Le(2, h.flags) && b[60..64] == Le(4, h.cid)
  {
    hide Le;
  }

  /** Header round trip. */
  lemma HeaderRoundTrip(h: Header, tail: Bytes)
    requires HeaderFits(h)
    ensures ReadHeader(HeaderBytes(h) + tail) == Ok(h)
  {
    hide Le;
    hide HeaderBytes;
    hide Value;
    hide Pow256;
    HeaderSlices(h, tail);
    LeRoundTrip(8, h.xmin);
    LeRoundTrip(8, h.xmax);
    LeRoundTrip(8, h.agentId);
    LeRoundTrip(8, h.ctidPage);
    LeRoundTrip(2, h.ctidSlot);
    ZeroPad();
    LeRoundTrip(2, h.infomask);
    LeRoundTrip(2, h.infomask2);
    LeRoundTrip(2, h.hoff);
    LeRoundTrip(2, h.flags);
    LeRoundTrip(4, h.cid);
  }

  lemma ZeroPad()
    ensures Value(Le(2, 0)) == 0
  {
    Widths();
    LeRoundTrip(2, 0);
  }

  // ---- The null bitmap ----

  function Pow2(n: nat): nat { if n == 0 then 1 else 2 * Pow2(n - 1) }

  /** A number from its bits, lowest first. */
  function FromBits(bits: seq<bool>): (v: nat)
    ensures v < Pow2(|bits|)
  {
    if bits == [] then 0 else (if bits[0] then 1 else 0) + 2 * FromBits(bits[1..])
  }

  /** `v & (1 << i) != 0`. */
  predicate Bit(v: nat, i: nat)
  {
    if i == 0 then v % 2 == 1 else Bit(v / 2, i - 1)
  }

  lemma {:induction false} BitOfBits(bits: seq<bool>, i: nat)
    requires i < |bits|
    ensures Bit(FromBits(bits), i) == bits[i]
  {
    var rest := FromBits(bits[1..]);
    assert FromBits(bits) / 2 == rest && FromBits(bits) % 2 == if bits[0] then 1 else 0;
    hide FromBits;
    if i == 0 {
    } else {
      BitOfBits(bits[1..], i - 1);
    }
  }

  lemma {:induction false} Pow2Monotone(n: nat, m: nat)
    requires n <= m
    ensures Pow2(n) <= Pow2(m)
  {
    if n >= m {
    } else {
      Pow2Monotone(n, m - 1);
    }
  }

  function FirstByte(bits: seq<bool>): seq<bool> { if |bits| <= 8 then bits else bits[..8] }

  /** Bit `i % 8` of byte `i / 8` is bit `i`. */
  function Bitmap(bits: seq<bool>): (b: Bytes)
    ensures |b| == (|bits| + 7) / 8
    decreases |bits|
  {
    if bits == [] then []
    else
      Pow2Monotone(|FirstByte(bits)|, 8);
      assert Pow2(8) == 256;
      [FromBits(FirstByte(bits))] + Bitmap(bits[|FirstByte(bits)|..])
  }

  lemma {:induction false} BitmapBit(bits: seq<bool>, i: nat)
    requires i < |bits|
    ensures Bit(Bitmap(bits)[i / 8], i % 8) == bits[i]
    decreases |bits|
  {
    hide Bit;
    hide FromBits;
    var first := FirstByte(bits);
    if i < 8 {
      BitOfBits(first, i);
      assert i / 8 == 0 && i % 8 == i;
    } else {
      assert i / 8 == 1 + (i - 8) / 8 && i % 8 == (i - 8) % 8;
      BitmapBit(bits[8..], i - 8);
      assert bits[8..][i - 8] == bits[i];
      assert Bitmap(bits)[i / 8] == Bitmap(bits[8..])[(i - 8) / 8];
    }
  }

  // ---- Whole tuples ----

  type Values = seq<Option<Datum>>

  predicate Fits(columns: seq<ColumnType>, values: Values)
  {
    && |columns| == |values|
    && forall i :: 0 <= i < |values| && values[i].Some? ==> Matches(columns[i], values[i].value)
  }

  predicate VarlenasFit(values: Values)
  {
    forall i :: 0 <= i < |values| && values[i].Some? ==> VarlenaFits(values[i].value)
  }

  predicate AllWellTyped(values: Values)
  {
    forall i :: 0 <= i < |values| && values[i].Some? ==> WellTyped(values[i].value)
  }

  predicate HasNull(values: Values) { exists i :: 0 <= i < |values| && values[i].None? }

  predicate HasVarwidth(columns: seq<ColumnType>, values: Values)
    requires |columns| == |values|
  {
    exists i :: 0 <= i < |values| && values[i].Some? && IsVarlena(columns[i])
  }

  predicate HasExternal(values: Values)
  {
    exists i :: 0 <= i < |values| && values[i].Some? && values[i].value.DExternal?
  }

  function Nulls(values: Values): (bits: seq<bool>)
    ensures |bits| == |values|
  {
    seq(|values|, i requires 0 <= i < |values| => values[i].None?)
  }

  function BitmapLen(values: Values): nat { if HasNull(values) then (|values| + 7) / 8 else 0 }

  function AlignUp8(n: nat): (m: nat)
    ensures n <= m < n + 8 && m % 8 == 0
  {
    (n + 7) / 8 * 8
  }

  function Hoff(values: Values): nat { AlignUp8(TUPLE_HEADER_SIZE + BitmapLen(values)) }

  function Zeros(n: nat): (b: Bytes)
    ensures |b| == n
  {
    seq(n, _ => 0)
  }

  /** The header `encode_tuple` writes: the structural bits recomputed, every
      other bit and field as the caller set it. */
  function Filled(h: Header, columns: seq<ColumnType>, values: Values): Header
    requires |columns| == |values| <= MAX_NATTS
  {
    h.(infomask := h.infomask / 8 * 8 + (if HasNull(values) then 1 else 0)
                   + (if HasVarwidth(columns, values) then 2 else 0) + (if HasExternal(values) then 4 else 0),
       infomask2 := h.infomask2 / 2048 * 2048 + |columns|,
       hoff := Hoff(values),
       flags := h.flags / 16 * 16)
  }

  /** What encoding may change of a header: the three structural bits, the number
      of columns, where the data starts, the version. */
  ghost predicate OnlyStructure(h: Header, columns: seq<ColumnType>, values: Values, f: Header)
    requires |columns| == |values|
  {
    && f.xmin == h.xmin && f.xmax == h.xmax && f.agentId == h.agentId && f.traceId == h.traceId
    && f.ctidPage == h.ctidPage && f.ctidSlot == h.ctidSlot && f.cid == h.cid
    && Bit(f.infomask, 0) == HasNull(values) && Bit(f.infomask, 1) == HasVarwidth(columns, values)
    && Bit(f.infomask, 2) == HasExternal(values) && SameFrom(f.infomask, h.infomask, 3)
    && f.infomask2 % 2048 == |columns| && SameFrom(f.infomask2, h.infomask2, 11)
    && f.flags % 16 == 0 && SameFrom(f.flags, h.flags, 4)
    && DataCanStart(values, f.hoff) && forall n: nat :: DataCanStart(values, n) ==> f.hoff <= n
  }

  /** An aligned offset behind the header and, if there are nulls, a bit for every
      column. */
  predicate DataCanStart(values: Values, n: nat)
  {
    n % 8 == 0 && n >= TUPLE_HEADER_SIZE && (HasNull(values) ==> 8 * (n - TUPLE_HEADER_SIZE) >= |values|)
  }

  /** Every bit from `n` up is the same. */
  ghost predicate SameFrom(v: nat, w: nat, n: nat)
  {
    forall i :: i >= n ==> Bit(v, i) == Bit(w, i)
  }

  /** Above the low `n` bits are those of the quotient. */
  lemma {:induction false} HighBit(v: nat, n: nat, q: nat, m: nat, i: nat)
    requires v == Pow2(n) * q + m && m < Pow2(n) && n <= i
    ensures Bit(v, i) == Bit(q, i - n)
    decreases n
  {
    if n == 0 {
    } else {
      var half := Pow2(n - 1) * q;
      assert Pow2(n) * q == 2 * half;
      assert v / 2 == half + m / 2;
      HighBit(v / 2, n - 1, q, m / 2, i - 1);
    }
  }

  /** Numbers that differ in their low `n` bits agree in the others. */
  lemma LowBitsReplaced(v: nat, w: nat, n: nat, q: nat, a: nat, b: nat)
    requires v == Pow2(n) * q + a && w == Pow2(n) * q + b && a < Pow2(n) && b < Pow2(n)
    ensures SameFrom(w, v, n)
  {
    hide Bit;
    hide Pow2;
    forall i | i >= n ensures Bit(w, i) == Bit(v, i) {
      HighBit(w, n, q, b, i);
      HighBit(v, n, q, a, i);
    }
  }

  lemma SmallPowers()
    ensures Pow2(3) == 8 && Pow2(4) == 16 && Pow2(11) == 2048
  {
    assert Pow2(7) == 128;
  }

  /** An inline value fits exactly if its length leaves the two tag bits of its
      length word clear. */
  lemma VarlenaFitsIff(d: Datum, total: nat)
    requires (d.DText? && total == |d.text| + 4) || (d.DBytea? && total == |d.bytes| + 4)
    ensures VarlenaFits(d) <==> total < 0x1_0000_0000 && !Bit(total, 30) && !Bit(total, 31)
  {
    var q, m := total / 0x4000_0000, total % 0x4000_0000;
    assert Pow2(8) == 256 && Pow2(16) == 256 * Pow2(8) && Pow2(24) == 256 * Pow2(16) && Pow2(30) == 64 * Pow2(24);
    HighBit(total, 30, q, m, 30);
    HighBit(total, 30, q, m, 31);
    assert Bit(q, 1) == Bit(q / 2, 0);
  }

  lemma StructuralBits(q: nat, a: bool, b: bool, c: bool)
    ensures var v := q * 8 + (if a then 1 else 0) + (if b then 2 else 0) + (if c then 4 else 0);
            Bit(v, 0) == a && Bit(v, 1) == b && Bit(v, 2) == c
  {
    var v := q * 8 + (if a then 1 else 0) + (if b then 2 else 0) + (if c then 4 else 0);
    assert v / 2 == q * 4 + (if b then 1 else 0) + (if c then 2 else 0);
    assert v / 2 / 2 == q * 2 + (if c then 1 else 0);
    assert Bit(v, 2) == Bit(v / 2, 1) && Bit(v / 2, 1) == Bit(v / 2 / 2, 0);
  }

  lemma HoffIsLeast(values: Values, n: nat)
    ensures DataCanStart(values, Hoff(values)) && (DataCanStart(values, n) ==> Hoff(values) <= n)
  {}

  /** Nothing else is changed. */
  lemma FilledKeeps(h: Header, columns: seq<ColumnType>, values: Values)
    requires HeaderFits(h) && |columns| == |values| <= MAX_NATTS
    ensures OnlyStructure(h, columns, values, Filled(h, columns, values))
  {
    hide HasNull;
    hide HasVarwidth;
    hide HasExternal;
    hide Bit;
    hide SameFrom;
    var f := Filled(h, columns, values);
    var low := (if HasNull(values) then 1 else 0) + (if HasVarwidth(columns, values) then 2 else 0)
               + (if HasExternal(values) then 4 else 0);
    SmallPowers();
    hide Pow2;
    LowBitsReplaced(h.infomask, f.infomask, 3, h.infomask / 8, h.infomask % 8, low);
    LowBitsReplaced(h.infomask2, f.infomask2, 11, h.infomask2 / 2048, h.infomask2 % 2048, |columns|);
    LowBitsReplaced(h.flags, f.flags, 4, h.flags / 16, h.flags % 16, 0);
    StructuralBits(h.infomask / 8, HasNull(values), HasVarwidth(columns, values), HasExternal(values));
    FilledFits(h, columns, values);
    HoffIsLeast(values, 0);
    forall n: nat | DataCanStart(values, n) ensures f.hoff <= n {
      HoffIsLeast(values, n);
    }
  }

  /** The columns back to back, nulls taking no bytes. */
  function Data(values: Values): Bytes
    requires AllWellTyped(values)
  {
    if values == [] then []
    else (if values[0].Some? then EncodeDatum(values[0].value) else []) + Data(values[1..])
  }

  function EncodeTuple(h: Header, columns: seq<ColumnType>, values: Values): Result<Bytes>
    requires HeaderFits(h) && AllWellTyped(values)
  {
    if |columns| != |values| || |columns| > MAX_NATTS || !Fits(columns, values) || !VarlenasFit(values)
    then Err(InvalidArgument)
    else
      var bitmap := if HasNull(values) then Bitmap(Nulls(values)) else [];
      Ok(HeaderBytes(Filled(h, columns, values)) + bitmap
         + Zeros(Hoff(values) - TUPLE_HEADER_SIZE - |bitmap|) + Data(values))
  }

  function NullAt(b: Bytes, hasNull: bool, i: nat): bool
    requires hasNull ==> TUPLE_HEADER_SIZE + i / 8 < |b|
  {
    hasNull && Bit(b[TUPLE_HEADER_SIZE + i / 8], i % 8)
  }

  /** The loop of `decode_tuple` from column `i` at byte `pos` on. */
  function DecodeFrom(b: Bytes, columns: seq<ColumnType>, hasNull: bool, i: nat, pos: nat): Result<Values>
    requires i <= |columns| && pos <= |b|
    requires hasNull ==> TUPLE_HEADER_SIZE + (|columns| + 7) / 8 <= |b|
    decreases |columns| - i
  {
    if i == |columns| then if pos == |b| then Ok([]) else Err(Corrupted)
    else if NullAt(b, hasNull, i) then
      var rest :- DecodeFrom(b, columns, hasNull, i + 1, pos);
      Ok([None] + rest)
    else
      var (d, n) :- DecodeDatum(columns[i], b[pos..]);
      if pos + n > |b| then Err(Corrupted)
      else
        var rest :- DecodeFrom(b, columns, hasNull, i + 1, pos + n);
        Ok([Some(d)] + rest)
  }

  function DecodeTuple(b: Bytes, columns: seq<ColumnType>): Result<(Header, Values)>
  {
    var h :- ReadHeader(b);
    if h.infomask2 % 2048 != |columns| then Err(Corrupted)
    else if h.hoff < TUPLE_HEADER_SIZE || h.hoff > |b| || h.hoff % 8 != 0 then Err(Corrupted)
    else
      var hasNull := h.infomask % 2 == 1;
      if hasNull && TUPLE_HEADER_SIZE + (|columns| + 7) / 8 > h.hoff then Err(Corrupted)
      else
        var values :- DecodeFrom(b, columns, hasNull, 0, h.hoff);
        Ok((h, values))
  }

  lemma EvenPart(m: nat, low: nat)
    ensures (2 * m + low) % 2 == low % 2
  {}

  lemma LowThree(v: nat, low: nat)
    requires v < 0x1_0000 && low < 8
    ensures v / 8 * 8 + low < 0x1_0000 && (v / 8 * 8 + low) % 2 == low % 2
  {
    var q := v / 8;
    assert v / 8 * 8 + low == 8 * q + low && q < 8192;
    EvenPart(4 * q, low);
  }

  lemma LowEleven(v: nat, low: nat)
    requires v < 0x1_0000 && low < 2048
    ensures v / 2048 * 2048 + low < 0x1_0000 && (v / 2048 * 2048 + low) % 2048 == low
  {
    var q := v / 2048;
    assert q < 32;
  }

  lemma FilledFits(h: Header, columns: seq<ColumnType>, values: Values)
    requires HeaderFits(h) && |columns| == |values| <= MAX_NATTS
    ensures HeaderFits(Filled(h, columns, values))
    ensures var f := Filled(h, columns, values);
            && f.infomask2 % 2048 == |columns| && (f.infomask % 2 == 1 <==> HasNull(values))
            && f.hoff == Hoff(values)
  {
    Widths();
    hide HasNull;
    hide HasVarwidth;
    hide HasExternal;
    hide Pow256;
    hide AlignUp8;
    var low := (if HasNull(values) then 1 else 0) + (if HasVarwidth(columns, values) then 2 else 0)
               + (if HasExternal(values) then 4 else 0);
    LowThree(h.infomask, low);
    LowEleven(h.infomask2, |columns|);
    assert h.flags / 16 * 16 <= h.flags;
  }

  /** Decoding from column `i` gives back the values from `i` on, and ends at
      the last byte. */
  lemma {:induction false} DecodesColumns(b: Bytes, columns: seq<ColumnType>, values: Values, hasNull: bool, i: nat, pos: nat)
    requires Fits(columns, values) && VarlenasFit(values) && AllWellTyped(values)
    requires i <= |columns| && pos <= |b| && (hasNull ==> TUPLE_HEADER_SIZE + (|columns| + 7) / 8 <= |b|)
    requires forall j :: 0 <= j < |columns| ==> NullAt(b, hasNull, j) == values[j].None?
    requires AllWellTyped(values[i..]) && b[pos..] == Data(values[i..])
    ensures DecodeFrom(b, columns, hasNull, i, pos) == Ok(values[i..])
    decreases |columns| - i
  {
    hide NullAt;
    hide DecodeDatum;
    hide EncodeDatum;
    if i >= |columns| {
    } else {
      assert values[i..][1..] == values[i + 1..];
      assert values[i..] == [values[i]] + values[i + 1..];
      if values[i].None? {
        DecodesColumns(b, columns, values, hasNull, i + 1, pos);
      } else {
        var d, tail := values[i].value, Data(values[i + 1..]);
        DatumRoundTrip(columns[i], d, tail);
        var n := |EncodeDatum(d)|;
        assert b[pos..] == EncodeDatum(d) + tail;
        assert b[pos + n..] == b[pos..][n..] == tail;
        DecodesColumns(b, columns, values, hasNull, i + 1, pos + n);
      }
    }
  }

  /** The bytes decode to the values, under a header that differs from the
      caller's in its structure alone. */
  ghost predicate ComesBack(h: Header, columns: seq<ColumnType>, values: Values, b: Bytes)
    requires |columns| == |values|
  {
    var back := DecodeTuple(b, columns);
    back.Ok? && back.value.1 == values && OnlyStructure(h, columns, values, back.value.0)
  }

  /** Tuple round trip: for every schema of at most 2047 columns and every
      matching row, decoding an encoded tuple gives back the values and the
      caller's identity fields, and consumes exactly all bytes. Encoding
      refuses exactly the rows that do not match or do not fit. */
  lemma TupleRoundTrip(h: Header, columns: seq<ColumnType>, values: Values)
    requires HeaderFits(h) && AllWellTyped(values)
    ensures EncodeTuple(h, columns, values).Ok? <==>
            |columns| == |values| <= MAX_NATTS && Fits(columns, values) && VarlenasFit(values)
    ensures EncodeTuple(h, columns, values).Ok? ==>
              ComesBack(h, columns, values, EncodeTuple(h, columns, values).value)
  {
    hide OnlyStructure;
    if EncodeTuple(h, columns, values).Ok? {
      var b := EncodeTuple(h, columns, values).value;
      var f := Filled(h, columns, values);
      FilledFits(h, columns, values);
      FilledKeeps(h, columns, values);
      var rest := Layout(h, columns, values);
      HeaderRoundTrip(f, rest);
      hide EncodeTuple;
      hide HeaderBytes;
      hide Data;
      hide Filled;
      hide ReadHeader;
      hide AlignUp8;
      assert values[0..] == values;
      DecodesColumns(b, columns, values, HasNull(values), 0, Hoff(values));
    }
  }

  /** Where the parts of an encoded tuple lie. */
  lemma Layout(h: Header, columns: seq<ColumnType>, values: Values) returns (rest: Bytes)
    requires HeaderFits(h) && AllWellTyped(values) && EncodeTuple(h, columns, values).Ok?
    ensures var b := EncodeTuple(h, columns, values).value;
            && |Filled(h, columns, values).traceId| == 16
            && b == HeaderBytes(Filled(h, columns, values)) + rest
            && Hoff(values) <= |b| && b[Hoff(values)..] == Data(values)
            && (HasNull(values) ==> TUPLE_HEADER_SIZE + (|columns| + 7) / 8 <= Hoff(values))
            && forall j :: 0 <= j < |columns| ==> NullAt(b, HasNull(values), j) == values[j].None?
  {
    hide HeaderBytes;
    hide Data;
    hide HasVarwidth;
    hide HasExternal;
    hide Bitmap;
    var b := EncodeTuple(h, columns, values).value;
    var bitmap := if HasNull(values) then Bitmap(Nulls(values)) else [];
    rest := bitmap + Zeros(Hoff(values) - TUPLE_HEADER_SIZE - |bitmap|) + Data(values);
    hide AlignUp8;
    assert b == HeaderBytes(Filled(h, columns, values)) + rest;
    hide Filled;
    assert b[Hoff(values)..] == Data(values);
    hide Bit;
    forall j | 0 <= j < |columns| ensures NullAt(b, HasNull(values), j) == values[j].None? {
      if HasNull(values) {
        BitmapBit(Nulls(values), j);
        assert b[TUPLE_HEADER_SIZE + j / 8] == bitmap[j / 8];
      }
    }
  }

  // ---- As it runs ----

  /** What the checking loop of `encode_tuple` finds out. */
  method CheckColumns(columns: seq<ColumnType>, values: Values)
    returns (ok: bool, hasNull: bool, hasVarwidth: bool, hasExternal: bool)
    requires |columns| == |values|
    ensures ok <==> Fits(columns, values)
    ensures ok ==> hasNull == HasNull(values) && hasVarwidth == HasVarwidth(columns, values)
                   && hasExternal == HasExternal(values)
  {
    ok, hasNull, hasVarwidth, hasExternal := true, false, false, false;
    for i := 0 to |values|
      invariant ok && forall j :: 0 <= j < i && values[j].Some? ==> Matches(columns[j], values[j].value)
      invariant hasNull <==> exists j :: 0 <= j < i && values[j].None?
      invariant hasVarwidth <==> exists j :: 0 <= j < i && values[j].Some? && IsVarlena(columns[j])
      invariant hasExternal <==> exists j :: 0 <= j < i && values[j].Some? && values[j].value.DExternal?
    {
      if values[i].None? {
        hasNull := true;
      } else {
        if !Matches(columns[i], values[i].value) {
          return false, hasNull, hasVarwidth, hasExternal;
        }
        if IsVarlena(columns[i]) {
          hasVarwidth := true;
        }
        if values[i].value.DExternal? {
          hasExternal := true;
        }
      }
    }
  }

  lemma {:induction false} SetBit(bits: seq<bool>, i: nat)
    requires i < |bits| && !bits[i]
    ensures FromBits(bits[i := true]) == FromBits(bits) + Pow2(i)
  {
    if i == 0 {
      assert bits[i := true][1..] == bits[1..];
    } else {
      assert bits[i := true][1..] == bits[1..][i - 1 := true];
      SetBit(bits[1..], i - 1);
    }
  }

  lemma SetBitmapBit(bits: seq<bool>, i: nat)
    requires i < |bits| && !bits[i]
    ensures Bitmap(bits)[i / 8] + Pow2(i % 8) < 256
    ensures Bitmap(bits[i := true]) == Bitmap(bits)[i / 8 := Bitmap(bits)[i / 8] + Pow2(i % 8)]
  {
    assert 8 * (i / 8) + i % 8 == i;
    SetBitmapAt(bits, i / 8, i % 8);
  }

  lemma {:induction false} SetBitmapAt(bits: seq<bool>, q: nat, m: nat)
    requires m < 8 && 8 * q + m < |bits| && !bits[8 * q + m]
    ensures q < |Bitmap(bits)| && Bitmap(bits)[q] + Pow2(m) < 256
    ensures Bitmap(bits[8 * q + m := true]) == Bitmap(bits)[q := Bitmap(bits)[q] + Pow2(m)]
    decreases q
  {
    hide FromBits;
    hide Pow2;
    hide Bitmap;
    var i := 8 * q + m;
    var bits' := bits[i := true];
    var first := FirstByte(bits);
    BitmapUnfolds(bits);
    BitmapUnfolds(bits');
    if q == 0 {
      SetBit(first, m);
      ByteBound(first[m := true]);
      assert FirstByte(bits') == first[m := true] && bits'[|first|..] == bits[|first|..];
      assert ([FromBits(first)] + Bitmap(bits[|first|..]))[0 := FromBits(first) + Pow2(m)]
             == [FromBits(first) + Pow2(m)] + Bitmap(bits[|first|..]);
    } else {
      assert |first| == 8 && FirstByte(bits') == first && bits'[8..] == bits[8..][8 * (q - 1) + m := true];
      SetBitmapAt(bits[8..], q - 1, m);
      var rest := Bitmap(bits[8..]);
      ConsUpdate(FromBits(first), rest, q - 1, rest[q - 1] + Pow2(m));
    }
  }

  lemma ConsUpdate<T>(x: T, rest: seq<T>, i: nat, y: T)
    requires i < |rest|
    ensures ([x] + rest)[i + 1 := y] == [x] + rest[i := y]
  {}

  lemma BitmapUnfolds(bits: seq<bool>)
    requires bits != []
    ensures FromBits(FirstByte(bits)) < 256
    ensures Bitmap(bits) == [FromBits(FirstByte(bits))] + Bitmap(bits[|FirstByte(bits)|..])
  {
    ByteBound(FirstByte(bits));
  }

  lemma ByteBound(bits: seq<bool>)
    requires |bits| <= 8
    ensures FromBits(bits) < 256
  {
    Pow2Monotone(|bits|, 8);
    assert Pow2(8) == 256;
  }

  /** The first `n` bits of `Nulls(values)`, the rest clear. */
  ghost function NullsTo(values: Values, n: nat): (bits: seq<bool>)
    ensures |bits| == |values|
  {
    seq(|values|, i requires 0 <= i < |values| => i < n && values[i].None?)
  }

  lemma {:induction false} ClearBitmap(bits: seq<bool>)
    requires forall i :: 0 <= i < |bits| ==> !bits[i]
    ensures Bitmap(bits) == Zeros((|bits| + 7) / 8)
    decreases |bits|
  {
    if bits == [] {
    } else {
      var first := FirstByte(bits);
      ClearBits(first);
      ClearBitmap(bits[|first|..]);
    }
  }

  lemma {:induction false} ClearBits(bits: seq<bool>)
    requires forall i :: 0 <= i < |bits| ==> !bits[i]
    ensures FromBits(bits) == 0
  {
    if bits == [] {
    } else {
      ClearBits(bits[1..]);
    }
  }

  /** The bitmap loop: start from zeros, set a bit per null. */
  method BuildBitmap(values: Values) returns (bitmap: Bytes)
    ensures bitmap == Bitmap(Nulls(values))
  {
    hide Bitmap;
    bitmap := Zeros((|values| + 7) / 8);
    ClearBitmap(NullsTo(values, 0));
    for i := 0 to |values|
      invariant bitmap == Bitmap(NullsTo(values, i))
    {
      ghost var bits := NullsTo(values, i);
      if values[i].None? {
        SetBitmapBit(bits, i);
        assert NullsTo(values, i + 1) == bits[i := true];
        bitmap := bitmap[i / 8 := bitmap[i / 8] + Pow2(i % 8)];
      } else {
        assert NullsTo(values, i + 1) == bits;
      }
    }
    assert NullsTo(values, |values|) == Nulls(values);
  }

  lemma {:induction false} DataConcat(a: Values, b: Values)
    requires AllWellTyped(a) && AllWellTyped(b) && AllWellTyped(a + b)
    ensures Data(a + b) == Data(a) + Data(b)
  {
    if a == [] {
      assert a + b == b;
    } else {
      assert (a + b)[1..] == a[1..] + b;
      DataConcat(a[1..], b);
    }
  }

  /** The data loop. */
  method EncodeData(values: Values) returns (r: Result<Bytes>)
    requires AllWellTyped(values)
    ensures r == if VarlenasFit(values) then Ok(Data(values)) else Err(InvalidArgument)
  {
    hide EncodeDatum;
    var data: Bytes := [];
    for i := 0 to |values|
      invariant AllWellTyped(values[..i]) && data == Data(values[..i])
      invariant forall j :: 0 <= j < i && values[j].Some? ==> VarlenaFits(values[j].value)
    {
      if values[i].Some? && !VarlenaFits(values[i].value) {
        return Err(InvalidArgument);
      }
      AppendedColumn(values, i);
      if values[i].Some? {
        data := data + EncodeDatum(values[i].value);
      }
    }
    assert values[..|values|] == values;
    return Ok(data);
  }

  /** `encode_tuple`. */
  method EncodeRow(h: Header, columns: seq<ColumnType>, values: Values) returns (r: Result<Bytes>)
    requires HeaderFits(h) && AllWellTyped(values)
    ensures r.Ok? <==> |columns| == |values| <= MAX_NATTS && Fits(columns, values) && VarlenasFit(values)
    ensures r == EncodeTuple(h, columns, values)
    ensures r.Ok? ==> ComesBack(h, columns, values, r.value)
  {
    hide *;
    r := WriteTuple(h, columns, values);
    TupleRoundTrip(h, columns, values);
  }

  method WriteTuple(h: Header, columns: seq<ColumnType>, values: Values) returns (r: Result<Bytes>)
    requires HeaderFits(h) && AllWellTyped(values)
    ensures r == EncodeTuple(h, columns, values)
  {
    hide HeaderBytes;
    hide Bitmap;
    hide HasNull;
    hide HasVarwidth;
    hide HasExternal;
    hide VarlenasFit;
    hide Fits;
    hide Data;
    if |columns| != |values| || |columns| > MAX_NATTS {
      return Err(InvalidArgument);
    }
    var ok, hasNull, hasVarwidth, hasExternal := CheckColumns(columns, values);
    if !ok {
      return Err(InvalidArgument);
    }
    var bitmapLen := if hasNull then (|columns| + 7) / 8 else 0;
    var hoff := AlignUp8(TUPLE_HEADER_SIZE + bitmapLen);
    var filled := h.(
      infomask := h.infomask / 8 * 8 + (if hasNull then 1 else 0) + (if hasVarwidth then 2 else 0)
                  + (if hasExternal then 4 else 0),
      infomask2 := h.infomask2 / 2048 * 2048 + |columns|,
      hoff := hoff,
      flags := h.flags / 16 * 16);
    assert filled == Filled(h, columns, values);
    hide Filled;
    hide AlignUp8;
    var bitmap := [];
    if hasNull {
      bitmap := BuildBitmap(values);
    }
    var data := EncodeData(values);
    if data.Err? {
      return Err(InvalidArgument);
    }
    return Ok(HeaderBytes(filled) + bitmap + Zeros(hoff - TUPLE_HEADER_SIZE - |bitmap|) + data.value);
  }

  lemma AppendedColumn(values: Values, i: nat)
    requires AllWellTyped(values) && i < |values| && AllWellTyped(values[..i])
    ensures AllWellTyped(values[..i + 1])
    ensures Data(values[..i + 1])
            == Data(values[..i]) + if values[i].Some? then EncodeDatum(values[i].value) else []
  {
    assert values[..i + 1] == values[..i] + [values[i]];
    DataConcat(values[..i], [values[i]]);
    assert Data([values[i]]) == (if values[i].Some? then EncodeDatum(values[i].value) else []) + [];
  }

  /** `decode_tuple`: `pos` runs over the columns. */
  method DecodeRow(b: Bytes, columns: seq<ColumnType>) returns (r: Result<(Header, Values)>)
    ensures r == DecodeTuple(b, columns)
  {
    hide DecodeDatum;
    hide Bit;
    var header := ReadHeader(b);
    if header.Err? {
      return Err(header.error);
    }
    hide ReadHeader;
    var h := header.value;
    if h.infomask2 % 2048 != |columns| {
      return Err(Corrupted);
    }
    if h.hoff < TUPLE_HEADER_SIZE || h.hoff > |b| || h.hoff % 8 != 0 {
      return Err(Corrupted);
    }
    var hasNull := h.infomask % 2 == 1;
    if hasNull && TUPLE_HEADER_SIZE + (|columns| + 7) / 8 > h.hoff {
      return Err(Corrupted);
    }
    var values: Values, pos: nat := [], h.hoff;
    PrependNothing(DecodeFrom(b, columns, hasNull, 0, h.hoff));
    for i := 0 to |columns|
      invariant pos <= |b|
      invariant DecodeFrom(b, columns, hasNull, 0, h.hoff) == Prepend(values, DecodeFrom(b, columns, hasNull, i, pos))
    {
      if NullAt(b, hasNull, i) {
        PrependOne(values, None, DecodeFrom(b, columns, hasNull, i + 1, pos));
        values := values + [None];
      } else {
        var datum := DecodeDatum(columns[i], b[pos..]);
        if datum.Err? {
          return Err(datum.error);
        }
        var (d, n) := datum.value;
        if pos + n > |b| {
          return Err(Corrupted);
        }
        PrependOne(values, Some(d), DecodeFrom(b, columns, hasNull, i + 1, pos + n));
        values, pos := values + [Some(d)], pos + n;
      }
    }
    if pos != |b| {
      return Err(Corrupted);
    }
    assert values + [] == values;
    return Ok((h, values));
  }

  function Prepend(front: Values, rest: Result<Values>): Result<Values>
  {
    if rest.Err? then rest else Ok(front + rest.value)
  }

  lemma PrependNothing(rest: Result<Values>)
    ensures Prepend([], rest) == rest
  {
    if rest.Ok? {
      assert [] + rest.value == rest.value;
    }
  }

  lemma PrependOne(front: Values, v: Option<Datum>, rest: Result<Values>)
    ensures Prepend(front, if rest.Err? then rest else Ok([v] + rest.value)) == Prepend(front + [v], rest)
  {
    if rest.Ok? {
      assert front + ([v] + rest.value) == front + [v] + rest.value;
    }
  }
}

/** Heap pages as bytes: what module HeapRedo says about room and slots is what
    the slotted page does (crates/pg-am-heap/src/heap_am.rs,
    crates/pg-am-heap/src/slotted_page.rs). */
module HeapBytes {
  import opened Outcome
  import opened LittleEndian
  import H = HeapRedo
  import S = SlottedBytes

  /** The special space of a heap page: the next page and a reserved word. */
  const HEAP_SPECIAL := 16

  /** Slot by slot a tuple of the right size, and all room accounted for. */
  ghost predicate Holds(b: Bytes, tuples: seq<H.Tuple>)
  {
    && S.Clean(b) && S.PdSpecial(b) == S.PAGE_SIZE - HEAP_SPECIAL && |S.Tuples(b)| == |tuples|
    && (forall i :: 0 <= i < |tuples| ==> S.Tuples(b)[i].Some? && |S.Tuples(b)[i].value| == tuples[i].bytes)
    && S.PdUpper(b) - S.PdLower(b) == S.PAGE_SIZE - HEAP_SPECIAL - S.HEADER - H.Used(tuples)
  }

  /** A freshly initialised page holds nothing. */
  lemma EmptyHolds(b: Bytes)
    requires S.Clean(b) && S.Tuples(b) == [] && S.PdSpecial(b) == S.PdUpper(b) == S.PAGE_SIZE - HEAP_SPECIAL
    ensures Holds(b, [])
  {
    hide U16;
    assert |S.Tuples(b)| == S.SlotCount(b);
  }

  lemma {:induction false} UsedAppend(tuples: seq<H.Tuple>, t: H.Tuple)
    ensures H.Used(tuples + [t]) == H.Used(tuples) + t.bytes + S.LP_SIZE
  {
    if tuples == [] {
      assert tuples + [t] == [t];
    } else {
      assert (tuples + [t])[1..] == tuples[1..] + [t];
      UsedAppend(tuples[1..], t);
    }
  }

  /** `add_tuple` on the bytes appends the tuple, with the same refusals. */
  lemma AddRefines(b: Bytes, p: H.Page, t: H.Tuple, x: Bytes)
    requires Holds(b, p.tuples) && !p.blank && |x| == t.bytes > 0
    ensures S.AddTuple(b, x).Ok? <==> H.AddTuple(p, t).Ok?
    ensures H.AddTuple(p, t).Ok? ==>
              && S.AddTuple(b, x).value.1 == H.AddTuple(p, t).value.1
              && Holds(S.AddTuple(b, x).value.0, H.AddTuple(p, t).value.0.tuples)
  {
    hide U16;
    hide S.Carve;
    hide S.LpAt;
    S.AddActs(b, x);
    S.UnusedIsFree(b);
    UsedAppend(p.tuples, t);
  }
}

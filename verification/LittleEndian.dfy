/** Unsigned numbers as little-endian bytes, the on-disk form of every fixed
    field. */
module LittleEndian {
  import opened Keys

  type Bytes = seq<byte>

  function Le(n: nat, v: nat): (b: Bytes)
    ensures |b| == n
  {
    if n == 0 then [] else [v % 256] + Le(n - 1, v / 256)
  }

  function Value(b: Bytes): nat
  {
    if b == [] then 0 else (b[0] as int) + 256 * Value(b[1..])
  }

  lemma {:induction false} LeRoundTrip(n: nat, v: nat)
    requires v < Pow256(n)
    ensures Value(Le(n, v)) == v
  {
    if n == 0 {
    } else {
      assert v / 256 < Pow256(n - 1);
      LeRoundTrip(n - 1, v / 256);
      assert Le(n, v)[1..] == Le(n - 1, v / 256);
    }
  }

  /** The low bytes of a number come first, the rest after them. */
  lemma {:induction false} LeAppend(n: nat, m: nat, low: nat, high: nat)
    requires low < Pow256(n)
    ensures Le(n + m, low + high * Pow256(n)) == Le(n, low) + Le(m, high)
  {
    if n == 0 {
      assert Le(0, low) + Le(m, high) == Le(m, high);
    } else {
      var rest := high * Pow256(n - 1);
      assert low + high * Pow256(n) == low + 256 * rest;
      assert (low + 256 * rest) % 256 == low % 256 && (low + 256 * rest) / 256 == low / 256 + rest;
      LeAppend(n - 1, m, low / 256, high);
      assert Le(n, low) + Le(m, high) == [low % 256] + (Le(n - 1, low / 256) + Le(m, high));
    }
  }

  // ---- The two widths a page header is read and written in ----

  function U16(b: Bytes, at: nat): nat
    requires at + 2 <= |b|
  {
    (b[at] as int) + 256 * (b[at + 1] as int)
  }

  function U32(b: Bytes, at: nat): nat
    requires at + 4 <= |b|
  {
    U16(b, at) + 65536 * U16(b, at + 2)
  }

  function Le16(v: nat): (e: Bytes)
    requires v < 65536
    ensures |e| == 2
  {
    [v % 256, v / 256]
  }

  function Le32(v: nat): (e: Bytes)
    requires v < 0x1_0000_0000
    ensures |e| == 4
  {
    Le16(v % 65536) + Le16(v / 65536)
  }

  lemma Le32RoundTrip(v: nat)
    requires v < 0x1_0000_0000
    ensures U32(Le32(v), 0) == v
  {}

  lemma ValueAfterPair(k: Bytes, r: Bytes)
    requires |k| == 2
    ensures Value(k + r) == Value(k) + 65536 * Value(r)
  {
    assert (k + r)[1..] == [k[1]] + r && ([k[1]] + r)[1..] == r;
    assert Value([k[1]] + r) == (k[1] as int) + 256 * Value(r);
    assert k[1..] == [k[1]] && Value([k[1]]) == (k[1] as int);
  }
}

/** Order-preserving index keys (crates/pg-am-btree/src/key.rs).

    Index keys are byte strings compared lexicographically. Integers are
    stored big-endian with the sign bit flipped, so that the byte order of the
    encodings is the numeric order of the values. */
module Keys {

  type byte = x: int | 0 <= x < 256

  type Key = seq<byte>

  /** Strict lexicographic order of byte strings. */
  predicate KeyLess(a: Key, b: Key)
  {
    b != [] && (a == [] || a[0] < b[0] || (a[0] == b[0] && KeyLess(a[1..], b[1..])))
  }

  lemma {:induction false} KeyTrichotomy(a: Key, b: Key)
    ensures !KeyLess(a, a)
    ensures a == b || KeyLess(a, b) || KeyLess(b, a)
    ensures !(KeyLess(a, b) && KeyLess(b, a))
  {
    if a == [] {
    } else {
      KeyTrichotomy(a[1..], a[1..]);
      if b != [] && a[0] == b[0] {
        KeyTrichotomy(a[1..], b[1..]);
        assert a == [a[0]] + a[1..] && b == [b[0]] + b[1..];
      }
    }
  }

  lemma {:induction false} KeyTransitive(a: Key, b: Key, c: Key)
    requires KeyLess(a, b) && KeyLess(b, c)
    ensures KeyLess(a, c)
  {
    if a == [] || a[0] != b[0] || b[0] != c[0] {
    } else {
      KeyTransitive(a[1..], b[1..], c[1..]);
    }
  }

  /** The strings agree before position `i`, where `a` has ended or has the
      smaller byte. */
  predicate FirstDiffers(a: Key, b: Key, i: nat)
  {
    i <= |a| && i < |b| && a[..i] == b[..i] && (i == |a| || a[i] < b[i])
  }

  lemma {:induction false} CommonPrefix(p: Key, a: Key, b: Key)
    ensures KeyLess(p + a, p + b) <==> KeyLess(a, b)
  {
    if p == [] {
      assert p + a == a && p + b == b;
    } else {
      CommonPrefix(p[1..], a, b);
      assert (p + a)[1..] == p[1..] + a && (p + b)[1..] == p[1..] + b;
    }
  }

  lemma {:induction false} DifferenceExists(a: Key, b: Key) returns (i: nat)
    requires KeyLess(a, b)
    ensures FirstDiffers(a, b, i)
  {
    if a == [] || a[0] < b[0] {
      i := 0;
    } else {
      var j := DifferenceExists(a[1..], b[1..]);
      i := j + 1;
      assert a[..i] == [a[0]] + a[1..][..j] && b[..i] == [b[0]] + b[1..][..j];
    }
  }

  lemma DifferenceDecides(a: Key, b: Key, i: nat)
    requires FirstDiffers(a, b, i)
    ensures KeyLess(a, b)
  {
    CommonPrefix(a[..i], a[i..], b[i..]);
    assert a == a[..i] + a[i..] && b == b[..i] + b[i..];
  }

  /** Byte strings are compared at the first difference, and the end of a string
      is below every byte. */
  lemma KeyLessIff(a: Key, b: Key)
    ensures KeyLess(a, b) <==> exists i: nat :: FirstDiffers(a, b, i)
  {
    if KeyLess(a, b) {
      var i := DifferenceExists(a, b);
    }
    forall i: nat | FirstDiffers(a, b, i) ensures KeyLess(a, b) {
      DifferenceDecides(a, b, i);
    }
  }

  /** What the strings that begin with `p` sort below. */
  function PrefixEnd(p: Key): Key
    requires p != [] && p[|p| - 1] < 255
  {
    p[..|p| - 1] + [p[|p| - 1] + 1]
  }

  /** The strings that begin with `p` are exactly those from `p` on that sort
      below its end. */
  lemma PrefixIsRange(p: Key, key: Key)
    requires p != [] && p[|p| - 1] < 255
    ensures p <= key <==> !KeyLess(key, p) && KeyLess(key, PrefixEnd(p))
  {
    var n := |p| - 1;
    if p <= key {
      assert FirstDiffers(key, PrefixEnd(p), n);
      KeyLessIff(key, PrefixEnd(p));
      var tail := key[|p|..];
      assert p == p + [] && key == p + tail;
      CommonPrefix(p, tail, []);
    } else if KeyLess(key, PrefixEnd(p)) {
      var i := DifferenceExists(key, PrefixEnd(p));
      assert FirstDiffers(key, p, i);
      KeyLessIff(key, p);
    }
  }

  /** 2^(8 * n), the number of values of an n-byte unsigned integer. */
  function Pow256(n: nat): (p: nat)
    ensures p >= 1
  {
    if n == 0 then 1 else 256 * Pow256(n - 1)
  }

  /** Big-endian bytes of `v`, `n` bytes wide (`to_be_bytes`). */
  function ToBigEndian(v: nat, n: nat): (bytes: Key)
    requires v < Pow256(n)
    ensures |bytes| == n
  {
    if n == 0 then [] else ToBigEndian(v / 256, n - 1) + [v % 256]
  }

  /** `from_be_bytes`. */
  function FromBigEndian(bytes: Key): (v: nat)
    ensures v < Pow256(|bytes|)
  {
    if bytes == [] then 0
    else 256 * FromBigEndian(bytes[..|bytes| - 1]) + bytes[|bytes| - 1]
  }

  lemma {:induction false} BigEndianRoundTrip(v: nat, n: nat)
    requires v < Pow256(n)
    ensures FromBigEndian(ToBigEndian(v, n)) == v
  {
    if n == 0 {
    } else {
      BigEndianRoundTrip(v / 256, n - 1);
      assert ToBigEndian(v, n)[..n - 1] == ToBigEndian(v / 256, n - 1);
    }
  }

  /** Appending a byte to two strings of one length only breaks ties. */
  lemma {:induction false} KeyLessAppend(a: Key, b: Key, x: byte, y: byte)
    requires |a| == |b|
    ensures KeyLess(a + [x], b + [y]) <==> KeyLess(a, b) || (a == b && x < y)
  {
    if a == [] {
      assert a + [x] == [x] && b + [y] == [y];
    } else {
      KeyLessAppend(a[1..], b[1..], x, y);
      assert (a + [x])[1..] == a[1..] + [x] && (b + [y])[1..] == b[1..] + [y];
      assert a == [a[0]] + a[1..] && b == [b[0]] + b[1..];
    }
  }

  /** The byte order of big-endian encodings is the numeric order. */
  lemma {:induction false} BigEndianOrder(v: nat, w: nat, n: nat)
    requires v < Pow256(n) && w < Pow256(n)
    ensures KeyLess(ToBigEndian(v, n), ToBigEndian(w, n)) <==> v < w
  {
    if n == 0 {
    } else {
      BigEndianOrder(v / 256, w / 256, n - 1);
      BigEndianRoundTrip(v / 256, n - 1);
      BigEndianRoundTrip(w / 256, n - 1);
      KeyLessAppend(ToBigEndian(v / 256, n - 1), ToBigEndian(w / 256, n - 1), v % 256, w % 256);
    }
  }

  /** Signed integer of `n` bytes: `i32` for n = 4, `i64` for n = 8. */
  predicate FitsSigned(v: int, n: nat)
    requires n > 0
  {
    -(128 * Pow256(n - 1)) <= v < 128 * Pow256(n - 1)
  }

  /** `encode_i32` / `encode_i64`: flipping the sign bit of the two's
      complement form adds half of the value range. */
  function EncodeInt(v: int, n: nat): (bytes: Key)
    requires n > 0 && FitsSigned(v, n)
    ensures |bytes| == n
  {
    ToBigEndian(v + 128 * Pow256(n - 1), n)
  }

  /** `decode_i32` / `decode_i64`. */
  function DecodeInt(bytes: Key): (v: int)
    requires bytes != []
    ensures FitsSigned(v, |bytes|)
  {
    FromBigEndian(bytes) - 128 * Pow256(|bytes| - 1)
  }

  lemma EncodeIntRoundTrip(v: int, n: nat)
    requires n > 0 && FitsSigned(v, n)
    ensures DecodeInt(EncodeInt(v, n)) == v
  {
    BigEndianRoundTrip(v + 128 * Pow256(n - 1), n);
  }

  /** What the B+Tree relies on: comparing encoded keys as byte strings is
      comparing the integers, for every width. */
  lemma EncodeIntOrder(v: int, w: int, n: nat)
    requires n > 0 && FitsSigned(v, n) && FitsSigned(w, n)
    ensures KeyLess(EncodeInt(v, n), EncodeInt(w, n)) <==> v < w
  {
    BigEndianOrder(v + 128 * Pow256(n - 1), w + 128 * Pow256(n - 1), n);
  }
}

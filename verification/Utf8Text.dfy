/** Text as UTF-8 (crates/pg-am-heap/src/tuple.rs): what a decoder accepts, and
    what that means. */
module Utf8Text {
  import opened Keys
  import opened LittleEndian

  /** A continuation byte in `[lo, hi]`. */
  predicate Cont(b: Bytes, i: nat, lo: int, hi: int) { i < |b| && lo <= b[i] <= hi }

  /** Well-formed UTF-8 (section 4 of RFC 3629). */
  predicate Utf8(b: Bytes)
    decreases |b|
  {
    if b == [] then true
    else if b[0] < 0x80 then Utf8(b[1..])
    else if 0xC2 <= b[0] <= 0xDF then Cont(b, 1, 0x80, 0xBF) && Utf8(b[2..])
    else if 0xE0 <= b[0] <= 0xEF then
      && Cont(b, 1, if b[0] == 0xE0 then 0xA0 else 0x80, if b[0] == 0xED then 0x9F else 0xBF)
      && Cont(b, 2, 0x80, 0xBF) && Utf8(b[3..])
    else if 0xF0 <= b[0] <= 0xF4 then
      && Cont(b, 1, if b[0] == 0xF0 then 0x90 else 0x80, if b[0] == 0xF4 then 0x8F else 0xBF)
      && Cont(b, 2, 0x80, 0xBF) && Cont(b, 3, 0x80, 0xBF) && Utf8(b[4..])
    else false
  }

  // ---- Encoded text ----

  /** A Unicode scalar value: a code point that is no surrogate. */
  predicate Scalar(c: nat) { c < 0xD800 || 0xE000 <= c < 0x11_0000 }

  /** Section 3 of RFC 3629. */
  function EncodeScalar(c: nat): Bytes
    requires Scalar(c)
  {
    if c < 0x80 then [c]
    else if c < 0x800 then [0xC0 + c / 64, 0x80 + c % 64]
    else if c < 0x1_0000 then [0xE0 + c / 4096, 0x80 + c / 64 % 64, 0x80 + c % 64]
    else [0xF0 + c / 262144, 0x80 + c / 4096 % 64, 0x80 + c / 64 % 64, 0x80 + c % 64]
  }

  predicate AllScalar(cs: seq<nat>) { forall i :: 0 <= i < |cs| ==> Scalar(cs[i]) }

  function EncodeText(cs: seq<nat>): Bytes
    requires AllScalar(cs)
  {
    if cs == [] then [] else EncodeScalar(cs[0]) + EncodeText(cs[1..])
  }

  lemma ScalarInFront(c: nat, rest: Bytes)
    requires Scalar(c)
    ensures Utf8(EncodeScalar(c) + rest) <==> Utf8(rest)
  {
    var e := EncodeScalar(c);
    var b := e + rest;
    assert b[|e|..] == rest;
    if c >= 0x1_0000 {
      assert c / 4096 == 64 * (c / 262144) + c / 4096 % 64;
    } else if c >= 0x800 {
      assert c / 64 == 64 * (c / 4096) + c / 64 % 64;
    }
  }

  lemma {:induction false} EncodedIsUtf8(cs: seq<nat>)
    requires AllScalar(cs)
    ensures Utf8(EncodeText(cs))
  {
    if cs == [] {
    } else {
      EncodedIsUtf8(cs[1..]);
      ScalarInFront(cs[0], EncodeText(cs[1..]));
    }
  }

  /** Digits to base 64. */
  lemma Digits(high: nat, low: nat)
    requires low < 64
    ensures (64 * high + low) / 64 == high && (64 * high + low) % 64 == low
  {}

  lemma TwoBytes(x: nat, y: nat) returns (c: nat)
    requires 0xC2 <= x <= 0xDF && 0x80 <= y <= 0xBF
    ensures Scalar(c) && EncodeScalar(c) == [x, y]
  {
    c := 64 * (x - 0xC0) + (y - 0x80);
    Digits(x - 0xC0, y - 0x80);
  }

  lemma ThreeBytes(x: nat, y: nat, z: nat) returns (c: nat)
    requires 0xE0 <= x <= 0xEF && 0x80 <= z <= 0xBF
    requires (if x == 0xE0 then 0xA0 else 0x80) <= y <= (if x == 0xED then 0x9F else 0xBF)
    ensures Scalar(c) && EncodeScalar(c) == [x, y, z]
  {
    var high := 64 * (x - 0xE0) + (y - 0x80);
    c := 64 * high + (z - 0x80);
    Digits(high, z - 0x80);
    Digits(x - 0xE0, y - 0x80);
    assert c / 4096 == c / 64 / 64;
  }

  lemma FourBytes(x: nat, y: nat, z: nat, w: nat) returns (c: nat)
    requires 0xF0 <= x <= 0xF4 && 0x80 <= z <= 0xBF && 0x80 <= w <= 0xBF
    requires (if x == 0xF0 then 0x90 else 0x80) <= y <= (if x == 0xF4 then 0x8F else 0xBF)
    ensures Scalar(c) && EncodeScalar(c) == [x, y, z, w]
  {
    var top := 64 * (x - 0xF0) + (y - 0x80);
    var high := 64 * top + (z - 0x80);
    c := 64 * high + (w - 0x80);
    Digits(high, w - 0x80);
    Digits(top, z - 0x80);
    Digits(x - 0xF0, y - 0x80);
    assert c / 4096 == c / 64 / 64 && c / 262144 == c / 64 / 64 / 64;
  }

  /** The scalar value that well-formed bytes begin with. */
  lemma FirstScalar(b: Bytes) returns (c: nat)
    requires Utf8(b) && b != []
    ensures Scalar(c) && EncodeScalar(c) <= b && Utf8(b[|EncodeScalar(c)|..])
  {
    hide EncodeScalar;
    if b[0] < 0x80 {
      c := OneByte(b[0]);
    } else if b[0] < 0xE0 {
      c := TwoBytes(b[0], b[1]);
    } else if b[0] < 0xF0 {
      c := ThreeBytes(b[0], b[1], b[2]);
    } else {
      c := FourBytes(b[0], b[1], b[2], b[3]);
    }
  }

  lemma OneByte(x: nat) returns (c: nat)
    requires x < 0x80
    ensures Scalar(c) && EncodeScalar(c) == [x]
  {
    c := x;
  }

  lemma {:induction false} TextOf(b: Bytes) returns (cs: seq<nat>)
    requires Utf8(b)
    ensures AllScalar(cs) && EncodeText(cs) == b
    decreases |b|
  {
    if b == [] {
      cs := [];
    } else {
      var c := FirstScalar(b);
      var rest := TextOf(b[|EncodeScalar(c)|..]);
      cs := [c] + rest;
      assert cs[1..] == rest;
    }
  }

  /** The bytes that are accepted as text are exactly the encodings of sequences of
      scalar values. */
  lemma Utf8Iff(b: Bytes)
    ensures Utf8(b) <==> exists cs :: AllScalar(cs) && EncodeText(cs) == b
  {
    if Utf8(b) {
      var cs := TextOf(b);
    }
    forall cs | AllScalar(cs) && EncodeText(cs) == b ensures Utf8(b) {
      EncodedIsUtf8(cs);
    }
  }
}

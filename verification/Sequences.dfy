/** Facts about cutting and joining sequences. */
module Sequences {

  function InsertAt<T>(s: seq<T>, at: nat, x: T): seq<T>
    requires at <= |s|
  {
    s[..at] + [x] + s[at..]
  }

  function RemoveAt<T>(s: seq<T>, at: nat): seq<T>
    requires at < |s|
  {
    s[..at] + s[at + 1..]
  }

  lemma InsertedElements<T>(s: seq<T>, at: nat, x: T)
    requires at <= |s|
    ensures forall y :: y in InsertAt(s, at, x) <==> y in s || y == x
  {
    assert InsertAt(s, at, x)[at] == x;
    assert s == s[..at] + s[at..];
  }

  lemma InsertInMiddle<T>(a: seq<T>, m: seq<T>, b: seq<T>, slot: nat, x: T)
    requires slot <= |m|
    ensures a + InsertAt(m, slot, x) + b == InsertAt(a + m + b, |a| + slot, x)
  {}

  lemma RemoveInMiddle<T>(a: seq<T>, m: seq<T>, b: seq<T>, slot: nat)
    requires slot < |m|
    ensures a + RemoveAt(m, slot) + b == RemoveAt(a + m + b, |a| + slot)
    ensures (a + m + b)[|a| + slot] == m[slot]
  {}

  lemma ConcatAssociative<T>(a: seq<T>, b: seq<T>, c: seq<T>)
    ensures a + b + c == a + (b + c)
  {}

  /** Moving a suffix of one part to the front of the next changes nothing. */
  lemma MoveSuffix<T>(a: seq<T>, m: seq<T>, n: nat, b: seq<T>)
    requires n <= |m|
    ensures a + m[..n] + m[n..] + b == a + m + b
  {
    assert m[..n] + m[n..] == m;
    assert a + m[..n] + m[n..] == a + (m[..n] + m[n..]);
  }
}

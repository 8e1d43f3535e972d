/** Bytes, byte strings and their order. */
module Bytes {
  newtype byte = x: int | 0 <= x < 256

  type bytes = seq<byte>

  /** Go's < on strings. */
  predicate Less(a: bytes, b: bytes) {
    if b == [] then false
    else if a == [] then true
    else a[0] < b[0] || (a[0] == b[0] && Less(a[1..], b[1..]))
  }

  /** Of two ordered strings with a common prefix the larger one goes on, and the smaller one ends
      or goes on no higher. */
  lemma {:induction false} LessAfterPrefix(a: bytes, b: bytes, col: nat)
    requires Less(a, b) && col <= |a| && col <= |b| && a[..col] == b[..col]
    ensures col < |b|
    ensures col < |a| ==> a[col] <= b[col]
  {
    if col > 0 {
      assert a[0] == a[..col][0] && b[0] == b[..col][0];
      assert a[1..][..col - 1] == a[..col][1..];
      assert b[1..][..col - 1] == b[..col][1..];
      LessAfterPrefix(a[1..], b[1..], col - 1);
    }
  }

  lemma {:induction false} LessTransitive(a: bytes, b: bytes, c: bytes)
    requires Less(a, b) && Less(b, c)
    ensures Less(a, c)
  {
    if a != [] && a[0] == b[0] == c[0] {
      LessTransitive(a[1..], b[1..], c[1..]);
    }
  }

  lemma {:induction false} LessTotal(a: bytes, b: bytes)
    ensures a == b || Less(a, b) || Less(b, a)
    ensures !(a == b && Less(a, b)) && !(Less(a, b) && Less(b, a))
  {
    if a != [] && b != [] {
      assert a == [a[0]] + a[1..] && b == [b[0]] + b[1..];
      LessTotal(a[1..], b[1..]);
    }
  }

  /** Strictly increasing: sorted, with no string twice. */
  ghost predicate Increasing(keys: seq<bytes>) {
    forall i, j :: 0 <= i < j < |keys| ==> Less(keys[i], keys[j])
  }

  ghost predicate IsPrefix(p: bytes, s: bytes) {
    |p| <= |s| && s[..|p|] == p
  }

  /** The parts one after the other. */
  function Concat(parts: seq<bytes>): bytes {
    if parts == [] then [] else parts[0] + Concat(parts[1..])
  }

  lemma {:induction false} ConcatSnoc(parts: seq<bytes>, p: bytes)
    ensures Concat(parts + [p]) == Concat(parts) + p
  {
    if parts == [] {
      assert parts + [p] == [p];
    } else {
      ConcatSnoc(parts[1..], p);
      assert (parts + [p])[1..] == parts[1..] + [p];
    }
  }
}

/** Searching a stream for delimiters while it arrives in pieces (the loop of PeekUntil,
    common/bufio/cached.go:77-95). */
module Delimiters {
  import opened Bytes
  import opened Buffers

  /** e stands in b at index i. */
  ghost predicate OccursAt(b: bytes, e: bytes, i: int) {
    0 <= i && i + |e| <= |b| && b[i..i + |e|] == e
  }

  ghost predicate Occurs(b: bytes, e: bytes) {
    exists i :: OccursAt(b, e, i)
  }

  /** Where e first stands in b from i on, or -1. */
  ghost function FirstFrom(b: bytes, e: bytes, i: nat): (r: int)
    ensures r >= 0 ==> i <= r && OccursAt(b, e, r) && forall j :: i <= j < r ==> !OccursAt(b, e, j)
    ensures r < 0 ==> forall j :: i <= j ==> !OccursAt(b, e, j)
    decreases |b| - i
  {
    if i + |e| > |b| then -1 else if b[i..i + |e|] == e then i else FirstFrom(b, e, i + 1)
  }

  /** Where the first occurrence of e in b ends. */
  ghost function FirstEnd(b: bytes, e: bytes): (n: nat)
    requires Occurs(b, e)
    ensures |e| <= n <= |b| && OccursAt(b, e, n - |e|)
    ensures forall j :: 0 <= j < n - |e| ==> !OccursAt(b, e, j)
  {
    var i: nat :| OccursAt(b, e, i);
    FirstFrom(b, e, 0) + |e|
  }

  /** bytes.Index: the first occurrence, or -1. */
  method Index(b: bytes, e: bytes) returns (index: int)
    ensures index >= 0 ==> OccursAt(b, e, index) && forall j :: 0 <= j < index ==> !OccursAt(b, e, j)
    ensures index < 0 ==> !Occurs(b, e)
  {
    index := 0;
    while index + |e| <= |b|
      invariant 0 <= index
      invariant forall j :: 0 <= j < index ==> !OccursAt(b, e, j)
    {
      if b[index..index + |e|] == e {
        return;
      }
      index := index + 1;
    }
    index := -1;
  }

  /** The delimiter that stands in b and comes first in argument order, or |ends|. */
  ghost function FirstIn(b: bytes, ends: seq<bytes>): (k: nat)
    ensures k <= |ends|
    ensures k < |ends| ==> Occurs(b, ends[k])
    ensures forall i :: 0 <= i < k ==> !Occurs(b, ends[i])
  {
    if ends == [] || Occurs(b, ends[0]) then 0 else 1 + FirstIn(b, ends[1..])
  }

  /** The first delimiter, in argument order, that stands in b, and where it first does. */
  method FindAny(b: bytes, ends: seq<bytes>) returns (k: nat, index: int)
    ensures index >= 0 <==> FirstIn(b, ends) < |ends|
    ensures index >= 0 ==>
              && k == FirstIn(b, ends) && OccursAt(b, ends[k], index)
              && forall j :: 0 <= j < index ==> !OccursAt(b, ends[k], j)
  {
    k, index := 0, -1;
    while k < |ends|
      invariant k <= |ends|
      invariant forall i :: 0 <= i < k ==> !Occurs(b, ends[i])
    {
      index := Index(b, ends[k]);
      if index >= 0 {
        assert k == FirstIn(b, ends);
        return;
      }
      k := k + 1;
    }
    index := -1;
  }

  // ---------------------------------------------------------------- while the stream arrives

  /** The delimiter found in b when h bytes of it are held and script says how the rest arrives: the
      search is repeated after every piece.  |ends| when there is none. */
  ghost function Search(b: bytes, ends: seq<bytes>, h: nat, script: seq<nat>): nat
    requires h <= |b|
    decreases |b| - h
  {
    var k := FirstIn(b[..h], ends);
    if k < |ends| || h == |b| then k
    else Search(b, ends, h + Granted(script, |b| - h), Later(script))
  }

  lemma SearchStep(b: bytes, ends: seq<bytes>, h: nat, script: seq<nat>)
    requires h <= |b|
    ensures var k := FirstIn(b[..h], ends);
            Search(b, ends, h, script) ==
            if k < |ends| || h == |b| then k else Search(b, ends, h + Granted(script, |b| - h), Later(script))
    ensures h == |b| ==> b[..h] == b
  {
    hide FirstIn;
  }

  lemma OccursInFront(b: bytes, e: bytes, h: nat)
    requires h <= |b|
    ensures Occurs(b[..h], e) <==> Occurs(b, e) && FirstEnd(b, e) <= h
  {
    if Occurs(b[..h], e) {
      var i :| OccursAt(b[..h], e, i);
      assert b[..h][i..i + |e|] == b[i..i + |e|];
      assert OccursAt(b, e, i);
    }
    if Occurs(b, e) && FirstEnd(b, e) <= h {
      var i := FirstEnd(b, e) - |e|;
      assert b[..h][i..i + |e|] == b[i..i + |e|];
      assert OccursAt(b[..h], e, i);
    }
  }

  /** Of the delimiters that occur, the one first in argument order ends first. */
  ghost predicate FirstIsEarliest(b: bytes, ends: seq<bytes>) {
    forall i, k :: k == FirstIn(b, ends) && 0 <= i < |ends| && Occurs(b, ends[i]) ==>
                     k < |ends| && FirstEnd(b, ends[k]) <= FirstEnd(b, ends[i])
  }

  /** Where the earliest delimiter is first in argument order, every cut finds it. */
  lemma {:induction false} EveryCutFinds(b: bytes, ends: seq<bytes>, h: nat, script: seq<nat>)
    requires h <= |b| && FirstIsEarliest(b, ends)
    ensures Search(b, ends, h, script) == FirstIn(b, ends)
    decreases |b| - h
  {
    var k, q := FirstIn(b, ends), FirstIn(b[..h], ends);
    forall i | 0 <= i < |ends|
      ensures Occurs(b[..h], ends[i]) <==> Occurs(b, ends[i]) && FirstEnd(b, ends[i]) <= h
    {
      OccursInFront(b, ends[i], h);
    }
    if q < |ends| {
      assert Occurs(b, ends[q]);
      assert Occurs(b[..h], ends[k]);
      assert q == k;
    } else if h == |b| {
      assert b[..h] == b;
    } else {
      EveryCutFinds(b, ends, h + Granted(script, |b| - h), Later(script));
    }
  }

  /** The stream arrives in one piece of n bytes and then the rest. */
  lemma SearchAfterPiece(b: bytes, ends: seq<bytes>, h: nat, n: nat)
    requires h < h + n <= |b| && FirstIn(b[..h], ends) == |ends| && FirstIn(b[..h + n], ends) < |ends|
    ensures Search(b, ends, h, [n]) == FirstIn(b[..h + n], ends)
  {
    hide Occurs, OccursAt, FirstIn;
    assert Granted([n], |b| - h) == n && Later([n]) == [];
  }

  /** The delimiter found is the same for every cut of the stream exactly when one was already held,
      or the delimiter first in argument order among those that occur ends first.  It then is that
      earliest one. */
  lemma CutsAgreeExactly(b: bytes, ends: seq<bytes>, h: nat)
    requires h <= |b|
    ensures (forall script, script' :: Search(b, ends, h, script) == Search(b, ends, h, script')) <==>
            FirstIn(b[..h], ends) < |ends| || FirstIsEarliest(b, ends)
  {
    if FirstIn(b[..h], ends) < |ends| {
    } else if FirstIsEarliest(b, ends) {
      forall script
        ensures Search(b, ends, h, script) == FirstIn(b, ends)
      {
        EveryCutFinds(b, ends, h, script);
      }
    } else {
      var script, script' := CutsDiffer(b, ends, h);
      assert Search(b, ends, h, script) != Search(b, ends, h, script');
    }
  }

  /** Otherwise: the whole stream at once, and a cut right after the delimiter that ends earlier. */
  lemma CutsDiffer(b: bytes, ends: seq<bytes>, h: nat) returns (script: seq<nat>, script': seq<nat>)
    requires h <= |b| && FirstIn(b[..h], ends) == |ends| && !FirstIsEarliest(b, ends)
    ensures Search(b, ends, h, script) != Search(b, ends, h, script')
  {
    hide Occurs, OccursAt, Search;
    var k := FirstIn(b, ends);
    var i :| 0 <= i < |ends| && Occurs(b, ends[i]) && !(k < |ends| && FirstEnd(b, ends[k]) <= FirstEnd(b, ends[i]));
    assert k < |ends|;
    var n := FirstEnd(b, ends[i]);
    OccursInFront(b, ends[i], h);
    OccursInFront(b, ends[i], n);
    OccursInFront(b, ends[k], n);
    assert b[..|b|] == b;
    script, script' := [|b| - h], [n - h];
    SearchAfterPiece(b, ends, h, |b| - h);
    SearchAfterPiece(b, ends, h, n - h);
  }
}

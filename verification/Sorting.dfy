/** sort.Strings, as far as the matchers rely on it. */
module Sorting {
  import opened Bytes
  import opened Trie

  function Insert(x: bytes, s: seq<bytes>): seq<bytes> {
    if s == [] then [x] else if Less(s[0], x) then [s[0]] + Insert(x, s[1..]) else [x] + s
  }

  function Sorted(s: seq<bytes>): seq<bytes> {
    if s == [] then [] else Insert(s[0], Sorted(s[1..]))
  }

  ghost predicate Distinct(s: seq<bytes>) {
    forall i, j :: 0 <= i < j < |s| ==> s[i] != s[j]
  }

  ghost function SumLength(s: seq<bytes>): nat {
    if s == [] then 0 else |s[0]| + SumLength(s[1..])
  }

  lemma {:induction false} InsertKeeps(x: bytes, s: seq<bytes>)
    ensures SumLength(Insert(x, s)) == |x| + SumLength(s)
    ensures forall y :: y in Insert(x, s) <==> y == x || y in s
    ensures |Insert(x, s)| == |s| + 1
  {
    if s != [] && Less(s[0], x) {
      InsertKeeps(x, s[1..]);
      var t := Insert(x, s[1..]);
      assert ([s[0]] + t)[1..] == t;
      assert forall y :: y in s <==> y == s[0] || y in s[1..];
    } else {
      assert ([x] + s)[1..] == s;
    }
  }

  lemma {:induction false} InsertIncreasing(x: bytes, s: seq<bytes>)
    requires Increasing(s) && x !in s
    ensures Increasing(Insert(x, s))
  {
    if s != [] {
      LessTotal(s[0], x);
      if Less(s[0], x) {
        InsertIncreasing(x, s[1..]);
        InsertKeeps(x, s[1..]);
        var t := Insert(x, s[1..]);
        forall j | 0 <= j < |t|
          ensures Less(s[0], t[j])
        {
          assert t[j] in t;
        }
      } else {
        forall j | 0 <= j < |s|
          ensures Less(x, s[j])
        {
          if j > 0 {
            LessTransitive(x, s[0], s[j]);
          }
        }
      }
    }
  }

  /** Sorting keeps the strings, and puts distinct ones in strictly increasing order. */
  lemma {:induction false} SortedKeeps(s: seq<bytes>)
    ensures |Sorted(s)| == |s|
    ensures forall y :: y in Sorted(s) <==> y in s
    ensures SumLength(Sorted(s)) == SumLength(s)
    ensures Distinct(s) ==> Increasing(Sorted(s))
  {
    if s != [] {
      SortedKeeps(s[1..]);
      InsertKeeps(s[0], Sorted(s[1..]));
      assert forall y :: y in s <==> y == s[0] || y in s[1..];
      if Distinct(s) {
        assert s[0] !in s[1..];
        InsertIncreasing(s[0], Sorted(s[1..]));
      }
    }
  }

  lemma IncreasingIsDistinct(s: seq<bytes>)
    requires Increasing(s)
    ensures Distinct(s)
  {
    forall i, j | 0 <= i < j < |s|
      ensures s[i] != s[j]
    {
      LessTotal(s[i], s[j]);
    }
  }

  lemma {:induction false} CharsAreSum(keys: seq<bytes>, s: nat)
    requires s <= |keys|
    ensures Chars(keys, s, |keys|, 0) == SumLength(keys[s..])
    decreases |keys| - s
  {
    if s < |keys| {
      CharsAreSum(keys, s + 1);
      assert keys[s..][1..] == keys[s + 1..];
    }
  }

  lemma TotalIsSum(keys: seq<bytes>)
    ensures TotalLength(keys) == SumLength(keys)
  {
    CharsAreSum(keys, 0);
    assert keys[0..] == keys;
  }

  lemma {:induction false} SumLengthSnoc(s: seq<bytes>, x: bytes)
    ensures SumLength(s + [x]) == SumLength(s) + |x|
  {
    if s == [] {
      assert s + [x] == [x];
    } else {
      SumLengthSnoc(s[1..], x);
      assert (s + [x])[1..] == s[1..] + [x];
    }
  }
}

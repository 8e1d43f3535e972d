/** What the finished queue of Trie means: its nodes are exactly the distinct prefixes of the keys,
    and labels lead from a prefix to the prefix one byte longer. */
module TrieMeaning {
  import opened Bytes
  import opened Trie

  /** Node q stands for p: its range is exactly the keys that start with p. */
  ghost predicate Represents(keys: seq<bytes>, q: QElt, p: bytes) {
    && q.col == |p|
    && forall k :: 0 <= k < |keys| ==> (IsPrefix(p, keys[k]) <==> q.s <= k < q.e)
  }

  /** Some key starts with p. */
  ghost predicate IsStem(keys: seq<bytes>, p: bytes) {
    exists k :: 0 <= k < |keys| && IsPrefix(p, keys[k])
  }

  lemma RootRepresents(keys: seq<bytes>)
    ensures Represents(keys, QElt(0, |keys|, 0), [])
  {
  }

  // ---------------------------------------------------------------- one step down

  /** Every key of a split range falls under one of the children. */
  lemma {:induction false} ChildOf(keys: seq<bytes>, queue: seq<QElt>, labels: bytes, q: QElt, lo: nat, hi: nat, j: nat,
                                   k: nat, at: nat) returns (c: nat)
    requires AreChildren(keys, queue, labels, q, lo, hi, j)
    requires lo <= at < hi && queue[at].s <= k < j
    ensures lo <= c < hi && queue[c].s <= k < queue[c].e
    decreases hi - at
  {
    hide IsChild, LabelsIncrease;
    if k < queue[at].e {
      c := at;
    } else {
      assert at + 1 < hi && queue[at + 1].s == queue[at].e;
      c := ChildOf(keys, queue, labels, q, lo, hi, j, k, at + 1);
    }
  }

  lemma LongerPrefix(p: bytes, b: byte, s: bytes)
    ensures IsPrefix(p + [b], s) <==> IsPrefix(p, s) && |p| < |s| && s[|p|] == b
  {
    if |p| < |s| {
      assert s[..|p| + 1] == s[..|p|] + [s[|p|]];
      assert s[..|p|] == s[..|p| + 1][..|p|];
    }
  }

  /** A key under node q that goes on with byte b is under the child labelled b. */
  lemma DownLabel(keys: seq<bytes>, queue: seq<QElt>, labels: bytes, q: QElt, lo: nat, hi: nat, p: bytes, k: nat)
    returns (c: nat)
    requires AreChildren(keys, queue, labels, q, lo, hi, q.e) && IsRange(keys, q)
    requires Represents(keys, q, p)
    requires k < |keys| && IsPrefix(p, keys[k]) && |p| < |keys[k]|
    ensures lo <= c < hi && queue[c].s <= k < queue[c].e
    ensures Label(labels, c) == keys[k][|p|]
  {
    assert q.s <= k < q.e;
    assert Body(keys, q) <= k;
    c := ChildOf(keys, queue, labels, q, lo, hi, q.e, k, lo);
    assert IsChild(keys, q, queue[c], Label(labels, c));
    SameLabelInChild(keys, queue[c], k);
  }

  lemma SameChild(labels: bytes, lo: nat, hi: nat, c: nat, d: nat)
    requires 1 <= lo <= hi <= |labels| + 1 && LabelsIncrease(labels, lo, hi)
    requires lo <= c < hi && lo <= d < hi && Label(labels, c) == Label(labels, d)
    ensures c == d
  {
  }

  lemma UnderChild(keys: seq<bytes>, q: QElt, child: QElt, b: byte, p: bytes, k: nat)
    requires IsRange(keys, q) && Represents(keys, q, p)
    requires IsChild(keys, q, child, b) && child.e <= q.e
    requires child.s <= k < child.e
    ensures IsPrefix(p + [b], keys[k])
  {
    SameLabelInChild(keys, child, k);
    LongerPrefix(p, b, keys[k]);
  }

  lemma {:induction false} ChildEndsInside(keys: seq<bytes>, queue: seq<QElt>, labels: bytes, q: QElt, lo: nat, hi: nat,
                                           j: nat, c: nat)
    requires AreChildren(keys, queue, labels, q, lo, hi, j) && lo <= c < hi
    ensures queue[c].e <= j
    decreases hi - c
  {
    if c + 1 < hi {
      ChildEndsInside(keys, queue, labels, q, lo, hi, j, c + 1);
      assert IsChild(keys, q, queue[c + 1], Label(labels, c + 1));
    }
  }

  /** The child labelled b of the node for p is the node for p + [b]. */
  lemma ChildRepresents(keys: seq<bytes>, queue: seq<QElt>, labels: bytes, q: QElt, lo: nat, hi: nat, p: bytes, c: nat)
    requires AreChildren(keys, queue, labels, q, lo, hi, q.e) && IsRange(keys, q)
    requires Represents(keys, q, p) && lo <= c < hi
    ensures 1 <= c <= |labels|
    ensures Represents(keys, queue[c], p + [Label(labels, c)])
  {
    hide IsRange, Split, AreChildren, Represents, IsPrefix, LabelsIncrease;
    ChildFacts(keys, queue, labels, q, lo, hi, p, c);
    var b := Label(labels, c);
    forall k | 0 <= k < |keys|
      ensures IsPrefix(p + [b], keys[k]) <==> queue[c].s <= k < queue[c].e
    {
      if queue[c].s <= k < queue[c].e {
        UnderChild(keys, q, queue[c], b, p, k);
      }
      if IsPrefix(p + [b], keys[k]) {
        LongerPrefix(p, b, keys[k]);
        var d := DownLabel(keys, queue, labels, q, lo, hi, p, k);
        SameChild(labels, lo, hi, c, d);
      }
    }
    RepresentsIntro(keys, queue[c], p + [b]);
  }

  lemma RepresentsIntro(keys: seq<bytes>, q: QElt, p: bytes)
    requires q.col == |p|
    requires forall k :: 0 <= k < |keys| ==> (IsPrefix(p, keys[k]) <==> q.s <= k < q.e)
    ensures Represents(keys, q, p)
  {
  }

  lemma ChildFacts(keys: seq<bytes>, queue: seq<QElt>, labels: bytes, q: QElt, lo: nat, hi: nat, p: bytes, c: nat)
    requires AreChildren(keys, queue, labels, q, lo, hi, q.e) && IsRange(keys, q)
    requires Represents(keys, q, p) && lo <= c < hi
    ensures 1 <= lo <= hi <= |queue| && |labels| + 1 == |queue| && LabelsIncrease(labels, lo, hi)
    ensures q.s < |keys| && IsChild(keys, q, queue[c], Label(labels, c)) && queue[c].e <= q.e
    ensures queue[c].col == |p + [Label(labels, c)]|
  {
    ChildEndsInside(keys, queue, labels, q, lo, hi, q.e, c);
  }

  /** A node stands for a key exactly when it is a leaf. */
  lemma LeafIsKey(keys: seq<bytes>, q: QElt, p: bytes)
    requires Increasing(keys) && IsRange(keys, q) && Represents(keys, q, p)
    ensures IsLeaf(keys, q) <==> p in keys
  {
    if IsLeaf(keys, q) {
      assert IsPrefix(p, keys[q.s]);
      assert keys[q.s] == p;
    }
    if p in keys {
      var k :| 0 <= k < |keys| && keys[k] == p;
      assert IsPrefix(p, keys[k]);
      if Body(keys, q) <= k {
        RangeGoesOn(keys, q, k);
      }
    }
  }

  // ---------------------------------------------------------------- the whole trie

  /** Descending from the root by the bytes of a stem. */
  lemma {:induction false} NodeFor(keys: seq<bytes>, queue: seq<QElt>, labels: bytes, first: seq<nat>, p: bytes)
    returns (n: nat)
    requires IsTrie(keys, queue, labels, first) && IsStem(keys, p)
    ensures n < |queue| && Represents(keys, queue[n], p)
  {
    hide IsRange, AreChildren, Represents;
    if p == [] {
      n := 0;
      RootRepresents(keys);
    } else {
      var k :| 0 <= k < |keys| && IsPrefix(p, keys[k]);
      var up, b := p[..|p| - 1], p[|p| - 1];
      assert p == up + [b];
      LongerPrefix(up, b, keys[k]);
      var m := NodeFor(keys, queue, labels, first, up);
      n := DownLabel(keys, queue, labels, queue[m], first[m], first[m + 1], up, k);
      ChildRepresents(keys, queue, labels, queue[m], first[m], first[m + 1], up, n);
    }
  }

  /** The node whose child c is. */
  lemma {:induction false} Parent(keys: seq<bytes>, queue: seq<QElt>, labels: bytes, first: seq<nat>, c: nat, at: nat)
    returns (n: nat)
    requires IsTrie(keys, queue, labels, first)
    requires at < |first| && first[0] <= c < first[at]
    ensures n < at && first[n] <= c < first[n + 1] && n < c
  {
    hide IsRange, AreChildren;
    if first[at - 1] <= c {
      n := at - 1;
    } else {
      n := Parent(keys, queue, labels, first, c, at - 1);
    }
  }

  /** Every node stands for a stem of the keys, the one its own range spells. */
  lemma {:induction false} NodeRepresents(keys: seq<bytes>, queue: seq<QElt>, labels: bytes, first: seq<nat>, n: nat)
    requires IsTrie(keys, queue, labels, first) && n < |queue|
    ensures IsRange(keys, queue[n]) && Represents(keys, queue[n], Prefix(keys, queue[n]))
    ensures IsStem(keys, Prefix(keys, queue[n]))
  {
    assert IsRange(keys, queue[n]);
    var p := Prefix(keys, queue[n]);
    assert IsPrefix(p, keys[queue[n].s]);
    if n == 0 {
      RootRepresents(keys);
    } else {
      var m := Parent(keys, queue, labels, first, n, |queue|);
      NodeRepresents(keys, queue, labels, first, m);
      var up := Prefix(keys, queue[m]);
      ChildRepresents(keys, queue, labels, queue[m], first[m], first[m + 1], up, n);
      assert IsPrefix(up + [Label(labels, n)], keys[queue[n].s]);
    }
  }

  /** No two nodes stand for the same prefix. */
  lemma {:induction false} NodeUnique(keys: seq<bytes>, queue: seq<QElt>, labels: bytes, first: seq<nat>,
                                      n: nat, m: nat)
    requires IsTrie(keys, queue, labels, first) && n < |queue| && m < |queue|
    requires IsRange(keys, queue[n]) && IsRange(keys, queue[m])
    requires Prefix(keys, queue[n]) == Prefix(keys, queue[m])
    ensures n == m
    decreases n
  {
    hide AreChildren, IsRange;
    RangeColumn(keys, queue[n]);
    RangeColumn(keys, queue[m]);
    if n != 0 && m != 0 {
      var np := Parent(keys, queue, labels, first, n, |queue|);
      var mp := Parent(keys, queue, labels, first, m, |queue|);
      StepUp(keys, queue, labels, first, n, np);
      StepUp(keys, queue, labels, first, m, mp);
      SnocInjective(Prefix(keys, queue[np]), Label(labels, n), Prefix(keys, queue[mp]), Label(labels, m));
      NodeUnique(keys, queue, labels, first, np, mp);
      NodeChildren(keys, queue, labels, first, np);
      SameChild(labels, first[np], first[np + 1], n, m);
    } else if n != 0 {
      var np := Parent(keys, queue, labels, first, n, |queue|);
      StepUp(keys, queue, labels, first, n, np);
    } else if m != 0 {
      var mp := Parent(keys, queue, labels, first, m, |queue|);
      StepUp(keys, queue, labels, first, m, mp);
    }
  }

  lemma SnocInjective(p: bytes, a: byte, q: bytes, b: byte)
    requires p + [a] == q + [b]
    ensures p == q && a == b
  {
    assert |p + [a]| == |q + [b]|;
    assert p == (p + [a])[..|p|] && q == (q + [b])[..|q|];
    assert a == (p + [a])[|p|] && b == (q + [b])[|q|];
  }

  lemma RangeColumn(keys: seq<bytes>, q: QElt)
    requires IsRange(keys, q)
    ensures |Prefix(keys, q)| == q.col
  {
  }

  lemma NodeChildren(keys: seq<bytes>, queue: seq<QElt>, labels: bytes, first: seq<nat>, n: nat)
    requires IsTrie(keys, queue, labels, first) && n < |queue|
    ensures 1 <= first[n] <= first[n + 1] <= |queue| && |labels| + 1 == |queue|
    ensures LabelsIncrease(labels, first[n], first[n + 1])
    ensures AreChildren(keys, queue, labels, queue[n], first[n], first[n + 1], queue[n].e)
  {
  }

  /** A child's prefix is its parent's with the label added. */
  lemma StepUp(keys: seq<bytes>, queue: seq<QElt>, labels: bytes, first: seq<nat>, c: nat, n: nat)
    requires IsTrie(keys, queue, labels, first) && c < |queue| && n < |queue|
    requires first[n] <= c < first[n + 1]
    ensures IsRange(keys, queue[c]) && IsRange(keys, queue[n])
    ensures Prefix(keys, queue[c]) == Prefix(keys, queue[n]) + [Label(labels, c)]
    ensures queue[c].col == queue[n].col + 1
  {
    NodeChildren(keys, queue, labels, first, n);
    var q, child := queue[n], queue[c];
    assert IsChild(keys, q, child, Label(labels, c));
    ChildEndsInside(keys, queue, labels, q, first[n], first[n + 1], q.e, c);
    assert keys[child.s][..q.col] == keys[q.s][..q.col];
    assert keys[child.s][..q.col + 1] == keys[child.s][..q.col] + [keys[child.s][q.col]];
  }
}

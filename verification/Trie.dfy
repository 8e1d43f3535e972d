/** The breadth-first node queue of newSuccinctSet (common/domain/set.go:18-44), without its bits.

    A node is a range [s, e) of the sorted keys that agree on their first col bytes, so it stands
    for one distinct prefix.  Node n's children are the nodes first[n] up to first[n + 1], and
    labels[c - 1] is the byte that leads to node c. */
module Trie {
  import opened Bytes

  datatype QElt = QElt(s: nat, e: nat, col: nat)

  /** A non-empty range of keys agreeing on col bytes. */
  ghost predicate IsRange(keys: seq<bytes>, q: QElt) {
    && q.s < q.e <= |keys|
    && q.col <= |keys[q.s]|
    && forall k :: q.s <= k < q.e ==> q.col <= |keys[k]| && keys[k][..q.col] == keys[q.s][..q.col]
  }

  /** The prefix a node stands for is itself a key. */
  predicate IsLeaf(keys: seq<bytes>, q: QElt)
    requires q.s < |keys|
  {
    q.col == |keys[q.s]|
  }

  /** The first key of the range that goes on after the prefix. */
  function Body(keys: seq<bytes>, q: QElt): nat
    requires q.s < |keys|
  {
    if IsLeaf(keys, q) then q.s + 1 else q.s
  }

  ghost function Prefix(keys: seq<bytes>, q: QElt): bytes
    requires IsRange(keys, q)
  {
    keys[q.s][..q.col]
  }

  /** The byte that leads to node c. */
  function Label(labels: bytes, c: nat): byte
    requires 1 <= c <= |labels|
  {
    labels[c - 1]
  }

  /** Node c is a child of q reached by byte lb. */
  ghost predicate IsChild(keys: seq<bytes>, q: QElt, child: QElt, lb: byte)
    requires q.s < |keys|
  {
    && IsRange(keys, child)
    && Body(keys, q) <= child.s
    && child.col == q.col + 1
    && lb == keys[child.s][q.col]
  }

  /** Nodes [lo, hi) are children of q that split its keys from Body up to j, in this order. */
  ghost predicate Split(keys: seq<bytes>, queue: seq<QElt>, labels: bytes, q: QElt, lo: nat, hi: nat, j: nat)
    requires q.s < |keys|
    requires 1 <= lo <= hi <= |queue| && |labels| + 1 == |queue|
  {
    && (if lo == hi then j == Body(keys, q) else queue[lo].s == Body(keys, q) && queue[hi - 1].e == j)
    && (forall c :: lo < c < hi ==> queue[c].s == queue[c - 1].e)
    && (forall c :: lo <= c < hi ==> IsChild(keys, q, queue[c], Label(labels, c)))
  }

  ghost predicate LabelsIncrease(labels: bytes, lo: nat, hi: nat)
    requires 1 <= lo <= hi <= |labels| + 1
  {
    forall c, d :: lo <= c < d < hi ==> Label(labels, c) < Label(labels, d)
  }

  /** Nodes [lo, hi) split the keys of q from Body up to j, by their byte at column q.col, in
      increasing order of that byte. */
  ghost predicate AreChildren(keys: seq<bytes>, queue: seq<QElt>, labels: bytes, q: QElt, lo: nat, hi: nat, j: nat) {
    && q.s < |keys|
    && 1 <= lo <= hi <= |queue| && |labels| + 1 == |queue|
    && Split(keys, queue, labels, q, lo, hi, j)
    && LabelsIncrease(labels, lo, hi)
  }

  /** The first |first| - 1 nodes of the queue have all their children in place. */
  ghost predicate IsQueue(keys: seq<bytes>, queue: seq<QElt>, labels: bytes, first: seq<nat>) {
    && 1 <= |first| <= |queue| + 1
    && |queue| == |labels| + 1
    && queue[0] == QElt(0, |keys|, 0)
    && first[0] == 1
    && (forall n :: 0 <= n < |queue| ==> IsRange(keys, queue[n]))
    && (forall n :: 0 <= n < |first| ==> 1 <= first[n] <= |queue|)
    && (forall n :: 0 <= n < |first| - 1 ==> n < first[n] <= first[n + 1])
    && (forall n :: 0 <= n < |first| - 1 ==>
                      AreChildren(keys, queue, labels, queue[n], first[n], first[n + 1], queue[n].e))
  }

  /** Every node has its children in place, and every node but the root is somebody's child. */
  ghost predicate IsTrie(keys: seq<bytes>, queue: seq<QElt>, labels: bytes, first: seq<nat>) {
    && IsQueue(keys, queue, labels, first)
    && |first| == |queue| + 1
    && first[|queue|] == |queue|
  }

  // ---------------------------------------------------------------- building one node

  /** Keys of a range go on after the prefix, save the one that is the prefix. */
  lemma RangeGoesOn(keys: seq<bytes>, q: QElt, k: nat)
    requires Increasing(keys) && IsRange(keys, q)
    requires Body(keys, q) <= k < q.e
    ensures q.col < |keys[k]|
  {
    if q.s < k {
      LessAfterPrefix(keys[q.s], keys[k], q.col);
    }
  }

  lemma RangeOrdered(keys: seq<bytes>, q: QElt, k: nat, m: nat)
    requires Increasing(keys) && IsRange(keys, q)
    requires Body(keys, q) <= k <= m < q.e
    ensures q.col < |keys[k]| && q.col < |keys[m]| && keys[k][q.col] <= keys[m][q.col]
  {
    RangeGoesOn(keys, q, k);
    RangeGoesOn(keys, q, m);
    if k < m {
      LessAfterPrefix(keys[k], keys[m], q.col);
    }
  }

  /** Keys [frm, j) all have the same byte at column col. */
  ghost predicate SameNext(keys: seq<bytes>, col: nat, frm: nat, j: nat) {
    && frm < j <= |keys| && col < |keys[frm]|
    && forall k :: frm <= k < j ==> col < |keys[k]| && keys[k][col] == keys[frm][col]
  }

  /** A run of keys with the same next byte is a range one column further on. */
  lemma ChildIsRange(keys: seq<bytes>, q: QElt, frm: nat, j: nat)
    requires Increasing(keys) && IsRange(keys, q)
    requires Body(keys, q) <= frm < j <= q.e
    requires SameNext(keys, q.col, frm, j)
    ensures IsRange(keys, QElt(frm, j, q.col + 1))
  {
    forall k | frm <= k < j
      ensures keys[k][..q.col + 1] == keys[frm][..q.col + 1]
    {
      assert keys[k][..q.col + 1] == keys[k][..q.col] + [keys[k][q.col]];
      assert keys[frm][..q.col + 1] == keys[frm][..q.col] + [keys[frm][q.col]];
    }
  }

  lemma AddChild(keys: seq<bytes>, queue: seq<QElt>, labels: bytes, q: QElt, lo: nat, frm: nat, j: nat)
    requires Increasing(keys) && IsRange(keys, q)
    requires AreChildren(keys, queue, labels, q, lo, |queue|, frm)
    requires Body(keys, q) <= frm < j <= q.e
    requires SameNext(keys, q.col, frm, j)
    requires Body(keys, q) < frm ==> q.col < |keys[frm - 1]| && keys[frm - 1][q.col] != keys[frm][q.col]
    ensures AreChildren(keys, queue + [QElt(frm, j, q.col + 1)], labels + [keys[frm][q.col]], q, lo, |queue| + 1, j)
  {
    hide IsRange, Increasing, SameNext, IsChild;
    var hi := |queue|;
    var child := QElt(frm, j, q.col + 1);
    var lb := Next(keys, q.col, frm, j);
    var labels' := labels + [lb];
    NewChild(keys, q, child, lb);
    assert forall c :: lo <= c < hi ==> Label(labels', c) == Label(labels, c);
    assert Label(labels', hi) == lb;
    if lo < hi {
      assert IsChild(keys, q, queue[hi - 1], Label(labels, hi - 1));
      LastLabelBelow(keys, q, queue[hi - 1], frm, Label(labels, hi - 1));
    }
    NewLabelOnTop(labels, labels', lo, lb);
    assert Split(keys, queue + [child], labels', q, lo, hi + 1, j);
  }

  function Next(keys: seq<bytes>, col: nat, frm: nat, j: nat): (b: byte)
    requires SameNext(keys, col, frm, j)
    ensures frm < |keys| && col < |keys[frm]| && b == keys[frm][col]
  {
    keys[frm][col]
  }

  lemma NewLabelOnTop(labels: bytes, labels': bytes, lo: nat, lb: byte)
    requires labels' == labels + [lb]
    requires 1 <= lo <= |labels| + 1 && LabelsIncrease(labels, lo, |labels| + 1)
    requires lo <= |labels| ==> Label(labels, |labels|) < lb
    ensures LabelsIncrease(labels', lo, |labels'| + 1)
  {
    assert forall c :: lo <= c <= |labels| ==> Label(labels', c) == Label(labels, c);
    forall c | lo <= c <= |labels|
      ensures Label(labels', c) < lb
    {
      if c < |labels| {
        assert Label(labels, c) < Label(labels, |labels|);
      }
    }
  }

  lemma NewChild(keys: seq<bytes>, q: QElt, child: QElt, lb: byte)
    requires Increasing(keys) && IsRange(keys, q)
    requires Body(keys, q) <= child.s && child.e <= q.e && child.col == q.col + 1
    requires SameNext(keys, q.col, child.s, child.e) && lb == keys[child.s][q.col]
    ensures IsChild(keys, q, child, lb)
  {
    ChildIsRange(keys, q, child.s, child.e);
  }

  lemma LastLabelBelow(keys: seq<bytes>, q: QElt, last: QElt, frm: nat, lb: byte)
    requires Increasing(keys) && IsRange(keys, q) && IsChild(keys, q, last, lb)
    requires last.e == frm < q.e
    requires q.col < |keys[frm]|
    requires Body(keys, q) < frm ==> q.col < |keys[frm - 1]| && keys[frm - 1][q.col] != keys[frm][q.col]
    ensures lb < keys[frm][q.col]
  {
    RangeOrdered(keys, q, frm - 1, frm);
    SameLabelInChild(keys, last, frm - 1);
  }

  lemma SameLabelInChild(keys: seq<bytes>, child: QElt, k: nat)
    requires IsRange(keys, child) && 1 <= child.col && child.s <= k < child.e
    ensures keys[k][child.col - 1] == keys[child.s][child.col - 1]
  {
    assert keys[k][child.col - 1] == keys[k][..child.col][child.col - 1];
    assert keys[child.s][child.col - 1] == keys[child.s][..child.col][child.col - 1];
  }

  // ---------------------------------------------------------------- the whole queue

  lemma QueueStarts(keys: seq<bytes>)
    requires keys != []
    ensures IsQueue(keys, [QElt(0, |keys|, 0)], [], [1])
  {
  }

  /** Before its loop over the keys, node i has no children. */
  lemma NoChildrenYet(keys: seq<bytes>, queue: seq<QElt>, labels: bytes, q: QElt)
    requires q.s < |keys| && queue != [] && |queue| == |labels| + 1
    ensures AreChildren(keys, queue, labels, q, |queue|, |queue|, Body(keys, q))
  {
  }

  lemma ChildrenKept(keys: seq<bytes>, queue: seq<QElt>, labels: bytes, queue': seq<QElt>, labels': bytes,
                     q: QElt, lo: nat, hi: nat, j: nat)
    requires AreChildren(keys, queue, labels, q, lo, hi, j)
    requires queue <= queue' && labels <= labels' && |queue'| == |labels'| + 1
    ensures AreChildren(keys, queue', labels', q, lo, hi, j)
  {
    hide IsChild;
    assert forall c :: lo <= c < hi ==> queue'[c] == queue[c] && Label(labels', c) == Label(labels, c);
  }

  lemma QueueGrows(keys: seq<bytes>, queue: seq<QElt>, labels: bytes, first: seq<nat>, q: QElt, lb: byte)
    requires IsQueue(keys, queue, labels, first) && IsRange(keys, q)
    ensures IsQueue(keys, queue + [q], labels + [lb], first)
  {
    hide AreChildren, IsRange;
    var queue' := queue + [q];
    forall n | 0 <= n < |queue'|
      ensures IsRange(keys, queue'[n])
    {
    }
    forall n | 0 <= n < |first| - 1
      ensures AreChildren(keys, queue', labels + [lb], queue'[n], first[n], first[n + 1], queue'[n].e)
    {
      RangeIn(keys, queue[n]);
      ChildrenKept(keys, queue, labels, queue', labels + [lb], queue[n], first[n], first[n + 1], queue[n].e);
    }
  }

  lemma RangeIn(keys: seq<bytes>, q: QElt)
    requires IsRange(keys, q)
    ensures q.s < q.e <= |keys| && Body(keys, q) <= q.e
  {
  }

  lemma NodeDone(keys: seq<bytes>, queue: seq<QElt>, labels: bytes, first: seq<nat>, i: nat)
    requires IsQueue(keys, queue, labels, first) && i == |first| - 1 < first[i]
    requires AreChildren(keys, queue, labels, queue[i], first[i], |queue|, queue[i].e)
    ensures IsQueue(keys, queue, labels, first + [|queue|])
  {
    hide AreChildren, IsRange;
    var first' := first + [|queue|];
    forall n | 0 <= n < |first'| - 1
      ensures AreChildren(keys, queue, labels, queue[n], first'[n], first'[n + 1], queue[n].e)
    {
      if n < i {
        assert AreChildren(keys, queue, labels, queue[n], first[n], first[n + 1], queue[n].e);
      }
    }
  }

  /** A node without children stands for a key; so the last node of a finished queue does. */
  lemma ChildlessIsLeaf(keys: seq<bytes>, queue: seq<QElt>, labels: bytes, first: seq<nat>, n: nat)
    requires IsQueue(keys, queue, labels, first) && n < |first| - 1
    requires first[n] == first[n + 1]
    ensures queue[n].s < |keys| && IsLeaf(keys, queue[n])
  {
  }

  lemma LastIsLeaf(keys: seq<bytes>, queue: seq<QElt>, labels: bytes, first: seq<nat>)
    requires IsTrie(keys, queue, labels, first)
    ensures queue[|queue| - 1].s < |keys| && IsLeaf(keys, queue[|queue| - 1])
  {
    ChildlessIsLeaf(keys, queue, labels, first, |queue| - 1);
  }

  // ---------------------------------------------------------------- how large the queue gets

  /** The bytes of keys [s, e) from column col on. */
  ghost function Chars(keys: seq<bytes>, s: nat, e: nat, col: nat): nat
    decreases e - s
  {
    if s >= e || s >= |keys| then 0
    else (if |keys[s]| > col then |keys[s]| - col else 0) + Chars(keys, s + 1, e, col)
  }

  ghost function TotalLength(keys: seq<bytes>): nat {
    Chars(keys, 0, |keys|, 0)
  }

  lemma {:induction false} CharsSplit(keys: seq<bytes>, s: nat, m: nat, e: nat, col: nat)
    requires s <= m <= e <= |keys|
    ensures Chars(keys, s, e, col) == Chars(keys, s, m, col) + Chars(keys, m, e, col)
    decreases m - s
  {
    if s < m {
      CharsSplit(keys, s + 1, m, e, col);
    }
  }

  lemma {:induction false} CharsNextColumn(keys: seq<bytes>, s: nat, e: nat, col: nat)
    requires s <= e <= |keys|
    requires forall k :: s <= k < e ==> col < |keys[k]|
    ensures Chars(keys, s, e, col) == Chars(keys, s, e, col + 1) + (e - s)
    decreases e - s
  {
    if s < e {
      CharsNextColumn(keys, s + 1, e, col);
    }
  }

  /** The bytes still to be distributed among the nodes from i on. */
  ghost function Pending(keys: seq<bytes>, queue: seq<QElt>, i: nat): nat
    decreases |queue| - i
  {
    if i >= |queue| then 0
    else Chars(keys, queue[i].s, queue[i].e, queue[i].col) + Pending(keys, queue, i + 1)
  }

  lemma {:induction false} PendingGrows(keys: seq<bytes>, queue: seq<QElt>, q: QElt, i: nat)
    requires i <= |queue|
    ensures Pending(keys, queue + [q], i) == Pending(keys, queue, i) + Chars(keys, q.s, q.e, q.col)
    decreases |queue| - i
  {
    if i < |queue| {
      PendingGrows(keys, queue, q, i + 1);
    } else {
      assert Pending(keys, queue + [q], i + 1) == 0;
    }
  }
}

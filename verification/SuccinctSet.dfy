/** The LOUDS trie of common/domain/set.go: newSuccinctSet packs the node queue of Trie into
    bitmaps.  Lookup walks them. */
module SuccinctSet {
  import opened Words
  import opened Bitmap
  import opened Select
  import opened Bytes
  import opened Trie

  datatype SuccinctSet = SuccinctSet(leaves: seq<bv64>, labelBitmap: seq<bv64>, labels: bytes,
                                     ranks: seq<int32>, selects: seq<int32>)

  // ---------------------------------------------------------------- the label bitmap

  /** Where node n's section of the label bitmap starts: one zero for every node queued before its
      children and one one for every node before it. */
  ghost function Start(first: seq<nat>, n: nat): int
    requires n < |first|
  {
    first[n] - 1 + n
  }

  /** Zeros in [a, b) and a one at b. */
  ghost predicate IsSection(bm: seq<bv64>, a: int, b: int) {
    && 0 <= a <= b
    && NoneIn(bm, a, b)
    && On(bm, b)
  }

  ghost predicate IsLouds(bm: seq<bv64>, first: seq<nat>) {
    && (forall n :: 0 <= n < |first| ==> 1 <= first[n])
    && (forall n :: 0 <= n < |first| - 1 ==> IsSection(bm, Start(first, n), Start(first, n + 1) - 1))
  }

  /** Nothing is on at position a or later. */
  ghost predicate NoneFrom(bm: seq<bv64>, a: nat) {
    forall p: nat :: a <= p ==> !On(bm, p)
  }

  lemma {:induction false} RankThroughZeros(bm: seq<bv64>, a: nat, p: nat, b: nat)
    requires a <= p <= b && NoneIn(bm, a, b)
    ensures Rank(bm, p) == Rank(bm, a)
  {
    hide On;
    if a < p {
      RankThroughZeros(bm, a, p - 1, b);
    }
  }

  /** Exactly n ones stand before node n's section. */
  lemma {:induction false} RankAtStart(bm: seq<bv64>, first: seq<nat>, n: nat)
    requires IsLouds(bm, first) && n < |first| && first[0] == 1
    ensures Start(first, n) >= 0 && Rank(bm, Start(first, n)) == n
  {
    hide On;
    if n > 0 {
      RankAtStart(bm, first, n - 1);
      assert IsSection(bm, Start(first, n - 1), Start(first, n) - 1);
      RankThroughZeros(bm, Start(first, n - 1), Start(first, n) - 1, Start(first, n) - 1);
    }
  }

  /** Inside node n's section the rank stays n. */
  lemma RankInSection(bm: seq<bv64>, first: seq<nat>, n: nat, p: nat)
    requires IsLouds(bm, first) && n + 1 < |first| && first[0] == 1
    requires Start(first, n) <= p < Start(first, n + 1)
    ensures Rank(bm, p) == n
    ensures On(bm, p) <==> p == Start(first, n + 1) - 1
  {
    hide On;
    RankAtStart(bm, first, n);
    assert IsSection(bm, Start(first, n), Start(first, n + 1) - 1);
    RankThroughZeros(bm, Start(first, n), p, Start(first, n + 1) - 1);
  }

  // ---------------------------------------------------------------- what a set holds

  ghost predicate IsEncoding(ss: SuccinctSet, keys: seq<bytes>, queue: seq<QElt>, first: seq<nat>) {
    && IsTrie(keys, queue, ss.labels, first)
    && IsLouds(ss.labelBitmap, first)
    && Start(first, |queue|) <= 64 * |ss.labelBitmap| < INT32_LIMIT
    && Leaves(ss.leaves, keys, queue, |queue|)
    && |queue| <= 64 * |ss.leaves|
    && IsSelectIndex(ss.labelBitmap, ss.selects)
    && IsRankIndex(ss.labelBitmap, ss.ranks) && |ss.ranks| == |ss.labelBitmap| + 1
  }

  /** Leaf bit m is on exactly when m is one of the first i nodes and stands for a key. */
  ghost predicate Leaves(leaves: seq<bv64>, keys: seq<bytes>, queue: seq<QElt>, i: nat)
    requires i <= |queue|
  {
    forall m: nat :: On(leaves, m) <==> m < i && queue[m].s < |keys| && IsLeaf(keys, queue[m])
  }

  /** ss is the packed form of keys. */
  ghost predicate Encodes(ss: SuccinctSet, keys: seq<bytes>) {
    exists queue, first :: IsEncoding(ss, keys, queue, first)
  }

  // ---------------------------------------------------------------- building

  lemma {:induction false} StartMonotone(bm: seq<bv64>, first: seq<nat>, n: nat, m: nat)
    requires IsLouds(bm, first) && n <= m < |first|
    ensures Start(first, n) <= Start(first, m)
  {
    hide NoneIn, On;
    if n < m {
      StartMonotone(bm, first, n, m - 1);
      assert IsSection(bm, Start(first, m - 1), Start(first, m) - 1);
    }
  }

  /** Finished sections only depend on the bits before the last start. */
  lemma LoudsKept(bm: seq<bv64>, bm': seq<bv64>, first: seq<nat>)
    requires IsLouds(bm, first) && first != []
    requires forall p: nat :: p < Start(first, |first| - 1) ==> On(bm', p) == On(bm, p)
    ensures IsLouds(bm', first)
  {
    hide On;
    forall n | 0 <= n < |first| - 1
      ensures IsSection(bm', Start(first, n), Start(first, n + 1) - 1)
    {
      StartMonotone(bm, first, n + 1, |first| - 1);
      assert IsSection(bm, Start(first, n), Start(first, n + 1) - 1);
    }
  }

  /** A one after the zeros of a section closes it. */
  lemma CloseSection(bm: seq<bv64>, bm': seq<bv64>, first: seq<nat>, size: nat, lIdx: nat)
    requires IsLouds(bm, first) && first != []
    requires NoneFrom(bm, Start(first, |first| - 1))
    requires forall p: nat :: On(bm', p) <==> On(bm, p) || p == lIdx
    requires first[|first| - 1] <= size && lIdx == size + |first| - 2
    ensures IsLouds(bm', first + [size])
    ensures Start(first + [size], |first|) == lIdx + 1
    ensures NoneFrom(bm', lIdx + 1)
  {
    hide On;
    var first' := first + [size];
    LoudsKept(bm, bm', first);
    forall n | 0 <= n < |first'| - 1
      ensures IsSection(bm', Start(first', n), Start(first', n + 1) - 1)
    {
      if n < |first| - 1 {
        assert IsSection(bm', Start(first, n), Start(first, n + 1) - 1);
      }
    }
  }

  lemma LeavesKept(leaves: seq<bv64>, keys: seq<bytes>, queue: seq<QElt>, queue': seq<QElt>, i: nat)
    requires i <= |queue| && queue <= queue' && Leaves(leaves, keys, queue, i)
    ensures Leaves(leaves, keys, queue', i)
  {
    hide On;
  }

  /** What is left of a node's keys pays for the child just queued. */
  lemma ChildPaid(keys: seq<bytes>, queue: seq<QElt>, i: nat, frm: nat, j: nat, e: nat, col: nat)
    requires i < |queue| && frm < j <= e <= |keys|
    requires SameNext(keys, col, frm, j)
    ensures |queue| + 1 + Pending(keys, queue + [QElt(frm, j, col + 1)], i + 1) + Chars(keys, j, e, col)
         <= |queue| + Pending(keys, queue, i + 1) + Chars(keys, frm, e, col)
  {
    PendingGrows(keys, queue, QElt(frm, j, col + 1), i + 1);
    CharsSplit(keys, frm, j, e, col);
    CharsNextColumn(keys, frm, j, col);
  }

  lemma LeafSkipped(keys: seq<bytes>, q: QElt)
    requires IsRange(keys, q)
    ensures Chars(keys, Body(keys, q), q.e, q.col) == Chars(keys, q.s, q.e, q.col)
  {
  }

  /** The state of the build before node i, apart from the leaf bits. */
  ghost predicate BeforeNode(keys: seq<bytes>, queue: seq<QElt>, labels: bytes, first: seq<nat>, bm: seq<bv64>,
                             lIdx: nat, i: nat) {
    && IsQueue(keys, queue, labels, first)
    && |first| == i + 1 && first[i] == |queue| && i <= |queue|
    && lIdx == |labels| + i
    && IsLouds(bm, first) && NoneFrom(bm, lIdx)
    && |bm| == (lIdx + 63) / 64
    && |queue| + Pending(keys, queue, i) <= 1 + TotalLength(keys)
  }

  /** The state inside node i, whose keys up to j have their children in place. */
  ghost predicate InNode(keys: seq<bytes>, queue: seq<QElt>, labels: bytes, first: seq<nat>, bm: seq<bv64>,
                         lIdx: nat, i: nat, j: nat) {
    && IsQueue(keys, queue, labels, first)
    && |first| == i + 1 && i < first[i]
    && lIdx == |labels| + i
    && IsLouds(bm, first) && NoneFrom(bm, Start(first, i))
    && |bm| == (lIdx + 63) / 64
    && var elt := queue[i];
       && AreChildren(keys, queue, labels, elt, first[i], |queue|, j)
       && Body(keys, elt) <= j <= elt.e
       && (Body(keys, elt) < j < elt.e ==>
             elt.col < |keys[j - 1]| && elt.col < |keys[j]| && keys[j - 1][elt.col] != keys[j][elt.col])
       && |queue| + Pending(keys, queue, i + 1) + Chars(keys, j, elt.e, elt.col) <= 1 + TotalLength(keys)
  }

  lemma EnterNode(keys: seq<bytes>, queue: seq<QElt>, labels: bytes, first: seq<nat>, bm: seq<bv64>, lIdx: nat, i: nat)
    requires BeforeNode(keys, queue, labels, first, bm, lIdx, i) && i < |queue|
    ensures queue[i].s < queue[i].e <= |keys|
    ensures InNode(keys, queue, labels, first, bm, lIdx, i, Body(keys, queue[i]))
  {
    hide On, AreChildren, IsLouds, NoneFrom, Chars, TotalLength;
    LeafSkipped(keys, queue[i]);
    NoChildrenYet(keys, queue, labels, queue[i]);
    PendingAt(keys, queue, i);
  }

  /** Keys [frm, j) become a child, with one zero in the bitmap. */
  lemma StepInNode(keys: seq<bytes>, queue: seq<QElt>, labels: bytes, first: seq<nat>, bm: seq<bv64>, bm': seq<bv64>,
                   lIdx: nat, i: nat, frm: nat, j: nat)
    requires Increasing(keys) && InNode(keys, queue, labels, first, bm, lIdx, i, frm)
    requires frm < j <= queue[i].e && SameNext(keys, queue[i].col, frm, j)
    requires j < queue[i].e ==> queue[i].col < |keys[j]| && keys[j][queue[i].col] != keys[frm][queue[i].col]
    requires |bm'| == if lIdx / 64 < |bm| then |bm| else lIdx / 64 + 1
    requires forall p: nat :: On(bm', p) == On(bm, p)
    ensures InNode(keys, queue + [QElt(frm, j, queue[i].col + 1)], labels + [keys[frm][queue[i].col]],
                   first, bm', lIdx + 1, i, j)
  {
    hide On, IsRange, AreChildren, Increasing, Chars, IsLeaf, NoneFrom, IsLouds, Pending, TotalLength;
    var elt := queue[i];
    assert IsRange(keys, elt);
    RangeIn(keys, elt);
    AddChild(keys, queue, labels, elt, first[i], frm, j);
    ChildIsRange(keys, elt, frm, j);
    ChildPaid(keys, queue, i, frm, j, elt.e, elt.col);
    QueueGrows(keys, queue, labels, first, QElt(frm, j, elt.col + 1), keys[frm][elt.col]);
    SameBits(bm, bm', first);
  }

  lemma LeaveNode(keys: seq<bytes>, queue: seq<QElt>, labels: bytes, first: seq<nat>, bm: seq<bv64>, bm': seq<bv64>,
                  lIdx: nat, i: nat)
    requires i < |queue| && InNode(keys, queue, labels, first, bm, lIdx, i, queue[i].e)
    requires |bm'| == if lIdx / 64 < |bm| then |bm| else lIdx / 64 + 1
    requires forall p: nat :: On(bm', p) <==> On(bm, p) || p == lIdx
    ensures BeforeNode(keys, queue, labels, first + [|queue|], bm', lIdx + 1, i + 1)
  {
    hide On, IsRange, AreChildren, Chars, NoneFrom, IsLouds, Pending, TotalLength;
    NodeDone(keys, queue, labels, first, i);
    CloseSection(bm, bm', first, |queue|, lIdx);
  }

  lemma InNodeBounds(keys: seq<bytes>, queue: seq<QElt>, labels: bytes, first: seq<nat>, bm: seq<bv64>,
                     lIdx: nat, i: nat, j: nat)
    requires InNode(keys, queue, labels, first, bm, lIdx, i, j)
    ensures |queue| == |labels| + 1 && i < |queue| && IsRange(keys, queue[i])
    ensures Body(keys, queue[i]) <= j <= queue[i].e <= |keys|
  {
  }

  lemma QueueBound(keys: seq<bytes>, queue: seq<QElt>, labels: bytes, first: seq<nat>, bm: seq<bv64>, lIdx: nat, i: nat)
    requires BeforeNode(keys, queue, labels, first, bm, lIdx, i)
    ensures i <= |queue| == |labels| + 1 && |queue| <= 1 + TotalLength(keys)
  {
  }

  /** newSuccinctSet, set.go:18-44. */
  method NewSuccinctSet(keys: seq<bytes>) returns (ss: SuccinctSet)
    requires keys != [] && Increasing(keys)
    requires 2 * TotalLength(keys) + 65 <= INT32_LIMIT
    ensures Encodes(ss, keys) && |ss.labels| <= TotalLength(keys)
  {
    hide On, IsRange, Increasing, IsLeaf, Leaves, TotalLength, BeforeNode, InNode, IsEncoding;
    var leaves: seq<bv64>, labelBitmap: seq<bv64>, labels: bytes := [], [], [];
    var lIdx := 0;
    var queue := [QElt(0, |keys|, 0)];
    ghost var first: seq<nat> := [1];
    NothingYet(keys, queue);
    var i := 0;
    while i < |queue|
      invariant 0 <= i <= |queue|
      invariant BeforeNode(keys, queue, labels, first, labelBitmap, lIdx, i)
      invariant Leaves(leaves, keys, queue, i)
      decreases 1 + TotalLength(keys) - i
    {
      QueueBound(keys, queue, labels, first, labelBitmap, lIdx, i);
      var elt := queue[i];
      EnterNode(keys, queue, labels, first, labelBitmap, lIdx, i);
      var j := elt.s;
      ghost var leavesBefore := leaves;
      if IsLeaf(keys, elt) {
        j := elt.s + 1;
        leaves := SetBit(leaves, i, 1);
      }
      NextLeaf(leavesBefore, leaves, keys, queue, i, IsLeaf(keys, elt));
      while j < elt.e
        invariant InNode(keys, queue, labels, first, labelBitmap, lIdx, i, j)
        invariant i < |queue| && queue[i] == elt
        invariant Leaves(leaves, keys, queue, i + 1)
      {
        InNodeBounds(keys, queue, labels, first, labelBitmap, lIdx, i, j);
        var frm := j;
        RangeGoesOn(keys, elt, j);
        while j < elt.e && (RangeGoesOn(keys, elt, j); keys[j][elt.col] == keys[frm][elt.col])
          invariant frm <= j <= elt.e
          invariant frm < j ==> SameNext(keys, elt.col, frm, j)
          invariant frm == j ==> j < elt.e
        {
          j := j + 1;
        }
        ghost var bitsBefore := labelBitmap;
        labelBitmap := SetBit(labelBitmap, lIdx, 0);
        StepInNode(keys, queue, labels, first, bitsBefore, labelBitmap, lIdx, i, frm, j);
        LeavesKept(leaves, keys, queue, queue + [QElt(frm, j, elt.col + 1)], i + 1);
        queue := queue + [QElt(frm, j, elt.col + 1)];
        labels := labels + [keys[frm][elt.col]];
        lIdx := lIdx + 1;
      }
      InNodeBounds(keys, queue, labels, first, labelBitmap, lIdx, i, j);
      ghost var bitsBefore := labelBitmap;
      labelBitmap := SetBit(labelBitmap, lIdx, 1);
      LeaveNode(keys, queue, labels, first, bitsBefore, labelBitmap, lIdx, i);
      first := first + [|queue|];
      lIdx := lIdx + 1;
      i := i + 1;
    }
    BuildDone(keys, queue, labels, first, labelBitmap, lIdx, leaves);
    var selects, ranks := IndexSelect32R64(labelBitmap);
    ss := SuccinctSet(leaves, labelBitmap, labels, ranks, selects);
    Packed(ss, keys, queue, first, lIdx);
  }

  lemma BuildDone(keys: seq<bytes>, queue: seq<QElt>, labels: bytes, first: seq<nat>, bm: seq<bv64>,
                  lIdx: nat, leaves: seq<bv64>)
    requires BeforeNode(keys, queue, labels, first, bm, lIdx, |queue|) && Leaves(leaves, keys, queue, |queue|)
    requires 2 * TotalLength(keys) + 65 <= INT32_LIMIT
    ensures 64 * |bm| < INT32_LIMIT && |labels| <= TotalLength(keys)
    ensures |queue| <= 64 * |leaves|
  {
    hide AreChildren, IsRange, On;
    LastLeafOn(leaves, keys, queue, labels, first);
  }

  lemma Packed(ss: SuccinctSet, keys: seq<bytes>, queue: seq<QElt>, first: seq<nat>, lIdx: nat)
    requires BeforeNode(keys, queue, ss.labels, first, ss.labelBitmap, lIdx, |queue|)
    requires Leaves(ss.leaves, keys, queue, |queue|) && |queue| <= 64 * |ss.leaves|
    requires 64 * |ss.labelBitmap| < INT32_LIMIT
    requires IsSelectIndex(ss.labelBitmap, ss.selects)
    requires IsRankIndex(ss.labelBitmap, ss.ranks) && |ss.ranks| == |ss.labelBitmap| + 1
    ensures Encodes(ss, keys)
  {
    hide AreChildren, IsRange, On, Leaves, IsLouds, IsSelectIndex, IsRankIndex;
    assert IsEncoding(ss, keys, queue, first);
  }

  lemma NothingYet(keys: seq<bytes>, queue: seq<QElt>)
    requires keys != [] && queue == [QElt(0, |keys|, 0)]
    ensures BeforeNode(keys, queue, [], [1], [], 0, 0) && Leaves([], keys, queue, 0)
  {
    QueueStarts(keys);
    assert Pending(keys, queue, 1) == 0;
  }

  lemma PendingAt(keys: seq<bytes>, queue: seq<QElt>, i: nat)
    requires i < |queue|
    ensures Pending(keys, queue, i) == Chars(keys, queue[i].s, queue[i].e, queue[i].col) + Pending(keys, queue, i + 1)
  {
  }

  lemma NextLeaf(before: seq<bv64>, leaves: seq<bv64>, keys: seq<bytes>, queue: seq<QElt>, i: nat, leaf: bool)
    requires i < |queue| && queue[i].s < |keys| && leaf == IsLeaf(keys, queue[i])
    requires Leaves(before, keys, queue, i)
    requires forall m: nat :: On(leaves, m) <==> On(before, m) || (m == i && leaf)
    ensures Leaves(leaves, keys, queue, i + 1)
  {
    hide On;
  }

  lemma SameBits(bm: seq<bv64>, bm': seq<bv64>, first: seq<nat>)
    requires first != [] && IsLouds(bm, first) && Start(first, |first| - 1) >= 0
    requires NoneFrom(bm, Start(first, |first| - 1))
    requires forall p: nat :: On(bm', p) == On(bm, p)
    ensures IsLouds(bm', first) && NoneFrom(bm', Start(first, |first| - 1))
  {
    hide On;
    LoudsKept(bm, bm', first);
  }

  lemma LastLeafOn(leaves: seq<bv64>, keys: seq<bytes>, queue: seq<QElt>, labels: bytes, first: seq<nat>)
    requires IsTrie(keys, queue, labels, first) && Leaves(leaves, keys, queue, |queue|)
    ensures |queue| <= 64 * |leaves|
  {
    hide Bit;
    LastIsLeaf(keys, queue, labels, first);
    assert On(leaves, |queue| - 1);
  }
}

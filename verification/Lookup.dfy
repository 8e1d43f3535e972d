/** Has (common/domain/set.go:46-84): the walk over the packed trie. */
module Lookup {
  import opened Words
  import opened ByteSelect
  import opened Bitmap
  import opened Select
  import opened Bytes
  import opened Trie
  import opened TrieMeaning
  import opened SuccinctSet

  const PREFIX_LABEL: byte := 13  // '\r'
  const ROOT_LABEL: byte := 10    // '\n'
  const DOT: byte := 46

  // ---------------------------------------------------------------- meaning

  /** The first d bytes of k, marked as a prefix, are a key; or marked as a root domain, with k
      ending or going on with a dot there. */
  ghost predicate StemMatch(keys: seq<bytes>, k: bytes, d: nat)
    requires d <= |k|
  {
    || k[..d] + [PREFIX_LABEL] in keys
    || (k[..d] + [ROOT_LABEL] in keys && (d == |k| || k[d] == DOT))
  }

  ghost predicate NoStemMatch(keys: seq<bytes>, k: bytes, i: nat)
    requires i <= |k|
  {
    forall d :: 0 <= d < i ==> !StemMatch(keys, k, d)
  }

  ghost predicate HasMatch(keys: seq<bytes>, k: bytes) {
    k in keys || exists d :: 0 <= d <= |k| && StemMatch(keys, k, d)
  }

  /** Markers only end keys, and sort before everything else. */
  ghost predicate WellFormedKey(x: bytes) {
    forall i :: 0 <= i < |x| ==> x[i] > PREFIX_LABEL || (i == |x| - 1 && (x[i] == PREFIX_LABEL || x[i] == ROOT_LABEL))
  }

  ghost predicate WellFormed(keys: seq<bytes>) {
    && (forall i :: 0 <= i < |keys| ==> WellFormedKey(keys[i]))
    && (forall p: bytes :: !(p + [PREFIX_LABEL] in keys && p + [ROOT_LABEL] in keys))
  }

  /** A stem ending in a marker is a whole key. */
  lemma MarkedStemIsKey(keys: seq<bytes>, p: bytes, b: byte)
    requires WellFormed(keys) && IsStem(keys, p + [b])
    requires b <= PREFIX_LABEL
    ensures p + [b] in keys
    ensures b == PREFIX_LABEL || b == ROOT_LABEL
  {
    var i :| 0 <= i < |keys| && IsPrefix(p + [b], keys[i]);
    LongerPrefix(p, b, keys[i]);
    assert WellFormedKey(keys[i]);
    assert keys[i] == p + [b];
  }

  // ---------------------------------------------------------------- positions and children

  /** A walk standing at node n, which stands for p. */
  ghost predicate AtNode(ss: SuccinctSet, keys: seq<bytes>, queue: seq<QElt>, first: seq<nat>, n: nat, p: bytes) {
    && IsEncoding(ss, keys, queue, first)
    && n < |queue|
    && Represents(keys, queue[n], p)
  }

  /** Position pos of node n's section belongs to child pos + 1 - n. */
  lemma PositionOfChild(ss: SuccinctSet, keys: seq<bytes>, queue: seq<QElt>, first: seq<nat>, n: nat, pos: nat)
    requires IsEncoding(ss, keys, queue, first) && n < |queue|
    requires Start(first, n) <= pos < Start(first, n + 1)
    ensures Start(first, n + 1) <= Start(first, |queue|) <= 64 * |ss.labelBitmap|
    ensures On(ss.labelBitmap, pos) <==> pos + 1 - n == first[n + 1]
    ensures !On(ss.labelBitmap, pos) ==>
              && first[n] <= pos + 1 - n < first[n + 1] <= |queue|
              && Rank(ss.labelBitmap, pos + 1) == n
  {
    hide On, AreChildren, IsRange, Leaves, IsSelectIndex, IsRankIndex;
    StartMonotone(ss.labelBitmap, first, n + 1, |queue|);
    RankInSection(ss.labelBitmap, first, n, pos);
    if !On(ss.labelBitmap, pos) {
      RankInSection(ss.labelBitmap, first, n, pos + 1);
    }
  }

  /** The one before a node's section is found by its rank. */
  lemma SelectFindsStart(ss: SuccinctSet, keys: seq<bytes>, queue: seq<QElt>, first: seq<nat>, n: nat)
    requires IsEncoding(ss, keys, queue, first) && 0 < n < |queue|
    ensures n - 1 < Ones(ss.labelBitmap)
    ensures forall a: nat :: On(ss.labelBitmap, a) && Rank(ss.labelBitmap, a) == n - 1 ==> a + 1 == Start(first, n)
  {
    hide On, Rank, AreChildren, IsRange, Leaves, IsSelectIndex, IsRankIndex;
    var bm := ss.labelBitmap;
    RankAtStart(bm, first, |queue|);
    RankMonotone(bm, Start(first, |queue|), 64 * |bm|);
    RankAtStart(bm, first, n - 1);
    assert IsSection(bm, Start(first, n - 1), Start(first, n) - 1);
    RankInSection(bm, first, n - 1, Start(first, n) - 1);
    forall a: nat | On(bm, a) && Rank(bm, a) == n - 1
      ensures a + 1 == Start(first, n)
    {
      SelectUnique(bm, a, Start(first, n) - 1);
    }
  }

  lemma LeafBit(ss: SuccinctSet, keys: seq<bytes>, queue: seq<QElt>, first: seq<nat>, n: nat, p: bytes)
    requires AtNode(ss, keys, queue, first, n, p) && Increasing(keys)
    ensures n < 64 * |ss.leaves|
    ensures On(ss.leaves, n) <==> p in keys
  {
    hide On, AreChildren, IsLouds, IsSelectIndex, IsRankIndex, Represents, IsRange;
    RangeIn(keys, queue[n]);
    LeafIsKey(keys, queue[n], p);
  }

  lemma ChildNode(ss: SuccinctSet, keys: seq<bytes>, queue: seq<QElt>, first: seq<nat>, n: nat, p: bytes, c: nat)
    requires AtNode(ss, keys, queue, first, n, p) && first[n] <= c < first[n + 1]
    ensures 1 <= c <= |ss.labels|
    ensures AtNode(ss, keys, queue, first, c, p + [Label(ss.labels, c)])
    ensures IsStem(keys, p + [Label(ss.labels, c)])
  {
    hide On, AreChildren, IsLouds, IsSelectIndex, IsRankIndex, Represents, IsRange, Leaves;
    ChildRepresents(keys, queue, ss.labels, queue[n], first[n], first[n + 1], p, c);
    StemOf(keys, queue[c], p + [Label(ss.labels, c)]);
  }

  lemma StemOf(keys: seq<bytes>, q: QElt, p: bytes)
    requires Represents(keys, q, p) && IsRange(keys, q)
    ensures IsStem(keys, p)
  {
    assert IsPrefix(p, keys[q.s]);
  }

  /** A stem one byte longer than node n's prefix is one of its children. */
  lemma StemChild(ss: SuccinctSet, keys: seq<bytes>, queue: seq<QElt>, first: seq<nat>, n: nat, p: bytes, b: byte)
    returns (c: nat)
    requires AtNode(ss, keys, queue, first, n, p) && IsStem(keys, p + [b])
    ensures first[n] <= c < first[n + 1] && 1 <= c <= |ss.labels| && Label(ss.labels, c) == b
  {
    hide On, AreChildren, IsLouds, IsSelectIndex, IsRankIndex, Represents, IsRange, Leaves;
    var k :| 0 <= k < |keys| && IsPrefix(p + [b], keys[k]);
    LongerPrefix(p, b, keys[k]);
    c := DownLabel(keys, queue, ss.labels, queue[n], first[n], first[n + 1], p, k);
    ChildNode(ss, keys, queue, first, n, p, c);
  }

  lemma KeyIsStem(keys: seq<bytes>, k: bytes, p: bytes)
    requires k in keys && IsPrefix(p, k)
    ensures IsStem(keys, p)
  {
  }

  // ---------------------------------------------------------------- scanning a section

  /** Children [first[n], c) of node n are of no use to a key going on with byte b. */
  ghost predicate Useless(labels: bytes, from: nat, c: nat, b: byte)
    requires 1 <= from <= c <= |labels| + 1
  {
    forall d :: from <= d < c ==>
      var l := Label(labels, d); l != PREFIX_LABEL && l != b && (l == ROOT_LABEL ==> b != DOT)
  }

  lemma NotStemNotKey(keys: seq<bytes>, x: bytes, p: bytes)
    requires IsPrefix(p, x) && !IsStem(keys, p)
    ensures x !in keys
  {
  }

  /** A key that leaves the trie at byte i equals no key and has no marked stem past it. */
  lemma OffTheTrie(keys: seq<bytes>, k: bytes, i: nat)
    requires i < |k| && !IsStem(keys, k[..i] + [k[i]])
    ensures k !in keys
    ensures forall d :: i < d <= |k| ==> !StemMatch(keys, k, d)
  {
    var p := k[..i] + [k[i]];
    assert p == k[..i + 1];
    NotStemNotKey(keys, k, p);
    forall d | i < d <= |k|
      ensures !StemMatch(keys, k, d)
    {
      assert (k[..d] + [PREFIX_LABEL])[..i + 1] == p;
      assert (k[..d] + [ROOT_LABEL])[..i + 1] == p;
      NotStemNotKey(keys, k[..d] + [PREFIX_LABEL], p);
      NotStemNotKey(keys, k[..d] + [ROOT_LABEL], p);
    }
  }

  /** Node n has no child labelled b. */
  lemma NoSuchChild(ss: SuccinctSet, keys: seq<bytes>, queue: seq<QElt>, first: seq<nat>, n: nat, p: bytes, b: byte)
    requires AtNode(ss, keys, queue, first, n, p)
    requires forall c :: first[n] <= c < first[n + 1] && 1 <= c <= |ss.labels| ==> Label(ss.labels, c) != b
    ensures !IsStem(keys, p + [b])
    ensures p + [b] !in keys
  {
    hide AtNode;
    if IsStem(keys, p + [b]) {
      var c := StemChild(ss, keys, queue, first, n, p, b);
    }
    if p + [b] in keys {
      KeyIsStem(keys, p + [b], p + [b]);
    }
  }

  /** With no useful child the key has no match below. */
  lemma NothingBelow(ss: SuccinctSet, keys: seq<bytes>, queue: seq<QElt>, first: seq<nat>, n: nat, k: bytes, i: nat)
    requires i < |k| && AtNode(ss, keys, queue, first, n, k[..i])
    requires 1 <= first[n] <= first[n + 1] <= |ss.labels| + 1
    requires Useless(ss.labels, first[n], first[n + 1], k[i]) && NoStemMatch(keys, k, i)
    ensures !HasMatch(keys, k)
  {
    hide AtNode;
    NoSuchChild(ss, keys, queue, first, n, k[..i], k[i]);
    NoSuchChild(ss, keys, queue, first, n, k[..i], PREFIX_LABEL);
    if k[i] == DOT {
      NoSuchChild(ss, keys, queue, first, n, k[..i], ROOT_LABEL);
    }
    OffTheTrie(keys, k, i);
  }

  /** Going down the child labelled with the key's next byte leaves no match behind. */
  lemma NothingBeside(ss: SuccinctSet, keys: seq<bytes>, queue: seq<QElt>, first: seq<nat>, n: nat,
                      k: bytes, i: nat, c: nat)
    requires i < |k| && AtNode(ss, keys, queue, first, n, k[..i]) && WellFormed(keys)
    requires first[n] <= c < first[n + 1] && 1 <= first[n] && c <= |ss.labels|
    requires Useless(ss.labels, first[n], c, k[i]) && NoStemMatch(keys, k, i)
    requires Label(ss.labels, c) == k[i] && k[i] != PREFIX_LABEL
    ensures NoStemMatch(keys, k, i + 1)
  {
    hide AtNode, WellFormed;
    ChildNode(ss, keys, queue, first, n, k[..i], c);
    forall m: byte | (m == PREFIX_LABEL || m == ROOT_LABEL) && k[..i] + [m] in keys
      ensures m == ROOT_LABEL && k[i] != DOT
    {
      KeyIsStem(keys, k[..i] + [m], k[..i] + [m]);
      var d := StemChild(ss, keys, queue, first, n, k[..i], m);
      Siblings(ss, keys, queue, first, n, k[..i], c, d);
      if m == PREFIX_LABEL {
        MarkedStemIsKey(keys, k[..i], k[i]);
        OneMarker(keys, k[..i]);
      }
    }
  }

  lemma OneMarker(keys: seq<bytes>, p: bytes)
    requires WellFormed(keys)
    ensures !(p + [PREFIX_LABEL] in keys && p + [ROOT_LABEL] in keys)
  {
  }

  lemma Siblings(ss: SuccinctSet, keys: seq<bytes>, queue: seq<QElt>, first: seq<nat>, n: nat, p: bytes, c: nat, d: nat)
    requires AtNode(ss, keys, queue, first, n, p)
    requires first[n] <= c < first[n + 1] && first[n] <= d < first[n + 1]
    requires 1 <= c <= |ss.labels| && 1 <= d <= |ss.labels|
    ensures c < d ==> Label(ss.labels, c) < Label(ss.labels, d)
    ensures c == d ==> Label(ss.labels, c) == Label(ss.labels, d)
  {
    hide On, IsLouds, IsSelectIndex, IsRankIndex, Represents, IsRange, Leaves, Split;
    assert AreChildren(keys, queue, ss.labels, queue[n], first[n], first[n + 1], queue[n].e);
  }

  // ---------------------------------------------------------------- the walk

  /** The package's lookup tables, filled by its init functions. */
  datatype Tables = Tables(masks: Masks, select8: seq<nat>)

  ghost predicate IsTables(t: Tables) {
    IsMasks(t.masks) && IsSelectLookup(t.select8)
  }

  method InitTables() returns (t: Tables)
    ensures IsTables(t)
  {
    var masks := InitMasks();
    var select8 := InitSelectLookup();
    t := Tables(masks, select8);
  }

  /** countZeros(bm, ranks, pos + 1) for a zero at pos: the child's node number. */
  method ChildNumber(t: Tables, ss: SuccinctSet, pos: nat, ghost keys: seq<bytes>, ghost queue: seq<QElt>,
                     ghost first: seq<nat>, ghost n: nat) returns (c: nat)
    requires IsTables(t) && IsEncoding(ss, keys, queue, first) && n < |queue|
    requires Start(first, n) <= pos < Start(first, n + 1) && !On(ss.labelBitmap, pos)
    ensures c == pos + 1 - n
  {
    hide On, Rank, AreChildren, IsRange, Leaves, IsLouds, IsSelectIndex, IsRankIndex, IsMasks, IsSelectLookup;
    PositionOfChild(ss, keys, queue, first, n, pos);
    assert pos + 1 < Start(first, n + 1);
    var a, _ := Rank64(t.masks, ss.labelBitmap, ss.ranks, (pos + 1) as int32);
    c := pos + 1 - (a as int);
  }

  /** selectIthOne(bm, ranks, selects, n - 1) + 1: where node n's section starts. */
  method SectionStart(t: Tables, ss: SuccinctSet, n: nat, ghost keys: seq<bytes>, ghost queue: seq<QElt>,
                      ghost first: seq<nat>) returns (pos: nat)
    requires IsTables(t) && IsEncoding(ss, keys, queue, first) && 0 < n < |queue|
    ensures pos == Start(first, n)
  {
    hide On, Rank, AreChildren, IsRange, Leaves, IsLouds, IsSelectIndex, IsRankIndex, IsMasks, IsSelectLookup, NoneIn;
    SelectFindsStart(ss, keys, queue, first, n);
    var a, _ := Select32R64(t.masks, t.select8, ss.labelBitmap, ss.selects, ss.ranks, (n - 1) as int32);
    pos := (a as int) + 1;
  }

  /** Facts about the bits read at position pos of node n's section. */
  lemma AtPosition(ss: SuccinctSet, keys: seq<bytes>, queue: seq<QElt>, first: seq<nat>, n: nat, p: bytes, pos: nat)
    requires AtNode(ss, keys, queue, first, n, p)
    requires Start(first, n) <= pos < Start(first, n + 1)
    ensures pos / 64 < |ss.labelBitmap|
    ensures GetBit(ss.labelBitmap, pos) != 0 <==> On(ss.labelBitmap, pos)
    ensures On(ss.labelBitmap, pos) <==> pos + 1 - n == first[n + 1]
    ensures !On(ss.labelBitmap, pos) ==> pos + 1 < Start(first, n + 1)
    ensures 1 <= first[n] <= pos + 1 - n <= first[n + 1] <= |queue| == |ss.labels| + 1
    ensures !On(ss.labelBitmap, pos) ==>
              0 <= pos - n < |ss.labels|
              && ss.labels[pos - n] == Label(ss.labels, pos + 1 - n)
  {
    hide On, Rank, AreChildren, IsRange, Leaves, IsLouds, IsSelectIndex, IsRankIndex, Represents, GetBit;
    PositionOfChild(ss, keys, queue, first, n, pos);
    GetBitIs(ss.labelBitmap, pos);
  }

  /** Node n's section lies in the bitmap and its children in the queue. */
  ghost predicate Bounded(ss: SuccinctSet, queue: seq<QElt>, first: seq<nat>, n: nat) {
    && n < |queue| == |ss.labels| + 1 && |first| == |queue| + 1
    && 1 <= first[n] <= first[n + 1] <= |queue|
    && 0 <= Start(first, n) < Start(first, n + 1)
  }

  lemma NodeIsBounded(ss: SuccinctSet, keys: seq<bytes>, queue: seq<QElt>, first: seq<nat>, n: nat, p: bytes)
    requires AtNode(ss, keys, queue, first, n, p)
    ensures IsEncoding(ss, keys, queue, first) && Bounded(ss, queue, first, n)
  {
    hide On, Rank, AreChildren, IsRange, Leaves, IsLouds, IsSelectIndex, IsRankIndex;
  }

  lemma FoundMarker(keys: seq<bytes>, k: bytes, i: nat, m: byte)
    requires i <= |k| && IsStem(keys, k[..i] + [m]) && WellFormed(keys)
    requires m == PREFIX_LABEL || (m == ROOT_LABEL && (i == |k| || k[i] == DOT))
    ensures HasMatch(keys, k)
  {
    MarkedStemIsKey(keys, k[..i], m);
    assert StemMatch(keys, k, i);
  }

  lemma ExtendUseless(labels: bytes, from: nat, c: nat, b: byte)
    requires 1 <= from <= c <= |labels| && Useless(labels, from, c, b)
    requires var l := Label(labels, c); l != PREFIX_LABEL && l != b && (l == ROOT_LABEL ==> b != DOT)
    ensures Useless(labels, from, c + 1, b)
  {
  }

  lemma StartUseless(labels: bytes, from: nat, b: byte)
    requires 1 <= from <= |labels| + 1
    ensures Useless(labels, from, from, b)
  {
  }

  /** The whole key read: it matches if it is a key itself, or a marked one. */
  lemma WholeKey(ss: SuccinctSet, keys: seq<bytes>, queue: seq<QElt>, first: seq<nat>, n: nat, k: bytes)
    requires AtNode(ss, keys, queue, first, n, k) && NoStemMatch(keys, k, |k|)
    requires k !in keys
    requires forall c :: first[n] <= c < first[n + 1] && 1 <= c <= |ss.labels| ==>
                           Label(ss.labels, c) != PREFIX_LABEL && Label(ss.labels, c) != ROOT_LABEL
    ensures !HasMatch(keys, k)
  {
    hide AtNode;
    NoSuchChild(ss, keys, queue, first, n, k, PREFIX_LABEL);
    NoSuchChild(ss, keys, queue, first, n, k, ROOT_LABEL);
    assert k[..|k|] == k;
  }

  lemma RootNode(ss: SuccinctSet, keys: seq<bytes>, key: bytes) returns (queue: seq<QElt>, first: seq<nat>)
    requires Encodes(ss, keys)
    ensures AtNode(ss, keys, queue, first, 0, key[..0]) && NoStemMatch(keys, key, 0)
    ensures Bounded(ss, queue, first, 0) && Start(first, 0) == 0
  {
    hide On, Rank, AreChildren, IsRange, Leaves, IsLouds, IsSelectIndex, IsRankIndex, Represents;
    queue, first :| IsEncoding(ss, keys, queue, first);
    RootRepresents(keys);
    assert key[..0] == [];
    NodeIsBounded(ss, keys, queue, first, 0, []);
  }

  /** Has, set.go:46-84. */
  method Has(t: Tables, ss: SuccinctSet, key: bytes, ghost keys: seq<bytes>) returns (found: bool)
    requires IsTables(t)
    requires Encodes(ss, keys) && Increasing(keys) && WellFormed(keys)
    ensures found <==> HasMatch(keys, key)
  {
    hide IsTables, Encodes, Increasing, WellFormed, On, GetBit, AtNode, IsEncoding, StemMatch, HasMatch, NoStemMatch,
         Useless, IsStem;
    ghost var queue, first := RootNode(ss, keys, key);
    var nodeId: nat, bmIdx: nat := 0, 0;
    for i := 0 to |key|
      invariant AtNode(ss, keys, queue, first, nodeId, key[..i])
      invariant Bounded(ss, queue, first, nodeId) && bmIdx == Start(first, nodeId)
      invariant NoStemMatch(keys, key, i)
    {
      var currentChar := key[i];
      NodeIsBounded(ss, keys, queue, first, nodeId, key[..i]);
      StartUseless(ss.labels, first[nodeId], currentChar);
      while true
        invariant Start(first, nodeId) <= bmIdx < Start(first, nodeId + 1)
        invariant Useless(ss.labels, first[nodeId], bmIdx + 1 - nodeId, currentChar)
        decreases Start(first, nodeId + 1) - bmIdx
      {
        AtPosition(ss, keys, queue, first, nodeId, key[..i], bmIdx);
        if GetBit(ss.labelBitmap, bmIdx) != 0 {
          NothingBelow(ss, keys, queue, first, nodeId, key, i);
          return false;
        }
        var nextLabel := ss.labels[bmIdx - nodeId];
        ghost var c := bmIdx + 1 - nodeId;
        ChildNode(ss, keys, queue, first, nodeId, key[..i], c);
        if nextLabel == PREFIX_LABEL {
          FoundMarker(keys, key, i, PREFIX_LABEL);
          return true;
        }
        if nextLabel == ROOT_LABEL {
          var nextNodeId := ChildNumber(t, ss, bmIdx, keys, queue, first, nodeId);
          LeafBit(ss, keys, queue, first, nextNodeId, key[..i] + [ROOT_LABEL]);
          GetBitIs(ss.leaves, nextNodeId);
          MarkedStemIsKey(keys, key[..i], ROOT_LABEL);
          var hasNext := GetBit(ss.leaves, nextNodeId) != 0;
          if currentChar == DOT && hasNext {
            FoundMarker(keys, key, i, ROOT_LABEL);
            return true;
          }
        }
        if nextLabel == currentChar {
          break;
        }
        ExtendUseless(ss.labels, first[nodeId], c, currentChar);
        bmIdx := bmIdx + 1;
      }
      NothingBeside(ss, keys, queue, first, nodeId, key, i, bmIdx + 1 - nodeId);
      assert key[..i + 1] == key[..i] + [key[i]];
      nodeId := ChildNumber(t, ss, bmIdx, keys, queue, first, nodeId);
      NodeIsBounded(ss, keys, queue, first, nodeId, key[..i + 1]);
      bmIdx := SectionStart(t, ss, nodeId, keys, queue, first);
    }
    assert key[..|key|] == key;
    found := HasHere(t, ss, key, keys, nodeId, bmIdx, queue, first);
  }

  /** The end of Has, set.go:72-83: the key is used up at node n. */
  method HasHere(t: Tables, ss: SuccinctSet, key: bytes, ghost keys: seq<bytes>, nodeId: nat, start: nat,
                 ghost queue: seq<QElt>, ghost first: seq<nat>) returns (found: bool)
    requires IsTables(t) && Increasing(keys) && WellFormed(keys)
    requires AtNode(ss, keys, queue, first, nodeId, key) && NoStemMatch(keys, key, |key|)
    requires Bounded(ss, queue, first, nodeId) && start == Start(first, nodeId)
    ensures found <==> HasMatch(keys, key)
  {
    hide IsTables, Encodes, Increasing, WellFormed, On, GetBit, AtNode, IsEncoding, StemMatch, NoStemMatch, IsStem;
    LeafBit(ss, keys, queue, first, nodeId, key);
    GetBitIs(ss.leaves, nodeId);
    if GetBit(ss.leaves, nodeId) != 0 {
      return true;
    }
    assert key[..|key|] == key;
    var bmIdx := start;
    while true
      invariant start <= bmIdx < Start(first, nodeId + 1)
      invariant forall c :: first[nodeId] <= c < bmIdx + 1 - nodeId && 1 <= c <= |ss.labels| ==>
                              Label(ss.labels, c) != PREFIX_LABEL && Label(ss.labels, c) != ROOT_LABEL
      decreases Start(first, nodeId + 1) - bmIdx
    {
      AtPosition(ss, keys, queue, first, nodeId, key, bmIdx);
      if GetBit(ss.labelBitmap, bmIdx) != 0 {
        WholeKey(ss, keys, queue, first, nodeId, key);
        return false;
      }
      var nextLabel := ss.labels[bmIdx - nodeId];
      ChildNode(ss, keys, queue, first, nodeId, key, bmIdx + 1 - nodeId);
      if nextLabel == PREFIX_LABEL || nextLabel == ROOT_LABEL {
        FoundMarker(keys, key, |key|, nextLabel);
        return true;
      }
      bmIdx := bmIdx + 1;
    }
  }
}

/** Rank and select over a bitmap of 64-bit words (common/domain/set.go:86-224). */
module Bitmap {
  import opened Words

  // ---------------------------------------------------------------- meaning

  /** Bit i of the bitmap. */
  ghost predicate On(words: seq<bv64>, i: nat) {
    i < 64 * |words| && Bit(words[i / 64], i % 64)
  }

  /** The number of ones before position i. */
  ghost function Rank(words: seq<bv64>, i: nat): (r: nat)
    ensures r <= i
  {
    if i == 0 then 0 else Rank(words, i - 1) + (if On(words, i - 1) then 1 else 0)
  }

  ghost function Ones(words: seq<bv64>): nat {
    Rank(words, 64 * |words|)
  }

  lemma {:induction false} RankMonotone(words: seq<bv64>, i: nat, j: nat)
    requires i <= j
    ensures Rank(words, i) <= Rank(words, j) <= Rank(words, i) + (j - i)
    ensures i < j && On(words, i) ==> Rank(words, i) < Rank(words, j)
  {
    hide On;
    if i < j {
      RankMonotone(words, i, j - 1);
    }
  }

  /** A one is determined by its rank. */
  lemma SelectUnique(words: seq<bv64>, a: nat, b: nat)
    requires On(words, a) && On(words, b) && Rank(words, a) == Rank(words, b)
    ensures a == b
  {
    hide On, Rank;
    if a < b {
      RankMonotone(words, a, b);
    } else if b < a {
      RankMonotone(words, b, a);
    }
  }

  lemma OnInWord(words: seq<bv64>, k: nat, j: nat)
    requires k < |words| && j < 64
    ensures On(words, 64 * k + j) == Bit(words[k], j)
  {
    hide Bit;
    assert (64 * k + j) / 64 == k && (64 * k + j) % 64 == j;
  }

  lemma {:induction false} RankInWord(words: seq<bv64>, k: nat, j: nat)
    requires k < |words| && j <= 64
    ensures Rank(words, 64 * k + j) == Rank(words, 64 * k) + OnesBelow(words[k], j)
  {
    hide Bit, On;
    if j > 0 {
      RankInWord(words, k, j - 1);
      OnInWord(words, k, j - 1);
    }
  }

  // ---------------------------------------------------------------- set.go:86-95

  /** setBit: the bitmap grows by whole words of zeros, then v is or-ed in at position i. */
  method SetBit(bm: seq<bv64>, i: nat, v: bv64) returns (r: seq<bv64>)
    requires v == 0 || v == 1
    ensures |r| == if i / 64 < |bm| then |bm| else i / 64 + 1
    ensures forall j: nat :: On(r, j) <==> On(bm, j) || (j == i && v == 1)
  {
    hide Bit, On, Amount, Ored, Flagged;
    r := bm;
    while i / 64 >= |r|
      invariant |bm| <= |r| && (|r| == |bm| || |r| <= i / 64 + 1)
      invariant bm <= r
      invariant forall k :: |bm| <= k < |r| ==> r[k] == 0
    {
      r := r + [0];
    }
    ghost var grown := r;
    var word := Flagged(r[i / 64], v, i % 64);
    r := r[i / 64 := word];
    OrBits(grown[i / 64], v, i % 64, word);
    forall j: nat
      ensures On(r, j) <==> On(bm, j) || (j == i && v == 1)
    {
      OnGrown(bm, grown, j);
      OnUpdated(grown, r, i, word, v == 1, j);
    }
  }

  lemma OnGrown(bm: seq<bv64>, r: seq<bv64>, j: nat)
    requires bm <= r && forall k :: |bm| <= k < |r| ==> r[k] == 0
    ensures On(r, j) == On(bm, j)
  {
    hide Bit;
    if 64 * |bm| <= j < 64 * |r| {
      ZeroWord(j % 64);
    }
  }

  /** word is w with bit i or-ed in, or w itself. */
  ghost predicate Ored(w: bv64, word: bv64, i: nat, isSet: bool) {
    forall p :: 0 <= p < 64 ==> (Bit(word, p) <==> Bit(w, p) || (p == i && isSet))
  }

  function Flag(v: bv64, a: bv8): bv64
    requires a < 64
  {
    v << a
  }

  /** w with flag v or-ed in at bit i. */
  function Flagged(w: bv64, v: bv64, i: nat): bv64
    requires i < 64
  {
    Union(w, Flag(v, Amount(i)))
  }

  lemma OrBits(w: bv64, v: bv64, i: nat, word: bv64)
    requires i < 64 && (v == 0 || v == 1) && word == Flagged(w, v, i)
    ensures Ored(w, word, i, v == 1)
  {
    hide Bit, Flagged;
    forall p | 0 <= p < 64
      ensures Bit(word, p) <==> Bit(w, p) || (p == i && v == 1)
    {
      if v == 0 {
        FlaggedZero(w, i);
      } else {
        FlaggedOne(w, i, p);
      }
    }
  }

  lemma FlaggedZero(w: bv64, i: nat)
    requires i < 64
    ensures Flagged(w, 0, i) == w
  {
    hide Amount, Union, Flag;
    FlagIs(Amount(i));
    UnionZero(w);
  }

  lemma FlaggedOne(w: bv64, i: nat, p: nat)
    requires i < 64 && p < 64
    ensures Bit(Flagged(w, 1, i), p) <==> Bit(w, p) || p == i
  {
    hide Bit, Amount, OneAt, Union, Flag;
    FlagIs(Amount(i));
    BitOfUnion(w, OneAt(Amount(i)), i, p);
  }

  lemma BitOfUnion(w: bv64, m: bv64, i: nat, p: nat)
    requires i < 64 && p < 64 && m == OneAt(Amount(i))
    ensures Bit(Union(w, m), p) <==> Bit(w, p) || p == i
  {
    hide Bit, Amount, OneAt;
    BitWithOne(w, m, i, p);
  }

  lemma FlagIs(a: bv8)
    requires a < 64
    ensures Flag(0, a) == 0 && Flag(1, a) == OneAt(a)
  {
  }

  lemma UnionZero(w: bv64)
    ensures Union(w, 0) == w
  {
  }

  lemma OnUpdated(bm: seq<bv64>, r: seq<bv64>, i: nat, word: bv64, isSet: bool, j: nat)
    requires i / 64 < |bm| && r == bm[i / 64 := word] && Ored(bm[i / 64], word, i % 64, isSet)
    ensures On(r, j) <==> On(bm, j) || (j == i && isSet)
  {
    hide Bit;
    if j < 64 * |bm| && j / 64 == i / 64 {
      assert j % 64 == i % 64 <==> j == i;
      assert Bit(word, j % 64) <==> Bit(bm[i / 64], j % 64) || (j % 64 == i % 64 && isSet);
    }
  }

  function GetBit(bm: seq<bv64>, i: nat): bv64
    requires i / 64 < |bm|
  {
    bm[i / 64] & OneAt(Amount(i % 64))
  }

  lemma GetBitIs(bm: seq<bv64>, i: nat)
    requires i / 64 < |bm|
    ensures GetBit(bm, i) != 0 <==> On(bm, i)
  {
    hide OneAt, Amount;
  }

  // ---------------------------------------------------------------- indexes

  /** One entry a word, and one past the end when trailing: ones before the word. */
  ghost predicate IsRankIndex(words: seq<bv64>, idx: seq<int32>) {
    && |words| <= |idx| <= |words| + 1
    && forall k :: 0 <= k < |idx| ==> idx[k] as int == Rank(words, 64 * k)
  }

  /** One entry for every 32nd one: where it stands. */
  ghost predicate IsSelectIndex(words: seq<bv64>, idx: seq<int32>) {
    && 32 * |idx| >= Ones(words)
    && (forall k :: 0 <= k < |idx| ==>
                      && 0 <= idx[k] as int < 64 * |words|
                      && On(words, idx[k] as int)
                      && Rank(words, idx[k] as int) == 32 * k)
  }

  /** indexRank64, set.go:120-139. */
  method IndexRank64(words: seq<bv64>, trailing: bool) returns (idx: seq<int32>)
    requires 64 * |words| < INT32_LIMIT
    ensures IsRankIndex(words, idx)
    ensures |idx| == |words| + (if trailing then 1 else 0)
  {
    hide OnesCount64, On, Bit;
    idx := [];
    var n: int32 := 0;
    for i := 0 to |words|
      invariant |idx| == i
      invariant 0 <= n && n as int == Rank(words, 64 * i)
      invariant forall k :: 0 <= k < |idx| ==> idx[k] as int == Rank(words, 64 * k)
    {
      idx := idx + [n];
      CountedWord(words, i);
      n := n + (OnesCount64(words[i]) as int32);
    }
    if trailing {
      idx := idx + [n];
    }
  }

  lemma CountedWord(words: seq<bv64>, k: nat)
    requires k < |words|
    ensures Rank(words, 64 * (k + 1)) == Rank(words, 64 * k) + OnesCount64(words[k])
    ensures OnesCount64(words[k]) <= 64
  {
    hide Rank, Bit, OnesBelow;
    RankInWord(words, k, 64);
    assert 64 * (k + 1) == 64 * k + 64;
  }

  /** indexSelect32R64, set.go:185-202. */
  method IndexSelect32R64(words: seq<bv64>) returns (sidx: seq<int32>, ridx: seq<int32>)
    requires 64 * |words| < INT32_LIMIT
    ensures IsSelectIndex(words, sidx)
    ensures IsRankIndex(words, ridx) && |ridx| == |words| + 1
  {
    hide On, GetBit;
    var l := 64 * |words|;
    sidx := [];
    var ith := -1;
    for i := 0 to l
      invariant ith + 1 == Rank(words, i)
      invariant 32 * |sidx| >= ith + 1 > 32 * (|sidx| - 1)
      invariant forall k :: 0 <= k < |sidx| ==>
                              && 0 <= sidx[k] as int < i
                              && On(words, sidx[k] as int)
                              && Rank(words, sidx[k] as int) == 32 * k
    {
      GetBitIs(words, i);
      if GetBit(words, i) != 0 {
        ith := ith + 1;
        if ith % 32 == 0 {
          sidx := sidx + [i as int32];
        }
      }
    }
    ridx := IndexRank64(words, true);
  }

  // ---------------------------------------------------------------- rank

  /** The mask tables that initMasks fills, set.go:214-224. */
  datatype Masks = Masks(mask: seq<bv64>, rMaskUpto: seq<bv64>)

  ghost predicate IsMasks(m: Masks) {
    && |m.mask| == 65
    && |m.rMaskUpto| == 64
    && (forall i :: 0 <= i < 65 ==> m.mask[i] == LowMask(i))
    && (forall i :: 0 <= i < 64 ==> m.rMaskUpto[i] == AboveMask(i))
  }

  method InitMasks() returns (m: Masks)
    ensures IsMasks(m)
  {
    hide Amount;
    var mask: seq<bv64> := [];
    for i := 0 to 65
      invariant |mask| == i
      invariant forall k :: 0 <= k < i ==> mask[k] == LowMask(k)
    {
      mask := mask + [((1 as bv64) << Amount(i)) - 1];
    }
    var maskUpto: seq<bv64> := [];
    var rMaskUpto: seq<bv64> := [];
    for i := 0 to 64
      invariant |maskUpto| == |rMaskUpto| == i
      invariant forall k :: 0 <= k < i ==> rMaskUpto[k] == AboveMask(k)
    {
      maskUpto := maskUpto + [((1 as bv64) << Amount(i + 1)) - 1];
      rMaskUpto := rMaskUpto + [!maskUpto[i]];
    }
    m := Masks(mask, rMaskUpto);
  }

  /** rank64, set.go:111-118: the ones before position i, and bit i itself. */
  method Rank64(m: Masks, words: seq<bv64>, rindex: seq<int32>, i: int32) returns (c1: int32, bit: int32)
    requires IsMasks(m) && IsRankIndex(words, rindex)
    requires 0 <= i as int < 64 * |words| < INT32_LIMIT
    ensures 0 <= c1 && c1 as int == Rank(words, i as int)
    ensures bit == if On(words, i as int) then 1 else 0
  {
    hide OnesCount64, LowMask, AboveMask, Bit, Rank;
    var wordI := i / 64;
    var j := (i % 64) as nat;
    var n := rindex[wordI];
    var w := words[wordI];
    var mj := m.mask[j];
    OnesUnderLowMask(w, mj, j);
    RankInWord(words, wordI as nat, j);
    OnInWord(words, wordI as nat, j);
    ghost var at := i as nat;
    assert at == 64 * (wordI as nat) + j;
    c1 := n + (OnesCount64(w & mj) as int32);
    LowBitOfShift(w, j);
    bit := (((w >> Amount(j)) & 1) as int) as int32;
  }

  lemma LowBitAt(w: bv64, a: bv8)
    requires a < 64
    ensures (w >> a) & 1 == if BitAt(w, a) then 1 else 0
  {
  }

  lemma LowBitOfShift(w: bv64, j: nat)
    requires j < 64
    ensures (w >> Amount(j)) & 1 == if Bit(w, j) then 1 else 0
    ensures ((w >> Amount(j)) & 1) as int == if Bit(w, j) then 1 else 0
  {
    hide BitAt, Amount;
    LowBitAt(w, Amount(j));
  }
}

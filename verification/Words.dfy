/** Packed bit vectors: the word-level half of common/domain/set.go.

    Bit(w, i) is bit i of a word and OnesBelow(w, i) the number of ones below it, counted one position
    at a time.  Masks, shifts and popcounts are proved against them; Bitmap and Select put words
    together. */
module Words {
  /** Go's int32.  Each conversion into it is a proof that nothing is truncated. */
  newtype int32 = x: int | -0x8000_0000 <= x < 0x8000_0000

  const INT32_LIMIT: int := 0x8000_0000

  // ---------------------------------------------------------------- one word

  /** A shift amount, as Go's uint(i & 63). */
  function Amount(i: nat): (a: bv8)
    requires i <= 64
    ensures a <= 64
    ensures i < 64 ==> a < 64
  {
    i as bv8
  }

  function OneAt(a: bv8): bv64
    requires a < 64
  {
    (1 as bv64) << a
  }

  predicate BitAt(w: bv64, a: bv8)
    requires a < 64
  {
    w & OneAt(a) != 0
  }

  predicate Bit(w: bv64, i: nat)
    requires i < 64
  {
    BitAt(w, Amount(i))
  }

  /** How many of the n lowest bits of w are ones. */
  function OnesBelow(w: bv64, n: nat): (r: nat)
    requires n <= 64
    ensures r <= n
  {
    if n == 0 then 0 else OnesBelow(w, n - 1) + (if Bit(w, n - 1) then 1 else 0)
  }

  /** math/bits.OnesCount64 */
  function OnesCount64(w: bv64): nat {
    OnesBelow(w, 64)
  }

  function TrailingZerosFrom(w: bv64, i: nat): (r: nat)
    requires i <= 64
    ensures i <= r <= 64
    ensures r < 64 ==> Bit(w, r)
    ensures forall j :: i <= j < r ==> !Bit(w, j)
    decreases 64 - i
  {
    if i == 64 || Bit(w, i) then i else TrailingZerosFrom(w, i + 1)
  }

  /** math/bits.TrailingZeros64: the lowest one, or 64. */
  function TrailingZeros64(w: bv64): nat {
    TrailingZerosFrom(w, 0)
  }

  // Facts about the machine operations, with no integer positions in sight.

  lemma AmountsInjective(a: bv8, b: bv8)
    requires a as int == b as int
    ensures a == b
  {
  }

  lemma AmountsOrdered(a: bv8, b: bv8)
    ensures a as int < b as int <==> a < b
  {
  }

  lemma AmountPlus(a: bv8, k: bv8)
    requires a < 64 && (k == 1 || k == 8 || k == 16 || k == 32)
    ensures (a + k) as int == a as int + k as int
  {
    if k == 1 {
      AmountPlus1(a);
    } else if k == 8 {
      AmountPlus8(a);
    } else if k == 16 {
      AmountPlus16(a);
    } else {
      AmountPlus32(a);
    }
  }

  lemma AmountPlus1(a: bv8)
    requires a < 64
    ensures (a + 1) as int == a as int + 1
  {
  }

  lemma AmountPlus8(a: bv8)
    requires a < 64
    ensures (a + 8) as int == a as int + 8
  {
  }

  lemma AmountPlus16(a: bv8)
    requires a < 64
    ensures (a + 16) as int == a as int + 16
  {
  }

  lemma AmountPlus32(a: bv8)
    requires a < 64
    ensures (a + 32) as int == a as int + 32
  {
  }

  lemma OnesMeet(i: bv8, j: bv8)
    requires i < 64 && j < 64
    ensures OneAt(i) & OneAt(j) == if i == j then OneAt(i) else 0
    ensures OneAt(i) != 0
  {
  }

  lemma LowMaskMeetsOne(i: bv8, j: bv8)
    requires i <= 64 && j < 64
    ensures LowMaskAt(i) & OneAt(j) == if j < i then OneAt(j) else 0
  {
  }

  lemma AndSelects(w: bv64, m: bv64, s: bv64)
    requires m & s == s || m & s == 0
    ensures (w & m) & s == if m & s == s then w & s else 0
  {
  }

  lemma OrSelects(w: bv64, m: bv64, s: bv64)
    requires m & s == 0
    ensures (w | m) & s == w & s
  {
  }

  lemma OrIncludes(w: bv64, s: bv64)
    ensures (w | s) & s == s
  {
  }

  lemma ComplementMeets(m: bv64, s: bv64)
    ensures m & s == s ==> !m & s == 0
    ensures m & s == 0 ==> !m & s == s
  {
  }

  lemma BitAtWithItself(w: bv64, s: bv64, j: bv8)
    requires j < 64 && s == OneAt(j)
    ensures BitAt(w | s, j)
  {
    hide OneAt;
    NotZero(s, j);
    OrIncludes(w, s);
  }

  lemma BitAtCongruent(u: bv64, w: bv64, j: bv8)
    requires j < 64 && u & OneAt(j) == w & OneAt(j)
    ensures BitAt(u, j) == BitAt(w, j)
  {
    hide OneAt;
  }

  lemma BitAtWithOther(w: bv64, m: bv64, s: bv64, j: bv8)
    requires j < 64 && s == OneAt(j) && m & s == 0
    ensures BitAt(w | m, j) <==> BitAt(w, j)
  {
    hide OneAt, BitAt;
    OrSelects(w, m, s);
    BitAtCongruent(w | m, w, j);
  }

  lemma BitAtWithOne(w: bv64, m: bv64, s: bv64, i: bv8, j: bv8)
    requires i < 64 && j < 64 && m == OneAt(i) && s == OneAt(j)
    ensures BitAt(w | m, j) <==> i == j || BitAt(w, j)
  {
    hide OneAt, BitAt;
    if i == j {
      BitAtWithItself(w, s, j);
    } else {
      OnesMeet(i, j);
      BitAtWithOther(w, m, s, j);
    }
  }

  lemma NotZero(s: bv64, j: bv8)
    requires j < 64 && s == OneAt(j)
    ensures s != 0
  {
  }

  lemma BitAtKept(w: bv64, m: bv64, s: bv64, j: bv8)
    requires j < 64 && s == OneAt(j) && m & s == s
    ensures BitAt(w & m, j) == BitAt(w, j)
  {
    hide OneAt, BitAt;
    AndSelects(w, m, s);
    BitAtCongruent(w & m, w, j);
  }

  lemma BitAtCleared(w: bv64, m: bv64, s: bv64, j: bv8)
    requires j < 64 && s == OneAt(j) && m & s == 0
    ensures !BitAt(w & m, j)
  {
    hide OneAt, BitAt;
    AndSelects(w, m, s);
    NoBitAt(w & m, j);
  }

  lemma NoBitAt(u: bv64, j: bv8)
    requires j < 64 && u & OneAt(j) == 0
    ensures !BitAt(u, j)
  {
    hide OneAt;
  }

  lemma BitAtUnderMask(w: bv64, m: bv64, i: bv8, j: bv8)
    requires i <= 64 && j < 64 && m == LowMaskAt(i)
    ensures BitAt(w & m, j) <==> j < i && BitAt(w, j)
  {
    hide OneAt, LowMaskAt, BitAt;
    LowMaskMeetsOne(i, j);
    if j < i {
      BitAtKept(w, m, OneAt(j), j);
    } else {
      BitAtCleared(w, m, OneAt(j), j);
    }
  }

  lemma BitAtUnderComplement(w: bv64, m: bv64, n: bv64, i: bv8, j: bv8)
    requires i <= 64 && j < 64 && m == LowMaskAt(i) && n == !m
    ensures BitAt(w & n, j) <==> i <= j && BitAt(w, j)
  {
    hide OneAt, LowMaskAt, BitAt;
    LowMaskMeetsOne(i, j);
    ComplementMeets(m, OneAt(j));
    if j < i {
      BitAtCleared(w, n, OneAt(j), j);
    } else {
      BitAtKept(w, n, OneAt(j), j);
    }
  }

  lemma BitAtOfShift8(w: bv64, v: bv64, b: bv8)
    requires v == w >> 8 && b < 56
    ensures BitAt(v, b) == BitAt(w, b + 8)
  {
  }

  lemma BitAtOfShift16(w: bv64, v: bv64, b: bv8)
    requires v == w >> 16 && b < 48
    ensures BitAt(v, b) == BitAt(w, b + 16)
  {
  }

  lemma BitAtOfShift32(w: bv64, v: bv64, b: bv8)
    requires v == w >> 32 && b < 32
    ensures BitAt(v, b) == BitAt(w, b + 32)
  {
  }

  // Positions as integers and as shift amounts.

  lemma ConvertedBack(i: nat)
    requires i <= 64
    ensures (i as bv8) as int == i
  {
  }

  lemma AmountIsPosition(i: nat)
    requires i <= 64
    ensures Amount(i) as int == i
  {
    ConvertedBack(i);
  }

  lemma OrderedAmounts(i: nat, j: nat)
    requires i <= 64 && j <= 64
    ensures j < i <==> Amount(j) < Amount(i)
    ensures j == i <==> Amount(j) == Amount(i)
  {
    hide Amount;
    AmountIsPosition(i);
    AmountIsPosition(j);
    AmountsOrdered(Amount(j), Amount(i));
  }

  lemma ShiftAmountPlus(i: nat, k: nat)
    requires k == 1 || k == 8 || k == 16 || k == 32
    requires i + k <= 64 && i < 64
    ensures Amount(i + k) == Amount(i) + (k as bv8)
  {
    hide Amount;
    AmountIsPosition(i);
    AmountIsPosition(i + k);
    AmountPlus(Amount(i), k as bv8);
    AmountsInjective(Amount(i + k), Amount(i) + (k as bv8));
  }

  // The machine facts again, on integer positions.

  /** v is w shifted right by one of the three distances the narrowing uses. */
  predicate IsShift(w: bv64, v: bv64, k: nat) {
    || (k == 8 && v == w >> 8)
    || (k == 16 && v == w >> 16)
    || (k == 32 && v == w >> 32)
  }

  lemma BitOfShift(w: bv64, v: bv64, k: nat, i: nat)
    requires IsShift(w, v, k)
    requires i + k < 64
    ensures Bit(v, i) == Bit(w, i + k)
  {
    hide Amount, BitAt;
    ShiftAmountPlus(i, k);
    AmountBelow(i, k);
    if k == 8 {
      BitAtOfShift8(w, v, Amount(i));
    } else if k == 16 {
      BitAtOfShift16(w, v, Amount(i));
    } else {
      BitAtOfShift32(w, v, Amount(i));
    }
  }

  lemma ShiftDistance(w: bv64, v: bv64, k: nat)
    requires IsShift(w, v, k)
    ensures k == 8 || k == 16 || k == 32
  {
  }

  lemma AmountBelow(i: nat, k: nat)
    requires k == 8 || k == 16 || k == 32
    requires i + k < 64
    ensures Amount(i) < 64 - (k as bv8)
  {
    hide Amount;
    OrderedAmounts(64 - k, i);
    AmountIsPosition(64 - k);
    AmountsInjective(Amount(64 - k), 64 - (k as bv8));
  }

  lemma {:induction false} OnesOfShift(w: bv64, v: bv64, k: nat, n: nat)
    requires IsShift(w, v, k)
    requires k + n <= 64
    ensures OnesBelow(v, n) + OnesBelow(w, k) == OnesBelow(w, k + n)
  {
    hide Bit, IsShift;
    assert k == 8 || k == 16 || k == 32 by { ShiftDistance(w, v, k); }
    if n > 0 {
      OnesOfShift(w, v, k, n - 1);
      BitOfShift(w, v, k, n - 1);
    }
  }

  lemma {:induction false} OnesBelowMonotone(w: bv64, m: nat, n: nat)
    requires m <= n <= 64
    ensures OnesBelow(w, m) <= OnesBelow(w, n)
    ensures OnesBelow(w, n) <= OnesBelow(w, m) + (n - m)
  {
    if m < n {
      OnesBelowMonotone(w, m, n - 1);
    }
  }

  /** Words that agree on their n lowest bits have equally many ones there. */
  lemma {:induction false} OnesBelowCong(v: bv64, w: bv64, n: nat)
    requires n <= 64
    requires forall j :: 0 <= j < n ==> Bit(v, j) == Bit(w, j)
    ensures OnesBelow(v, n) == OnesBelow(w, n)
  {
    if n > 0 {
      OnesBelowCong(v, w, n - 1);
    }
  }

  lemma {:induction false} NoOnesAbove(w: bv64, m: nat, n: nat)
    requires m <= n <= 64
    requires forall j :: m <= j < n ==> !Bit(w, j)
    ensures OnesBelow(w, n) == OnesBelow(w, m)
  {
    if m < n {
      NoOnesAbove(w, m, n - 1);
    }
  }

  // ---------------------------------------------------------------- the mask tables

  function LowMaskAt(a: bv8): bv64
    requires a <= 64
  {
    ((1 as bv64) << a) - 1
  }

  /** Entry i of the mask table: the i lowest bits. */
  function LowMask(i: nat): bv64
    requires i <= 64
  {
    LowMaskAt(Amount(i))
  }

  /** Entry i of the rMaskUpto table: every bit above bit i. */
  function AboveMask(i: nat): bv64
    requires i < 64
  {
    !LowMask(i + 1)
  }

  lemma BitUnderLowMask(w: bv64, m: bv64, i: nat, j: nat)
    requires i <= 64 && j < 64 && m == LowMask(i)
    ensures Bit(w & m, j) <==> j < i && Bit(w, j)
  {
    hide Amount, BitAt, LowMaskAt;
    OrderedAmounts(i, j);
    BitAtUnderMask(w, m, Amount(i), Amount(j));
  }

  lemma BitUnderAboveMask(w: bv64, m: bv64, i: nat, j: nat)
    requires i < 64 && j < 64 && m == AboveMask(i)
    ensures Bit(w & m, j) <==> i < j && Bit(w, j)
  {
    hide Amount, BitAt, LowMaskAt;
    OrderedAmounts(i + 1, j);
    BitAtUnderComplement(w, LowMask(i + 1), m, Amount(i + 1), Amount(j));
  }

  /** A masked popcount is a popcount of a prefix. */
  lemma OnesUnderLowMask(w: bv64, m: bv64, i: nat)
    requires i <= 64 && m == LowMask(i)
    ensures OnesCount64(w & m) == OnesBelow(w, i)
  {
    hide LowMask, Bit;
    var v := w & m;
    forall j | 0 <= j < 64
      ensures Bit(v, j) == (j < i && Bit(w, j))
    {
      BitUnderLowMask(w, m, i, j);
    }
    NoOnesAbove(v, i, 64);
    OnesBelowCong(v, w, i);
  }

  lemma BitWithOne(w: bv64, m: bv64, i: nat, j: nat)
    requires i < 64 && j < 64
    requires m == OneAt(Amount(i))
    ensures Bit(w | m, j) <==> i == j || Bit(w, j)
  {
    hide Amount, BitAt, OneAt;
    OrderedAmounts(i, j);
    BitAtWithOne(w, m, OneAt(Amount(j)), Amount(i), Amount(j));
  }

  // ---------------------------------------------------------------- zero and non-zero words

  predicate Misses(w: bv64, m: bv64) {
    w & m == 0
  }

  function Union(m: bv64, s: bv64): bv64 {
    m | s
  }

  lemma LowMaskGrows(a: bv8)
    requires a < 64
    ensures LowMaskAt(a + 1) == Union(LowMaskAt(a), OneAt(a))
  {
  }

  lemma MissesEnds(w: bv64)
    ensures Misses(w, LowMaskAt(0))
    ensures Misses(w, LowMaskAt(64)) ==> w == 0
  {
  }

  lemma MissesBoth(w: bv64, m: bv64, s: bv64)
    requires Misses(w, m) && Misses(w, s)
    ensures Misses(w, Union(m, s))
  {
  }

  lemma MissesMore(w: bv64, a: bv8)
    requires a < 64 && Misses(w, LowMaskAt(a)) && Misses(w, OneAt(a))
    ensures Misses(w, LowMaskAt(a + 1))
  {
    hide LowMaskAt, OneAt, Misses, Union;
    LowMaskGrows(a);
    MissesBoth(w, LowMaskAt(a), OneAt(a));
  }

  lemma NoBitMisses(w: bv64, n: nat)
    requires n < 64 && !Bit(w, n)
    ensures Misses(w, OneAt(Amount(n)))
  {
    hide OneAt, Amount;
  }

  /** A word with no ones among its n lowest bits has nothing under the n-bit mask. */
  lemma {:induction false} NothingUnderMask(w: bv64, n: nat)
    requires n <= 64
    requires forall j :: 0 <= j < n ==> !Bit(w, j)
    ensures Misses(w, LowMaskAt(Amount(n)))
  {
    hide Bit, OneAt, LowMaskAt, Amount, Misses;
    if n == 0 {
      AmountIsPosition(0);
      AmountsInjective(Amount(0), 0);
      MissesEnds(w);
    } else {
      ShiftAmountPlus(n - 1, 1);
      NothingUnderMask(w, n - 1);
      NoBitMisses(w, n - 1);
      MissesMore(w, Amount(n - 1));
    }
  }

  lemma AllBitsClear(w: bv64)
    requires forall j :: 0 <= j < 64 ==> !Bit(w, j)
    ensures w == 0
  {
    hide Bit, LowMaskAt, Amount, Misses;
    NothingUnderMask(w, 64);
    AmountIsPosition(64);
    AmountsInjective(Amount(64), 64);
    MissesEnds(w);
  }

  lemma ZeroWord(i: nat)
    requires i < 64
    ensures !Bit(0, i)
  {
    hide OneAt, Amount;
  }

  /** A non-zero word has a lowest one. */
  lemma LowestOne(w: bv64)
    ensures w != 0 <==> TrailingZeros64(w) < 64
  {
    hide Bit;
    var t := TrailingZeros64(w);
    if t < 64 {
      ZeroWord(t);
    } else {
      AllBitsClear(w);
    }
  }
}

/** select32R64 (common/domain/set.go:141-183): the sampled index finds a word to start from, the
    rank index finds the word, and halving popcounts plus a byte table find the bit. */
module Select {
  import opened Words
  import opened ByteSelect
  import opened Bitmap

  // ---------------------------------------------------------------- table lookups

  lemma ByteMaskLiterals()
    ensures LowMask(8) == 0xff
    ensures LowMask(16) == 0xffff
    ensures LowMask(32) == 0xffff_ffff
  {
    assert Amount(8) == 8;
    assert Amount(16) == 16;
    assert Amount(32) == 32;
  }

  /** math/bits.OnesCount32(uint32(w)) and its 16- and 8-bit forms. */
  function OnesCountLow(w: bv64, width: nat): nat
    requires width == 8 || width == 16 || width == 32
  {
    OnesCount64(w & (if width == 8 then 0xff else if width == 16 then 0xffff else 0xffff_ffff))
  }

  lemma OnesCountLowIs(w: bv64, width: nat)
    requires width == 8 || width == 16 || width == 32
    ensures OnesCountLow(w, width) == OnesBelow(w, width)
  {
    hide LowMask, OnesCount64, OnesBelow;
    ByteMaskLiterals();
    OnesUnderLowMask(w, LowMask(width), width);
  }

  lemma PackedIndex(b: bv64, k: bv64)
    requires b < 256 && k < 8
    ensures ((b << 3) | k) == b * 8 + k
  {
  }

  lemma PackedIndexValue(b: bv64, k: bv64)
    requires b < 256 && k < 8
    ensures (b * 8 + k) as int == (b as int) * 8 + (k as int)
  {
  }

  lemma ByteValue(b: bv64, c: bv8)
    requires b < 256 && c == b as bv8
    ensures c as int == b as int && c as bv64 == b
    ensures 0 <= b as int < 256
    ensures (b as int) as bv8 == c
  {
  }

  lemma SmallNumber(k: nat)
    requires k < 8
    ensures (k as bv64) as int == k && (k as bv64) < 8
  {
    if k == 0 {
    } else if k == 1 {
    } else if k == 2 {
    } else if k == 3 {
    } else if k == 4 {
    } else if k == 5 {
    } else if k == 6 {
    } else {
      assert k == 7;
    }
  }

  /** ww >> 32, ww >> 16 and ww >> 8, set.go:155-166. */
  function Dropped(w: bv64, k: nat): bv64
    requires k == 8 || k == 16 || k == 32
  {
    if k == 32 then w >> 32 else if k == 16 then w >> 16 else w >> 8
  }

  /** Table index for a ones count below 8 in the lowest byte of w, set.go:168. */
  function LowIndex(w: bv64, k: nat): int
    requires k < 8
  {
    (((w & 0xff) << 3) | (k as bv64)) as int
  }

  /** The same for the next byte up, set.go:166. */
  function HighIndex(w: bv64, k: nat): int
    requires k < 8
  {
    (((w >> 5) & 0x7f8) | (k as bv64)) as int
  }

  lemma LowIndexIs(w: bv64, b: bv64, k: nat)
    requires k < 8 && b == w & 0xff && b < 256
    ensures LowIndex(w, k) == 8 * (b as int) + k
  {
    SmallNumber(k);
    PackedIndex(b, k as bv64);
    PackedIndexValue(b, k as bv64);
  }

  lemma HighIndexIs(w: bv64, k: nat)
    requires k < 8
    ensures HighIndex(w, k) == LowIndex(Dropped(w, 8), k)
  {
    SecondByteIndex(w);
  }

  /** The entry for the k-th one of byte b, when it has more than k. */
  lemma LookupByte(lookup: seq<nat>, b: bv64, k: nat, n: int)
    requires IsSelectLookup(lookup)
    requires b < 256 && k < 8 && k < OnesBelow(b, 8)
    requires n == 8 * (b as int) + k
    ensures 0 <= n < |lookup|
    ensures var p := lookup[n]; p < 8 && Bit(b, p) && OnesBelow(b, p) == k
  {
    hide IsByteSelect, OnesBelow, Bit, ByteBit;
    var c := b as bv8;
    ByteValue(b, c);
    assert n / 8 == b as int && n % 8 == k;
    EntryMeans(c, k, lookup[n]);
  }

  lemma EntryMeans(c: bv8, k: nat, x: nat)
    requires IsByteSelect(c, k, x)
    requires k < OnesBelow(c as bv64, 8)
    ensures x < 8 && Bit(c as bv64, x) && OnesBelow(c as bv64, x) == k
  {
    hide Bit, OnesBelow;
  }

  lemma LowByte(w: bv64, b: bv64, n: nat)
    requires b == w & 0xff && n <= 8
    ensures b < 256
    ensures OnesBelow(b, n) == OnesBelow(w, n)
    ensures n < 8 ==> Bit(b, n) == Bit(w, n)
  {
    hide LowMask, OnesBelow, Bit;
    ByteMaskLiterals();
    forall p | 0 <= p < 8
      ensures Bit(b, p) == Bit(w, p)
    {
      BitUnderLowMask(w, LowMask(8), 8, p);
    }
    OnesBelowCong(b, w, n);
    AtMostByte(w, b);
  }

  lemma AtMostByte(w: bv64, b: bv64)
    requires b == w & 0xff
    ensures b < 256
  {
  }

  lemma SecondByteIndex(w: bv64)
    ensures (w >> 5) & 0x7f8 == ((w >> 8) & 0xff) << 3
  {
  }

  // ---------------------------------------------------------------- narrowing inside one word

  /** ww is w with its offset low bits dropped, and the one sought is the find-th of ww, inside its
      lowest width bits. */
  ghost predicate Narrowed(w: bv64, find0: nat, ww: bv64, offset: nat, find: nat, width: nat) {
    && offset + width <= 64
    && OnesBelow(w, offset) + find == find0
    && find < OnesBelow(ww, width)
    && (forall p :: 0 <= p < 64 - offset ==> Bit(ww, p) == Bit(w, offset + p))
    && (forall n :: 0 <= n <= 64 - offset ==> OnesBelow(ww, n) + OnesBelow(w, offset) == OnesBelow(w, offset + n))
  }

  lemma NarrowedAtStart(w: bv64, find: nat)
    requires find < OnesBelow(w, 64)
    ensures Narrowed(w, find, w, 0, find, 64)
  {
    hide Bit;
  }

  lemma NarrowToLow(w: bv64, find0: nat, ww: bv64, offset: nat, find: nat, k: nat)
    requires Narrowed(w, find0, ww, offset, find, 2 * k)
    requires find < OnesBelow(ww, k)
    ensures Narrowed(w, find0, ww, offset, find, k)
  {
    hide OnesBelow, Bit;
  }

  lemma NarrowToHigh(w: bv64, find0: nat, ww: bv64, offset: nat, find: nat, k: nat, v: bv64)
    requires IsShift(ww, v, k)
    requires Narrowed(w, find0, ww, offset, find, 2 * k)
    requires OnesBelow(ww, k) <= find
    ensures Narrowed(w, find0, v, offset + k, find - OnesBelow(ww, k), k)
  {
    hide OnesBelow, Bit, IsShift;
    OnesOfShift(ww, v, k, k);
    var off := offset + k;
    assert OnesBelow(ww, k) + OnesBelow(w, offset) == OnesBelow(w, off);
    forall p | 0 <= p < 64 - off
      ensures Bit(v, p) == Bit(w, off + p)
    {
      BitOfShift(ww, v, k, p);
      assert Bit(ww, p + k) == Bit(w, offset + (p + k));
    }
    forall n | 0 <= n <= 64 - off
      ensures OnesBelow(v, n) + OnesBelow(w, off) == OnesBelow(w, off + n)
    {
      OnesOfShift(ww, v, k, n);
      assert OnesBelow(ww, k + n) + OnesBelow(w, offset) == OnesBelow(w, offset + (k + n));
    }
  }

  /** The bit-finding part of select32R64, set.go:149-170. */
  method SelectInWord(lookup: seq<nat>, w: bv64, ith: nat) returns (a: nat)
    requires IsSelectLookup(lookup)
    requires ith < OnesCount64(w)
    ensures a < 64 && Bit(w, a) && OnesBelow(w, a) == ith
  {
    hide OnesBelow, Bit, Narrowed, IsSelectLookup, OnesCountLow, IsShift, LowIndex, HighIndex, Dropped;
    var ww := w;
    var findIth := ith;
    var offset := 0;
    NarrowedAtStart(w, ith);
    var ones := OnesCountLow(ww, 32);
    OnesCountLowIs(ww, 32);
    if ones <= findIth {
      Shifts(ww);
      NarrowToHigh(w, ith, ww, offset, findIth, 32, Dropped(ww, 32));
      findIth := findIth - ones;
      offset := offset + 32;
      ww := Dropped(ww, 32);
    } else {
      NarrowToLow(w, ith, ww, offset, findIth, 32);
    }
    ones := OnesCountLow(ww, 16);
    OnesCountLowIs(ww, 16);
    if ones <= findIth {
      Shifts(ww);
      NarrowToHigh(w, ith, ww, offset, findIth, 16, Dropped(ww, 16));
      findIth := findIth - ones;
      offset := offset + 16;
      ww := Dropped(ww, 16);
    } else {
      NarrowToLow(w, ith, ww, offset, findIth, 16);
    }
    ones := OnesCountLow(ww, 8);
    OnesCountLowIs(ww, 8);
    if ones <= findIth {
      var k := findIth - ones;
      Shifts(ww);
      NarrowToHigh(w, ith, ww, offset, findIth, 8, Dropped(ww, 8));
      FindInByte(w, ith, Dropped(ww, 8), offset + 8, k);
      HighIndexIs(ww, k);
      FinishInByte(lookup, w, ith, Dropped(ww, 8), offset + 8, k);
      a := lookup[HighIndex(ww, k)] + offset + 8;
    } else {
      NarrowToLow(w, ith, ww, offset, findIth, 8);
      FindInByte(w, ith, ww, offset, findIth);
      FinishInByte(lookup, w, ith, ww, offset, findIth);
      a := lookup[LowIndex(ww, findIth)] + offset;
    }
  }

  lemma Shifts(w: bv64)
    ensures IsShift(w, Dropped(w, 32), 32) && IsShift(w, Dropped(w, 16), 16) && IsShift(w, Dropped(w, 8), 8)
  {
  }

  lemma FindInByte(w: bv64, find0: nat, ww: bv64, offset: nat, find: nat)
    requires Narrowed(w, find0, ww, offset, find, 8)
    ensures find < 8
  {
    hide Bit;
  }

  lemma FinishInByte(lookup: seq<nat>, w: bv64, find0: nat, ww: bv64, offset: nat, find: nat)
    requires IsSelectLookup(lookup)
    requires Narrowed(w, find0, ww, offset, find, 8)
    requires find < 8
    ensures 0 <= LowIndex(ww, find) < |lookup|
    ensures var a := lookup[LowIndex(ww, find)] + offset; a < 64 && Bit(w, a) && OnesBelow(w, a) == find0
  {
    hide OnesBelow, Bit, LowIndex, Narrowed, IsSelectLookup;
    var b := ww & 0xff;
    FoundInByte(w, find0, ww, offset, find, b);
    LowIndexIs(ww, b, find);
    LookupByte(lookup, b, find, LowIndex(ww, find));
    var p := lookup[LowIndex(ww, find)];
    LowByte(ww, b, p);
    NarrowedAt(w, find0, ww, offset, find, p);
  }

  lemma FoundInByte(w: bv64, find0: nat, ww: bv64, offset: nat, find: nat, b: bv64)
    requires Narrowed(w, find0, ww, offset, find, 8) && b == ww & 0xff
    ensures b < 256 && find < OnesBelow(b, 8)
  {
    hide OnesBelow, Bit;
    LowByte(ww, b, 8);
  }

  lemma NarrowedAt(w: bv64, find0: nat, ww: bv64, offset: nat, find: nat, p: nat)
    requires Narrowed(w, find0, ww, offset, find, 8)
    requires p < 8 && Bit(ww, p) && OnesBelow(ww, p) == find
    ensures p + offset < 64 && Bit(w, p + offset) && OnesBelow(w, p + offset) == find0
  {
    hide OnesBelow, Bit;
    assert Bit(ww, p) == Bit(w, offset + p);
    assert OnesBelow(ww, p) + OnesBelow(w, offset) == OnesBelow(w, offset + p);
  }

  // ---------------------------------------------------------------- the whole bitmap

  /** No one in [a, b). */
  ghost predicate NoneIn(words: seq<bv64>, a: nat, b: nat) {
    forall p :: a <= p < b ==> !On(words, p)
  }

  /** select32R64: where the i-th one stands, and where the next one after it does (the bitmap's
      length when there is none). */
  method Select32R64(m: Masks, lookup: seq<nat>, words: seq<bv64>, selectIndex: seq<int32>, rankIndex: seq<int32>,
                     i: int32)
    returns (a: int32, next: int32)
    requires IsMasks(m) && IsSelectLookup(lookup)
    requires 64 * |words| < INT32_LIMIT
    requires IsSelectIndex(words, selectIndex)
    requires IsRankIndex(words, rankIndex) && |rankIndex| == |words| + 1
    requires 0 <= i && (i as int) < Ones(words)
    ensures 0 <= a < next && next as int <= 64 * |words|
    ensures On(words, a as int) && Rank(words, a as int) == i as int
    ensures NoneIn(words, a as int + 1, next as int)
    ensures next as int < 64 * |words| ==> On(words, next as int)
  {
    hide On, Rank, Bit, OnesBelow, OnesCount64, IsMasks, IsSelectLookup, TrailingZeros64, NoneIn, LowMask, AboveMask;
    var wordI := selectIndex[i / 32] / 64;
    StartWord(words, selectIndex, i as int, wordI as int);
    while rankIndex[wordI + 1] <= i
      invariant 0 <= wordI as int < |words|
      invariant rankIndex[wordI] <= i
      decreases |words| - wordI as int
    {
      wordI := wordI + 1;
    }
    CountedWord(words, wordI as int);
    var findIth := (i - rankIndex[wordI]) as nat;
    var inWord := SelectInWord(lookup, words[wordI], findIth);
    a := wordI * 64 + (inWord as int32);
    RankInWord(words, wordI as int, inWord);
    OnInWord(words, wordI as int, inWord);
    next := NextOne(m, words, wordI, inWord);
  }

  /** The rest of select32R64, set.go:171-182: the first one after bit p of word k. */
  method NextOne(m: Masks, words: seq<bv64>, k: int32, p: nat) returns (next: int32)
    requires IsMasks(m) && 64 * |words| < INT32_LIMIT
    requires 0 <= k as int < |words| && p < 64
    ensures 64 * (k as int) + p < next as int <= 64 * |words|
    ensures NoneIn(words, 64 * (k as int) + p + 1, next as int)
    ensures next as int < 64 * |words| ==> On(words, next as int)
  {
    hide On, Bit, IsMasks, TrailingZeros64, NoneIn, AboveMask;
    var above := RMask(m, p);
    var w := words[k] & above;
    NextInWord(words, k as int, p, w, above);
    ghost var from := 64 * (k as int) + p + 1;
    if w != 0 {
      next := k * 64 + (TrailingZeros64(w) as int32);
      return;
    }
    var wordI := k + 1;
    while wordI as int < |words|
      invariant (k as int) < wordI as int <= |words|
      invariant NoneIn(words, from, 64 * (wordI as int))
      decreases |words| - wordI as int
    {
      w := words[wordI];
      FirstInWord(words, wordI as int);
      if w != 0 {
        next := wordI * 64 + (TrailingZeros64(w) as int32);
        NoneInJoin(words, from, 64 * (wordI as int), next as int);
        return;
      }
      NoneInJoin(words, from, 64 * (wordI as int), 64 * (wordI as int + 1));
      wordI := wordI + 1;
    }
    next := (|words| as int32) * 64;
  }

  function RMask(m: Masks, i: nat): (r: bv64)
    requires IsMasks(m) && i < 64
    ensures r == AboveMask(i)
  {
    m.rMaskUpto[i]
  }

  lemma NoneInJoin(words: seq<bv64>, a: nat, b: nat, c: nat)
    requires NoneIn(words, a, b) && NoneIn(words, b, c)
    ensures NoneIn(words, a, c)
  {
    hide On;
  }

  /** The word a sampled one stands in is never past the word sought. */
  lemma StartWord(words: seq<bv64>, selectIndex: seq<int32>, i: int, k: int)
    requires IsSelectIndex(words, selectIndex)
    requires 0 <= i < Ones(words)
    requires i / 32 < |selectIndex| ==> k == selectIndex[i / 32] as int / 64
    ensures i / 32 < |selectIndex|
    ensures 0 <= k < |words|
    ensures Rank(words, 64 * k) <= i
  {
    hide On, Rank;
    RankMonotone(words, 64 * k, selectIndex[i / 32] as int);
  }

  lemma NextInWord(words: seq<bv64>, k: nat, p: nat, w: bv64, above: bv64)
    requires k < |words| && p < 64 && above == AboveMask(p) && w == words[k] & above
    ensures w != 0 ==> var q := 64 * k + TrailingZeros64(w);
                       TrailingZeros64(w) < 64 && p < TrailingZeros64(w) && On(words, q)
                       && NoneIn(words, 64 * k + p + 1, q)
    ensures w == 0 ==> NoneIn(words, 64 * k + p + 1, 64 * (k + 1))
  {
    hide Bit, On, AboveMask;
    LowestOne(w);
    var t := TrailingZeros64(w);
    forall j | 0 <= j < 64
      ensures Bit(w, j) <==> p < j && On(words, 64 * k + j)
    {
      BitUnderAboveMask(words[k], above, p, j);
      OnInWord(words, k, j);
    }
    forall q | 64 * k + p + 1 <= q < 64 * k + t
      ensures !On(words, q)
    {
      assert !Bit(w, q - 64 * k);
    }
  }

  lemma FirstInWord(words: seq<bv64>, k: nat)
    requires k < |words|
    ensures var t := TrailingZeros64(words[k]);
            && (words[k] != 0 ==> t < 64 && On(words, 64 * k + t) && NoneIn(words, 64 * k, 64 * k + t))
            && (words[k] == 0 ==> NoneIn(words, 64 * k, 64 * (k + 1)))
  {
    hide Bit, On;
    LowestOne(words[k]);
    var t := TrailingZeros64(words[k]);
    forall j | 0 <= j < 64
      ensures Bit(words[k], j) == On(words, 64 * k + j)
    {
      OnInWord(words, k, j);
    }
    forall q | 64 * k <= q < 64 * k + t
      ensures !On(words, q)
    {
      assert !Bit(words[k], q - 64 * k);
    }
  }
}

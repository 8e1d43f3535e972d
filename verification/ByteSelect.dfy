/** The 256 x 8 select table of common/domain/set.go:226-240: entry 8*b + j is the position of the
    j-th one of byte b, or 8 when b has no such one. */
module ByteSelect {
  import opened Words

  /** math/bits.TrailingZeros8 */
  function TrailingZeros8(w: bv8): (t: nat)
    ensures t <= 8
  {
    if w & 1 != 0 then 0
    else if w & 2 != 0 then 1
    else if w & 4 != 0 then 2
    else if w & 8 != 0 then 3
    else if w & 16 != 0 then 4
    else if w & 32 != 0 then 5
    else if w & 64 != 0 then 6
    else if w & 128 != 0 then 7
    else 8
  }

  /** Bit p of a byte. */
  predicate ByteBit(w: bv8, p: nat)
    requires p < 8
  {
    Bit(w as bv64, p)
  }

  function ByteOne(p: nat): bv8
    requires p < 8
  {
    [1, 2, 4, 8, 16, 32, 64, 128][p]
  }

  lemma ByteOneIs(p: nat)
    requires p < 8
    ensures OneAt(Amount(p)) == ByteOne(p) as bv64
  {
    if p == 0 {
    } else if p == 1 {
    } else if p == 2 {
    } else if p == 3 {
    } else if p == 4 {
    } else if p == 5 {
    } else if p == 6 {
    } else {
      assert p == 7;
    }
  }

  lemma WideAnd(w: bv8, s: bv8)
    ensures (w as bv64) & (s as bv64) != 0 <==> w & s != 0
  {
  }

  lemma ByteBitIs(w: bv8, p: nat)
    requires p < 8
    ensures ByteBit(w, p) <==> w & ByteOne(p) != 0
  {
    hide OneAt, Amount, ByteOne;
    ByteOneIs(p);
    WideAnd(w, ByteOne(p));
  }

  lemma TrailingZeros8Finds(w: bv8)
    ensures var t := TrailingZeros8(w);
            && (t < 8 ==> ByteBit(w, t))
            && (forall p :: 0 <= p < t ==> !ByteBit(w, p))
  {
    hide ByteBit;
    forall p | 0 <= p < 8
      ensures ByteBit(w, p) <==> w & ByteOne(p) != 0
    {
      ByteBitIs(w, p);
    }
  }

  lemma ClearLowestMachine(w: bv8, p: nat)
    requires p < 8
    ensures (w & (w - 1)) & ByteOne(p) != 0 <==> p != TrailingZeros8(w) && w & ByteOne(p) != 0
  {
  }

  lemma ClearLowest(w: bv8, v: bv8, p: nat)
    requires p < 8 && v == w & (w - 1)
    ensures ByteBit(v, p) <==> p != TrailingZeros8(w) && ByteBit(w, p)
  {
    hide ByteBit, ByteOne, TrailingZeros8;
    ByteBitIs(w, p);
    ByteBitIs(v, p);
    ClearLowestMachine(w, p);
  }

  /** x is where the j-th one of byte b stands: its ones below x number j.  Bytes with at most j
      ones have 8 there. */
  ghost predicate IsByteSelect(b: bv8, j: nat, x: nat) {
    && x <= 8
    && (x < 8 ==> ByteBit(b, x) && OnesBelow(b as bv64, x) == j)
    && (x == 8 ==> OnesBelow(b as bv64, 8) <= j)
  }

  /** What a correct select8Lookup holds. */
  ghost predicate IsSelectLookup(t: seq<nat>) {
    |t| == 2048 && forall n :: 0 <= n < 2048 ==> IsByteSelect((n / 8) as bv8, n % 8, t[n])
  }

  /** v is byte b with its j lowest ones cleared. */
  ghost predicate Cleared(b: bv8, v: bv8, j: nat) {
    forall p :: 0 <= p < 8 ==> (ByteBit(v, p) <==> ByteBit(b, p) && j <= OnesBelow(b as bv64, p))
  }

  /** If no one below position q has j ones under it, at most j ones lie below q. */
  lemma {:induction false} FewOnesBelow(w: bv64, j: nat, q: nat)
    requires q <= 64
    requires forall p :: 0 <= p < q ==> !(Bit(w, p) && j <= OnesBelow(w, p))
    ensures OnesBelow(w, q) <= j
  {
    hide Bit;
    if q > 0 {
      FewOnesBelow(w, j, q - 1);
    }
  }

  lemma {:induction false} OnesStrictlyBelow(w: bv64, p: nat, q: nat)
    requires p < q <= 64 && Bit(w, p)
    ensures OnesBelow(w, p) < OnesBelow(w, q)
  {
    hide Bit;
    if p < q - 1 {
      OnesStrictlyBelow(w, p, q - 1);
    }
  }

  /** The lowest remaining one is the j-th, and clearing it prepares for the next. */
  lemma LowestIsNext(b: bv8, w: bv8, v: bv8, j: nat)
    requires Cleared(b, w, j) && v == w & (w - 1)
    ensures IsByteSelect(b, j, TrailingZeros8(w))
    ensures Cleared(b, v, j + 1)
  {
    hide ByteBit, TrailingZeros8;
    var t := TrailingZeros8(w);
    var u := b as bv64;
    TrailingZeros8Finds(w);
    assert OnesBelow(u, t) <= j by {
      forall p | 0 <= p < t
        ensures !(Bit(u, p) && j <= OnesBelow(u, p))
      {
        assert !ByteBit(w, p);
        ByteBitOf(b, p);
      }
      FewOnesBelow(u, j, t);
    }
    forall p | 0 <= p < 8
      ensures ByteBit(v, p) <==> ByteBit(b, p) && j + 1 <= OnesBelow(u, p)
    {
      ClearLowest(w, v, p);
      ByteBitOf(b, p);
      if t < 8 {
        ByteBitOf(b, t);
      }
      if ByteBit(b, p) && t < p {
        OnesStrictlyBelow(u, t, p);
      } else if ByteBit(b, p) && p < t {
        assert !ByteBit(w, p);
      }
    }
  }

  lemma ByteBitOf(b: bv8, p: nat)
    requires p < 8
    ensures ByteBit(b, p) == Bit(b as bv64, p)
  {
  }

  /** initSelectLookup, set.go:228-240. */
  method InitSelectLookup() returns (lookup: seq<nat>)
    ensures IsSelectLookup(lookup)
  {
    hide IsByteSelect, Cleared, TrailingZeros8;
    lookup := [];
    for i := 0 to 256
      invariant |lookup| == 8 * i
      invariant forall n :: 0 <= n < 8 * i ==> IsByteSelect((n / 8) as bv8, n % 8, lookup[n])
    {
      var w := i as bv8;
      NothingCleared(w);
      for j := 0 to 8
        invariant |lookup| == 8 * i + j
        invariant Cleared(i as bv8, w, j)
        invariant forall n :: 0 <= n < 8 * i + j ==> IsByteSelect((n / 8) as bv8, n % 8, lookup[n])
      {
        var x := TrailingZeros8(w);
        LowestIsNext(i as bv8, w, w & (w - 1), j);
        w := w & (w - 1);
        assert (8 * i + j) / 8 == i && (8 * i + j) % 8 == j;
        lookup := lookup + [x];
      }
    }
  }

  lemma NothingCleared(b: bv8)
    ensures Cleared(b, b, 0)
  {
    hide ByteBit;
  }
}

/** Go's conversions between int and int32, with an int32 carried as its 32 bits: the bits are the
    five base-128 digits of the number modulo 2^32. */
module Int32 {
  const TWO_32 := 0x1_0000_0000

  function Digit(k: nat): bv32
    requires k < 128
  {
    (k as bv8) as bv32
  }

  function FromNat(n: nat): bv32
    requires n < TWO_32
  {
    Join(Digit(n % 128), Digit(n / 128 % 128), Digit(n / 0x4000 % 128), Digit(n / 0x20_0000 % 128),
         Digit(n / 0x1000_0000))
  }

  function Join(a: bv32, b: bv32, c: bv32, d: bv32, e: bv32): bv32 {
    a | (b << 7) | (c << 14) | (d << 21) | (e << 28)
  }

  function Group(v: bv32, k: nat): bv32
    requires k < 5
  {
    (if k == 0 then v else if k == 1 then v >> 7 else if k == 2 then v >> 14
     else if k == 3 then v >> 21 else v >> 28) & 0x7F
  }

  function ToDigit(x: bv32): nat
    requires x < 0x80
  {
    (x as bv8) as int
  }

  lemma GroupSmall(v: bv32, k: nat)
    requires k < 5
    ensures Group(v, k) < 0x80
  {
  }

  function ToNat(v: bv32): nat {
    GroupSmall(v, 0);
    GroupSmall(v, 1);
    GroupSmall(v, 2);
    GroupSmall(v, 3);
    GroupSmall(v, 4);
    ToDigit(Group(v, 0)) + 128 * ToDigit(Group(v, 1)) + 0x4000 * ToDigit(Group(v, 2))
    + 0x20_0000 * ToDigit(Group(v, 3)) + 0x1000_0000 * ToDigit(Group(v, 4))
  }

  /** int32(n): n modulo 2^32. */
  function ToInt32(n: int): bv32 {
    FromNat(n % TWO_32)
  }

  /** int(v), in two's complement. */
  function Value(v: bv32): int {
    if ToNat(v) < 0x8000_0000 then ToNat(v) else ToNat(v) - TWO_32
  }

  lemma DigitBack(k: nat)
    requires k < 128
    ensures Digit(k) < 0x80 && ToDigit(Digit(k)) == k
  {
    DigitBits(k, k as bv8);
  }

  lemma DigitBits(k: nat, b: bv8)
    requires k < 128 && b == k as bv8
    ensures b as int == k && (b as bv32) < 0x80 && ((b as bv32) as bv8) == b
  {
  }

  lemma TopDigit(k: nat)
    requires k < 16
    ensures Digit(k) < 0x10
  {
  }

  lemma GroupsOfJoin(a: bv32, b: bv32, c: bv32, d: bv32, e: bv32)
    requires a < 0x80 && b < 0x80 && c < 0x80 && d < 0x80 && e < 0x10
    ensures var v := Join(a, b, c, d, e);
            Group(v, 0) == a && Group(v, 1) == b && Group(v, 2) == c && Group(v, 3) == d && Group(v, 4) == e
  {
  }

  lemma Digits(n: nat)
    requires n < TWO_32
    ensures n == n % 128 + 128 * (n / 128 % 128) + 0x4000 * (n / 0x4000 % 128) + 0x20_0000 * (n / 0x20_0000 % 128)
                 + 0x1000_0000 * (n / 0x1000_0000)
    ensures n / 0x1000_0000 < 16
  {
    assert n / 0x4000 == n / 128 / 128;
    assert n / 0x20_0000 == n / 0x4000 / 128;
    assert n / 0x1000_0000 == n / 0x20_0000 / 128;
  }

  lemma NatBack(n: nat)
    requires n < TWO_32
    ensures ToNat(FromNat(n)) == n
  {
    hide Digit, ToDigit, Join, Group;
    Digits(n);
    DigitBack(n % 128);
    DigitBack(n / 128 % 128);
    DigitBack(n / 0x4000 % 128);
    DigitBack(n / 0x20_0000 % 128);
    DigitBack(n / 0x1000_0000);
    TopDigit(n / 0x1000_0000);
    GroupsOfJoin(Digit(n % 128), Digit(n / 128 % 128), Digit(n / 0x4000 % 128), Digit(n / 0x20_0000 % 128),
                 Digit(n / 0x1000_0000));
  }

  /** A number that fits an int32 survives the conversion and back. */
  lemma ValueOfToInt32(n: int)
    requires -0x8000_0000 <= n < 0x8000_0000
    ensures Value(ToInt32(n)) == n
  {
    hide FromNat, ToNat;
    NatBack(n % TWO_32);
  }

  /** Every int32 lies where an int32 must. */
  lemma ValueRange(v: bv32)
    ensures -0x8000_0000 <= Value(v) < 0x8000_0000
  {
    hide Group, ToDigit;
    TopGroup(v);
    for k := 0 to 5
      invariant forall i :: 0 <= i < k ==> Group(v, i) < 0x80 && ToDigit(Group(v, i)) < 128
    {
      GroupSmall(v, k);
      ToDigitSmall(Group(v, k));
    }
    ToDigitTop(Group(v, 4));
  }

  lemma TopGroup(v: bv32)
    ensures Group(v, 4) < 0x10
  {
  }

  lemma ToDigitSmall(x: bv32)
    requires x < 0x80
    ensures ToDigit(x) < 128
  {
    ByteBelow(x as bv8, 0x80);
  }

  lemma ToDigitTop(x: bv32)
    requires x < 0x10
    ensures ToDigit(x) < 16
  {
    ByteBelow(x as bv8, 0x10);
  }

  lemma ByteBelow(b: bv8, top: bv8)
    requires b < top
    ensures b as int < top as int
  {
  }
}

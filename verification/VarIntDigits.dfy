/** What a VarInt is as a number: the base-128 digits of the int32, lowest first, 128 added to each one
    that is not the last. */
module VarIntDigits {
  import opened Bytes
  import opened Int32
  import opened VarInt

  function Digits128(n: nat): bytes {
    if n < 128 then [n as byte] else [(n % 128 + 128) as byte] + Digits128(n / 128)
  }

  lemma DigitBytes(k: nat)
    requires k < 128
    ensures Last(Digit(k)) == k as byte && More(Digit(k)) == (k + 128) as byte
    ensures Digit(k) == 0 <==> k == 0
  {
    hide LastBits, MoreBits;
    var b := k as bv8;
    DigitBits(k, b);
    BitsOfDigit(b);
    WithTop(b, k);
  }

  lemma BitsOfDigit(b: bv8)
    requires b < 0x80
    ensures LastBits(b as bv32) == b && MoreBits(b as bv32) == b | 0x80
    ensures (b as bv32) == 0 <==> b == 0
  {
  }

  lemma WithTop(b: bv8, k: nat)
    requires k < 128 && b == k as bv8
    ensures (b | 0x80) as int == k + 128 && b < 0x80
    ensures b == 0 <==> k == 0
  {
    DigitBits(k, b);
    TopAdded(b);
  }

  lemma TopAdded(b: bv8)
    requires b < 0x80
    ensures b | 0x80 == b + 0x80 && b < 0x80
    ensures (b + 0x80) as int == b as int + 0x80
  {
  }

  lemma JoinShifts(a: bv32, b: bv32, c: bv32, d: bv32, e: bv32)
    requires a < 0x80 && b < 0x80 && c < 0x80 && d < 0x80 && e < 0x10
    ensures var v := Join(a, b, c, d, e);
            && Rest(v) == Join(b, c, d, e, 0) && (Small(v) <==> b == 0 && c == 0 && d == 0 && e == 0)
            && Last(v) == Last(a) && More(v) == More(a)
  {
  }

  lemma FirstOfJoin(a: nat, b: nat, c: nat, d: nat, e: nat)
    requires a < 128 && b < 128 && c < 128 && d < 128 && e < 16
    ensures var v := Join(Digit(a), Digit(b), Digit(c), Digit(d), Digit(e));
            && (Small(v) <==> b == 0 && c == 0 && d == 0 && e == 0)
            && Rest(v) == Join(Digit(b), Digit(c), Digit(d), Digit(e), Digit(0))
            && Last(v) == a as byte && More(v) == (a + 128) as byte
  {
    hide Join, Digit, Rest, Small, Last, More;
    DigitBytes(a);
    DigitBytes(b);
    DigitBytes(c);
    DigitBytes(d);
    DigitBytes(e);
    DigitBytes(0);
    DigitBack(a);
    DigitBack(b);
    DigitBack(c);
    DigitBack(d);
    TopDigit(e);
    JoinShifts(Digit(a), Digit(b), Digit(c), Digit(d), Digit(e));
  }

  /** One step: the lowest digit, and the bits of n / 128. */
  lemma FirstDigit(n: nat)
    requires n < TWO_32
    ensures var v := FromNat(n);
            && (Small(v) <==> n < 128) && Rest(v) == FromNat(n / 128)
            && Last(v) == (n % 128) as byte && More(v) == (n % 128 + 128) as byte
  {
    hide Join, Digit, Rest, Small, Last, More;
    Shifted(n);
    FirstOfJoin(n % 128, n / 128 % 128, n / 0x4000 % 128, n / 0x20_0000 % 128, n / 0x1000_0000);
  }

  lemma Shifted(n: nat)
    requires n < TWO_32
    ensures var m := n / 128;
            && m / 128 == n / 0x4000 && m / 0x4000 == n / 0x20_0000 && m / 0x20_0000 == n / 0x1000_0000
            && m / 0x1000_0000 == 0 && n / 0x1000_0000 % 128 == n / 0x1000_0000 && n / 0x1000_0000 < 16
    ensures n < 128 <==> n / 128 % 128 == 0 && n / 0x4000 % 128 == 0 && n / 0x20_0000 % 128 == 0
                         && n / 0x1000_0000 == 0
  {
    Digits(n);
  }

  lemma {:induction false} EncodedNat(n: nat)
    requires n < TWO_32
    ensures Encoded(FromNat(n)) == Digits128(n)
    decreases n
  {
    hide Encoded, FromNat, Rest, Small, Last, More;
    FirstDigit(n);
    EncodedStep(FromNat(n));
    if n >= 128 {
      EncodedNat(n / 128);
    }
  }

  /** The VarInt of any int: the digits of its value modulo 2^32. */
  lemma VarIntIs(n: int)
    ensures Encoded(ToInt32(n)) == Digits128(n % 0x1_0000_0000)
  {
    EncodedNat(n % TWO_32);
  }
}

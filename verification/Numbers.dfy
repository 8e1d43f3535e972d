/** Fixed-width integers as bytes (encoding/binary). */
module Numbers {
  import opened Bytes

  function Pow256(k: nat): (r: nat)
    ensures r >= 1
  {
    if k == 0 then 1 else 256 * Pow256(k - 1)
  }

  /** The k low bytes of n, lowest first. */
  function LittleEndian(n: nat, k: nat): (r: bytes)
    ensures |r| == k
  {
    if k == 0 then [] else [(n % 256) as byte] + LittleEndian(n / 256, k - 1)
  }

  function FromLittleEndian(b: bytes): nat {
    if b == [] then 0 else (b[0] as nat) + 256 * FromLittleEndian(b[1..])
  }

  /** The k low bytes of n, highest first. */
  function BigEndian(n: nat, k: nat): (r: bytes)
    ensures |r| == k
  {
    if k == 0 then [] else BigEndian(n / 256, k - 1) + [(n % 256) as byte]
  }

  function FromBigEndian(b: bytes): nat {
    if b == [] then 0 else 256 * FromBigEndian(b[..|b| - 1]) + (b[|b| - 1] as nat)
  }

  lemma DivBelow(n: nat, k: nat)
    requires k > 0 && n < Pow256(k)
    ensures n / 256 < Pow256(k - 1)
  {
  }

  lemma {:induction false} LittleEndianRoundTrip(n: nat, k: nat)
    requires n < Pow256(k)
    ensures FromLittleEndian(LittleEndian(n, k)) == n
  {
    if k > 0 {
      DivBelow(n, k);
      LittleEndianRoundTrip(n / 256, k - 1);
    }
  }

  lemma LowByte(low: nat, n: nat)
    requires low < 256
    ensures (low + 256 * n) % 256 == low && (low + 256 * n) / 256 == n
  {
  }

  lemma {:induction false} LittleEndianOnto(b: bytes)
    ensures FromLittleEndian(b) < Pow256(|b|)
    ensures LittleEndian(FromLittleEndian(b), |b|) == b
  {
    if b != [] {
      var first, rest := b[0], b[1..];
      LittleEndianOnto(rest);
      assert b == [first] + rest;
      LowByte(first as nat, FromLittleEndian(rest));
    }
  }

  lemma {:induction false} BigEndianRoundTrip(n: nat, k: nat)
    requires n < Pow256(k)
    ensures FromBigEndian(BigEndian(n, k)) == n
  {
    if k > 0 {
      DivBelow(n, k);
      BigEndianRoundTrip(n / 256, k - 1);
      assert BigEndian(n, k)[..k - 1] == BigEndian(n / 256, k - 1);
    }
  }

  lemma {:induction false} BigEndianOnto(b: bytes)
    ensures FromBigEndian(b) < Pow256(|b|)
    ensures BigEndian(FromBigEndian(b), |b|) == b
  {
    if b != [] {
      var front, last := b[..|b| - 1], b[|b| - 1];
      BigEndianOnto(front);
      var n := FromBigEndian(front);
      assert FromBigEndian(b) == 256 * n + last as nat;
      assert (256 * n + last as nat) / 256 == n && (256 * n + last as nat) % 256 == last as nat;
      assert b == front + [last];
    }
  }

  lemma Widths()
    ensures Pow256(1) == 0x100 && Pow256(2) == 0x1_0000
    ensures Pow256(4) == 0x1_0000_0000 && Pow256(8) == 0x1_0000_0000_0000_0000
  {
    assert Pow256(3) == 0x100_0000;
    assert Pow256(5) == 0x100_0000_0000;
    assert Pow256(6) == 0x1_0000_0000_0000;
    assert Pow256(7) == 0x100_0000_0000_0000;
  }

  // One, two and four bytes, highest first.

  lemma OneByte(n: nat)
    ensures n < 0x100 ==> BigEndian(n, 1) == [n as byte]
  {
    hide BigEndian;
    Last(n, 1);
  }

  lemma TwoBytes(n: nat)
    ensures n < 0x1_0000 ==> BigEndian(n, 2) == [(n / 256) as byte, (n % 256) as byte]
  {
    hide BigEndian;
    LastTwo(n, 2);
  }

  lemma FourBytes(n: nat)
    ensures BigEndian(n, 4) == BigEndian(n / 0x1_0000, 2) + BigEndian(n, 2)
  {
    hide BigEndian;
    LastTwo(n, 4);
    LastTwo(n, 2);
  }

  lemma Last(n: nat, w: nat)
    requires w > 0
    ensures BigEndian(n, w) == BigEndian(n / 256, w - 1) + [(n % 256) as byte]
    ensures BigEndian(n, 0) == []
    ensures n < 256 ==> n / 256 == 0 && n % 256 == n
  {
  }

  /** The last two of w bytes. */
  lemma LastTwo(n: nat, w: nat)
    requires w > 1
    ensures BigEndian(n, w) == BigEndian(n / 0x1_0000, w - 2) + [(n / 256 % 256) as byte, (n % 256) as byte]
    ensures BigEndian(n, 0) == []
  {
    hide BigEndian;
    Last(n, w);
    Last(n / 256, w - 1);
    assert n / 256 / 256 == n / 0x1_0000;
    var front := BigEndian(n / 0x1_0000, w - 2);
    assert front + [(n / 256 % 256) as byte] + [(n % 256) as byte]
        == front + [(n / 256 % 256) as byte, (n % 256) as byte];
  }
}

/** Typed items in a packet (common/mcprotocol/packet.go). */
module Items {
  import opened Bytes
  import opened Numbers
  import opened VarInt
  import opened VarIntDigits
  import opened Int32
  import opened Wrappers

  /** A value to write, or the value a Scan target was left with.  Fixed stands for the sized integer
      types: signed ones are carried as their two's complement bits. */
  datatype Item =
    | Bool(b: bool)
    | Fixed(width: nat, bits: nat)
    | Plain(i: int)      // Go's int, written as its 32 low bits
    | Var(v: bv32)
    | Text(s: bytes)

  /** The type of a Scan target. */
  datatype Kind = KBool | KFixed(width: nat) | KPlain | KVar | KText

  function KindOf(x: Item): Kind {
    match x
    case Bool(_) => KBool
    case Fixed(w, _) => KFixed(w)
    case Plain(_) => KPlain
    case Var(_) => KVar
    case Text(_) => KText
  }

  predicate IsWidth(w: nat) {
    w == 1 || w == 2 || w == 4 || w == 8
  }

  predicate IsKind(k: Kind) {
    k.KFixed? ==> IsWidth(k.width)
  }

  ghost predicate IsItem(x: Item) {
    && (x.Fixed? ==> IsWidth(x.width) && x.bits < Pow256(x.width))
    && (x.Text? ==> |x.s| < 0x8000_0000)
  }

  datatype Error = Eof | Limit | BadLength | ShortPacket | VarIntTooBig

  // ---------------------------------------------------------------- layout

  /** One case of WriteToPacket, packet.go:127-158. */
  function Encode(x: Item): bytes {
    match x
    case Bool(b) => [if b then 1 else 0]
    case Fixed(w, n) => BigEndian(n, w)
    case Plain(i) => BigEndian(i % TWO_32, 4)
    case Var(v) => Encoded(v)
    case Text(s) => Encoded(ToInt32(|s|)) + s
  }

  function EncodeAll(xs: seq<Item>): bytes {
    if xs == [] then [] else Encode(xs[0]) + EncodeAll(xs[1..])
  }

  function ScanFixed(b: bytes, w: nat): Result<(nat, bytes), Error> {
    if |b| < w then Err(if w == 1 then Eof else ShortPacket) else Ok((FromBigEndian(b[..w]), b[w..]))
  }

  function ScanVarInt(b: bytes): (r: Result<(bv32, bytes), Error>)
  {
    match ReadVarInt(b)
    case Done(v, n) => ReadWithin(b); Ok((v, b[n..]))
    case TooBig => Err(VarIntTooBig)
    case Short => Err(Eof)
  }

  lemma ReadWithin(b: bytes)
    ensures var r := ReadVarInt(b); r.Done? ==> 1 <= r.n <= 6 && r.n <= |b|
  {
    ReadEnds(b, 0, 0);
  }

  /** ReadLimitedString, packet.go:87-104. */
  function ScanText(b: bytes, limit: int): Result<(bytes, bytes), Error> {
    match ScanVarInt(b)
    case Err(e) => Err(e)
    case Ok((v, rest)) =>
      var n := Value(v);
      if n > limit then Err(Limit)
      else if n <= 0 then Err(BadLength)
      else if |rest| < n then Err(ShortPacket)
      else Ok((rest[..n], rest[n..]))
  }

  /** One case of Scan, packet.go:168-202. */
  function ScanOne(k: Kind, b: bytes): Result<(Item, bytes), Error> {
    match k
    case KBool =>
      if b == [] then Err(Eof) else Ok((Bool(b[0] == 1), b[1..]))
    case KFixed(w) =>
      (match ScanFixed(b, w) case Ok((n, rest)) => Ok((Fixed(w, n), rest)) case Err(e) => Err(e))
    case KPlain =>
      (match ScanFixed(b, 4) case Ok((n, rest)) => Ok((Plain(n), rest)) case Err(e) => Err(e))
    case KVar =>
      (match ScanVarInt(b) case Ok((v, rest)) => Ok((Var(v), rest)) case Err(e) => Err(e))
    case KText =>
      (match ScanText(b, 0x7FFF_FFFF) case Ok((s, rest)) => Ok((Text(s), rest)) case Err(e) => Err(e))
  }

  function ScanAll(ks: seq<Kind>, b: bytes): Result<(seq<Item>, bytes), Error> {
    if ks == [] then Ok(([], b))
    else match ScanOne(ks[0], b)
         case Err(e) => Err(e)
         case Ok((x, rest)) =>
           match ScanAll(ks[1..], rest)
           case Err(e) => Err(e)
           case Ok((xs, left)) => Ok(([x] + xs, left))
  }

  function KindsOf(xs: seq<Item>): (ks: seq<Kind>)
    ensures |ks| == |xs|
  {
    seq(|xs|, i requires 0 <= i < |xs| => KindOf(xs[i]))
  }

  // ---------------------------------------------------------------- round trip

  /** The items that come back as they went: no empty string, no int outside 32 unsigned bits. */
  predicate Invertible(x: Item) {
    && (x.Text? ==> x.s != [])
    && (x.Plain? ==> 0 <= x.i < TWO_32)
  }

  lemma BigEndianBack(n: nat, w: nat, more: bytes)
    requires n < Pow256(w)
    ensures ScanFixed(BigEndian(n, w) + more, w) == Ok((n, more))
  {
    BigEndianRoundTrip(n, w);
    assert (BigEndian(n, w) + more)[..w] == BigEndian(n, w);
    assert (BigEndian(n, w) + more)[w..] == more;
  }

  lemma VarIntBack(v: bv32, more: bytes)
    ensures ScanVarInt(Encoded(v) + more) == Ok((v, more))
  {
    ReadOfEncoded(v, more);
    assert (Encoded(v) + more)[|Encoded(v)|..] == more;
  }

  lemma TextBack(s: bytes, more: bytes, limit: int)
    requires |s| < 0x8000_0000
    ensures ScanText(Encode(Text(s)) + more, limit) ==
            if |s| > limit then Err(Limit) else if s == [] then Err(BadLength) else Ok((s, more))
  {
    hide ScanVarInt, Encoded, ToInt32, Value;
    assert Encode(Text(s)) + more == Encoded(ToInt32(|s|)) + (s + more);
    VarIntBack(ToInt32(|s|), s + more);
    ValueOfToInt32(|s|);
    assert (s + more)[..|s|] == s && (s + more)[|s|..] == more;
  }

  /** One item read back: the item itself exactly when it is invertible. */
  lemma OneBack(x: Item, more: bytes)
    requires IsItem(x)
    ensures Invertible(x) ==> ScanOne(KindOf(x), Encode(x) + more) == Ok((x, more))
    ensures !Invertible(x) ==> var r := ScanOne(KindOf(x), Encode(x) + more); r.Ok? ==> r.value.0 != x
  {
    hide ScanVarInt, ScanText, BigEndian, FromBigEndian;
    match x
    case Bool(b) => assert ([if b then 1 else 0] + more)[1..] == more;
    case Fixed(w, n) => BigEndianBack(n, w, more);
    case Plain(i) =>
      Widths();
      BigEndianBack(i % TWO_32, 4, more);
    case Var(v) => VarIntBack(v, more);
    case Text(s) => TextBack(s, more, 0x7FFF_FFFF);
  }

  /** A list written and scanned back comes back, leaving what follows, exactly when every item of
      it is invertible. */
  lemma {:induction false} AllBack(xs: seq<Item>, more: bytes)
    requires forall i :: 0 <= i < |xs| ==> IsItem(xs[i])
    ensures ScanAll(KindsOf(xs), EncodeAll(xs) + more) == Ok((xs, more)) <==>
            forall i :: 0 <= i < |xs| ==> Invertible(xs[i])
  {
    hide Encode, ScanOne, ScanAll, IsItem, Invertible;
    if xs == [] {
      assert EncodeAll(xs) + more == more;
      ScanNone(more);
    } else {
      var x, rest := xs[0], xs[1..];
      assert EncodeAll(xs) + more == Encode(x) + (EncodeAll(rest) + more);
      OneBack(x, EncodeAll(rest) + more);
      AllBack(rest, more);
      assert KindsOf(xs)[1..] == KindsOf(rest);
      assert xs == [x] + rest;
      InvertibleFirst(xs);
      ScanFirst(KindsOf(xs), EncodeAll(xs) + more, xs, more);
    }
  }

  /** Booleans and fixed-width numbers byte by byte, and a string behind its length. */
  lemma ItemBytes(n: nat, s: bytes)
    ensures Encode(Bool(true)) == [1] && Encode(Bool(false)) == [0]
    ensures n < 0x100 ==> Encode(Fixed(1, n)) == [n as byte]
    ensures n < 0x1_0000 ==> Encode(Fixed(2, n)) == [(n / 256) as byte, (n % 256) as byte]
    ensures Encode(Fixed(4, n)) == Encode(Fixed(2, n / 0x1_0000)) + Encode(Fixed(2, n))
    ensures |s| < 0x8000_0000 ==> Encode(Text(s)) == Digits128(|s|) + s
  {
    hide ToInt32, Encoded, BigEndian, Digits128;
    VarIntIs(|s|);
    OneByte(n);
    TwoBytes(n);
    FourBytes(n);
  }

  /** A boolean is true for the byte 1 only. */
  lemma BoolByte(b: bytes)
    requires b != []
    ensures ScanOne(KBool, b) == Ok((Bool(b[0] == 1), b[1..]))
  {
  }

  /** An int of -1 is written as four bytes 255 and comes back as 2^32 - 1. */
  lemma MinusOne()
    ensures EncodeAll([Plain(-1)]) == [255, 255, 255, 255]
    ensures ScanAll([KPlain], EncodeAll([Plain(-1)])) == Ok(([Plain(TWO_32 - 1)], []))
  {
    var b: bytes := [255, 255, 255, 255];
    assert BigEndian(TWO_32 - 1, 4) == b by {
      assert BigEndian(0xFF, 1) == [] + [255];
      assert BigEndian(0xFFFF, 2) == [255] + [255];
      assert BigEndian(0xFF_FFFF, 3) == [255, 255] + [255];
    }
    assert (-1) % TWO_32 == TWO_32 - 1;
    assert [Plain(-1)][1..] == [] && EncodeAll([Plain(-1)]) == b + [];
    Widths();
    BigEndianBack(TWO_32 - 1, 4, []);
    assert b + [] == b;
    ScanFirst([KPlain], b, [Plain(TWO_32 - 1)], []);
    ScanNone([]);
    assert [KPlain][1..] == [] && [Plain(TWO_32 - 1)][1..] == [];
    assert ScanOne(KPlain, b) == Ok((Plain(TWO_32 - 1), []));
  }

  lemma ScanNone(b: bytes)
    ensures ScanAll([], b) == Ok(([], b))
  {
  }

  /** A list is scanned as xs when its head is and the rest is. */
  lemma ScanFirst(ks: seq<Kind>, b: bytes, xs: seq<Item>, more: bytes)
    requires ks != [] && xs != []
    ensures ScanAll(ks, b) == Ok((xs, more)) <==>
            var r := ScanOne(ks[0], b);
            r.Ok? && r.value.0 == xs[0] && ScanAll(ks[1..], r.value.1) == Ok((xs[1..], more))
  {
    hide ScanOne;
    assert xs == [xs[0]] + xs[1..];
  }

  lemma InvertibleFirst(xs: seq<Item>)
    requires xs != []
    ensures (forall i :: 0 <= i < |xs| ==> Invertible(xs[i])) <==>
            Invertible(xs[0]) && forall i :: 0 <= i < |xs[1..]| ==> Invertible(xs[1..][i])
  {
    hide Invertible;
    assert forall i :: 0 < i < |xs| ==> xs[i] == xs[1..][i - 1];
  }
}

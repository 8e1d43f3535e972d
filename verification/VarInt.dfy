/** Minecraft VarInts (common/mcprotocol/varint.go).  An int32 is carried as its 32 bits; Int32 and
    Value relate the bits to Go's int. */
module VarInt {
  import opened Bytes

  const MAX_VARINT_LEN := 5

  // ---------------------------------------------------------------- bytes as bits

  function ToByte(x: bv8): byte {
    (x as int) as byte
  }

  function ToBits(b: byte): bv8 {
    b as bv8
  }

  lemma ByteBits(x: bv8)
    ensures ToBits(ToByte(x)) == x
  {
  }

  // ---------------------------------------------------------------- the simple encoding

  /** Seven bits a byte, lowest first, the top bit saying that more follow. */
  function Encoded(v: bv32): bytes
    decreases v
  {
    if v < 0x80 then [ToByte((v & 0x7F) as bv8)] else [ToByte(((v & 0x7F) | 0x80) as bv8)] + Encoded(v >> 7)
  }

  // The bytes of a word, lowest first.

  function Byte0(x: bv32): bv8 {
    (x & 0xFF) as bv8
  }

  function Byte1(x: bv32): bv8 {
    ((x >> 8) & 0xFF) as bv8
  }

  function Byte2(x: bv32): bv8 {
    ((x >> 16) & 0xFF) as bv8
  }

  function Byte3(x: bv32): bv8 {
    (x >> 24) as bv8
  }

  function Le16(x: bv16): (r: bytes)
    ensures |r| == 2
  {
    [ToByte(Byte0(x as bv32)), ToByte(Byte1(x as bv32))]
  }

  function Le32(x: bv32): (r: bytes)
    ensures |r| == 4
  {
    [ToByte(Byte0(x)), ToByte(Byte1(x)), ToByte(Byte2(x)), ToByte(Byte3(x))]
  }

  // The words PutVarInt packs groups into, varint.go:43-66.

  function Word2(num: bv32): bv16 {
    ((((num & 0x7F) | 0x80) | ((num >> 7) << 8)) & 0xFFFF) as bv16
  }

  function Word3(num: bv32): bv16 {
    ((((num & 0x7F) | 0x80) | ((((num >> 7) & 0x7F) | 0x80) << 8)) & 0xFFFF) as bv16
  }

  function Word4(num: bv32): bv32 {
    ((num & 0x7F) | 0x80) | ((((num >> 7) & 0x7F) | 0x80) << 8) | ((((num >> 14) & 0x7F) | 0x80) << 16)
    | ((num >> 21) << 24)
  }

  function Word5(num: bv32): bv32 {
    ((num & 0x7F) | 0x80) | ((((num >> 7) & 0x7F) | 0x80) << 8)
    | ((((num >> 14) & 0x7F) | 0x80) << 16) | ((((num >> 21) & 0x7F) | 0x80) << 24)
  }

  function Low8(num: bv32): byte {
    ToByte(Byte0(num))
  }

  /** The bytes the branches of PutVarInt write. */
  function Packed(num: bv32): bytes {
    if num & 0xFFFFFF80 == 0 then [Low8(num)]
    else if num & 0xFFFFC000 == 0 then Le16(Word2(num))
    else if num & 0xFFE00000 == 0 then Le16(Word3(num)) + [Low8(num >> 14)]
    else if num & 0xF0000000 == 0 then Le32(Word4(num))
    else Le32(Word5(num)) + [Low8(num >> 28)]
  }

  /** One byte of the simple encoding, when more bytes follow and when it is the last. */
  function MoreBits(v: bv32): bv8 {
    ((v & 0x7F) | 0x80) as bv8
  }

  function LastBits(v: bv32): bv8 {
    (v & 0x7F) as bv8
  }

  function More(v: bv32): byte {
    ToByte(MoreBits(v))
  }

  function Last(v: bv32): byte {
    ToByte(LastBits(v))
  }

  function Rest(v: bv32): bv32 {
    v >> 7
  }

  predicate Small(v: bv32) {
    v < 0x80
  }

  lemma EncodedStep(v: bv32)
    ensures Encoded(v) == if Small(v) then [Last(v)] else [More(v)] + Encoded(Rest(v))
  {
  }

  lemma EncodedRests(v: bv32)
    requires Small(Rest(Rest(Rest(Rest(v)))))
    ensures Encoded(v) ==
            var v1 := Rest(v); var v2 := Rest(v1); var v3 := Rest(v2);
            if Small(v) then [Last(v)]
            else if Small(v1) then [More(v), Last(v1)]
            else if Small(v2) then [More(v), More(v1), Last(v2)]
            else if Small(v3) then [More(v), More(v1), More(v2), Last(v3)]
            else [More(v), More(v1), More(v2), More(v3), Last(Rest(v3))]
  {
    hide Encoded, More, Last, Rest, Small;
    EncodedStep(v);
    EncodedStep(Rest(v));
    EncodedStep(Rest(Rest(v)));
    EncodedStep(Rest(Rest(Rest(v))));
    EncodedStep(Rest(Rest(Rest(Rest(v)))));
  }

  lemma RestsAre(v: bv32)
    ensures Rest(v) == v >> 7 && Rest(Rest(v)) == v >> 14
    ensures Rest(Rest(Rest(v))) == v >> 21 && Rest(Rest(Rest(Rest(v)))) == v >> 28
    ensures Small(v) <==> v < 0x80
    ensures Small(v >> 7) <==> v < 0x4000
    ensures Small(v >> 14) <==> v < 0x20_0000
    ensures Small(v >> 21) <==> v < 0x1000_0000
    ensures Small(v >> 28)
  {
  }

  lemma EncodedBytes(v: bv32)
    ensures Encoded(v) ==
            if v < 0x80 then [Last(v)]
            else if v < 0x4000 then [More(v), Last(v >> 7)]
            else if v < 0x20_0000 then [More(v), More(v >> 7), Last(v >> 14)]
            else if v < 0x1000_0000 then [More(v), More(v >> 7), More(v >> 14), Last(v >> 21)]
            else [More(v), More(v >> 7), More(v >> 14), More(v >> 21), Last(v >> 28)]
  {
    hide Encoded, More, Last, Rest, Small;
    RestsAre(v);
    EncodedRests(v);
  }

  lemma Low8Is(num: bv32)
    requires num < 0x80
    ensures Byte0(num) == LastBits(num)
  {
  }

  lemma Word2Bytes(num: bv32)
    requires 0x80 <= num < 0x4000
    ensures Byte0(Word2(num) as bv32) == MoreBits(num) && Byte1(Word2(num) as bv32) == LastBits(num >> 7)
  {
  }

  lemma Word3Bytes(num: bv32)
    requires 0x4000 <= num < 0x20_0000
    ensures Byte0(Word3(num) as bv32) == MoreBits(num) && Byte1(Word3(num) as bv32) == MoreBits(num >> 7)
    ensures num >> 14 < 0x80
  {
  }

  lemma Word4Bytes(num: bv32)
    requires 0x20_0000 <= num < 0x1000_0000
    ensures Byte0(Word4(num)) == MoreBits(num) && Byte1(Word4(num)) == MoreBits(num >> 7)
    ensures Byte2(Word4(num)) == MoreBits(num >> 14) && Byte3(Word4(num)) == LastBits(num >> 21)
  {
  }

  lemma Word5Bytes(num: bv32)
    requires 0x1000_0000 <= num
    ensures Byte0(Word5(num)) == MoreBits(num) && Byte1(Word5(num)) == MoreBits(num >> 7)
    ensures Byte2(Word5(num)) == MoreBits(num >> 14) && Byte3(Word5(num)) == MoreBits(num >> 21)
    ensures num >> 28 < 0x80
  {
  }

  lemma PackedBytes(num: bv32)
    ensures Packed(num) ==
            if num < 0x80 then [Last(num)]
            else if num < 0x4000 then [More(num), Last(num >> 7)]
            else if num < 0x20_0000 then [More(num), More(num >> 7), Last(num >> 14)]
            else if num < 0x1000_0000 then [More(num), More(num >> 7), More(num >> 14), Last(num >> 21)]
            else [More(num), More(num >> 7), More(num >> 14), More(num >> 21), Last(num >> 28)]
  {
    hide ToByte, Word2, Word3, Word4, Word5, Byte0, Byte1, Byte2, Byte3, MoreBits, LastBits;
    Branches(num);
    if num < 0x80 {
      Low8Is(num);
    } else if num < 0x4000 {
      Word2Bytes(num);
    } else if num < 0x20_0000 {
      Word3Bytes(num);
      Low8Is(num >> 14);
    } else if num < 0x1000_0000 {
      Word4Bytes(num);
    } else {
      Word5Bytes(num);
      Low8Is(num >> 28);
    }
  }

  /** The packed branches write the simple encoding. */
  lemma PackedIsEncoded(num: bv32)
    ensures Packed(num) == Encoded(num)
  {
    hide Encoded, Packed, More, Last;
    EncodedBytes(num);
    PackedBytes(num);
  }

  lemma Branches(num: bv32)
    ensures num & 0xFFFFFF80 == 0 <==> num < 0x80
    ensures num & 0xFFFFC000 == 0 <==> num < 0x4000
    ensures num & 0xFFE00000 == 0 <==> num < 0x20_0000
    ensures num & 0xF0000000 == 0 <==> num < 0x1000_0000
  {
  }

  /** PutVarInt, varint.go:40-67, into bs from index at on. */
  method PutVarInt(bs: array<byte>, at: nat, num: bv32) returns (numWrite: nat)
    requires at + |Encoded(num)| <= bs.Length
    modifies bs
    ensures numWrite == |Encoded(num)|
    ensures bs[at..at + numWrite] == Encoded(num)
    ensures bs[..at] == old(bs[..at]) && bs[at + numWrite..] == old(bs[at + numWrite..])
  {
    hide Encoded, Le16, Le32, Word2, Word3, Word4, Word5, Low8;
    PackedIsEncoded(num);
    if num & 0xFFFFFF80 == 0 {
      bs[at] := Low8(num);
      numWrite := 1;
    } else if num & 0xFFFFC000 == 0 {
      Put(bs, at, Le16(Word2(num)));
      numWrite := 2;
    } else if num & 0xFFE00000 == 0 {
      bs[at + 2] := Low8(num >> 14);
      Put(bs, at, Le16(Word3(num)));
      numWrite := 3;
    } else if num & 0xF0000000 == 0 {
      Put(bs, at, Le32(Word4(num)));
      numWrite := 4;
    } else {
      bs[at + 4] := Low8(num >> 28);
      Put(bs, at, Le32(Word5(num)));
      numWrite := 5;
    }
  }

  /** binary.LittleEndian.PutUint16 and PutUint32 on a slice. */
  method Put(bs: array<byte>, at: nat, b: bytes)
    requires at + |b| <= bs.Length
    modifies bs
    ensures forall i :: 0 <= i < bs.Length ==> bs[i] == if at <= i < at + |b| then b[i - at] else old(bs[i])
  {
    forall i | 0 <= i < |b| {
      bs[at + i] := b[i];
    }
  }

  /** VarIntLen, varint.go:69-84; an int32 is negative when its top bit is set. */
  function VarIntLen(n: bv32): nat {
    if n >= 0x8000_0000 then 5
    else if n < 0x80 then 1
    else if n < 0x4000 then 2
    else if n < 0x20_0000 then 3
    else if n < 0x1000_0000 then 4
    else 5
  }

  lemma VarIntLenIs(n: bv32)
    ensures VarIntLen(n) == |Encoded(n)| && 1 <= |Encoded(n)| <= MAX_VARINT_LEN
  {
    hide Encoded, More, Last;
    EncodedBytes(n);
  }

  // ---------------------------------------------------------------- reading

  datatype ReadResult = Done(v: bv32, n: nat) | TooBig | Short

  /** x << 7 * n on a uint32: a shift of 35 leaves nothing. */
  function ShiftUp(x: bv32, n: nat): bv32
    requires n <= 5
  {
    if n == 0 then x else if n == 1 then x << 7 else if n == 2 then x << 14
    else if n == 3 then x << 21 else if n == 4 then x << 28 else 0
  }

  /** The loop of ReadVarIntFrom, varint.go:86-104, on the bytes it would read, before byte n. */
  function ReadOn(b: bytes, n: nat, v: bv32): ReadResult
    decreases |b|
  {
    if n > MAX_VARINT_LEN then TooBig
    else if b == [] then Short
    else
      var sec := ToBits(b[0]);
      var v' := v | ShiftUp((sec & 0x7F) as bv32, n);
      if sec & 0x80 != 0 then ReadOn(b[1..], n + 1, v') else Done(v', n + 1)
  }

  function ReadVarInt(b: bytes): ReadResult {
    ReadOn(b, 0, 0)
  }

  /** u has at most 32 - 7n bits. */
  predicate FitsFrom(u: bv32, n: nat) {
    n == 0 || (n == 1 && u < 0x200_0000) || (n == 2 && u < 0x4_0000) || (n == 3 && u < 0x800) || (n == 4 && u < 0x10)
  }

  /** The seven bits a byte carries, and whether more follow. */
  function Carried(b: byte): bv32 {
    (ToBits(b) & 0x7F) as bv32
  }

  predicate Follows(b: byte) {
    ToBits(b) & 0x80 != 0
  }

  lemma LastCarries(u: bv32)
    ensures Carried(Last(u)) == u & 0x7F && !Follows(Last(u))
  {
    ByteBits((u & 0x7F) as bv8);
    hide ToBits, ToByte;
  }

  lemma MoreCarries(u: bv32)
    ensures Carried(More(u)) == u & 0x7F && Follows(More(u))
  {
    ByteBits(((u & 0x7F) | 0x80) as bv8);
    hide ToBits, ToByte;
  }

  lemma SmallFits(u: bv32, n: nat, x: bv32)
    requires FitsFrom(u, n) && u < 0x80 && x == u & 0x7F
    ensures n <= 4 && ShiftUp(x, n) == ShiftUp(u, n)
  {
  }

  lemma RestFits(u: bv32, n: nat)
    requires FitsFrom(u, n) && u >= 0x80
    ensures n < 4 && FitsFrom(Rest(u), n + 1)
  {
  }

  /** A group and the rest shifted above it make up the whole. */
  function Or(a: bv32, b: bv32): bv32 {
    a | b
  }

  lemma OrAssociates(a: bv32, b: bv32, c: bv32)
    ensures Or(Or(a, b), c) == Or(a, Or(b, c))
  {
  }

  lemma ReadStep(b: bytes, n: nat, v: bv32)
    requires n <= MAX_VARINT_LEN && b != []
    ensures ReadOn(b, n, v) ==
            var v' := Or(v, ShiftUp(Carried(b[0]), n));
            if Follows(b[0]) then ReadOn(b[1..], n + 1, v') else Done(v', n + 1)
  {
    hide ToBits, ShiftUp;
  }

  lemma {:induction false} ReadOnEncoded(u: bv32, n: nat, acc: bv32, more: bytes)
    requires FitsFrom(u, n)
    ensures n <= 4 && ReadOn(Encoded(u) + more, n, acc) == Done(Or(acc, ShiftUp(u, n)), n + |Encoded(u)|)
    decreases u
  {
    EncodedStep(u);
    RestSmaller(u);
    hide Carried, Follows, More, Last, ShiftUp, ReadOn, Encoded, Or, Rest;
    var b := Encoded(u) + more;
    if u < 0x80 {
      assert b[0] == Last(u);
      LastCarries(u);
      SmallFits(u, n, Carried(Last(u)));
      ReadStep(b, n, acc);
    } else {
      assert b[0] == More(u) && b[1..] == Encoded(Rest(u)) + more;
      MoreCarries(u);
      RestFits(u, n);
      var x := Carried(More(u));
      ReadStep(b, n, acc);
      ReadOnEncoded(Rest(u), n + 1, Or(acc, ShiftUp(x, n)), more);
      OrAssociates(acc, ShiftUp(x, n), ShiftUp(Rest(u), n + 1));
      Joined(u, n, x);
    }
  }

  lemma Joined0(u: bv32, x: bv32)
    requires x == u & 0x7F
    ensures Or(ShiftUp(x, 0), ShiftUp(Rest(u), 1)) == ShiftUp(u, 0)
  {
  }

  lemma Joined1(u: bv32, x: bv32)
    requires x == u & 0x7F
    ensures Or(ShiftUp(x, 1), ShiftUp(Rest(u), 2)) == ShiftUp(u, 1)
  {
  }

  lemma Joined2(u: bv32, x: bv32)
    requires x == u & 0x7F
    ensures Or(ShiftUp(x, 2), ShiftUp(Rest(u), 3)) == ShiftUp(u, 2)
  {
  }

  lemma Joined3(u: bv32, x: bv32)
    requires x == u & 0x7F
    ensures Or(ShiftUp(x, 3), ShiftUp(Rest(u), 4)) == ShiftUp(u, 3)
  {
  }

  /** A group and the rest shifted above it make up the whole. */
  lemma Joined(u: bv32, n: nat, x: bv32)
    requires n < 4 && x == u & 0x7F
    ensures Or(ShiftUp(x, n), ShiftUp(Rest(u), n + 1)) == ShiftUp(u, n)
  {
    hide Or, ShiftUp, Rest;
    if n == 0 {
      Joined0(u, x);
    } else if n == 1 {
      Joined1(u, x);
    } else if n == 2 {
      Joined2(u, x);
    } else {
      Joined3(u, x);
    }
  }

  lemma RestSmaller(u: bv32)
    ensures u >= 0x80 ==> Rest(u) < u
    ensures Small(u) <==> u < 0x80
  {
  }

  /** Reading an encoded number gives it back and leaves exactly the bytes after it. */
  lemma ReadOfEncoded(v: bv32, more: bytes)
    ensures ReadVarInt(Encoded(v) + more) == Done(v, |Encoded(v)|)
  {
    ReadOnEncoded(v, 0, 0, more);
    OrZero(v);
  }

  lemma OrZero(v: bv32)
    ensures 0 | v == v
  {
  }

  /** How many bytes at the front say that more follow. */
  function Lead(b: bytes): (l: nat)
    ensures l <= |b|
  {
    if b == [] || !Follows(b[0]) then 0 else 1 + Lead(b[1..])
  }

  /** How a read ends: after the first byte that says so, when at most five others precede it.  So a
      sixth byte is accepted, one more than any encoding has. */
  lemma {:induction false} ReadEnds(b: bytes, n: nat, v: bv32)
    requires n <= 6
    ensures var r := ReadOn(b, n, v);
            if n + Lead(b) > MAX_VARINT_LEN then r == TooBig
            else if Lead(b) == |b| then r == Short
            else r.Done? && r.n == n + Lead(b) + 1
    decreases |b|
  {
    hide Carried, Follows, ShiftUp, Or;
    if n <= MAX_VARINT_LEN && b != [] {
      ReadStep(b, n, v);
      if Follows(b[0]) {
        ReadEnds(b[1..], n + 1, Or(v, ShiftUp(Carried(b[0]), n)));
      }
    }
  }

  // ---------------------------------------------------------------- the loop, whatever is read from

  /** The loop has read n bytes of b into v. */
  ghost predicate Reading(b: bytes, n: nat, v: bv32) {
    n <= 6 && n <= |b| && ReadOn(b[n..], n, v) == ReadVarInt(b)
  }

  /** v |= uint32(sec & 0x7F) << uint32(7 * n) */
  function Added(v: bv32, sec: byte, n: nat): bv32
    requires n <= MAX_VARINT_LEN
  {
    Or(v, ShiftUp(Carried(sec), n))
  }

  lemma ReadingStarts(b: bytes)
    ensures Reading(b, 0, 0)
  {
    assert b[0..] == b;
  }

  /** One turn of the loop. */
  lemma ReadTurn(b: bytes, n: nat, v: bv32)
    requires Reading(b, n, v)
    ensures n > MAX_VARINT_LEN ==> ReadVarInt(b) == TooBig
    ensures n <= MAX_VARINT_LEN && n == |b| ==> ReadVarInt(b) == Short
    ensures n <= MAX_VARINT_LEN && n < |b| ==>
              if Follows(b[n]) then Reading(b, n + 1, Added(v, b[n], n))
              else ReadVarInt(b) == Done(Added(v, b[n], n), n + 1)
  {
    hide Carried, Follows, ShiftUp, Or;
    if n <= MAX_VARINT_LEN && n < |b| {
      ReadStep(b[n..], n, v);
      assert b[n..][0] == b[n] && b[n..][1..] == b[n + 1..];
    }
  }

  /** Five bytes that go on and a zero are read as a number. */
  lemma SixBytes()
    ensures var b: bytes := [0x80, 0x80, 0x80, 0x80, 0x80, 0];
            ReadVarInt(b).Done? && ReadVarInt(b).n == MAX_VARINT_LEN + 1
  {
    hide ReadOn;
    var b: bytes := [0x80, 0x80, 0x80, 0x80, 0x80, 0];
    FollowsHighBit();
    assert b[1..][1..][1..][1..][1..] == [0];
    assert Lead(b) == 5 by {
      LeadStep(b);
      LeadStep(b[1..]);
      LeadStep(b[1..][1..]);
      LeadStep(b[1..][1..][1..]);
      LeadStep(b[1..][1..][1..][1..]);
      LeadStep(b[1..][1..][1..][1..][1..]);
    }
    ReadEnds(b, 0, 0);
  }

  lemma LeadStep(b: bytes)
    requires b != []
    ensures Lead(b) == if Follows(b[0]) then 1 + Lead(b[1..]) else 0
  {
  }

  lemma FollowsHighBit()
    ensures Follows(0x80) && !Follows(0)
  {
  }
}

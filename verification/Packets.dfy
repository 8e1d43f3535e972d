/** Items and packets on buffers and connections (common/mcprotocol/packet.go, conn.go). */
module Packets {
  import opened Bytes
  import opened Numbers
  import opened VarInt
  import opened Int32
  import opened Buffers
  import opened Items
  import opened Wrappers

  // ---------------------------------------------------------------- items on a buffer

  /** binary.BigEndian.PutUint16 and its like on the slice Extend returned. */
  method PutAt(buffer: Buffer, at: nat, b: bytes)
    requires buffer.Valid() && at + |b| == buffer.end
    modifies buffer.data
    ensures buffer.data[..buffer.end] == old(buffer.data[..at]) + b
  {
    forall i | 0 <= i < |b| {
      buffer.data[at + i] := b[i];
    }
  }

  /** VarInt.WriteToBuffer, varint.go:33-36. */
  method WriteVarInt(buffer: Buffer, v: bv32)
    requires buffer.Valid() && buffer.end + |Encoded(v)| <= buffer.data.Length
    modifies buffer`end, buffer.data
    ensures buffer.Valid() && buffer.end == old(buffer.end) + |Encoded(v)|
    ensures buffer.data[..buffer.end] == old(buffer.data[..buffer.end]) + Encoded(v)
  {
    hide Encoded, VarIntLen;
    VarIntLenIs(v);
    ghost var before := buffer.data[..buffer.end];
    var at := buffer.Extend(VarIntLen(v));
    var n := PutVarInt(buffer.data, at, v);
    assert buffer.data[..buffer.end] == buffer.data[..at] + buffer.data[at..at + n];
  }

  /** WriteToPacket, packet.go:126-165, into a buffer with room for the items. */
  method WriteToPacket(buffer: Buffer, xs: seq<Item>)
    requires buffer.Valid() && buffer.end + |EncodeAll(xs)| <= buffer.data.Length
    requires forall i :: 0 <= i < |xs| ==> IsItem(xs[i])
    modifies buffer`end, buffer.data
    ensures buffer.Valid() && buffer.end == old(buffer.end) + |EncodeAll(xs)|
    ensures buffer.data[..buffer.end] == old(buffer.data[..buffer.end]) + EncodeAll(xs)
  {
    hide Encoded, EncodeAll, Encode, IsItem;
    ghost var before := buffer.data[..buffer.end];
    assert xs[..0] == [] && EncodeAll([]) == [] by { EncodeNone(); }
    for k := 0 to |xs|
      invariant buffer.Valid() && buffer.end == |before| + |EncodeAll(xs[..k])|
      invariant buffer.data[..buffer.end] == before + EncodeAll(xs[..k])
    {
      EncodeSnoc(xs[..k], xs[k]);
      assert xs[..k + 1] == xs[..k] + [xs[k]];
      EncodeFront(xs, k + 1);
      WriteItem(buffer, xs[k]);
      assert before + EncodeAll(xs[..k]) + Encode(xs[k]) == before + EncodeAll(xs[..k + 1]);
    }
    assert xs[..|xs|] == xs;
  }

  lemma EncodeNone()
    ensures EncodeAll([]) == []
  {
  }

  lemma {:induction false} EncodeSnoc(xs: seq<Item>, x: Item)
    ensures EncodeAll(xs + [x]) == EncodeAll(xs) + Encode(x)
  {
    hide Encode;
    if xs == [] {
      assert xs + [x] == [x];
    } else {
      EncodeSnoc(xs[1..], x);
      assert (xs + [x])[1..] == xs[1..] + [x];
    }
  }

  lemma {:induction false} EncodeFront(xs: seq<Item>, n: nat)
    requires n <= |xs|
    ensures |EncodeAll(xs[..n])| <= |EncodeAll(xs)|
    decreases |xs| - n
  {
    hide Encode;
    if n == |xs| {
      assert xs[..n] == xs;
    } else {
      EncodeFront(xs, n + 1);
      EncodeSnoc(xs[..n], xs[n]);
      assert xs[..n + 1] == xs[..n] + [xs[n]];
    }
  }

  method WriteItem(buffer: Buffer, x: Item)
    requires buffer.Valid() && IsItem(x) && buffer.end + |Encode(x)| <= buffer.data.Length
    modifies buffer`end, buffer.data
    ensures buffer.Valid() && buffer.end == old(buffer.end) + |Encode(x)|
    ensures buffer.data[..buffer.end] == old(buffer.data[..buffer.end]) + Encode(x)
  {
    hide Encoded, BigEndian;
    match x
    case Bool(b) =>
      var _ := buffer.WriteByte(if b then 1 else 0);
    case Fixed(w, n) =>
      var at := buffer.Extend(w);
      PutAt(buffer, at, BigEndian(n, w));
    case Plain(i) =>
      var at := buffer.Extend(4);
      PutAt(buffer, at, BigEndian(i % TWO_32, 4));
    case Var(v) =>
      WriteVarInt(buffer, v);
    case Text(s) =>
      WriteString(buffer, s);
  }

  /** WriteString, packet.go: the length as a VarInt and the bytes. */
  method WriteString(buffer: Buffer, s: bytes)
    requires buffer.Valid() && buffer.end + |Encode(Text(s))| <= buffer.data.Length
    modifies buffer`end, buffer.data
    ensures buffer.Valid() && buffer.end == old(buffer.end) + |Encode(Text(s))|
    ensures buffer.data[..buffer.end] == old(buffer.data[..buffer.end]) + Encode(Text(s))
  {
    hide Encoded, ToInt32;
    WriteVarInt(buffer, ToInt32(|s|));
    var n, _ := buffer.Write(s);
    assert s[..n] == s;
    assert old(buffer.data[..buffer.end]) + Encoded(ToInt32(|s|)) + s ==
           old(buffer.data[..buffer.end]) + (Encoded(ToInt32(|s|)) + s);
  }

  /** ReadVarIntFrom on a buffer: the loop of varint.go:86-104. */
  method ReadVarIntFrom(buffer: Buffer) returns (r: ReadResult)
    requires buffer.Valid()
    modifies buffer`start
    ensures r == ReadVarInt(old(buffer.Contents()))
    ensures buffer.Valid() && old(buffer.start) <= buffer.start
    ensures r.Done? ==> r.n <= |old(buffer.Contents())| && buffer.Contents() == old(buffer.Contents())[r.n..]
  {
    hide Reading, ReadVarInt, Added, Follows;
    var v: bv32 := 0;
    var n := 0;
    ghost var b := buffer.Contents();
    ReadingStarts(b);
    while true
      invariant 0 <= n <= 6 && buffer.Valid() && buffer.start == old(buffer.start) + n <= old(buffer.start) + |b|
      invariant Reading(b, n, v)
      decreases 6 - n
    {
      ReadTurn(b, n, v);
      if n > MAX_VARINT_LEN {
        return TooBig;
      }
      var sec, err := buffer.ReadByte();
      if err.Some? {
        return Short;
      }
      v, n := Added(v, sec, n), n + 1;
      if !Follows(sec) {
        return Done(v, n);
      }
    }
  }

  /** One target of Scan, packet.go:167-206. */
  method ScanItem(buffer: Buffer, k: Kind) returns (r: Result<Item, Items.Error>)
    requires buffer.Valid() && IsKind(k)
    modifies buffer`start
    ensures buffer.Valid() && old(buffer.start) <= buffer.start
    ensures match ScanOne(k, old(buffer.Contents())) {
              case Ok((x, rest)) => r == Ok(x) && buffer.Contents() == rest
              case Err(e) => r == Err(e)
            }
  {
    hide ReadOn, FromBigEndian, Value;
    ghost var b := buffer.Contents();
    match k
    case KBool =>
      var c, err := buffer.ReadByte();
      if err.Some? {
        return Err(Eof);
      }
      assert buffer.Contents() == b[1..];
      r := Ok(Bool(c == 1));
    case KFixed(w) =>
      var n := ScanBytes(buffer, w);
      r := match n case Ok(v) => Ok(Fixed(w, v)) case Err(e) => Err(e);
    case KPlain =>
      var n := ScanBytes(buffer, 4);
      r := match n case Ok(v) => Ok(Plain(v)) case Err(e) => Err(e);
    case KVar =>
      var v := ReadVarIntFrom(buffer);
      r := match v case Done(x, _) => Ok(Var(x)) case TooBig => Err(VarIntTooBig) case Short => Err(Eof);
    case KText =>
      var s := ReadLimitedString(buffer, 0x7FFF_FFFF);
      r := match s case Ok(t) => Ok(Text(t)) case Err(e) => Err(e);
  }

  method ScanBytes(buffer: Buffer, w: nat) returns (r: Result<nat, Items.Error>)
    requires buffer.Valid()
    modifies buffer`start
    ensures buffer.Valid() && old(buffer.start) <= buffer.start
    ensures match ScanFixed(old(buffer.Contents()), w) {
              case Ok((n, rest)) => r == Ok(n) && buffer.Contents() == rest
              case Err(e) => r == Err(e)
            }
  {
    ghost var b := buffer.Contents();
    var p, err := buffer.Peek(w);
    if err.Some? {
      return Err(if w == 1 then Eof else ShortPacket);
    }
    SlicedArray(buffer.data, buffer.start - w, buffer.end, w);
    r := Ok(FromBigEndian(p));
  }

  /** ReadLimitedString, packet.go:87-104. */
  method ReadLimitedString(buffer: Buffer, limit: int) returns (r: Result<bytes, Items.Error>)
    requires buffer.Valid()
    modifies buffer`start
    ensures buffer.Valid() && old(buffer.start) <= buffer.start
    ensures match ScanText(old(buffer.Contents()), limit) {
              case Ok((s, rest)) => r == Ok(s) && buffer.Contents() == rest
              case Err(e) => r == Err(e)
            }
  {
    hide ReadOn, Value;
    var v := ReadVarIntFrom(buffer);
    if v.TooBig? {
      return Err(VarIntTooBig);
    }
    if v.Short? {
      return Err(Eof);
    }
    ghost var rest := buffer.Contents();
    var n := Value(v.v);
    if n > limit {
      return Err(Limit);
    }
    if n <= 0 {
      return Err(BadLength);
    }
    var p, err := buffer.Peek(n);
    if err.Some? {
      return Err(ShortPacket);
    }
    SlicedArray(buffer.data, buffer.start - n, buffer.end, n);
    r := Ok(p);
  }

  /** Scan over a list of targets. */
  method Scan(buffer: Buffer, ks: seq<Kind>) returns (r: Result<seq<Item>, Items.Error>)
    requires buffer.Valid() && forall i :: 0 <= i < |ks| ==> IsKind(ks[i])
    modifies buffer`start
    ensures buffer.Valid()
    ensures match ScanAll(ks, old(buffer.Contents())) {
              case Ok((xs, rest)) => r == Ok(xs) && buffer.Contents() == rest
              case Err(e) => r == Err(e)
            }
  {
    hide ScanOne, IsKind;
    ghost var b := buffer.Contents();
    var xs: seq<Item> := [];
    assert ks[0..] == ks && forall ys: seq<Item> :: [] + ys == ys;
    for i := 0 to |ks|
      invariant buffer.Valid()
      invariant match ScanAll(ks[i..], buffer.Contents()) {
                  case Ok((ys, rest)) => ScanAll(ks, b) == Ok((xs + ys, rest))
                  case Err(e) => ScanAll(ks, b) == Err(e)
                }
    {
      assert ks[i..][0] == ks[i] && ks[i..][1..] == ks[i + 1..];
      ghost var was := xs;
      var x := ScanItem(buffer, ks[i]);
      if x.Err? {
        return Err(x.error);
      }
      xs := xs + [x.value];
      assert forall ys: seq<Item> :: was + ([x.value] + ys) == xs + ys;
    }
    assert ks[|ks|..] == [] && xs + [] == xs;
    r := Ok(xs);
  }
}

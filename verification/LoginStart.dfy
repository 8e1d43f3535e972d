/** The Login Start packet (protocol/minecraft/sniff.go:94-164), whose layout depends on the protocol
    version. */
module LoginStart {
  import opened Bytes
  import opened VarInt
  import opened Int32
  import opened Buffers
  import opened Items
  import opened Packets
  import opened Sniff
  import opened Wrappers

  const MAX_NAME := 16
  const VERSION_1_19 := 759
  const VERSION_1_19_3 := 761
  const VERSION_1_20_2 := 764

  datatype Login = Login(name: bytes, uuid: Uuid)

  // ---------------------------------------------------------------- meaning

  /** The player's name and the bytes after it, sniff.go:110-121. */
  function AfterName(c: bytes): (r: Result<(bytes, bytes), Failure>)
    ensures r.Ok? ==> 1 <= |r.value.0| <= MAX_NAME && |r.value.1| < |c|
  {
    if c == [] then Err(ReadFailed)
    else if c[0] != 0 then Err(BadPacket)
    else match ScanText(c[1..], MAX_NAME)
         case Err(_) => Err(ReadFailed)
         case Ok((name, rest)) => TextWithin(c[1..], MAX_NAME); Ok((name, rest))
  }

  lemma TextWithin(b: bytes, limit: int)
    ensures match ScanText(b, limit) {
              case Ok((s, rest)) => 1 <= |s| <= limit && |rest| <= |b|
              case Err(_) => true
            }
  {
    hide ReadVarInt, Value;
    ReadWithin(b);
  }

  /** copy(UUID[:], b) */
  function Overlaid(uuid: Uuid, b: bytes): Uuid {
    if |b| >= 16 then b[..16] else b + uuid[|b|..]
  }

  /** The cursor after a move by n, which may leave the packet: the next byte is then out of range. */
  function Moved(c: bytes, pos: nat, n: int): (r: Result<nat, Failure>)
    ensures r.Ok? ==> r.value <= |c|
  {
    if 0 <= pos + n <= |c| then Ok(pos + n) else Err(Overran)
  }

  /** Over a length and as many bytes; the length is not checked, and may be negative. */
  function OverField(c: bytes, pos: nat): (r: Result<nat, Failure>)
    requires pos <= |c|
    ensures r.Ok? ==> r.value <= |c|
  {
    match ReadVarInt(c[pos..])
    case Done(v, n) => Moved(c, pos + n, Value(v))
    case TooBig => Err(ReadFailed)
    case Short => Err(ReadFailed)
  }

  /** Over the timestamp, the public key and the signature, sniff.go:140-156. */
  function OverSignature(c: bytes, pos: nat): (r: Result<nat, Failure>)
    requires pos <= |c|
    ensures r.Ok? ==> r.value <= |c|
  {
    match Moved(c, pos, 8)
    case Err(f) => Err(f)
    case Ok(p) =>
      match OverField(c, p)
      case Err(f) => Err(f)
      case Ok(q) => OverField(c, q)
  }

  /** The UUID after a flag that may be missing, sniff.go:157-163. */
  function FlaggedUuid(rest: bytes, uuid: Uuid): Uuid {
    if rest != [] && rest[0] == 1 then Overlaid(uuid, rest[1..]) else uuid
  }

  /** What the packet says of the UUID from pos on, sniff.go:122-164. */
  function UuidAt(c: bytes, pos: nat, version: nat, uuid: Uuid): Result<Uuid, Failure>
    requires pos <= |c|
  {
    var rest := c[pos..];
    if version >= VERSION_1_20_2 then Ok(if |rest| == 16 then rest else uuid)
    else if version < VERSION_1_19 then Ok(uuid)
    else if rest == [] then Err(ReadFailed)
    else if version >= VERSION_1_19_3 then Ok(FlaggedUuid(rest, uuid))
    else if rest[0] != 1 then Ok(FlaggedUuid(rest[1..], uuid))
    else match OverSignature(c, pos + 1)
         case Err(f) => Err(f)
         case Ok(p) => Ok(FlaggedUuid(c[p..], uuid))
  }

  function ParseLogin(c: bytes, version: nat, uuid: Uuid): Result<Login, Failure> {
    match AfterName(c)
    case Err(f) => Err(f)
    case Ok((name, rest)) =>
      match UuidAt(c, |c| - |rest|, version, uuid)
      case Err(f) => Err(f)
      case Ok(u) => Ok(Login(name, u))
  }

  // ---------------------------------------------------------------- the code

  /** Buffer.Advance, buffer.go:67-69, and the byte read after it: it goes through while the cursor
      stays in the packet. */
  method Advance(buffer: Buffer, n: int) returns (r: Result<(), Failure>)
    requires buffer.Valid() && buffer.end == buffer.data.Length
    modifies buffer`start
    ensures match Moved(buffer.data[..], old(buffer.start), n) {
              case Ok(p) => r == Ok(()) && buffer.start == p && buffer.Valid()
              case Err(f) => r == Err(f)
            }
  {
    if 0 <= buffer.start + n <= buffer.end {
      buffer.start := buffer.start + n;
      return Ok(());
    }
    r := Err(Overran);
  }

  method AdvanceField(buffer: Buffer) returns (r: Result<(), Failure>)
    requires buffer.Valid() && buffer.end == buffer.data.Length
    modifies buffer`start
    ensures match OverField(buffer.data[..], old(buffer.start)) {
              case Ok(p) => r == Ok(()) && buffer.start == p && buffer.Valid()
              case Err(f) => r == Err(f)
            }
  {
    hide ReadVarInt, Value;
    ghost var c, pos := buffer.data[..], buffer.start;
    assert buffer.Contents() == c[pos..];
    var length := Packets.ReadVarIntFrom(buffer);
    match length
    case Done(v, n) =>
      assert buffer.start == pos + n;
      r := Advance(buffer, Value(v));
    case TooBig => r := Err(ReadFailed);
    case Short => r := Err(ReadFailed);
  }

  method AdvanceSignature(buffer: Buffer) returns (r: Result<(), Failure>)
    requires buffer.Valid() && buffer.end == buffer.data.Length
    modifies buffer`start
    ensures match OverSignature(buffer.data[..], old(buffer.start)) {
              case Ok(p) => r == Ok(()) && buffer.start == p && buffer.Valid()
              case Err(f) => r == Err(f)
            }
  {
    hide OverField;
    r := Advance(buffer, 8);
    if r.Ok? {
      r := AdvanceField(buffer);
      if r.Ok? {
        r := AdvanceField(buffer);
      }
    }
  }

  /** The flag and the UUID; a missing flag is no flag. */
  method ReadFlaggedUuid(buffer: Buffer, m: Metadata)
    requires buffer.Valid() && buffer.end == buffer.data.Length
    modifies buffer`start, m`uuid
    ensures m.uuid == FlaggedUuid(old(buffer.Contents()), old(m.uuid))
  {
    ghost var rest := buffer.Contents();
    var hasUUID, err := buffer.ReadByte();
    if err.None? && hasUUID == 1 {
      assert buffer.Contents() == rest[1..];
      m.uuid := Overlaid(m.uuid, buffer.data[buffer.start..buffer.end]);
    }
  }

  /** sniff.go:122-164 */
  method SniffUuid(buffer: Buffer, m: Metadata) returns (r: Result<(), Failure>)
    requires buffer.Valid() && buffer.end == buffer.data.Length
    modifies buffer`start, m`uuid
    ensures match UuidAt(buffer.data[..], old(buffer.start), m.protocolVersion, old(m.uuid)) {
              case Ok(u) => r == Ok(()) && m.uuid == u
              case Err(f) => r == Err(f)
            }
  {
    hide OverSignature, FlaggedUuid;
    ghost var c, pos := buffer.data[..], buffer.start;
    assert buffer.Contents() == c[pos..];
    if m.protocolVersion >= VERSION_1_20_2 {
      if buffer.end - buffer.start == 16 {
        m.uuid := Overlaid(m.uuid, buffer.data[buffer.start..buffer.end]);
      }
    } else if m.protocolVersion >= VERSION_1_19_3 {
      if buffer.start == buffer.end {
        return Err(ReadFailed);
      }
      ReadFlaggedUuid(buffer, m);
    } else if m.protocolVersion >= VERSION_1_19 {
      var hasSigData, err := buffer.ReadByte();
      if err.Some? {
        return Err(ReadFailed);
      }
      assert hasSigData == c[pos..][0];
      if hasSigData == 1 {
        r := AdvanceSignature(buffer);
        if r.Err? {
          return;
        }
      }
      assert buffer.Contents() == c[buffer.start..] && c[pos..][1..] == c[pos + 1..];
      ReadFlaggedUuid(buffer, m);
    }
    r := Ok(());
  }

  /** The contents of a Login Start packet, sniff.go:108-164. */
  method SniffLoginStart(content: bytes, m: Metadata) returns (r: Result<(), Failure>)
    modifies m`playerName, m`uuid
    ensures match ParseLogin(content, m.protocolVersion, old(m.uuid)) {
              case Ok(login) => r == Ok(()) && m.playerName == login.name && m.uuid == login.uuid
              case Err(f) => r == Err(f)
            }
  {
    hide ScanText, UuidAt;
    var buffer := new Buffer.As(content);
    assert buffer.data[..] == content;
    var packetID, err := buffer.ReadByte();
    if err.Some? {
      return Err(ReadFailed);
    }
    if packetID != 0 {
      return Err(BadPacket);
    }
    assert buffer.Contents() == content[1..];
    TextWithin(content[1..], MAX_NAME);
    var name := ReadLimitedString(buffer, MAX_NAME);
    if name.Err? {
      return Err(ReadFailed);
    }
    m.playerName := name.value;
    r := SniffUuid(buffer, m);
  }

  // ---------------------------------------------------------------- what a client writes

  /** The UUID in a client's packet: before 1.20.2 behind a flag, which the first 1.19 does not write. */
  datatype Identity = NoFlag | NoUuid | HasUuid(id: Uuid)

  /** Signature data of 1.19: a timestamp of eight bytes, a key and a signature. */
  datatype SigData = SigData(stamp: bytes, key: bytes, signature: bytes)

  function Flagged(i: Identity): bytes {
    match i
    case NoFlag => []
    case NoUuid => [0]
    case HasUuid(id) => [1] + id
  }

  function Signed(sig: Option<SigData>): bytes {
    match sig
    case None => [0]
    case Some(d) => [1] + (d.stamp + (Encode(Text(d.key)) + Encode(Text(d.signature))))
  }

  /** What follows the name, by version. */
  function Tail(version: nat, sig: Option<SigData>, i: Identity): bytes {
    if version >= 764 then (if i.HasUuid? then i.id else [])
    else if version >= 761 then Flagged(i)
    else if version >= 759 then Signed(sig) + Flagged(i)
    else []
  }

  function Written(name: bytes, version: nat, sig: Option<SigData>, i: Identity): bytes {
    [0] + (Encode(Text(name)) + Tail(version, sig, i))
  }

  ghost predicate IsSigData(sig: Option<SigData>) {
    sig.Some? ==> |sig.value.stamp| == 8 && |sig.value.key| < 0x8000_0000 && |sig.value.signature| < 0x8000_0000
  }

  /** A client of any version is recorded as it introduced itself, over whatever signature data it
      sends; only a name that is empty or over 16 bytes is refused, and in versions 761 to 763 a
      missing flag. */
  lemma WrittenIsRead(name: bytes, version: nat, sig: Option<SigData>, i: Identity, uuid: Uuid)
    requires |name| < 0x8000_0000 && IsSigData(sig)
    ensures ParseLogin(Written(name, version, sig, i), version, uuid) ==
            if name == [] || |name| > 16 || (761 <= version < 764 && i.NoFlag?)
            then Err(ReadFailed)
            else Ok(Login(name, if version >= 759 && i.HasUuid? then i.id else uuid))
  {
    hide Encode, ScanText, UuidAt, Tail;
    var tail := Tail(version, sig, i);
    var c := Written(name, version, sig, i);
    assert c[1..] == Encode(Text(name)) + tail;
    TextBack(name, tail, 16);
    assert c[|c| - |tail|..] == tail;
    TailIsRead(c, |c| - |tail|, version, sig, i, uuid);
  }

  lemma TailIsRead(c: bytes, pos: nat, version: nat, sig: Option<SigData>, i: Identity, uuid: Uuid)
    requires pos <= |c| && c[pos..] == Tail(version, sig, i) && IsSigData(sig)
    ensures UuidAt(c, pos, version, uuid) ==
            if 761 <= version < 764 && i.NoFlag? then Err(ReadFailed)
            else Ok(if version >= 759 && i.HasUuid? then i.id else uuid)
  {
    if 759 <= version < 761 {
      hide FlaggedUuid, OverSignature, UuidAt;
      SignedTailIsRead(c, pos, version, sig, Flagged(i), uuid);
      FlagIsRead(i, uuid);
    } else {
      hide Signed, FlaggedUuid, OverSignature;
      FlagIsRead(i, uuid);
    }
  }

  lemma SignedTailIsRead(c: bytes, pos: nat, version: nat, sig: Option<SigData>, flag: bytes, uuid: Uuid)
    requires 759 <= version < 761
    requires pos <= |c| && c[pos..] == Signed(sig) + flag && IsSigData(sig)
    ensures UuidAt(c, pos, version, uuid) == Ok(FlaggedUuid(flag, uuid))
  {
    hide *;
    SignedThenFlag(c, pos, sig, flag);
    UuidBehind(c, pos, version, uuid, flag);
  }

  /** In versions 759 and 760 the flag is looked for behind the signature data, or behind its absence. */
  lemma UuidBehind(c: bytes, pos: nat, version: nat, uuid: Uuid, flag: bytes)
    requires 759 <= version < 761 && pos < |c|
    requires if c[pos..][0] == 1 then
               |flag| <= |c| && OverSignature(c, pos + 1) == Ok(|c| - |flag|) && c[|c| - |flag|..] == flag
             else c[pos..][1..] == flag
    ensures UuidAt(c, pos, version, uuid) == Ok(FlaggedUuid(flag, uuid))
  {
    hide OverSignature, FlaggedUuid;
  }

  /** Whatever stands behind the name and the signature data: in versions 759 to 763 a flag of 1 and then
      any number of bytes, of which the first 16 replace as many of the UUID, and from 764 on exactly 16
      bytes; everything else leaves the UUID as it was. */
  lemma AnyTail(name: bytes, version: nat, sig: Option<SigData>, tail: bytes, uuid: Uuid)
    requires 1 <= |name| <= 16 && IsSigData(sig) && version >= 759
    ensures var front := if version < 761 then Signed(sig) else [];
            var r := ParseLogin([0] + (Encode(Text(name)) + (front + tail)), version, uuid);
            if 761 <= version < 764 && tail == [] then r == Err(ReadFailed)
            else
              && r.Ok? && r.value.name == name
              && forall k :: 0 <= k < 16 ==>
                   r.value.uuid[k] ==
                   if version >= 764 && |tail| == 16 then tail[k]
                   else if version < 764 && 1 <= k + 1 < |tail| && tail[0] == 1 then tail[k + 1]
                   else uuid[k]
  {
    hide *;
    var rest := (if version < 761 then Signed(sig) else []) + tail;
    NameIsRead(name, version, rest, uuid);
    FlagAndRest(tail, uuid);
    if version < 761 {
      SignedTailIsRead([0] + (Encode(Text(name)) + rest), 1 + |Encode(Text(name))|, version, sig, tail, uuid);
    } else {
      assert rest == tail;
      UnsignedTail([0] + (Encode(Text(name)) + rest), 1 + |Encode(Text(name))|, version, uuid);
    }
  }

  lemma NameIsRead(name: bytes, version: nat, rest: bytes, uuid: Uuid)
    requires 1 <= |name| <= 16
    ensures var c, pos := [0] + (Encode(Text(name)) + rest), 1 + |Encode(Text(name))|;
            && pos <= |c| && c[pos..] == rest && |c| - pos == |rest|
            && ParseLogin(c, version, uuid) ==
               match UuidAt(c, pos, version, uuid) case Err(f) => Err(f) case Ok(u) => Ok(Login(name, u))
  {
    hide Encode, ScanText, UuidAt;
    var c := [0] + (Encode(Text(name)) + rest);
    assert c[1..] == Encode(Text(name)) + rest;
    TextBack(name, rest, 16);
  }

  lemma UnsignedTail(c: bytes, pos: nat, version: nat, uuid: Uuid)
    requires pos <= |c| && version >= 761
    ensures UuidAt(c, pos, version, uuid) ==
            if version >= 764 then Ok(if |c| - pos == 16 then c[pos..] else uuid)
            else if |c| == pos then Err(ReadFailed)
            else Ok(FlaggedUuid(c[pos..], uuid))
  {
    hide FlaggedUuid, OverSignature;
  }

  lemma FlagAndRest(flag: bytes, uuid: Uuid)
    ensures forall k :: 0 <= k < 16 ==>
              FlaggedUuid(flag, uuid)[k] == if 1 <= k + 1 < |flag| && flag[0] == 1 then flag[k + 1] else uuid[k]
  {
  }

  lemma FlagIsRead(i: Identity, uuid: Uuid)
    ensures FlaggedUuid(Flagged(i), uuid) == if i.HasUuid? then i.id else uuid
  {
    if i.HasUuid? {
      assert Flagged(i)[1..] == i.id;
      assert i.id[..16] == i.id;
    }
  }

  /** The signature data ends where the flag begins. */
  lemma SignedThenFlag(c: bytes, pos: nat, sig: Option<SigData>, flag: bytes)
    requires pos <= |c| && c[pos..] == Signed(sig) + flag && IsSigData(sig)
    ensures pos < |c| && c[pos..][0] == if sig.Some? then 1 else 0
    ensures sig.None? ==> c[pos..][1..] == flag
    ensures sig.Some? ==>
              && |flag| <= |c| && OverSignature(c, pos + 1) == Ok(|c| - |flag|)
              && c[|c| - |flag|..] == flag
  {
    hide Encode, OverSignature;
    if sig.Some? {
      SignatureIsPassed(c, pos, sig.value, flag);
    }
  }

  lemma SignatureIsPassed(c: bytes, pos: nat, d: SigData, flag: bytes)
    requires pos <= |c| && c[pos..] == Signed(Some(d)) + flag && IsSigData(Some(d))
    ensures pos < |c| && |flag| <= |c|
    ensures OverSignature(c, pos + 1) == Ok(|c| - |flag|) && c[|c| - |flag|..] == flag
  {
    hide Encode, OverField;
    var key, signature := Encode(Text(d.key)), Encode(Text(d.signature));
    Regrouped(d.stamp, key, signature, flag);
    Dropped(c, pos, [1] + d.stamp, key + (signature + flag));
    FieldIsPassed(c, pos + 9, d.key, signature + flag);
    FieldIsPassed(c, |c| - |signature + flag|, d.signature, flag);
  }

  lemma Regrouped(stamp: bytes, key: bytes, signature: bytes, flag: bytes)
    ensures [1] + (stamp + (key + signature)) + flag == ([1] + stamp) + (key + (signature + flag))
  {
  }

  lemma Dropped(c: bytes, pos: nat, front: bytes, rest: bytes)
    requires pos <= |c| && c[pos..] == front + rest
    ensures pos + |front| <= |c| && c[pos + |front|..] == rest
  {
    assert c[pos + |front|..] == c[pos..][|front|..];
  }

  lemma FieldIsPassed(c: bytes, pos: nat, field: bytes, rest: bytes)
    requires pos <= |c| && |field| < 0x8000_0000 && c[pos..] == Encode(Text(field)) + rest
    ensures |rest| <= |c| && OverField(c, pos) == Ok(|c| - |rest|) && c[|c| - |rest|..] == rest
  {
    hide ReadVarInt, Value, Encoded, ToInt32;
    var v := ToInt32(|field|);
    assert c[pos..] == Encoded(v) + (field + rest);
    ReadOfEncoded(v, field + rest);
    ValueOfToInt32(|field|);
    Dropped(c, pos, Encoded(v) + field, rest);
    assert |c| == pos + |Encoded(v)| + |field| + |rest|;
  }

  // ---------------------------------------------------------------- where the code panics

  /** A length at pos can be read and leads outside c. */
  predicate LengthLeads(c: bytes, pos: nat)
    requires pos <= |c|
  {
    var r := ReadVarInt(c[pos..]);
    r.Done? && !(0 <= pos + r.n + Value(r.v) <= |c|)
  }

  /** Signature data at pos leads outside c: fewer than eight bytes for the timestamp, or the key's
      length, or, behind a key inside c, the signature's. */
  predicate SignatureLeads(c: bytes, pos: nat)
    requires pos <= |c|
  {
    || |c| - pos < 8
    || LengthLeads(c, pos + 8)
    || (var r := ReadVarInt(c[pos + 8..]);
        r.Done? && 0 <= pos + 8 + r.n + Value(r.v) && LengthLeads(c, pos + 8 + r.n + Value(r.v)))
  }

  /** The sniffer panics on a Login Start packet exactly when its version is 759 or 760, a name was
      read, signature data is announced, and it leads outside the packet. */
  lemma OverranExactly(c: bytes, version: nat, uuid: Uuid)
    ensures ParseLogin(c, version, uuid) == Err(Overran) <==>
            && 759 <= version < 761
            && AfterName(c).Ok?
            && var rest := AfterName(c).value.1;
            rest != [] && rest[0] == 1 && SignatureLeads(c, |c| - |rest| + 1)
  {
    hide ReadVarInt, Value, ScanText;
    if AfterName(c).Ok? {
      var rest := AfterName(c).value.1;
      RestIsTail(c);
      assert c[|c| - |rest|..] == rest;
    }
  }

  lemma RestIsTail(c: bytes)
    ensures AfterName(c).Ok? ==> var rest := AfterName(c).value.1; c[|c| - |rest|..] == rest
  {
    hide ReadVarInt, Value;
    if c != [] {
      ReadWithin(c[1..]);
    }
  }

  /** The shortest such packet: a name, and announced data that is not there. */
  lemma NothingSigned(name: bytes, uuid: Uuid)
    requires 1 <= |name| <= 16
    ensures ParseLogin([0] + (Encode(Text(name)) + [1]), 759, uuid) == Err(Overran)
  {
    hide Encode, ScanText;
    var c := [0] + (Encode(Text(name)) + [1]);
    assert c[1..] == Encode(Text(name)) + [1];
    TextBack(name, [1], 16);
    OverranExactly(c, 759, uuid);
  }
}

/** Sniffing and rewriting a Minecraft handshake (protocol/minecraft/sniff.go,
    protocol/minecraft/outbound.go, adapter/metadata.go). */
module Sniff {
  import opened Bytes
  import opened Numbers
  import opened VarInt
  import opened VarIntDigits
  import opened Int32
  import opened Buffers
  import opened Items
  import opened Packets
  import opened PacketConn
  import opened CachedConn
  import opened Wrappers

  const INTENT_STATUS: byte := 1
  const INTENT_LOGIN: byte := 2
  const INTENT_TRANSFER: byte := 3
  const MAX_HANDSHAKE := 264

  datatype Handshake = Handshake(version: nat, host: bytes, port: nat, intent: byte)

  /** Overran: an index outside the packet, where the code panics. */
  datatype Failure = BadPacket | ReadFailed | Overran

  type Uuid = u: bytes | |u| == 16 witness seq(16, _ => 0)

  // ---------------------------------------------------------------- meaning

  /** The fields of a handshake, sniff.go:39-84. */
  function ParseContent(b: bytes): Result<Handshake, Failure> {
    if b == [] then Err(ReadFailed)
    else if b[0] != 0 then Err(BadPacket)
    else match ScanVarInt(b[1..])
         case Err(_) => Err(ReadFailed)
         case Ok((version, rest)) =>
           if Value(version) <= 0 then Err(BadPacket)
           else match ScanText(rest, 0x7FFF_FFFF)
                case Err(_) => Err(ReadFailed)
                case Ok((host, tail)) =>
                  if |tail| < 2 then Err(ReadFailed)
                  else if FromBigEndian(tail[..2]) == 0 then Err(BadPacket)
                  else if |tail| < 3 then Err(ReadFailed)
                  else if tail[2] != INTENT_STATUS && tail[2] != INTENT_LOGIN && tail[2] != INTENT_TRANSFER
                       then Err(BadPacket)
                  else Ok(Handshake(Value(version), host, FromBigEndian(tail[..2]), tail[2]))
  }

  /** The packet at the front of b, not longer than the limit if there is one, and its length on the
      wire, sniff.go:27-38 and 96-106. */
  function Frame(b: bytes, limit: Option<int>): (r: Result<(bytes, nat), Failure>)
    ensures r.Ok? ==> r.value.1 <= |b|
  {
    match ReadVarInt(b)
    case TooBig => Err(ReadFailed)
    case Short => Err(ReadFailed)
    case Done(v, n) =>
      ReadWithin(b);
      FrameAt(b, n, Value(v), limit)
  }

  function FrameAt(b: bytes, n: nat, size: int, limit: Option<int>): (r: Result<(bytes, nat), Failure>)
    requires n <= |b|
    ensures r.Ok? ==> r.value.1 <= |b|
  {
    if limit.Some? && size > limit.value then Err(BadPacket)
    else if size < 0 || |b| - n < size then Err(ReadFailed)
    else Ok((b[n..n + size], n + size))
  }

  /** The handshake part of SniffClientHandshake, sniff.go:25-87: the fields and the packet's length. */
  function Parse(b: bytes): Result<(Handshake, nat), Failure> {
    match Frame(b, Some(MAX_HANDSHAKE))
    case Err(f) => Err(f)
    case Ok((content, n)) =>
      match ParseContent(content)
      case Err(f) => Err(f)
      case Ok(h) => Ok((h, n))
  }

  /** The items of a handshake packet, outbound.go:530-535. */
  function Fields(version: nat, host: bytes, port: nat, intent: byte): seq<Item> {
    [Fixed(1, 0), Var(ToInt32(version)), Text(host), Fixed(2, port), Fixed(1, intent as nat)]
  }

  /** Where the first NUL stands. */
  function Cut(s: bytes): (n: nat)
    ensures n <= |s|
    ensures n < |s| ==> s[n] == 0
    ensures forall i :: 0 <= i < n ==> s[i] != 0
  {
    if s == [] || s[0] == 0 then 0 else 1 + Cut(s[1..])
  }

  function Before(s: bytes): bytes {
    s[..Cut(s)]
  }

  function After(s: bytes): bytes {
    if Cut(s) < |s| then s[Cut(s) + 1..] else []
  }

  predicate IsFML(s: bytes) {
    Cut(s) < |s|
  }

  lemma CutApart(s: bytes)
    ensures IsFML(s) ==> Before(s) + [0] + After(s) == s
    ensures !IsFML(s) ==> Before(s) == s
  {
  }

  // ---------------------------------------------------------------- sniffing what was built

  lemma ContentBytes(version: nat, host: bytes, port: nat, intent: byte)
    requires version < 0x8000_0000 && |host| < 0x8000_0000 && port < 0x1_0000
    ensures EncodeAll(Fields(version, host, port, intent)) ==
            [0] + (Encoded(ToInt32(version)) + (Encode(Text(host)) + (BigEndian(port, 2) + [intent])))
  {
    hide Encoded, ToInt32;
    var fs := Fields(version, host, port, intent);
    OneByte(0);
    OneByte(intent as nat);
    EncodeCons(fs);
    EncodeCons(fs[1..]);
    EncodeCons(fs[2..]);
    EncodeCons(fs[3..]);
    EncodeCons(fs[4..]);
    assert fs[1..][1..] == fs[2..] && fs[2..][1..] == fs[3..] && fs[3..][1..] == fs[4..] && fs[4..][1..] == [];
    assert BigEndian(intent as nat, 1) + [] == [intent];
  }

  lemma EncodeCons(xs: seq<Item>)
    requires xs != []
    ensures EncodeAll(xs) == Encode(xs[0]) + EncodeAll(xs[1..])
    ensures EncodeAll([]) == []
  {
  }

  /** What the sniffer makes of a built handshake: the values it was built from, unless it has a value
      that is refused. */
  function AsBuilt(version: nat, host: bytes, port: nat, intent: byte): Result<Handshake, Failure> {
    if version == 0 then Err(BadPacket)
    else if host == [] then Err(ReadFailed)
    else if port == 0 then Err(BadPacket)
    else Ok(Handshake(version, host, port, intent))
  }

  lemma ContentParses(version: nat, host: bytes, port: nat, intent: byte)
    requires version < 0x8000_0000 && |host| < 0x8000_0000 && port < 0x1_0000 && 1 <= intent <= 3
    ensures ParseContent(EncodeAll(Fields(version, host, port, intent))) == AsBuilt(version, host, port, intent)
  {
    hide Encoded, ToInt32, Value, ScanVarInt, ScanText, BigEndian, FromBigEndian, Encode;
    ContentBytes(version, host, port, intent);
    var tail := BigEndian(port, 2) + [intent];
    var rest := Encode(Text(host)) + tail;
    var b := [0] + (Encoded(ToInt32(version)) + rest);
    assert b[1..] == Encoded(ToInt32(version)) + rest;
    VarIntBack(ToInt32(version), rest);
    ValueOfToInt32(version);
    TextBack(host, tail, 0x7FFF_FFFF);
    Widths();
    BigEndianRoundTrip(port, 2);
    assert tail[..2] == BigEndian(port, 2) && tail[2] == intent;
  }

  /** A built handshake packet in front of any bytes is sniffed as built, unless it is longer than 264
      bytes or has a value that is refused. */
  lemma BuiltParses(version: nat, host: bytes, port: nat, intent: byte, more: bytes)
    requires version < 0x8000_0000 && port < 0x1_0000 && 1 <= intent <= 3
    requires |EncodeAll(Fields(version, host, port, intent))| < 0x8000_0000
    ensures var content := EncodeAll(Fields(version, host, port, intent));
            Parse(Packet(content) + more) ==
            if |content| > 264 then Err(BadPacket)
            else match AsBuilt(version, host, port, intent)
                 case Err(f) => Err(f)
                 case Ok(h) => Ok((h, |Packet(content)|))
  {
    hide Encoded, ToInt32, Value, ReadVarInt, ParseContent, Fields, EncodeAll;
    var content := EncodeAll(Fields(version, host, port, intent));
    HostInside(version, host, port, intent);
    PacketLength(content, more);
    ContentParses(version, host, port, intent);
    ReadWithin(Packet(content) + more);
  }

  /** The bytes of a built handshake: the packet number 0, the version, the host behind its length, the
      port with its high byte first, and the intent. */
  lemma HandshakeBytes(version: nat, host: bytes, port: nat, intent: byte)
    requires version < 0x8000_0000 && |host| < 0x8000_0000 && port < 0x1_0000
    ensures EncodeAll(Fields(version, host, port, intent)) ==
            [0] + Digits128(version) + Digits128(|host|) + host
            + [(port / 256) as byte, (port % 256) as byte, intent]
  {
    hide *;
    ContentBytes(version, host, port, intent);
    VarIntIs(version);
    LittleThings(version, host, port);
    Regrouped(Digits128(version), Digits128(|host|), host, BigEndian(port, 2), intent);
  }

  lemma LittleThings(version: nat, host: bytes, port: nat)
    requires version < 0x8000_0000 && |host| < 0x8000_0000 && port < 0x1_0000
    ensures version % 0x1_0000_0000 == version
    ensures Encode(Text(host)) == Digits128(|host|) + host
    ensures BigEndian(port, 2) == [(port / 256) as byte, (port % 256) as byte]
  {
    hide Encoded, ToInt32, BigEndian, Digits128;
    ItemBytes(port, host);
    assert Encode(Fixed(2, port)) == BigEndian(port, 2);
  }

  lemma Regrouped(version: bytes, length: bytes, host: bytes, port: bytes, intent: byte)
    ensures [0] + (version + ((length + host) + (port + [intent]))) == [0] + version + length + host + (port + [intent])
  {
  }

  /** What the sniffer takes for a handshake at all: a zero byte in front, and values in these ranges. */
  lemma TakenRanges(b: bytes)
    ensures match ParseContent(b) {
              case Err(_) => true
              case Ok(h) =>
                && b != [] && b[0] == 0 && 0 < h.version < 0x8000_0000 && h.host != [] && 0 < h.port < 0x1_0000
                && 1 <= h.intent <= 3
            }
  {
    hide ScanVarInt, FromBigEndian, Value;
    if b != [] {
      var v := ScanVarInt(b[1..]);
      if v.Ok? {
        var (version, rest) := v.value;
        ValueRange(version);
        var s := ScanText(rest, 0x7FFF_FFFF);
        if s.Ok? && |s.value.1| >= 2 {
          BigEndianOnto(s.value.1[..2]);
          Widths();
        }
      }
    }
  }

  lemma FieldsLength(version: nat, host: bytes, port: nat, intent: byte)
    requires version < 0x8000_0000 && |host| < 0x8000_0000 && port < 0x1_0000
    ensures |EncodeAll(Fields(version, host, port, intent))| <= |host| + 14
  {
    hide Encoded, ToInt32;
    ContentBytes(version, host, port, intent);
    VarIntLenIs(ToInt32(version));
    VarIntLenIs(ToInt32(|host|));
  }

  lemma HostInside(version: nat, host: bytes, port: nat, intent: byte)
    ensures |host| <= |EncodeAll(Fields(version, host, port, intent))|
  {
    hide Encoded, ToInt32;
    var fs := Fields(version, host, port, intent);
    EncodeCons(fs);
    EncodeCons(fs[1..]);
    EncodeCons(fs[2..]);
    assert fs[1..][1..] == fs[2..];
  }

  // ---------------------------------------------------------------- the metadata

  /** adapter.MinecraftMetadata, with its cached mod-loader suffix. */
  class Metadata {
    var protocolVersion: nat
    var originDestination: bytes
    var rewrittenDestination: bytes
    var fmlMarkup: bytes
    var originPort: nat
    var rewrittenPort: nat
    var nextState: int
    var sniffPosition: int
    var playerName: bytes
    var uuid: Uuid

    /** The cache is empty or right. */
    ghost predicate Valid()
      reads this`fmlMarkup, this`originDestination
    {
      fmlMarkup == [] || fmlMarkup == After(originDestination)
    }

    constructor ()
      ensures Valid() && nextState == -1 && fmlMarkup == []
    {
      protocolVersion, originDestination, rewrittenDestination, fmlMarkup := 0, [], [], [];
      originPort, rewrittenPort, nextState, sniffPosition := 0, 0, -1, 0;
      playerName, uuid := [], seq(16, _ => 0);
    }

    /** metadata.go:60-63 */
    method CleanOriginDestination() returns (clean: bytes)
      requires Valid()
      modifies this`fmlMarkup
      ensures Valid() && clean == Before(originDestination)
    {
      clean, fmlMarkup := Before(originDestination), After(originDestination);
    }

    /** metadata.go:65-70 */
    method FMLMarkup() returns (markup: bytes)
      requires Valid()
      modifies this`fmlMarkup
      ensures Valid() && markup == After(originDestination)
    {
      if fmlMarkup == [] {
        fmlMarkup := After(originDestination);
      }
      markup := fmlMarkup;
    }
  }

  /** The outbound's settings that decide the host name. */
  datatype Config = Config(enableHostnameRewrite: bool, rewrittenHostname: bytes, targetAddress: bytes,
                           ignoreFMLSuffix: bool)

  /** The host name before any mod-loader suffix: configured, rewritten by a rule, or the client's. */
  function BaseHost(cfg: Config, rewritten: bytes, origin: bytes): bytes {
    if cfg.enableHostnameRewrite then
      (if cfg.rewrittenHostname == [] then cfg.targetAddress else cfg.rewrittenHostname)
    else if rewritten == [] then Before(origin)
    else rewritten
  }

  /** The host name sent to the server, with the client's suffix unless that is to be dropped. */
  function ChosenHost(cfg: Config, rewritten: bytes, origin: bytes): bytes {
    BaseHost(cfg, rewritten, origin)
    + (if !cfg.ignoreFMLSuffix && IsFML(origin) then [0] + After(origin) else [])
  }

  function ChosenPort(rewritten: nat, origin: nat): nat {
    if rewritten <= 0 then origin else rewritten
  }

  /** With nothing rewritten the server is told exactly the host the client named. */
  lemma UntouchedHost(cfg: Config, origin: bytes)
    requires !cfg.enableHostnameRewrite && !cfg.ignoreFMLSuffix
    ensures ChosenHost(cfg, [], origin) == origin
  {
    CutApart(origin);
  }

  /** The first NUL of s stands at k, or there is none and s ends there. */
  ghost predicate FirstNul(s: bytes, k: nat) {
    k <= |s| && (forall i :: 0 <= i < k ==> s[i] != 0) && (k < |s| ==> s[k] == 0)
  }

  /** What the server is to be told of a client: its version, the host that is configured, or the target
      address when that is left empty, or where hostnames are not rewritten the one a rule gave, or else
      the client's; behind it the client's own suffix, unless suffixes are dropped; the port a rule
      gave, or else the client's. */
  ghost predicate SentAs(sent: Handshake, client: Handshake, intent: byte, cfg: Config, rewritten: bytes,
                         rewrittenPort: nat) {
    && sent.version == client.version && sent.intent == intent
    && sent.port == (if rewrittenPort != 0 then rewrittenPort else client.port)
    && exists k: nat :: FirstNul(client.host, k)
         && var suffix := if cfg.ignoreFMLSuffix then [] else client.host[k..];
            && (cfg.enableHostnameRewrite && cfg.rewrittenHostname != [] ==>
                  sent.host == cfg.rewrittenHostname + suffix)
            && (cfg.enableHostnameRewrite && cfg.rewrittenHostname == [] ==> sent.host == cfg.targetAddress + suffix)
            && (!cfg.enableHostnameRewrite && rewritten != [] ==> sent.host == rewritten + suffix)
            && (!cfg.enableHostnameRewrite && rewritten == [] ==> sent.host == client.host[..k] + suffix)
  }

  /** The host and port chosen are those. */
  lemma ChosenIsSent(client: Handshake, intent: byte, cfg: Config, rewritten: bytes, rewrittenPort: nat)
    ensures SentAs(Handshake(client.version, ChosenHost(cfg, rewritten, client.host),
                             ChosenPort(rewrittenPort, client.port), intent),
                   client, intent, cfg, rewritten, rewrittenPort)
  {
    var k := Cut(client.host);
    assert FirstNul(client.host, k);
    assert k < |client.host| ==> client.host[k..] == [0] + After(client.host);
    assert client.host[|client.host|..] == [];
  }

  /** So the server finds the name called for up to the first NUL of the host, when the name has none. */
  lemma NameIsFound(sent: Handshake, client: Handshake, intent: byte, cfg: Config, rewritten: bytes, rewrittenPort: nat)
    requires SentAs(sent, client, intent, cfg, rewritten, rewrittenPort)
    ensures var name := if !cfg.enableHostnameRewrite then rewritten
                        else if cfg.rewrittenHostname != [] then cfg.rewrittenHostname else cfg.targetAddress;
            (cfg.enableHostnameRewrite || rewritten != []) && (forall i :: 0 <= i < |name| ==> name[i] != 0) ==>
              |name| <= |sent.host| && sent.host[..|name|] == name && FirstNul(sent.host, |name|)
  {
    var k: nat :| FirstNul(client.host, k)
         && var suffix := if cfg.ignoreFMLSuffix then [] else client.host[k..];
            && (cfg.enableHostnameRewrite && cfg.rewrittenHostname != [] ==>
                  sent.host == cfg.rewrittenHostname + suffix)
            && (cfg.enableHostnameRewrite && cfg.rewrittenHostname == [] ==> sent.host == cfg.targetAddress + suffix)
            && (!cfg.enableHostnameRewrite && rewritten != [] ==> sent.host == rewritten + suffix)
            && (!cfg.enableHostnameRewrite && rewritten == [] ==> sent.host == client.host[..k] + suffix);
    assert k < |client.host| ==> client.host[k..][0] == 0;
  }

  /** The server finds the chosen name and the client's own suffix behind it, exactly when the name
      has no NUL in it. */
  lemma SuffixKept(cfg: Config, rewritten: bytes, origin: bytes)
    requires !cfg.ignoreFMLSuffix && IsFML(origin)
    ensures var host, base := ChosenHost(cfg, rewritten, origin), BaseHost(cfg, rewritten, origin);
            Before(host) == base && After(host) == After(origin) <==> !IsFML(base)
  {
    hide Cut, Before, After, IsFML, BaseHost;
    BehindNul(BaseHost(cfg, rewritten, origin), After(origin));
  }

  lemma BehindNul(base: bytes, rest: bytes)
    ensures var host := base + ([0] + rest);
            Before(host) == base && After(host) == rest <==> !IsFML(base)
  {
    hide Cut;
    var host := base + ([0] + rest);
    assert host[|base|] == 0 && host[..|base|] == base && host[|base| + 1..] == rest;
    if IsFML(base) {
      assert host[Cut(base)] == 0;
      assert Cut(host) <= Cut(base);
    } else {
      assert forall i :: 0 <= i < |base| ==> host[i] == base[i] != 0;
      assert Cut(host) == |base|;
    }
  }

  /** An accepted client whose host is only a suffix, and settings that drop suffixes: the server is
      sent an empty host, which the sniffer would refuse. */
  lemma EmptyHost()
    ensures var origin: bytes := [0, 70, 77, 76, 0];
            var cfg := Config(false, [], [], true);
            var sent := Packet(EncodeAll(Fields(765, origin, 25565, INTENT_LOGIN)));
            var host := ChosenHost(cfg, [], origin);
            && Parse(sent) == Ok((Handshake(765, origin, 25565, INTENT_LOGIN), |sent|))
            && Parse(Packet(EncodeAll(Fields(765, host, 25565, INTENT_LOGIN)))) == Err(ReadFailed)
  {
    hide Parse, Packet, Fields, EncodeAll;
    var origin: bytes := [0, 70, 77, 76, 0];
    FieldsLength(765, origin, 25565, INTENT_LOGIN);
    BuiltParses(765, origin, 25565, INTENT_LOGIN, []);
    var sent := Packet(EncodeAll(Fields(765, origin, 25565, INTENT_LOGIN)));
    assert sent + [] == sent;
    assert ChosenHost(Config(false, [], [], true), [], origin) == [];
    FieldsLength(765, [], 25565, INTENT_LOGIN);
    BuiltParses(765, [], 25565, INTENT_LOGIN, []);
    var built := Packet(EncodeAll(Fields(765, [], 25565, INTENT_LOGIN)));
    assert built + [] == built;
  }

  /** A configured name of 300 bytes makes the packet too long for the sniffer, whatever the client. */
  lemma LongHost(rewritten: bytes, origin: bytes)
    ensures var cfg := Config(true, seq(300, _ => 97), [], true);
            var host := ChosenHost(cfg, rewritten, origin);
            Parse(Packet(EncodeAll(Fields(765, host, 25565, INTENT_LOGIN)))) == Err(BadPacket)
  {
    hide Parse, Packet, Fields, EncodeAll;
    var name: bytes := seq(300, _ => 97);
    assert ChosenHost(Config(true, name, [], true), rewritten, origin) == name;
    HostInside(765, name, 25565, INTENT_LOGIN);
    FieldsLength(765, name, 25565, INTENT_LOGIN);
    BuiltParses(765, name, 25565, INTENT_LOGIN, []);
    var built := Packet(EncodeAll(Fields(765, name, 25565, INTENT_LOGIN)));
    assert built + [] == built;
  }

  // ---------------------------------------------------------------- the sniffer

  /** ReadVarIntFrom on a cached connection, one byte at a time. */
  method ReadVarIntFrom(conn: CachedConn) returns (r: ReadResult)
    requires conn.Valid()
    modifies conn`cache, conn`lost, conn.conn, conn.cache, if conn.cache == null then {} else {conn.cache.data}
    ensures conn.Valid() && old(conn.Pos()) <= conn.Reach() && conn.Pos() <= conn.Reach()
    ensures conn.cache == old(conn.cache) || (fresh(conn.cache) && fresh(conn.cache.data))
    ensures r == ReadVarInt(old(conn.Ahead()))
    ensures r.Done? ==> conn.lost == old(conn.lost) && r.n <= |old(conn.Ahead())|
    ensures r.Done? ==> conn.Pos() == old(conn.Pos()) + r.n && conn.Ahead() == old(conn.Ahead())[r.n..]
  {
    hide Reading, ReadVarInt, Added, Follows;
    conn.HeldIsStream();
    var v: bv32 := 0;
    var n := 0;
    ghost var b, pos := conn.Ahead(), conn.Pos();
    ReadingStarts(b);
    while true
      invariant conn.Valid() && conn.lost == old(conn.lost)
      invariant conn.cache == old(conn.cache) || (fresh(conn.cache) && fresh(conn.cache.data))
      invariant 0 <= n <= 6 && n <= |b| && conn.Pos() == pos + n <= conn.Reach() && conn.Ahead() == b[n..]
      invariant Reading(b, n, v)
      decreases 6 - n
    {
      ReadTurn(b, n, v);
      if n > MAX_VARINT_LEN {
        return TooBig;
      }
      var sec, ok := TakeByte(conn);
      if !ok {
        return Short;
      }
      assert b[n..][1..] == b[n + 1..];
      v, n := Added(v, sec, n), n + 1;
      if !Follows(sec) {
        return Done(v, n);
      }
    }
  }

  /** The metadata holds this handshake. */
  ghost predicate Records(m: Metadata, h: Handshake)
    reads m`protocolVersion, m`originDestination, m`originPort, m`nextState, m`fmlMarkup
  {
    && m.protocolVersion == h.version && m.originDestination == h.host && m.originPort == h.port
    && m.nextState == h.intent as int && m.Valid()
  }

  /** sniff.go:39-85 */
  method SniffContent(content: bytes, m: Metadata) returns (r: Result<(), Failure>)
    requires m.fmlMarkup == []
    modifies m`protocolVersion, m`originDestination, m`originPort, m`nextState
    ensures m.Valid() && m.rewrittenDestination == old(m.rewrittenDestination)
              && m.rewrittenPort == old(m.rewrittenPort)
    ensures match ParseContent(content) {
              case Err(f) => r == Err(f)
              case Ok(h) => r == Ok(()) && Records(m, h)
            }
  {
    hide ReadOn, Value, FromBigEndian;
    var buffer := new Buffer.As(content);
    var packetID, err := buffer.ReadByte();
    if err.Some? {
      return Err(ReadFailed);
    }
    if packetID != 0 {
      return Err(BadPacket);
    }
    assert buffer.Contents() == content[1..];
    var version := Packets.ReadVarIntFrom(buffer);
    if !version.Done? {
      return Err(ReadFailed);
    }
    ghost var rest := buffer.Contents();
    assert ScanVarInt(content[1..]) == Ok((version.v, rest));
    if Value(version.v) <= 0 {
      return Err(BadPacket);
    }
    m.protocolVersion := Value(version.v);
    var host := ReadLimitedString(buffer, 0x7FFF_FFFF);
    if host.Err? {
      return Err(ReadFailed);
    }
    m.originDestination := host.value;
    r := SniffTail(buffer, m);
  }

  /** The port and the intent, sniff.go:66-85. */
  method SniffTail(buffer: Buffer, m: Metadata) returns (r: Result<(), Failure>)
    requires buffer.Valid() && m.fmlMarkup == []
    modifies buffer`start, m`originPort, m`nextState
    ensures var tail := old(buffer.Contents());
            if |tail| < 2 then r == Err(ReadFailed)
            else if FromBigEndian(tail[..2]) == 0 then r == Err(BadPacket)
            else if |tail| < 3 then r == Err(ReadFailed)
            else if tail[2] != INTENT_STATUS && tail[2] != INTENT_LOGIN && tail[2] != INTENT_TRANSFER
                 then r == Err(BadPacket)
            else r == Ok(()) && m.originPort == FromBigEndian(tail[..2]) && m.nextState == tail[2] as int
  {
    hide FromBigEndian;
    ghost var tail := buffer.Contents();
    var port := ScanBytes(buffer, 2);
    if port.Err? {
      return Err(ReadFailed);
    }
    m.originPort := port.value;
    if port.value == 0 {
      return Err(BadPacket);
    }
    assert buffer.Contents() == tail[2..];
    var intent, err := buffer.ReadByte();
    if err.Some? {
      return Err(ReadFailed);
    }
    assert intent == tail[2];
    if intent != INTENT_STATUS && intent != INTENT_LOGIN && intent != INTENT_TRANSFER {
      return Err(BadPacket);
    }
    m.nextState := intent as int;
    r := Ok(());
  }

  /** The packet at the front, sniff.go:27-38 and 96-106. */
  method TakeFrame(conn: CachedConn, limit: Option<int>) returns (r: Result<bytes, Failure>)
    requires conn.Valid()
    modifies conn`cache, conn`lost, conn.conn, conn.cache, if conn.cache == null then {} else {conn.cache.data}
    ensures conn.Valid() && old(conn.Pos()) <= conn.Reach()
    ensures conn.cache == old(conn.cache) || (fresh(conn.cache) && fresh(conn.cache.data))
    ensures match Frame(old(conn.Ahead()), limit) {
              case Err(f) => r == Err(f)
              case Ok((content, n)) =>
                r == Ok(content) && conn.cache != null && conn.Pos() == old(conn.Pos()) + n
            }
  {
    hide ReadVarInt, Value;
    conn.HeldIsStream();
    ghost var b := conn.Ahead();
    ReadWithin(b);
    var size := ReadVarIntFrom(conn);
    if !size.Done? {
      return Err(ReadFailed);
    }
    var packetSize := Value(size.v);
    if limit.Some? && packetSize > limit.value {
      return Err(BadPacket);
    }
    var content, ok := Take(conn, packetSize);
    if !ok {
      return Err(ReadFailed);
    }
    assert content == b[size.n..size.n + packetSize];
    r := Ok(content);
  }

  /** SniffClientHandshake up to the recorded position, sniff.go:25-87. */
  method SniffHandshake(conn: CachedConn, m: Metadata) returns (r: Result<(), Failure>)
    requires conn.Valid() && m.fmlMarkup == []
    modifies m`protocolVersion, m`originDestination, m`originPort, m`nextState, m`sniffPosition
    modifies conn`cache, conn`lost, conn.conn, conn.cache, if conn.cache == null then {} else {conn.cache.data}
    ensures conn.Valid() && m.Valid() && old(conn.Pos()) <= conn.Reach()
    ensures conn.cache == old(conn.cache) || (fresh(conn.cache) && fresh(conn.cache.data))
    ensures r.Ok? ==> conn.cache != null
    ensures m.rewrittenDestination == old(m.rewrittenDestination) && m.rewrittenPort == old(m.rewrittenPort)
    ensures match Parse(old(conn.Ahead())) {
              case Err(f) => r == Err(f)
              case Ok((h, n)) =>
                r == Ok(()) && Records(m, h) && m.sniffPosition == conn.Pos() == old(conn.Pos()) + n
            }
  {
    hide Frame, ParseContent, Records;
    ghost var b := conn.Ahead();
    var content := TakeFrame(conn, Some(MAX_HANDSHAKE));
    match content
    case Err(f) => r := Err(f);
    case Ok(c) =>
      r := SniffContent(c, m);
      if r.Ok? {
        m.sniffPosition := conn.CurrentPosition();
      }
  }
}

/** The first write to the server (protocol/minecraft/outbound.go, login and status branches): the
    rewritten handshake, and on login the client's bytes after its own. */
module Outbound {
  import opened Bytes
  import opened VarInt
  import opened VarIntDigits
  import opened Numbers
  import opened Int32
  import opened Buffers
  import opened Items
  import opened Packets
  import opened PacketConn
  import opened CachedConn
  import opened Sniff
  import opened LoginStart
  import opened Wrappers

  const BUFFER_SIZE := 8192

  /** The handshake the settings and the metadata call for. */
  function Content(cfg: Config, version: nat, origin: bytes, rewritten: bytes, port: nat, intent: byte): bytes {
    EncodeAll(Fields(version, ChosenHost(cfg, rewritten, origin), port, intent))
  }

  /** hostname, outbound.go:513-524 (and 368-379 for status). */
  method PickHost(cfg: Config, m: Metadata) returns (hostname: bytes)
    requires m.Valid()
    modifies m`fmlMarkup
    ensures m.Valid() && hostname == ChosenHost(cfg, m.rewrittenDestination, m.originDestination)
    ensures forall version, port, intent ::
              SentAs(Handshake(version, hostname, port, intent), Handshake(version, m.originDestination, port, intent),
                     intent, cfg, m.rewrittenDestination, 0)
  {
    forall version, port, intent
      ensures SentAs(Handshake(version, ChosenHost(cfg, m.rewrittenDestination, m.originDestination), port, intent),
                     Handshake(version, m.originDestination, port, intent), intent, cfg, m.rewrittenDestination, 0)
    {
      ChosenIsSent(Handshake(version, m.originDestination, port, intent), intent, cfg, m.rewrittenDestination, 0);
    }
    hostname := m.rewrittenDestination;
    if cfg.enableHostnameRewrite {
      hostname := cfg.rewrittenHostname;
      if hostname == [] {
        hostname := cfg.targetAddress;
      }
    } else if hostname == [] {
      hostname := m.CleanOriginDestination();
    }
    if !cfg.ignoreFMLSuffix && IsFML(m.originDestination) {
      var markup := m.FMLMarkup();
      hostname := hostname + ([0] + markup);
    } else {
      assert hostname + [] == hostname;
    }
  }

  /** The handshake packet in a fresh buffer, outbound.go:525-535. */
  method BuildHandshake(cfg: Config, m: Metadata, intent: byte) returns (buffer: Buffer)
    requires m.Valid() && m.protocolVersion < 0x8000_0000
    requires m.rewrittenPort < 0x1_0000 && m.originPort < 0x1_0000
    requires var content := Content(cfg, m.protocolVersion, m.originDestination, m.rewrittenDestination,
                                    ChosenPort(m.rewrittenPort, m.originPort), intent);
             |content| <= BUFFER_SIZE - MAX_VARINT_LEN
    modifies m`fmlMarkup
    ensures m.Valid() && fresh(buffer) && fresh(buffer.data) && buffer.Valid() && buffer.data.Length == BUFFER_SIZE
    ensures buffer.end == MAX_VARINT_LEN + |Content(cfg, m.protocolVersion, m.originDestination, m.rewrittenDestination,
                                                    ChosenPort(m.rewrittenPort, m.originPort), intent)|
    ensures buffer.Contents() == Packet(Content(cfg, m.protocolVersion, m.originDestination, m.rewrittenDestination,
                                                ChosenPort(m.rewrittenPort, m.originPort), intent))
  {
    hide Encoded, ToInt32, EncodeAll;
    buffer := new Buffer(BUFFER_SIZE);
    buffer.Reset(MAX_VARINT_LEN);
    var hostname := PickHost(cfg, m);
    var port := ChosenPort(m.rewrittenPort, m.originPort);
    var fields := Fields(m.protocolVersion, hostname, port, intent);
    HostInside(m.protocolVersion, hostname, port, intent);
    FieldsAreItems(m.protocolVersion, hostname, port, intent);
    ghost var head := buffer.data[..buffer.end];
    WriteToPacket(buffer, fields);
    assert buffer.Contents() == (head + EncodeAll(fields))[|head|..];
    AppendPacketLength(buffer, buffer.end - buffer.start);
  }

  lemma FieldsAreItems(version: nat, host: bytes, port: nat, intent: byte)
    requires |host| < 0x8000_0000 && port < 0x1_0000
    ensures forall i :: 0 <= i < |Fields(version, host, port, intent)| ==>
              IsItem(Fields(version, host, port, intent)[i])
  {
    Widths();
  }

  /** Login, outbound.go:513-546: one vectored write, and the cache is used up. */
  method SendLogin(conn: CachedConn, cfg: Config, m: Metadata, server: Sink)
    requires conn.Valid() && conn.cache != null && 0 <= m.sniffPosition <= conn.End()
    requires m.Valid() && m.protocolVersion < 0x8000_0000 && m.rewrittenPort < 0x1_0000 && m.originPort < 0x1_0000
    requires var content := Content(cfg, m.protocolVersion, m.originDestination, m.rewrittenDestination,
                                    ChosenPort(m.rewrittenPort, m.originPort), INTENT_LOGIN);
             |content| <= BUFFER_SIZE - MAX_VARINT_LEN
    modifies conn.cache, m`fmlMarkup, server
    ensures conn.Valid() && m.Valid() && conn.End() == old(conn.End()) && conn.Pos() == conn.End() <= |conn.original|
    ensures server.written == old(server.written)
                            + Packet(Content(cfg, m.protocolVersion, m.originDestination, m.rewrittenDestination,
                                             ChosenPort(m.rewrittenPort, m.originPort), INTENT_LOGIN))
                            + conn.original[m.sniffPosition..conn.End()]
    ensures SentAs(Handshake(m.protocolVersion, ChosenHost(cfg, m.rewrittenDestination, m.originDestination),
                             ChosenPort(m.rewrittenPort, m.originPort), INTENT_LOGIN),
                   Handshake(m.protocolVersion, m.originDestination, m.originPort, INTENT_LOGIN), 2, cfg,
                   m.rewrittenDestination, m.rewrittenPort)
  {
    hide Content, Packet, ChosenHost, ChosenPort, SentAs;
    ChosenIsSent(Handshake(m.protocolVersion, m.originDestination, m.originPort, INTENT_LOGIN), 2, cfg,
                 m.rewrittenDestination, m.rewrittenPort);
    conn.Rewind(m.sniffPosition);
    var buffer := BuildHandshake(cfg, m, INTENT_LOGIN);
    conn.HeldIsStream();
    server.Write(buffer.data[buffer.start..buffer.end]);
    SliceOfPrefix(conn.original, conn.End(), m.sniffPosition, conn.End());
    server.Write(conn.cache.data[conn.cache.start..conn.cache.end]);
    conn.cache.start := conn.cache.start + (conn.cache.end - conn.cache.start);
  }

  /** A status request packet: one byte, the packet number. */
  lemma StatusRequest()
    ensures Packet([0]) == [1, 0]
  {
    VarIntIs(1);
  }

  /** outbound.go:361-366: what a rule left open is the client's. */
  method SettleDestination(m: Metadata)
    requires m.Valid()
    modifies m`rewrittenDestination, m`rewrittenPort, m`fmlMarkup
    ensures m.Valid()
    ensures m.rewrittenDestination == StatusHost(old(m.rewrittenDestination), m.originDestination)
    ensures m.rewrittenPort == ChosenPort(old(m.rewrittenPort), m.originPort)
  {
    if m.rewrittenDestination == [] {
      m.rewrittenDestination := m.CleanOriginDestination();
    }
    if m.rewrittenPort == 0 {
      m.rewrittenPort := m.originPort;
    }
  }

  function StatusHost(rewritten: bytes, origin: bytes): bytes {
    if rewritten == [] then Before(origin) else rewritten
  }

  /** Settling the destination first makes no difference to the host chosen. */
  lemma SettledHost(cfg: Config, rewritten: bytes, origin: bytes)
    ensures ChosenHost(cfg, StatusHost(rewritten, origin), origin) == ChosenHost(cfg, rewritten, origin)
  {
  }

  /** The handshake and our own status request in one buffer, outbound.go:367-393. */
  method BuildStatus(cfg: Config, m: Metadata) returns (buffer: Buffer)
    requires m.Valid() && m.protocolVersion < 0x8000_0000
    requires m.rewrittenPort < 0x1_0000 && m.originPort < 0x1_0000
    requires |Content(cfg, m.protocolVersion, m.originDestination, m.rewrittenDestination,
                      ChosenPort(m.rewrittenPort, m.originPort), INTENT_STATUS)| <= BUFFER_SIZE - MAX_VARINT_LEN - 2
    modifies m`fmlMarkup
    ensures m.Valid() && fresh(buffer) && fresh(buffer.data) && buffer.Valid()
    ensures buffer.Contents() == Packet(Content(cfg, m.protocolVersion, m.originDestination, m.rewrittenDestination,
                                                ChosenPort(m.rewrittenPort, m.originPort), INTENT_STATUS))
                               + Packet([0])
  {
    hide Content, Packet;
    buffer := BuildHandshake(cfg, m, INTENT_STATUS);
    ghost var packet, all := buffer.Contents(), buffer.data[..buffer.end];
    assert packet == all[buffer.start..];
    var _ := buffer.WriteByte(1);
    var _ := buffer.WriteByte(0);
    StatusRequest();
    assert buffer.data[..buffer.end] == all + [1] + [0];
    assert buffer.Contents() == (all + [1] + [0])[buffer.start..];
    assert (all + [1] + [0])[buffer.start..] == packet + [1, 0];
  }

  /** Status, outbound.go:349-400 when the answer comes from the server: the client's status request
      is skipped and one of our own follows the handshake, which carries the chosen values. */
  method SendStatus(conn: CachedConn, cfg: Config, m: Metadata, server: Sink) returns (ok: bool)
    requires conn.Valid() && 0 <= m.sniffPosition <= conn.End()
    requires m.Valid() && m.protocolVersion < 0x8000_0000 && m.rewrittenPort < 0x1_0000 && m.originPort < 0x1_0000
    requires |Content(cfg, m.protocolVersion, m.originDestination, m.rewrittenDestination,
                      ChosenPort(m.rewrittenPort, m.originPort), INTENT_STATUS)| <= BUFFER_SIZE - MAX_VARINT_LEN - 2
    modifies m, server, conn`cache, conn.conn, conn.cache, if conn.cache == null then {} else {conn.cache.data}
    ensures conn.Valid() && m.Valid() && (ok <==> m.sniffPosition + 2 <= conn.Reach())
    ensures !ok ==> server.written == old(server.written)
    ensures ok ==>
              var host := ChosenHost(cfg, old(m.rewrittenDestination), old(m.originDestination));
              var port := ChosenPort(old(m.rewrittenPort), old(m.originPort));
              var content := Content(cfg, old(m.protocolVersion), old(m.originDestination), old(m.rewrittenDestination),
                                     port, INTENT_STATUS);
              && conn.Pos() == m.sniffPosition + 2
              && server.written == old(server.written) + (Packet(content) + Packet([0]))
              && var sent := Handshake(old(m.protocolVersion), host, port, INTENT_STATUS);
              && Told(Packet(content) + Packet([0]), |content|, sent)
              && SentAs(sent, Handshake(old(m.protocolVersion), old(m.originDestination), old(m.originPort), 1), 1, cfg,
                        old(m.rewrittenDestination), old(m.rewrittenPort))
  {
    hide Content, Packet, StatusHost, ChosenHost, Told, SentAs;
    ChosenIsSent(Handshake(m.protocolVersion, m.originDestination, m.originPort, INTENT_STATUS), 1, cfg,
                 m.rewrittenDestination, m.rewrittenPort);
    ghost var version, origin, rewritten := m.protocolVersion, m.originDestination, m.rewrittenDestination;
    ghost var port := ChosenPort(m.rewrittenPort, m.originPort);
    conn.Rewind(m.sniffPosition);
    var skipped, err := conn.Peek(2);
    if err.Some? {
      return false;
    }
    SettleDestination(m);
    SettledContent(cfg, version, origin, rewritten, port, INTENT_STATUS);
    var buffer := BuildStatus(cfg, m);
    server.Write(buffer.data[buffer.start..buffer.end]);
    RewrittenParses(cfg, version, origin, rewritten, port, INTENT_STATUS, Packet([0]));
    ok := true;
  }

  lemma SettledContent(cfg: Config, version: nat, origin: bytes, rewritten: bytes, port: nat, intent: byte)
    ensures Content(cfg, version, origin, StatusHost(rewritten, origin), port, intent) ==
            Content(cfg, version, origin, rewritten, port, intent)
  {
    hide ChosenHost, EncodeAll, Fields;
    SettledHost(cfg, rewritten, origin);
  }

  /** b starts with the handshake sent, in a packet of size bytes: sniffing it gives exactly that back,
      unless it is longer than 264 bytes or names no host, version or port. */
  ghost predicate Told(b: bytes, size: nat, sent: Handshake) {
    Parse(b) ==
    if size > 264 || sent.version == 0 then Err(BadPacket)
    else if sent.host == [] then Err(ReadFailed)
    else if sent.port == 0 then Err(BadPacket)
    else Ok((sent, |Encoded(ToInt32(size))| + size))
  }

  lemma RewrittenParses(cfg: Config, version: nat, origin: bytes, rewritten: bytes, port: nat, intent: byte,
                        more: bytes)
    requires version < 0x8000_0000 && port < 0x1_0000 && 1 <= intent <= 3
    requires |Content(cfg, version, origin, rewritten, port, intent)| <= BUFFER_SIZE
    ensures var content := Content(cfg, version, origin, rewritten, port, intent);
            Told(Packet(content) + more, |content|,
                 Handshake(version, ChosenHost(cfg, rewritten, origin), port, intent))
  {
    hide Parse, ChosenHost, EncodeAll, Fields, Encoded, ToInt32;
    BuiltParses(version, ChosenHost(cfg, rewritten, origin), port, intent, more);
  }

  // ---------------------------------------------------------------- from the client to the server

  /** What the sniffer accepts fits the fields it fills. */
  lemma ParseRanges(b: bytes)
    ensures match Parse(b) {
              case Err(_) => true
              case Ok((h, n)) =>
                && 0 < h.version < 0x8000_0000 && 0 < h.port < 0x1_0000 && h.host != [] && 1 <= h.intent <= 3
                && n <= |b|
            }
  {
    hide ParseContent, ReadVarInt, Value;
    ReadWithin(b);
    var r := ReadVarInt(b);
    if r.Done? && 0 <= Value(r.v) <= |b| - r.n {
      TakenRanges(b[r.n..r.n + Value(r.v)]);
    }
  }

  /** What the sniffer makes of the bytes after a handshake, sniff.go:88-164: a status request of two
      bytes, or a Login Start packet; and how far it reads. */
  function FollowUp(b: bytes, h: Handshake, uuid: Uuid): (r: Result<nat, Failure>)
    ensures r.Ok? ==> r.value <= |b|
  {
    if h.intent == INTENT_STATUS then (if |b| < 2 then Err(ReadFailed) else Ok(2))
    else match Frame(b, None)
         case Err(f) => Err(f)
         case Ok((content, n)) =>
           match ParseLogin(content, h.version, uuid)
           case Err(f) => Err(f)
           case Ok(_) => Ok(n)
  }

  /** The second half of SniffClientHandshake. */
  method SniffFollowUp(conn: CachedConn, m: Metadata) returns (r: Result<(), Failure>)
    requires conn.Valid() && conn.Pos() <= conn.Reach() && conn.cache != null
    modifies m`playerName, m`uuid
    modifies conn`cache, conn`lost, conn.conn, conn.cache, if conn.cache == null then {} else {conn.cache.data}
    ensures conn.Valid() && (conn.cache == old(conn.cache) || (fresh(conn.cache) && fresh(conn.cache.data)))
    ensures var b := old(conn.Ahead());
            if m.nextState == INTENT_STATUS as int then r == if |b| < 2 then Err(ReadFailed) else Ok(())
            else match Frame(b, None)
                 case Err(f) => r == Err(f)
                 case Ok((content, n)) =>
                   match ParseLogin(content, m.protocolVersion, old(m.uuid))
                   case Err(f) => r == Err(f)
                   case Ok(login) => r == Ok(()) && m.playerName == login.name && m.uuid == login.uuid
    ensures r.Ok? ==>
              && conn.cache != null
              && conn.Pos() == old(conn.Pos())
                               + (if m.nextState == INTENT_STATUS as int then 2
                                  else Frame(old(conn.Ahead()), None).value.1)
  {
    hide Frame, ParseLogin;
    if m.nextState == INTENT_STATUS as int {
      var _, ok := Take(conn, 2);
      return if ok then Ok(()) else Err(ReadFailed);
    }
    var content := TakeFrame(conn, None);
    match content
    case Err(f) => r := Err(f);
    case Ok(c) => r := SniffLoginStart(c, m);
  }

  /** SniffClientHandshake, sniff.go:25-168. */
  method SniffClient(conn: CachedConn, m: Metadata) returns (r: Result<(), Failure>)
    requires conn.Valid() && conn.Pos() <= conn.Reach() && m.fmlMarkup == []
    modifies m, conn`cache, conn`lost, conn.conn, conn.cache, if conn.cache == null then {} else {conn.cache.data}
    ensures conn.Valid() && m.Valid()
    ensures conn.cache == old(conn.cache) || (fresh(conn.cache) && fresh(conn.cache.data))
    ensures m.rewrittenDestination == old(m.rewrittenDestination) && m.rewrittenPort == old(m.rewrittenPort)
    ensures match Parse(old(conn.Ahead())) {
              case Err(f) => r == Err(f)
              case Ok((h, n)) =>
                && n <= |old(conn.Ahead())|
                && var next := FollowUp(old(conn.Ahead())[n..], h, old(m.uuid));
                match next
                case Err(f) => r == Err(f)
                case Ok(k) =>
                  && r == Ok(()) && conn.cache != null && Records(m, h)
                  && m.sniffPosition == old(conn.Pos()) + n && conn.Pos() == m.sniffPosition + k
            }
    ensures r.Ok? ==>
              var (h, n) := Parse(old(conn.Ahead())).value;
              h.intent != INTENT_STATUS ==>
                ParseLogin(Frame(old(conn.Ahead())[n..], None).value.0, h.version, old(m.uuid))
                == Ok(Login(m.playerName, m.uuid))
  {
    hide Parse, Frame, ParseLogin;
    ghost var b := conn.Ahead();
    ParseRanges(b);
    r := SniffHandshake(conn, m);
    if r.Ok? {
      assert conn.Ahead() == b[Parse(b).value.1..];
      r := SniffFollowUp(conn, m);
    }
  }

  /** The sniffer panics on a client exactly when a handshake of version 759 or 760 that is no status
      request is followed by a whole packet with a name and signature data leading outside it. */
  lemma PanicsExactly(b: bytes, uuid: Uuid)
    ensures Parse(b) != Err(Overran)
    ensures Parse(b).Ok? ==>
              var (h, n) := Parse(b).value;
              n <= |b| &&
              (FollowUp(b[n..], h, uuid) == Err(Overran) <==>
               && h.intent != INTENT_STATUS
               && 759 <= h.version < 761
               && Frame(b[n..], None).Ok?
               && var c := Frame(b[n..], None).value.0;
               AfterName(c).Ok?
               && var rest := AfterName(c).value.1;
               rest != [] && rest[0] == 1 && SignatureLeads(c, |c| - |rest| + 1))
  {
    hide ReadVarInt, Value, ScanVarInt, ScanText, ParseLogin, AfterName, SignatureLeads;
    ParseRanges(b);
    if Parse(b).Ok? {
      var (h, n) := Parse(b).value;
      var f := Frame(b[n..], None);
      if f.Ok? {
        OverranExactly(f.value.0, h.version, uuid);
      }
    }
  }

  /** A client of version 759 named "a" that announces signature data and sends none. */
  method PanickingClient(script: seq<nat>) returns (r: Result<(), Failure>)
    ensures r == Err(Overran)
  {
    hide Parse, FollowUp, Packet, EncodeAll, Fields, Encode, Frame, ParseLogin;
    var hello := Packet(EncodeAll(Fields(759, [97], 25565, INTENT_LOGIN)));
    var login := Packet([0] + (Encode(Text([97])) + [1]));
    var source := new Source(hello + login, script);
    var conn := new CachedConn(source);
    var m := new Metadata();
    Overrunning(hello, login, m.uuid);
    assert conn.Ahead() == hello + login;
    r := SniffClient(conn, m);
  }

  lemma Overrunning(hello: bytes, login: bytes, uuid: Uuid)
    requires hello == Packet(EncodeAll(Fields(759, [97], 25565, INTENT_LOGIN)))
    requires login == Packet([0] + (Encode(Text([97])) + [1]))
    ensures |hello + login| < CACHE_SIZE
    ensures var h := Handshake(759, [97], 25565, INTENT_LOGIN);
            && Parse(hello + login) == Ok((h, |hello|))
            && FollowUp((hello + login)[|hello|..], h, uuid) == Err(Overran)
  {
    hide Parse, Fields, EncodeAll, ParseLogin, Encoded, ToInt32, Value, ReadVarInt;
    FieldsLength(759, [97], 25565, INTENT_LOGIN);
    BuiltParses(759, [97], 25565, INTENT_LOGIN, login);
    NothingSigned([97], uuid);
    var c := [0] + (Encode(Text([97])) + [1]);
    VarIntLenIs(ToInt32(1));
    VarIntLenIs(ToInt32(|c|));
    VarIntLenIs(ToInt32(|EncodeAll(Fields(759, [97], 25565, INTENT_LOGIN))|));
    assert |c| <= 8;
    assert (hello + login)[|hello|..] == login == login + [];
    PacketLength(c, []);
    ReadWithin(login);
  }

  /** A login from the client's first byte to the server: sniffed, rewritten, sent on.  The server gets
      one handshake with the chosen host and port, followed by exactly the bytes the client sent after
      its own handshake, the Login Start among them; and sniffing that handshake gives those values
      back exactly when the host is not empty and the packet is not longer than a sniffer takes. */
  method ForwardLogin(conn: CachedConn, cfg: Config, m: Metadata, server: Sink) returns (r: Result<(), Failure>)
    requires conn.Valid() && conn.Pos() <= conn.Reach() && m.fmlMarkup == [] && m.rewrittenPort < 0x1_0000
    requires match Parse(conn.Ahead()) {
               case Err(_) => true
               case Ok((h, n)) =>
                 && h.intent == INTENT_LOGIN
                 && |LoginContent(cfg, h, m.rewrittenDestination, m.rewrittenPort)| <= BUFFER_SIZE - MAX_VARINT_LEN
             }
    modifies m, server
    modifies conn`cache, conn`lost, conn.conn, conn.cache, if conn.cache == null then {} else {conn.cache.data}
    ensures conn.Valid() && m.Valid()
    ensures r.Err? ==> server.written == old(server.written)
    ensures match Parse(old(conn.Ahead())) {
              case Err(f) => r == Err(f)
              case Ok((h, n)) =>
                var host := ChosenHost(cfg, old(m.rewrittenDestination), h.host);
                var port := ChosenPort(old(m.rewrittenPort), h.port);
                var content := LoginContent(cfg, h, old(m.rewrittenDestination), old(m.rewrittenPort));
                var start := old(conn.Pos()) + n;
                && n <= |old(conn.Ahead())|
                && var login := FollowUp(old(conn.Ahead())[n..], h, old(m.uuid));
                && (login.Err? ==> r == Err(login.error))
                && (login.Ok? ==>
                      && r == Ok(())
                      && start + login.value <= conn.End() <= |conn.original|
                      && conn.Pos() == conn.End()
                      && server.written == old(server.written) + (Packet(content) + conn.original[start..conn.End()])
                      && var sent := Handshake(h.version, host, port, INTENT_LOGIN);
                      && Told(Packet(content) + conn.original[start..conn.End()], |content|, sent)
                      && SentAs(sent, h, 2, cfg, old(m.rewrittenDestination), old(m.rewrittenPort)))
            }
  {
    hide Parse, Content, Packet, ChosenHost, FollowUp, Frame, ParseLogin, SentAs, Told;
    ghost var b := conn.Ahead();
    ParseRanges(b);
    r := SniffClient(conn, m);
    if r.Ok? {
      conn.HeldIsStream();
      SendLogin(conn, cfg, m, server);
      ghost var h := Parse(b).value.0;
      ChosenIsSent(h, 2, cfg, old(m.rewrittenDestination), old(m.rewrittenPort));
      RewrittenParses(cfg, h.version, h.host, old(m.rewrittenDestination), ChosenPort(old(m.rewrittenPort), h.port),
                      INTENT_LOGIN, conn.original[m.sniffPosition..conn.End()]);
    }
  }

  function LoginContent(cfg: Config, h: Handshake, rewritten: bytes, port: nat): bytes {
    Content(cfg, h.version, h.host, rewritten, ChosenPort(port, h.port), INTENT_LOGIN)
  }
}

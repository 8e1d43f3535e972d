/** PROXY protocol headers, version 2 (common/proxyprotocol/client_v2.go, server.go, server_v2.go;
    section 2.2 of the HAProxy PROXY protocol specification). */
module Proxy {
  import opened Bytes
  import opened Numbers
  import opened Buffers
  import opened CachedConn
  import opened PacketConn
  import opened Wrappers

  const COMMAND_LOCAL: byte := 0
  const COMMAND_PROXY: byte := 1
  const FAMILY_IPV4: byte := 0x10
  const FAMILY_IPV6: byte := 0x20
  const FAMILY_UNIX: byte := 0x30
  const VERSION_2: byte := 2

  const IDENTITY_V1: bytes := [80, 82, 79, 88, 89, 32]                          // "PROXY "
  const IDENTITY_V2: bytes := [13, 10, 13, 10, 0, 13, 10, 81, 85, 73, 84, 10]   // "\r\n\r\n\0\r\nQUIT\n"

  /** netip.Addr without a zone. */
  datatype Addr = V4(b: bytes) | V6(b: bytes)

  datatype AddrPort = NoAddr | At(addr: Addr, port: nat)

  datatype Header = Header(version: byte, command: byte, transport: byte, source: AddrPort)

  datatype Error = Short | NotProxy | Version1 | BadVersion | BadCommand
                 | BadSource | BadDestination | UnixSocket | BadFamily

  ghost predicate IsAddr(a: Addr) {
    |a.b| == if a.V4? then 4 else 16
  }

  ghost predicate IsAddrPort(p: AddrPort) {
    p.At? ==> IsAddr(p.addr) && p.port < 0x1_0000
  }

  /** netip.Addr.Unmap: ::ffff:a.b.c.d is a.b.c.d. */
  function Unmap(a: Addr): Addr {
    if a.V6? && |a.b| == 16 && a.b[..12] == [0, 0, 0, 0, 0, 0, 0, 0, 0, 0, 255, 255] then V4(a.b[12..]) else a
  }

  function Family(transport: byte): byte {
    transport / 16 * 16
  }

  // ---------------------------------------------------------------- layout

  function Unspecified(n: nat): (r: bytes)
    ensures |r| == n
  {
    seq(n, _ => 0)
  }

  function Addresses(source: AddrPort, destination: AddrPort, n: nat): bytes
    requires source.At?
  {
    BigEndian(2 * n + 4, 2) + source.addr.b + (if destination.At? then destination.addr.b else Unspecified(n))
    + BigEndian(source.port, 2) + BigEndian(if destination.At? then destination.port else 0, 2)
  }

  /** What writeHeader2 sends, client_v2.go:14-82. */
  function HeaderBytes(h: Header, destination: AddrPort): Result<bytes, Error> {
    if h.command != COMMAND_LOCAL && h.command != COMMAND_PROXY then Err(BadCommand)
    else
      var start := IDENTITY_V2 + [(h.version % 16) * 16 + h.command] + [h.transport];
      if h.command == COMMAND_LOCAL then Ok(start + [0, 0])
      else if Family(h.transport) == FAMILY_IPV4 then
        if !(h.source.At? && h.source.addr.V4?) then Err(BadSource)
        else if destination.At? && !destination.addr.V4? then Err(BadDestination)
        else Ok(start + Addresses(h.source, destination, 4))
      else if Family(h.transport) == FAMILY_IPV6 then
        if !(h.source.At? && h.source.addr.V6?) then Err(BadSource)
        else if destination.At? && !destination.addr.V6? then Err(BadDestination)
        else Ok(start + Addresses(h.source, destination, 16))
      else if Family(h.transport) == FAMILY_UNIX then Err(UnixSocket)
      else Err(BadFamily)
  }

  /** The source address in the rest of a header, server_v2.go:56-106. */
  function ParseSource(rest: bytes, n: nat): Result<AddrPort, Error> {
    if |rest| < 2 * n + 4 then Err(Short)
    else
      var a := rest[..n];
      Ok(At(if n == 4 then V4(a) else Unmap(V6(a)), FromBigEndian(rest[2 * n..2 * n + 2])))
  }

  /** The command, the transport byte and the length of the rest, server_v2.go:16-49. */
  function ParsePrefix(b: bytes): Result<(byte, byte, nat), Error> {
    if |b| < 1 then Err(Short)
    else if b[0] / 16 != 2 then Err(BadVersion)
    else if b[0] % 16 != COMMAND_LOCAL && b[0] % 16 != COMMAND_PROXY then Err(BadCommand)
    else if |b| < 4 then Err(Short)
    else Ok((b[0] % 16, b[1], FromBigEndian(b[2..4])))
  }

  /** readHeader2 on the bytes after the identity, server_v2.go:15-110: the header and its length. */
  function Parse2(b: bytes): Result<(Header, nat), Error> {
    match ParsePrefix(b)
    case Err(e) => Err(e)
    case Ok((command, transport, restLen)) =>
      if |b| < 4 + restLen then Err(Short)
      else match ParseRest(command, transport, b[4..4 + restLen])
           case Err(e) => Err(e)
           case Ok(h) => Ok((h, 4 + restLen))
  }

  /** The header a command, a transport byte and an address block make, server_v2.go:32-109. */
  function ParseRest(command: byte, transport: byte, rest: bytes): Result<Header, Error> {
    var h := Header(VERSION_2, command, transport, NoAddr);
    if command == COMMAND_LOCAL then Ok(h)
    else
      var family := Family(transport);
      if family == FAMILY_UNIX then Err(UnixSocket)
      else if family != FAMILY_IPV4 && family != FAMILY_IPV6 then Err(BadFamily)
      else match ParseSource(rest, if family == FAMILY_IPV4 then 4 else 16)
           case Err(e) => Err(e)
           case Ok(source) => Ok(h.(source := source))
  }

  /** ReadHeader, server.go:33-53, short of version 1. */
  function Parse(b: bytes): Result<(Header, nat), Error> {
    if |b| < 6 then Err(Short)
    else if b[..6] == IDENTITY_V1 then Err(Version1)
    else if b[..6] != IDENTITY_V2[..6] then Err(NotProxy)
    else if |b| < 12 then Err(Short)
    else if b[6..12] != IDENTITY_V2[6..] then Err(NotProxy)
    else match Parse2(b[12..])
         case Err(e) => Err(e)
         case Ok((h, n)) => Ok((h, 12 + n))
  }

  // ---------------------------------------------------------------- round trip

  /** What a reader is left with of a header written. */
  function Received(h: Header): Header {
    Header(VERSION_2, h.command, h.transport,
           if h.command == COMMAND_LOCAL || h.source.NoAddr? then NoAddr else At(Unmap(h.source.addr), h.source.port))
  }

  /** A source written is received as itself, but an IPv4-mapped IPv6 address as the IPv4 address. */
  lemma SourceReceived(h: Header, x: bytes)
    requires h.command == 1 && h.source.At? && IsAddrPort(h.source) && |x| == 4
    ensures h.source.addr == V6([0, 0, 0, 0, 0, 0, 0, 0, 0, 0, 255, 255] + x) ==>
              Received(h).source == At(V4(x), h.source.port)
    ensures h.source.addr.V4? ==> Received(h).source == h.source
    ensures h.source.addr.V6? && h.source.addr.b[..12] != [0, 0, 0, 0, 0, 0, 0, 0, 0, 0, 255, 255] ==>
              Received(h).source == h.source
    ensures Received(h).command == 1 && Received(h).transport == h.transport && Received(h).version == 2
  {
    var mapped: bytes := [0, 0, 0, 0, 0, 0, 0, 0, 0, 0, 255, 255];
    assert (mapped + x)[..12] == mapped && (mapped + x)[12..] == x;
  }

  lemma AddressesParse(source: AddrPort, destination: AddrPort, n: nat, payload: bytes)
    requires n == 4 || n == 16
    requires source.At? && IsAddrPort(source) && IsAddrPort(destination) && |source.addr.b| == n
    requires destination.At? ==> |destination.addr.b| == n
    ensures var b := Addresses(source, destination, n) + payload;
            && |Addresses(source, destination, n)| == 2 * n + 6
            && FromBigEndian(b[0..2]) == 2 * n + 4
            && ParseSource(b[2..2 * n + 6], n) ==
               Ok(At(if n == 4 then V4(source.addr.b) else Unmap(V6(source.addr.b)), source.port))
  {
    hide BigEndian, FromBigEndian, Unmap;
    var dst := if destination.At? then destination.addr.b else Unspecified(n);
    var dstPort := BigEndian(if destination.At? then destination.port else 0, 2);
    var b := Addresses(source, destination, n) + payload;
    Widths();
    BigEndianRoundTrip(2 * n + 4, 2);
    BigEndianRoundTrip(source.port, 2);
    assert b[0..2] == BigEndian(2 * n + 4, 2);
    var rest := b[2..2 * n + 6];
    assert rest == source.addr.b + dst + BigEndian(source.port, 2) + dstPort;
    assert rest[..n] == source.addr.b;
    assert rest[2 * n..2 * n + 2] == BigEndian(source.port, 2);
  }

  lemma IdentityParses(rest: bytes)
    ensures Parse(IDENTITY_V2 + rest) ==
            match Parse2(rest) { case Err(e) => Err(e) case Ok((h, n)) => Ok((h, 12 + n)) }
  {
    hide Parse2;
    var b := IDENTITY_V2 + rest;
    assert b[..6] == IDENTITY_V2[..6] && b[6..12] == IDENTITY_V2[6..] && b[12..] == rest;
    assert IDENTITY_V2[..6][0] != IDENTITY_V1[0];
  }

  lemma LocalParses(transport: byte, payload: bytes)
    ensures Parse2([0x20, transport, 0, 0] + payload) == Ok((Header(VERSION_2, COMMAND_LOCAL, transport, NoAddr), 4))
  {
    hide FromBigEndian;
    var b := [0x20, transport, 0, 0] + payload;
    assert b[2..4] == [0, 0];
    TwoZeros();
  }

  lemma ProxyParses(transport: byte, source: AddrPort, destination: AddrPort, n: nat, payload: bytes)
    requires (n == 4 && Family(transport) == FAMILY_IPV4) || (n == 16 && Family(transport) == FAMILY_IPV6)
    requires source.At? && IsAddrPort(source) && IsAddrPort(destination) && |source.addr.b| == n
    requires destination.At? ==> |destination.addr.b| == n
    ensures Parse2([0x21, transport] + Addresses(source, destination, n) + payload) ==
            Ok((Header(VERSION_2, COMMAND_PROXY, transport, At(Unmap(source.addr), source.port)), 8 + 2 * n))
  {
    hide FromBigEndian, Unmap, Addresses, ParseSource;
    AddressesParse(source, destination, n, payload);
    UnmapV4(source.addr);
    var tail := Addresses(source, destination, n) + payload;
    var b := [0x21, transport] + Addresses(source, destination, n) + payload;
    assert b[2..] == tail;
    assert b[2..4] == tail[0..2] && b[4..4 + (2 * n + 4)] == tail[2..2 * n + 6];
  }

  /** Any header that can be written is read back, with mapped addresses unmapped, and the reader
      stops at the first byte of the payload. */
  lemma ParseOfHeader(h: Header, destination: AddrPort, payload: bytes)
    requires h.version == VERSION_2 && IsAddrPort(h.source) && IsAddrPort(destination)
    requires HeaderBytes(h, destination).Ok?
    ensures var w := HeaderBytes(h, destination).value;
            |w| <= 54 && Parse(w + payload) == Ok((Received(h), |w|))
  {
    hide Parse, Parse2, Addresses, Unmap;
    var w := HeaderBytes(h, destination).value;
    if h.command == COMMAND_LOCAL {
      LocalParses(h.transport, payload);
      IdentityParses([0x20, h.transport, 0, 0] + payload);
      assert w + payload == IDENTITY_V2 + ([0x20, h.transport, 0, 0] + payload);
    } else {
      var n := if Family(h.transport) == FAMILY_IPV4 then 4 else 16;
      ProxyParses(h.transport, h.source, destination, n, payload);
      AddressesParse(h.source, destination, n, payload);
      var rest := [0x21, h.transport] + Addresses(h.source, destination, n) + payload;
      IdentityParses(rest);
      assert w + payload == IDENTITY_V2 + rest;
    }
  }

  lemma TwoZeros()
    ensures FromBigEndian([0, 0]) == 0
  {
    assert [0, 0][..1] == [0] && [0][..0] == [];
    assert FromBigEndian([0]) == 0;
  }

  lemma UnmapV4(a: Addr)
    ensures a.V4? ==> Unmap(a) == a
  {
  }

  // ---------------------------------------------------------------- the code

  method Append(buffer: Buffer, p: bytes)
    requires buffer.Valid() && buffer.end + |p| <= buffer.data.Length
    modifies buffer`end, buffer.data
    ensures buffer.Valid() && buffer.end == old(buffer.end) + |p|
    ensures buffer.data[..buffer.end] == old(buffer.data[..buffer.end]) + p
  {
    var n, _ := buffer.Write(p);
    assert p[..n] == p;
  }

  /** writeHeader2, client_v2.go:14-82: a header goes out whole, or nothing does. */
  method WriteHeader2(w: Sink, h: Header, dst: AddrPort) returns (r: Result<(), Error>)
    requires IsAddrPort(h.source) && IsAddrPort(dst)
    modifies w
    ensures match HeaderBytes(h, dst) {
              case Ok(b) => r == Ok(()) && w.written == old(w.written) + b
              case Err(e) => r == Err(e) && w.written == old(w.written)
            }
  {
    hide Addresses, Unspecified;
    var destination := dst;
    var buffer := new Buffer(8192);
    Append(buffer, IDENTITY_V2);
    assert buffer.data[..buffer.end] == IDENTITY_V2;
    if h.command != COMMAND_LOCAL && h.command != COMMAND_PROXY {
      return Err(BadCommand);
    }
    Append(buffer, [(h.version % 16) * 16 + h.command]);
    Append(buffer, [h.transport]);
    ghost var start := buffer.data[..buffer.end];
    if h.command == COMMAND_LOCAL {
      var _ := buffer.WriteZeroN(2);
      assert buffer.data[..buffer.end] == start + [0, 0];
      w.Write(buffer.data[buffer.start..buffer.end]);
      return Ok(());
    }
    if Family(h.transport) == FAMILY_IPV4 {
      if !(h.source.At? && h.source.addr.V4?) {
        return Err(BadSource);
      }
      if destination.At? {
        if !destination.addr.V4? {
          return Err(BadDestination);
        }
      } else {
        destination := At(V4(Unspecified(4)), 0);
        DefaultDestination(h.source, 4);
      }
      AppendAddresses(buffer, h.source, destination, 4);
    } else if Family(h.transport) == FAMILY_IPV6 {
      if !(h.source.At? && h.source.addr.V6?) {
        return Err(BadSource);
      }
      if destination.At? {
        if !destination.addr.V6? {
          return Err(BadDestination);
        }
      } else {
        destination := At(V6(Unspecified(16)), 0);
        DefaultDestination(h.source, 16);
      }
      AppendAddresses(buffer, h.source, destination, 16);
    } else if Family(h.transport) == FAMILY_UNIX {
      return Err(UnixSocket);
    } else {
      return Err(BadFamily);
    }
    w.Write(buffer.data[buffer.start..buffer.end]);
    r := Ok(());
  }

  method AppendAddresses(buffer: Buffer, source: AddrPort, destination: AddrPort, n: nat)
    requires buffer.Valid() && buffer.end + 2 * n + 6 <= buffer.data.Length
    requires source.At? && destination.At? && |source.addr.b| == |destination.addr.b| == n
    modifies buffer`end, buffer.data
    ensures buffer.Valid()
    ensures buffer.data[..buffer.end] == old(buffer.data[..buffer.end]) + Addresses(source, destination, n)
  {
    hide BigEndian, Addresses;
    ghost var before := buffer.data[..buffer.end];
    AddressesAre(source, destination, n);
    Append(buffer, BigEndian(2 * n + 4, 2));
    Append(buffer, source.addr.b);
    Append(buffer, destination.addr.b);
    Append(buffer, BigEndian(source.port, 2));
    Append(buffer, BigEndian(destination.port, 2));
    Grouped(before, BigEndian(2 * n + 4, 2), source.addr.b, destination.addr.b, BigEndian(source.port, 2),
            BigEndian(destination.port, 2));
  }

  lemma AddressesAre(source: AddrPort, destination: AddrPort, n: nat)
    requires source.At? && destination.At?
    ensures Addresses(source, destination, n) ==
            BigEndian(2 * n + 4, 2) + source.addr.b + destination.addr.b + BigEndian(source.port, 2)
            + BigEndian(destination.port, 2)
  {
    hide BigEndian;
  }

  lemma Grouped(before: bytes, a: bytes, b: bytes, c: bytes, d: bytes, e: bytes)
    ensures before + a + b + c + d + e == before + (a + b + c + d + e)
  {
  }

  /** No destination is written as the unspecified address and port 0. */
  lemma DefaultDestination(source: AddrPort, n: nat)
    requires source.At?
    ensures Addresses(source, At(V4(Unspecified(n)), 0), n) == Addresses(source, NoAddr, n)
    ensures Addresses(source, At(V6(Unspecified(n)), 0), n) == Addresses(source, NoAddr, n)
  {
    hide BigEndian;
  }

  /** The first three reads of readHeader2. */
  method ReadPrefix(conn: CachedConn) returns (r: Result<(byte, byte, nat), Error>)
    requires conn.Valid()
    modifies conn`cache, conn.conn, conn.cache, if conn.cache == null then {} else {conn.cache.data}
    ensures conn.Valid() && old(conn.Pos()) <= conn.Reach() && conn.Pos() <= conn.Reach()
    ensures conn.cache == old(conn.cache) || (fresh(conn.cache) && fresh(conn.cache.data))
    ensures r == ParsePrefix(old(conn.Ahead()))
    ensures r.Ok? ==> conn.Ahead() == old(conn.Ahead())[4..] && conn.Pos() == old(conn.Pos()) + 4
  {
    hide FromBigEndian;
    conn.HeldIsStream();
    ghost var b := conn.Ahead();
    var p, ok := Take(conn, 1);
    if !ok {
      return Err(Short);
    }
    var command := p[0] % 16;
    if p[0] / 16 != 2 {
      return Err(BadVersion);
    }
    if command != COMMAND_LOCAL && command != COMMAND_PROXY {
      return Err(BadCommand);
    }
    ghost var tail := conn.Ahead();
    assert tail == b[1..];
    var transport, restLen;
    transport, restLen, ok := ReadLength(conn);
    if !ok {
      return Err(Short);
    }
    assert tail[3..] == b[4..] && tail[1..3] == b[2..4];
    r := Ok((command, transport, restLen));
  }

  /** The transport byte and the length after it. */
  method ReadLength(conn: CachedConn) returns (transport: byte, restLen: nat, ok: bool)
    requires conn.Valid()
    modifies conn`cache, conn.conn, conn.cache, if conn.cache == null then {} else {conn.cache.data}
    ensures conn.Valid() && old(conn.Pos()) <= conn.Reach() && conn.Pos() <= conn.Reach()
    ensures conn.cache == old(conn.cache) || (fresh(conn.cache) && fresh(conn.cache.data))
    ensures ok <==> |old(conn.Ahead())| >= 3
    ensures ok ==> transport == old(conn.Ahead())[0] && restLen == FromBigEndian(old(conn.Ahead())[1..3])
    ensures ok ==> conn.Ahead() == old(conn.Ahead())[3..] && conn.Pos() == old(conn.Pos()) + 3
  {
    hide FromBigEndian;
    conn.HeldIsStream();
    ghost var b := conn.Ahead();
    transport, restLen := 0, 0;
    var p;
    p, ok := Take(conn, 1);
    if !ok {
      return;
    }
    transport := p[0];
    p, ok := Take(conn, 2);
    if !ok {
      return;
    }
    assert b[1..][..2] == b[1..3] && b[1..][2..] == b[3..];
    restLen := FromBigEndian(p);
  }

  /** readHeader2, server_v2.go:15-110. */
  method ReadHeader2(conn: CachedConn) returns (r: Result<Header, Error>)
    requires conn.Valid()
    modifies conn`cache, conn.conn, conn.cache, if conn.cache == null then {} else {conn.cache.data}
    ensures conn.Valid() && old(conn.Pos()) <= conn.Reach()
    ensures match Parse2(old(conn.Ahead())) {
              case Err(e) => r == Err(e)
              case Ok((h, n)) => r == Ok(h) && conn.Pos() == old(conn.Pos()) + n
            }
  {
    hide ParsePrefix, ParseRest;
    conn.HeldIsStream();
    ghost var b := conn.Ahead();
    PrefixInside(b);
    var prefix := ReadPrefix(conn);
    if prefix.Err? {
      return Err(prefix.error);
    }
    var (command, transport, restLen) := prefix.value;
    var p, ok := Take(conn, restLen);
    if !ok {
      return Err(Short);
    }
    assert p == b[4..4 + restLen];
    r := FinishHeader(command, transport, p);
  }

  lemma PrefixInside(b: bytes)
    ensures var r := ParsePrefix(b);
            r.Ok? ==> 4 <= |b| && (r.value.0 == COMMAND_LOCAL || r.value.0 == COMMAND_PROXY)
  {
  }

  method FinishHeader(command: byte, transport: byte, rest: bytes) returns (r: Result<Header, Error>)
    requires command == COMMAND_LOCAL || command == COMMAND_PROXY
    ensures r == ParseRest(command, transport, rest)
  {
    hide ParseSource;
    var header := Header(VERSION_2, command, transport, NoAddr);
    if command == COMMAND_PROXY {
      var family := Family(transport);
      if family == FAMILY_IPV4 || family == FAMILY_IPV6 {
        var source := ReadSource(rest, if family == FAMILY_IPV4 then 4 else 16);
        if source.Err? {
          return Err(source.error);
        }
        header := header.(source := source.value);
      } else if family == FAMILY_UNIX {
        return Err(UnixSocket);
      } else {
        return Err(BadFamily);
      }
    }
    r := Ok(header);
  }

  /** The four reads of an address block, server_v2.go:61-78 and 81-98. */
  method ReadSource(rest: bytes, n: nat) returns (r: Result<AddrPort, Error>)
    requires n == 4 || n == 16
    ensures r == ParseSource(rest, n)
  {
    hide FromBigEndian, Unmap;
    var buffer := new Buffer.As(rest);
    assert buffer.data[..] == rest;
    var raw, err := buffer.Peek(n);
    if err.Some? {
      return Err(Short);
    }
    var skipped;
    skipped, err := buffer.Peek(n);
    if err.Some? {
      return Err(Short);
    }
    var port;
    port, err := buffer.Peek(2);
    if err.Some? {
      return Err(Short);
    }
    skipped, err := buffer.Peek(2);
    if err.Some? {
      return Err(Short);
    }
    assert raw == rest[..n] && port == rest[2 * n..2 * n + 2];
    r := Ok(At(if n == 4 then V4(raw) else Unmap(V6(raw)), FromBigEndian(port)));
  }

  /** ReadHeader, server.go:33-53: the identity in two stages. */
  method ReadHeader(conn: CachedConn) returns (r: Result<Header, Error>)
    requires conn.Valid()
    modifies conn`cache, conn.conn, conn.cache, if conn.cache == null then {} else {conn.cache.data}
    ensures conn.Valid() && old(conn.Pos()) <= conn.Reach()
    ensures match Parse(old(conn.Ahead())) {
              case Err(e) => r == Err(e)
              case Ok((h, n)) => r == Ok(h) && conn.Pos() == old(conn.Pos()) + n
            }
  {
    hide Parse2;
    conn.HeldIsStream();
    ghost var b := conn.Ahead();
    var identity, ok := Take(conn, 6);
    if !ok {
      return Err(Short);
    }
    if identity == IDENTITY_V1 {
      return Err(Version1);
    } else if identity == IDENTITY_V2[..6] {
      identity, ok := Take(conn, 6);
      if !ok {
        return Err(Short);
      }
      assert identity == b[6..12] && conn.Ahead() == b[12..];
      if identity == IDENTITY_V2[6..] {
        r := ReadHeader2(conn);
        return;
      }
    }
    r := Err(NotProxy);
  }

  /** The header a peer wrote in front of its payload, read off a new connection however the network
      cuts it up. */
  method ReadWritten(conn: CachedConn, h: Header, destination: AddrPort, payload: bytes)
    returns (r: Result<Header, Error>)
    requires conn.Valid() && conn.Pos() == 0
    requires h.version == VERSION_2 && IsAddrPort(h.source) && IsAddrPort(destination)
    requires HeaderBytes(h, destination).Ok? && conn.original == HeaderBytes(h, destination).value + payload
    modifies conn`cache, conn.conn, conn.cache, if conn.cache == null then {} else {conn.cache.data}
    ensures h.command <= 1 && (h.command == 1 ==> h.source.At?)
    ensures conn.Valid() && r == Ok(Received(h)) && conn.Pos() == |HeaderBytes(h, destination).value|
    ensures r.value.version == 2 && r.value.command == h.command && r.value.transport == h.transport
    ensures h.command == 0 ==> r.value.source == NoAddr
    ensures h.command == 1 ==>
              var mapped: bytes := [0, 0, 0, 0, 0, 0, 0, 0, 0, 0, 255, 255];
              && (forall x | h.source.addr == V6(mapped + x) :: r.value.source == At(V4(x), h.source.port))
              && (h.source.addr.V4? || h.source.addr.b[..12] != mapped ==> r.value.source == h.source)
  {
    hide HeaderBytes, Parse;
    conn.HeldIsStream();
    var w := HeaderBytes(h, destination).value;
    ParseOfHeader(h, destination, payload);
    ghost var seen := conn.Ahead()[|w|..];
    ParseOfHeader(h, destination, seen);
    assert conn.Ahead() == w + seen;
    r := ReadHeader(conn);
    WrittenSource(h, destination);
  }

  lemma WrittenSource(h: Header, destination: AddrPort)
    requires IsAddrPort(h.source) && HeaderBytes(h, destination).Ok?
    ensures h.command <= 1
    ensures h.command == 0 ==> Received(h).source == NoAddr
    ensures h.command == 1 ==>
              && h.source.At?
              && var mapped: bytes := [0, 0, 0, 0, 0, 0, 0, 0, 0, 0, 255, 255];
              && (forall x | h.source.addr == V6(mapped + x) :: Received(h).source == At(V4(x), h.source.port))
              && (h.source.addr.V4? || h.source.addr.b[..12] != mapped ==> Received(h).source == h.source)
  {
    hide Unmap;
    if h.command == 1 {
      SourceReceived(h, if h.source.addr.V6? then h.source.addr.b[12..] else h.source.addr.b);
      var mapped: bytes := [0, 0, 0, 0, 0, 0, 0, 0, 0, 0, 255, 255];
      forall x | h.source.addr == V6(mapped + x)
        ensures Received(h).source == At(V4(x), h.source.port)
      {
        SourceReceived(h, x);
      }
    }
  }
}

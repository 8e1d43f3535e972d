/** The PROXY protocol header of version 2 byte by byte, as section 2.2 of the HAProxy PROXY protocol
    specification lays it out, and what of it the reader and the writer take. */
module ProxyFormat {
  import opened Bytes
  import opened Numbers
  import opened Proxy
  import opened Wrappers

  const SIGNATURE: bytes := [0x0D, 0x0A, 0x0D, 0x0A, 0x00, 0x0D, 0x0A, 0x51, 0x55, 0x49, 0x54, 0x0A]
  const MAPPED: bytes := [0, 0, 0, 0, 0, 0, 0, 0, 0, 0, 0xFF, 0xFF]

  /** The two bytes at i, highest first. */
  function Word(b: bytes, i: nat): nat
    requires i + 2 <= |b|
  {
    256 * (b[i] as nat) + (b[i + 1] as nat)
  }

  /** A header: the signature, version 2 and LOCAL or PROXY, the family and protocol, and the length of a
      block that is all there; for PROXY an IPv4 or IPv6 block long enough for its addresses. */
  predicate IsHeader(b: bytes) {
    && |b| >= 16 && b[..12] == SIGNATURE
    && (b[12] == 0x20 || b[12] == 0x21)
    && 16 + Word(b, 14) <= |b|
    && (b[12] == 0x21 ==>
          (0x10 <= b[13] <= 0x1F && Word(b, 14) >= 12) || (0x20 <= b[13] <= 0x2F && Word(b, 14) >= 36))
  }

  /** The source in such a header: for IPv4 at 16 with its port at 24, for IPv6 at 16 with its port at
      48, an IPv4-mapped one as IPv4. */
  function SourceOf(b: bytes): AddrPort
    requires IsHeader(b)
  {
    if b[12] == 0x20 then NoAddr
    else if b[13] <= 0x1F then At(V4(b[16..20]), Word(b, 24))
    else if b[16..28] == MAPPED then At(V4(b[28..32]), Word(b, 48))
    else At(V6(b[16..32]), Word(b, 48))
  }

  lemma WordIs(b: bytes, i: nat)
    requires i + 2 <= |b|
    ensures FromBigEndian(b[i..i + 2]) == Word(b, i)
  {
    var w := b[i..i + 2];
    assert w[..1][..0] == [] && w[..1][0] == b[i];
    assert FromBigEndian(w[..1]) == b[i] as nat;
  }

  /** The reader takes exactly the headers, and of a header what stands in its bytes. */
  lemma ReadsExactly(b: bytes)
    ensures Parse(b).Ok? <==> IsHeader(b)
    ensures IsHeader(b) ==>
              Parse(b) == Ok((Header(2, b[12] - 0x20, b[13], SourceOf(b)), 16 + Word(b, 14)))
  {
    hide FromBigEndian, ParseRest;
    if |b| >= 12 && b[..12] == SIGNATURE {
      SignatureIs(b);
      var c := b[12..];
      if |b| >= 16 {
        WordIs(b, 14);
        assert c[2..4] == b[14..16];
        if 16 + Word(b, 14) <= |b| {
          var rest := c[4..4 + Word(b, 14)];
          assert rest == b[16..16 + Word(b, 14)];
          if c[0] % 16 <= 1 {
            RestReads(b, c[0] % 16, rest);
          }
        }
      }
    } else {
      NoSignature(b);
    }
  }

  lemma SignatureIs(b: bytes)
    requires |b| >= 12 && b[..12] == SIGNATURE
    ensures b[..6] == IDENTITY_V2[..6] && b[6..12] == IDENTITY_V2[6..] && b[..6] != IDENTITY_V1
  {
    assert b[..6] == b[..12][..6] && b[6..12] == b[..12][6..];
    assert b[..6][0] == 0x0D;
  }

  lemma NoSignature(b: bytes)
    requires |b| < 12 || b[..12] != SIGNATURE
    ensures Parse(b).Err?
  {
    hide Parse2;
    assert |b| >= 12 ==> b[..12] == b[..6] + b[6..12];
    assert SIGNATURE == IDENTITY_V2[..6] + IDENTITY_V2[6..];
  }

  lemma RestReads(b: bytes, command: byte, rest: bytes)
    requires |b| >= 16 && 16 + Word(b, 14) <= |b| && rest == b[16..16 + Word(b, 14)] && command <= 1
    ensures var r := ParseRest(command, b[13], rest);
            if command == 0 then r == Ok(Header(2, 0, b[13], NoAddr))
            else if 0x10 <= b[13] <= 0x1F && |rest| >= 12 then
              r == Ok(Header(2, 1, b[13], At(V4(b[16..20]), Word(b, 24))))
            else if 0x20 <= b[13] <= 0x2F && |rest| >= 36 then
              r == Ok(Header(2, 1, b[13],
                             At(if b[16..28] == MAPPED then V4(b[28..32]) else V6(b[16..32]), Word(b, 48))))
            else r == Err(if 0x30 <= b[13] <= 0x3F then UnixSocket
                          else if 0x10 <= b[13] <= 0x2F then Short else BadFamily)
  {
    hide FromBigEndian;
    if |rest| >= 12 {
      WordIs(b, 24);
      assert rest[..4] == b[16..20] && rest[8..10] == b[24..26];
    }
    if |rest| >= 36 {
      WordIs(b, 48);
      assert rest[..16] == b[16..32] && rest[32..34] == b[48..50];
      assert b[16..32][..12] == b[16..28] && b[16..32][12..] == b[28..32];
    }
  }

  /** Everything else is refused, with the error of the first thing that is wrong; a header of version 1
      is known by the six bytes it starts with. */
  lemma RefusedExactly(b: bytes)
    requires !IsHeader(b)
    ensures Parse(b) == Err(if |b| < 6 then Short
                            else if b[..6] == [0x50, 0x52, 0x4F, 0x58, 0x59, 0x20] then Version1
                            else if b[..6] != [0x0D, 0x0A, 0x0D, 0x0A, 0x00, 0x0D] then NotProxy
                            else if |b| < 12 then Short
                            else if b[6..12] != [0x0A, 0x51, 0x55, 0x49, 0x54, 0x0A] then NotProxy
                            else if |b| < 13 then Short
                            else if b[12] / 16 != 2 then BadVersion
                            else if b[12] % 16 > 1 then BadCommand
                            else if |b| < 16 || |b| < 16 + Word(b, 14) then Short
                            else if 0x30 <= b[13] <= 0x3F then UnixSocket
                            else if 0x10 <= b[13] <= 0x2F then Short
                            else BadFamily)
  {
    hide FromBigEndian, ParseRest;
    assert |b| >= 12 ==> b[..12] == b[..6] + b[6..12];
    if |b| >= 16 {
      var c := b[12..];
      WordIs(b, 14);
      assert c[2..4] == b[14..16];
      if 16 + Word(b, 14) <= |b| && c[0] % 16 <= 1 {
        assert c[4..4 + Word(b, 14)] == b[16..16 + Word(b, 14)];
        RestReads(b, c[0] % 16, b[16..16 + Word(b, 14)]);
      }
    }
  }

  /** The bytes of an address that may be missing. */
  function AddrBytes(p: AddrPort, n: nat): bytes {
    if p.At? then p.addr.b else seq(n, _ => 0)
  }

  function PortBytes(p: AddrPort): (r: bytes)
    requires IsPort(p)
  {
    if p.At? then [(p.port / 256) as byte, (p.port % 256) as byte] else [0, 0]
  }

  predicate IsPort(p: AddrPort) {
    p.At? ==> p.port < 0x1_0000
  }

  /** The writer writes exactly these headers: LOCAL with an empty block, and PROXY over IPv4 or IPv6
      with both addresses of that family, a missing destination as zeros. */
  lemma WritesExactly(h: Header, destination: AddrPort)
    requires IsAddrPort(h.source) && IsAddrPort(destination)
    ensures var first := SIGNATURE + [(h.version % 16) * 16 + h.command % 16, h.transport];
            var ports := PortBytes(h.source) + PortBytes(destination);
            HeaderBytes(h, destination) ==
            if h.command == 0 then Ok(first + [0, 0])
            else if h.command == 1 && 0x10 <= h.transport <= 0x1F && h.source.At? && h.source.addr.V4?
                    && (destination.At? ==> destination.addr.V4?) then
              Ok(first + [0, 12] + AddrBytes(h.source, 4) + AddrBytes(destination, 4) + ports)
            else if h.command == 1 && 0x20 <= h.transport <= 0x2F && h.source.At? && h.source.addr.V6?
                    && (destination.At? ==> destination.addr.V6?) then
              Ok(first + [0, 36] + AddrBytes(h.source, 16) + AddrBytes(destination, 16) + ports)
            else Err(if h.command > 1 then BadCommand
                     else if !(0x10 <= h.transport <= 0x3F) then BadFamily
                     else if h.transport >= 0x30 then UnixSocket
                     else if !h.source.At? || h.source.addr.V4? != (h.transport <= 0x1F) then BadSource
                     else BadDestination)
  {
    hide BigEndian;
    TwoBytes(12);
    TwoBytes(36);
    TwoBytes(0);
    if h.source.At? {
      TwoBytes(h.source.port);
    }
    if destination.At? {
      TwoBytes(destination.port);
    }
    var first := SIGNATURE + [(h.version % 16) * 16 + h.command % 16, h.transport];
    assert h.command <= 1 ==> IDENTITY_V2 + [(h.version % 16) * 16 + h.command] + [h.transport] == first;
    if h.source.At? {
      AddressBytes(h.source, destination, if h.source.addr.V4? then 4 else 16, first);
    }
  }

  lemma AddressBytes(source: AddrPort, destination: AddrPort, n: nat, first: bytes)
    requires source.At? && IsAddrPort(source) && IsAddrPort(destination) && (n == 4 || n == 16)
    ensures first + Addresses(source, destination, n) ==
            first + [0, (2 * n + 4) as byte] + AddrBytes(source, n) + AddrBytes(destination, n)
            + (PortBytes(source) + PortBytes(destination))
  {
    hide BigEndian;
    TwoBytes(2 * n + 4);
    TwoBytes(source.port);
    TwoBytes(if destination.At? then destination.port else 0);
    assert Unspecified(n) == seq(n, _ => 0);
    Ordered(first, [0, (2 * n + 4) as byte], AddrBytes(source, n), AddrBytes(destination, n),
            PortBytes(source), PortBytes(destination));
  }

  lemma Ordered(first: bytes, length: bytes, source: bytes, destination: bytes, from: bytes, to: bytes)
    ensures first + (length + source + destination + from + to) == first + length + source + destination + (from + to)
  {
  }
}

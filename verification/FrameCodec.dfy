/** Tunnel datagrams (common/udptunnel/frame.go). */
module FrameCodec {
  import opened Bytes
  import opened Numbers
  import opened Endpoint
  import opened Wrappers

  const MAGIC := 0x5A42
  const VERSION: byte := 1
  const HEADER_SIZE := 22

  datatype Error = BadMagic | BadVersion | TooShort | TooLong

  /** The field widths of Frame. */
  ghost predicate IsFrame(f: Frame) {
    f.sessionId < Pow256(8) && f.seqNo < Pow256(4) && f.ack < Pow256(4)
  }

  /** The layout of a datagram. */
  function Wire(f: Frame): (r: bytes)
    ensures |r| == HEADER_SIZE + |f.payload|
  {
    LittleEndian(MAGIC, 2) + [VERSION] + [f.typ] + LittleEndian(f.sessionId, 8) + LittleEndian(f.seqNo, 4)
    + LittleEndian(f.ack, 4) + LittleEndian(|f.payload|, 2) + f.payload
  }

  function Parse(b: bytes): Result<Frame, Error> {
    if |b| < HEADER_SIZE then Err(TooShort)
    else if FromLittleEndian(b[0..2]) != MAGIC then Err(BadMagic)
    else if b[2] != VERSION then Err(BadVersion)
    else
      var plen := FromLittleEndian(b[20..22]);
      if plen > MAX_PAYLOAD then Err(TooLong)
      else if |b| < HEADER_SIZE + plen then Err(TooShort)
      else Ok(Frame(b[3], FromLittleEndian(b[4..12]), FromLittleEndian(b[12..16]), FromLittleEndian(b[16..20]),
                    b[22..22 + plen]))
  }

  // ---------------------------------------------------------------- round trips

  lemma WireFields(f: Frame, more: bytes)
    ensures var b := Wire(f) + more;
            && b[0..2] == LittleEndian(MAGIC, 2) && b[2] == VERSION && b[3] == f.typ
            && b[4..12] == LittleEndian(f.sessionId, 8) && b[12..16] == LittleEndian(f.seqNo, 4)
            && b[16..20] == LittleEndian(f.ack, 4) && b[20..22] == LittleEndian(|f.payload|, 2)
            && b[22..22 + |f.payload|] == f.payload
  {
  }

  /** Decoding an encoded frame gives it back, whatever follows it in the datagram. */
  lemma ParseOfWire(f: Frame, more: bytes)
    requires IsFrame(f) && |f.payload| <= MAX_PAYLOAD
    ensures Parse(Wire(f) + more) == Ok(f)
  {
    hide Wire, LittleEndian, FromLittleEndian;
    WireFields(f, more);
    Widths();
    LittleEndianRoundTrip(MAGIC, 2);
    LittleEndianRoundTrip(f.sessionId, 8);
    LittleEndianRoundTrip(f.seqNo, 4);
    LittleEndianRoundTrip(f.ack, 4);
    LittleEndianRoundTrip(|f.payload|, 2);
  }

  /** An accepted datagram is its frame's encoding and some ignored bytes. */
  lemma WireOfParse(b: bytes)
    requires Parse(b).Ok?
    ensures var f := Parse(b).value;
            && IsFrame(f) && |f.payload| <= MAX_PAYLOAD
            && HEADER_SIZE + |f.payload| <= |b|
            && Wire(f) == b[..HEADER_SIZE + |f.payload|]
  {
    hide LittleEndian, FromLittleEndian;
    LittleEndianOnto(b[0..2]);
    LittleEndianOnto(b[4..12]);
    LittleEndianOnto(b[12..16]);
    LittleEndianOnto(b[16..20]);
    LittleEndianOnto(b[20..22]);
    var n := FromLittleEndian(b[20..22]);
    Pieces(b, n);
  }

  lemma Pieces(b: bytes, n: nat)
    requires HEADER_SIZE + n <= |b|
    ensures b[..HEADER_SIZE + n] ==
            b[0..2] + [b[2]] + [b[3]] + b[4..12] + b[12..16] + b[16..20] + b[20..22] + b[22..22 + n]
  {
    assert b[0..2] + [b[2]] == b[..3];
    assert b[..3] + [b[3]] == b[..4];
    Extended(b, 4, 12);
    Extended(b, 12, 16);
    Extended(b, 16, 20);
    Extended(b, 20, 22);
    Extended(b, 22, 22 + n);
  }

  lemma Extended(b: bytes, i: nat, j: nat)
    requires i <= j <= |b|
    ensures b[..i] + b[i..j] == b[..j]
  {
  }

  // ---------------------------------------------------------------- byte by byte

  /** The little-endian numbers of two, four and eight bytes at i. */
  function Two(b: bytes, i: nat): nat
    requires i + 2 <= |b|
  {
    (b[i] as nat) + 0x100 * (b[i + 1] as nat)
  }

  function Four(b: bytes, i: nat): nat
    requires i + 4 <= |b|
  {
    Two(b, i) + 0x1_0000 * Two(b, i + 2)
  }

  function Eight(b: bytes, i: nat): nat
    requires i + 8 <= |b|
  {
    Four(b, i) + 0x1_0000_0000 * Four(b, i + 4)
  }

  lemma TwoIs(b: bytes, i: nat)
    requires i + 2 <= |b|
    ensures FromLittleEndian(b[i..i + 2]) == Two(b, i)
  {
    Front(b, i, i + 2);
    Front(b, i + 1, i + 2);
  }

  lemma Front(b: bytes, i: nat, j: nat)
    requires i < j <= |b|
    ensures FromLittleEndian(b[i..j]) == (b[i] as nat) + 256 * FromLittleEndian(b[i + 1..j])
    ensures FromLittleEndian(b[j..j]) == 0
  {
    assert b[i..j][1..] == b[i + 1..j];
  }

  /** Two bytes in front are worth what they are, and what follows 65536 times as much. */
  lemma FrontTwo(b: bytes, i: nat, j: nat)
    requires i + 2 <= j <= |b|
    ensures FromLittleEndian(b[i..j]) == Two(b, i) + 0x1_0000 * FromLittleEndian(b[i + 2..j])
    ensures FromLittleEndian(b[j..j]) == 0
  {
    Front(b, i, j);
    Front(b, i + 1, j);
  }

  lemma FourIs(b: bytes, i: nat)
    requires i + 4 <= |b|
    ensures FromLittleEndian(b[i..i + 4]) == Four(b, i)
  {
    hide FromLittleEndian;
    FrontTwo(b, i, i + 4);
    FrontTwo(b, i + 2, i + 4);
  }

  lemma EightIs(b: bytes, i: nat)
    requires i + 8 <= |b|
    ensures FromLittleEndian(b[i..i + 8]) == Eight(b, i)
  {
    hide FromLittleEndian, Two;
    FrontTwo(b, i, i + 8);
    FrontTwo(b, i + 2, i + 8);
    FrontTwo(b, i + 4, i + 8);
    FrontTwo(b, i + 6, i + 8);
  }

  /** A datagram is taken exactly when it starts with 42 5A 01 and holds the payload, of at most 1200
      bytes, whose length stands at 20; type at 3, session at 4, number at 12, acknowledgement at 16.  The first
      thing that is wrong names the error. */
  lemma ParsesExactly(b: bytes)
    ensures Parse(b).Ok? <==>
            |b| >= 22 && b[0] == 0x42 && b[1] == 0x5A && b[2] == 1 && Two(b, 20) <= 1200 && 22 + Two(b, 20) <= |b|
    ensures Parse(b).Ok? ==>
              Parse(b) == Ok(Frame(b[3], Eight(b, 4), Four(b, 12), Four(b, 16), b[22..22 + Two(b, 20)]))
    ensures Parse(b).Err? ==>
              Parse(b).error == if |b| < 22 then TooShort
                                else if b[0] != 0x42 || b[1] != 0x5A then BadMagic
                                else if b[2] != 1 then BadVersion
                                else if Two(b, 20) > 1200 then TooLong
                                else TooShort
  {
    hide FromLittleEndian;
    if |b| >= 22 {
      TwoIs(b, 0);
      EightIs(b, 4);
      FourIs(b, 12);
      FourIs(b, 16);
      TwoIs(b, 20);
    }
  }

  /** An encoded frame stands in its datagram like that. */
  lemma WireBytes(f: Frame)
    requires f.sessionId < 0x1_0000_0000_0000_0000 && f.seqNo < 0x1_0000_0000 && f.ack < 0x1_0000_0000
    requires |f.payload| <= 1200
    ensures var b := Wire(f);
            && |b| == 22 + |f.payload| && b[..4] == [0x42, 0x5A, 1, f.typ]
            && Eight(b, 4) == f.sessionId && Four(b, 12) == f.seqNo && Four(b, 16) == f.ack
            && Two(b, 20) == |f.payload| && b[22..] == f.payload
  {
    hide Wire, Parse, Two, Four, Eight;
    Widths();
    ParseOfWire(f, []);
    assert Wire(f) + [] == Wire(f);
    ParsesExactly(Wire(f));
    ParsedFront(Wire(f), f);
  }

  lemma ParsedFront(b: bytes, f: Frame)
    requires |b| == 22 + |f.payload| && Parse(b) == Ok(f)
    requires |b| >= 22 && b[0] == 0x42 && b[1] == 0x5A && b[2] == 1
    ensures b[..4] == [0x42, 0x5A, 1, f.typ] && Two(b, 20) == |f.payload| && b[22..] == f.payload
  {
    TwoIs(b, 20);
  }

  /** Two frames with the same datagram are the same frame. */
  lemma WireInjective(f: Frame, g: Frame)
    requires IsFrame(f) && |f.payload| <= MAX_PAYLOAD && IsFrame(g) && |g.payload| <= MAX_PAYLOAD
    requires Wire(f) == Wire(g)
    ensures f == g
  {
    ParseOfWire(f, []);
    ParseOfWire(g, []);
    assert Wire(f) + [] == Wire(f) && Wire(g) + [] == Wire(g);
  }

  // ---------------------------------------------------------------- the code

  method PutBytes(dst: array<byte>, at: nat, b: bytes)
    requires at + |b| <= dst.Length
    modifies dst
    ensures dst[..at + |b|] == old(dst[..at]) + b
  {
    forall i | 0 <= i < |b| {
      dst[at + i] := b[i];
    }
  }

  /** Encode, frame.go:25-46: dst is used when it is large enough. */
  method Encode(dst: array<byte>, f: Frame) returns (r: Result<(array<byte>, nat), Error>)
    modifies dst
    ensures r.Err? <==> |f.payload| > MAX_PAYLOAD
    ensures r.Err? ==> r.error == TooLong && dst[..] == old(dst[..])
    ensures r.Ok? ==> r.value.1 == HEADER_SIZE + |f.payload| <= r.value.0.Length
    ensures r.Ok? ==> r.value.0[..r.value.1] == Wire(f)
    ensures r.Ok? ==> if dst.Length < r.value.1 then fresh(r.value.0) else r.value.0 == dst
  {
    if |f.payload| > MAX_PAYLOAD {
      return Err(TooLong);
    }
    hide LittleEndian;
    var need := HEADER_SIZE + |f.payload|;
    var buf := dst;
    if dst.Length < need {
      buf := new byte[need];
    }
    PutBytes(buf, 0, LittleEndian(MAGIC, 2));
    assert buf[..2] == LittleEndian(MAGIC, 2);
    buf[2] := VERSION;
    buf[3] := f.typ;
    assert buf[..4] == LittleEndian(MAGIC, 2) + [VERSION] + [f.typ];
    PutBytes(buf, 4, LittleEndian(f.sessionId, 8));
    PutBytes(buf, 12, LittleEndian(f.seqNo, 4));
    PutBytes(buf, 16, LittleEndian(f.ack, 4));
    PutBytes(buf, 20, LittleEndian(|f.payload|, 2));
    PutBytes(buf, 22, f.payload);
    r := Ok((buf, need));
  }

  /** The caller's frame that Decode fills. */
  class FrameCell {
    var f: Frame

    constructor (f: Frame)
      ensures this.f == f
    {
      this.f := f;
    }
  }

  /** Decode, frame.go:49-76: the frame is only touched when the datagram is accepted. */
  method Decode(b: bytes, cell: FrameCell) returns (r: Result<(), Error>)
    modifies cell
    ensures r == match Parse(b) { case Ok(_) => Ok(()) case Err(e) => Err(e) }
    ensures cell.f == match Parse(b) { case Ok(f) => f case Err(_) => old(cell.f) }
  {
    if |b| < HEADER_SIZE {
      return Err(TooShort);
    }
    if FromLittleEndian(b[0..2]) != MAGIC {
      return Err(BadMagic);
    }
    if b[2] != VERSION {
      return Err(BadVersion);
    }
    var plen := FromLittleEndian(b[20..22]);
    if plen > MAX_PAYLOAD {
      return Err(TooLong);
    }
    if |b| < HEADER_SIZE + plen {
      return Err(TooShort);
    }
    cell.f := cell.f.(typ := b[3]);
    cell.f := cell.f.(sessionId := FromLittleEndian(b[4..12]));
    cell.f := cell.f.(seqNo := FromLittleEndian(b[12..16]));
    cell.f := cell.f.(ack := FromLittleEndian(b[16..20]));
    if plen == 0 {
      cell.f := cell.f.(payload := []);
    } else {
      cell.f := cell.f.(payload := b[22..22 + plen]);
    }
    r := Ok(());
  }
}

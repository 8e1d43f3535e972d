/** Length-prefixed packets on a connection (common/mcprotocol/conn.go). */
module PacketConn {
  import opened Bytes
  import opened VarInt
  import opened VarIntDigits
  import opened Int32
  import opened Buffers
  import opened Wrappers

  /** The writing side of a connection. */
  class Sink {
    var written: bytes

    constructor ()
      ensures written == []
    {
      written := [];
    }

    method Write(p: bytes)
      modifies this
      ensures written == old(written) + p
    {
      written := written + p;
    }
  }

  /** A packet on the wire. */
  function Packet(content: bytes): bytes {
    Encoded(ToInt32(|content|)) + content
  }

  function Stream(contents: seq<bytes>): bytes {
    if contents == [] then [] else Packet(contents[0]) + Stream(contents[1..])
  }

  /** The length stands in front as base-128 digits, and counts the contents only. */
  lemma PacketBytes(content: bytes)
    requires |content| < 0x8000_0000
    ensures Packet(content) == Digits128(|content|) + content
  {
    hide Encoded, ToInt32, Digits128;
    VarIntIs(|content|);
  }

  // ---------------------------------------------------------------- writing

  /** AppendPacketLength, conn.go:82-85: the length goes in front of the contents. */
  method AppendPacketLength(buffer: Buffer, l: nat)
    requires buffer.Valid() && MAX_VARINT_LEN <= buffer.start
    modifies buffer`start, buffer.data
    ensures buffer.Valid() && buffer.end == old(buffer.end)
    ensures buffer.Contents() == Encoded(ToInt32(l)) + old(buffer.Contents())
    ensures buffer.start + |Encoded(ToInt32(l))| == old(buffer.start)
  {
    hide Encoded, VarIntLen, ToInt32;
    var lenInt32 := ToInt32(l);
    VarIntLenIs(lenInt32);
    ghost var contents, from := buffer.Contents(), buffer.start;
    var at := buffer.ExtendHeader(VarIntLen(lenInt32));
    ghost var tail := buffer.data[from..];
    assert tail[..buffer.end - from] == contents;
    var n := PutVarInt(buffer.data, at, lenInt32);
    assert buffer.data[from..] == tail;
    assert buffer.data[from..buffer.end] == contents;
    assert buffer.Contents() == buffer.data[at..from] + buffer.data[from..buffer.end];
  }

  /** WritePacket, conn.go:56-61. */
  method WritePacket(sink: Sink, buffer: Buffer)
    requires buffer.Valid() && MAX_VARINT_LEN <= buffer.start
    modifies sink, buffer`start, buffer`end, buffer.data
    ensures sink.written == old(sink.written) + Packet(old(buffer.Contents()))
    ensures buffer.Valid() && buffer.start == buffer.end == MAX_VARINT_LEN
  {
    hide Encoded, ToInt32;
    AppendPacketLength(buffer, buffer.end - buffer.start);
    sink.Write(buffer.data[buffer.start..buffer.end]);
    buffer.Reset(MAX_VARINT_LEN);
  }

  method TotalLength(l: nat, parts: seq<bytes>) returns (total: nat)
    ensures total == l + |Concat(parts)|
  {
    total := l;
    assert parts[..0] == [] && parts[..|parts|] == parts;
    for i := 0 to |parts|
      invariant total == l + |Concat(parts[..i])|
    {
      assert parts[..i + 1] == parts[..i] + [parts[i]];
      ConcatSnoc(parts[..i], parts[i]);
      total := total + |parts[i]|;
    }
  }

  /** WriteVectorizedPacket, conn.go:68-80: one packet made of the buffer and the parts after it. */
  method WriteVectorizedPacket(sink: Sink, buffer: Buffer, parts: seq<bytes>)
    requires buffer.Valid() && MAX_VARINT_LEN <= buffer.start
    modifies sink, buffer`start, buffer`end, buffer.data
    ensures sink.written == old(sink.written) + Packet(old(buffer.Contents()) + Concat(parts))
    ensures buffer.Valid() && buffer.start == buffer.end == MAX_VARINT_LEN
  {
    hide Encoded, ToInt32;
    ghost var contents := buffer.Contents();
    var totalLength := TotalLength(buffer.end - buffer.start, parts);
    assert parts[..0] == [] && parts[..|parts|] == parts;
    AppendPacketLength(buffer, totalLength);
    ghost var head := Encoded(ToInt32(totalLength)) + contents;
    sink.Write(buffer.data[buffer.start..buffer.end]);
    assert buffer.Contents() == head;
    for i := 0 to |parts|
      invariant sink.written == old(sink.written) + head + Concat(parts[..i])
      invariant buffer.Valid()
    {
      assert parts[..i + 1] == parts[..i] + [parts[i]];
      ConcatSnoc(parts[..i], parts[i]);
      assert old(sink.written) + head + Concat(parts[..i]) + parts[i] ==
             old(sink.written) + head + Concat(parts[..i + 1]);
      sink.Write(parts[i]);
    }
    assert head + Concat(parts) == Encoded(ToInt32(totalLength)) + (contents + Concat(parts));
    assert old(sink.written) + head + Concat(parts) == old(sink.written) + (head + Concat(parts));
    buffer.Reset(MAX_VARINT_LEN);
  }

  // ---------------------------------------------------------------- reading

  datatype ReadError = BadVarInt | Closed | Negative | TooLong | NoRoom | Truncated

  /** ReadVarIntFrom on a connection, one byte at a time. */
  method ReadVarIntFrom(r: Source) returns (res: ReadResult)
    modifies r
    ensures res == ReadVarInt(old(r.unread))
    ensures res.Done? ==> res.n <= |old(r.unread)| && r.unread == old(r.unread)[res.n..]
  {
    hide Reading, ReadVarInt, Added, Follows;
    var v: bv32 := 0;
    var n := 0;
    ghost var b := r.unread;
    ReadingStarts(b);
    while true
      invariant 0 <= n <= 6 && n <= |b| && r.unread == b[n..]
      invariant Reading(b, n, v)
      decreases 6 - n
    {
      ReadTurn(b, n, v);
      if n > MAX_VARINT_LEN {
        return TooBig;
      }
      var p, err := r.ReadAtLeast(1, 1);
      if err.Some? {
        return Short;
      }
      assert b[n..] == p + r.unread && p[0] == b[n];
      v, n := Added(v, p[0], n), n + 1;
      if !Follows(p[0]) {
        return Done(v, n);
      }
    }
  }

  /** ReadLimitedPacket, conn.go:27-46. */
  method ReadLimitedPacket(r: Source, buffer: Buffer, maxLen: int) returns (err: Option<ReadError>)
    requires buffer.Valid()
    modifies r, buffer`end, buffer.data
    ensures buffer.Valid()
    ensures var b := old(r.unread);
            match ReadVarInt(b) {
              case TooBig => err == Some(BadVarInt)
              case Short => err == Some(Closed)
              case Done(v, n) =>
                var l := Value(v);
                && n <= |b|
                && (err.None? <==> 0 <= l <= maxLen && l <= buffer.data.Length - old(buffer.end) && n + l <= |b|)
                && (err.None? ==>
                      && r.unread == b[n + l..]
                      && buffer.end == old(buffer.end) + l
                      && buffer.data[..buffer.end] == old(buffer.data[..buffer.end]) + b[n..n + l])
                && (err == Some(Negative) <==> l < 0)
                && (err == Some(TooLong) <==> l >= 0 && maxLen < l)
                && (err == Some(NoRoom) <==> 0 <= l <= maxLen && buffer.data.Length - old(buffer.end) < l)
                && (err == Some(Truncated) <==>
                      0 <= l <= maxLen && l <= buffer.data.Length - old(buffer.end) && |b| < n + l)
            }
  {
    hide ReadOn, Value;
    ghost var b := r.unread;
    var length := ReadVarIntFrom(r);
    if length.TooBig? {
      return Some(BadVarInt);
    }
    if length.Short? {
      return Some(Closed);
    }
    var lengthInt := Value(length.v);
    if lengthInt < 0 {
      return Some(Negative);
    }
    if lengthInt > maxLen {
      return Some(TooLong);
    }
    if buffer.data.Length - buffer.end < lengthInt {
      return Some(NoRoom);
    }
    ghost var rest := r.unread;
    var e := buffer.ReadFullFrom(r, lengthInt);
    if e.Some? {
      return Some(Truncated);
    }
    assert rest[..lengthInt] == b[length.n..length.n + lengthInt];
    assert rest == rest[..lengthInt] + r.unread;
    assert r.unread == b[length.n + lengthInt..];
    err := None;
  }

  // ---------------------------------------------------------------- back to back

  lemma PacketLength(content: bytes, more: bytes)
    requires |content| < 0x8000_0000
    ensures var n := |Encoded(ToInt32(|content|))|; var b := Packet(content) + more;
            && ReadVarInt(b) == Done(ToInt32(|content|), n)
            && Value(ToInt32(|content|)) == |content|
            && n + |content| <= |b|
            && b[n..n + |content|] == content && b[n + |content|..] == more
  {
    hide Encoded, ToInt32, Value, ReadOn;
    assert Packet(content) + more == Encoded(ToInt32(|content|)) + (content + more);
    ReadOfEncoded(ToInt32(|content|), content + more);
    ValueOfToInt32(|content|);
  }

  /** One packet read into a reset buffer. */
  method ReadNext(r: Source, buffer: Buffer, maxLen: int, ghost content: bytes, ghost more: bytes) returns (got: bytes)
    requires buffer.Valid() && MAX_VARINT_LEN <= buffer.data.Length && r.unread == Packet(content) + more
    requires |content| < 0x8000_0000 && |content| <= maxLen && |content| <= buffer.data.Length - MAX_VARINT_LEN
    modifies r, buffer`start, buffer`end, buffer.data
    ensures buffer.Valid() && got == content && r.unread == more
  {
    hide Packet, ReadVarInt, Value, ToInt32, Encoded;
    buffer.Reset(MAX_VARINT_LEN);
    ghost var b, v := r.unread, ToInt32(|content|);
    PacketLength(content, more);
    ghost var n := |Encoded(v)|;
    assert ReadVarInt(b) == Done(v, n) && Value(v) == |content| && n + |content| <= |b|;
    ghost var head := buffer.data[..buffer.end];
    var err := ReadLimitedPacket(r, buffer, maxLen);
    assert err.None?;
    assert buffer.data[..buffer.end] == head + content;
    got := buffer.data[buffer.start..buffer.end];
    assert got == (head + content)[|head|..];
  }

  /** Packets written back to back are read back in order, each read stopping at its own end. */
  method ReadPackets(r: Source, buffer: Buffer, maxLen: int, ghost sent: seq<bytes>, ghost more: bytes, count: nat)
    returns (got: seq<bytes>)
    requires buffer.Valid() && count == |sent| && r.unread == Stream(sent) + more
    requires MAX_VARINT_LEN <= buffer.data.Length
    requires forall i :: 0 <= i < |sent| ==>
               |sent[i]| < 0x8000_0000 && |sent[i]| <= maxLen && |sent[i]| <= buffer.data.Length - MAX_VARINT_LEN
    modifies r, buffer`start, buffer`end, buffer.data
    ensures got == sent && r.unread == more
  {
    hide Packet;
    got := [];
    assert sent[0..] == sent && sent[..0] == [];
    for i := 0 to count
      invariant buffer.Valid() && got == sent[..i] && r.unread == Stream(sent[i..]) + more
    {
      assert sent[i..][0] == sent[i] && sent[i..][1..] == sent[i + 1..];
      assert r.unread == Packet(sent[i]) + (Stream(sent[i + 1..]) + more);
      var p := ReadNext(r, buffer, maxLen, sent[i], Stream(sent[i + 1..]) + more);
      got := got + [p];
      assert sent[..i + 1] == sent[..i] + [sent[i]];
    }
    assert sent[count..] == [] && [] + more == more && sent[..count] == sent;
  }

  /** A packet to send: from the buffer alone, or from the buffer and parts after it. */
  datatype Outgoing = Plain(content: bytes) | Vectored(head: bytes, parts: seq<bytes>)

  function ContentOf(o: Outgoing): bytes {
    match o
    case Plain(content) => content
    case Vectored(head, parts) => head + Concat(parts)
  }

  function ContentsOf(outs: seq<Outgoing>): (contents: seq<bytes>)
    ensures |contents| == |outs|
  {
    seq(|outs|, i requires 0 <= i < |outs| => ContentOf(outs[i]))
  }

  /** What has to fit the buffer behind its headroom. */
  function Buffered(o: Outgoing): bytes {
    match o
    case Plain(content) => content
    case Vectored(head, _) => head
  }

  method WriteOne(sink: Sink, buffer: Buffer, o: Outgoing)
    requires buffer.Valid() && MAX_VARINT_LEN <= buffer.data.Length
    requires |Buffered(o)| <= buffer.data.Length - MAX_VARINT_LEN
    modifies sink, buffer`start, buffer`end, buffer.data
    ensures buffer.Valid() && sink.written == old(sink.written) + Packet(ContentOf(o))
  {
    hide Packet;
    buffer.Reset(MAX_VARINT_LEN);
    var n, _ := buffer.Write(Buffered(o));
    assert Buffered(o)[..n] == Buffered(o);
    assert buffer.Contents() == Buffered(o);
    match o
    case Plain(_) => WritePacket(sink, buffer);
    case Vectored(_, parts) => WriteVectorizedPacket(sink, buffer, parts);
  }

  /** Any mix of WritePacket and WriteVectorizedPacket puts the stream of the contents on the
      connection. */
  method WritePackets(sink: Sink, buffer: Buffer, outs: seq<Outgoing>)
    requires buffer.Valid() && MAX_VARINT_LEN <= buffer.data.Length
    requires forall i :: 0 <= i < |outs| ==> |Buffered(outs[i])| <= buffer.data.Length - MAX_VARINT_LEN
    modifies sink, buffer`start, buffer`end, buffer.data
    ensures sink.written == old(sink.written) + Stream(ContentsOf(outs))
  {
    hide Packet, ContentOf, Buffered;
    assert ContentsOf(outs[..0]) == [];
    for i := 0 to |outs|
      invariant buffer.Valid() && sink.written == old(sink.written) + Stream(ContentsOf(outs[..i]))
    {
      assert ContentsOf(outs[..i + 1]) == ContentsOf(outs[..i]) + [ContentOf(outs[i])];
      StreamSnoc(ContentsOf(outs[..i]), ContentOf(outs[i]));
      WriteOne(sink, buffer, outs[i]);
      assert sink.written == old(sink.written) + Stream(ContentsOf(outs[..i + 1]));
    }
    assert outs[..|outs|] == outs;
  }

  /** Sent by one end in any mix and received by the other, in whatever pieces: the same contents in
      the same order, and the bytes after them untouched. */
  method SendAndReceive(outs: seq<Outgoing>, more: bytes, script: seq<nat>, size: nat, maxLen: int)
    returns (got: seq<bytes>, left: bytes)
    requires MAX_VARINT_LEN <= size
    requires forall i :: 0 <= i < |outs| ==>
               |ContentOf(outs[i])| < 0x8000_0000 && |ContentOf(outs[i])| <= maxLen
               && |ContentOf(outs[i])| <= size - MAX_VARINT_LEN
    ensures got == ContentsOf(outs) && left == more
  {
    hide Packet, Stream;
    var sink := new Sink();
    var buffer := new Buffer(size);
    BufferedFits(outs);
    WritePackets(sink, buffer, outs);
    sink.Write(more);
    assert sink.written == Stream(ContentsOf(outs)) + more;
    var source := new Source(sink.written, script);
    buffer.Reset(MAX_VARINT_LEN);
    got := ReadPackets(source, buffer, maxLen, ContentsOf(outs), more, |outs|);
    left := source.unread;
  }

  lemma BufferedFits(outs: seq<Outgoing>)
    ensures forall i :: 0 <= i < |outs| ==> |Buffered(outs[i])| <= |ContentOf(outs[i])|
  {
  }

  lemma {:induction false} StreamSnoc(contents: seq<bytes>, c: bytes)
    ensures Stream(contents + [c]) == Stream(contents) + Packet(c)
  {
    hide Packet;
    if contents == [] {
      assert contents + [c] == [c];
    } else {
      StreamSnoc(contents[1..], c);
      assert (contents + [c])[1..] == contents[1..] + [c];
    }
  }
}

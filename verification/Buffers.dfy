/** The cursor buffer of common/buf/buffer.go, and the reading side of a network connection. */
module Buffers {
  import opened Bytes
  import opened Wrappers

  datatype IoError = EOF | UnexpectedEOF | ShortBuffer | NegativeRead

  // ---------------------------------------------------------------- connections

  function Min(a: nat, b: nat): nat {
    if a <= b then a else b
  }

  /** How many of the room bytes that are there and asked for one Read returns: what the script grants,
      and at least one.  An empty script grants all. */
  function Granted(script: seq<nat>, room: nat): (n: nat)
    ensures n <= room
    ensures room > 0 ==> n > 0
  {
    if script == [] then room else Min(if script[0] == 0 then 1 else script[0], room)
  }

  /** The script after a Read. */
  function Later(script: seq<nat>): seq<nat> {
    if script == [] then [] else script[1..]
  }

  /** A connection to read from.  unread is what the peer sent and nobody read; script says how the
      network cuts it up, and is as arbitrary as the network. */
  class Source {
    var unread: bytes
    var script: seq<nat>

    constructor (stream: bytes, script: seq<nat>)
      ensures unread == stream && this.script == script
    {
      unread, this.script := stream, script;
    }

    /** net.Conn.Read: some bytes when there are any, else EOF. */
    method Read(max: nat) returns (p: bytes, eof: bool)
      modifies this
      ensures p + unread == old(unread) && |p| == Granted(old(script), Min(max, |old(unread)|))
      ensures eof <==> old(unread) == []
      ensures script == if old(unread) == [] then old(script) else Later(old(script))
    {
      if unread == [] {
        return [], true;
      }
      var n := Granted(script, Min(max, |unread|));
      script := Later(script);
      p, eof := unread[..n], false;
      unread := unread[n..];
    }

    /** io.ReadAtLeast into a buffer of max bytes. */
    method ReadAtLeast(max: nat, min: nat) returns (p: bytes, err: Option<IoError>)
      modifies this
      ensures p + unread == old(unread) && |p| <= max
      ensures err.None? <==> min <= max && min <= |old(unread)|
      ensures err.None? ==> min <= |p|
      ensures err.Some? ==> if max < min then p == [] && err.value == ShortBuffer
                            else unread == [] && err.value == if p == [] then EOF else UnexpectedEOF
      ensures err.None? && min == 1 ==>
                |p| == Granted(old(script), Min(max, |old(unread)|)) && script == Later(old(script))
    {
      if max < min {
        return [], Some(ShortBuffer);
      }
      p, err := [], None;
      ghost var stream := unread;
      while |p| < min
        invariant p + unread == stream && |p| <= max
        invariant p == [] ==> script == old(script)
        invariant p != [] && min == 1 ==>
                    |p| == Granted(old(script), Min(max, |stream|)) && script == Later(old(script))
        decreases |unread|
      {
        var q, eof := Read(max - |p|);
        if eof {
          return p, Some(if p == [] then EOF else UnexpectedEOF);
        }
        assert p + (q + unread) == (p + q) + unread;
        p := p + q;
      }
    }
  }

  // ---------------------------------------------------------------- slices of slices

  lemma SliceOfPrefix(s: bytes, e: nat, a: nat, b: nat)
    requires a <= b <= e <= |s|
    ensures s[..e][a..b] == s[a..b]
  {
  }

  lemma SliceOfArray(s: array<byte>, e: nat, a: nat, b: nat)
    requires a <= b <= e <= s.Length
    ensures s[..e][a..b] == s[a..b]
  {
  }

  lemma SliceOfSlice(s: bytes, a: nat, b: nat, n: nat)
    requires a <= a + n <= b <= |s|
    ensures s[a..b][..n] == s[a..a + n] && s[a..b][n..] == s[a + n..b]
  {
  }

  lemma SlicedArray(s: array<byte>, a: nat, b: nat, n: nat)
    requires a <= a + n <= b <= s.Length
    ensures s[a..b][..n] == s[a..a + n] && s[a..b][n..] == s[a + n..b]
  {
  }

  // ---------------------------------------------------------------- buffers

  class Buffer {
    const data: array<byte>
    var start: nat
    var end: nat

    ghost predicate Valid()
      reads this
    {
      start <= end <= data.Length
    }

    /** The bytes between the cursors. */
    ghost function Contents(): bytes
      requires Valid()
      reads this, data
    {
      data[start..end]
    }

    constructor (size: nat)
      ensures Valid() && fresh(data) && data.Length == size && start == 0 && end == 0
    {
      data := new byte[size];
      start, end := 0, 0;
    }

    /** A buffer over bytes already there. */
    constructor As(p: bytes)
      ensures Valid() && fresh(data) && Contents() == p && start == 0 && end == data.Length
    {
      data := new byte[|p|](i requires 0 <= i < |p| => p[i]);
      start, end := 0, |p|;
      new;
      assert data[0..end] == p;
    }

    method Write(p: bytes) returns (n: nat, err: Option<IoError>)
      requires Valid()
      modifies this`end, data
      ensures Valid()
      ensures n == if |p| <= data.Length - old(end) then |p| else data.Length - old(end)
      ensures err == if p != [] && old(end) == data.Length then Some(ShortBuffer) else None
      ensures end == old(end) + n && data[..end] == old(data[..end]) + p[..n]
    {
      n, err := 0, None;
      if |p| == 0 {
        return;
      }
      if end == data.Length {
        return 0, Some(ShortBuffer);
      }
      n := if |p| <= data.Length - end then |p| else data.Length - end;
      forall i | 0 <= i < n {
        data[end + i] := p[i];
      }
      end := end + n;
    }

    /** Grows by n bytes for the caller to fill; the caller has made sure they fit. */
    method Extend(n: nat) returns (at: nat)
      requires Valid() && end + n <= data.Length
      modifies this`end
      ensures Valid() && at == old(end) && end == old(end) + n
    {
      at := end;
      end := end + n;
    }

    /** Grows to the front by n bytes. */
    method ExtendHeader(n: nat) returns (at: nat)
      requires Valid() && n <= start
      modifies this`start
      ensures Valid() && at == start == old(start) - n
    {
      start := start - n;
      at := start;
    }

    method WriteByte(b: byte) returns (err: Option<IoError>)
      requires Valid()
      modifies this`end, data
      ensures Valid()
      ensures old(end) == data.Length ==> err == Some(ShortBuffer) && end == old(end) && data[..] == old(data[..])
      ensures old(end) < data.Length ==> err == None && end == old(end) + 1 && data[..end] == old(data[..end]) + [b]
    {
      if end == data.Length {
        return Some(ShortBuffer);
      }
      data[end] := b;
      end := end + 1;
      err := None;
    }

    /** WriteZeroN clears one byte more than it adds, so it needs that byte as well. */
    method WriteZeroN(n: nat) returns (err: Option<IoError>)
      requires Valid() && end + n != data.Length
      modifies this`end, data
      ensures Valid() && (err.None? <==> old(end) + n < data.Length)
      ensures err.None? ==> end == old(end) + n && data[..end] == old(data[..end]) + seq(n, _ => 0)
      ensures err.Some? ==> end == old(end) && data[..] == old(data[..])
    {
      if end + n > data.Length {
        return Some(ShortBuffer);
      }
      forall i | end <= i <= end + n {
        data[i] := 0;
      }
      end := end + n;
      err := None;
    }

    method ReadByte() returns (b: byte, err: Option<IoError>)
      requires Valid()
      modifies this`start
      ensures Valid()
      ensures if old(start) == end then err == Some(EOF) && start == old(start)
              else err == None && start == old(start) + 1 && b == data[old(start)]
    {
      if end - start == 0 {
        return 0, Some(EOF);
      }
      b, err := data[start], None;
      start := start + 1;
    }

    method Read(max: nat) returns (p: bytes, err: Option<IoError>)
      requires Valid()
      modifies this`start
      ensures Valid()
      ensures old(start) == end ==> err == Some(EOF) && p == [] && start == old(start)
      ensures old(start) < end ==>
                && err == None && |p| == (if max <= end - old(start) then max else end - old(start))
                && start == old(start) + |p| && p == data[old(start)..start]
    {
      if end - start == 0 {
        return [], Some(EOF);
      }
      var n := if max <= end - start then max else end - start;
      p, err := data[start..start + n], None;
      start := start + n;
    }

    /** Takes n bytes; a negative or too large n takes nothing. */
    method Peek(n: int) returns (p: bytes, err: Option<IoError>)
      requires Valid()
      modifies this`start
      ensures Valid()
      ensures err == if n < 0 then Some(NegativeRead) else if end - old(start) < n then Some(ShortBuffer) else None
      ensures err.Some? ==> start == old(start) && p == []
      ensures err.None? ==> start == old(start) + n && p == data[old(start)..start]
    {
      if n < 0 {
        return [], Some(NegativeRead);
      }
      if start + n > end {
        return [], Some(ShortBuffer);
      }
      p, err := data[start..start + n], None;
      start := start + n;
    }

    /** One read into the free space. */
    method ReadOnceFrom(r: Source) returns (err: Option<IoError>)
      requires Valid()
      modifies this`end, data, r
      ensures Valid()
      ensures err == if old(end) == data.Length then Some(ShortBuffer)
              else if old(r.unread) == [] then Some(EOF) else None
      ensures exists p :: p + r.unread == old(r.unread) && data[..end] == old(data[..end]) + p
      ensures err.None? ==> old(end) < end
      ensures err.Some? ==> r.unread == old(r.unread) && end == old(end)
    {
      if end == data.Length {
        assert [] + r.unread == r.unread && data[..end] == data[..end] + [];
        return Some(ShortBuffer);
      }
      var p, eof := r.Read(data.Length - end);
      forall i | 0 <= i < |p| {
        data[end + i] := p[i];
      }
      end := end + |p|;
      assert data[..end] == old(data[..end]) + p;
      err := if eof then Some(EOF) else None;
    }

    /** Fills the free space with at least min bytes of a connection, in a single read when none is
        asked for. */
    method ReadAtLeastFrom(r: Source, min: int) returns (err: Option<IoError>)
      requires Valid()
      modifies this`end, data, r
      ensures Valid()
      ensures exists p :: p + r.unread == old(r.unread) && data[..end] == old(data[..end]) + p
      ensures min > 0 ==> (err.None? <==> min <= data.Length - old(end) && min <= |old(r.unread)|)
      ensures min <= 0 ==> (err.None? <==> old(end) < data.Length && old(r.unread) != [])
      ensures err.None? ==> old(end) < end && old(end) + min <= end
      ensures err.Some? && min <= data.Length - old(end) && old(end) < data.Length ==> r.unread == []
      ensures err.Some? && data.Length - old(end) < min ==> r.unread == old(r.unread) && end == old(end)
      ensures err.None? && min == 1 ==>
                && end == old(end) + Granted(old(r.script), Min(data.Length - old(end), |old(r.unread)|))
                && r.script == Later(old(r.script))
    {
      if min <= 0 {
        err := ReadOnceFrom(r);
        return;
      }
      if end == data.Length {
        assert [] + r.unread == r.unread && data[..end] == data[..end] + [];
        return Some(ShortBuffer);
      }
      var p;
      p, err := r.ReadAtLeast(data.Length - end, min);
      forall i | 0 <= i < |p| {
        data[end + i] := p[i];
      }
      end := end + |p|;
      assert data[..end] == old(data[..end]) + p;
    }

    /** Appends exactly size bytes of a connection. */
    method ReadFullFrom(r: Source, size: nat) returns (err: Option<IoError>)
      requires Valid()
      modifies this`end, data, r
      ensures Valid()
      ensures err.None? <==> size <= data.Length - old(end) && size <= |old(r.unread)|
      ensures err.None? ==> old(r.unread) == old(r.unread)[..size] + r.unread
      ensures err.None? ==> end == old(end) + size && data[..end] == old(data[..end]) + old(r.unread)[..size]
    {
      if end + size > data.Length {
        return Some(ShortBuffer);
      }
      var p;
      p, err := r.ReadAtLeast(size, size);
      forall i | 0 <= i < |p| {
        data[end + i] := p[i];
      }
      end := end + |p|;
      if err.None? {
        assert old(r.unread)[..size] == p;
      }
    }

    method Reset(pos: nat)
      requires pos <= data.Length
      modifies this`start, this`end
      ensures Valid() && start == end == pos
    {
      start, end := pos, pos;
    }

    /** Moves the cursor back, or to any byte held. */
    method Rewind(position: nat)
      requires Valid() && position <= end
      modifies this`start
      ensures Valid() && start == position
    {
      start := position;
    }
  }
}

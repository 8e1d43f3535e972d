/** The peekable connection of common/bufio/cached.go: it remembers what was consumed, so that
    sniffers can rewind.  How the network cuts the stream shows only in the sizes of plain reads, in
    what an oversized one loses, and in which of several delimiters is found. */
module CachedConn {
  import opened Bytes
  import opened Buffers
  import opened Delimiters
  import opened Wrappers

  const CACHE_SIZE := 4096

  // ---------------------------------------------------------------- the connection

  class CachedConn {
    const conn: Source
    var cache: Buffer?
    /** All the peer has sent and will send. */
    ghost const original: bytes
    /** Bytes read off the connection that found no room in the cache. */
    ghost var lost: bytes

    ghost predicate Valid()
      reads this, conn, cache, if cache == null then {} else {cache.data}
    {
      if cache == null then lost == [] && conn.unread == original
      else
        && cache.Valid() && cache.data.Length == CACHE_SIZE
        && cache.data[..cache.end] + lost + conn.unread == original
        && (lost != [] ==> cache.end == CACHE_SIZE)
    }

    /** How many bytes were consumed, and how many are held. */
    ghost function Pos(): nat
      reads this, cache
    {
      if cache == null then 0 else cache.start
    }

    ghost function End(): nat
      reads this, cache
    {
      if cache == null then 0 else cache.end
    }

    /** The part of the stream that can be held. */
    ghost function Reach(): nat {
      Min(4096, |original|)
    }

    /** The stream from the cursor on, as far as it can be held. */
    ghost function Ahead(): bytes
      requires Pos() <= Reach()
      reads this, cache
    {
      original[Pos()..Reach()]
    }

    constructor (conn: Source)
      ensures Valid() && this.conn == conn && original == conn.unread && cache == null
    {
      this.conn := conn;
      cache := null;
      original := conn.unread;
      lost := [];
    }

    lemma HeldIsStream()
      requires Valid()
      ensures Pos() <= End() <= Reach()
      ensures cache != null ==> cache.data[..cache.end] == original[..End()]
    {
      if cache != null {
        assert original[..End()] == cache.data[..cache.end];
      }
    }

    /** Bytes are lost only past a full cache. */
    lemma LostWhenFull()
      requires Valid() && lost != []
      ensures End() == CACHE_SIZE < |original|
    {
    }

    method EnsureCache()
      requires Valid()
      modifies this`cache
      ensures Valid() && cache != null && Pos() == old(Pos()) && End() == old(End())
      ensures old(cache) != null ==> cache == old(cache)
      ensures old(cache) == null ==> fresh(cache) && fresh(cache.data)
    {
      if cache == null {
        cache := new Buffer(CACHE_SIZE);
        assert cache.data[..0] + lost + conn.unread == original;
      }
    }

    /** Peek, cached.go:60-75: exactly the next n bytes, whenever the stream has them and the cache
        can hold them. */
    method Peek(n: int) returns (p: bytes, err: Option<IoError>)
      requires Valid()
      modifies this`cache, conn, cache, if cache == null then {} else {cache.data}
      ensures Valid() && lost == old(lost) && Pos() <= Reach() && old(Pos()) <= Reach()
      ensures cache == old(cache) || (fresh(cache) && fresh(cache.data))
      ensures err.None? <==> 0 <= n && old(Pos()) + n <= Reach()
      ensures err.None? ==> cache != null && Pos() == old(Pos()) + n && p == original[old(Pos())..Pos()]
      ensures err.Some? ==> Pos() == old(Pos()) && p == []
      ensures End() >= old(End())
    {
      HeldIsStream();
      if n < 0 {
        return [], Some(NegativeRead);
      }
      EnsureCache();
      var need := n - (cache.end - cache.start);
      if need > 0 {
        err := FillCache(need);
        if err.Some? {
          return [], err;
        }
      }
      p, err := PeekHeld(n);
    }

    /** Peek on what is held. */
    method PeekHeld(n: nat) returns (p: bytes, err: Option<IoError>)
      requires Valid() && cache != null
      modifies cache
      ensures Valid() && End() == old(End())
      ensures err.None? <==> old(Pos()) + n <= End()
      ensures err.None? ==> Pos() == old(Pos()) + n && Pos() <= |original| && p == original[old(Pos())..Pos()]
      ensures err.Some? ==> Pos() == old(Pos()) && p == []
    {
      HeldIsStream();
      ghost var from, held := cache.start, cache.data[..cache.end];
      p, err := cache.Peek(n);
      if err.None? {
        SliceOfArray(cache.data, cache.end, from, from + n);
        SliceOfPrefix(original, |held|, from, from + n);
      }
    }

    /** Reads at least min more bytes into the cache. */
    method FillCache(min: nat) returns (err: Option<IoError>)
      requires Valid() && cache != null && min > 0
      modifies conn, cache, cache.data
      ensures Valid() && lost == old(lost) && Pos() == old(Pos())
      ensures err.None? <==> old(End()) + min <= Reach()
      ensures err.None? ==> old(End()) + min <= End()
      ensures err.Some? && old(End()) < CACHE_SIZE && min == 1 ==> End() == Reach()
      ensures err.None? && min == 1 ==>
                && End() == old(End()) + Granted(old(conn.script), Reach() - old(End()))
                && conn.script == Later(old(conn.script))
      ensures End() >= old(End())
    {
      HeldIsStream();
      ghost var held, unread := cache.data[..cache.end], conn.unread;
      err := cache.ReadAtLeastFrom(conn, min);
      ghost var q :| q + conn.unread == unread && cache.data[..cache.end] == held + q;
      assert |held| == old(cache.end);
      assert lost != [] ==> q == [];
      assert (held + q) + lost + conn.unread == original by {
        assert held + lost + unread == original;
        if lost == [] {
          assert held + [] == held && (held + q) + [] == held + q;
          assert held + (q + conn.unread) == (held + q) + conn.unread;
        } else {
          assert held + [] == held && [] + conn.unread == conn.unread;
        }
      }
      HeldIsStream();
    }

    /** A read of max bytes finds room for all it gets: something is held ahead of the cursor, or
        what is asked for fits, or what is there does. */
    ghost predicate Fits(max: nat)
      reads this, conn, cache
    {
      Pos() < End() || max <= CACHE_SIZE - End() || |conn.unread| <= CACHE_SIZE - End()
    }

    /** What the connection hands to a read of max bytes when nothing is held. */
    ghost function Offered(max: nat): nat
      reads conn
    {
      Granted(conn.script, Min(max, |conn.unread|))
    }

    /** Read, cached.go:36-58.  What the connection offers beyond the room left in the cache is lost,
        and exactly then the read fails; with Fits no cut of the stream leads there, and without it
        the one that delivers all at once does. */
    method Read(max: nat) returns (p: bytes, err: Option<IoError>)
      requires Valid()
      modifies this`cache, this`lost, conn, cache, if cache == null then {} else {cache.data}
      ensures Valid() && Pos() <= Reach() && old(Pos()) <= Reach() && old(End()) <= CACHE_SIZE
      ensures cache == old(cache) || (fresh(cache) && fresh(cache.data))
      ensures err.None? ==>
                && lost == old(lost) && Pos() == old(Pos()) + |p| && p == original[old(Pos())..Pos()] && |p| <= max
                && (max > 0 ==> p != [])
      ensures err.Some? ==> p == [] && old(Pos()) == old(End())
      ensures err == Some(EOF) ==> lost == old(lost) && Pos() == old(Pos()) && (lost == [] ==> Pos() == |original|)
      ensures err == Some(ShortBuffer) <==>
              old(Pos()) == old(End()) && old(Offered(max)) > CACHE_SIZE - old(End())
      ensures err == Some(ShortBuffer) ==>
                Pos() == CACHE_SIZE
                && lost == old(lost) + old(conn.unread)[CACHE_SIZE - old(End())..old(Offered(max))]
      ensures err == None || err == Some(EOF) || err == Some(ShortBuffer)
      ensures old(Fits(max)) ==> err != Some(ShortBuffer)
      ensures !old(Fits(max)) && old(conn.script) == [] ==> err == Some(ShortBuffer)
      ensures max == 1 ==> (err.None? <==> old(Pos()) < Reach())
    {
      HeldIsStream();
      if cache != null && cache.end != cache.start {
        ghost var from, held := cache.start, cache.data[..cache.end];
        p, err := cache.Read(max);
        SliceOfArray(cache.data, cache.end, from, from + |p|);
        SliceOfPrefix(original, |held|, from, from + |p|);
        return;
      }
      p, err := ReadThrough(max);
    }

    /** Read with nothing held ahead of the cursor. */
    method ReadThrough(max: nat) returns (p: bytes, err: Option<IoError>)
      requires Valid() && Pos() == End()
      modifies this`cache, this`lost, conn, cache, if cache == null then {} else {cache.data}
      ensures Valid() && Pos() <= Reach() && old(Pos()) <= Reach()
      ensures cache == old(cache) || (fresh(cache) && fresh(cache.data))
      ensures err.None? ==>
                && lost == old(lost) && Pos() == old(Pos()) + |p| && p == original[old(Pos())..Pos()] && |p| <= max
                && (max > 0 ==> p != [])
      ensures err.Some? ==> p == []
      ensures err == Some(EOF) ==> lost == old(lost) && Pos() == old(Pos()) && (lost == [] ==> Pos() == |original|)
      ensures err == Some(ShortBuffer) <==> old(Offered(max)) > CACHE_SIZE - old(End())
      ensures err == Some(ShortBuffer) ==>
                Pos() == CACHE_SIZE
                && lost == old(lost) + old(conn.unread)[CACHE_SIZE - old(End())..old(Offered(max))]
      ensures err == None || err == Some(EOF) || err == Some(ShortBuffer)
      ensures max == 1 ==> (err.None? <==> old(Pos()) < Reach())
    {
      HeldIsStream();
      ghost var unread := conn.unread;
      var q, eof := conn.Read(max);
      if eof {
        assert q == [] && conn.unread == unread;
        return [], Some(EOF);
      }
      if |q| == 0 {
        assert conn.unread == unread;
        return [], None;
      }
      EnsureCacheFor(q, unread);
      var n := Keep(q);
      if n != |q| {
        assert q == unread[..|q|] && q[n..] == unread[n..|q|];
        lost := lost + q[n..];
        return [], Some(ShortBuffer);
      }
      assert lost == [] && q[n..] == [] && q[..n] == q;
      HeldIsStream();
      p, err := q, None;
    }

    /** As much of q as fits goes into the cache, and the cursor past it. */
    method Keep(q: bytes) returns (n: nat)
      requires cache != null && cache.Valid() && cache.data.Length == CACHE_SIZE && cache.start == cache.end && q != []
      requires cache.data[..cache.end] + lost + (q + conn.unread) == original
      requires lost != [] ==> cache.end == CACHE_SIZE
      modifies cache, cache.data
      ensures cache.Valid() && cache.start == cache.end == old(cache.end) + n
      ensures n == Min(|q|, CACHE_SIZE - old(cache.end))
      ensures lost != [] ==> n == 0
      ensures n != |q| ==> cache.end == CACHE_SIZE
      ensures cache.data[..cache.end] + (lost + q[n..]) + conn.unread == original
      ensures original[old(cache.end)..cache.end] == q[..n]
    {
      ghost var held := cache.data[..cache.end];
      var err;
      n, err := cache.Write(q);
      cache.start := cache.start + n;
      Split(held, lost, q, conn.unread, n);
    }

    /** The cache, allocated with q already taken off the connection. */
    method EnsureCacheFor(q: bytes, ghost unread: bytes)
      requires q + conn.unread == unread
      requires if cache == null then lost == [] && unread == original
               else
                 && cache.Valid() && cache.data.Length == CACHE_SIZE && cache.start == cache.end
                 && cache.data[..cache.end] + lost + unread == original
                 && (lost != [] ==> cache.end == CACHE_SIZE)
      modifies this`cache
      ensures cache != null && cache.Valid() && cache.data.Length == CACHE_SIZE && cache.start == cache.end
      ensures cache.end == old(End()) && cache.data[..cache.end] + lost + unread == original
      ensures lost != [] ==> cache.end == CACHE_SIZE
      ensures old(cache) != null ==> cache == old(cache)
      ensures old(cache) == null ==> fresh(cache) && fresh(cache.data)
    {
      if cache == null {
        cache := new Buffer(CACHE_SIZE);
        assert cache.data[..0] + lost + unread == original;
      }
    }

    static lemma Split(held: bytes, lost: bytes, q: bytes, rest: bytes, n: nat)
      requires n <= |q| && (lost == [] || n == 0)
      ensures held + lost + (q + rest) == (held + q[..n]) + (lost + q[n..]) + rest
      ensures (held + lost + (q + rest))[|held|..|held| + n] == q[..n]
    {
      if lost == [] {
        assert held + lost == held && lost + q[n..] == q[n..];
      } else {
        assert held + q[..n] == held && q[n..] == q;
        assert held + lost + (q + rest) == held + (lost + q) + rest;
      }
    }

    /** PeekUntil, cached.go:77-95: after every piece that arrives, the first delimiter in argument
        order that stands in what is held, so with several delimiters the answer can depend on the
        cut (Delimiters.CutsAgreeExactly); with each, its first occurrence in the stream. */
    method PeekUntil(ends: seq<bytes>) returns (p: bytes, which: nat, err: Option<IoError>)
      requires Valid()
      modifies this`cache, conn, cache, if cache == null then {} else {cache.data}
      ensures Valid() && lost == old(lost) && Pos() <= Reach() && old(Pos()) <= Reach()
      ensures cache == old(cache) || (fresh(cache) && fresh(cache.data))
      ensures old(Pos()) <= old(End()) <= Reach()
      ensures var k := Search(old(Ahead()), ends, old(End() - Pos()), old(conn.script));
              (err.None? <==> k < |ends|) && (err.None? ==> which == k)
      ensures err.None? ==>
                && which < |ends| && OccursAt(old(Ahead()), ends[which], |p|)
                && p == old(Ahead())[..|p|] && Pos() == old(Pos()) + |p| + |ends[which]|
                && (forall j :: 0 <= j < |p| ==> !OccursAt(old(Ahead()), ends[which], j))
      ensures err.Some? ==> Pos() == old(Pos()) && forall k :: 0 <= k < |ends| ==> !Occurs(old(Ahead()), ends[k])
      ensures End() >= old(End())
    {
      hide Search, Occurs, OccursAt;
      HeldIsStream();
      EnsureCache();
      ghost var pos, b := Pos(), Ahead();
      while true
        invariant Valid() && cache != null && Pos() == pos && lost == old(lost) && Ahead() == b
        invariant cache == old(cache) || (fresh(cache) && fresh(cache.data))
        invariant pos <= old(End()) <= End() <= Reach()
        invariant Search(b, ends, End() - pos, conn.script) == Search(b, ends, old(End() - Pos()), old(conn.script))
        decreases CACHE_SIZE - cache.end
      {
        var found;
        found, p, which, err := SearchOrFill(ends);
        if found || err.Some? {
          return;
        }
      }
    }

    /** One turn of the loop: a search, and a read when it finds nothing. */
    method SearchOrFill(ends: seq<bytes>) returns (found: bool, p: bytes, which: nat, err: Option<IoError>)
      requires Valid() && cache != null && Pos() <= End() <= Reach()
      modifies conn, cache, cache.data
      ensures Valid() && lost == old(lost) && old(End()) <= End() <= Reach()
      ensures found ==>
                && err.None? && which == Search(old(Ahead()), ends, old(End() - Pos()), old(conn.script))
                && which < |ends| && OccursAt(old(Ahead()), ends[which], |p|)
                && p == old(Ahead())[..|p|] && Pos() == old(Pos()) + |p| + |ends[which]|
                && (forall j :: 0 <= j < |p| ==> !OccursAt(old(Ahead()), ends[which], j))
      ensures !found ==> Pos() == old(Pos()) && p == []
      ensures err.Some? ==>
                && Search(old(Ahead()), ends, old(End() - Pos()), old(conn.script)) == |ends|
                && forall k :: 0 <= k < |ends| ==> !Occurs(old(Ahead()), ends[k])
      ensures !found && err.None? ==>
                && old(End()) < End()
                && Search(old(Ahead()), ends, End() - Pos(), conn.script) ==
                   Search(old(Ahead()), ends, old(End() - Pos()), old(conn.script))
    {
      hide Search, FirstIn, Occurs, OccursAt, Granted, Later;
      ghost var b, h := Ahead(), End() - Pos();
      SliceOfSlice(original, Pos(), Reach(), h);
      SearchStep(b, ends, h, conn.script);
      found, p, which := SearchHeld(ends);
      err := None;
      if !found {
        err := FillCache(1);
        HeldIsStream();
      }
    }

    /** The delimiters are looked for in what is held. */
    method SearchHeld(ends: seq<bytes>) returns (found: bool, p: bytes, which: nat)
      requires Valid() && cache != null && Pos() <= End() <= Reach()
      modifies cache
      ensures Valid() && End() == old(End())
      ensures FirstIn(original[old(Pos())..End()], ends) == if found then which else |ends|
      ensures !found ==> Pos() == old(Pos()) && p == []
      ensures found ==>
                && which < |ends| && OccursAt(old(Ahead()), ends[which], |p|)
                && p == old(Ahead())[..|p|] && Pos() == old(Pos()) + |p| + |ends[which]|
                && (forall j :: 0 <= j < |p| ==> !OccursAt(old(Ahead()), ends[which], j))
    {
      hide Occurs, OccursAt;
      HeldIsStream();
      ghost var ahead := Ahead();
      var buffer := cache.data[cache.start..cache.end];
      SliceOfArray(cache.data, cache.end, cache.start, cache.end);
      SliceOfPrefix(original, End(), Pos(), End());
      SliceOfSlice(original, Pos(), Reach(), End() - Pos());
      found, p, which := false, [], 0;
      var k, index := FindAny(buffer, ends);
      if index >= 0 {
        FirstInFront(ahead, buffer, ends[k], index);
        cache.start := cache.start + index + |ends[k]|;
        SliceOfPrefix(ahead, |buffer|, 0, index);
        found, p, which := true, buffer[..index], k;
      }
    }

    /** The first occurrence in what is held is the first in the stream. */
    static lemma FirstInFront(ahead: bytes, front: bytes, e: bytes, index: int)
      requires front <= ahead && OccursAt(front, e, index)
      requires forall j :: 0 <= j < index ==> !OccursAt(front, e, j)
      ensures OccursAt(ahead, e, index)
      ensures forall j :: 0 <= j < index ==> !OccursAt(ahead, e, j)
    {
      assert ahead[index..index + |e|] == front[index..index + |e|];
      forall j | 0 <= j < index
        ensures !OccursAt(ahead, e, j)
      {
        assert !OccursAt(front, e, j);
        assert ahead[j..j + |e|] == front[j..j + |e|];
      }
    }

    /** CurrentPosition, cached.go:108-113 */
    function CurrentPosition(): int
      reads this, cache
      ensures CurrentPosition() == if cache == null then -1 else Pos()
    {
      if cache == null then -1 else cache.start
    }

    /** Rewind, cached.go:97-101, to a position not past what is held. */
    method Rewind(position: nat)
      requires Valid() && position <= End()
      modifies cache
      ensures Valid() && Pos() == position && End() == old(End())
    {
      if cache != null {
        cache.Rewind(position);
      }
    }
  }

  // ---------------------------------------------------------------- reading off the front

  /** Peek, told against the stream ahead of the cursor. */
  method Take(conn: CachedConn, n: int) returns (p: bytes, ok: bool)
    requires conn.Valid()
    modifies conn`cache, conn.conn, conn.cache, if conn.cache == null then {} else {conn.cache.data}
    ensures conn.Valid() && conn.lost == old(conn.lost) && old(conn.Pos()) <= conn.Reach() && conn.Pos() <= conn.Reach()
    ensures conn.cache == old(conn.cache) || (fresh(conn.cache) && fresh(conn.cache.data))
    ensures ok <==> 0 <= n <= |old(conn.Ahead())|
    ensures ok ==> conn.cache != null
    ensures ok ==>
              p == old(conn.Ahead())[..n] && conn.Ahead() == old(conn.Ahead())[n..]
              && conn.Pos() == old(conn.Pos()) + n
    ensures !ok ==> conn.Pos() == old(conn.Pos())
  {
    conn.HeldIsStream();
    ghost var pos := conn.Pos();
    var err;
    p, err := conn.Peek(n);
    ok := err.None?;
    if ok {
      SliceOfSlice(conn.original, pos, conn.Reach(), n);
    }
  }

  /** Read of one byte, told against the stream ahead of the cursor. */
  method TakeByte(conn: CachedConn) returns (b: byte, ok: bool)
    requires conn.Valid()
    modifies conn`cache, conn`lost, conn.conn, conn.cache, if conn.cache == null then {} else {conn.cache.data}
    ensures conn.Valid() && old(conn.Pos()) <= conn.Reach() && conn.Pos() <= conn.Reach()
    ensures conn.cache == old(conn.cache) || (fresh(conn.cache) && fresh(conn.cache.data))
    ensures ok <==> old(conn.Ahead()) != []
    ensures ok ==> b == old(conn.Ahead())[0] && conn.Ahead() == old(conn.Ahead())[1..]
    ensures ok ==> conn.lost == old(conn.lost) && conn.Pos() == old(conn.Pos()) + 1
    ensures !ok ==> conn.Pos() == old(conn.Pos())
  {
    conn.HeldIsStream();
    ghost var pos := conn.Pos();
    var p, err := conn.Read(1);
    if err.Some? {
      return 0, false;
    }
    b, ok := p[0], true;
    SliceOfSlice(conn.original, pos, conn.Reach(), 1);
  }
}

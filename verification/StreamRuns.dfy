/** Whole conversations with a cached connection: what is returned is the stream at the cursor, and
    all but the sizes of plain reads is settled by the stream alone, however the network cuts it up
    (common/bufio/cached.go). */
module StreamRuns {
  import opened Bytes
  import opened Buffers
  import opened CachedConn
  import opened Delimiters
  import opened Wrappers

  /** What a sniffer does with the connection. */
  datatype Ask =
    | Next(n: int)        // Peek
    | Until(end: bytes)   // PeekUntil, with one delimiter
    | One                 // Read of a single byte
    | UpTo(max: nat)      // Read
    | Back(to: nat)       // Rewind to an earlier position

  /** Failed: the stream, as far as the cache can hold it, has no such bytes.  Overflowed: a Read's
      short-buffer error. */
  datatype Answer = Got(p: bytes) | Failed | Overflowed | Moved

  /** The part of the stream the cache can hold. */
  ghost function Held(conn: CachedConn): (s: bytes)
    ensures |s| == conn.Reach()
  {
    conn.original[..conn.Reach()]
  }

  // ---------------------------------------------------------------- what a conversation may be

  /** The answer to a request other than a Read of any size, and the cursor after it. */
  ghost function Reply(s: bytes, pos: nat, a: Ask): (r: (Answer, nat))
    requires pos <= |s| && !a.UpTo?
    ensures r.1 <= |s|
  {
    match a
    case Next(n) => if 0 <= n <= |s| - pos then (Got(s[pos..pos + n]), pos + n) else (Failed, pos)
    case One => if pos < |s| then (Got([s[pos]]), pos + 1) else (Failed, pos)
    case Until(e) =>
      var i := FirstFrom(s[pos..], e, 0);
      if i >= 0 then (Got(s[pos..][..i]), pos + i + |e|) else (Failed, pos)
    case Back(to) => (Moved, if to <= pos then to else pos)
  }

  /** r answers a with the cursor at pos of the stream s and leaves it at next.  A Read returns the
      stream at the cursor, perhaps less of it than asked for but not nothing; it fails only where
      nothing more can be held, and with a short-buffer error only if the stream is longer than that. */
  ghost predicate Answers(s: bytes, longer: bool, pos: nat, a: Ask, r: Answer, next: nat)
    requires pos <= |s|
  {
    if a.UpTo? then
      match r
      case Got(p) =>
        && |p| <= a.max && |p| <= |s| - pos && (a.max > 0 ==> p != [])
        && p == s[pos..pos + |p|] && next == pos + |p|
      case Failed => next == pos == |s|
      case Overflowed => longer && next == |s|
      case Moved => false
    else (r, next) == Reply(s, pos, a)
  }

  /** A conversation whose cursor goes along path. */
  ghost predicate Along(s: bytes, longer: bool, path: seq<nat>, asks: seq<Ask>, answers: seq<Answer>) {
    && |path| == |asks| + 1 && |answers| == |asks|
    && (forall i :: 0 <= i < |path| ==> path[i] <= |s|)
    && (forall i :: 0 <= i < |asks| ==> Answers(s, longer, path[i], asks[i], answers[i], path[i + 1]))
  }

  lemma AlongMore(s: bytes, longer: bool, path: seq<nat>, asks: seq<Ask>, answers: seq<Answer>,
                  a: Ask, r: Answer, next: nat)
    requires Along(s, longer, path, asks, answers) && next <= |s|
    requires Answers(s, longer, path[|path| - 1], a, r, next)
    ensures Along(s, longer, path + [next], asks + [a], answers + [r])
  {
    hide Answers;
    var path', asks', answers' := path + [next], asks + [a], answers + [r];
    forall i | 0 <= i < |asks'|
      ensures Answers(s, longer, path'[i], asks'[i], answers'[i], path'[i + 1])
    {
      if i < |asks| {
        assert path'[i] == path[i] && path'[i + 1] == path[i + 1] && asks'[i] == asks[i] && answers'[i] == answers[i];
      }
    }
  }

  /** Whatever bytes a conversation is given are the stream where its cursor was. */
  lemma BytesAreTheStream(s: bytes, longer: bool, path: seq<nat>, asks: seq<Ask>, answers: seq<Answer>, i: nat)
    requires Along(s, longer, path, asks, answers) && i < |asks| && answers[i].Got?
    ensures var p := answers[i].p; path[i] + |p| <= |s| && p == s[path[i]..path[i] + |p|]
  {
    assert Answers(s, longer, path[i], asks[i], answers[i], path[i + 1]);
    if asks[i].Until? {
      var n := |answers[i].p|;
      assert s[path[i]..][..n] == s[path[i]..path[i] + n];
    }
  }

  /** Without reads of any size, the one conversation the stream settles. */
  ghost function Replies(s: bytes, pos: nat, asks: seq<Ask>): seq<Answer>
    requires pos <= |s| && forall i :: 0 <= i < |asks| ==> !asks[i].UpTo?
    decreases |asks|
  {
    if asks == [] then [] else
      var (answer, next) := Reply(s, pos, asks[0]);
      [answer] + Replies(s, next, asks[1..])
  }

  lemma {:induction false} SettledByTheStream(s: bytes, longer: bool, path: seq<nat>, asks: seq<Ask>,
                                            answers: seq<Answer>)
    requires Along(s, longer, path, asks, answers)
    requires forall i :: 0 <= i < |asks| ==> !asks[i].UpTo?
    ensures answers == Replies(s, path[0], asks)
    decreases |asks|
  {
    hide Reply;
    if asks != [] {
      assert Answers(s, longer, path[0], asks[0], answers[0], path[1]);
      assert Along(s, longer, path[1..], asks[1..], answers[1..]) by {
        forall i | 0 <= i < |asks[1..]|
          ensures Answers(s, longer, path[1..][i], asks[1..][i], answers[1..][i], path[1..][i + 1])
        {
          assert Answers(s, longer, path[i + 1], asks[i + 1], answers[i + 1], path[i + 2]);
        }
      }
      SettledByTheStream(s, longer, path[1..], asks[1..], answers[1..]);
      assert answers == [answers[0]] + answers[1..];
    }
  }

  // ---------------------------------------------------------------- the conversation

  /** One request, answered as the stream allows. */
  method Put(conn: CachedConn, a: Ask) returns (r: Answer)
    requires conn.Valid() && conn.Pos() <= conn.Reach()
    modifies conn`cache, conn`lost, conn.conn, conn.cache, if conn.cache == null then {} else {conn.cache.data}
    ensures conn.Valid() && conn.Pos() <= conn.Reach()
    ensures conn.cache == old(conn.cache) || (fresh(conn.cache) && fresh(conn.cache.data))
    ensures Answers(Held(conn), |conn.original| > CACHE_SIZE, old(conn.Pos()), a, r, conn.Pos())
  {
    match a
    case Next(n) =>
      r := PutNext(conn, n);
    case One =>
      r := PutOne(conn);
    case UpTo(max) =>
      r := PutRead(conn, max);
    case Until(e) =>
      r := PutUntil(conn, e);
    case Back(to) =>
      conn.HeldIsStream();
      if to <= conn.CurrentPosition() {
        conn.Rewind(to);
      }
      r := Moved;
  }

  method PutNext(conn: CachedConn, n: int) returns (r: Answer)
    requires conn.Valid() && conn.Pos() <= conn.Reach()
    modifies conn`cache, conn.conn, conn.cache, if conn.cache == null then {} else {conn.cache.data}
    ensures conn.Valid() && conn.Pos() <= conn.Reach()
    ensures conn.cache == old(conn.cache) || (fresh(conn.cache) && fresh(conn.cache.data))
    ensures (r, conn.Pos()) == Reply(Held(conn), old(conn.Pos()), Next(n))
  {
    ghost var s, pos := Held(conn), conn.Pos();
    assert s[pos..] == conn.Ahead();
    var p, ok := Take(conn, n);
    r := if ok then Got(p) else Failed;
    assert ok ==> s[pos..][..n] == s[pos..pos + n];
  }

  method PutOne(conn: CachedConn) returns (r: Answer)
    requires conn.Valid() && conn.Pos() <= conn.Reach()
    modifies conn`cache, conn`lost, conn.conn, conn.cache, if conn.cache == null then {} else {conn.cache.data}
    ensures conn.Valid() && conn.Pos() <= conn.Reach()
    ensures conn.cache == old(conn.cache) || (fresh(conn.cache) && fresh(conn.cache.data))
    ensures (r, conn.Pos()) == Reply(Held(conn), old(conn.Pos()), One)
  {
    ghost var s, pos := Held(conn), conn.Pos();
    assert s[pos..] == conn.Ahead();
    var b, ok := TakeByte(conn);
    r := if ok then Got([b]) else Failed;
  }

  method PutRead(conn: CachedConn, max: nat) returns (r: Answer)
    requires conn.Valid() && conn.Pos() <= conn.Reach()
    modifies conn`cache, conn`lost, conn.conn, conn.cache, if conn.cache == null then {} else {conn.cache.data}
    ensures conn.Valid() && conn.Pos() <= conn.Reach()
    ensures conn.cache == old(conn.cache) || (fresh(conn.cache) && fresh(conn.cache.data))
    ensures Answers(Held(conn), |conn.original| > CACHE_SIZE, old(conn.Pos()), UpTo(max), r, conn.Pos())
  {
    hide Granted;
    ghost var s, pos := Held(conn), conn.Pos();
    var p, err := conn.Read(max);
    if err.None? {
      SliceOfPrefix(conn.original, conn.Reach(), pos, pos + |p|);
      r := Got(p);
    } else if err == Some(EOF) {
      if conn.lost != [] {
        conn.LostWhenFull();
      }
      r := Failed;
    } else {
      conn.LostWhenFull();
      r := Overflowed;
    }
  }

  method PutUntil(conn: CachedConn, e: bytes) returns (r: Answer)
    requires conn.Valid() && conn.Pos() <= conn.Reach()
    modifies conn`cache, conn.conn, conn.cache, if conn.cache == null then {} else {conn.cache.data}
    ensures conn.Valid() && conn.Pos() <= conn.Reach()
    ensures conn.cache == old(conn.cache) || (fresh(conn.cache) && fresh(conn.cache.data))
    ensures (r, conn.Pos()) == Reply(Held(conn), old(conn.Pos()), Until(e))
  {
    hide Search;
    ghost var b := conn.Ahead();
    assert Held(conn)[conn.Pos()..] == b;
    ghost var i := FirstFrom(b, e, 0);
    var p, _, err := conn.PeekUntil([e]);
    if err.Some? {
      assert !Occurs(b, [e][0]);
      r := Failed;
    } else {
      assert OccursAt(b, e, |p|);
      assert i >= 0 && i == |p|;
      r := Got(p);
    }
  }

  /** A conversation of any requests in any order: its answers are ones the stream allows, and
      without reads of any size they are a function of the stream. */
  method Converse(conn: CachedConn, asks: seq<Ask>) returns (answers: seq<Answer>, ghost path: seq<nat>)
    requires conn.Valid() && conn.Pos() <= conn.Reach()
    modifies conn`cache, conn`lost, conn.conn, conn.cache, if conn.cache == null then {} else {conn.cache.data}
    ensures conn.Valid() && conn.Pos() <= conn.Reach()
    ensures Along(Held(conn), |conn.original| > CACHE_SIZE, path, asks, answers)
    ensures path[0] == old(conn.Pos()) && path[|asks|] == conn.Pos()
    ensures (forall i :: 0 <= i < |asks| ==> !asks[i].UpTo?) ==> answers == Replies(Held(conn), old(conn.Pos()), asks)
  {
    hide Answers;
    answers, path := [], [conn.Pos()];
    ghost var s, longer := Held(conn), |conn.original| > CACHE_SIZE;
    for i := 0 to |asks|
      invariant conn.Valid() && conn.Pos() <= conn.Reach()
      invariant conn.cache == old(conn.cache) || (fresh(conn.cache) && fresh(conn.cache.data))
      invariant Along(s, longer, path, asks[..i], answers)
      invariant path[0] == old(conn.Pos()) && path[i] == conn.Pos()
    {
      assert asks[..i + 1] == asks[..i] + [asks[i]];
      var r := Put(conn, asks[i]);
      AlongMore(s, longer, path, asks[..i], answers, asks[i], r, conn.Pos());
      answers, path := answers + [r], path + [conn.Pos()];
    }
    assert asks[..|asks|] == asks;
    if forall i :: 0 <= i < |asks| ==> !asks[i].UpTo? {
      SettledByTheStream(s, longer, path, asks, answers);
    }
  }

  /** The same stream cut up in two ways answers the same, reads of any size aside. */
  method CutsDoNotMatter(stream: bytes, script: seq<nat>, script': seq<nat>, asks: seq<Ask>)
    returns (answers: seq<Answer>, answers': seq<Answer>)
    requires forall i :: 0 <= i < |asks| ==> !asks[i].UpTo?
    ensures answers == answers'
  {
    var source := new Source(stream, script);
    var source' := new Source(stream, script');
    var conn := new CachedConn(source);
    var conn' := new CachedConn(source');
    ghost var path, path';
    answers, path := Converse(conn, asks);
    answers', path' := Converse(conn', asks);
  }

  // ---------------------------------------------------------------- where the cut does show

  /** A read of max bytes into room free ones is safe for every cut of the avail bytes to come exactly
      when it asks for no more than fits, or no more is to come. */
  lemma SafeForEveryCut(max: nat, avail: nat, room: nat)
    ensures (forall script :: Granted(script, Min(max, avail)) <= room) <==> max <= room || avail <= room
  {
    assert Granted([], Min(max, avail)) == Min(max, avail);
  }

  /** A stream one byte longer than the cache, asked for all at once: its last byte is gone. */
  method LosingRead() returns (p: bytes, err: Option<IoError>, ghost lost: bytes)
    ensures p == [] && err == Some(ShortBuffer) && lost == [7]
  {
    var source := new Source(seq(CACHE_SIZE, _ => 0) + [7], []);
    var conn := new CachedConn(source);
    p, err := conn.Read(CACHE_SIZE + 1);
    lost := conn.lost;
  }

  const SPACE: bytes := [32]
  const CRLF: bytes := [13, 10]
  const UNKNOWN: bytes := [85, 78, 75, 78, 79, 87, 78]

  /** The first search of a version 1 PROXY header (server_v1.go:28), on "UNKNOWN", a line end and a
      payload with a space: the space is found when all arrives at once, and the line end when a
      piece ends with it. */
  method UnknownDependsOnTheCut() returns (whole: nat, cut: nat)
    ensures whole == 0 && cut == 1
  {
    ghost var b := UNKNOWN + CRLF + [71] + SPACE;
    UnknownFound(b);
    var source := new Source(UNKNOWN + CRLF + [71] + SPACE, []);
    var source' := new Source(UNKNOWN + CRLF + [71] + SPACE, [9]);
    var conn := new CachedConn(source);
    var conn' := new CachedConn(source');
    assert conn.Ahead() == b && conn'.Ahead() == b;
    var p, err;
    p, whole, err := conn.PeekUntil([SPACE, CRLF]);
    p, cut, err := conn'.PeekUntil([SPACE, CRLF]);
  }

  lemma UnknownFound(b: bytes)
    requires b == UNKNOWN + CRLF + [71] + SPACE
    ensures Search(b, [SPACE, CRLF], 0, []) == 0
    ensures Search(b, [SPACE, CRLF], 0, [9]) == 1
  {
    var ends := [SPACE, CRLF];
    SearchStep(b, ends, 0, []);
    SearchStep(b, ends, 11, []);
    SearchStep(b, ends, 0, [9]);
    SearchStep(b, ends, 9, []);
    assert forall i, e :: e in ends ==> !OccursAt(b[..0], e, i);
    assert OccursAt(b, SPACE, 10);
    assert b[..9] == UNKNOWN + CRLF && OccursAt(b[..9], CRLF, 7);
    forall i
      ensures !OccursAt(b[..9], SPACE, i)
    {
      if 0 <= i < 9 {
        assert b[..9][i..i + 1][0] == b[..9][i] != 32;
      }
    }
    assert FirstIn(b[..0], ends) == 2 && FirstIn(b[..11], ends) == 0 && FirstIn(b[..9], ends) == 1;
  }
}

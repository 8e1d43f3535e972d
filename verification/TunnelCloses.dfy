/** What closing, resetting and shaking hands come to in whole runs of two tunnel sessions. */
module TunnelCloses {
  import opened Endpoint
  import opened EndpointMeaning
  import opened Tunnel
  import opened TunnelRuns

  /** What no step takes back. */
  ghost predicate Settled(e: Endpoint, r: Endpoint) {
    && (e.readEOF ==> r.readEOF) && (e.closed ==> r.closed)
    && (e.writeFin ==> r.writeFin) && (e.handshake ==> r.handshake)
  }

  lemma DoSettles(me: Peer, inbox: set<Frame>, op: Op, now: nat)
    requires |me.ep.window| == MAX_IN_FLIGHT
    ensures Settled(me.ep, Do(me, inbox, op, now).ep)
  {
    hide Receive, ReceiveOut, Tick, TickOut, ForceClose, Chunk;
    CloseMeans(me.ep);
    match op
    case Deliver(f) => FrameMeans(me.ep, f);
    case Retransmit => TickSettles(me.ep, now);
    case _ =>
  }

  lemma TickSettles(e: Endpoint, now: nat)
    ensures Settled(e, Tick(e, now))
  {
  }

  lemma {:induction false} ExecSettles(s: Sys, acts: seq<Act>)
    requires Sized(s)
    ensures Settled(s.p.ep, Exec(s, acts).p.ep) && Settled(s.q.ep, Exec(s, acts).q.ep)
    decreases |acts|
  {
    hide Do;
    if acts != [] {
      match acts[0] {
        case AtP(op) => DoSettles(s.p, s.q.out, op, s.clock);
        case AtQ(op) => DoSettles(s.q, s.p.out, op, s.clock);
        case Pass(_) =>
      }
      ExecSettles(Step(s, acts[0]), acts[1..]);
    }
  }

  /** The state after a frame of p's has arrived at q and anything has happened since. */
  ghost function Arrived(id: nat, acts: seq<Act>, f: Frame, since: seq<Act>): (t: Sys)
    ensures Sized(t)
  {
    Exec(Step(Reached(id, acts), AtQ(Deliver(f))), since)
  }

  lemma ArrivedIsReached(id: nat, acts: seq<Act>, f: Frame, since: seq<Act>)
    ensures Arrived(id, acts, f, since) == Reached(id, acts + [AtQ(Deliver(f))] + since)
  {
    ExecAppend(Start(id), acts, [AtQ(Deliver(f))]);
    ExecAppend(Start(id), acts + [AtQ(Deliver(f))], since);
    assert Exec(Reached(id, acts), [AtQ(Deliver(f))]) == Step(Reached(id, acts), AtQ(Deliver(f))) by {
      assert [AtQ(Deliver(f))][1..] == [];
    }
  }

  /** Once a FIN has reached an open end, whatever happens after it: a blocked reader has its token,
      and a read with nothing left to read returns at once with nothing, which is its EOF. */
  lemma FinEndsReads(id: nat, acts: seq<Act>, f: Frame, since: seq<Act>, room: nat)
    requires f in Reached(id, acts).p.out && f.typ == 5 && !Reached(id, acts).q.ep.closed
    ensures var q := Arrived(id, acts, f, since).q;
            && q.ep.readEOF
            && (q.reading ==> q.ep.readWait)
            && (!q.reading ==>
                  var r := Step(Arrived(id, acts, f, since), AtQ(DoRead(room))).q;
                  && !r.reading
                  && (q.ep.readBuf == [] ==> r.got == q.got)
                  && r.got + r.ep.readBuf == q.got + q.ep.readBuf
                  && |r.got| == |q.got| + (if room <= |q.ep.readBuf| then room else |q.ep.readBuf|))
  {
    hide Receive, Exec, Step, Inv;
    var s := Reached(id, acts);
    FrameMeans(s.q.ep, f);
    DeliveredTo(s, f);
    ExecSettles(Step(s, AtQ(Deliver(f))), since);
    ArrivedIsReached(id, acts, f, since);
    WakeupsAreKept(id, acts + [AtQ(Deliver(f))] + since);
    if !Arrived(id, acts, f, since).q.reading {
      ReadStep(Arrived(id, acts, f, since), room);
    }
  }

  lemma DeliveredTo(s: Sys, f: Frame)
    requires Sized(s) && f in s.p.out
    ensures Step(s, AtQ(Deliver(f))).q.ep == Receive(s.q.ep, f)
  {
    hide Receive, ReceiveOut;
  }

  /** A read that does not wait. */
  lemma ReadStep(s: Sys, room: nat)
    requires Sized(s) && !s.q.reading && (s.q.ep.readBuf != [] || s.q.ep.readEOF || s.q.ep.closed)
    ensures var r := Step(s, AtQ(DoRead(room))).q;
            && !r.reading
            && r.got + r.ep.readBuf == s.q.got + s.q.ep.readBuf
            && |r.got| == |s.q.got| + (if room <= |s.q.ep.readBuf| then room else |s.q.ep.readBuf|)
            && (s.q.ep.readBuf == [] ==> r.got == s.q.got)
  {
    hide Take, Taken;
    ReadMeans(s.q.ep, room);
    assert s.q.got + (Taken(s.q.ep, room) + Take(s.q.ep, room).readBuf)
        == (s.q.got + Taken(s.q.ep, room)) + Take(s.q.ep, room).readBuf;
    assert s.q.ep.readBuf == [] ==> Taken(s.q.ep, room) == [];
  }

  /** close at one end shows at the other: its first locked section puts a FIN with the receive cursor
      into the network and stops writes, and once that FIN arrives at an open peer, FinEndsReads holds. */
  lemma CloseIsSeen(id: nat, acts: seq<Act>, since: seq<Act>, room: nat)
    requires !Reached(id, acts).p.ep.closed && !Reached(id, acts).q.ep.closed
    ensures var s := Reached(id, acts);
            var t := Step(s, AtP(BeginClose));
            var f := Frame(5, s.p.ep.id, 0, s.p.ep.recvNext, []);
            && t == Reached(id, acts + [AtP(BeginClose)])
            && f in t.p.out && t.p.ep.writeFin
            && var q := Arrived(id, acts + [AtP(BeginClose)], f, since).q;
            q.ep.readEOF && (q.reading ==> q.ep.readWait)
  {
    hide Receive, Exec, StartClose, StartCloseOut;
    var s := Reached(id, acts);
    CloseMeans(s.p.ep);
    ExecAppend(Start(id), acts, [AtP(BeginClose)]);
    OneStep(s, AtP(BeginClose));
    var f := Frame(5, s.p.ep.id, 0, s.p.ep.recvNext, []);
    assert f in StartCloseOut(s.p.ep);
    FinEndsReads(id, acts + [AtP(BeginClose)], f, since, room);
  }

  lemma OneStep(s: Sys, act: Act)
    requires Sized(s)
    ensures Exec(s, [act]) == Step(s, act)
  {
    hide Step;
    assert [act][1..] == [];
  }

  /** After a RST, whatever happens: the session is closed, and a blocked reader and a blocked writer
      have their tokens. */
  lemma ResetCloses(id: nat, acts: seq<Act>, f: Frame, since: seq<Act>)
    requires f in Reached(id, acts).p.out && f.typ == 6
    ensures var q := Arrived(id, acts, f, since).q;
            && q.ep.closed && (q.reading ==> q.ep.readWait) && (q.writing ==> q.ep.writeWait)
    ensures !Reached(id, acts).q.ep.closed ==>
              var e := Arrived(id, acts, f, since).q.ep; e.readEOF && e.writeFin && e.handshake
  {
    hide Receive, Exec, Step, Inv;
    var s := Reached(id, acts);
    FrameMeans(s.q.ep, f);
    DeliveredTo(s, f);
    ExecSettles(Step(s, AtQ(Deliver(f))), since);
    ArrivedIsReached(id, acts, f, since);
    WakeupsAreKept(id, acts + [AtQ(Deliver(f))] + since);
  }

  /** After the second section of close the same holds of the end that closed. */
  lemma CloseEnds(id: nat, acts: seq<Act>, since: seq<Act>)
    requires Reached(id, acts).p.closing > 0
    ensures var t := Exec(Step(Reached(id, acts), AtP(EndClose)), since);
            && t.p.ep.closed && (t.p.reading ==> t.p.ep.readWait) && (t.p.writing ==> t.p.ep.writeWait)
  {
    hide Exec, ForceClose, Inv;
    var s := Reached(id, acts);
    CloseMeans(s.p.ep);
    ExecSettles(Step(s, AtP(EndClose)), since);
    ExecAppend(Start(id), acts, [AtP(EndClose)]);
    OneStep(s, AtP(EndClose));
    ExecAppend(Start(id), acts + [AtP(EndClose)], since);
    WakeupsAreKept(id, acts + [AtP(EndClose)] + since);
  }

  /** A SYNACK opens the handshake for good. */
  lemma SynackOpens(id: nat, acts: seq<Act>, f: Frame, since: seq<Act>)
    requires f in Reached(id, acts).p.out && f.typ == 2 && !Reached(id, acts).q.ep.closed
    ensures Arrived(id, acts, f, since).q.ep.handshake
  {
    hide Receive, Exec, Step;
    FrameMeans(Reached(id, acts).q.ep, f);
    DeliveredTo(Reached(id, acts), f);
    ExecSettles(Step(Reached(id, acts), AtQ(Deliver(f))), since);
  }
}

/** Every frame a tunnel run puts into the network survives the wire format, so the frames of Tunnel
    and the datagrams of FrameCodec are the same network. */
module TunnelWire {
  import opened Bytes
  import opened Numbers
  import opened Endpoint
  import opened FrameCodec
  import opened Tunnel
  import opened TunnelRuns
  import opened Wrappers

  ghost predicate Fits(f: Frame, id: nat) {
    f.sessionId == id && f.seqNo < U32 && f.ack < U32 && |f.payload| <= MAX_PAYLOAD
  }

  ghost predicate EndFits(e: Endpoint, id: nat) {
    && |e.window| == MAX_IN_FLIGHT
    && e.id == id && e.sendNext < U32 && e.recvNext < U32
    && (forall s :: s in e.sendSlots ==> s.seqNo < U32 && |s.data| <= MAX_PAYLOAD)
  }

  ghost predicate PeerFits(x: Peer, id: nat) {
    EndFits(x.ep, id) && forall f :: f in x.out ==> Fits(f, id)
  }

  lemma {:induction false} DrainFits(e: Endpoint, id: nat)
    requires EndFits(e, id)
    ensures EndFits(Drain(e), id)
    decreases Held(e.window)
  {
    if e.window[0].Some? {
      HeldShift(e.window[1..]);
      DrainFits(Shift(e), id);
    }
  }

  lemma StoreFits(e: Endpoint, f: Frame, id: nat)
    requires EndFits(e, id)
    ensures EndFits(StoreData(e, f), id)
  {
    hide Drain;
    if e.recvNext <= f.seqNo < e.recvNext + MAX_IN_FLIGHT {
      var off := f.seqNo - e.recvNext;
      DrainFits(if e.window[off].None? then e.(window := e.window[off := Some(f.payload)]) else e, id);
    }
  }

  lemma AckFits(e: Endpoint, ack: nat, id: nat)
    requires EndFits(e, id)
    ensures EndFits(ConsumeAck(e, ack), id)
  {
    ConsumeAckLocal(e, ack);
  }

  lemma ReceiveFits(e: Endpoint, f: Frame, id: nat)
    requires EndFits(e, id)
    ensures EndFits(Receive(e, f), id)
  {
    hide StoreData, ConsumeAck;
    AckFits(e, f.ack, id);
    StoreFits(if CarriesAck(f.typ) then ConsumeAck(e, f.ack) else e, f, id);
  }

  lemma {:induction false} DueFit(e: Endpoint, slots: seq<Slot>, now: nat, id: nat)
    requires EndFits(e, id)
    requires forall s :: s in slots ==> s.seqNo < U32 && |s.data| <= MAX_PAYLOAD
    ensures forall f :: f in DueFrames(e, slots, now) ==> Fits(f, id)
  {
    if slots != [] {
      DueFit(e, slots[1..], now, id);
    }
  }

  lemma TickFits(e: Endpoint, now: nat, id: nat)
    requires EndFits(e, id)
    ensures EndFits(Tick(e, now), id)
  {
    hide DueFrames;
    forall s | s in Touched(e.sendSlots, now, e.rto)
      ensures s.seqNo < U32 && |s.data| <= MAX_PAYLOAD
    {
      var k :| 0 <= k < |e.sendSlots| && s == Touched(e.sendSlots, now, e.rto)[k];
      assert e.sendSlots[k] in e.sendSlots;
    }
  }

  lemma DoFits(me: Peer, inbox: set<Frame>, op: Op, now: nat, id: nat)
    requires PeerFits(me, id)
    ensures PeerFits(Do(me, inbox, op, now), id)
  {
    hide Receive, ReceiveOut, Tick, Chunk, DueFrames;
    match op
    case Deliver(f) =>
      ReceiveFits(me.ep, f, id);
      forall g | g in FrameSet(ReceiveOut(me.ep, f))
        ensures Fits(g, id)
      {
        AnswersAreAcks(me.ep, f, g);
      }
    case Retransmit =>
      TickFits(me.ep, now, id);
      DueFit(me.ep, me.ep.sendSlots, now, id);
    case DoWrite(b) => ChunkFits(b);
    case _ =>
  }

  lemma ChunkFits(b: bytes)
    ensures |Chunk(b)| <= MAX_PAYLOAD
  {
  }

  lemma {:induction false} ExecFits(s: Sys, acts: seq<Act>, id: nat)
    requires PeerFits(s.p, id) && PeerFits(s.q, id)
    ensures Sized(s) && PeerFits(Exec(s, acts).p, id) && PeerFits(Exec(s, acts).q, id)
    decreases |acts|
  {
    hide Do;
    if acts != [] {
      match acts[0] {
        case AtP(op) => DoFits(s.p, s.q.out, op, s.clock, id);
        case AtQ(op) => DoFits(s.q, s.p.out, op, s.clock, id);
        case Pass(_) =>
      }
      ExecFits(Step(s, acts[0]), acts[1..], id);
    }
  }

  /** Encoding never fails on what a session sends, and what arrives decodes to what was sent. */
  lemma NetworkSurvivesWire(id: nat, acts: seq<Act>, f: Frame)
    requires id < Pow256(8)
    requires f in Reached(id, acts).p.out || f in Reached(id, acts).q.out
    ensures |f.payload| <= 1200 && Parse(Wire(f)) == Ok(f)
  {
    ExecFits(Start(id), acts, id);
    Widths();
    ParseOfWire(f, []);
    assert Wire(f) + [] == Wire(f);
  }
}

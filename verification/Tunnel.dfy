/** Two tunnel sessions and a network between them that loses, repeats and reorders frames.

    A step is one locked section of common/udptunnel/session.go at one end, or the network dropping
    a frame, or time passing.  The network is the set of frames an end has sent and that were not
    dropped: any of them may arrive any number of times, at any later point. */
module Tunnel {
  import opened Bytes
  import opened Endpoint
  import opened Wrappers

  /** One end: its session, the frames it has in the network, the payloads its application queued,
      the bytes its application read, and whether its one reader and its one writer are blocked on
      their channels.  closing counts calls of close between their two locked sections. */
  datatype Peer = Peer(ep: Endpoint, out: set<Frame>, sent: seq<bytes>, got: bytes, reading: bool, writing: bool,
                       closing: nat)

  datatype Op =
    | DoWrite(b: bytes)   // one turn of write's loop with b left to write
    | WakeWriter          // a blocked writer takes its token
    | DoRead(room: nat)   // read up to its wait, or to its return
    | WakeReader          // a blocked reader takes its token
    | StopReading         // the read deadline passes
    | Retransmit          // the retransmission ticker fires
    | Deliver(f: Frame)   // a frame of the other end arrives
    | Lose(f: Frame)      // a frame of this end is dropped by the network
    | BeginClose
    | EndClose
    | Abort               // the listener, the dialer or the idle timer forces the session closed
    | Control(typ: byte)  // a SYN, SYNACK, RST, PING or PONG sent outside the stream

  function Do(me: Peer, inbox: set<Frame>, op: Op, now: nat): (r: Peer)
    requires |me.ep.window| == MAX_IN_FLIGHT
    ensures |r.ep.window| == MAX_IN_FLIGHT
  {
    match op
    case DoWrite(b) =>
      if me.writing || b == [] || me.ep.closed || me.ep.writeFin then me
      else if !CanQueue(me.ep) then me.(writing := true)
      else if |me.sent| + 1 >= U32 then me
      else
        var p := Chunk(b);
        me.(ep := Queue(me.ep, p, now), sent := me.sent + [p],
            out := me.out + {Frame(TYPE_DATA, me.ep.id, me.ep.sendNext, me.ep.recvNext, p)})
    case WakeWriter =>
      if me.writing && me.ep.writeWait then me.(writing := false, ep := me.ep.(writeWait := false)) else me
    case DoRead(room) =>
      if me.reading then me
      else if !CanRead(me.ep) then me.(reading := true)
      else me.(ep := Take(me.ep, room), got := me.got + Taken(me.ep, room))
    case WakeReader =>
      if me.reading && me.ep.readWait then me.(reading := false, ep := me.ep.(readWait := false)) else me
    case StopReading => me.(reading := false)
    case Retransmit => me.(ep := Tick(me.ep, now), out := me.out + FrameSet(TickOut(me.ep, now)))
    case Deliver(f) =>
      if f in inbox then me.(ep := Receive(me.ep, f), out := me.out + FrameSet(ReceiveOut(me.ep, f))) else me
    case Lose(f) => me.(out := me.out - {f})
    case BeginClose =>
      if me.ep.closed then me
      else me.(ep := StartClose(me.ep), out := me.out + FrameSet(StartCloseOut(me.ep)), closing := me.closing + 1)
    case EndClose =>
      if me.closing == 0 then me else me.(ep := ForceClose(me.ep), closing := me.closing - 1)
    case Abort => me.(ep := ForceClose(me.ep))
    case Control(typ) =>
      if typ == TYPE_DATA || typ == TYPE_ACK || typ == TYPE_FIN then me
      else me.(out := me.out + {Frame(typ, me.ep.id, 0, 0, [])})
  }

  function FrameSet(fs: seq<Frame>): set<Frame> {
    set f | f in fs
  }

  datatype Sys = Sys(p: Peer, q: Peer, clock: nat)

  datatype Act = AtP(op: Op) | AtQ(op: Op) | Pass(d: nat)

  ghost predicate Sized(s: Sys) {
    |s.p.ep.window| == MAX_IN_FLIGHT && |s.q.ep.window| == MAX_IN_FLIGHT
  }

  ghost function Step(s: Sys, act: Act): (t: Sys)
    requires Sized(s)
    ensures Sized(t)
  {
    match act
    case AtP(op) => s.(p := Do(s.p, s.q.out, op, s.clock))
    case AtQ(op) => s.(q := Do(s.q, s.p.out, op, s.clock))
    case Pass(d) => s.(clock := s.clock + d)
  }

  ghost function Exec(s: Sys, acts: seq<Act>): (t: Sys)
    requires Sized(s)
    ensures Sized(t)
    decreases |acts|
  {
    if acts == [] then s else Exec(Step(s, acts[0]), acts[1..])
  }

  ghost function Start(id: nat): Sys {
    var peer := Peer(New(id), {}, [], [], false, false, 0);
    Sys(peer, peer, 0)
  }

  // ---------------------------------------------------------------- what every step keeps

  /** What y's session holds of the payloads sent, and what y's application has read of them. */
  ghost predicate Holds(e: Endpoint, sent: seq<bytes>, got: bytes) {
    && |e.window| == MAX_IN_FLIGHT
    && e.recvNext <= |sent| < U32
    && (forall k :: 0 <= k < MAX_IN_FLIGHT && e.window[k].Some? ==>
                      e.recvNext + k < |sent| && e.window[k].value == sent[e.recvNext + k])
    && got + e.readBuf == Concat(sent[..e.recvNext])
  }

  /** The slots are the last payloads sent, numbered from base without a gap. */
  ghost predicate Slots(slots: seq<Slot>, sent: seq<bytes>) {
    && |slots| <= MAX_IN_FLIGHT && |slots| <= |sent|
    && forall k :: 0 <= k < |slots| ==>
                     slots[k].seqNo == |sent| - |slots| + k && slots[k].data == sent[|sent| - |slots| + k]
  }

  /** The sending half of a stream whose receiver waits for frame next. */
  ghost predicate Sending(x: Peer, next: nat) {
    && x.ep.sendNext == |x.sent| < U32
    && Slots(x.ep.sendSlots, x.sent)
    && |x.sent| - |x.ep.sendSlots| <= next
    && (forall f :: f in x.out && f.typ == TYPE_DATA ==> f.seqNo < |x.sent| && f.payload == x.sent[f.seqNo])
  }

  /** The receiving half of a stream of the payloads sent. */
  ghost predicate Receiving(y: Peer, sent: seq<bytes>) {
    && Holds(y.ep, sent, y.got) && y.ep.window[0].None?
    && (forall f :: f in y.out && CarriesAck(f.typ) ==> f.ack <= y.ep.recvNext)
  }

  /** Everything about the stream from x to y. */
  ghost predicate Link(x: Peer, y: Peer) {
    Sending(x, y.ep.recvNext) && Receiving(y, x.sent)
  }

  /** A blocked reader or writer without a token has nothing to wake up for. */
  ghost predicate NoLostWakeup(x: Peer) {
    && (x.reading && !x.ep.readWait ==> !CanRead(x.ep))
    && (x.writing && !x.ep.writeWait ==>
          |x.ep.sendSlots| == MAX_IN_FLIGHT && !x.ep.closed && (x.ep.writeFin ==> x.closing > 0))
  }

  /** Everything about one end alone. */
  ghost predicate Local(x: Peer, clock: nat) {
    && DEFAULT_RTO <= x.ep.rto <= MAX_RTO
    && (forall k :: 0 <= k < |x.ep.sendSlots| ==> x.ep.sendSlots[k].lastSend <= clock)
    && NoLostWakeup(x)
  }

  ghost predicate Inv(s: Sys) {
    Link(s.p, s.q) && Link(s.q, s.p) && Local(s.p, s.clock) && Local(s.q, s.clock)
  }

  // ---------------------------------------------------------------- the receiving side

  lemma {:induction false} ConcatPrefix(parts: seq<bytes>, n: nat)
    requires n < |parts|
    ensures Concat(parts[..n + 1]) == Concat(parts[..n]) + parts[n]
  {
    assert parts[..n + 1] == parts[..n] + [parts[n]];
    ConcatSnoc(parts[..n], parts[n]);
  }

  /** What Drain may change, and how far it gets. */
  ghost predicate Advanced(e: Endpoint, r: Endpoint) {
    && r == e.(window := r.window, readBuf := r.readBuf, recvNext := r.recvNext, readWait := r.readWait)
    && e.recvNext <= r.recvNext
    && (r.readBuf != e.readBuf ==> r.readWait)
    && (e.readWait ==> r.readWait)
  }

  lemma ShiftKeeps(e: Endpoint, sent: seq<bytes>, got: bytes)
    requires Holds(e, sent, got) && e.window[0].Some?
    ensures Holds(Shift(e), sent, got) && Advanced(e, Shift(e)) && Shift(e).recvNext == e.recvNext + 1
  {
    ConcatPrefix(sent, e.recvNext);
    assert got + (e.readBuf + e.window[0].value) == (got + e.readBuf) + e.window[0].value;
    var r := Shift(e);
    forall k | 0 <= k < MAX_IN_FLIGHT && r.window[k].Some?
      ensures r.recvNext + k < |sent| && r.window[k].value == sent[r.recvNext + k]
    {
      assert r.window[k] == e.window[k + 1];
    }
  }

  lemma {:induction false} DrainKeeps(e: Endpoint, sent: seq<bytes>, got: bytes)
    requires Holds(e, sent, got)
    ensures Holds(Drain(e), sent, got) && Advanced(e, Drain(e))
    ensures e.window[0].Some? ==> e.recvNext < Drain(e).recvNext
    decreases Held(e.window)
  {
    if e.window[0].Some? {
      ShiftKeeps(e, sent, got);
      HeldShift(e.window[1..]);
      DrainKeeps(Shift(e), sent, got);
    }
  }

  lemma FillKeeps(e: Endpoint, off: nat, payload: bytes, sent: seq<bytes>, got: bytes)
    requires Holds(e, sent, got) && off < MAX_IN_FLIGHT
    requires e.recvNext + off < |sent| && payload == sent[e.recvNext + off]
    ensures Holds(e.(window := e.window[off := Some(payload)]), sent, got)
  {
    hide Concat;
  }

  /** A genuine data frame keeps the receiver's promise, and the one it waits for moves it on. */
  lemma StoreKeeps(e: Endpoint, f: Frame, sent: seq<bytes>, got: bytes)
    requires Holds(e, sent, got) && e.window[0].None?
    requires f.seqNo < |sent| && f.payload == sent[f.seqNo]
    ensures Holds(StoreData(e, f), sent, got) && StoreData(e, f).window[0].None?
    ensures Advanced(e, StoreData(e, f))
    ensures f.seqNo == e.recvNext ==> e.recvNext < StoreData(e, f).recvNext
  {
    assert |e.window| == MAX_IN_FLIGHT;
    hide Holds, Drain;
    if e.recvNext <= f.seqNo < e.recvNext + MAX_IN_FLIGHT {
      var off := f.seqNo - e.recvNext;
      if e.window[off].None? {
        FillKeeps(e, off, f.payload, sent, got);
        DrainKeeps(e.(window := e.window[off := Some(f.payload)]), sent, got);
      } else {
        DrainKeeps(e, sent, got);
      }
    }
  }

  // ---------------------------------------------------------------- the sending side

  lemma {:induction false} NothingAcked(slots: seq<Slot>, ack: nat)
    requires forall k :: 0 <= k < |slots| ==> ack <= slots[k].seqNo
    ensures Unacked(slots, ack) == slots
  {
    if slots != [] {
      NothingAcked(slots[1..], ack);
      assert slots == [slots[0]] + slots[1..];
    }
  }

  lemma SlotsTail(slots: seq<Slot>, sent: seq<bytes>)
    requires Slots(slots, sent) && slots != []
    ensures Slots(slots[1..], sent) && slots[0].seqNo == |sent| - |slots|
    ensures forall k :: 0 <= k < |slots| ==> slots[0].seqNo <= slots[k].seqNo
  {
  }

  /** A cumulative acknowledgement drops the slots below it and no others. */
  lemma {:induction false} UnackedSlots(slots: seq<Slot>, sent: seq<bytes>, ack: nat, next: nat)
    requires Slots(slots, sent)
    requires |sent| - |slots| <= next && ack <= next
    ensures var r := Unacked(slots, ack);
            && r == slots[|slots| - |r|..]
            && Slots(r, sent)
            && |sent| - |r| <= next
            && (|sent| <= ack ==> r == [])
  {
    if slots != [] {
      SlotsTail(slots, sent);
      assert |slots| <= |sent|;
      hide Slots;
      if slots[0].seqNo < ack {
        UnackedSlots(slots[1..], sent, ack, next);
        var r := Unacked(slots, ack);
        assert slots[1..][|slots| - 1 - |r|..] == slots[|slots| - |r|..];
      } else {
        NothingAcked(slots, ack);
      }
    }
  }

  lemma {:induction false} DueFramesGenuine(e: Endpoint, slots: seq<Slot>, now: nat, f: Frame)
    requires f in DueFrames(e, slots, now)
    ensures f.typ == TYPE_DATA && f.ack == e.recvNext && f.sessionId == e.id
    ensures exists k :: 0 <= k < |slots| && f.seqNo == slots[k].seqNo && f.payload == slots[k].data
  {
    if IsDue(slots[0], now, e.rto) && f == DataFrame(e, slots[0]) {
    } else {
      DueFramesGenuine(e, slots[1..], now, f);
      var k :| 0 <= k < |slots[1..]| && f.seqNo == slots[1..][k].seqNo && f.payload == slots[1..][k].data;
      assert slots[k + 1] == slots[1..][k];
    }
  }

  // ---------------------------------------------------------------- steps keep the sending half

  lemma ReceiveSending(e: Endpoint, f: Frame)
    requires |e.window| == MAX_IN_FLIGHT
    ensures var r := Receive(e, f);
            && r.sendNext == e.sendNext && r.id == e.id
            && r.sendSlots == if !e.closed && CarriesAck(f.typ) then Unacked(e.sendSlots, f.ack) else e.sendSlots
  {
    var e1 := if CarriesAck(f.typ) then ConsumeAck(e, f.ack) else e;
    if CarriesAck(f.typ) && |Unacked(e.sendSlots, f.ack)| == |e.sendSlots| {
      AllUnacked(e.sendSlots, f.ack);
    }
    StoreOnlyReceives(e1, f);
  }

  lemma {:induction false} DrainOnlyReceives(e: Endpoint)
    requires |e.window| == MAX_IN_FLIGHT
    ensures var r := Drain(e);
            r == e.(window := r.window, readBuf := r.readBuf, recvNext := r.recvNext, readWait := r.readWait)
    decreases Held(e.window)
  {
    if e.window[0].Some? {
      HeldShift(e.window[1..]);
      DrainOnlyReceives(Shift(e));
    }
  }

  lemma StoreOnlyReceives(e: Endpoint, f: Frame)
    requires |e.window| == MAX_IN_FLIGHT
    ensures var r := StoreData(e, f);
            r == e.(window := r.window, readBuf := r.readBuf, recvNext := r.recvNext, readWait := r.readWait)
  {
    if e.recvNext <= f.seqNo < e.recvNext + MAX_IN_FLIGHT {
      var off := f.seqNo - e.recvNext;
      DrainOnlyReceives(if e.window[off].None? then e.(window := e.window[off := Some(f.payload)]) else e);
    }
  }

  /** Frames other than data, and data that is genuine, may join the network. */
  lemma SendingMore(x: Peer, out: set<Frame>, next: nat)
    requires Sending(x, next)
    requires forall f :: f in out && f.typ == TYPE_DATA ==> f.seqNo < |x.sent| && f.payload == x.sent[f.seqNo]
    ensures Sending(x.(out := x.out + out), next)
  {
  }

  lemma AckKeepsSending(me: Peer, ep: Endpoint, ack: nat, next: nat)
    requires Sending(me, next) && ack <= next
    requires ep.sendNext == me.ep.sendNext
    requires ep.sendSlots == me.ep.sendSlots || ep.sendSlots == Unacked(me.ep.sendSlots, ack)
    ensures Sending(me.(ep := ep), next)
  {
    UnackedSlots(me.ep.sendSlots, me.sent, ack, next);
  }

  lemma AnswersAreAcks(e: Endpoint, f: Frame, g: Frame)
    requires |e.window| == MAX_IN_FLIGHT && g in ReceiveOut(e, f)
    ensures g == AckFrame(Receive(e, f))
  {
  }

  lemma DeliverKeepsSending(me: Peer, other: Peer, f: Frame, now: nat)
    requires Sending(me, other.ep.recvNext) && Receiving(other, me.sent) && |me.ep.window| == MAX_IN_FLIGHT
    ensures Sending(Do(me, other.out, Deliver(f), now), other.ep.recvNext)
  {
    hide Receive, Holds, Sending, ReceiveOut;
    if f in other.out {
      var ep := Receive(me.ep, f);
      ReceiveSending(me.ep, f);
      AckKeepsSending(me, ep, if CarriesAck(f.typ) then f.ack else 0, other.ep.recvNext);
      forall g | g in FrameSet(ReceiveOut(me.ep, f))
        ensures g.typ == TYPE_ACK
      {
        AnswersAreAcks(me.ep, f, g);
      }
      SendingMore(me.(ep := ep), FrameSet(ReceiveOut(me.ep, f)), other.ep.recvNext);
    }
  }

  lemma TickKeepsSending(me: Peer, inbox: set<Frame>, next: nat, now: nat)
    requires Sending(me, next) && |me.ep.window| == MAX_IN_FLIGHT
    ensures Sending(Do(me, inbox, Retransmit, now), next)
  {
    var ep := Tick(me.ep, now);
    var out := FrameSet(TickOut(me.ep, now));
    assert Sending(me.(ep := ep), next);
    forall f | f in out
      ensures f.seqNo < |me.sent| && f.payload == me.sent[f.seqNo]
    {
      DueFramesGenuine(me.ep, me.ep.sendSlots, now, f);
    }
    SendingMore(me.(ep := ep), out, next);
  }

  lemma WriteKeepsSending(me: Peer, inbox: set<Frame>, b: bytes, next: nat, now: nat)
    requires Sending(me, next) && |me.ep.window| == MAX_IN_FLIGHT
    ensures Sending(Do(me, inbox, DoWrite(b), now), next)
  {
    hide Chunk;
  }

  lemma DoKeepsSending(me: Peer, other: Peer, op: Op, now: nat)
    requires Sending(me, other.ep.recvNext) && Receiving(other, me.sent) && |me.ep.window| == MAX_IN_FLIGHT
    ensures Sending(Do(me, other.out, op, now), other.ep.recvNext)
  {
    match op
    case Deliver(f) => DeliverKeepsSending(me, other, f, now);
    case Retransmit => TickKeepsSending(me, other.out, other.ep.recvNext, now);
    case DoWrite(b) => WriteKeepsSending(me, other.out, b, other.ep.recvNext, now);
    case _ =>
  }

  /** A longer history changes nothing for the receiver. */
  lemma DoKeepsOthersReceiving(me: Peer, other: Peer, op: Op, now: nat)
    requires Sending(me, other.ep.recvNext) && Receiving(other, me.sent) && |me.ep.window| == MAX_IN_FLIGHT
    ensures Receiving(other, Do(me, other.out, op, now).sent)
  {
    var sent' := Do(me, other.out, op, now).sent;
    assert me.sent <= sent' && |sent'| < U32;
    assert sent'[..other.ep.recvNext] == me.sent[..other.ep.recvNext];
  }

  // ---------------------------------------------------------------- steps keep the receiving half

  /** Acknowledgements of what has been received, and other frames, may join the network. */
  lemma ReceivingMore(y: Peer, out: set<Frame>, sent: seq<bytes>)
    requires Receiving(y, sent)
    requires forall f :: f in out && CarriesAck(f.typ) ==> f.ack <= y.ep.recvNext
    ensures Receiving(y.(out := y.out + out), sent)
  {
  }

  /** A frame only moves the receive cursor forward, and notifies the reader of what it brings. */
  lemma ReceiveKeeps(e: Endpoint, f: Frame, sent: seq<bytes>, got: bytes)
    requires Holds(e, sent, got) && e.window[0].None?
    requires f.typ == TYPE_DATA ==> f.seqNo < |sent| && f.payload == sent[f.seqNo]
    ensures var r := Receive(e, f);
            && Holds(r, sent, got) && r.window[0].None?
            && e.recvNext <= r.recvNext
            && (CanRead(r) && !CanRead(e) ==> r.readWait)
            && (e.readWait ==> r.readWait)
            && (!e.closed && f.typ == TYPE_DATA && f.seqNo == e.recvNext ==> e.recvNext < r.recvNext)
  {
    hide StoreData, Concat;
    var e1 := if CarriesAck(f.typ) then ConsumeAck(e, f.ack) else e;
    assert Holds(e1, sent, got) && e1.window[0].None?;
    if f.typ == TYPE_DATA {
      StoreKeeps(e1, f, sent, got);
    }
  }

  lemma DeliverKeepsReceiving(me: Peer, other: Peer, f: Frame, now: nat)
    requires Sending(other, me.ep.recvNext) && Receiving(me, other.sent)
    ensures var r := Do(me, other.out, Deliver(f), now);
            Receiving(r, other.sent) && me.ep.recvNext <= r.ep.recvNext
  {
    hide Receive, ReceiveOut, Concat;
    if f in other.out {
      ReceiveKeeps(me.ep, f, other.sent, me.got);
      var ep := Receive(me.ep, f);
      forall g | g in FrameSet(ReceiveOut(me.ep, f))
        ensures g.ack == ep.recvNext
      {
        AnswersAreAcks(me.ep, f, g);
      }
      ReceivingMore(me.(ep := ep), FrameSet(ReceiveOut(me.ep, f)), other.sent);
    }
  }

  lemma TakeKeeps(e: Endpoint, room: nat, sent: seq<bytes>, got: bytes)
    requires Holds(e, sent, got)
    ensures var r := Take(e, room);
            && Holds(r, sent, got + Taken(e, room))
            && r.window == e.window && r.recvNext == e.recvNext
  {
    hide Concat;
    var n := if room <= |e.readBuf| then room else |e.readBuf|;
    assert e.readBuf == e.readBuf[..n] + e.readBuf[n..];
    assert (got + e.readBuf[..n]) + e.readBuf[n..] == got + e.readBuf;
  }

  lemma ReadKeepsReceiving(me: Peer, inbox: set<Frame>, room: nat, sent: seq<bytes>, now: nat)
    requires Receiving(me, sent)
    ensures Receiving(Do(me, inbox, DoRead(room), now), sent)
  {
    TakeKeeps(me.ep, room, sent, me.got);
    assert |me.ep.window| == MAX_IN_FLIGHT;
    hide Concat, Holds, Take, Taken;
  }

  lemma TickKeepsReceiving(me: Peer, inbox: set<Frame>, sent: seq<bytes>, now: nat)
    requires Receiving(me, sent)
    ensures Receiving(Do(me, inbox, Retransmit, now), sent)
  {
    hide Concat;
    forall f | f in FrameSet(TickOut(me.ep, now))
      ensures f.ack <= me.ep.recvNext
    {
      DueFramesGenuine(me.ep, me.ep.sendSlots, now, f);
    }
    ReceivingMore(me.(ep := Tick(me.ep, now)), FrameSet(TickOut(me.ep, now)), sent);
  }

  lemma CloseKeepsReceiving(me: Peer, inbox: set<Frame>, op: Op, sent: seq<bytes>, now: nat)
    requires Receiving(me, sent)
    requires op.BeginClose? || op.EndClose? || op.Abort?
    ensures var r := Do(me, inbox, op, now);
            Receiving(r, sent) && me.ep.recvNext == r.ep.recvNext
  {
    hide Concat, Chunk, Receive, ReceiveOut, TickOut;
  }

  lemma DoKeepsReceiving(me: Peer, other: Peer, op: Op, now: nat)
    requires Sending(other, me.ep.recvNext) && Receiving(me, other.sent)
    ensures var r := Do(me, other.out, op, now);
            Receiving(r, other.sent) && me.ep.recvNext <= r.ep.recvNext
  {
    hide Concat, Chunk, Receive, ReceiveOut, TickOut;
    match op
    case Deliver(f) => DeliverKeepsReceiving(me, other, f, now);
    case Retransmit => TickKeepsReceiving(me, other.out, other.sent, now);
    case DoRead(room) => ReadKeepsReceiving(me, other.out, room, other.sent, now);
    case BeginClose => CloseKeepsReceiving(me, other.out, op, other.sent, now);
    case EndClose => CloseKeepsReceiving(me, other.out, op, other.sent, now);
    case Abort => CloseKeepsReceiving(me, other.out, op, other.sent, now);
    case _ =>
  }

  // ---------------------------------------------------------------- steps keep the rest

  lemma ConsumeAckLocal(e: Endpoint, ack: nat)
    ensures var r := ConsumeAck(e, ack);
            && r.writeWait == (e.writeWait || r.sendSlots != e.sendSlots)
            && (r.rto == e.rto || r.rto == DEFAULT_RTO)
            && (forall s :: s in r.sendSlots ==> s in e.sendSlots)
            && (r.sendSlots == e.sendSlots || |r.sendSlots| < |e.sendSlots|)
            && r == e.(sendSlots := r.sendSlots, rto := r.rto, writeWait := r.writeWait)
  {
    UnackedIn(e.sendSlots, ack);
  }

  lemma {:induction false} UnackedIn(slots: seq<Slot>, ack: nat)
    ensures forall s :: s in Unacked(slots, ack) ==> s in slots
  {
    if slots != [] {
      UnackedIn(slots[1..], ack);
    }
  }

  /** What a frame does to the fields that waits and timers look at. */
  lemma ReceiveLocal(e: Endpoint, f: Frame)
    requires |e.window| == MAX_IN_FLIGHT
    ensures var r := Receive(e, f);
            && (r.rto == e.rto || r.rto == DEFAULT_RTO)
            && (forall s :: s in r.sendSlots ==> s in e.sendSlots)
            && (e.writeWait ==> r.writeWait)
            && (!r.writeWait ==> r.sendSlots == e.sendSlots && r.closed == e.closed && r.writeFin == e.writeFin)
  {
    var e1 := if CarriesAck(f.typ) then ConsumeAck(e, f.ack) else e;
    ConsumeAckLocal(e, f.ack);
    StoreOnlyReceives(e1, f);
  }

  lemma DeliverKeepsLocal(me: Peer, other: Peer, f: Frame, now: nat)
    requires Sending(other, me.ep.recvNext) && Receiving(me, other.sent) && Local(me, now)
    ensures Local(Do(me, other.out, Deliver(f), now), now)
  {
    hide Receive, ReceiveOut, CanRead, Concat, Slots;
    if f in other.out {
      ReceiveKeeps(me.ep, f, other.sent, me.got);
      ReceiveLocal(me.ep, f);
      var r := Receive(me.ep, f);
      assert forall k :: 0 <= k < |r.sendSlots| ==> r.sendSlots[k] in me.ep.sendSlots;
    }
  }

  lemma TickKeepsLocal(me: Peer, inbox: set<Frame>, now: nat)
    requires |me.ep.window| == MAX_IN_FLIGHT && Local(me, now)
    ensures Local(Do(me, inbox, Retransmit, now), now)
  {
    hide DueFrames;
  }

  lemma CloseKeepsLocal(me: Peer, inbox: set<Frame>, op: Op, now: nat)
    requires |me.ep.window| == MAX_IN_FLIGHT && Local(me, now)
    requires op.BeginClose? || op.EndClose? || op.Abort?
    ensures Local(Do(me, inbox, op, now), now)
  {
    hide Receive, ReceiveOut, Tick, TickOut, Chunk;
  }

  lemma DoKeepsLocal(me: Peer, other: Peer, op: Op, now: nat)
    requires Sending(me, other.ep.recvNext)
    requires Sending(other, me.ep.recvNext) && Receiving(me, other.sent) && Local(me, now)
    ensures Local(Do(me, other.out, op, now), now)
  {
    hide Receive, ReceiveOut, Tick, TickOut, Chunk, Concat;
    match op
    case Deliver(f) => DeliverKeepsLocal(me, other, f, now);
    case Retransmit => TickKeepsLocal(me, other.out, now);
    case BeginClose => CloseKeepsLocal(me, other.out, op, now);
    case EndClose => CloseKeepsLocal(me, other.out, op, now);
    case Abort => CloseKeepsLocal(me, other.out, op, now);
    case _ =>
  }

  lemma StepKeeps(s: Sys, act: Act)
    requires Inv(s)
    ensures Sized(s) && Inv(Step(s, act))
  {
    InvSized(s);
    hide Sending, Receiving, NoLostWakeup, Do;
    match act
    case AtP(op) => DoKeepsLink(s.p, s.q, op, s.clock);
    case AtQ(op) => DoKeepsLink(s.q, s.p, op, s.clock);
    case Pass(d) =>
  }

  lemma DoKeepsLink(me: Peer, other: Peer, op: Op, now: nat)
    requires Link(me, other) && Link(other, me) && Local(me, now)
    ensures var r := Do(me, other.out, op, now);
            Link(r, other) && Link(other, r) && Local(r, now)
  {
    DoKeepsSending(me, other, op, now);
    DoKeepsOthersReceiving(me, other, op, now);
    DoKeepsReceiving(me, other, op, now);
    DoKeepsLocal(me, other, op, now);
    hide Do, Holds;
  }

  lemma {:induction false} ExecKeeps(s: Sys, acts: seq<Act>)
    requires Inv(s)
    ensures Sized(s) && Inv(Exec(s, acts))
    decreases |acts|
  {
    hide Inv, Step;
    InvSized(s);
    if acts != [] {
      StepKeeps(s, acts[0]);
      ExecKeeps(Step(s, acts[0]), acts[1..]);
    }
  }

  lemma InvSized(s: Sys)
    requires Inv(s)
    ensures Sized(s)
  {
  }
}

/** The state of one end of a tunnel stream as a value, and what each locked section of
    common/udptunnel/session.go does to it. */
module Endpoint {
  import opened Bytes
  import opened Wrappers

  const MAX_PAYLOAD := 1200
  const MAX_IN_FLIGHT := 32
  const DEFAULT_RTO := 200   // milliseconds
  const MAX_RTO := 2000
  const U32 := 0x1_0000_0000

  const TYPE_SYNACK: byte := 2
  const TYPE_DATA: byte := 3
  const TYPE_ACK: byte := 4
  const TYPE_FIN: byte := 5
  const TYPE_RST: byte := 6

  datatype Frame = Frame(typ: byte, sessionId: nat, seqNo: nat, ack: nat, payload: bytes)

  datatype Slot = Slot(data: bytes, seqNo: nat, lastSend: nat)

  /** window[k] is recvBuf[k] where recvValid[k] is set.  A channel of capacity one is a flag that
      says whether it holds its token. */
  datatype Endpoint = Endpoint(
    id: nat,
    closed: bool,
    sendNext: nat,
    sendSlots: seq<Slot>,
    writeWait: bool,
    recvNext: nat,
    window: seq<Option<bytes>>,
    readBuf: bytes,
    readWait: bool,
    readEOF: bool,
    writeFin: bool,
    rto: nat,
    handshake: bool)

  function EmptyWindow(): (w: seq<Option<bytes>>)
    ensures |w| == MAX_IN_FLIGHT && forall k :: 0 <= k < |w| ==> w[k].None?
  {
    seq(MAX_IN_FLIGHT, i => None)
  }

  /** newSession, session.go:47-60. */
  function New(id: nat): Endpoint {
    Endpoint(id, false, 0, [], false, 0, EmptyWindow(), [], false, false, false, DEFAULT_RTO, false)
  }

  // ---------------------------------------------------------------- acknowledgements

  /** The slots from sequence number ack on. */
  function Unacked(slots: seq<Slot>, ack: nat): (r: seq<Slot>)
    ensures |r| <= |slots|
  {
    if slots == [] then []
    else (if slots[0].seqNo < ack then [] else [slots[0]]) + Unacked(slots[1..], ack)
  }

  lemma {:induction false} AllUnacked(slots: seq<Slot>, ack: nat)
    requires |Unacked(slots, ack)| == |slots|
    ensures Unacked(slots, ack) == slots
  {
    if slots != [] {
      AllUnacked(slots[1..], ack);
      assert slots == [slots[0]] + slots[1..];
    }
  }

  /** consumeAckLocked, session.go:154-171. */
  function ConsumeAck(e: Endpoint, ack: nat): Endpoint {
    var kept := Unacked(e.sendSlots, ack);
    if |kept| < |e.sendSlots| then e.(sendSlots := kept, rto := DEFAULT_RTO, writeWait := true) else e
  }

  // ---------------------------------------------------------------- data

  ghost function Held(w: seq<Option<bytes>>): nat {
    if w == [] then 0 else (if w[0].Some? then 1 else 0) + Held(w[1..])
  }

  lemma {:induction false} HeldShift(w: seq<Option<bytes>>)
    ensures Held(w + [None]) == Held(w)
  {
    if w == [] {
      assert w + [None] == [None];
    } else {
      HeldShift(w[1..]);
      assert (w + [None])[1..] == w[1..] + [None];
    }
  }

  /** Moves the window down by one, its first payload going to the reader. */
  function Shift(e: Endpoint): Endpoint
    requires |e.window| == MAX_IN_FLIGHT && e.window[0].Some?
  {
    e.(readBuf := e.readBuf + e.window[0].value,
       window := e.window[1..] + [None],
       recvNext := (e.recvNext + 1) % U32,
       readWait := true)
  }

  /** The loop at the end of storeDataLocked. */
  function Drain(e: Endpoint): (r: Endpoint)
    requires |e.window| == MAX_IN_FLIGHT
    ensures |r.window| == MAX_IN_FLIGHT && r.window[0].None?
    decreases Held(e.window)
  {
    if e.window[0].Some? then
      HeldShift(e.window[1..]);
      Drain(Shift(e))
    else e
  }

  /** storeDataLocked, session.go:173-198. */
  function StoreData(e: Endpoint, f: Frame): (r: Endpoint)
    requires |e.window| == MAX_IN_FLIGHT
    ensures |r.window| == MAX_IN_FLIGHT
  {
    if f.seqNo < e.recvNext then e
    else
      var off := f.seqNo - e.recvNext;
      if off >= MAX_IN_FLIGHT then e
      else Drain(if e.window[off].None? then e.(window := e.window[off := Some(f.payload)]) else e)
  }

  // ---------------------------------------------------------------- frames in

  /** forceCloseLocked, session.go:295-305. */
  function ForceClose(e: Endpoint): Endpoint {
    if e.closed then e
    else e.(closed := true, readEOF := true, writeFin := true, handshake := true, readWait := true, writeWait := true)
  }

  predicate CarriesAck(typ: byte) {
    typ == TYPE_ACK || typ == TYPE_DATA || typ == TYPE_SYNACK || typ == TYPE_FIN
  }

  function AckFrame(e: Endpoint): Frame {
    Frame(TYPE_ACK, e.id, 0, e.recvNext, [])
  }

  /** The state part of onPacket, session.go:107-152. */
  function Receive(e: Endpoint, f: Frame): (r: Endpoint)
    requires |e.window| == MAX_IN_FLIGHT
    ensures |r.window| == MAX_IN_FLIGHT
  {
    if e.closed then e
    else
      var e1 := if CarriesAck(f.typ) then ConsumeAck(e, f.ack) else e;
      if f.typ == TYPE_DATA then StoreData(e1, f)
      else if f.typ == TYPE_FIN then e1.(readEOF := true, readWait := true)
      else if f.typ == TYPE_RST then ForceClose(e1)
      else if f.typ == TYPE_SYNACK then e1.(handshake := true, writeWait := true)
      else if f.typ == TYPE_ACK then e1.(writeWait := true)
      else e1
  }

  /** The frames onPacket sends: one ACK for data or a FIN, with the receive cursor it left. */
  function ReceiveOut(e: Endpoint, f: Frame): seq<Frame>
    requires |e.window| == MAX_IN_FLIGHT
  {
    if !e.closed && (f.typ == TYPE_DATA || f.typ == TYPE_FIN) then [AckFrame(Receive(e, f))] else []
  }

  // ---------------------------------------------------------------- frames out

  /** A locked section of write that does not wait and is not refused, session.go:210-226. */
  predicate CanQueue(e: Endpoint) {
    !e.closed && !e.writeFin && |e.sendSlots| < MAX_IN_FLIGHT
  }

  function Chunk(b: bytes): bytes {
    if |b| > MAX_PAYLOAD then b[..MAX_PAYLOAD] else b
  }

  function Queue(e: Endpoint, payload: bytes, now: nat): Endpoint {
    e.(sendNext := (e.sendNext + 1) % U32,
       sendSlots := e.sendSlots + [Slot(payload, e.sendNext, now)])
  }

  /** Every section of write up to the next wait, refusal or the end of b. */
  function QueueAll(e: Endpoint, b: bytes, now: nat): Endpoint
    decreases |b|
  {
    if b == [] || !CanQueue(e) then e
    else QueueAll(Queue(e, Chunk(b), now), b[|Chunk(b)|..], now)
  }

  /** The payloads those sections queue. */
  function Chunks(e: Endpoint, b: bytes, now: nat): seq<bytes>
    decreases |b|
  {
    if b == [] || !CanQueue(e) then []
    else [Chunk(b)] + Chunks(Queue(e, Chunk(b), now), b[|Chunk(b)|..], now)
  }

  function DataFrame(e: Endpoint, s: Slot): Frame {
    Frame(TYPE_DATA, e.id, s.seqNo, e.recvNext, s.data)
  }

  predicate IsDue(s: Slot, now: nat, rto: nat) {
    now - s.lastSend >= rto
  }

  function Touched(slots: seq<Slot>, now: nat, rto: nat): (r: seq<Slot>)
    ensures |r| == |slots|
    ensures forall k :: 0 <= k < |r| ==>
              r[k] ==
              if IsDue(slots[k], now, rto) then slots[k].(lastSend := now) else slots[k]
  {
    seq(|slots|, i requires 0 <= i < |slots| =>
      if IsDue(slots[i], now, rto) then slots[i].(lastSend := now) else slots[i])
  }

  /** The frames of the slots that are due, in slot order. */
  function DueFrames(e: Endpoint, slots: seq<Slot>, now: nat): seq<Frame> {
    if slots == [] then []
    else (if IsDue(slots[0], now, e.rto) then [DataFrame(e, slots[0])] else []) + DueFrames(e, slots[1..], now)
  }

  function Backoff(rto: nat): nat {
    if rto < MAX_RTO then (if rto * 2 > MAX_RTO then MAX_RTO else rto * 2) else rto
  }

  /** The locked section of retransmitTick, session.go:263-289. */
  function Tick(e: Endpoint, now: nat): Endpoint {
    if e.closed || e.sendSlots == [] then e
    else
      e.(sendSlots := Touched(e.sendSlots, now, e.rto),
         rto := if DueFrames(e, e.sendSlots, now) != [] then Backoff(e.rto) else e.rto)
  }

  function TickOut(e: Endpoint, now: nat): seq<Frame> {
    if e.closed then [] else DueFrames(e, e.sendSlots, now)
  }

  // ---------------------------------------------------------------- reading and closing

  /** The last locked section of read, session.go:254-259, for room of n bytes. */
  function Take(e: Endpoint, n: nat): Endpoint {
    e.(readBuf := if n <= |e.readBuf| then e.readBuf[n..] else [])
  }

  function Taken(e: Endpoint, n: nat): bytes {
    if n <= |e.readBuf| then e.readBuf[..n] else e.readBuf
  }

  /** read goes on without waiting. */
  predicate CanRead(e: Endpoint) {
    e.readBuf != [] || e.readEOF || e.closed
  }

  /** The first locked section of close, session.go:307-316. */
  function StartClose(e: Endpoint): Endpoint {
    if e.closed then e else e.(writeFin := true)
  }

  function StartCloseOut(e: Endpoint): seq<Frame> {
    if e.closed then [] else [Frame(TYPE_FIN, e.id, 0, e.recvNext, [])]
  }
}

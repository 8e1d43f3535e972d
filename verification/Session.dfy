/** The session object of common/udptunnel/session.go, whose methods are proved to do to their
    fields what the functions of Endpoint do to a value.  Each method is one locked section, or the
    loop of sections between two waits; the frames handed to the packet connection are returned. */
module Session {
  import opened Bytes
  import opened Endpoint
  import opened EndpointMeaning
  import opened Wrappers

  ghost function WindowOf(bufs: seq<bytes>, valid: seq<bool>): (w: seq<Option<bytes>>)
    requires |bufs| == |valid|
    ensures |w| == |valid|
    ensures forall k :: 0 <= k < |w| ==> w[k] == if valid[k] then Some(bufs[k]) else None
  {
    seq(|valid|, k requires 0 <= k < |valid| => if valid[k] then Some(bufs[k]) else None)
  }

  // ---------------------------------------------------------------- facts about the loops

  lemma {:induction false} UnackedSnoc(slots: seq<Slot>, s: Slot, ack: nat)
    ensures Unacked(slots + [s], ack) == Unacked(slots, ack) + (if s.seqNo < ack then [] else [s])
  {
    if slots == [] {
      assert slots + [s] == [s];
    } else {
      UnackedSnoc(slots[1..], s, ack);
      assert (slots + [s])[0] == slots[0] && (slots + [s])[1..] == slots[1..] + [s];
      Grouped(if slots[0].seqNo < ack then [] else [slots[0]], Unacked(slots[1..], ack),
              if s.seqNo < ack then [] else [s]);
    }
  }

  lemma Grouped(a: seq<Slot>, b: seq<Slot>, c: seq<Slot>)
    ensures a + (b + c) == (a + b) + c
  {
  }

  lemma NoneUnacked(ack: nat)
    ensures Unacked([], ack) == []
  {
  }

  /** One turn of the in-place filter. */
  lemma KeepSlot(was: seq<Slot>, i: nat, slots: seq<Slot>, n: nat, ack: nat)
    requires n <= i < |was| == |slots| && slots[i] == was[i]
    requires slots[..n] == Unacked(was[..i], ack)
    ensures Unacked(was[..i + 1], ack) ==
            if slots[i].seqNo < ack then slots[..n] else slots[n := slots[i]][..n + 1]
  {
    assert was[..i + 1] == was[..i] + [slots[i]];
    UnackedSnoc(was[..i], slots[i], ack);
    assert slots[n := slots[i]][..n + 1] == slots[..n] + [slots[i]];
  }

  lemma {:induction false} DueSnoc(e: Endpoint, slots: seq<Slot>, s: Slot, now: nat)
    ensures DueFrames(e, slots + [s], now) ==
            DueFrames(e, slots, now) + (if IsDue(s, now, e.rto) then [DataFrame(e, s)] else [])
  {
    if slots == [] {
      assert slots + [s] == [s];
    } else {
      var h := if IsDue(slots[0], now, e.rto) then [DataFrame(e, slots[0])] else [];
      var t := if IsDue(s, now, e.rto) then [DataFrame(e, s)] else [];
      DueSnoc(e, slots[1..], s, now);
      assert (slots + [s])[1..] == slots[1..] + [s];
      assert h + (DueFrames(e, slots[1..], now) + t) == (h + DueFrames(e, slots[1..], now)) + t;
    }
  }

  lemma ShiftedWindow(bufs: seq<bytes>, valid: seq<bool>)
    requires |bufs| == |valid| > 0
    ensures WindowOf(bufs[1..] + [[]], valid[1..] + [false]) == WindowOf(bufs, valid)[1..] + [None]
  {
  }

  /** copy(a[0:], a[1:]) and the last entry set to fill. */
  method MoveDown<T>(a: array<T>, fill: T)
    requires a.Length > 0
    modifies a
    ensures a[..] == old(a[..])[1..] + [fill]
  {
    forall k | 0 <= k < a.Length - 1 {
      a[k] := a[k + 1];
    }
    a[a.Length - 1] := fill;
  }

  // ---------------------------------------------------------------- the object

  class Session {
    const id: nat
    var closed: bool
    var sendNext: nat
    var sendSlots: seq<Slot>
    var writeWait: bool
    var recvNext: nat
    const recvBuf: array<bytes>
    const recvValid: array<bool>
    var readBuf: bytes
    var readWait: bool
    var readEOF: bool
    var writeFin: bool
    var rto: nat
    var handshake: bool
    /** Where frames go, and when one last came in; the protocol looks at neither. */
    var peer: Option<nat>
    var lastActive: nat

    ghost predicate Valid()
      reads this
    {
      && recvBuf.Length == MAX_IN_FLIGHT && recvValid.Length == MAX_IN_FLIGHT
      && sendNext < U32 && recvNext < U32
    }

    /** The object's state as a value. */
    ghost function View(): (e: Endpoint)
      requires Valid()
      reads this, recvBuf, recvValid
      ensures |e.window| == MAX_IN_FLIGHT
    {
      Endpoint(id, closed, sendNext, sendSlots, writeWait, recvNext, WindowOf(recvBuf[..], recvValid[..]),
               readBuf, readWait, readEOF, writeFin, rto, handshake)
    }

    constructor (id: nat, peer: Option<nat>, now: nat)
      ensures Valid() && fresh(recvBuf) && fresh(recvValid)
      ensures View() == New(id) && this.peer == peer && lastActive == now
    {
      this.id, this.peer, lastActive := id, peer, now;
      closed, sendNext, sendSlots, writeWait := false, 0, [], false;
      recvNext, readBuf, readWait, readEOF, writeFin := 0, [], false, false, false;
      rto, handshake := DEFAULT_RTO, false;
      recvBuf := new bytes[MAX_IN_FLIGHT](_ => []);
      recvValid := new bool[MAX_IN_FLIGHT](_ => false);
    }

    /** The loop of consumeAckLocked: the slots still to be acknowledged move to the front. */
    method FilterSlots(ack: nat) returns (n: nat)
      modifies this`sendSlots
      ensures n <= |sendSlots| == |old(sendSlots)|
      ensures sendSlots[..n] == Unacked(old(sendSlots), ack)
    {
      hide Unacked;
      ghost var was := sendSlots;
      n := 0;
      assert was[..0] == [] && Unacked([], ack) == [] by { NoneUnacked(ack); }
      for i := 0 to |sendSlots|
        invariant |sendSlots| == |was| && 0 <= n <= i
        invariant forall k :: i <= k < |was| ==> sendSlots[k] == was[k]
        invariant sendSlots[..n] == Unacked(was[..i], ack)
      {
        var slot := sendSlots[i];
        KeepSlot(was, i, sendSlots, n, ack);
        if slot.seqNo < ack {
          continue;
        }
        sendSlots := sendSlots[n := slot];
        n := n + 1;
      }
      assert was[..|was|] == was;
    }

    method ConsumeAckLocked(ack: nat)
      requires Valid()
      modifies this`sendSlots, this`rto, this`writeWait
      ensures Valid()
      ensures View() == ConsumeAck(old(View()), ack)
    {
      if |sendSlots| == 0 {
        return;
      }
      ghost var was := sendSlots;
      var n := FilterSlots(ack);
      if n < |sendSlots| {
        sendSlots := sendSlots[..n];
        rto := DEFAULT_RTO;
        writeWait := true;
      } else {
        AllUnacked(was, ack);
        assert sendSlots[..n] == sendSlots;
      }
    }

    /** One turn of the loop over a full window head. */
    method ShiftWindow()
      requires Valid() && recvValid[0]
      modifies this`readBuf, this`recvNext, this`readWait, recvBuf, recvValid
      ensures Valid()
      ensures View() == Shift(old(View()))
    {
      ghost var bufs, valid := recvBuf[..], recvValid[..];
      readBuf := readBuf + recvBuf[0];
      MoveDown(recvBuf, []);
      MoveDown(recvValid, false);
      recvNext := (recvNext + 1) % U32;
      readWait := true;
      ShiftedWindow(bufs, valid);
    }

    method StoreDataLocked(f: Frame)
      requires Valid()
      modifies this`readBuf, this`recvNext, this`readWait, recvBuf, recvValid
      ensures Valid()
      ensures View() == StoreData(old(View()), f)
    {
      if f.seqNo < recvNext {
        return;
      }
      var off := f.seqNo - recvNext;
      if off >= MAX_IN_FLIGHT {
        return;
      }
      if !recvValid[off] {
        recvBuf[off] := f.payload;
        recvValid[off] := true;
        assert View().window == old(View()).window[off := Some(f.payload)];
      }
      ghost var start := View();
      assert StoreData(old(View()), f) == Drain(start);
      while recvValid[0]
        invariant Valid()
        invariant Drain(View()) == Drain(start)
        decreases Held(View().window)
      {
        ghost var before := View();
        HeldShift(before.window[1..]);
        ShiftWindow();
        assert Held(View().window) < Held(before.window);
      }
    }

    method ForceCloseLocked()
      requires Valid()
      modifies this`closed, this`readEOF, this`writeFin, this`handshake, this`readWait, this`writeWait
      ensures Valid()
      ensures View() == ForceClose(old(View()))
      ensures closed
      ensures !old(closed) ==> readEOF && writeFin && handshake && readWait && writeWait
    {
      if closed {
        return;
      }
      closed := true;
      readEOF := true;
      writeFin := true;
      handshake := true;
      readWait := true;
      writeWait := true;
    }

    /** What onPacket does to the stream, session.go:118-151; told says that the closing callback is
        invoked. */
    method Handle(f: Frame) returns (out: seq<Frame>, told: bool)
      requires Valid() && !closed
      modifies this`closed, this`sendSlots, this`writeWait, this`recvNext, this`readBuf, this`readWait, this`readEOF
      modifies this`writeFin, this`rto, this`handshake, recvBuf, recvValid
      ensures Valid()
      ensures View() == Receive(old(View()), f)
      ensures out == ReceiveOut(old(View()), f)
      ensures told <==> closed
    {
      hide ConsumeAck, StoreData;
      out, told := [], false;
      if f.typ == TYPE_ACK || f.typ == TYPE_DATA || f.typ == TYPE_SYNACK || f.typ == TYPE_FIN {
        ConsumeAckLocked(f.ack);
      }
      if f.typ == TYPE_DATA {
        StoreDataLocked(f);
        out := [Frame(TYPE_ACK, id, 0, recvNext, [])];
      } else if f.typ == TYPE_FIN {
        readEOF := true;
        readWait := true;
        out := [Frame(TYPE_ACK, id, 0, recvNext, [])];
      } else if f.typ == TYPE_RST {
        ForceCloseLocked();
        told := true;
      } else if f.typ == TYPE_SYNACK {
        handshake := true;
        writeWait := true;
      } else if f.typ == TYPE_ACK {
        writeWait := true;
      }
    }

    /** onPacket, session.go:107-152. */
    method OnPacket(f: Frame, from: Option<nat>, now: nat) returns (out: seq<Frame>, told: bool)
      requires Valid()
      modifies this, recvBuf, recvValid
      ensures Valid()
      ensures View() == Receive(old(View()), f)
      ensures out == ReceiveOut(old(View()), f)
      ensures if old(closed) then peer == old(peer) && lastActive == old(lastActive)
              else peer == (if from.Some? then from else old(peer)) && lastActive == now
      ensures told <==> !old(closed) && closed
      // a closed session
      ensures old(closed) ==> out == [] && View() == old(View())
      // RST, FIN, SYNACK and ACK
      ensures !old(closed) && f.typ == 6 ==> closed && readEOF && writeFin && handshake && readWait && writeWait
      ensures !old(closed) && f.typ == 5 ==> readEOF && readWait
      ensures !old(closed) && f.typ == 2 ==> handshake && writeWait
      ensures !old(closed) && f.typ == 4 ==> writeWait
      ensures f.typ != 6 ==> closed == old(closed) && writeFin == old(writeFin)
      ensures f.typ != 5 && f.typ != 6 ==> readEOF == old(readEOF)
      ensures f.typ != 2 && f.typ != 6 ==> handshake == old(handshake)
      ensures f.typ != 3 ==> readBuf == old(readBuf) && recvNext == old(recvNext)
      // the acknowledgement, and the answer to DATA and FIN
      ensures !old(closed) && 2 <= f.typ <= 5 ==>
                forall x :: x in sendSlots <==> x in old(sendSlots) && f.ack <= x.seqNo
      ensures !(2 <= f.typ <= 5) ==> sendSlots == old(sendSlots)
      ensures rto == if sendSlots == old(sendSlots) then old(rto) else 200
      ensures out == if !old(closed) && (f.typ == 3 || f.typ == 5) then [Frame(4, id, 0, recvNext, [])] else []
    {
      hide Receive, ReceiveOut;
      FrameMeans(View(), f);
      AnswerMeans(View(), f);
      if !closed {
        AckMeans(View(), f);
      }
      out, told := Process(f, from, now);
    }

    /** The locked section of onPacket. */
    method Process(f: Frame, from: Option<nat>, now: nat) returns (out: seq<Frame>, told: bool)
      requires Valid()
      modifies this, recvBuf, recvValid
      ensures Valid()
      ensures View() == Receive(old(View()), f)
      ensures out == ReceiveOut(old(View()), f)
      ensures if old(closed) then peer == old(peer) && lastActive == old(lastActive)
              else peer == (if from.Some? then from else old(peer)) && lastActive == now
      ensures told <==> !old(closed) && closed
    {
      if closed {
        return [], false;
      }
      if from.Some? {
        peer := from;
      }
      lastActive := now;
      assert View() == old(View());
      hide Receive, ReceiveOut;
      out, told := Handle(f);
    }

    method RetransmitTick(now: nat) returns (due: seq<Frame>)
      requires Valid()
      modifies this`sendSlots, this`rto
      ensures Valid()
      ensures View() == Tick(old(View()), now)
      ensures due == TickOut(old(View()), now)
      ensures |sendSlots| == |old(sendSlots)|
      ensures closed ==> due == [] && sendSlots == old(sendSlots)
      ensures !closed ==> forall k :: 0 <= k < |sendSlots| ==>
                sendSlots[k] == if now - old(sendSlots)[k].lastSend >= old(rto)
                                then old(sendSlots)[k].(lastSend := now) else old(sendSlots)[k]
      ensures !closed ==> forall f :: f in due <==>
                exists x :: x in old(sendSlots) && now - x.lastSend >= old(rto)
                            && f == Frame(3, id, x.seqNo, recvNext, x.data)
      ensures old(rto) <= 2000 ==>
                rto == if due == [] then old(rto) else if old(rto) * 2 <= 2000 then old(rto) * 2 else 2000
    {
      due := Resend(now);
      if old(rto) <= 2000 {
        TickMeans(old(View()), now);
      } else {
        DueMeans(old(View()), old(sendSlots), now);
      }
    }

    /** The locked section of retransmitTick. */
    method Resend(now: nat) returns (due: seq<Frame>)
      requires Valid()
      modifies this`sendSlots, this`rto
      ensures Valid()
      ensures View() == Tick(old(View()), now)
      ensures due == TickOut(old(View()), now)
    {
      due := [];
      if closed || |sendSlots| == 0 {
        return;
      }
      ghost var e := View();
      ghost var was := sendSlots;
      for i := 0 to |sendSlots|
        invariant |sendSlots| == |was| && rto == old(rto)
        invariant forall k :: 0 <= k < i ==>
                  sendSlots[k] ==
                  if IsDue(was[k], now, rto) then was[k].(lastSend := now) else was[k]
        invariant forall k :: i <= k < |was| ==> sendSlots[k] == was[k]
        invariant due == DueFrames(e, was[..i], now)
      {
        assert was[..i + 1] == was[..i] + [was[i]];
        DueSnoc(e, was[..i], was[i], now);
        if now - sendSlots[i].lastSend >= rto {
          sendSlots := sendSlots[i := sendSlots[i].(lastSend := now)];
          due := due + [Frame(TYPE_DATA, id, sendSlots[i].seqNo, recvNext, sendSlots[i].data)];
        }
      }
      assert was[..|was|] == was;
      assert sendSlots == Touched(was, now, rto);
      if |due| > 0 {
        if rto < MAX_RTO {
          rto := rto * 2;
          if rto > MAX_RTO {
            rto := MAX_RTO;
          }
        }
      }
    }

    /** The section of write that queues the next chunk, session.go:217-229. */
    method QueueChunk(b: bytes, now: nat) returns (payload: bytes, frame: Frame)
      requires Valid() && b != []
      modifies this`sendNext, this`sendSlots
      ensures Valid()
      ensures payload == Chunk(b) && View() == Queue(old(View()), payload, now)
      ensures frame == Frame(TYPE_DATA, id, old(sendNext), recvNext, payload)
      ensures payload == if |b| <= 1200 then b else b[..1200]
      ensures sendNext == (old(sendNext) + 1) % 0x1_0000_0000
      ensures sendSlots == old(sendSlots) + [Slot(payload, old(sendNext), now)]
    {
      var n := if |b| > MAX_PAYLOAD then MAX_PAYLOAD else |b|;
      payload := b[..n];
      var seqNo := sendNext;
      sendNext := (sendNext + 1) % U32;
      sendSlots := sendSlots + [Slot(payload, seqNo, now)];
      frame := Frame(TYPE_DATA, id, seqNo, recvNext, payload);
    }

    /** write, session.go:200-236, up to its next wait, after it took before bytes: the bytes taken now,
        the frames sent, whether it has to wait for room, and whether it fails as closed. */
    method Write(b: bytes, before: nat, now: nat) returns (total: nat, out: seq<Frame>, wait: bool, refused: bool)
      requires Valid()
      modifies this`sendNext, this`sendSlots
      ensures Valid()
      ensures View() == QueueAll(old(View()), b, now)
      ensures total <= |b| && Concat(Chunks(old(View()), b, now)) == b[..total]
      ensures out == NewFrames(old(View()), Chunks(old(View()), b, now))
      ensures wait <==> total < |b| && !closed && !writeFin
      ensures wait ==> |sendSlots| >= 32
      ensures Queued(out, id, old(sendNext), recvNext) && sendSlots == old(sendSlots) + SlotsOf(out, now)
      ensures Concat(PayloadsOf(out)) == b[..total]
      ensures refused <==> before + total == 0 && b != [] && (closed || writeFin)
    {
      hide Queue, Chunk, SoFar, NewFrames, Writing;
      SoFarStarts(id, sendNext, recvNext, now, sendSlots, |b| > 0);
      WritingStarts(View(), b, now);
      total, out, wait, refused := 0, [], false, false;
      ghost var e0 := View();
      ghost var parts := [];
      while total < |b|
        invariant Valid() && 0 <= total <= |b|
        invariant View().closed == closed && View().writeFin == writeFin
        invariant Writing(e0, parts, View(), b, total, now)
        invariant out == NewFrames(e0, parts) && !refused
        invariant SoFar(out, id, old(sendNext), recvNext, now, old(sendSlots), sendSlots, sendNext, parts, total < |b|)
        decreases |b| - total
      {
        if closed || writeFin {
          refused := before + total == 0;
          break;
        }
        if |sendSlots| >= MAX_IN_FLIGHT {
          wait := true;
          break;
        }
        ghost var e := View();
        ChunkNotEmpty(b[total..]);
        var payload, frame := QueueChunk(b[total..], now);
        WritingNext(e0, parts, e, b, total, now);
        SoFarMore(out, id, old(sendNext), recvNext, now, old(sendSlots), e.sendSlots, e.sendNext, parts, frame,
                  total + |payload| < |b|);
        out := out + [frame];
        parts := parts + [payload];
        total := total + |payload|;
      }
      WritingDone(e0, parts, View(), b, total, now);
      SoFarMeans(out, id, old(sendNext), recvNext, now, old(sendSlots), sendSlots, sendNext, parts, total < |b|);
    }

    /** read, session.go:238-261, up to its next wait. */
    method Read(room: nat) returns (p: bytes, eof: bool, wait: bool)
      requires Valid()
      modifies this`readBuf
      ensures Valid()
      ensures View() == Take(old(View()), room) && p == Taken(old(View()), room) && (wait <==> !CanRead(old(View())))
      ensures wait <==> old(readBuf) == [] && !readEOF && !closed
      ensures eof <==> old(readBuf) == [] && (readEOF || closed)
      ensures p + readBuf == old(readBuf) && |p| == if room <= |old(readBuf)| then room else |old(readBuf)|
    {
      p, eof, wait := [], false, false;
      if |readBuf| == 0 {
        if !readEOF && !closed {
          wait := true;
        } else {
          eof := true;
        }
        return;
      }
      var n := if room <= |readBuf| then room else |readBuf|;
      p := readBuf[..n];
      readBuf := readBuf[n..];
    }

    /** The first half of close; the second is ForceCloseLocked. */
    method StartClosing() returns (out: seq<Frame>)
      requires Valid()
      modifies this`writeFin
      ensures Valid()
      ensures View() == StartClose(old(View()))
      ensures out == StartCloseOut(old(View()))
      ensures if old(closed) then out == [] && writeFin == old(writeFin)
              else writeFin && out == [Frame(5, id, 0, recvNext, [])]
    {
      if closed {
        return [];
      }
      writeFin := true;
      out := [Frame(TYPE_FIN, id, 0, recvNext, [])];
    }
  }

  // ---------------------------------------------------------------- what a write sends

  /** DATA frames numbered on from first, all but the last of them full. */
  ghost predicate Queued(out: seq<Frame>, id: nat, first: nat, ack: nat) {
    && (forall k :: 0 <= k < |out| ==>
                      && out[k] == Frame(3, id, (first + k) % 0x1_0000_0000, ack, out[k].payload)
                      && 1 <= |out[k].payload| <= 1200)
    && (forall k :: 0 <= k < |out| - 1 ==> |out[k].payload| == 1200)
  }

  ghost function SlotsOf(out: seq<Frame>, now: nat): seq<Slot> {
    seq(|out|, k requires 0 <= k < |out| => Slot(out[k].payload, out[k].seqNo, now))
  }

  ghost function PayloadsOf(out: seq<Frame>): seq<bytes> {
    seq(|out|, k requires 0 <= k < |out| => out[k].payload)
  }

  /** The frames a write has sent: their slots behind slots0, numbered on to next, their payloads parts,
      and the last of them full if more follow. */
  ghost predicate SoFar(out: seq<Frame>, id: nat, first: nat, ack: nat, now: nat, slots0: seq<Slot>, slots: seq<Slot>,
                        next: nat, parts: seq<bytes>, more: bool) {
    && Queued(out, id, first, ack) && slots == slots0 + SlotsOf(out, now) && PayloadsOf(out) == parts
    && (more && out != [] ==> |out[|out| - 1].payload| == 1200)
    && next == (first + |out|) % U32
  }

  lemma SoFarStarts(id: nat, first: nat, ack: nat, now: nat, slots: seq<Slot>, more: bool)
    requires first < U32
    ensures SoFar([], id, first, ack, now, slots, slots, first, [], more)
  {
  }

  lemma SoFarMeans(out: seq<Frame>, id: nat, first: nat, ack: nat, now: nat, slots0: seq<Slot>, slots: seq<Slot>,
                   next: nat, parts: seq<bytes>, more: bool)
    requires SoFar(out, id, first, ack, now, slots0, slots, next, parts, more)
    ensures Queued(out, id, first, ack) && slots == slots0 + SlotsOf(out, now) && PayloadsOf(out) == parts
  {
  }

  lemma SoFarMore(out: seq<Frame>, id: nat, first: nat, ack: nat, now: nat, slots0: seq<Slot>, slots: seq<Slot>,
                  next: nat, parts: seq<bytes>, f: Frame, more: bool)
    requires SoFar(out, id, first, ack, now, slots0, slots, next, parts, true)
    requires f == Frame(3, id, next, ack, f.payload) && 1 <= |f.payload| <= 1200 && (more ==> |f.payload| == 1200)
    ensures SoFar(out + [f], id, first, ack, now, slots0, slots + [Slot(f.payload, next, now)], (next + 1) % U32,
                  parts + [f.payload], more)
  {
    QueuedMore(out, f, id, first, ack, now);
    NextModulo(first + |out|);
    assert slots0 + SlotsOf(out, now) + [Slot(f.payload, next, now)]
        == slots0 + (SlotsOf(out, now) + [Slot(f.payload, next, now)]);
  }

  lemma QueuedMore(out: seq<Frame>, f: Frame, id: nat, first: nat, ack: nat, now: nat)
    requires Queued(out, id, first, ack)
    requires f == Frame(3, id, (first + |out|) % 0x1_0000_0000, ack, f.payload) && 1 <= |f.payload| <= 1200
    requires out != [] ==> |out[|out| - 1].payload| == 1200
    ensures Queued(out + [f], id, first, ack)
    ensures SlotsOf(out + [f], now) == SlotsOf(out, now) + [Slot(f.payload, f.seqNo, now)]
    ensures PayloadsOf(out + [f]) == PayloadsOf(out) + [f.payload]
  {
  }

  /** write has taken the first total bytes of b, as the payloads parts. */
  ghost predicate Writing(e0: Endpoint, parts: seq<bytes>, e: Endpoint, b: bytes, total: nat, now: nat) {
    && total <= |b|
    && QueueAll(e, b[total..], now) == QueueAll(e0, b, now)
    && parts + Chunks(e, b[total..], now) == Chunks(e0, b, now)
    && Concat(parts) == b[..total]
    && e0.sendNext < U32 && e.sendNext == (e0.sendNext + |parts|) % U32
    && e.id == e0.id && e.recvNext == e0.recvNext
  }

  lemma WritingStarts(e: Endpoint, b: bytes, now: nat)
    requires e.sendNext < U32
    ensures Writing(e, [], e, b, 0, now) && NewFrames(e, []) == []
  {
    assert b[0..] == b;
  }

  lemma ChunkNotEmpty(b: bytes)
    ensures b != [] ==> 1 <= |Chunk(b)| <= |b|
    ensures Chunk(b) <= b && |Chunk(b)| <= MAX_PAYLOAD
  {
  }

  lemma NextModulo(n: nat)
    ensures (n % U32 + 1) % U32 == (n + 1) % U32
  {
  }

  lemma UnrollChunk(e: Endpoint, b: bytes, now: nat)
    requires b != [] && CanQueue(e)
    ensures QueueAll(e, b, now) == QueueAll(Queue(e, Chunk(b), now), b[|Chunk(b)|..], now)
    ensures Chunks(e, b, now) == [Chunk(b)] + Chunks(Queue(e, Chunk(b), now), b[|Chunk(b)|..], now)
  {
  }

  lemma WritingNext(e0: Endpoint, parts: seq<bytes>, e: Endpoint, b: bytes, total: nat, now: nat)
    requires Writing(e0, parts, e, b, total, now) && total < |b| && CanQueue(e)
    ensures var p := Chunk(b[total..]);
            && Writing(e0, parts + [p], Queue(e, p, now), b, total + |p|, now)
            && NewFrames(e0, parts + [p]) == NewFrames(e0, parts) + [Frame(TYPE_DATA, e.id, e.sendNext, e.recvNext, p)]
  {
    hide Chunk, QueueAll, Chunks, Concat, NewFrames;
    var rest := b[total..];
    var p := Chunk(rest);
    ChunkNotEmpty(rest);
    UnrollChunk(e, rest, now);
    var later := Chunks(Queue(e, p, now), rest[|p|..], now);
    assert rest[|p|..] == b[total + |p|..];
    assert parts + ([p] + later) == (parts + [p]) + later;
    assert b[..total] + p == b[..total + |p|];
    NextModulo(e0.sendNext + |parts|);
    ConcatSnoc(parts, p);
    NextFrame(e0, parts, p);
  }

  lemma WritingDone(e0: Endpoint, parts: seq<bytes>, e: Endpoint, b: bytes, total: nat, now: nat)
    requires Writing(e0, parts, e, b, total, now)
    requires total == |b| || !CanQueue(e)
    ensures QueueAll(e0, b, now) == e && Chunks(e0, b, now) == parts && Concat(parts) == b[..total]
  {
    assert parts + [] == parts;
  }

  /** One DATA frame a payload, numbered on from the endpoint's next sequence number. */
  ghost function NewFrames(e: Endpoint, parts: seq<bytes>): seq<Frame> {
    seq(|parts|, k requires 0 <= k < |parts| =>
      Frame(TYPE_DATA, e.id, (e.sendNext + k) % U32, e.recvNext, parts[k]))
  }

  lemma NextFrame(e: Endpoint, parts: seq<bytes>, payload: bytes)
    ensures NewFrames(e, parts + [payload]) ==
            NewFrames(e, parts) + [Frame(TYPE_DATA, e.id, (e.sendNext + |parts|) % U32, e.recvNext, payload)]
  {
  }
}

/** What the steps of one tunnel end do to each field, told in the numbers of
    common/udptunnel/session.go and frame.go: 32 frames in flight, 1200 bytes a frame, 200 to 2000
    milliseconds, and the frame types 2 to 6. */
module EndpointMeaning {
  import opened Bytes
  import opened Endpoint
  import opened Wrappers

  /** A frame that comes in, field by field. */
  lemma FrameMeans(e: Endpoint, f: Frame)
    requires |e.window| == 32
    ensures var r := Receive(e, f);
            && r.id == e.id && r.sendNext == e.sendNext
            && (e.closed ==> r == e)
            && (!e.closed ==>
                  // RST
                  && (f.typ == 6 ==> r.closed && r.readEOF && r.writeFin && r.handshake && r.readWait && r.writeWait)
                  && (f.typ != 6 ==> !r.closed && r.writeFin == e.writeFin)
                  // FIN
                  && (f.typ == 5 ==> r.readEOF && r.readWait)
                  && (f.typ != 5 && f.typ != 6 ==> r.readEOF == e.readEOF)
                  // SYNACK
                  && (f.typ == 2 ==> r.handshake && r.writeWait)
                  && (f.typ != 2 && f.typ != 6 ==> r.handshake == e.handshake)
                  // ACK
                  && (f.typ == 4 ==> r.writeWait)
                  // DATA
                  && (f.typ != 3 ==> r.window == e.window && r.readBuf == e.readBuf && r.recvNext == e.recvNext))
            && (e.readWait ==> r.readWait) && (e.writeWait ==> r.writeWait)
  {
    hide Drain, StoreData;
    UnackedMeans(e.sendSlots, f.ack);
    StoreMeans(if CarriesAck(f.typ) then ConsumeAck(e, f.ack) else e, f);
  }

  /** The acknowledgement in an ACK, DATA, SYNACK or FIN. */
  lemma AckMeans(e: Endpoint, f: Frame)
    requires |e.window| == 32 && !e.closed
    ensures var r := Receive(e, f);
            if 2 <= f.typ <= 5 then
              && (forall s :: s in r.sendSlots <==> s in e.sendSlots && f.ack <= s.seqNo)
              && (r.sendSlots == e.sendSlots ==> r.rto == e.rto)
              && (r.sendSlots != e.sendSlots ==> r.rto == 200 && r.writeWait)
            else r.sendSlots == e.sendSlots && r.rto == e.rto
  {
    hide Drain, StoreData;
    UnackedMeans(e.sendSlots, f.ack);
    StoreMeans(if CarriesAck(f.typ) then ConsumeAck(e, f.ack) else e, f);
  }

  lemma {:induction false} UnackedMeans(slots: seq<Slot>, ack: nat)
    ensures forall s :: s in Unacked(slots, ack) <==> s in slots && ack <= s.seqNo
    ensures |Unacked(slots, ack)| == |slots| ==> Unacked(slots, ack) == slots
  {
    if slots != [] {
      UnackedMeans(slots[1..], ack);
      assert slots == [slots[0]] + slots[1..];
    }
  }

  /** Data outside the window of 32 changes nothing, and ahead of the cursor it waits in its place, the
      first to arrive staying. */
  lemma StoreMeans(e: Endpoint, f: Frame)
    requires |e.window| == 32
    ensures var r := StoreData(e, f);
            && r == e.(window := r.window, readBuf := r.readBuf, recvNext := r.recvNext, readWait := r.readWait)
            && (e.readWait ==> r.readWait)
            && (f.seqNo < e.recvNext || e.recvNext + 32 <= f.seqNo ==> r == e)
            && (e.window[0].None? && e.recvNext < f.seqNo < e.recvNext + 32 ==>
                  var off := f.seqNo - e.recvNext;
                  r == e.(window := e.window[off := if e.window[off].None? then Some(f.payload) else e.window[off]]))
  {
    hide Drain;
    if e.recvNext <= f.seqNo < e.recvNext + 32 {
      var off := f.seqNo - e.recvNext;
      var filled := if e.window[off].None? then e.(window := e.window[off := Some(f.payload)]) else e;
      DrainMeans(filled);
    }
  }

  lemma {:induction false} DrainMeans(e: Endpoint)
    requires |e.window| == 32
    ensures var r := Drain(e);
            && r == e.(window := r.window, readBuf := r.readBuf, recvNext := r.recvNext, readWait := r.readWait)
            && (e.readWait ==> r.readWait) && (e.window[0].None? ==> r == e)
    decreases Held(e.window)
  {
    if e.window[0].Some? {
      HeldShift(e.window[1..]);
      DrainMeans(Shift(e));
    }
  }

  /** DATA and FIN are answered with one ACK of the cursor they leave, other frames with nothing. */
  lemma AnswerMeans(e: Endpoint, f: Frame)
    requires |e.window| == 32
    ensures ReceiveOut(e, f) ==
            if !e.closed && (f.typ == 3 || f.typ == 5) then [Frame(4, e.id, 0, Receive(e, f).recvNext, [])] else []
  {
    hide Receive;
    FrameMeans(e, f);
  }

  /** The retransmission ticker: a slot is sent again when the timeout has passed since it was last
      sent, and then the timeout doubles, up to 2000. */
  lemma TickMeans(e: Endpoint, now: nat)
    requires e.rto <= 2000
    ensures var r := Tick(e, now); var due := TickOut(e, now);
            && r == e.(sendSlots := r.sendSlots, rto := r.rto)
            && (e.closed ==> r == e && due == [])
            && |r.sendSlots| == |e.sendSlots|
            && (!e.closed ==>
                  && (forall k :: 0 <= k < |e.sendSlots| ==>
                                    r.sendSlots[k] == if now - e.sendSlots[k].lastSend >= e.rto
                                                      then e.sendSlots[k].(lastSend := now) else e.sendSlots[k])
                  && (forall f :: f in due <==>
                                    exists s :: s in e.sendSlots && now - s.lastSend >= e.rto
                                                && f == Frame(3, e.id, s.seqNo, e.recvNext, s.data)))
            && r.rto == if due == [] then e.rto else if e.rto * 2 <= 2000 then e.rto * 2 else 2000
  {
    DueMeans(e, e.sendSlots, now);
  }

  lemma {:induction false} DueMeans(e: Endpoint, slots: seq<Slot>, now: nat)
    ensures forall f :: f in DueFrames(e, slots, now) <==>
                          exists s :: s in slots && now - s.lastSend >= e.rto
                                      && f == Frame(3, e.id, s.seqNo, e.recvNext, s.data)
  {
    if slots != [] {
      DueMeans(e, slots[1..], now);
      assert slots == [slots[0]] + slots[1..];
    }
  }

  /** The first 1200 bytes of what is left to write. */
  lemma ChunkMeans(b: bytes)
    ensures Chunk(b) == if |b| <= 1200 then b else b[..1200]
  {
  }

  /** A reader waits exactly with nothing to read, no EOF and an open session; otherwise it gets as much
      as it has room for. */
  lemma ReadMeans(e: Endpoint, room: nat)
    ensures CanRead(e) <==> e.readBuf != [] || e.readEOF || e.closed
    ensures |Taken(e, room)| == (if room <= |e.readBuf| then room else |e.readBuf|)
    ensures Taken(e, room) + Take(e, room).readBuf == e.readBuf
    ensures Take(e, room) == e.(readBuf := Take(e, room).readBuf)
  {
  }

  /** Closing: first a FIN and no more writing, then everything at once. */
  lemma CloseMeans(e: Endpoint)
    ensures StartClose(e) == (if e.closed then e else e.(writeFin := true))
    ensures StartCloseOut(e) == (if e.closed then [] else [Frame(5, e.id, 0, e.recvNext, [])])
    ensures var r := ForceClose(e);
            && r.closed
            && (!e.closed ==> r.readEOF && r.writeFin && r.handshake && r.readWait && r.writeWait)
            && (e.closed ==> r == e)
            && r.sendSlots == e.sendSlots && r.readBuf == e.readBuf && r.recvNext == e.recvNext && r.window == e.window
            && r.id == e.id && r.sendNext == e.sendNext && r.rto == e.rto
  {
  }
}

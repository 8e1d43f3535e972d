/** What holds in every run of two tunnel sessions, and that a stalled stream can always be
    finished. */
module TunnelRuns {
  import opened Bytes
  import opened Endpoint
  import opened Tunnel

  /** A state that some run from two new sessions reaches. */
  ghost function Reached(id: nat, acts: seq<Act>): (s: Sys)
    ensures Sized(s)
  {
    Exec(Start(id), acts)
  }

  lemma ReachedInv(id: nat, acts: seq<Act>)
    ensures Inv(Reached(id, acts))
  {
    ExecKeeps(Start(id), acts);
  }

  // ---------------------------------------------------------------- safety

  lemma {:induction false} ConcatSplit(parts: seq<bytes>, n: nat)
    requires n <= |parts|
    ensures Concat(parts) == Concat(parts[..n]) + Concat(parts[n..])
  {
    if n == 0 {
      assert parts[0..] == parts;
    } else {
      ConcatSplit(parts[1..], n - 1);
      assert parts[..n][1..] == parts[1..][..n - 1];
      assert parts[1..][n - 1..] == parts[n..];
    }
  }

  /** Every byte y's application has read or can read is the stream x's application wrote, in order,
      once each; and every payload held back is the one sent under its number. */
  ghost predicate StreamKept(x: Peer, y: Peer) {
    && |y.ep.window| == MAX_IN_FLIGHT
    && IsPrefix(y.got + y.ep.readBuf, Concat(x.sent))
    && y.got + y.ep.readBuf == Concat(x.sent[..(if y.ep.recvNext <= |x.sent| then y.ep.recvNext else 0)])
    && y.ep.recvNext <= |x.sent|
    && forall k :: 0 <= k < MAX_IN_FLIGHT && y.ep.window[k].Some? ==>
                     y.ep.recvNext + k < |x.sent| && y.ep.window[k].value == x.sent[y.ep.recvNext + k]
  }

  lemma LinkKeepsStream(x: Peer, y: Peer)
    requires Link(x, y)
    ensures StreamKept(x, y)
  {
    ConcatSplit(x.sent, y.ep.recvNext);
  }

  lemma StreamsAreKept(id: nat, acts: seq<Act>)
    ensures var s := Reached(id, acts);
            StreamKept(s.p, s.q) && StreamKept(s.q, s.p)
  {
    ReachedInv(id, acts);
    var s := Reached(id, acts);
    LinkKeepsStream(s.p, s.q);
    LinkKeepsStream(s.q, s.p);
  }

  /** The slots are the frames from base up to the next number, base never passes what the peer has
      received, and no data frame in the network lies past the peer's window. */
  ghost predicate WindowKept(x: Peer, y: Peer) {
    var base := x.ep.sendNext - |x.ep.sendSlots|;
    && 0 <= base <= y.ep.recvNext <= x.ep.sendNext <= base + 32
    && (forall k :: 0 <= k < |x.ep.sendSlots| ==> x.ep.sendSlots[k].seqNo == base + k)
    && (forall f :: f in x.out && f.typ == TYPE_DATA ==> f.seqNo < y.ep.recvNext + 32)
  }

  lemma WindowsAreKept(id: nat, acts: seq<Act>)
    ensures var s := Reached(id, acts);
            WindowKept(s.p, s.q) && WindowKept(s.q, s.p)
  {
    hide Concat;
    ReachedInv(id, acts);
  }

  lemma WakeupsAreKept(id: nat, acts: seq<Act>)
    ensures var s := Reached(id, acts);
            NoLostWakeup(s.p) && NoLostWakeup(s.q)
  {
    ReachedInv(id, acts);
  }

  // ---------------------------------------------------------------- schedules

  /** Acts a schedule may use: waiting, the retransmission ticker, arrivals of data and ACKs. */
  predicate IsCalmOp(op: Op) {
    op.Retransmit? || (op.Deliver? && (op.f.typ == TYPE_DATA || op.f.typ == TYPE_ACK))
  }

  predicate IsCalm(act: Act) {
    match act
    case AtP(op) => IsCalmOp(op)
    case AtQ(op) => IsCalmOp(op)
    case Pass(_) => true
  }

  ghost predicate Scheduled(acts: seq<Act>) {
    forall i :: 0 <= i < |acts| ==> IsCalm(acts[i])
  }

  /** A calm act neither writes nor reads nor closes, and takes nothing out of the network. */
  ghost predicate Later(s: Sys, t: Sys) {
    LaterPeer(s.p, t.p) && LaterPeer(s.q, t.q)
  }

  ghost predicate LaterPeer(x: Peer, y: Peer) {
    && y.sent == x.sent && y.got == x.got && x.out <= y.out
    && y.ep.closed == x.ep.closed
    && |y.ep.sendSlots| <= |x.ep.sendSlots|
  }

  lemma CalmOpLater(me: Peer, inbox: set<Frame>, op: Op, now: nat)
    requires |me.ep.window| == MAX_IN_FLIGHT && IsCalmOp(op)
    ensures LaterPeer(me, Do(me, inbox, op, now))
  {
    hide DueFrames, StoreData, FrameSet;
    if op.Deliver? {
      ReceiveSending(me.ep, op.f);
      var e1 := ConsumeAck(me.ep, op.f.ack);
      StoreOnlyReceives(e1, op.f);
    }
  }

  lemma CalmLater(s: Sys, act: Act)
    requires Sized(s) && IsCalm(act)
    ensures Later(s, Step(s, act))
  {
    hide Do, IsCalmOp;
    match act
    case AtP(op) => CalmOpLater(s.p, s.q.out, op, s.clock);
    case AtQ(op) => CalmOpLater(s.q, s.p.out, op, s.clock);
    case Pass(_) =>
  }

  lemma {:induction false} ExecAppend(s: Sys, acts: seq<Act>, more: seq<Act>)
    requires Sized(s)
    ensures Exec(s, acts + more) == Exec(Exec(s, acts), more)
    decreases |acts|
  {
    hide Step;
    if acts == [] {
      assert acts + more == more;
    } else {
      ExecAppend(Step(s, acts[0]), acts[1..], more);
      assert (acts + more)[1..] == acts[1..] + more;
    }
  }

  /** A schedule from s that keeps the invariant and ends in t. */
  ghost predicate Leads(s: Sys, acts: seq<Act>, t: Sys) {
    Inv(s) && Sized(s) && Scheduled(acts) && t == Exec(s, acts) && Inv(t) && Later(s, t)
  }

  lemma LeadsNowhere(s: Sys)
    requires Inv(s)
    ensures Leads(s, [], s)
  {
    InvSized(s);
  }

  lemma LeadsStep(s: Sys, acts: seq<Act>, t: Sys, act: Act)
    requires Leads(s, acts, t) && IsCalm(act)
    ensures Sized(t) && Leads(s, acts + [act], Step(t, act))
  {
    hide Inv, Do, IsCalm, Step;
    ExecAppend(s, acts, [act]);
    assert Exec(t, [act]) == Exec(Step(t, act), []);
    StepKeeps(t, act);
    CalmLater(t, act);
  }

  lemma LeadsOn(s: Sys, acts: seq<Act>, t: Sys, more: seq<Act>, u: Sys)
    requires Leads(s, acts, t) && Leads(t, more, u)
    ensures Leads(s, acts + more, u)
  {
    hide Inv, IsCalm;
    ExecAppend(s, acts, more);
  }

  // ---------------------------------------------------------------- one direction

  lemma {:induction false} AllDue(e: Endpoint, slots: seq<Slot>, now: nat, k: nat)
    requires k < |slots| && forall i :: 0 <= i < |slots| ==> IsDue(slots[i], now, e.rto)
    ensures DataFrame(e, slots[k]) in DueFrames(e, slots, now)
  {
    if k > 0 {
      AllDue(e, slots[1..], now, k - 1);
    }
  }

  /** Data frames in the network, numbered from base on. */
  ghost predicate InNetwork(x: Peer, frames: seq<Frame>, base: nat) {
    forall k :: 0 <= k < |frames| ==>
                  frames[k] in x.out && frames[k].typ == TYPE_DATA && frames[k].seqNo == base + k
  }

  /** After the longest time-out every slot is sent again. */
  lemma ResendAll(s: Sys) returns (acts: seq<Act>, t: Sys, frames: seq<Frame>)
    requires Inv(s) && !s.p.ep.closed
    ensures Leads(s, acts, t)
    ensures |frames| == |s.p.ep.sendSlots| && InNetwork(t.p, frames, |s.p.sent| - |s.p.ep.sendSlots|)
  {
    hide Concat, DueFrames, NoLostWakeup;
    var e := s.p.ep;
    LeadsNowhere(s);
    LeadsStep(s, [], s, Pass(MAX_RTO));
    var s1 := s.(clock := s.clock + MAX_RTO);
    LeadsStep(s, [] + [Pass(MAX_RTO)], s1, AtP(Retransmit));
    acts := [] + [Pass(MAX_RTO)] + [AtP(Retransmit)];
    t := Step(s1, AtP(Retransmit));
    frames := seq(|e.sendSlots|, k requires 0 <= k < |e.sendSlots| => DataFrame(e, e.sendSlots[k]));
    forall k | 0 <= k < |frames|
      ensures frames[k] in t.p.out
    {
      AllDue(e, e.sendSlots, s1.clock, k);
    }
  }

  /** Frames that arrive in order bring the receiver to the end of them. */
  lemma {:induction false} DeliverAll(s: Sys, frames: seq<Frame>, base: nat, k: nat) returns (acts: seq<Act>, t: Sys)
    requires Inv(s) && !s.q.ep.closed && k < |frames|
    requires InNetwork(s.p, frames, base) && base + k <= s.q.ep.recvNext
    ensures Leads(s, acts, t)
    ensures base + |frames| <= t.q.ep.recvNext && AckFrame(t.q.ep) in t.q.out
    decreases |frames| - k
  {
    hide Concat, Slots, Local, StoreData;
    var act := AtQ(Deliver(frames[k]));
    LeadsNowhere(s);
    LeadsStep(s, [], s, act);
    var s1 := Step(s, act);
    DeliverOne(s, frames[k]);
    if k + 1 == |frames| {
      acts, t := [] + [act], s1;
    } else {
      var rest;
      rest, t := DeliverAll(s1, frames, base, k + 1);
      LeadsOn(s, [] + [act], s1, rest, t);
      acts := [] + [act] + rest;
    }
  }

  lemma DeliverOne(s: Sys, f: Frame)
    requires Inv(s) && !s.q.ep.closed && f in s.p.out && f.typ == TYPE_DATA && f.seqNo <= s.q.ep.recvNext
    ensures Sized(s)
    ensures var t := Step(s, AtQ(Deliver(f)));
            f.seqNo < t.q.ep.recvNext && AckFrame(t.q.ep) in t.q.out
  {
    hide Concat, Slots, Local, Receive;
    ReceiveKeeps(s.q.ep, f, s.p.sent, s.q.got);
    var out := ReceiveOut(s.q.ep, f);
    assert AckFrame(Receive(s.q.ep, f)) in out;
  }

  /** Everything queued at p reaches q, and p learns of it. */
  lemma FinishOneWay(s: Sys) returns (acts: seq<Act>, t: Sys)
    requires Inv(s) && !s.p.ep.closed && !s.q.ep.closed
    ensures Leads(s, acts, t) && t.p.ep.sendSlots == []
  {
    if s.p.ep.sendSlots == [] {
      LeadsNowhere(s);
      acts, t := [], s;
      return;
    }
    var a1, s1, frames := ResendAll(s);
    var base := |s.p.sent| - |s.p.ep.sendSlots|;
    BaseReceived(s, s1, base);
    var a2, s2 := DeliverAll(s1, frames, base, 0);
    LeadsOn(s, a1, s1, a2, s2);
    var act := AtP(Deliver(AckFrame(s2.q.ep)));
    LeadsStep(s, a1 + a2, s2, act);
    t := Step(s2, act);
    acts := a1 + a2 + [act];
    FullAck(s2, |s.p.sent|);
  }

  lemma BaseReceived(s: Sys, t: Sys, base: nat)
    requires Inv(s) && Inv(t) && Later(s, t) && base == |s.p.sent| - |s.p.ep.sendSlots|
    ensures base <= t.q.ep.recvNext
  {
    hide Concat;
  }

  lemma FullAck(s: Sys, n: nat)
    requires Inv(s) && !s.p.ep.closed && |s.p.sent| == n <= s.q.ep.recvNext
    requires AckFrame(s.q.ep) in s.q.out
    ensures Sized(s) && Step(s, AtP(Deliver(AckFrame(s.q.ep)))).p.ep.sendSlots == []
  {
    hide Concat, Receive, Local;
    ReceiveSending(s.p.ep, AckFrame(s.q.ep));
    UnackedSlots(s.p.ep.sendSlots, s.p.sent, s.q.ep.recvNext, s.q.ep.recvNext);
  }

  // ---------------------------------------------------------------- both directions

  ghost function Swap(s: Sys): Sys {
    Sys(s.q, s.p, s.clock)
  }

  function SwapAct(act: Act): Act {
    match act
    case AtP(op) => AtQ(op)
    case AtQ(op) => AtP(op)
    case Pass(d) => Pass(d)
  }

  function SwapActs(acts: seq<Act>): (r: seq<Act>)
    ensures |r| == |acts|
  {
    seq(|acts|, i requires 0 <= i < |acts| => SwapAct(acts[i]))
  }

  /** The two ends are interchangeable. */
  lemma {:induction false} ExecSwap(s: Sys, acts: seq<Act>)
    requires Sized(s)
    ensures Sized(Swap(s)) && Exec(Swap(s), SwapActs(acts)) == Swap(Exec(s, acts))
    decreases |acts|
  {
    hide Do;
    if acts != [] {
      ExecSwap(Step(s, acts[0]), acts[1..]);
      assert SwapActs(acts)[1..] == SwapActs(acts[1..]);
      assert Step(Swap(s), SwapAct(acts[0])) == Swap(Step(s, acts[0]));
    }
  }

  lemma LeadsSwap(s: Sys, acts: seq<Act>, t: Sys)
    requires Leads(s, acts, t)
    ensures Leads(Swap(s), SwapActs(acts), Swap(t))
  {
    hide Link, Local, Do;
    ExecSwap(s, acts);
    forall i | 0 <= i < |acts|
      ensures IsCalm(SwapActs(acts)[i])
    {
      assert IsCalm(acts[i]);
    }
  }

  lemma InvSwap(s: Sys)
    requires Inv(s)
    ensures Inv(Swap(s))
  {
  }

  // ---------------------------------------------------------------- progress

  /** Nothing is left to send, and everything sent has reached the other session. */
  ghost predicate Delivered(x: Peer, y: Peer) {
    x.ep.sendSlots == [] && y.ep.recvNext == |x.sent| && y.got + y.ep.readBuf == Concat(x.sent)
  }

  lemma EmptyIsDelivered(x: Peer, y: Peer)
    requires Link(x, y) && x.ep.sendSlots == []
    ensures Delivered(x, y)
  {
    assert x.sent[..|x.sent|] == x.sent;
  }

  /** The network drops everything it holds. */
  ghost function LoseAll(s: Sys): Sys {
    Sys(s.p.(out := {}), s.q.(out := {}), s.clock)
  }

  ghost predicate IsLoss(act: Act) {
    match act
    case AtP(op) => op.Lose?
    case AtQ(op) => op.Lose?
    case Pass(_) => false
  }

  lemma {:induction false} DropAll(s: Sys) returns (acts: seq<Act>)
    requires Sized(s)
    ensures Exec(s, acts) == LoseAll(s)
    ensures forall i :: 0 <= i < |acts| ==> IsLoss(acts[i])
    decreases |s.p.out| + |s.q.out|
  {
    if f :| f in s.p.out {
      var act := AtP(Lose(f));
      acts := DropAll(Step(s, act));
      acts := [act] + acts;
    } else if f :| f in s.q.out {
      var act := AtQ(Lose(f));
      acts := DropAll(Step(s, act));
      acts := [act] + acts;
    } else {
      assert s == LoseAll(s);
      acts := [];
    }
  }

  lemma LoseAllKeeps(s: Sys)
    requires Inv(s)
    ensures Inv(LoseAll(s))
  {
  }

  /** While both sessions are open, waiting, the ticker and arrivals finish both streams. */
  lemma Finish(s: Sys) returns (acts: seq<Act>, t: Sys)
    requires Inv(s) && !s.p.ep.closed && !s.q.ep.closed
    ensures Leads(s, acts, t) && Delivered(t.p, t.q) && Delivered(t.q, t.p)
  {
    hide Link, Local, Exec, Scheduled, Delivered;
    var a1, s1 := FinishOneWay(s);
    InvSwap(s1);
    var a2, s2 := FinishOneWay(Swap(s1));
    LeadsSwap(Swap(s1), a2, s2);
    assert Swap(Swap(s1)) == s1;
    t := Swap(s2);
    acts := a1 + SwapActs(a2);
    LeadsOn(s, a1, s1, SwapActs(a2), t);
    EmptyIsDelivered(t.p, t.q);
    EmptyIsDelivered(t.q, t.p);
  }

  /** From every state a run reaches with both sessions open, even if the network then drops every
      frame in it, some schedule of waiting, ticks and arrivals delivers all that was written. */
  lemma AlwaysFinishable(id: nat, acts: seq<Act>) returns (drops: seq<Act>, schedule: seq<Act>)
    requires !Reached(id, acts).p.ep.closed && !Reached(id, acts).q.ep.closed
    ensures forall i :: 0 <= i < |drops| ==> IsLoss(drops[i])
    ensures Exec(Reached(id, acts), drops) == LoseAll(Reached(id, acts))
    ensures Scheduled(schedule)
    ensures var s := Reached(id, acts);
            var t := Exec(LoseAll(s), schedule);
            && t.p.sent == s.p.sent && t.q.sent == s.q.sent
            && Delivered(t.p, t.q) && Delivered(t.q, t.p)
            && t == Reached(id, acts + drops + schedule)
  {
    hide Link, Local, Scheduled, Delivered, Step;
    var s := Reached(id, acts);
    ReachedInv(id, acts);
    drops := DropAll(s);
    LoseAllKeeps(s);
    var t;
    schedule, t := Finish(LoseAll(s));
    ExecAppend(Start(id), acts, drops);
    ExecAppend(Start(id), acts + drops, schedule);
  }

  /** The retransmission time-out stays within its bounds. */
  lemma TimeoutBounded(id: nat, acts: seq<Act>)
    ensures var s := Reached(id, acts);
            200 <= s.p.ep.rto <= 2000 && 200 <= s.q.ep.rto <= 2000
  {
    ReachedInv(id, acts);
  }
}

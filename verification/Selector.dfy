/** The transport selector (common/transportselect/selector.go): probe results in, preferred path
    out.  The network probes themselves are parameters of ProbeOnce. */
module Selector {
  import opened Wrappers

  const MODE_TCP := "tcp"
  const MODE_UDP := "udp"
  const MODE_AUTO := "auto"
  const STICKY := 5_000_000  // StickyMs, in nanoseconds
  const PATH_FAIL_THRESHOLD := 3

  datatype Config = Config(tcpPort: nat, udpPort: nat, mode: string)

  /** The outcome of one round: the round-trip time of each path that answered. */
  datatype Probe = Probe(tcp: Option<int>, udp: Option<int>)

  // ---------------------------------------------------------------- histories of one path

  ghost predicate Succeeded(h: seq<Option<int>>, i: int) {
    0 <= i < |h| && h[i].Some?
  }

  /** One of the last three rounds reached the path. */
  ghost predicate RecentlyUp(h: seq<Option<int>>) {
    exists i :: |h| - 3 <= i < |h| && Succeeded(h, i)
  }

  /** The time measured last. */
  ghost function LastRtt(h: seq<Option<int>>): int {
    if h == [] then 0
    else if h[|h| - 1].Some? then h[|h| - 1].value
    else LastRtt(h[..|h| - 1])
  }

  /** Rounds since the path last answered. */
  ghost function Misses(h: seq<Option<int>>): nat {
    if h == [] || h[|h| - 1].Some? then 0 else 1 + Misses(h[..|h| - 1])
  }

  /** n misses reach back to a success, or to the start. */
  lemma {:induction false} MissesReach(h: seq<Option<int>>)
    ensures Misses(h) <= |h|
    ensures forall i :: |h| - Misses(h) <= i < |h| ==> h[i].None?
    ensures Misses(h) < |h| ==> h[|h| - 1 - Misses(h)].Some?
  {
    if h != [] && h[|h| - 1].None? {
      MissesReach(h[..|h| - 1]);
    }
  }

  lemma RecentlyUpIs(h: seq<Option<int>>)
    ensures RecentlyUp(h) <==> Misses(h) < |h| && Misses(h) < PATH_FAIL_THRESHOLD
  {
    MissesReach(h);
    if Misses(h) < |h| && Misses(h) < PATH_FAIL_THRESHOLD {
      assert Succeeded(h, |h| - 1 - Misses(h));
    }
  }

  /** What the rounds say of the TCP path; without a port it is never probed. */
  ghost function TcpRounds(h: seq<Probe>, port: nat): (r: seq<Option<int>>)
    ensures |r| == |h|
  {
    seq(|h|, i requires 0 <= i < |h| => if port > 0 then h[i].tcp else None)
  }

  ghost function UdpRounds(h: seq<Probe>, port: nat): (r: seq<Option<int>>)
    ensures |r| == |h|
  {
    seq(|h|, i requires 0 <= i < |h| => if port > 0 then h[i].udp else None)
  }

  /** The path is configured and one of its last three rounds succeeded. */
  ghost predicate TcpUp(cfg: Config, h: seq<Probe>) {
    cfg.tcpPort > 0 && RecentlyUp(TcpRounds(h, cfg.tcpPort))
  }

  ghost predicate UdpUp(cfg: Config, h: seq<Probe>) {
    cfg.udpPort > 0 && RecentlyUp(UdpRounds(h, cfg.udpPort))
  }

  /** By how much the last TCP time exceeds the last UDP time. */
  ghost function Gap(cfg: Config, h: seq<Probe>): int {
    LastRtt(TcpRounds(h, cfg.tcpPort)) - LastRtt(UdpRounds(h, cfg.udpPort))
  }

  /** The path to prefer after the rounds h when old was preferred before the last one. */
  ghost function Choice(cfg: Config, h: seq<Probe>, before: string): string {
    if TcpUp(cfg, h) && UdpUp(cfg, h) then
      if Gap(cfg, h) >= STICKY then MODE_UDP else if Gap(cfg, h) <= -STICKY then MODE_TCP else before
    else if TcpUp(cfg, h) then MODE_TCP
    else if UdpUp(cfg, h) then MODE_UDP
    else if cfg.tcpPort > 0 then MODE_TCP
    else MODE_UDP
  }

  // ---------------------------------------------------------------- the object

  class Selector {
    const cfg: Config
    var preferred: string
    var tcpRTT: int
    var udpRTT: int
    var tcpFails: nat
    var udpFails: nat
    var tcpUp: bool
    var udpUp: bool
    /** Every round so far; a path without a port never answers. */
    ghost var history: seq<Probe>

    /** The counters, flags and times are what the rounds so far say. */
    ghost predicate Counted()
      reads this
    {
      && IsCounted(cfg.tcpPort, TcpRounds(history, cfg.tcpPort), tcpFails, tcpUp, tcpRTT)
      && IsCounted(cfg.udpPort, UdpRounds(history, cfg.udpPort), udpFails, udpUp, udpRTT)
    }

    ghost predicate Valid()
      reads this
    {
      && Counted()
      && (preferred == MODE_TCP || preferred == MODE_UDP)
      && (cfg.mode == MODE_AUTO && cfg.tcpPort + cfg.udpPort > 0 ==>
            if preferred == MODE_TCP then cfg.tcpPort > 0 else cfg.udpPort > 0)
    }

    /** New, selector.go:58-81, without the probing interval. */
    constructor (cfg: Config)
      ensures Valid() && this.cfg == cfg && history == []
      ensures preferred == if cfg.mode == "udp" || (cfg.mode == "auto" && cfg.tcpPort == 0) then "udp" else "tcp"
    {
      this.cfg := cfg;
      tcpRTT, udpRTT, tcpFails, udpFails, tcpUp, udpUp := 0, 0, 0, 0, false, false;
      history := [];
      if cfg.mode == MODE_UDP {
        preferred := MODE_UDP;
      } else if cfg.mode == MODE_AUTO {
        if cfg.tcpPort > 0 {
          preferred := MODE_TCP;
        } else {
          preferred := MODE_UDP;
        }
      } else {
        preferred := MODE_TCP;
      }
      new;
      NothingCounted(cfg.tcpPort);
      NothingCounted(cfg.udpPort);
      assert TcpRounds([], cfg.tcpPort) == [] && UdpRounds([], cfg.udpPort) == [];
    }

    /** Preferred, selector.go:84-97. */
    function Preferred(): (r: string)
      reads this
      ensures Valid() && cfg.mode == "tcp" ==> r == "tcp"
      ensures Valid() && cfg.mode == "udp" ==> r == "udp"
      ensures Valid() ==> r == "tcp" || r == "udp"
      ensures Valid() && cfg.mode == "auto" ==> r == preferred
    {
      if preferred == "" then MODE_TCP
      else if cfg.mode == MODE_TCP then MODE_TCP
      else if cfg.mode == MODE_UDP then MODE_UDP
      else preferred
    }

    /** The locked part of probeOnce, selector.go:158-204. */
    method ProbeOnce(tcp: Option<int>, udp: Option<int>)
      requires Valid()
      modifies this
      ensures Valid() && history == old(history) + [Probe(tcp, udp)]
      ensures preferred == Choice(cfg, history, old(preferred))
      ensures (tcpUp <==> TcpUp(cfg, history)) && (udpUp <==> UdpUp(cfg, history))
      ensures cfg.tcpPort > 0 && tcp.Some? ==> tcpUp && tcpRTT == tcp.value
      ensures cfg.udpPort > 0 && udp.Some? ==> udpUp && udpRTT == udp.value
      ensures tcp.None? ==> tcpRTT == old(tcpRTT)
      ensures udp.None? ==> udpRTT == old(udpRTT)
      ensures cfg.tcpPort == 0 ==> !tcpUp
      ensures cfg.udpPort == 0 ==> !udpUp
      ensures tcpUp && !udpUp ==> preferred == "tcp"
      ensures udpUp && !tcpUp ==> preferred == "udp"
      ensures !tcpUp && !udpUp ==> preferred == if cfg.tcpPort > 0 then "tcp" else "udp"
      ensures tcpUp && udpUp && udpRTT - tcpRTT >= 5_000_000 ==> preferred == "tcp"
      ensures tcpUp && udpUp && tcpRTT - udpRTT >= 5_000_000 ==> preferred == "udp"
      ensures tcpUp && udpUp && -5_000_000 < tcpRTT - udpRTT < 5_000_000 ==> preferred == old(preferred)
    {
      hide IsCounted, RecentlyUp, LastRtt;
      ghost var tcpBefore, udpBefore := TcpRounds(history, cfg.tcpPort), UdpRounds(history, cfg.udpPort);
      history := history + [Probe(tcp, udp)];
      ghost var tcpRounds, udpRounds := TcpRounds(history, cfg.tcpPort), UdpRounds(history, cfg.udpPort);
      assert tcpRounds == tcpBefore + [if cfg.tcpPort > 0 then tcp else None];
      assert udpRounds == udpBefore + [if cfg.udpPort > 0 then udp else None];
      CountTcp(tcp, tcpBefore);
      CountUdp(udp, udpBefore);
      FlagsMean(cfg.tcpPort, tcpRounds, tcpFails, tcpUp, tcpRTT);
      FlagsMean(cfg.udpPort, udpRounds, udpFails, udpUp, udpRTT);
      JustAnswered(cfg, history);
      preferred := ChooseLocked(preferred);
    }

    /** TCP part of the update, selector.go:161-174. */
    method CountTcp(tcp: Option<int>, ghost h: seq<Option<int>>)
      requires IsCounted(cfg.tcpPort, h, tcpFails, tcpUp, tcpRTT)
      modifies this`tcpFails, this`tcpUp, this`tcpRTT
      ensures IsCounted(cfg.tcpPort, h + [if cfg.tcpPort > 0 then tcp else None], tcpFails, tcpUp, tcpRTT)
      ensures tcp.None? ==> tcpRTT == old(tcpRTT)
    {
      CountRound(cfg.tcpPort, h, tcpFails, tcpUp, tcpRTT, tcp);
      hide IsCounted;
      if cfg.tcpPort > 0 {
        if tcp.Some? {
          tcpFails := 0;
          tcpUp := true;
          tcpRTT := tcp.value;
        } else {
          tcpFails := tcpFails + 1;
          if tcpFails >= PATH_FAIL_THRESHOLD {
            tcpUp := false;
          }
        }
      } else {
        tcpUp := false;
      }
    }

    /** UDP part of the update, selector.go:175-188. */
    method CountUdp(udp: Option<int>, ghost h: seq<Option<int>>)
      requires IsCounted(cfg.udpPort, h, udpFails, udpUp, udpRTT)
      modifies this`udpFails, this`udpUp, this`udpRTT
      ensures IsCounted(cfg.udpPort, h + [if cfg.udpPort > 0 then udp else None], udpFails, udpUp, udpRTT)
      ensures udp.None? ==> udpRTT == old(udpRTT)
    {
      CountRound(cfg.udpPort, h, udpFails, udpUp, udpRTT, udp);
      hide IsCounted;
      if cfg.udpPort > 0 {
        if udp.Some? {
          udpFails := 0;
          udpUp := true;
          udpRTT := udp.value;
        } else {
          udpFails := udpFails + 1;
          if udpFails >= PATH_FAIL_THRESHOLD {
            udpUp := false;
          }
        }
      } else {
        udpUp := false;
      }
    }

    /** chooseLocked, selector.go:206-236. */
    function ChooseLocked(sticky: string): string
      reads this
    {
      var tcpOK := tcpUp && cfg.tcpPort > 0;
      var udpOK := udpUp && cfg.udpPort > 0;
      if tcpOK && !udpOK then MODE_TCP
      else if udpOK && !tcpOK then MODE_UDP
      else if !tcpOK && !udpOK then (if cfg.tcpPort > 0 then MODE_TCP else MODE_UDP)
      else
        var diff := if tcpRTT - udpRTT < 0 then -(tcpRTT - udpRTT) else tcpRTT - udpRTT;
        if (sticky == MODE_TCP || sticky == MODE_UDP) && diff < STICKY then sticky
        else if udpRTT < tcpRTT then MODE_UDP
        else MODE_TCP
    }
  }

  // ---------------------------------------------------------------- counting rounds

  /** fails, up and rtt are right for a path with this history. */
  ghost predicate IsCounted(port: nat, h: seq<Option<int>>, fails: nat, up: bool, rtt: int) {
    if port > 0 then fails == Misses(h) && (up <==> RecentlyUp(h)) && rtt == LastRtt(h)
    else !up && fails == 0 && rtt == 0
  }

  lemma NothingCounted(port: nat)
    ensures IsCounted(port, [], 0, false, 0)
  {
    RecentlyUpIs([]);
  }

  lemma FlagsMean(port: nat, h: seq<Option<int>>, fails: nat, up: bool, rtt: int)
    requires IsCounted(port, h, fails, up, rtt)
    ensures up <==> port > 0 && RecentlyUp(h)
    ensures port > 0 ==> rtt == LastRtt(h)
  {
  }

  /** One more round. */
  lemma CountRound(port: nat, h: seq<Option<int>>, fails: nat, up: bool, rtt: int, r: Option<int>)
    requires IsCounted(port, h, fails, up, rtt)
    ensures var h' := h + [if port > 0 then r else None];
            if port == 0 then IsCounted(port, h', fails, false, rtt)
            else if r.Some? then IsCounted(port, h', 0, true, r.value)
            else IsCounted(port, h', fails + 1, if fails + 1 >= PATH_FAIL_THRESHOLD then false else up, rtt)
  {
    var h' := h + [if port > 0 then r else None];
    assert h'[..|h|] == h;
    RecentlyUpIs(h);
    RecentlyUpIs(h');
    MissesReach(h);
  }

  /** The round just made, if the path answered in it. */
  lemma JustAnswered(cfg: Config, h: seq<Probe>)
    requires h != []
    ensures var last := h[|h| - 1];
            && (cfg.tcpPort > 0 && last.tcp.Some? ==>
                  TcpUp(cfg, h) && LastRtt(TcpRounds(h, cfg.tcpPort)) == last.tcp.value)
            && (cfg.udpPort > 0 && last.udp.Some? ==>
                  UdpUp(cfg, h) && LastRtt(UdpRounds(h, cfg.udpPort)) == last.udp.value)
  {
    if cfg.tcpPort > 0 && h[|h| - 1].tcp.Some? {
      assert Succeeded(TcpRounds(h, cfg.tcpPort), |h| - 1);
    }
    if cfg.udpPort > 0 && h[|h| - 1].udp.Some? {
      assert Succeeded(UdpRounds(h, cfg.udpPort), |h| - 1);
    }
  }

  // ---------------------------------------------------------------- whole histories

  /** The path preferred after the rounds h, starting from first. */
  ghost function After(cfg: Config, first: string, h: seq<Probe>): string {
    if h == [] then first else Choice(cfg, h, After(cfg, first, h[..|h| - 1]))
  }

  /** A configured path is preferred whenever there is one, and never a down path beside one that
      is up. */
  lemma {:induction false} PreferredIsUsable(cfg: Config, first: string, h: seq<Probe>)
    requires first == MODE_TCP || first == MODE_UDP
    requires cfg.tcpPort + cfg.udpPort > 0 ==> if first == MODE_TCP then cfg.tcpPort > 0 else cfg.udpPort > 0
    ensures var r := After(cfg, first, h);
            && (r == MODE_TCP || r == MODE_UDP)
            && (cfg.tcpPort + cfg.udpPort > 0 ==> if r == MODE_TCP then cfg.tcpPort > 0 else cfg.udpPort > 0)
            && (h != [] && r == MODE_TCP && UdpUp(cfg, h) ==> TcpUp(cfg, h))
            && (h != [] && r == MODE_UDP && TcpUp(cfg, h) ==> UdpUp(cfg, h))
  {
    hide RecentlyUp, LastRtt;
    if h != [] {
      PreferredIsUsable(cfg, first, h[..|h| - 1]);
    }
  }

  /** From round n on both paths are up and never five milliseconds apart. */
  ghost predicate Quiet(cfg: Config, h: seq<Probe>, n: nat) {
    forall k :: n < k <= |h| ==>
      TcpUp(cfg, h[..k]) && UdpUp(cfg, h[..k]) && -STICKY < Gap(cfg, h[..k]) < STICKY
  }

  /** The choice then stays as it was after round n, however the times cross below that gap. */
  lemma {:induction false} QuietHoldsChoice(cfg: Config, first: string, h: seq<Probe>, n: nat)
    requires n <= |h| && Quiet(cfg, h, n)
    ensures After(cfg, first, h) == After(cfg, first, h[..n])
    decreases |h|
  {
    hide TcpUp, UdpUp, Gap;
    if n == |h| {
      assert h[..n] == h;
    } else {
      var front := h[..|h| - 1];
      assert forall k :: n < k <= |front| ==> front[..k] == h[..k];
      QuietHoldsChoice(cfg, first, front, n);
      assert front[..n] == h[..n] && h[..|h|] == h;
    }
  }

  /** However many rounds pass with both paths up, a choice that is not the one before them was paid
      for: in the round it was last made the new path was faster by the gap. */
  lemma {:induction false} SwitchNeedsGap(cfg: Config, first: string, h: seq<Probe>, n: nat) returns (k: nat)
    requires first == MODE_TCP || first == MODE_UDP
    requires n <= |h| && forall i :: n < i <= |h| ==> TcpUp(cfg, h[..i]) && UdpUp(cfg, h[..i])
    requires After(cfg, first, h) != After(cfg, first, h[..n])
    ensures n < k <= |h|
    ensures After(cfg, first, h[..k]) == After(cfg, first, h) != After(cfg, first, h[..k - 1])
    ensures if After(cfg, first, h) == MODE_UDP then Gap(cfg, h[..k]) >= STICKY else -Gap(cfg, h[..k]) >= STICKY
    decreases |h|
  {
    hide TcpUp, UdpUp, Gap;
    assert h[..|h|] == h;
    assert n < |h|;
    var front := h[..|h| - 1];
    if After(cfg, first, h) != After(cfg, first, front) {
      k := |h|;
    } else {
      assert forall i :: 0 <= i <= |front| ==> front[..i] == h[..i];
      k := SwitchNeedsGap(cfg, first, front, n);
    }
  }

  /** Where the last round leaves no doubt, whatever was preferred before: a path alone up, or faster by
      five milliseconds; and where it leaves any, the choice before it. */
  lemma LastRoundDecides(cfg: Config, first: string, h: seq<Probe>)
    requires h != []
    ensures var now, before := After(cfg, first, h), After(cfg, first, h[..|h| - 1]);
            var tcp, udp := TcpUp(cfg, h), UdpUp(cfg, h);
            && (tcp && !udp ==> now == "tcp")
            && (udp && !tcp ==> now == "udp")
            && (!tcp && !udp ==> now == if cfg.tcpPort > 0 then "tcp" else "udp")
            && (tcp && udp ==>
                  var t, u := LastRtt(TcpRounds(h, cfg.tcpPort)), LastRtt(UdpRounds(h, cfg.udpPort));
                  && (u - t >= 5_000_000 ==> now == "tcp")
                  && (t - u >= 5_000_000 ==> now == "udp")
                  && (-5_000_000 < t - u < 5_000_000 ==> now == before))
  {
    hide TcpUp, UdpUp, LastRtt;
  }

  /** Two rounds of an automatic selector with both ports: 20 and 10 milliseconds, and then 10 and 30. */
  lemma BackToTcp(tcpPort: nat, udpPort: nat)
    requires tcpPort > 0 && udpPort > 0
    ensures var cfg := Config(tcpPort, udpPort, "auto");
            var h := [Probe(Some(20_000_000), Some(10_000_000)), Probe(Some(10_000_000), Some(30_000_000))];
            After(cfg, "tcp", h[..1]) == "udp" && After(cfg, "tcp", h) == "tcp"
  {
    var cfg := Config(tcpPort, udpPort, "auto");
    var h := [Probe(Some(20_000_000), Some(10_000_000)), Probe(Some(10_000_000), Some(30_000_000))];
    JustAnswered(cfg, h[..1]);
    JustAnswered(cfg, h);
    LastRoundDecides(cfg, "tcp", h[..1]);
    LastRoundDecides(cfg, "tcp", h);
  }

  /** The probing loop, selector.go:115-128, run over the outcomes it sees. */
  method Run(cfg: Config, rounds: seq<Probe>) returns (s: Selector, ghost first: string)
    requires cfg.mode == "auto"
    ensures s.Valid() && s.cfg == cfg && s.history == rounds
    ensures first == if cfg.tcpPort > 0 then MODE_TCP else MODE_UDP
    ensures s.preferred == After(cfg, first, rounds)
    ensures rounds != [] && TcpUp(cfg, rounds) && UdpUp(cfg, rounds) ==>
              var t, u := LastRtt(TcpRounds(rounds, cfg.tcpPort)), LastRtt(UdpRounds(rounds, cfg.udpPort));
              && (u - t >= 5_000_000 ==> s.preferred == "tcp")
              && (t - u >= 5_000_000 ==> s.preferred == "udp")
    ensures rounds != [] && TcpUp(cfg, rounds) && !UdpUp(cfg, rounds) ==> s.preferred == "tcp"
    ensures rounds != [] && UdpUp(cfg, rounds) && !TcpUp(cfg, rounds) ==> s.preferred == "udp"
  {
    hide Choice;
    s := new Selector(cfg);
    first := s.preferred;
    for i := 0 to |rounds|
      invariant fresh(s) && s.Valid() && s.cfg == cfg && s.history == rounds[..i]
      invariant s.preferred == After(cfg, first, rounds[..i])
    {
      assert rounds[..i + 1][..i] == rounds[..i] && rounds[..i] + [rounds[i]] == rounds[..i + 1];
      s.ProbeOnce(rounds[i].tcp, rounds[i].udp);
    }
    assert rounds[..|rounds|] == rounds;
    if rounds != [] {
      LastRoundDecides(cfg, first, rounds);
    }
  }
}

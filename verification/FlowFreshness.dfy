/** Bounded staleness: how long after its last packet a flow may still be open. */
module FlowFreshness {
  import opened Common
  import opened FlowKey
  import opened TcpState
  import opened FlowRecord
  import opened FlowHistories
  import opened FlowRuns
  import opened FlowDiscipline

  // ---------------------------------------------------------------- what a sweep leaves

  /** No open flow had timed out when the last sweep ran. */
  ghost predicate Swept(cfg: Config, s: Tracker) {
    if s.lastSweep.None? then s.live == map[]
    else forall k :: k in s.live && s.live[k] != [] ==> !Expired(cfg, s.live[k], s.lastSweep.value)
  }

  lemma SweepSweeps(cfg: Config, s: Tracker, now: real)
    requires WellFormed(s)
    ensures Swept(cfg, Sweep(cfg, s, now))
  {
    var ks := ExpiredAmong(cfg, s.live, s.order, now);
    SweepKeys(cfg, s, now);
    ExportAllLive(cfg, s, ks, false);
  }

  /** The time the last sweep looked at; before the first one, the clock. */
  ghost function SweptAt(s: Tracker): real {
    if s.lastSweep.Some? then s.lastSweep.value else s.clock
  }

  /** Packet p does not leave its own flow timed out already at the last sweep. */
  ghost predicate Timely(cfg: Config, s: Tracker, p: Packet)
    requires WellFormed(s)
  {
    ArriveWellFormed(cfg, s, p);
    var t := Arrive(cfg, s, p);
    !Expired(cfg, t.live[KeyOf(p)], SweptAt(t))
  }

  /** A packet at or after the clock is always timely. */
  lemma OnTimeIsTimely(cfg: Config, s: Tracker, p: Packet)
    requires WellFormed(s) && s.clock <= p.ts
    ensures Timely(cfg, s, p)
  {
    ArriveWellFormed(cfg, s, p);
    ArriveClock(cfg, s, p);
    var t := Arrive(cfg, s, p);
    RecordSpan(cfg, t.live[KeyOf(p)]);
    assert t.live[KeyOf(p)][|t.live[KeyOf(p)]| - 1] == p;
  }

  /** A timely arrival leaves no flow that had timed out at the last sweep. */
  lemma ArriveSwept(cfg: Config, s: Tracker, p: Packet)
    requires WellFormed(s) && Swept(cfg, s) && Timely(cfg, s, p)
    ensures var t := Arrive(cfg, s, p); forall k :: k in t.live ==> !Expired(cfg, t.live[k], SweptAt(t))
  {
    hide Expired;
    ArriveWellFormed(cfg, s, p);
    ArriveClock(cfg, s, p);
    ArriveLeavesOthers(cfg, s, p);
  }

  lemma ArriveLeavesOthers(cfg: Config, s: Tracker, p: Packet)
    requires WellFormed(s)
    ensures forall k :: k in Arrive(cfg, s, p).live && k != KeyOf(p) ==>
            k in s.live && Arrive(cfg, s, p).live[k] == s.live[k]
  {
  }

  lemma StepSwept(cfg: Config, s: Tracker, c: Command)
    requires WellFormed(s) && Swept(cfg, s) && (c.Arrival? ==> Timely(cfg, s, c.p))
    ensures Swept(cfg, Step(cfg, s, c))
  {
    hide Sweep, Arrive, Expired;
    match c
    case Arrival(p) =>
      ArriveWellFormed(cfg, s, p);
      ArriveSwept(cfg, s, p);
      var t := Arrive(cfg, s, p);
      SweepSweeps(cfg, t, t.clock);
    case SweepAt(now) => SweepSweeps(cfg, s, if now.Some? then now.value else s.clock);
    case FlushAll =>
      SweepKeys(cfg, s, s.clock);
      ExportAllLive(cfg, s, s.order, true);
  }

  ghost predicate AllTimely(cfg: Config, cs: seq<Command>) {
    cs != [] ==>
      && AllTimely(cfg, cs[..|cs| - 1])
      && (cs[|cs| - 1].Arrival? ==> Timely(cfg, Run(cfg, cs[..|cs| - 1]), cs[|cs| - 1].p))
  }

  lemma {:induction false} RunSwept(cfg: Config, cs: seq<Command>)
    requires AllTimely(cfg, cs)
    ensures Swept(cfg, Run(cfg, cs))
  {
    hide Timely, Step;
    if cs != [] {
      RunSwept(cfg, cs[..|cs| - 1]);
      StepSwept(cfg, Run(cfg, cs[..|cs| - 1]), cs[|cs| - 1]);
    }
  }

  /** The flow of k, if open, was seen less than its timeout plus one sweep interval ago. */
  ghost predicate Fresh(cfg: Config, s: Tracker, k: Key) {
    k in s.live && s.live[k] != [] ==>
      var f := RecordOf(cfg, s.live[k]);
      s.clock - f.span.last < TimeoutFor(cfg, f) + cfg.sweepInterval
  }

  /** On a run of timely packets, in order or not, every open flow is fresh after every tracked update. */
  lemma TimelyRunsAreFresh(cfg: Config, cs: seq<Command>, k: Key)
    requires cs != [] && cs[|cs| - 1].Arrival? && AllTimely(cfg, cs)
    ensures Fresh(cfg, Run(cfg, cs), k)
  {
    hide AllTimely, Update;
    RunSwept(cfg, cs);
    SweepIsRecent(cfg, Run(cfg, cs[..|cs| - 1]), cs[|cs| - 1].p);
  }

  lemma NextLeavesOthers(cfg: Config, s: Tracker, k: Key, q: Packet)
    requires WellFormed(s) && s.lastSweep.Some? && k in s.live && |s.order| < cfg.maxActive
    requires KeyOf(q) != k && s.clock <= q.ts < s.lastSweep.value + cfg.sweepInterval
    ensures var t := Update(cfg, s, q); k in t.live && t.live[k] == s.live[k] && t.clock == q.ts
  {
    hide KeyOf, CutReason;
    ArriveClock(cfg, s, q);
  }

  /** The condition is exact: an open flow stays fresh through every update until the next sweep is due
      exactly when it had not timed out at the last one. */
  lemma FreshUntilSweptIffNotOverdue(cfg: Config, s: Tracker, k: Key)
    requires WellFormed(s) && s.lastSweep.Some? && s.clock - s.lastSweep.value < cfg.sweepInterval
    requires k in s.live && s.live[k] != [] && |s.order| < cfg.maxActive
    ensures !Expired(cfg, s.live[k], s.lastSweep.value)
            <==> forall q: Packet :: KeyOf(q) != k && s.clock <= q.ts < s.lastSweep.value + cfg.sweepInterval
                                     ==> Fresh(cfg, Update(cfg, s, q), k)
  {
    hide Update, WellFormed;
    var f := RecordOf(cfg, s.live[k]);
    forall q: Packet | KeyOf(q) != k && s.clock <= q.ts < s.lastSweep.value + cfg.sweepInterval
      ensures Fresh(cfg, Update(cfg, s, q), k) <==> q.ts - f.span.last < TimeoutFor(cfg, f) + cfg.sweepInterval
    {
      NextLeavesOthers(cfg, s, k, q);
    }
    if Expired(cfg, s.live[k], s.lastSweep.value) {
      var at := MaxR(s.clock, f.span.last + TimeoutFor(cfg, f) + cfg.sweepInterval);
      var e := Endpoint("", 0);
      var q := Packet(at, if k.protocol == UDP then TCP else UDP, e, e, {}, 0, 0, None);
      assert KeyOf(q) != k;
    }
  }

  // ---------------------------------------------------------------- runs in timestamp order

  /** Arrivals come in timestamp order and none before m; sweeps and flushes may stand anywhere. */
  predicate Ordered(cs: seq<Command>, m: real) {
    cs != [] ==>
      var last, before := cs[|cs| - 1], cs[..|cs| - 1];
      && Ordered(before, m)
      && (last.Arrival? ==> m <= last.p.ts && (Newest(before).Some? ==> Newest(before).value <= last.p.ts))
  }

  /** The clock starts at 0 and follows the newest packet. */
  lemma {:induction false} OrderedClock(cfg: Config, cs: seq<Command>, m: real)
    requires Ordered(cs, m)
    ensures Run(cfg, cs).clock == if Newest(cs).None? then 0.0 else MaxR(0.0, Newest(cs).value)
  {
    hide WellFormed, Sweep, Flush;
    if cs != [] {
      var before, last := cs[..|cs| - 1], cs[|cs| - 1];
      var s := Run(cfg, before);
      OrderedClock(cfg, before, m);
      match last
      case Arrival(p) => SweepIsRecent(cfg, s, p);
      case SweepAt(now) => SweepWellFormed(cfg, s, if now.Some? then now.value else s.clock);
      case FlushAll => FlushWellFormed(cfg, s);
    }
  }

  function MinTimeout(cfg: Config): real {
    MinR(MinR(cfg.udpIdle, cfg.tcpHandshake), MinR(cfg.tcpLinger, cfg.tcpIdle))
  }

  /** A packet no older than the least timeout before the clock is timely. */
  lemma RecentIsTimely(cfg: Config, s: Tracker, p: Packet)
    requires WellFormed(s) && s.clock - p.ts <= MinTimeout(cfg)
    ensures Timely(cfg, s, p)
  {
    ArriveWellFormed(cfg, s, p);
    ArriveClock(cfg, s, p);
    var h := Arrive(cfg, s, p).live[KeyOf(p)];
    RecordSpan(cfg, h);
    assert h[|h| - 1] == p;
  }

  lemma {:induction false} OrderedIsTimely(cfg: Config, cs: seq<Command>, m: real)
    requires Ordered(cs, m) && -MinTimeout(cfg) <= m
    ensures AllTimely(cfg, cs)
  {
    hide Timely, Step, Run;
    if cs != [] {
      var before, last := cs[..|cs| - 1], cs[|cs| - 1];
      OrderedIsTimely(cfg, before, m);
      if last.Arrival? {
        OrderedClock(cfg, before, m);
        RecentIsTimely(cfg, Run(cfg, before), last.p);
      }
    }
  }

  /** How far before time 0, where the clock starts, packets may lie. With room for one flow only, that
      flow is always the last packet's, so nothing outlives its own arrival. */
  predicate EarlyEnough(cfg: Config, m: real) {
    if cfg.maxActive == 1 then -m < MinTimeout(cfg) + cfg.sweepInterval else -m <= MinTimeout(cfg)
  }

  /** Bounded staleness: on a run in timestamp order, every open flow satisfies clock - last_seen <
      timeout + sweep_interval after every tracked update. */
  lemma OpenFlowsAreFresh(cfg: Config, cs: seq<Command>, m: real, k: Key)
    requires Ordered(cs, m) && EarlyEnough(cfg, m) && cs != [] && cs[|cs| - 1].Arrival?
    ensures Fresh(cfg, Run(cfg, cs), k)
  {
    if cfg.maxActive == 1 {
      OnlyFlowIsFresh(cfg, cs, m, k);
    } else {
      OrderedIsTimely(cfg, cs, m);
      TimelyRunsAreFresh(cfg, cs, k);
    }
  }

  /** A table with room for one flow holds the last packet's, or nothing. */
  lemma OnlyFlowIsTheLast(cfg: Config, s: Tracker, p: Packet)
    requires WellFormed(s) && cfg.maxActive == 1 && |s.order| <= 1
    ensures var t := Update(cfg, s, p);
            forall k :: k in t.live ==> t.live[k] != [] && t.live[k][|t.live[k]| - 1] == p
  {
    hide Arrive, KeyOf, Exportable;
    var t := Arrive(cfg, s, p);
    ArriveWellFormed(cfg, s, p);
    ArriveEndsWith(cfg, s, p);
    forall k | k in t.live
      ensures k == KeyOf(p)
    {
      assert k in t.order && KeyOf(p) in t.order;
    }
    SweepKeys(cfg, t, t.clock);
    ExportAllLive(cfg, t, ExpiredAmong(cfg, t.live, t.order, t.clock), false);
  }

  lemma ArriveEndsWith(cfg: Config, s: Tracker, p: Packet)
    requires WellFormed(s)
    ensures var t := Arrive(cfg, s, p);
            KeyOf(p) in t.live && t.live[KeyOf(p)] != [] && t.live[KeyOf(p)][|t.live[KeyOf(p)]| - 1] == p
  {
    hide KeyOf, WellFormed;
    ArriveWellFormed(cfg, s, p);
  }

  lemma OnlyFlowIsFresh(cfg: Config, cs: seq<Command>, m: real, k: Key)
    requires Ordered(cs, m) && cfg.maxActive == 1 && EarlyEnough(cfg, m) && cs != [] && cs[|cs| - 1].Arrival?
    ensures Fresh(cfg, Run(cfg, cs), k)
  {
    hide Update, WellFormed;
    var before, p := cs[..|cs| - 1], cs[|cs| - 1].p;
    CapacityIsRespected(cfg, before);
    OrderedClock(cfg, before, m);
    SweepIsRecent(cfg, Run(cfg, before), p);
    OnlyFlowIsTheLast(cfg, Run(cfg, before), p);
    if k in Run(cfg, cs).live {
      RecordSpan(cfg, Run(cfg, cs).live[k]);
    }
  }

  /** A first packet at m whose flow has the least timeout there is. */
  lemma ShortestLived(cfg: Config, m: real) returns (p: Packet)
    ensures p.ts == m && TimeoutFor(cfg, RecordOf(cfg, [p])) == MinTimeout(cfg) && RecordOf(cfg, [p]).span.last == m
  {
    var e := Endpoint("", 0);
    var least := MinTimeout(cfg);
    if least == cfg.udpIdle {
      p := Packet(m, UDP, e, e, {}, 0, 0, None);
    } else {
      var flag := if least == cfg.tcpHandshake then SYN else if least == cfg.tcpLinger then RST else ACK;
      p := Packet(m, TCP, e, e, {flag}, 0, 0, None);
    }
  }

  /** With room for two flows, a second packet finds the first one's flow stale. */
  lemma SecondPacketSeesIt(cfg: Config, p: Packet) returns (q: Packet)
    requires cfg.maxActive > 1 && p.ts < 0.0 && Expired(cfg, [p], 0.0)
    ensures 0.0 <= q.ts && !Fresh(cfg, Update(cfg, Run(cfg, [Arrival(p)]), q), KeyOf(p))
  {
    hide Update, Fresh, Expired, KeyOf, Run;
    FirstPacket(cfg, p);
    var s, k := Run(cfg, [Arrival(p)]), KeyOf(p);
    FreshUntilSweptIffNotOverdue(cfg, s, k);
    q :| KeyOf(q) != k && s.clock <= q.ts < s.lastSweep.value + cfg.sweepInterval && !Fresh(cfg, Update(cfg, s, q), k);
  }

  lemma TwoInOrder(cfg: Config, p: Packet, q: Packet)
    requires p.ts <= q.ts
    ensures Ordered([Arrival(p)], p.ts) && Ordered([Arrival(p), Arrival(q)], p.ts)
    ensures Run(cfg, [Arrival(p), Arrival(q)]) == Update(cfg, Run(cfg, [Arrival(p)]), q)
  {
    hide Update;
    assert [Arrival(p)][..0] == [] && [Arrival(p), Arrival(q)][..1] == [Arrival(p)];
    assert Run(cfg, [Arrival(p), Arrival(q)]) == Step(cfg, Run(cfg, [Arrival(p)]), Arrival(q));
  }

  /** Packets further before time 0 break the bound, with one packet or two. */
  lemma TooEarlyGoesStale(cfg: Config, m: real) returns (cs: seq<Command>, k: Key)
    requires !EarlyEnough(cfg, m)
    ensures Ordered(cs, m) && cs != [] && cs[|cs| - 1].Arrival? && !Fresh(cfg, Run(cfg, cs), k)
  {
    hide Ordered, Update, Run;
    var p := ShortestLived(cfg, m);
    k := KeyOf(p);
    if cfg.maxActive > 1 {
      var q := SecondPacketSeesIt(cfg, p);
      TwoInOrder(cfg, p, q);
      cs := [Arrival(p), Arrival(q)];
    } else {
      TwoInOrder(cfg, p, p);
      FirstPacket(cfg, p);
      cs := [Arrival(p)];
    }
  }

  /** The condition is exact: for packets from m on, in timestamp order, the bound holds on every run
      exactly when m is early enough. */
  lemma OpenFlowsAreFreshIffEarlyEnough(cfg: Config, m: real)
    ensures EarlyEnough(cfg, m)
            <==> forall cs: seq<Command>, k :: Ordered(cs, m) && cs != [] && cs[|cs| - 1].Arrival? ==>
                Fresh(cfg, Run(cfg, cs), k)
  {
    hide EarlyEnough, Ordered, Fresh, Run;
    if EarlyEnough(cfg, m) {
      forall cs: seq<Command>, k | Ordered(cs, m) && cs != [] && cs[|cs| - 1].Arrival?
        ensures Fresh(cfg, Run(cfg, cs), k)
      {
        OpenFlowsAreFresh(cfg, cs, m, k);
      }
    } else {
      var cs, k := TooEarlyGoesStale(cfg, m);
    }
  }
}

/** What a run does to a key, read off its commands alone: when sweeps run, which flows they take, and
    so exactly when every packet is given the flow that lazy expiry alone would give it. */
module FlowInputs {
  import opened Common
  import opened FlowKey
  import opened FlowRecord
  import opened FlowHistories
  import opened FlowRuns
  import opened FlowSplitting

  // ---------------------------------------------------------------- the clock and the sweeps

  /** The newest timestamp, from 0 on. */
  function Clock(cs: seq<Command>): real {
    if cs == [] then 0.0
    else
      var last, before := cs[|cs| - 1], Clock(cs[..|cs| - 1]);
      if last.Arrival? then MaxR(before, last.p.ts) else before
  }

  /** The time the last command of cs sweeps at, if it does, when the last sweep before it was `prev`. */
  function SweepTime(cfg: Config, cs: seq<Command>, prev: Option<real>): Option<real>
    requires cs != []
  {
    match cs[|cs| - 1]
    case Arrival(_) => if prev.Some? && Clock(cs) - prev.value >= cfg.sweepInterval then Some(Clock(cs)) else None
    case SweepAt(now) => if now.Some? then now else Some(Clock(cs))
    case FlushAll => None
  }

  function LastSweep(cfg: Config, cs: seq<Command>): Option<real> {
    if cs == [] then None
    else
      var prev := LastSweep(cfg, cs[..|cs| - 1]);
      var at := SweepTime(cfg, cs, prev);
      if at.Some? then Some(MinR(at.value, Clock(cs)))
      else if cs[|cs| - 1].Arrival? && prev.None? then Some(Clock(cs))
      else prev
  }

  /** The time the last command of cs sweeps at, if it does. */
  function Sweeps(cfg: Config, cs: seq<Command>): Option<real>
    requires cs != []
  {
    SweepTime(cfg, cs, LastSweep(cfg, cs[..|cs| - 1]))
  }

  lemma ArrivalSweeps(cfg: Config, s: Tracker, p: Packet)
    requires WellFormed(s)
    ensures var t := Arrive(cfg, s, p);
            && WellFormed(t) && t.clock == MaxR(s.clock, p.ts) && t.lastSweep == s.lastSweep
            && Update(cfg, s, p).clock == t.clock
            && if s.lastSweep.Some? && t.clock - s.lastSweep.value >= cfg.sweepInterval then
                 Update(cfg, s, p) == Sweep(cfg, t, t.clock) && Update(cfg, s, p).lastSweep == Some(t.clock)
               else
                 && Update(cfg, s, p) == Tick(cfg, t) && Update(cfg, s, p).live == t.live
                 && Update(cfg, s, p).lastSweep == if s.lastSweep.None? then Some(t.clock) else s.lastSweep
  {
    hide WellFormed, Sweep, Arrive;
    ArriveWellFormed(cfg, s, p);
    FlowDiscipline.ArriveClock(cfg, s, p);
    var t := Arrive(cfg, s, p);
    SweepClock(cfg, t, t.clock);
  }

  /** The sweeps of a run depend on its commands alone, not on what is in the table. */
  lemma {:induction false} TimesAreTheInputs(cfg: Config, cs: seq<Command>)
    ensures Run(cfg, cs).clock == Clock(cs) && Run(cfg, cs).lastSweep == LastSweep(cfg, cs)
  {
    hide WellFormed, Sweep, Flush, Update, Arrive, Tick;
    if cs != [] {
      var before, last := cs[..|cs| - 1], cs[|cs| - 1];
      var s := Run(cfg, before);
      TimesAreTheInputs(cfg, before);
      match last
      case Arrival(p) => ArrivalSweeps(cfg, s, p);
      case SweepAt(now) => SweepClock(cfg, s, if now.Some? then now.value else s.clock);
      case FlushAll => FlushTimes(cfg, s);
    }
  }

  lemma FlushTimes(cfg: Config, s: Tracker)
    requires WellFormed(s)
    ensures Flush(cfg, s).clock == s.clock && Flush(cfg, s).lastSweep == s.lastSweep
    ensures Flush(cfg, s).live == map[] && s.exported <= Flush(cfg, s).exported
  {
    SweepKeys(cfg, s, s.clock);
    ExportAllWellFormed(cfg, s, s.order, true);
    ExportAllLive(cfg, s, s.order, true);
    ExportAllLog(cfg, s, s.order, true);
  }

  // ---------------------------------------------------------------- which flows are open

  /** The walk's flow of key k is open and no sweep or flush since the key's last packet took it. */
  predicate Kept(cfg: Config, cs: seq<Command>, k: Key) {
    cs != [] &&
      var last, ps := cs[|cs| - 1], PacketsOf(cs, k);
      && !last.FlushAll? && ps != []
      && ((last.Arrival? && KeyOf(last.p) == k) || Kept(cfg, cs[..|cs| - 1], k))
      && (Sweeps(cfg, cs).Some? ==> !Expired(cfg, SplitOf(cfg, ps).open, Sweeps(cfg, cs).value))
  }

  /** A sweep keeps exactly the open flows that have not timed out. */
  lemma SweepKeeps(cfg: Config, s: Tracker, at: real, k: Key)
    requires WellFormed(s)
    ensures var t := Sweep(cfg, s, at);
            && (k in t.live <==> k in s.live && s.live[k] != [] && !Expired(cfg, s.live[k], at))
            && s.exported <= t.exported
  {
    SweepKeys(cfg, s, at);
    ExportAllLive(cfg, s, ExpiredAmong(cfg, s.live, s.order, at), false);
    SweepLogGrows(cfg, s, at);
  }

  lemma AnyLogGrows(cfg: Config, s: Tracker, c: Command)
    requires WellFormed(s)
    ensures s.exported <= Step(cfg, s, c).exported
    ensures c.Arrival? ==> Arrive(cfg, s, c.p).exported <= Step(cfg, s, c).exported
  {
    hide WellFormed, Sweep, Flush, Update, Arrive;
    if c.FlushAll? {
      FlushTimes(cfg, s);
    } else {
      LogGrows(cfg, s, c);
      if c.Arrival? {
        UpdateLogGrows(cfg, s, c.p);
      }
    }
  }

  /** Without an eviction an arrival leaves its own key's flow and every other open one. */
  lemma ArriveOpens(cfg: Config, s: Tracker, p: Packet, k: Key)
    requires WellFormed(s) && NoEviction(Arrive(cfg, s, p).exported)
    ensures k in Arrive(cfg, s, p).live <==> k == KeyOf(p) || k in s.live
  {
    hide KeyOf, CutReason, WellFormed;
    NoEvictionMeansRoom(cfg, s, p);
  }

  /** ... and the open flow of k is the walk's again, before any sweep. */
  lemma ArriveIsWalk(cfg: Config, before: seq<Command>, p: Packet, k: Key)
    requires NoEviction(Arrive(cfg, Run(cfg, before), p).exported)
    requires OpenAgrees(cfg, Run(cfg, before), k, PacketsOf(before, k))
    requires SameFlow(cfg, Run(cfg, before), p, PacketsOf(before, KeyOf(p)))
    ensures var t, ps := Arrive(cfg, Run(cfg, before), p), PacketsOf(before + [Arrival(p)], k);
            && (k in t.live <==> k == KeyOf(p) || k in Run(cfg, before).live)
            && (k in t.live ==> ps != [] && t.live[k] == SplitOf(cfg, ps).open)
  {
    hide KeyOf, Arrive, WellFormed, SplitOf, Run, CutReason;
    var cs, s := before + [Arrival(p)], Run(cfg, before);
    assert cs[..|before|] == before;
    ArriveOpens(cfg, s, p, k);
    ArriveFlow(cfg, s, p);
    assert PacketsOf(before, k) + [] == PacketsOf(before, k);
  }

  /** What a sweep by the last command, or none, leaves of the flows in t. */
  lemma SweptOrNot(cfg: Config, before: seq<Command>, c: Command, k: Key)
    requires !c.FlushAll?
    ensures var s, cs := Run(cfg, before), before + [c];
            var t := if c.Arrival? then Arrive(cfg, s, c.p) else s;
            && Run(cfg, cs) == Step(cfg, s, c)
            && (k in Run(cfg, cs).live
                <==> k in t.live && t.live[k] != []
                     && (Sweeps(cfg, cs).Some? ==> !Expired(cfg, t.live[k], Sweeps(cfg, cs).value)))
  {
    hide WellFormed, Sweep, Flush, Update, Arrive, Tick, Expired, Clock, LastSweep;
    var s, cs := Run(cfg, before), before + [c];
    assert cs[..|before|] == before;
    TimesAreTheInputs(cfg, before);
    TimesAreTheInputs(cfg, cs);
    if c.Arrival? {
      ArrivalSweeps(cfg, s, c.p);
      var t := Arrive(cfg, s, c.p);
      SweepKeeps(cfg, t, t.clock, k);
      OpenHasPackets(t, k);
    } else {
      var at := if c.now.Some? then c.now.value else s.clock;
      SweepKeeps(cfg, s, at, k);
      SweepClock(cfg, s, at);
    }
  }

  lemma OpenHasPackets(s: Tracker, k: Key)
    requires WellFormed(s)
    ensures k in s.live ==> s.live[k] != []
  {
  }

  lemma OpenStep(cfg: Config, before: seq<Command>, c: Command, k: Key)
    requires NoEviction(Run(cfg, before + [c]).exported)
    requires OpenAgrees(cfg, Run(cfg, before), k, PacketsOf(before, k))
    requires c.Arrival? ==> SameFlow(cfg, Run(cfg, before), c.p, PacketsOf(before, KeyOf(c.p)))
    requires k in Run(cfg, before).live <==> Kept(cfg, before, k)
    ensures k in Run(cfg, before + [c]).live <==> Kept(cfg, before + [c], k)
  {
    hide KeyOf, Arrive, Step, WellFormed, SplitOf, Sweeps, Expired, SameFlow;
    var cs := before + [c];
    assert cs[..|before|] == before;
    AnyLogGrows(cfg, Run(cfg, before), c);
    assert PacketsOf(before, k) + [] == PacketsOf(before, k);
    if c.FlushAll? {
      FlushLeavesNothing(cfg, before);
    } else {
      SweptOrNot(cfg, before, c, k);
      if c.Arrival? {
        ArriveIsWalk(cfg, before, c.p, k);
      }
    }
  }

  lemma FlushLeavesNothing(cfg: Config, before: seq<Command>)
    ensures Run(cfg, before + [FlushAll]).live == map[]
  {
    hide WellFormed, Flush;
    assert (before + [FlushAll])[..|before|] == before;
    FlushTimes(cfg, Run(cfg, before));
  }

  /** As long as every packet got the walk's flow, a flow is open exactly when the commands say so. */
  lemma {:induction false} OpenIsKept(cfg: Config, cs: seq<Command>, k: Key)
    requires AllSameFlow(cfg, cs) && NoEviction(Run(cfg, cs).exported)
    ensures k in Run(cfg, cs).live <==> Kept(cfg, cs, k)
  {
    hide Kept, SameFlow, Step, OpenAgrees;
    if cs == [] {
      NothingKept(cfg, k);
    } else {
      var before, c := cs[..|cs| - 1], cs[|cs| - 1];
      assert cs == before + [c];
      AnyLogGrows(cfg, Run(cfg, before), c);
      OpenIsKept(cfg, before, k);
      SameFlowsAgree(cfg, before, k);
      OpenStep(cfg, before, c, k);
    }
  }

  lemma NothingKept(cfg: Config, k: Key)
    ensures k !in Run(cfg, []).live && !Kept(cfg, [], k)
  {
  }

  // ---------------------------------------------------------------- the exact condition on the input

  /** No sweep or flush since the last packet of p's key took the flow, or p ends it anyway. */
  predicate Joins(cfg: Config, cs: seq<Command>, p: Packet) {
    var ps := PacketsOf(cs, KeyOf(p));
    ps == [] || Kept(cfg, cs, KeyOf(p)) || CutReason(cfg, SplitOf(cfg, ps).open, p).Some?
  }

  predicate AllJoin(cfg: Config, cs: seq<Command>) {
    cs != [] ==>
      var last, before := cs[|cs| - 1], cs[..|cs| - 1];
      AllJoin(cfg, before) && (last.Arrival? ==> Joins(cfg, before, last.p))
  }

  /** On a run without evictions, in any order of timestamps and with sweeps and flushes anywhere, every
      packet is given the walk's flow exactly when no sweep or flush takes a flow that its key's next
      packet would have continued, which the timestamps and the key's own packets decide. */
  lemma {:induction false} SameFlowsIffAllJoin(cfg: Config, cs: seq<Command>)
    requires NoEviction(Run(cfg, cs).exported)
    ensures AllSameFlow(cfg, cs) <==> AllJoin(cfg, cs)
  {
    hide Kept, SameFlow, Step, OpenAgrees, KeyOf, CutReason, SplitOf;
    if cs != [] {
      var before, c := cs[..|cs| - 1], cs[|cs| - 1];
      AnyLogGrows(cfg, Run(cfg, before), c);
      SameFlowsIffAllJoin(cfg, before);
      if AllSameFlow(cfg, before) && c.Arrival? {
        var k := KeyOf(c.p);
        OpenIsKept(cfg, before, k);
        SameFlowsAgree(cfg, before, k);
        SameFlowIffUnharmed(cfg, Run(cfg, before), c.p, PacketsOf(before, k));
      }
    }
  }

  // ---------------------------------------------------------------- when nothing is evicted

  function KeysOf(cs: seq<Command>): set<Key> {
    set i | 0 <= i < |cs| && cs[i].Arrival? :: KeyOf(cs[i].p)
  }

  lemma {:induction false} OnlyOwnPackets(cs: seq<Command>, k: Key)
    ensures PacketsOf(cs, k) != [] ==> k in KeysOf(cs)
  {
    hide KeyOf;
    if cs != [] {
      var before, last := cs[..|cs| - 1], cs[|cs| - 1];
      OnlyOwnPackets(before, k);
      if last.Arrival? && KeyOf(last.p) == k {
        assert cs[|cs| - 1] == last;
      } else if k in KeysOf(before) {
        var i :| 0 <= i < |before| && before[i].Arrival? && KeyOf(before[i].p) == k;
        assert cs[i] == before[i];
      }
    }
  }

  /** Every open flow has packets of its key among the input. */
  lemma OpenKeysArrived(cfg: Config, cs: seq<Command>, k: Key)
    ensures k in Run(cfg, cs).order ==> k in KeysOf(cs)
  {
    hide KeysOf;
    InputIsPartitioned(cfg, cs, k);
    OnlyOwnPackets(cs, k);
  }

  lemma {:induction false} NoMoreThan(order: seq<Key>, ks: set<Key>)
    requires NoDup(order) && forall k :: k in order ==> k in ks
    ensures |order| <= |ks|
  {
    if order != [] {
      var rest := order[1..];
      forall k | k in rest
        ensures k in ks - {order[0]}
      {
        var i :| 0 <= i < |rest| && rest[i] == k;
        assert order[i + 1] == k;
      }
      NoMoreThan(rest, ks - {order[0]});
    }
  }

  /** A packet of a key without a flow finds room as long as the keys so far, its own included, fit. */
  lemma NewKeyFindsRoom(cfg: Config, before: seq<Command>, p: Packet)
    requires |KeysOf(before + [Arrival(p)])| <= cfg.maxActive && KeyOf(p) !in Run(cfg, before).live
    ensures |Run(cfg, before).order| < cfg.maxActive
  {
    hide KeyOf, Run;
    var cs, s := before + [Arrival(p)], Run(cfg, before);
    var order := s.order + [KeyOf(p)];
    assert KeyOf(p) in KeysOf(cs) by {
      assert cs[|before|] == Arrival(p);
    }
    forall k | k in s.order
      ensures k in KeysOf(cs)
    {
      OpenKeysArrived(cfg, before, k);
      var i :| 0 <= i < |before| && before[i].Arrival? && KeyOf(before[i].p) == k;
      assert cs[i] == before[i];
    }
    NoMoreThan(order, KeysOf(cs));
  }

  lemma ArriveEvictsNone(cfg: Config, s: Tracker, p: Packet)
    requires WellFormed(s) && NoEviction(s.exported) && |s.order| <= cfg.maxActive
    requires KeyOf(p) in s.live || |s.order| < cfg.maxActive
    ensures NoEviction(Arrive(cfg, s, p).exported)
  {
    hide KeyOf, Expired, RecordOf;
    var w, k := Watermark(s, p), KeyOf(p);
    if k in w.live && CutReason(cfg, w.live[k], p).Some? {
      ExportWellFormed(w, k, CutReason(cfg, w.live[k], p).value);
    }
  }

  lemma BulkEvictsNone(cfg: Config, s: Tracker, ks: seq<Key>, flushing: bool)
    requires Exportable(s, ks) && NoEviction(s.exported)
    ensures NoEviction(ExportAll(cfg, s, ks, flushing).exported)
  {
    hide RecordOf;
    ExportAllLog(cfg, s, ks, flushing);
  }

  lemma StepEvictsNone(cfg: Config, s: Tracker, c: Command)
    requires WellFormed(s) && NoEviction(s.exported)
    requires c.Arrival? ==> NoEviction(Arrive(cfg, s, c.p).exported)
    ensures NoEviction(Step(cfg, s, c).exported)
  {
    hide WellFormed, Arrive, NoEviction, Exportable, ExpiredAmong;
    var t := if c.Arrival? then Arrive(cfg, s, c.p) else s;
    if c.Arrival? {
      ArriveWellFormed(cfg, s, c.p);
    }
    var at := if c.SweepAt? && c.now.Some? then c.now.value else t.clock;
    SweepKeys(cfg, t, at);
    BulkEvictsNone(cfg, t, ExpiredAmong(cfg, t.live, t.order, at), false);
    BulkEvictsNone(cfg, t, t.order, true);
  }

  lemma FewerKeys(before: seq<Command>, c: Command)
    ensures KeysOf(before) <= KeysOf(before + [c]) && |KeysOf(before)| <= |KeysOf(before + [c])|
  {
    hide KeyOf;
    var cs := before + [c];
    forall k | k in KeysOf(before)
      ensures k in KeysOf(cs)
    {
      var i :| 0 <= i < |before| && before[i].Arrival? && KeyOf(before[i].p) == k;
      assert cs[i] == before[i];
    }
    assert KeysOf(cs) == KeysOf(before) + (KeysOf(cs) - KeysOf(before));
  }

  /** A run whose packets have no more distinct keys than the table has places evicts nothing. */
  lemma {:induction false} FewKeysAreNotEvicted(cfg: Config, cs: seq<Command>)
    requires |KeysOf(cs)| <= cfg.maxActive
    ensures NoEviction(Run(cfg, cs).exported)
  {
    hide KeysOf, Step, KeyOf, Arrive;
    if cs != [] {
      var before, c := cs[..|cs| - 1], cs[|cs| - 1];
      assert cs == before + [c];
      FewerKeys(before, c);
      FewKeysAreNotEvicted(cfg, before);
      if c.Arrival? {
        FlowDiscipline.CapacityIsRespected(cfg, before);
        if KeyOf(c.p) !in Run(cfg, before).live {
          NewKeyFindsRoom(cfg, before, c.p);
        }
        ArriveEvictsNone(cfg, Run(cfg, before), c.p);
      }
      StepEvictsNone(cfg, Run(cfg, before), c);
    }
  }
}

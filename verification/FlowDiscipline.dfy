/** Whole runs of the tracker: exports happen once, evictions are least recently used, sweeps are on time. */
module FlowDiscipline {
  import opened FlowKey
  import opened FlowRecord
  import opened FlowHistories
  import opened FlowRuns

  // ---------------------------------------------------------------- the table never grows past its capacity

  lemma StepSize(cfg: Config, s: Tracker, c: Command)
    requires WellFormed(s) && |s.order| <= cfg.maxActive
    ensures |Step(cfg, s, c).order| <= cfg.maxActive
  {
    hide WellFormed, Sweep, Flush, Arrive;
    match c
    case Arrival(p) =>
      ArriveWellFormed(cfg, s, p);
      var t := Arrive(cfg, s, p);
      SweepWellFormed(cfg, t, t.clock);
    case SweepAt(now) => SweepWellFormed(cfg, s, if now.Some? then now.value else s.clock);
    case FlushAll => FlushWellFormed(cfg, s);
  }

  lemma {:induction false} CapacityIsRespected(cfg: Config, cs: seq<Command>)
    ensures |Run(cfg, cs).order| <= cfg.maxActive
  {
    if cs != [] {
      CapacityIsRespected(cfg, cs[..|cs| - 1]);
      StepSize(cfg, Run(cfg, cs[..|cs| - 1]), cs[|cs| - 1]);
    }
  }

  // ---------------------------------------------------------------- every flow is exported exactly once

  /** The packet opens a flow: after the lazy close its key has none. */
  ghost predicate Creates(cfg: Config, s: Tracker, p: Packet)
    requires WellFormed(s)
  {
    KeyOf(p) !in Cut(cfg, Watermark(s, p), p).live
  }

  /** Number of flows a run creates. */
  ghost function Created(cfg: Config, cs: seq<Command>): nat {
    if cs == [] then 0
    else
      var last := cs[|cs| - 1];
      Created(cfg, cs[..|cs| - 1]) + One(last.Arrival? && Creates(cfg, Run(cfg, cs[..|cs| - 1]), last.p))
  }

  function Flows(s: Tracker): nat { |s.exported| + |s.order| }

  lemma ExportKeepsFlows(s: Tracker, k: Key, reason: CloseReason)
    requires WellFormed(s) && k in s.live
    ensures Flows(Export(s, k, reason)) == Flows(s)
  {
    ExportWellFormed(s, k, reason);
  }

  lemma ExportAllKeepsFlows(cfg: Config, s: Tracker, ks: seq<Key>, flushing: bool)
    requires WellFormed(s) && Exportable(s, ks)
    ensures Flows(ExportAll(cfg, s, ks, flushing)) == Flows(s)
  {
    ExportAllWellFormed(cfg, s, ks, flushing);
    ExportAllLog(cfg, s, ks, flushing);
  }

  lemma SweepKeepsFlows(cfg: Config, s: Tracker, now: real)
    requires WellFormed(s)
    ensures Flows(Sweep(cfg, s, now)) == Flows(s)
  {
    SweepKeys(cfg, s, now);
    ExportAllKeepsFlows(cfg, s, ExpiredAmong(cfg, s.live, s.order, now), false);
  }

  lemma ArriveFlows(cfg: Config, s: Tracker, p: Packet)
    requires WellFormed(s)
    ensures Flows(Arrive(cfg, s, p)) == Flows(s) + One(Creates(cfg, s, p))
  {
    var now := Watermark(s, p);
    var j := KeyOf(p);
    if j in now.live && CutReason(cfg, now.live[j], p).Some? {
      ExportKeepsFlows(now, j, CutReason(cfg, now.live[j], p).value);
    }
    var cut := Cut(cfg, now, p);
    assert Flows(cut) == Flows(s);
    if j in cut.live {
      PutWellFormed(cut, p);
    } else {
      MakeRoomWellFormed(cfg, cut);
      PutWellFormed(MakeRoom(cfg, cut), p);
      if |cut.order| >= cfg.maxActive {
        assert cut.order[0] in cut.order;
        ExportKeepsFlows(cut, cut.order[0], Evicted);
      }
    }
  }

  lemma StepFlows(cfg: Config, s: Tracker, c: Command)
    requires WellFormed(s)
    ensures Flows(Step(cfg, s, c)) == Flows(s) + One(c.Arrival? && Creates(cfg, s, c.p))
  {
    hide WellFormed, Sweep, Arrive, Creates;
    match c
    case Arrival(p) =>
      ArriveWellFormed(cfg, s, p);
      ArriveFlows(cfg, s, p);
      var t := Arrive(cfg, s, p);
      SweepKeepsFlows(cfg, t, t.clock);
    case SweepAt(now) => SweepKeepsFlows(cfg, s, if now.Some? then now.value else s.clock);
    case FlushAll =>
      SweepKeys(cfg, s, s.clock);
      ExportAllKeepsFlows(cfg, s, s.order, true);
  }

  /** At every moment the flows created so far are the exported ones and the open ones, each once. */
  lemma {:induction false} CreatedIsExportedPlusOpen(cfg: Config, cs: seq<Command>)
    ensures |Run(cfg, cs).exported| + |Run(cfg, cs).order| == Created(cfg, cs)
  {
    if cs != [] {
      CreatedIsExportedPlusOpen(cfg, cs[..|cs| - 1]);
      StepFlows(cfg, Run(cfg, cs[..|cs| - 1]), cs[|cs| - 1]);
    }
  }

  /** After a flush the table is empty and every flow ever created has been exported exactly once;
      the flush itself exports the open flows oldest first. */
  lemma FlushExportsTheRest(cfg: Config, cs: seq<Command>)
    ensures var before, after := Run(cfg, cs), Run(cfg, cs + [FlushAll]);
            && after.order == [] && after.live == map[]
            && |after.exported| == Created(cfg, cs)
            && after.exported == before.exported + Closing(cfg, before.live, before.order, true)
  {
    var all := cs + [FlushAll];
    var s := Run(cfg, cs);
    assert all[..|all| - 1] == cs;
    CreatedIsExportedPlusOpen(cfg, all);
    SweepKeys(cfg, s, s.clock);
    FlushWellFormed(cfg, s);
    ExportAllLive(cfg, s, s.order, true);
    ExportAllLog(cfg, s, s.order, true);
  }

  // ---------------------------------------------------------------- least recently used

  /** Index of the last command that touched key k, or -1. */
  function LastTouch(cs: seq<Command>, k: Key): int {
    if cs == [] then -1
    else if cs[|cs| - 1].Arrival? && KeyOf(cs[|cs| - 1].p) == k then |cs| - 1
    else LastTouch(cs[..|cs| - 1], k)
  }

  lemma {:induction false} LastTouchBound(cs: seq<Command>, k: Key)
    ensures -1 <= LastTouch(cs, k) < |cs|
  {
    if cs != [] {
      LastTouchBound(cs[..|cs| - 1], k);
    }
  }

  ghost predicate OldestFirst(cs: seq<Command>, order: seq<Key>) {
    forall i, j :: 0 <= i < j < |order| ==> LastTouch(cs, order[i]) < LastTouch(cs, order[j])
  }

  lemma {:induction false} WithoutOldestFirst(cs: seq<Command>, order: seq<Key>, k: Key)
    requires OldestFirst(cs, order)
    ensures OldestFirst(cs, Without(order, k))
  {
    if order != [] {
      assert OldestFirst(cs, order[1..]) by {
        forall i, j | 0 <= i < j < |order[1..]|
          ensures LastTouch(cs, order[1..][i]) < LastTouch(cs, order[1..][j])
        {
          assert order[1..][i] == order[i + 1] && order[1..][j] == order[j + 1];
        }
      }
      WithoutOldestFirst(cs, order[1..], k);
      var rest := Without(order[1..], k);
      forall x | x in rest
        ensures LastTouch(cs, order[0]) < LastTouch(cs, x)
      {
        var i :| 0 <= i < |order[1..]| && order[1..][i] == x;
        assert x == order[i + 1];
      }
    }
  }

  lemma {:induction false} ExportAllOldestFirst(cfg: Config, cs: seq<Command>, s: Tracker, ks: seq<Key>, flushing: bool)
    requires Exportable(s, ks) && OldestFirst(cs, s.order)
    ensures OldestFirst(cs, ExportAll(cfg, s, ks, flushing).order)
    decreases |ks|
  {
    if ks != [] {
      var reason := ReasonFor(cfg, s.live[ks[0]], flushing);
      WithoutOldestFirst(cs, s.order, ks[0]);
      ExportKeepsExportable(s, ks, reason);
      ExportAllOldestFirst(cfg, cs, Export(s, ks[0], reason), ks[1..], flushing);
    }
  }

  lemma SweepOldestFirst(cfg: Config, cs: seq<Command>, s: Tracker, now: real)
    requires WellFormed(s) && OldestFirst(cs, s.order)
    ensures OldestFirst(cs, Sweep(cfg, s, now).order)
  {
    SweepKeys(cfg, s, now);
    ExportAllOldestFirst(cfg, cs, s, ExpiredAmong(cfg, s.live, s.order, now), false);
  }

  lemma PutOldestFirst(cs: seq<Command>, s: Tracker, p: Packet)
    requires OldestFirst(cs, s.order)
    ensures OldestFirst(cs + [Arrival(p)], Put(s, p).order)
  {
    hide KeyOf;
    var k := KeyOf(p);
    WithoutOldestFirst(cs, s.order, k);
    var rest := Without(s.order, k);
    var all := cs + [Arrival(p)];
    assert all[..|all| - 1] == cs;
    forall x | x in rest
      ensures LastTouch(all, x) == LastTouch(cs, x) < LastTouch(all, k)
    {
      LastTouchBound(cs, x);
    }
  }

  lemma ArriveOldestFirst(cfg: Config, cs: seq<Command>, s: Tracker, p: Packet)
    requires WellFormed(s) && OldestFirst(cs, s.order)
    ensures OldestFirst(cs + [Arrival(p)], Arrive(cfg, s, p).order)
  {
    var cut := Cut(cfg, Watermark(s, p), p);
    WithoutOldestFirst(cs, s.order, KeyOf(p));
    if KeyOf(p) in cut.live {
      PutOldestFirst(cs, cut, p);
    } else {
      if |cut.order| >= cfg.maxActive {
        WithoutOldestFirst(cs, cut.order, cut.order[0]);
      }
      PutOldestFirst(cs, MakeRoom(cfg, cut), p);
    }
  }

  lemma StepOldestFirst(cfg: Config, before: seq<Command>, s: Tracker, c: Command)
    requires WellFormed(s) && OldestFirst(before, s.order)
    ensures OldestFirst(before + [c], Step(cfg, s, c).order)
  {
    hide OldestFirst, Arrive, Sweep, WellFormed;
    match c
    case Arrival(p) =>
      var t := Arrive(cfg, s, p);
      ArriveOldestFirst(cfg, before, s, p);
      ArriveWellFormed(cfg, s, p);
      SweepOldestFirst(cfg, before + [c], t, t.clock);
    case SweepAt(now) =>
      var at := if now.Some? then now.value else s.clock;
      SweepOldestFirst(cfg, before, s, at);
      SweepWellFormed(cfg, s, at);
      UntouchedOldestFirst(before, c, Sweep(cfg, s, at).order);
    case FlushAll =>
      FlushWellFormed(cfg, s);
      EmptyOldestFirst(before + [c]);
  }

  lemma EmptyOldestFirst(cs: seq<Command>)
    ensures OldestFirst(cs, [])
  {
  }

  lemma UntouchedOldestFirst(cs: seq<Command>, c: Command, order: seq<Key>)
    requires OldestFirst(cs, order) && !c.Arrival?
    ensures OldestFirst(cs + [c], order)
  {
    assert (cs + [c])[..|cs|] == cs;
  }

  /** The table order is always the order of last touch. */
  lemma {:induction false} OrderIsLastTouch(cfg: Config, cs: seq<Command>)
    ensures OldestFirst(cs, Run(cfg, cs).order)
  {
    hide OldestFirst, Step;
    if cs == [] {
      EmptyOldestFirst(cs);
    } else {
      var before, c := cs[..|cs| - 1], cs[|cs| - 1];
      assert cs == before + [c];
      OrderIsLastTouch(cfg, before);
      StepOldestFirst(cfg, before, Run(cfg, before), c);
    }
  }

  /** Before its periodic sweep an update exports at most one flow: the packet's own, timed out or
      reused, or, when the table is full and the packet's key is new, the least recently touched. */
  lemma UpdateExportsAtMostOne(cfg: Config, cs: seq<Command>, p: Packet)
    ensures var s := Run(cfg, cs);
            var k := KeyOf(p);
            var t := Arrive(cfg, s, p);
            || t.exported == s.exported
            || (k in s.live && CutReason(cfg, s.live[k], p).Some?
                && t.exported == s.exported + [Segment(s.live[k], CutReason(cfg, s.live[k], p).value)])
            || (k !in s.live && |s.order| == cfg.maxActive
                && t.exported == s.exported + [Segment(s.live[s.order[0]], Evicted)]
                && forall j :: j in s.live && j != s.order[0] ==> LastTouch(cs, s.order[0]) < LastTouch(cs, j))
  {
    var s := Run(cfg, cs);
    CapacityIsRespected(cfg, cs);
    OrderIsLastTouch(cfg, cs);
    var now := Watermark(s, p);
    var k := KeyOf(p);
    if k in s.live && CutReason(cfg, s.live[k], p).Some? {
      ExportWellFormed(now, k, CutReason(cfg, s.live[k], p).value);
    } else if k !in s.live && |s.order| == cfg.maxActive {
      forall j | j in s.live && j != s.order[0]
        ensures LastTouch(cs, s.order[0]) < LastTouch(cs, j)
      {
        assert j in s.order;
      }
    }
  }

  // ---------------------------------------------------------------- sweeps are on time

  /** After every tracked update the last sweep is less than one interval behind the clock. */
  lemma SweepIsRecent(cfg: Config, s: Tracker, p: Packet)
    requires WellFormed(s)
    ensures var t := Update(cfg, s, p);
            t.lastSweep.Some? && 0.0 <= t.clock - t.lastSweep.value < cfg.sweepInterval
            && t.clock == MaxR(s.clock, p.ts)
  {
    ArriveWellFormed(cfg, s, p);
    var t := Arrive(cfg, s, p);
    ArriveClock(cfg, s, p);
    SweepWellFormed(cfg, t, t.clock);
  }

  lemma ArriveClock(cfg: Config, s: Tracker, p: Packet)
    requires WellFormed(s)
    ensures Arrive(cfg, s, p).clock == MaxR(s.clock, p.ts) && Arrive(cfg, s, p).lastSweep == s.lastSweep
  {
    MakeRoomWellFormed(cfg, Cut(cfg, Watermark(s, p), p));
  }
}

/** The periodic sweep cannot be observed: on runs in order, how a key's packets split into flows
    and how each packet is tagged is what a walk over that key's packets alone gives. */
module FlowSplitting {
  import opened Common
  import opened FlowKey
  import opened FlowRecord
  import opened FlowHistories
  import opened FlowRuns
  import FlowDiscipline

  /** The flows of one key: those closed so far, and the packets of the open one (none before the
      first packet). */
  datatype Splits = Splits(closed: seq<Segment>, open: seq<Packet>)

  /** The reference: walk the packets of one key and cut only where a packet itself finds the open
      flow timed out or reused. There is no table, no other key, no sweep and no capacity. */
  function SplitOf(cfg: Config, ps: seq<Packet>): (r: Splits)
    ensures ps != [] ==> r.open != []
  {
    if ps == [] then Splits([], [])
    else
      var before, p := SplitOf(cfg, ps[..|ps| - 1]), ps[|ps| - 1];
      if before.open == [] then Splits(before.closed, [p])
      else if CutReason(cfg, before.open, p).Some? then
        Splits(before.closed + [Segment(before.open, CutReason(cfg, before.open, p).value)], [p])
      else Splits(before.closed, before.open + [p])
  }

  /** The exported flows of key k, in order. */
  function LogOf(log: seq<Segment>, k: Key): seq<Segment> {
    if log == [] then []
    else LogOf(log[..|log| - 1], k) + if SegmentOf(log[|log| - 1], k) then [log[|log| - 1]] else []
  }

  predicate NoEviction(log: seq<Segment>) {
    forall i :: 0 <= i < |log| ==> log[i].reason != Evicted
  }

  // ---------------------------------------------------------------- runs in order

  /** Timestamps never decrease, nothing is flushed, and a manual sweep does not look past the
      newest packet (nor run before the clock, which starts at 0, has caught up with the packets). */
  predicate InOrder(cs: seq<Command>) {
    cs != [] ==>
      var last, before := cs[|cs| - 1], cs[..|cs| - 1];
      var newest := Newest(before);
      && InOrder(before)
      && match last
         case Arrival(p) => newest.Some? ==> newest.value <= p.ts
         case SweepAt(now) => newest.Some? && 0.0 <= newest.value && (now.Some? ==> now.value <= newest.value)
         case FlushAll => false
  }

  /** While all packets are before time 0 the clock stands at 0 and no sweep runs; from then on the
      clock is the newest timestamp. */
  ghost predicate Clocked(s: Tracker, newest: Option<real>) {
    if newest.None? then s.clock == 0.0 && s.lastSweep.None?
    else
      && s.clock == MaxR(0.0, newest.value)
      && s.lastSweep.Some?
      && (newest.value < 0.0 ==> s.lastSweep.value == 0.0)
  }

  // ---------------------------------------------------------------- the relation

  /** The tracker and the walk agree on key k, except that the tracker may already have exported, as
      timed out at `now` or before, the flow the walk still has open. */
  ghost predicate Agrees(cfg: Config, s: Tracker, k: Key, ps: seq<Packet>, now: real) {
    var w := SplitOf(cfg, ps);
    if k in s.live then LogOf(s.exported, k) == w.closed && s.live[k] == w.open && ps != []
    else if ps == [] then LogOf(s.exported, k) == []
    else
      && LogOf(s.exported, k) == w.closed + [Segment(w.open, TimeoutReason(RecordOf(cfg, w.open)))]
      && Expired(cfg, w.open, now)
  }

  lemma LogSnoc(log: seq<Segment>, g: Segment, k: Key)
    ensures LogOf(log + [g], k) == LogOf(log, k) + if SegmentOf(g, k) then [g] else []
  {
    assert (log + [g])[..|log|] == log;
  }

  lemma ExportAgrees(cfg: Config, s: Tracker, j: Key, k: Key, ps: seq<Packet>, now: real)
    requires WellFormed(s) && j in s.live && Agrees(cfg, s, k, ps, now) && Expired(cfg, s.live[j], now)
    ensures Agrees(cfg, Export(s, j, ReasonFor(cfg, s.live[j], false)), k, ps, now)
  {
    LogSnoc(s.exported, Segment(s.live[j], ReasonFor(cfg, s.live[j], false)), k);
    assert OneFlow(s.live[j], j);
    SweepReason(cfg, s.live[j]);
  }

  lemma {:induction false} ExportAllAgrees(cfg: Config, s: Tracker, ks: seq<Key>, k: Key, ps: seq<Packet>, now: real)
    requires WellFormed(s) && Exportable(s, ks) && Agrees(cfg, s, k, ps, now)
    requires forall i :: 0 <= i < |ks| ==> Expired(cfg, s.live[ks[i]], now)
    ensures Agrees(cfg, ExportAll(cfg, s, ks, false), k, ps, now)
    decreases |ks|
  {
    if ks != [] {
      hide Agrees, Expired, ReasonFor, WellFormed;
      var reason := ReasonFor(cfg, s.live[ks[0]], false);
      ExportAgrees(cfg, s, ks[0], k, ps, now);
      ExportWellFormed(s, ks[0], reason);
      ExportKeepsExportable(s, ks, reason);
      ExportAllAgrees(cfg, Export(s, ks[0], reason), ks[1..], k, ps, now);
    }
  }

  /** Time passing keeps the agreement. */
  lemma LaterAgrees(cfg: Config, s: Tracker, k: Key, ps: seq<Packet>, now: real, later: real)
    requires Agrees(cfg, s, k, ps, now) && now <= later
    ensures Agrees(cfg, s, k, ps, later)
  {
  }

  lemma SweepAgrees(cfg: Config, s: Tracker, at: real, k: Key, ps: seq<Packet>, now: real)
    requires WellFormed(s) && Agrees(cfg, s, k, ps, now) && at <= now
    ensures Agrees(cfg, Sweep(cfg, s, at), k, ps, now)
  {
    hide Agrees;
    var ks := ExpiredAmong(cfg, s.live, s.order, at);
    SweepKeys(cfg, s, at);
    ExportAllAgrees(cfg, s, ks, k, ps, now);
    RestampAgrees(cfg, ExportAll(cfg, s, ks, false), Some(MinR(at, s.clock)), k, ps, now);
  }

  lemma RestampAgrees(cfg: Config, s: Tracker, at: Option<real>, k: Key, ps: seq<Packet>, now: real)
    requires Agrees(cfg, s, k, ps, now)
    ensures Agrees(cfg, s.(lastSweep := at), k, ps, now)
  {
  }

  /** The packet's own key: the tracker cuts exactly where the walk does, whether or not a sweep has
      taken the flow already. */
  lemma CutAgrees(cfg: Config, s: Tracker, p: Packet, ps: seq<Packet>, now: real)
    requires WellFormed(s) && Agrees(cfg, s, KeyOf(p), ps, now) && now <= p.ts
    ensures var k := KeyOf(p);
            var w := SplitOf(cfg, ps + [p]);
            var cut := Cut(cfg, s, p);
            && LogOf(cut.exported, k) == w.closed
            && (if k in cut.live then cut.live[k] else []) + [p] == w.open
  {
    var k := KeyOf(p);
    assert (ps + [p])[..|ps|] == ps;
    if k in s.live && CutReason(cfg, s.live[k], p).Some? {
      assert OneFlow(s.live[k], k);
      LogSnoc(s.exported, Segment(s.live[k], CutReason(cfg, s.live[k], p).value), k);
    }
  }

  lemma CutLeavesOthers(cfg: Config, s: Tracker, p: Packet, k: Key, ps: seq<Packet>, now: real)
    requires WellFormed(s) && Agrees(cfg, s, k, ps, now) && KeyOf(p) != k
    ensures Agrees(cfg, Cut(cfg, s, p), k, ps, now)
  {
    var j := KeyOf(p);
    if j in s.live && CutReason(cfg, s.live[j], p).Some? {
      assert OneFlow(s.live[j], j);
      LogSnoc(s.exported, Segment(s.live[j], CutReason(cfg, s.live[j], p).value), k);
    }
  }

  /** If no eviction is logged, none happened. */
  lemma NoEvictionMeansRoom(cfg: Config, s: Tracker, p: Packet)
    requires WellFormed(s)
    ensures NoEviction(Arrive(cfg, s, p).exported) ==> Arrive(cfg, s, p) == Put(Cut(cfg, Watermark(s, p), p), p)
  {
    var cut := Cut(cfg, Watermark(s, p), p);
    var room := if KeyOf(p) in cut.live then cut else MakeRoom(cfg, cut);
    assert room != cut ==> |room.exported| == |cut.exported| + 1 && room.exported[|cut.exported|].reason == Evicted;
  }

  lemma ArriveAgrees(cfg: Config, s: Tracker, p: Packet, k: Key, ps: seq<Packet>, now: real)
    requires WellFormed(s) && Agrees(cfg, s, k, ps, now) && now <= p.ts && NoEviction(Arrive(cfg, s, p).exported)
    ensures Agrees(cfg, Arrive(cfg, s, p), k, if KeyOf(p) == k then ps + [p] else ps, p.ts)
    ensures KeyOf(p) == k ==> k in Arrive(cfg, s, p).live && Arrive(cfg, s, p).live[k] == SplitOf(cfg, ps + [p]).open
  {
    var w := Watermark(s, p);
    NoEvictionMeansRoom(cfg, s, p);
    assert Agrees(cfg, w, k, ps, now);
    if KeyOf(p) == k {
      CutAgrees(cfg, w, p, ps, now);
    } else {
      CutLeavesOthers(cfg, w, p, k, ps, now);
      LaterAgrees(cfg, Cut(cfg, w, p), k, ps, now, p.ts);
    }
  }

  // ---------------------------------------------------------------- whole runs

  lemma SweepLogGrows(cfg: Config, s: Tracker, at: real)
    requires WellFormed(s)
    ensures s.exported <= Sweep(cfg, s, at).exported
  {
    var ks := ExpiredAmong(cfg, s.live, s.order, at);
    SweepKeys(cfg, s, at);
    ExportAllLog(cfg, s, ks, false);
  }

  lemma UpdateLogGrows(cfg: Config, s: Tracker, p: Packet)
    requires WellFormed(s)
    ensures s.exported <= Arrive(cfg, s, p).exported <= Update(cfg, s, p).exported
  {
    hide WellFormed, Sweep;
    ArriveWellFormed(cfg, s, p);
    SweepLogGrows(cfg, Arrive(cfg, s, p), Arrive(cfg, s, p).clock);
  }

  lemma TickAgrees(cfg: Config, t: Tracker, newest: real, k: Key, ps: seq<Packet>)
    requires WellFormed(t) && Agrees(cfg, t, k, ps, newest) && t.clock == MaxR(0.0, newest)
    requires newest < 0.0 && t.lastSweep.Some? ==> t.lastSweep.value == 0.0
    ensures Agrees(cfg, Tick(cfg, t), k, ps, newest) && Clocked(Tick(cfg, t), Some(newest))
  {
    hide Agrees, WellFormed, Sweep;
    RestampAgrees(cfg, t, Some(t.clock), k, ps, newest);
    if t.lastSweep.Some? && t.clock - t.lastSweep.value >= cfg.sweepInterval {
      SweepAgrees(cfg, t, t.clock, k, ps, newest);
      SweepClock(cfg, t, t.clock);
    }
  }

  lemma SweepClock(cfg: Config, s: Tracker, at: real)
    requires WellFormed(s)
    ensures Sweep(cfg, s, at).clock == s.clock && Sweep(cfg, s, at).lastSweep == Some(MinR(at, s.clock))
  {
    SweepWellFormed(cfg, s, at);
  }

  /** The moment the agreement after `cs` speaks about, given the next packet's timestamp. */
  function Horizon(cs: seq<Command>, next: real): real {
    if Newest(cs).None? then next else Newest(cs).value
  }

  lemma ArrivalAgrees(cfg: Config, s: Tracker, newest: Option<real>, p: Packet, k: Key, ps: seq<Packet>)
    requires WellFormed(s) && Clocked(s, newest) && NoEviction(Arrive(cfg, s, p).exported)
    requires newest.Some? ==> newest.value <= p.ts
    requires Agrees(cfg, s, k, ps, if newest.None? then p.ts else newest.value)
    ensures Agrees(cfg, Update(cfg, s, p), k, if KeyOf(p) == k then ps + [p] else ps, p.ts)
    ensures Clocked(Update(cfg, s, p), Some(p.ts))
  {
    hide Agrees, WellFormed, Sweep, Arrive, KeyOf, Tick;
    ArriveWellFormed(cfg, s, p);
    ArriveAgrees(cfg, s, p, k, ps, if newest.None? then p.ts else newest.value);
    FlowDiscipline.ArriveClock(cfg, s, p);
    TickAgrees(cfg, Arrive(cfg, s, p), p.ts, k, if KeyOf(p) == k then ps + [p] else ps);
  }

  lemma SweepStepAgrees(cfg: Config, s: Tracker, newest: Option<real>, now: Option<real>, k: Key, ps: seq<Packet>)
    requires WellFormed(s) && Clocked(s, newest) && newest.Some? && 0.0 <= newest.value
             && Agrees(cfg, s, k, ps, newest.value)
    requires now.Some? ==> now.value <= newest.value
    ensures var t := Step(cfg, s, SweepAt(now)); Agrees(cfg, t, k, ps, newest.value) && Clocked(t, newest)
  {
    hide Agrees, WellFormed, Sweep;
    var at := if now.Some? then now.value else s.clock;
    SweepAgrees(cfg, s, at, k, ps, newest.value);
    SweepClock(cfg, s, at);
  }

  /** What one more command does to the run, to the packets of k and to the newest timestamp. */
  lemma Unfold(cfg: Config, cs: seq<Command>, k: Key)
    requires cs != [] && InOrder(cs)
    ensures var before, c := cs[..|cs| - 1], cs[|cs| - 1];
            && InOrder(before) && Run(cfg, cs) == Step(cfg, Run(cfg, before), c)
            && match c
               case Arrival(p) =>
                 && Newest(cs) == Some(p.ts) && (Newest(before).Some? ==> Newest(before).value <= p.ts)
                 && PacketsOf(cs, k) == if KeyOf(p) == k then PacketsOf(before, k) + [p] else PacketsOf(before, k)
               case SweepAt(now) =>
                 && Newest(cs) == Newest(before) && Newest(before).Some? && 0.0 <= Newest(before).value
                 && (now.Some? ==> now.value <= Newest(before).value) && PacketsOf(cs, k) == PacketsOf(before, k)
               case FlushAll => false
  {
  }

  lemma LogGrows(cfg: Config, s: Tracker, c: Command)
    requires WellFormed(s) && !c.FlushAll?
    ensures s.exported <= Step(cfg, s, c).exported
    ensures c.Arrival? ==> Step(cfg, s, c) == Update(cfg, s, c.p)
    ensures c.Arrival? ==> Arrive(cfg, s, c.p).exported <= Update(cfg, s, c.p).exported
  {
    hide WellFormed, Sweep, Update, Arrive;
    match c
    case Arrival(p) => UpdateLogGrows(cfg, s, p);
    case SweepAt(now) => SweepLogGrows(cfg, s, if now.Some? then now.value else s.clock);
  }

  lemma {:induction false} RunAgrees(cfg: Config, cs: seq<Command>, k: Key, next: real)
    requires InOrder(cs) && NoEviction(Run(cfg, cs).exported)
    ensures Agrees(cfg, Run(cfg, cs), k, PacketsOf(cs, k), Horizon(cs, next))
    ensures Clocked(Run(cfg, cs), Newest(cs))
  {
    hide Agrees, WellFormed, Sweep, Update, Arrive, KeyOf, InOrder, Run, Step, PacketsOf, Newest, Clocked;
    if cs == [] {
      NothingAgrees(cfg, k, Horizon(cs, next));
    } else {
      var before, last := cs[..|cs| - 1], cs[|cs| - 1];
      var s := Run(cfg, before);
      Unfold(cfg, cs, k);
      LogGrows(cfg, s, last);
      match last
      case Arrival(p) =>
        RunAgrees(cfg, before, k, p.ts);
        ArrivalAgrees(cfg, s, Newest(before), p, k, PacketsOf(before, k));
      case SweepAt(now) =>
        RunAgrees(cfg, before, k, next);
        SweepStepAgrees(cfg, s, Newest(before), now, k, PacketsOf(before, k));
    }
  }

  lemma NothingAgrees(cfg: Config, k: Key, now: real)
    ensures Agrees(cfg, Run(cfg, []), k, PacketsOf([], k), now) && Clocked(Run(cfg, []), Newest([]))
  {
  }

  /** Every packet of an in-order run without evictions gets the flow, the direction and the state
      that the walk over its own key's packets gives it. */
  lemma TagsAreTheWalks(cfg: Config, cs: seq<Command>, p: Packet)
    requires InOrder(cs + [Arrival(p)]) && NoEviction(Run(cfg, cs + [Arrival(p)]).exported)
    ensures TagFor(cfg, Run(cfg, cs), p) == TagOf(cfg, SplitOf(cfg, PacketsOf(cs, KeyOf(p)) + [p]).open)
  {
    var all := cs + [Arrival(p)];
    var s, k := Run(cfg, cs), KeyOf(p);
    assert all[..|all| - 1] == cs;
    UpdateLogGrows(cfg, s, p);
    RunAgrees(cfg, cs, k, p.ts);
    ArriveAgrees(cfg, s, p, k, PacketsOf(cs, k), Horizon(cs, p.ts));
  }

  predicate TimeoutOrSame(cfg: Config, h: seq<Packet>, reason: CloseReason)
    requires h != []
  {
    reason == ReasonFor(cfg, h, true) || reason == TimeoutReason(RecordOf(cfg, h))
  }

  /** After a final flush the exported flows of each key are the walk's: the same packets, hence the
      same records, and the same reasons, but for the last flow, whose reason may be the timeout a
      sweep noticed instead of `flush` (a flow that is over keeps tcp_closed or tcp_reset either way). */
  lemma FlowsAreTheWalks(cfg: Config, cs: seq<Command>, k: Key)
    requires InOrder(cs) && NoEviction(Run(cfg, cs).exported)
    ensures var w := SplitOf(cfg, PacketsOf(cs, k));
            var log := LogOf(Run(cfg, cs + [FlushAll]).exported, k);
            if PacketsOf(cs, k) == [] then log == []
            else |log| == |w.closed| + 1 && log[..|w.closed|] == w.closed
                 && log[|w.closed|].packets == w.open && TimeoutOrSame(cfg, w.open, log[|w.closed|].reason)
  {
    hide LogOf, InOrder, PacketsOf, WellFormed, SplitOf, NoEviction;
    var all := cs + [FlushAll];
    assert all[..|all| - 1] == cs;
    var s := Run(cfg, cs);
    RunAgrees(cfg, cs, k, 0.0);
    SweepKeys(cfg, s, 0.0);
    FlushedLog(cfg, s, k);
  }

  lemma ExportLog(s: Tracker, j: Key, reason: CloseReason, k: Key)
    requires WellFormed(s) && j in s.live
    ensures LogOf(Export(s, j, reason).exported, k)
            == LogOf(s.exported, k) + if j == k then [Segment(s.live[j], reason)] else []
  {
    hide LogOf, Without;
    assert OneFlow(s.live[j], j);
    LogSnoc(s.exported, Segment(s.live[j], reason), k);
  }

  lemma {:induction false} FlushLog(cfg: Config, s: Tracker, ks: seq<Key>, k: Key)
    requires WellFormed(s) && Exportable(s, ks)
    ensures LogOf(ExportAll(cfg, s, ks, true).exported, k)
            == LogOf(s.exported, k) + if k in ks then [Segment(s.live[k], ReasonFor(cfg, s.live[k], true))] else []
    decreases |ks|
  {
    hide LogOf, WellFormed, ReasonFor, Without;
    if ks != [] {
      var reason := ReasonFor(cfg, s.live[ks[0]], true);
      ExportLog(s, ks[0], reason, k);
      ExportWellFormed(s, ks[0], reason);
      ExportKeepsExportable(s, ks, reason);
      FlushLog(cfg, Export(s, ks[0], reason), ks[1..], k);
    }
  }

  lemma FlushedLog(cfg: Config, s: Tracker, k: Key)
    requires WellFormed(s)
    ensures LogOf(Step(cfg, s, FlushAll).exported, k)
            == LogOf(s.exported, k)
               + if k in s.live && s.live[k] != [] then [Segment(s.live[k], ReasonFor(cfg, s.live[k], true))] else []
  {
    SweepKeys(cfg, s, 0.0);
    FlushLog(cfg, s, s.order, k);
  }

  // ---------------------------------------------------------------- what the outcome depends on

  /** The settings that decide when a flow ends. */
  predicate SameTimeouts(a: Config, b: Config) {
    && a.udpIdle == b.udpIdle && a.tcpHandshake == b.tcpHandshake && a.tcpLinger == b.tcpLinger
    && a.tcpIdle == b.tcpIdle && a.needsFinalAck == b.needsFinalAck
  }

  lemma {:induction false} SameEntries(a: Config, b: Config, h: seq<Packet>)
    requires SameTimeouts(a, b) && h != []
    ensures EntryOf(a, h) == EntryOf(b, h)
  {
    if |h| > 1 {
      SameEntries(a, b, h[..|h| - 1]);
    }
  }

  lemma {:induction false} SameSplits(a: Config, b: Config, ps: seq<Packet>)
    requires SameTimeouts(a, b)
    ensures SplitOf(a, ps) == SplitOf(b, ps)
  {
    if ps != [] {
      SameSplits(a, b, ps[..|ps| - 1]);
      if SplitOf(a, ps[..|ps| - 1]).open != [] {
        SameEntries(a, b, SplitOf(a, ps[..|ps| - 1]).open);
      }
    }
  }

  /** Two trackers that differ in the sweep interval, the capacity, the manual sweeps and every other
      key's packets tag a packet alike when it has the same predecessors in its own key. */
  lemma SweepsAndOtherKeysDoNotMatter(a: Config, cs: seq<Command>, b: Config, ds: seq<Command>, p: Packet)
    requires SameTimeouts(a, b) && PacketsOf(cs, KeyOf(p)) == PacketsOf(ds, KeyOf(p))
    requires InOrder(cs + [Arrival(p)]) && NoEviction(Run(a, cs + [Arrival(p)]).exported)
    requires InOrder(ds + [Arrival(p)]) && NoEviction(Run(b, ds + [Arrival(p)]).exported)
    ensures TagFor(a, Run(a, cs), p) == TagFor(b, Run(b, ds), p)
  {
    hide InOrder, NoEviction, SplitOf, PacketsOf, KeyOf, TagFor, TagOf, Run, SameTimeouts;
    var ps := PacketsOf(cs, KeyOf(p)) + [p];
    TagsAreTheWalks(a, cs, p);
    TagsAreTheWalks(b, ds, p);
    SameSplits(a, b, ps);
    SameTags(a, b, SplitOf(a, ps).open);
  }

  lemma SameTags(a: Config, b: Config, h: seq<Packet>)
    requires SameTimeouts(a, b) && h != []
    ensures TagOf(a, h) == TagOf(b, h)
  {
    hide EntryOf;
    SameEntries(a, b, h);
  }

  // ---------------------------------------------------------------- exactly when tracker and walk agree

  /** The open flow of k, if there is one, is the walk's. */
  ghost predicate OpenAgrees(cfg: Config, s: Tracker, k: Key, ps: seq<Packet>) {
    k in s.live ==> s.live[k] == SplitOf(cfg, ps).open && ps != []
  }

  /** Packet p loses nothing to a sweep, a flush or an eviction: its key's flow is still open, or the
      key is new, or p ends the walk's open flow as well. `ps` are the key's earlier packets. */
  predicate Unharmed(cfg: Config, s: Tracker, p: Packet, ps: seq<Packet>) {
    KeyOf(p) in s.live || ps == [] || CutReason(cfg, SplitOf(cfg, ps).open, p).Some?
  }

  /** Packet p is given the flow the walk gives it. */
  ghost predicate SameFlow(cfg: Config, s: Tracker, p: Packet, ps: seq<Packet>)
    requires WellFormed(s)
  {
    ArriveWellFormed(cfg, s, p);
    Arrive(cfg, s, p).live[KeyOf(p)] == SplitOf(cfg, ps + [p]).open
  }

  /** What the flow of p holds after p. */
  lemma ArriveFlow(cfg: Config, s: Tracker, p: Packet)
    requires WellFormed(s)
    ensures var k, t := KeyOf(p), Arrive(cfg, s, p);
            && k in t.live
            && t.live[k] == (if k in s.live && CutReason(cfg, s.live[k], p).None? then s.live[k] else []) + [p]
            && forall j :: j in t.live && j != k ==> j in s.live && t.live[j] == s.live[j]
  {
  }

  lemma WalkMore(cfg: Config, ps: seq<Packet>, p: Packet)
    ensures SplitOf(cfg, ps + [p]).open
            == if ps == [] || CutReason(cfg, SplitOf(cfg, ps).open, p).Some? then [p] else SplitOf(cfg, ps).open + [p]
  {
    hide CutReason;
    assert (ps + [p])[..|ps|] == ps;
  }

  /** Per packet, in any order of timestamps: the walk's flow exactly when the packet is unharmed. */
  lemma SameFlowIffUnharmed(cfg: Config, s: Tracker, p: Packet, ps: seq<Packet>)
    requires WellFormed(s) && OpenAgrees(cfg, s, KeyOf(p), ps)
    ensures SameFlow(cfg, s, p, ps) <==> Unharmed(cfg, s, p, ps)
  {
    hide KeyOf, CutReason, WellFormed, Arrive, SplitOf;
    ArriveFlow(cfg, s, p);
    WalkMore(cfg, ps, p);
    assert [] + [p] == [p];
    var held, walked := Arrive(cfg, s, p).live[KeyOf(p)], SplitOf(cfg, ps + [p]).open;
    if Unharmed(cfg, s, p, ps) {
      assert held == walked;
    } else {
      assert |held| == 1 < |walked|;
    }
  }

  /** Every arrival of the run is given the walk's flow. */
  ghost predicate AllSameFlow(cfg: Config, cs: seq<Command>) {
    cs != [] ==>
      var last, before := cs[|cs| - 1], cs[..|cs| - 1];
      && AllSameFlow(cfg, before)
      && (last.Arrival? ==> SameFlow(cfg, Run(cfg, before), last.p, PacketsOf(before, KeyOf(last.p))))
  }

  ghost predicate AllUnharmed(cfg: Config, cs: seq<Command>) {
    cs != [] ==>
      var last, before := cs[|cs| - 1], cs[..|cs| - 1];
      && AllUnharmed(cfg, before)
      && (last.Arrival? ==> Unharmed(cfg, Run(cfg, before), last.p, PacketsOf(before, KeyOf(last.p))))
  }

  /** Nothing but arrivals adds to an open flow. */
  lemma OthersOnlyClose(cfg: Config, s: Tracker, c: Command)
    requires WellFormed(s)
    ensures var from := if c.Arrival? then Arrive(cfg, s, c.p) else s;
            forall k :: k in Step(cfg, s, c).live ==> k in from.live && Step(cfg, s, c).live[k] == from.live[k]
  {
    hide WellFormed, Arrive, Exportable, ExpiredAmong;
    var t := if c.Arrival? then Arrive(cfg, s, c.p) else s;
    if c.Arrival? {
      ArriveWellFormed(cfg, s, c.p);
    }
    var at := if c.SweepAt? && c.now.Some? then c.now.value else t.clock;
    SweepKeys(cfg, t, at);
    ExportAllLive(cfg, t, ExpiredAmong(cfg, t.live, t.order, at), false);
    ExportAllLive(cfg, t, t.order, true);
  }

  lemma StepOpenAgrees(cfg: Config, before: seq<Command>, c: Command, k: Key)
    requires OpenAgrees(cfg, Run(cfg, before), k, PacketsOf(before, k))
    requires c.Arrival? ==> SameFlow(cfg, Run(cfg, before), c.p, PacketsOf(before, KeyOf(c.p)))
    ensures OpenAgrees(cfg, Run(cfg, before + [c]), k, PacketsOf(before + [c], k))
  {
    hide SplitOf, KeyOf, Step, Arrive, WellFormed;
    var cs := before + [c];
    assert cs[..|before|] == before;
    var s := Run(cfg, before);
    OthersOnlyClose(cfg, s, c);
    if c.Arrival? {
      ArriveFlow(cfg, s, c.p);
    }
    assert PacketsOf(before, k) + [] == PacketsOf(before, k);
  }

  lemma {:induction false} SameFlowsAgree(cfg: Config, cs: seq<Command>, k: Key)
    requires AllSameFlow(cfg, cs)
    ensures OpenAgrees(cfg, Run(cfg, cs), k, PacketsOf(cs, k))
  {
    hide OpenAgrees, SameFlow;
    if cs == [] {
      NothingOpen(cfg, k);
    } else {
      var before, c := cs[..|cs| - 1], cs[|cs| - 1];
      assert cs == before + [c];
      SameFlowsAgree(cfg, before, k);
      StepOpenAgrees(cfg, before, c, k);
    }
  }

  lemma NothingOpen(cfg: Config, k: Key)
    ensures OpenAgrees(cfg, Run(cfg, []), k, PacketsOf([], k))
  {
  }

  /** Over any run, in any order of timestamps, with sweeps, flushes and evictions: every packet is
      given the walk's flow exactly when every packet is unharmed. */
  lemma {:induction false} SameFlowsIffUnharmed(cfg: Config, cs: seq<Command>)
    ensures AllSameFlow(cfg, cs) <==> AllUnharmed(cfg, cs)
  {
    hide SameFlow, Unharmed, Run, PacketsOf;
    if cs != [] {
      var before, c := cs[..|cs| - 1], cs[|cs| - 1];
      SameFlowsIffUnharmed(cfg, before);
      if AllSameFlow(cfg, before) && c.Arrival? {
        SameFlowsAgree(cfg, before, KeyOf(c.p));
        SameFlowIffUnharmed(cfg, Run(cfg, before), c.p, PacketsOf(before, KeyOf(c.p)));
      }
    }
  }

  /** In order and without evictions every packet is unharmed. */
  lemma {:induction false} InOrderIsUnharmed(cfg: Config, cs: seq<Command>)
    requires InOrder(cs) && NoEviction(Run(cfg, cs).exported)
    ensures AllUnharmed(cfg, cs)
  {
    hide Unharmed, WellFormed, Update, Arrive, KeyOf, PacketsOf, Step, Run, Agrees, Newest;
    if cs != [] {
      var before, c := cs[..|cs| - 1], cs[|cs| - 1];
      UnfoldRun(cfg, cs);
      LogGrows(cfg, Run(cfg, before), c);
      InOrderIsUnharmed(cfg, before);
      if c.Arrival? {
        NextIsUnharmed(cfg, before, c.p);
      }
    }
  }

  lemma UnfoldRun(cfg: Config, cs: seq<Command>)
    requires cs != []
    ensures Run(cfg, cs) == Step(cfg, Run(cfg, cs[..|cs| - 1]), cs[|cs| - 1])
  {
  }

  lemma NextIsUnharmed(cfg: Config, cs: seq<Command>, p: Packet)
    requires InOrder(cs) && NoEviction(Run(cfg, cs).exported) && (Newest(cs).Some? ==> Newest(cs).value <= p.ts)
    ensures Unharmed(cfg, Run(cfg, cs), p, PacketsOf(cs, KeyOf(p)))
  {
    hide InOrder, NoEviction, KeyOf, PacketsOf, SplitOf, Run;
    RunAgrees(cfg, cs, KeyOf(p), p.ts);
  }

  // ---------------------------------------------------------------- why the order is needed

  lemma SecondPacket(cfg: Config, a: Packet, b: Packet)
    requires a.protocol == UDP && KeyOf(a) != KeyOf(b) && cfg.maxActive >= 2 && 0.0 <= a.ts
    ensures WellFormed(Run(cfg, [Arrival(a)]))
    ensures var t := Arrive(cfg, Run(cfg, [Arrival(a)]), b);
            t.live == map[KeyOf(a) := [a], KeyOf(b) := [b]] && t.order == [KeyOf(a), KeyOf(b)]
            && t.clock == MaxR(a.ts, b.ts) && t.lastSweep == Some(a.ts)
  {
    hide KeyOf, Run;
    FirstPacket(cfg, a);
    assert [] + [b] == [b] && [KeyOf(a)] + [KeyOf(b)] == [KeyOf(a), KeyOf(b)];
    assert Without([KeyOf(a)], KeyOf(b)) == [KeyOf(a)];
  }

  /** A sweep triggered by another key closes the flow of `a` ... */
  lemma SweptByAnother(cfg: Config, a: Packet, b: Packet)
    requires a.protocol == UDP && KeyOf(a) != KeyOf(b) && cfg.maxActive >= 2
    requires 0.0 <= a.ts && b.ts > a.ts + cfg.udpIdle + cfg.sweepInterval
    ensures KeyOf(a) !in Run(cfg, [Arrival(a), Arrival(b)]).live
    ensures |Run(cfg, [Arrival(a), Arrival(b)]).order| <= 1
  {
    hide Arrive, WellFormed;
    var cs := [Arrival(a), Arrival(b)];
    assert cs[..1] == [Arrival(a)];
    SecondPacket(cfg, a, b);
    var s := Run(cfg, [Arrival(a)]);
    var t := Arrive(cfg, s, b);
    ArriveWellFormed(cfg, s, b);
    assert Run(cfg, cs) == Update(cfg, s, b) == Sweep(cfg, t, t.clock);
    SweepKeys(cfg, t, t.clock);
    var ks := ExpiredAmong(cfg, t.live, t.order, t.clock);
    assert KeyOf(a) in t.order && KeyOf(a) in ks;
    ExportAllLive(cfg, t, ks, false);
    ExportAllWellFormed(cfg, t, ks, false);
  }

  lemma PacketsOfFirst(a: Packet, b: Packet)
    requires KeyOf(a) != KeyOf(b)
    ensures PacketsOf([Arrival(a), Arrival(b)], KeyOf(a)) == [a]
  {
    hide KeyOf;
    var cs := [Arrival(a), Arrival(b)];
    assert cs[..1] == [Arrival(a)] && [Arrival(a)][..0] == [];
    assert PacketsOf([Arrival(a)], KeyOf(a)) == [] + [a] == [a];
    assert [a] + [] == [a];
  }

  lemma WalkOfLate(cfg: Config, a: Packet, late: Packet)
    requires a.protocol == UDP && late.protocol == UDP && late.ts <= a.ts + cfg.udpIdle
    ensures SplitOf(cfg, [a, late]).open == [a, late]
  {
    hide KeyOf;
    assert [a][..0] == [] && SplitOf(cfg, [a]).open == [a];
    assert [a, late][..1] == [a] && [a] + [late] == [a, late];
  }

  /** ... so a late packet of `a`'s key, which lazy expiry alone would still give to that flow, opens
      a second one: on runs out of order the sweep is visible. */
  lemma LatePacketSeesTheSweep(cfg: Config, a: Packet, b: Packet, late: Packet)
    requires a.protocol == UDP && KeyOf(a) != KeyOf(b) && cfg.maxActive >= 2
    requires 0.0 <= a.ts && b.ts > a.ts + cfg.udpIdle + cfg.sweepInterval
    requires KeyOf(late) == KeyOf(a) && late.protocol == UDP && a.ts < late.ts <= a.ts + cfg.udpIdle
    ensures var cs := [Arrival(a), Arrival(b)];
            TagFor(cfg, Run(cfg, cs), late).createdAt == late.ts
            && TagOf(cfg, SplitOf(cfg, PacketsOf(cs, KeyOf(a)) + [late]).open).createdAt == a.ts
  {
    hide KeyOf, Run, PacketsOf, SplitOf, TagFor, WellFormed;
    SweptByAnother(cfg, a, b);
    NewFlow(cfg, Run(cfg, [Arrival(a), Arrival(b)]), late);
    PacketsOfFirst(a, b);
    WalkOfLate(cfg, a, late);
    assert [a] + [late] == [a, late];
    RecordIdentity(cfg, [a, late]);
  }

  /** A packet whose key has no flow opens one, created at its own timestamp. */
  lemma NewFlow(cfg: Config, s: Tracker, p: Packet)
    requires WellFormed(s) && KeyOf(p) !in s.live && |s.order| < cfg.maxActive
    ensures TagFor(cfg, s, p).createdAt == p.ts
  {
    hide KeyOf, WellFormed;
    assert [] + [p] == [p];
    assert Arrive(cfg, s, p).live[KeyOf(p)] == [p];
    RecordIdentity(cfg, [p]);
  }
}

/** The last two stages of src/pipeline/pipeline.py on one event: the tracker's update, then
    Engine.process of src/engine/engine.py with the flow context of the packet. */
module Pipeline {
  import opened Common
  import opened FlowKey
  import opened TcpState
  import opened FlowRecord
  import opened FlowHistories
  import opened FlowRuns
  import opened FlowSplitting
  import FC = FlowContext
  import FD = FlowDiscipline
  import FI = FlowInputs
  import FT = FlowTracker
  import R = Rules
  import E = Evaluation

  // ---------------------------------------------------------------- one event, two readers

  /** The fields of an IDSEvent that the two stages read. A wrong or missing one is None; the numeric
      addresses are what the IP texts stand for. */
  datatype PacketEvent = PacketEvent(
    timestamp: Option<real>,
    skipped: bool,                 // processing_action is skipped or dropped
    invalid: bool,
    protocol: Option<Protocol>,
    srcIp: Option<string>,
    srcAddress: Option<bv32>,
    srcPort: Option<int>,
    dstIp: Option<string>,
    dstAddress: Option<bv32>,
    dstPort: Option<int>,
    flags: Option<set<Flag>>,
    rawLength: nat,
    payload: seq<byte>,
    app: Option<string>)

  function EndpointOf(ip: Option<string>, port: Option<int>): Option<Endpoint> {
    if ip.Some? && port.Some? then Some(Endpoint(ip.value, port.value)) else None
  }

  function TrackerView(e: PacketEvent): FT.Event {
    FT.Event(e.timestamp, e.invalid, e.protocol, EndpointOf(e.srcIp, e.srcPort), EndpointOf(e.dstIp, e.dstPort),
             if e.flags.Some? then e.flags.value else {}, e.rawLength, |e.payload|, e.app)
  }

  function EngineView(e: PacketEvent): R.Event {
    R.Event(e.protocol, e.srcAddress, e.srcPort, e.dstAddress, e.dstPort, e.flags, e.payload, e.skipped, e.invalid)
  }

  /** The packet the event is to the tracker; a skipped event does not reach it. */
  function PacketIn(e: PacketEvent): Option<Packet> {
    if e.skipped then None else FT.PacketOf(TrackerView(e))
  }

  /** Both stages read the same packet: what the tracker counts is what the rules are tested on. */
  lemma ReadersAgree(e: PacketEvent)
    ensures PacketIn(e).Some?
            <==> !e.skipped && !e.invalid && e.timestamp.Some? && e.protocol.Some?
                 && e.srcIp.Some? && e.srcPort.Some? && e.dstIp.Some? && e.dstPort.Some?
    ensures PacketIn(e).Some? ==>
              var p, r := PacketIn(e).value, EngineView(e);
              && r.protocol == Some(p.protocol) && r.srcPort == Some(p.src.port) && r.dstPort == Some(p.dst.port)
              && e.srcIp == Some(p.src.ip) && e.dstIp == Some(p.dst.ip) && e.timestamp == Some(p.ts)
              && |r.payload| == p.payloadLength && (r.flags.Some? ==> r.flags.value == p.flags)
              && r.srcIp == e.srcAddress && r.dstIp == e.dstAddress
              && r.srcPort == e.srcPort && r.dstPort == e.dstPort
  {
  }

  /** One event and the rules that raise on it, or a sweep between events. */
  datatype Call = PacketCall(e: PacketEvent, faults: E.Faults) | SweepCall(now: Option<real>)

  // ---------------------------------------------------------------- the flow context

  /** The context process() builds: the flow snapshot() finds for p, if it is the flow of the event's tag. */
  ghost function SeenContext(cfg: Config, s: Tracker, p: Option<Packet>, tag: Option<Tag>, known: set<int>):
    Option<FC.PacketContext>
  {
    if p.None? || tag.None? || KeyOf(p.value) !in s.live || s.live[KeyOf(p.value)] == [] then None
    else
      var f := RecordOf(cfg, s.live[KeyOf(p.value)]);
      if f.id.key == tag.value.key && f.id.createdAt == tag.value.createdAt then
        FC.BuildContext(tag.value, Some(f), known)
      else None
  }

  /** The context of packet p that arrives in state s: its flow as it stands after the update. */
  ghost function ContextOf(cfg: Config, s: Tracker, p: Packet, known: set<int>): Option<FC.PacketContext>
    requires WellFormed(s)
  {
    var t := Update(cfg, s, p);
    if KeyOf(p) in t.live && t.live[KeyOf(p)] != [] then
      FC.BuildContext(TagFor(cfg, s, p), Some(RecordOf(cfg, t.live[KeyOf(p)])), known)
    else None
  }

  /** The flow of p after the update is the one it arrived in, unless the sweep has taken it. */
  lemma OpenFlowIsItsOwn(cfg: Config, s: Tracker, p: Packet)
    requires WellFormed(s)
    ensures var k, t, u := KeyOf(p), Arrive(cfg, s, p), Update(cfg, s, p);
            && WellFormed(t) && k in t.live && t.live[k] != []
            && (k in u.live ==> u.live[k] == t.live[k])
            && TagFor(cfg, s, p) == TagOf(cfg, t.live[k])
  {
    hide Arrive, KeyOf, Tick;
    ArriveWellFormed(cfg, s, p);
    OthersOnlyClose(cfg, s, Arrival(p));
    assert Step(cfg, s, Arrival(p)) == Update(cfg, s, p);
  }

  /** After the update the flow id test of process() never fails. */
  lemma FlowIdAlwaysAgrees(cfg: Config, s: Tracker, p: Packet, known: set<int>)
    requires WellFormed(s)
    ensures SeenContext(cfg, Update(cfg, s, p), Some(p), Some(TagFor(cfg, s, p)), known) == ContextOf(cfg, s, p, known)
  {
    hide WellFormed, Arrive, Update, TagFor, KeyOf, RecordOf;
    OpenFlowIsItsOwn(cfg, s, p);
  }

  /** A tracked packet is left without a context exactly when the sweep due at its update finds its own
      flow timed out, as a late packet's may be. */
  lemma NoContextIffSwept(cfg: Config, s: Tracker, p: Packet, known: set<int>)
    requires WellFormed(s)
    ensures KeyOf(p) in Arrive(cfg, s, p).live && Arrive(cfg, s, p).live[KeyOf(p)] != []
    ensures var t := Arrive(cfg, s, p);
            ContextOf(cfg, s, p, known).None?
            <==> s.lastSweep.Some? && t.clock - s.lastSweep.value >= cfg.sweepInterval
                 && Expired(cfg, t.live[KeyOf(p)], t.clock)
  {
    hide WellFormed, Arrive, Update, KeyOf, Expired, Tick, Sweep, RecordOf;
    var t, k := Arrive(cfg, s, p), KeyOf(p);
    OpenFlowIsItsOwn(cfg, s, p);
    FI.ArrivalSweeps(cfg, s, p);
    FI.SweepKeeps(cfg, t, t.clock, k);
    ContextIsBuilt(cfg, t.live[k], known);
  }

  lemma ContextIsBuilt(cfg: Config, h: seq<Packet>, known: set<int>)
    requires h != []
    ensures FC.BuildContext(TagOf(cfg, h), Some(RecordOf(cfg, h)), known).Some?
  {
    FC.TcpIsNeverActive(cfg, h);
    RecordIdentity(cfg, h);
  }

  // ---------------------------------------------------------------- in order, the context is the walk's

  /** In order, the sweep at the end of the update cannot take the packet's own flow: either the packet
      is at the clock, or it lies before time 0 and no sweep is due yet. */
  lemma OwnFlowStaysOpen(cfg: Config, s: Tracker, newest: Option<real>, p: Packet)
    requires WellFormed(s) && Clocked(s, newest) && (newest.Some? ==> newest.value <= p.ts)
    ensures KeyOf(p) in Update(cfg, s, p).live
  {
    hide WellFormed, Arrive, KeyOf, Exportable;
    var k, t := KeyOf(p), Arrive(cfg, s, p);
    ArriveWellFormed(cfg, s, p);
    FD.ArriveClock(cfg, s, p);
    SweepKeys(cfg, t, t.clock);
    ExportAllLive(cfg, t, ExpiredAmong(cfg, t.live, t.order, t.clock), false);
    OwnFlowIsFresh(cfg, s, p);
  }

  lemma OwnFlowIsFresh(cfg: Config, s: Tracker, p: Packet)
    requires WellFormed(s)
    ensures KeyOf(p) in Arrive(cfg, s, p).live && Arrive(cfg, s, p).live[KeyOf(p)] != []
    ensures !Expired(cfg, Arrive(cfg, s, p).live[KeyOf(p)], p.ts)
  {
    hide WellFormed, Arrive, KeyOf, RecordOf;
    ArriveFlow(cfg, s, p);
    var h := Arrive(cfg, s, p).live[KeyOf(p)];
    RecordSpan(cfg, h);
    assert h[|h| - 1] == p;
  }

  /** On a run in order without evictions the context of every packet is that of the walk over its own
      key's packets, taken right after it. */
  lemma ContextIsTheWalks(cfg: Config, cs: seq<Command>, p: Packet, known: set<int>)
    requires InOrder(cs + [Arrival(p)]) && NoEviction(Run(cfg, cs + [Arrival(p)]).exported)
    ensures var h := SplitOf(cfg, PacketsOf(cs, KeyOf(p)) + [p]).open;
            ContextOf(cfg, Run(cfg, cs), p, known) == FC.ContextAt(cfg, h, |h| - 1, known)
  {
    hide WellFormed, Arrive, KeyOf, Update, PacketsOf, SplitOf, RecordOf, Clocked, Agrees, NoEviction;
    var all, s, k := cs + [Arrival(p)], Run(cfg, cs), KeyOf(p);
    assert all[..|all| - 1] == cs;
    UpdateLogGrows(cfg, s, p);
    LogPrefix(s.exported, Arrive(cfg, s, p).exported, Update(cfg, s, p).exported);
    RunAgrees(cfg, cs, k, p.ts);
    ArriveAgrees(cfg, s, p, k, PacketsOf(cs, k), Horizon(cs, p.ts));
    OwnFlowStaysOpen(cfg, s, Newest(cs), p);
    OpenFlowIsItsOwn(cfg, s, p);
    var h := SplitOf(cfg, PacketsOf(cs, k) + [p]).open;
    assert h[..|h|] == h;
  }

  lemma LogPrefix(a: seq<Segment>, b: seq<Segment>, c: seq<Segment>)
    requires a <= b <= c && NoEviction(c)
    ensures NoEviction(a) && NoEviction(b)
  {
    forall i | 0 <= i < |b|
      ensures b[i].reason != Evicted
    {
      assert c[i] == b[i];
    }
  }

  // ---------------------------------------------------------------- sessions

  /** What the calls are to the tracker. */
  function CommandsOf(calls: seq<Call>): seq<Command> {
    if calls == [] then []
    else
      CommandsOf(calls[..|calls| - 1])
      + match calls[|calls| - 1]
        case PacketCall(e, _) => if PacketIn(e).Some? then [Arrival(PacketIn(e).value)] else []
        case SweepCall(now) => [SweepAt(now)]
  }

  /** What the rule engine is given for an event that arrives in state s. */
  ghost function InputOf(cfg: Config, s: Tracker, e: PacketEvent, faults: E.Faults, known: set<int>): E.Input
    requires WellFormed(s)
  {
    var p := PacketIn(e);
    E.Input(EngineView(e), if p.None? then None else ContextOf(cfg, s, p.value, known), faults)
  }

  /** ... for every event of a session, in order. */
  ghost function InputsOf(cfg: Config, calls: seq<Call>, known: set<int>): seq<E.Input> {
    if calls == [] then []
    else
      var before := calls[..|calls| - 1];
      InputsOf(cfg, before, known)
      + match calls[|calls| - 1]
        case PacketCall(e, faults) => [InputOf(cfg, Run(cfg, CommandsOf(before)), e, faults, known)]
        case SweepCall(_) => []
  }

  /** The events of a session, without the sweeps between them. */
  function Events(calls: seq<Call>): seq<Call> {
    if calls == [] then []
    else Events(calls[..|calls| - 1]) + if calls[|calls| - 1].PacketCall? then [calls[|calls| - 1]] else []
  }

  /** A session in timestamp order whose tracker evicts nothing. */
  ghost predicate Orderly(cfg: Config, calls: seq<Call>) {
    InOrder(CommandsOf(calls)) && NoEviction(Run(cfg, CommandsOf(calls)).exported)
  }

  lemma CommandsSnoc(calls: seq<Call>, k: Key)
    requires calls != []
    ensures var before, cs := CommandsOf(calls[..|calls| - 1]), CommandsOf(calls);
            match calls[|calls| - 1]
            case SweepCall(now) => cs == before + [SweepAt(now)] && PacketsOf(cs, k) == PacketsOf(before, k)
            case PacketCall(e, _) =>
              var p := PacketIn(e);
              && cs == (if p.None? then before else before + [Arrival(p.value)])
              && PacketsOf(cs, k)
                 == PacketsOf(before, k) + if p.Some? && KeyOf(p.value) == k then [p.value] else []
  {
    hide KeyOf, PacketIn;
    var before, cs := CommandsOf(calls[..|calls| - 1]), CommandsOf(calls);
    assert PacketsOf(before, k) + [] == PacketsOf(before, k);
    if cs != before {
      assert cs[..|cs| - 1] == before;
    }
  }

  lemma OrderlyBefore(cfg: Config, calls: seq<Call>)
    requires calls != [] && Orderly(cfg, calls)
    ensures Orderly(cfg, calls[..|calls| - 1])
  {
    hide Step, PacketsOf, Newest, PacketIn, NoEviction;
    var cs, before := CommandsOf(calls), CommandsOf(calls[..|calls| - 1]);
    if cs != before {
      assert cs[..|cs| - 1] == before;
      LogGrows(cfg, Run(cfg, before), cs[|cs| - 1]);
      LogPrefix(Run(cfg, before).exported, Run(cfg, before).exported, Run(cfg, cs).exported);
    }
  }

  /** The packets of a key depend on the events alone. */
  lemma {:induction false} SamePackets(xs: seq<Call>, ys: seq<Call>, k: Key)
    requires Events(xs) == Events(ys)
    ensures PacketsOf(CommandsOf(xs), k) == PacketsOf(CommandsOf(ys), k)
    decreases |xs| + |ys|
  {
    hide CommandsOf, PacketsOf, KeyOf, PacketIn;
    if xs != [] && xs[|xs| - 1].SweepCall? {
      CommandsSnoc(xs, k);
      SamePackets(xs[..|xs| - 1], ys, k);
    } else if ys != [] && ys[|ys| - 1].SweepCall? {
      CommandsSnoc(ys, k);
      SamePackets(xs, ys[..|ys| - 1], k);
    } else if xs != [] {
      LastEvent(xs, ys);
      CommandsSnoc(xs, k);
      CommandsSnoc(ys, k);
      SamePackets(xs[..|xs| - 1], ys[..|ys| - 1], k);
    }
  }

  lemma LastEvent(xs: seq<Call>, ys: seq<Call>)
    requires Events(xs) == Events(ys) && xs != [] && xs[|xs| - 1].PacketCall?
    requires ys != [] ==> ys[|ys| - 1].PacketCall?
    ensures ys != [] && xs[|xs| - 1] == ys[|ys| - 1] && Events(xs[..|xs| - 1]) == Events(ys[..|ys| - 1])
  {
    var a, b := Events(xs[..|xs| - 1]), if ys == [] then [] else Events(ys[..|ys| - 1]);
    assert Events(xs) == a + [xs[|xs| - 1]];
    if ys != [] {
      assert Events(ys) == b + [ys[|ys| - 1]];
      assert a == Events(xs)[..|a|] && b == Events(ys)[..|b|];
    }
  }

  lemma SameContextAt(a: Config, b: Config, h: seq<Packet>, known: set<int>)
    requires SameTimeouts(a, b) && h != []
    ensures FC.ContextAt(a, h, |h| - 1, known) == FC.ContextAt(b, h, |h| - 1, known)
  {
    hide EntryOf;
    assert h[..|h|] == h;
    SameEntries(a, b, h);
  }

  /** Sweep interval, capacity, manual sweeps and other keys do not show in a packet's context. */
  lemma SameContexts(a: Config, cs: seq<Command>, b: Config, ds: seq<Command>, p: Packet, known: set<int>)
    requires SameTimeouts(a, b) && PacketsOf(cs, KeyOf(p)) == PacketsOf(ds, KeyOf(p))
    requires InOrder(cs + [Arrival(p)]) && NoEviction(Run(a, cs + [Arrival(p)]).exported)
    requires InOrder(ds + [Arrival(p)]) && NoEviction(Run(b, ds + [Arrival(p)]).exported)
    ensures ContextOf(a, Run(a, cs), p, known) == ContextOf(b, Run(b, ds), p, known)
  {
    hide InOrder, NoEviction, SplitOf, PacketsOf, KeyOf, ContextOf, FC.ContextAt, Run, SameTimeouts;
    var ps := PacketsOf(cs, KeyOf(p)) + [p];
    ContextIsTheWalks(a, cs, p, known);
    ContextIsTheWalks(b, ds, p, known);
    SameSplits(a, b, ps);
    SameContextAt(a, b, SplitOf(a, ps).open, known);
  }

  lemma SameLastInput(a: Config, xs: seq<Call>, b: Config, ys: seq<Call>, known: set<int>)
    requires SameTimeouts(a, b) && Orderly(a, xs) && Orderly(b, ys) && xs != [] && ys != []
    requires xs[|xs| - 1] == ys[|ys| - 1] && xs[|xs| - 1].PacketCall?
    requires Events(xs[..|xs| - 1]) == Events(ys[..|ys| - 1])
    ensures var e, faults := xs[|xs| - 1].e, xs[|xs| - 1].faults;
            InputOf(a, Run(a, CommandsOf(xs[..|xs| - 1])), e, faults, known)
            == InputOf(b, Run(b, CommandsOf(ys[..|ys| - 1])), e, faults, known)
  {
    hide CommandsOf, PacketsOf, KeyOf, PacketIn, Events, Run, InOrder, NoEviction, ContextOf, SameTimeouts, EngineView;
    var p := PacketIn(xs[|xs| - 1].e);
    if p.Some? {
      CommandsSnoc(xs, KeyOf(p.value));
      CommandsSnoc(ys, KeyOf(p.value));
      SamePackets(xs[..|xs| - 1], ys[..|ys| - 1], KeyOf(p.value));
      SameContexts(a, CommandsOf(xs[..|xs| - 1]), b, CommandsOf(ys[..|ys| - 1]), p.value, known);
    }
  }

  /** Two in-order sessions with the same events give the engine the same input, event by event, whatever
      the sweep interval, the capacity and the sweeps in between. */
  lemma {:induction false} SameInputs(a: Config, xs: seq<Call>, b: Config, ys: seq<Call>, known: set<int>)
    requires SameTimeouts(a, b) && Events(xs) == Events(ys) && Orderly(a, xs) && Orderly(b, ys)
    ensures InputsOf(a, xs, known) == InputsOf(b, ys, known)
    decreases |xs| + |ys|
  {
    hide CommandsOf, Orderly, InputOf, SameTimeouts;
    if xs != [] && xs[|xs| - 1].SweepCall? {
      OrderlyBefore(a, xs);
      SameInputs(a, xs[..|xs| - 1], b, ys, known);
    } else if ys != [] && ys[|ys| - 1].SweepCall? {
      OrderlyBefore(b, ys);
      SameInputs(a, xs, b, ys[..|ys| - 1], known);
    } else if xs != [] {
      LastEvent(xs, ys);
      OrderlyBefore(a, xs);
      OrderlyBefore(b, ys);
      SameLastInput(a, xs, b, ys, known);
      SameInputs(a, xs[..|xs| - 1], b, ys[..|ys| - 1], known);
    }
  }

  /** So the detections, and every counter, of an in-order session without evictions do not depend on
      when flows are swept. */
  lemma SweepsDoNotChangeDetections(a: Config, xs: seq<Call>, b: Config, ys: seq<Call>, known: set<int>,
          rules: seq<R.Rule>, enabled: bool)
    requires SameTimeouts(a, b) && Events(xs) == Events(ys) && Orderly(a, xs) && Orderly(b, ys)
    ensures E.SessionItems(rules, enabled, InputsOf(a, xs, known))
            == E.SessionItems(rules, enabled, InputsOf(b, ys, known))
    ensures E.SessionCounters(rules, enabled, InputsOf(a, xs, known))
            == E.SessionCounters(rules, enabled, InputsOf(b, ys, known))
  {
    hide InputsOf, Orderly, Events, SameTimeouts, E.SessionItems, E.SessionCounters;
    SameInputs(a, xs, b, ys, known);
  }

  // ---------------------------------------------------------------- the two stages

  lemma ContextOnlyForRuns(rules: seq<R.Rule>, enabled: bool, c: E.Counters, i: E.Input, j: E.Input)
    requires i.e == j.e && (enabled && rules != [] ==> i == j)
    ensures E.Runs(rules, enabled, i.e) == E.Runs(rules, enabled, j.e)
    ensures E.Runs(rules, enabled, i.e) ==> i == j
    ensures E.AfterEvent(rules, E.Runs(rules, enabled, i.e), c, i)
            == E.AfterEvent(rules, E.Runs(rules, enabled, j.e), c, j)
  {
    hide E.Tally;
  }

  /** The flow context, taken from the tracker for a tagged event if the engine can use it. */
  method BuildFor(t: FT.FlowTracker, active: bool, known: set<int>, e: PacketEvent, tag: Option<Tag>)
    returns (ctx: Option<FC.PacketContext>)
    requires t.Valid()
    ensures active ==> ctx == SeenContext(t.cfg, t.View(), FT.PacketOf(TrackerView(e)), tag, known)
  {
    hide FC.BuildContext, RecordOf, KeyOf, TrackerView;
    ctx := None;
    if active && tag.Some? {
      var flow := t.Snapshot(TrackerView(e));
      if flow != null && flow.id.key == tag.value.key && flow.id.createdAt == tag.value.createdAt {
        ctx := FC.BuildContext(tag.value, Some(flow.Record()), known);
      }
    }
  }

  /** detect, which leaves the tracker alone. */
  method Detect(t: FT.FlowTracker, engine: E.EvaluationEngine, i: E.Input) returns (found: seq<E.Detection>)
    requires t.Valid() && engine.Valid()
    modifies engine`warnedSids, engine.stats
    ensures t.Valid() && t.View() == old(t.View()) && engine.Valid()
    ensures found == if E.Runs(engine.rules, engine.enabled, i.e) then E.DetectionsOf(engine.rules, i) else []
    ensures engine.stats.Value()
            == E.AfterEvent(engine.rules, E.Runs(engine.rules, engine.enabled, i.e), old(engine.stats.Value()), i)
  {
    hide *;
    found := engine.Run(i);
  }

  /** Engine.process: the snapshot is taken only for a tagged event and an engine that has rules, and used
      only if it is the tagged flow; the tracker is only read. */
  method Process(t: FT.FlowTracker, engine: E.EvaluationEngine, known: set<int>, e: PacketEvent, tag: Option<Tag>,
          faults: E.Faults)
    returns (found: seq<E.Detection>)
    requires t.Valid() && engine.Valid()
    modifies engine`warnedSids, engine.stats
    ensures t.Valid() && t.View() == old(t.View()) && engine.Valid()
    ensures var ctx := SeenContext(t.cfg, t.View(), FT.PacketOf(TrackerView(e)), tag, known);
            var i := E.Input(EngineView(e), ctx, faults);
            && found == (if E.Runs(engine.rules, engine.enabled, i.e) then E.DetectionsOf(engine.rules, i) else [])
            && engine.stats.Value()
               == E.AfterEvent(engine.rules, E.Runs(engine.rules, engine.enabled, i.e), old(engine.stats.Value()), i)
  {
    hide *;
    var ctx := BuildFor(t, |engine.rules| != 0 && engine.enabled, known, e, tag);
    ghost var seen := SeenContext(t.cfg, t.View(), FT.PacketOf(TrackerView(e)), tag, known);
    var i := E.Input(EngineView(e), ctx, faults);
    ContextOnlyForRuns(engine.rules, engine.enabled, engine.stats.Value(), i, E.Input(EngineView(e), seen, faults));
    found := Detect(t, engine, i);
  }

  /** Stage 4: a skipped event does not reach the tracker, so it has no tag. */
  method Track(t: FT.FlowTracker, engine: E.EvaluationEngine, e: PacketEvent) returns (tag: Option<Tag>)
    requires t.Valid() && engine.Valid()
    modifies t, t.table, t.table.entries.Values
    ensures t.Valid() && fresh(t.table.entries.Values - old(t.table.entries.Values))
    ensures var p := PacketIn(e);
            if p.None? then tag == None && t.View() == old(t.View())
            else t.View() == Update(t.cfg, old(t.View()), p.value)
                 && tag == Some(TagFor(t.cfg, old(t.View()), p.value))
    ensures engine.Valid() && engine.stats.Value() == old(engine.stats.Value())
  {
    hide Update, TagFor, FT.PacketOf, WellFormed, TrackerView;
    tag := None;
    if !e.skipped {
      tag := t.UpdateEvent(TrackerView(e));
    }
  }

  lemma SeenAfterTrack(cfg: Config, s: Tracker, after: Tracker, e: PacketEvent, tag: Option<Tag>, faults: E.Faults,
          known: set<int>)
    requires WellFormed(s)
    requires var p := PacketIn(e);
             if p.None? then tag == None
             else after == Update(cfg, s, p.value) && tag == Some(TagFor(cfg, s, p.value))
    ensures E.Input(EngineView(e), SeenContext(cfg, after, FT.PacketOf(TrackerView(e)), tag, known), faults)
            == InputOf(cfg, s, e, faults, known)
  {
    hide WellFormed, Update, TagFor, ContextOf, FT.PacketOf, EngineView, TrackerView;
    if PacketIn(e).Some? {
      FlowIdAlwaysAgrees(cfg, s, PacketIn(e).value, known);
    }
  }

  /** The two stages on one event: the engine gets the context of the packet as the tracker leaves it. */
  method Handle(t: FT.FlowTracker, engine: E.EvaluationEngine, known: set<int>, e: PacketEvent, faults: E.Faults)
    returns (found: seq<E.Detection>)
    requires t.Valid() && engine.Valid()
    modifies t, t.table, t.table.entries.Values, engine`warnedSids, engine.stats
    ensures t.Valid() && engine.Valid() && fresh(t.table.entries.Values - old(t.table.entries.Values))
    ensures var p := PacketIn(e);
            t.View() == if p.None? then old(t.View()) else Update(t.cfg, old(t.View()), p.value)
    ensures var i := InputOf(t.cfg, old(t.View()), e, faults, known);
            && found == (if E.Runs(engine.rules, engine.enabled, i.e) then E.DetectionsOf(engine.rules, i) else [])
            && engine.stats.Value()
               == E.AfterEvent(engine.rules, E.Runs(engine.rules, engine.enabled, i.e), old(engine.stats.Value()), i)
  {
    hide *;
    ghost var before := t.View();
    assert WellFormed(before) by {
      IsWellFormed(t);
    }
    var tag := Track(t, engine, e);
    ghost var after := t.View();
    found := Process(t, engine, known, e, tag, faults);
    SeenAfterTrack(t.cfg, before, after, e, tag, faults, known);
  }

  lemma IsWellFormed(t: FT.FlowTracker)
    requires t.Valid()
    ensures WellFormed(t.View())
  {
  }

  /** A sweep between events leaves the engine alone. */
  method SweepBetween(t: FT.FlowTracker, engine: E.EvaluationEngine, now: Option<real>)
    requires t.Valid() && engine.Valid()
    modifies t, t.table, t.table.entries.Values
    ensures t.Valid() && fresh(t.table.entries.Values - old(t.table.entries.Values))
    ensures t.View() == Sweep(t.cfg, old(t.View()), if now.Some? then now.value else old(t.View()).clock)
    ensures engine.Valid() && engine.stats.Value() == old(engine.stats.Value())
  {
    hide Sweep, WellFormed;
    var _ := t.SweepTable(now);
  }

  // ---------------------------------------------------------------- the driven session

  /** What one more event does to the run, to the engine's items and to its counters. */
  lemma OneMoreEvent(cfg: Config, calls: seq<Call>, e: PacketEvent, faults: E.Faults, known: set<int>,
          rules: seq<R.Rule>, enabled: bool)
    ensures var s, all := Run(cfg, CommandsOf(calls)), calls + [PacketCall(e, faults)];
            var p, i := PacketIn(e), InputOf(cfg, s, e, faults, known);
            var before, now := InputsOf(cfg, calls, known), InputsOf(cfg, all, known);
            && Run(cfg, CommandsOf(all)) == (if p.None? then s else Update(cfg, s, p.value))
            && E.SessionItems(rules, enabled, now)
               == E.SessionItems(rules, enabled, before)
                  + [if E.Runs(rules, enabled, i.e) then E.DetectionsOf(rules, i) else []]
            && E.SessionCounters(rules, enabled, now)
               == E.AfterEvent(rules, E.Runs(rules, enabled, i.e), E.SessionCounters(rules, enabled, before), i)
  {
    hide Update, Sweep, WellFormed, PacketIn, InputOf, E.AfterEvent, E.DetectionsOf, E.Runs;
    var cs, before := CommandsOf(calls), InputsOf(cfg, calls, known);
    assert (calls + [PacketCall(e, faults)])[..|calls|] == calls && cs + [] == cs;
    if PacketIn(e).Some? {
      assert (cs + [Arrival(PacketIn(e).value)])[..|cs|] == cs;
    }
    var i := InputOf(cfg, Run(cfg, cs), e, faults, known);
    assert (before + [i])[..|before|] == before;
  }

  /** ... and one more sweep. */
  lemma OneMoreSweep(cfg: Config, calls: seq<Call>, now: Option<real>, known: set<int>)
    ensures var s, all := Run(cfg, CommandsOf(calls)), calls + [SweepCall(now)];
            && Run(cfg, CommandsOf(all)) == Sweep(cfg, s, if now.Some? then now.value else s.clock)
            && InputsOf(cfg, all, known) == InputsOf(cfg, calls, known)
  {
    hide Update, Sweep, WellFormed, PacketIn, InputOf;
    var cs, before := CommandsOf(calls), InputsOf(cfg, calls, known);
    assert (calls + [SweepCall(now)])[..|calls|] == calls && before + [] == before;
    assert (cs + [SweepAt(now)])[..|cs|] == cs;
  }

  lemma NoCallsYet(cfg: Config, known: set<int>, rules: seq<R.Rule>, enabled: bool)
    ensures Run(cfg, CommandsOf([])) == INIT && InputsOf(cfg, [], known) == []
    ensures E.SessionItems(rules, enabled, []) == [] && E.SessionCounters(rules, enabled, []) == E.ZERO
  {
  }

  /** Tracker and engine over a session: the tracker holds the run of its commands, and the engine detects
      what the naive loop gives on each event with the context of its packet. */
  method Drive(cfg: Config, engine: E.EvaluationEngine, known: set<int>, calls: seq<Call>)
    returns (t: FT.FlowTracker, all: seq<seq<E.Detection>>)
    requires engine.Valid() && engine.stats.Value() == E.ZERO
    modifies engine`warnedSids, engine.stats
    ensures fresh(t) && t.Valid() && t.cfg == cfg && t.View() == Run(cfg, CommandsOf(calls))
    ensures engine.Valid()
    ensures var inputs := InputsOf(cfg, calls, known);
            && all == E.SessionItems(engine.rules, engine.enabled, inputs)
            && engine.stats.Value() == E.SessionCounters(engine.rules, engine.enabled, inputs)
  {
    hide *;
    t := new FT.FlowTracker(cfg);
    assert t.table.entries.Values == {};
    all := [];
    var n := 0;
    NoCallsYet(cfg, known, engine.rules, engine.enabled);
    assert calls[..0] == [];
    while n < |calls|
      invariant 0 <= n <= |calls| && fresh(t) && fresh(t.table) && fresh(t.table.entries.Values) && t.Valid()
                && t.cfg == cfg && engine.Valid()
      invariant t.View() == Run(cfg, CommandsOf(calls[..n]))
      invariant all == E.SessionItems(engine.rules, engine.enabled, InputsOf(cfg, calls[..n], known))
      invariant engine.stats.Value()
                == E.SessionCounters(engine.rules, engine.enabled, InputsOf(cfg, calls[..n], known))
    {
      match calls[n] {
        case PacketCall(e, faults) =>
          assert calls[..n + 1] == calls[..n] + [PacketCall(e, faults)];
          OneMoreEvent(cfg, calls[..n], e, faults, known, engine.rules, engine.enabled);
          var found := Handle(t, engine, known, e, faults);
          all := all + [found];
        case SweepCall(now) =>
          assert calls[..n + 1] == calls[..n] + [SweepCall(now)];
          OneMoreSweep(cfg, calls[..n], now, known);
          SweepBetween(t, engine, now);
      }
      n := n + 1;
    }
    assert calls[..n] == calls;
  }
}

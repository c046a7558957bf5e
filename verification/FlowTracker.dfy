/** src/flow/flow_table.py and src/flow/tracker.py: the mutable table and tracker. */
module FlowTracker {
  import opened Common
  import opened FlowKey
  import opened TcpState
  import opened FlowRecord
  import opened FlowHistories

  /** A flow and what FlowEntry adds to it: the source's Flow and FlowEntry objects, which are
      created together and refer to each other one to one. */
  class FlowEntry {
    const id: FlowId
    var app: Option<string>
    var span: Span
    var totals: Totals
    var forward: Lane
    var backward: Lane
    var flags: FlagCounts
    var state: State
    var closeReason: Option<CloseReason>
    var midstream: bool
    var finFwd: bool
    var finBwd: bool
    var synackSeen: bool
    var synackDir: Option<Direction>
    var stateChangedAt: real
    ghost var hist: seq<Packet>    // the packets counted so far

    constructor (p: Packet, key: Key)
      requires key == KeyOf(p)
      ensures Value() == NewEntry(p) && hist == []
    {
      id := FlowId(key, p.protocol, p.src, p.dst, p.ts);
      app, span, totals := None, Span(p.ts, p.ts), Totals(0, 0, 0);
      forward, backward, flags := Lane(0, 0), Lane(0, 0), FlagCounts(0, 0, 0, 0);
      state := if p.protocol == UDP then ACTIVE else HANDSHAKE;
      closeReason, midstream := None, false;
      finFwd, finBwd, synackSeen, synackDir := false, false, false, None;
      stateChangedAt := p.ts;
      hist := [];
    }

    function Record(): Flow
      reads this
    {
      Flow(id, app, span, totals, forward, backward, flags, state, closeReason, midstream)
    }

    ghost function Value(): Entry
      reads this
    {
      Entry(Record(), finFwd, finBwd, synackSeen, synackDir, stateChangedAt)
    }

    /** The incrementally updated fields are the fold of the history. */
    ghost predicate Faithful(cfg: Config)
      reads this
    {
      hist != [] && Value() == EntryOf(cfg, hist)
    }

    function Marks(): Context
      reads this
    {
      Context(synackSeen, synackDir, finFwd, finBwd, midstream)
    }

    /** Call next_state on a context dict and copy the dict back. */
    method RunMachine(cfg: Config, p: Packet, dir: Direction) returns (newState: State)
      modifies `synackSeen, `synackDir, `finFwd, `finBwd, `midstream
      ensures (newState, Marks())
              == Transition(cfg.needsFinalAck, state, p.flags, dir, old(Marks()), totals.packets == 0)
    {
      var ctx := new TcpContext(Context(synackSeen, synackDir, finFwd, finBwd, midstream));
      newState := ctx.NextState(cfg.needsFinalAck, state, p.flags, dir, totals.packets == 0);
      synackSeen := ctx.c.synackSeen;
      synackDir := ctx.c.synackDir;
      finFwd := ctx.c.finFwd;
      finBwd := ctx.c.finBwd;
      midstream := ctx.c.midstream;
    }

    /** Step 6 of update(): the TCP state machine. */
    method Advance(cfg: Config, p: Packet, dir: Direction)
      requires dir == DirectionOf(id.endpointA, p.src)
      modifies `synackSeen, `synackDir, `finFwd, `finBwd, `midstream, `state, `stateChangedAt
      ensures Value() == Moved(cfg, old(Value()), p)
    {
      hide Transition;
      if p.protocol == TCP {
        var newState := RunMachine(cfg, p, dir);
        if newState != state {
          state := newState;
          stateChangedAt := p.ts;
        }
      }
    }

    /** Step 7 of update(): the statistics. */
    method Count(p: Packet, dir: Direction)
      requires dir == DirectionOf(id.endpointA, p.src)
      modifies this
      ensures Value() == old(Value()).(flow := Counted(old(Value()).flow, p))
      ensures hist == old(hist) + [p]
    {
      hide DirectionOf, ResolveApp, FlagCounts.Add, Lane.AddIf, Span.Extend, Totals.Add;
      CountTotals(p);
      CountDirection(p, dir);
      CountFlags(p);
      CountApp(p.app);
      hist := hist + [p];
    }

    method CountTotals(p: Packet)
      modifies `span, `totals
      ensures span == old(span).Extend(p.ts) && totals == old(totals).Add(p)
    {
      span := Span(MinR(span.first, p.ts), MaxR(span.last, p.ts));
      totals := Totals(totals.packets + 1, totals.bytes + p.rawLength, totals.payload + p.payloadLength);
    }

    method CountDirection(p: Packet, dir: Direction)
      modifies `forward, `backward
      ensures forward == old(forward).AddIf(dir == Forward, p) && backward == old(backward).AddIf(dir != Forward, p)
    {
      if dir == Forward {
        forward := Lane(forward.packets + 1, forward.bytes + p.rawLength);
      } else {
        backward := Lane(backward.packets + 1, backward.bytes + p.rawLength);
      }
    }

    method CountFlags(p: Packet)
      modifies `flags
      ensures flags == old(flags).Add(p)
    {
      if p.protocol == TCP {
        if SYN in p.flags { flags := flags.(syn := flags.syn + 1); }
        if ACK in p.flags { flags := flags.(ack := flags.ack + 1); }
        if FIN in p.flags { flags := flags.(fin := flags.fin + 1); }
        if RST in p.flags { flags := flags.(rst := flags.rst + 1); }
      }
    }

    method CountApp(eventApp: Option<string>)
      modifies `app
      ensures app == ResolveApp(old(app), eventApp)
    {
      if eventApp.Some? {
        if app.None? || (app.value == "UNKNOWN" && eventApp.value != "UNKNOWN") {
          app := eventApp;
        }
      }
    }
  }

  /** The OrderedDict: a map and its insertion order. */
  class FlowTable {
    var entries: map<Key, FlowEntry>
    var order: seq<Key>

    constructor ()
      ensures entries == map[] && order == []
    {
      entries, order := map[], [];
    }

    ghost predicate Valid()
      reads this
    {
      NoDup(order) && forall k :: k in order <==> k in entries
    }

    function Get(key: Key): FlowEntry?
      reads this
    {
      if key in entries then entries[key] else null
    }

    method Add(key: Key, entry: FlowEntry)
      modifies this
      ensures entries == old(entries)[key := entry]
      ensures order == Without(old(order), key) + [key]
    {
      entries := entries[key := entry];
      order := Without(order, key) + [key];
    }

    method Touch(key: Key)
      modifies this
      ensures entries == old(entries)
      ensures order == if key in entries then Without(old(order), key) + [key] else old(order)
    {
      if key in entries {
        order := Without(order, key) + [key];
      }
    }

    method Remove(key: Key) returns (e: FlowEntry?)
      modifies this
      ensures e != null <==> key in old(entries)
      ensures e != null ==> e == old(entries)[key]
      ensures entries == old(entries) - {key}
      ensures order == if key in old(entries) then Without(old(order), key) else old(order)
    {
      if key in entries {
        e := entries[key];
        entries := entries - {key};
        order := Without(order, key);
      } else {
        e := null;
        assert entries - {key} == entries;
      }
    }

    function Items(): (r: seq<(Key, FlowEntry)>)
      requires Valid()
      reads this
      ensures |r| == |order| && forall i :: 0 <= i < |r| ==> r[i] == (order[i], entries[order[i]])
    {
      seq(|order|, i requires 0 <= i < |order| && order[i] in entries reads this => (order[i], entries[order[i]]))
    }

    function Oldest(): (r: Option<(Key, FlowEntry)>)
      requires Valid()
      reads this
    {
      if order == [] then None else Some((order[0], entries[order[0]]))
    }
  }

  class FlowTracker {
    const cfg: Config
    const table: FlowTable
    var clock: real
    var lastSweep: Option<real>
    var exported: seq<Flow>             // the records passed to on_export, oldest first
    ghost var segments: seq<Segment>    // their histories

    constructor (cfg: Config)
      ensures Valid() && View() == INIT && this.cfg == cfg && fresh(table) && table.entries == map[]
    {
      this.cfg := cfg;
      table := new FlowTable();
      clock, lastSweep, exported, segments := 0.0, None, [], [];
    }

    ghost function Live(): map<Key, seq<Packet>>
      reads table, table.entries.Values
    {
      map k | k in table.entries :: table.entries[k].hist
    }

    /** The tracker as the history-level specification sees it. */
    ghost function View(): Tracker
      reads this, table, table.entries.Values
    {
      Tracker(table.order, Live(), segments, clock, lastSweep)
    }

    /** Every exported record is the fold of its flow's packets, with the reason filled in. */
    ghost predicate LogFaithful()
      reads `exported, `segments
    {
      && |exported| == |segments|
      && forall i :: 0 <= i < |segments| ==>
           segments[i].packets != []
           && exported[i] == RecordOf(cfg, segments[i].packets).(closeReason := Some(segments[i].reason))
    }

    /** Every stored entry is the fold of its packets, and no two keys share one. */
    ghost predicate TableFaithful()
      reads table, table.entries.Values
    {
      && (forall k :: k in table.entries ==> table.entries[k].Faithful(cfg))
      && (forall j, k :: j in table.entries && k in table.entries && j != k ==> table.entries[j] != table.entries[k])
    }

    ghost predicate Valid()
      reads this, table, table.entries.Values
    {
      TableFaithful() && LogFaithful() && WellFormed(View()) && |table.order| <= cfg.maxActive
    }

    /** _export_flow: the key rebuilt from the endpoints always finds the entry. */
    method ExportFlow(entry: FlowEntry, reason: CloseReason, ghost k: Key)
      requires Valid() && k in table.entries && table.entries[k] == entry
      modifies `exported, `segments, table, entry`closeReason
      ensures Valid() && View() == Export(old(View()), k, reason)
      ensures table.entries == old(table.entries) - {k}
    {
      hide EntryOf, WellFormed, Without, KeyOf, RecordOf, LogFaithful, TableFaithful;
      KeyRebuilt(entry, k);
      ExportWellFormed(View(), k, reason);
      var removed := TakeOut(MakeKey(entry.id.protocol, entry.id.endpointA, entry.id.endpointB));
      if removed == null { return; }
      Close(removed, reason);
    }

    /** Remove the entry of a key, if there is one. */
    method TakeOut(key: Key) returns (removed: FlowEntry?)
      requires TableFaithful()
      modifies table
      ensures removed != null <==> key in old(table.entries)
      ensures removed != null ==> removed == old(table.entries)[key] && removed !in table.entries.Values
      ensures TableFaithful() && Live() == old(Live()) - {key} && table.entries == old(table.entries) - {key}
      ensures table.order == if key in old(table.entries) then Without(old(table.order), key) else old(table.order)
    {
      hide EntryOf, Without;
      removed := table.Remove(key);
      assert Live() == old(Live()) - {key};
    }

    /** Fill in the close reason and hand the record to on_export. */
    method Close(entry: FlowEntry, reason: CloseReason)
      requires LogFaithful() && entry.hist != [] && entry.Record() == RecordOf(cfg, entry.hist)
      modifies `exported, `segments, entry`closeReason
      ensures LogFaithful() && segments == old(segments) + [Segment(entry.hist, reason)]
    {
      hide RecordOf;
      entry.closeReason := Some(reason);
      exported := exported + [entry.Record()];
      segments := segments + [Segment(entry.hist, reason)];
    }

    lemma KeyRebuilt(entry: FlowEntry, k: Key)
      requires Valid() && k in table.entries && table.entries[k] == entry
      ensures MakeKey(entry.id.protocol, entry.id.endpointA, entry.id.endpointB) == k
      ensures entry.hist != [] && entry.Record() == RecordOf(cfg, entry.hist) && entry.hist == View().live[k]
    {
      assert k in View().live;
      RecordIdentity(cfg, entry.hist);
    }

    // -------------------------------------------------------------- sweep and flush

    /** What sweep and flush note down for key k: the entry and the reason it is closed for. */
    ghost function Item(k: Key, flushing: bool): (FlowEntry, CloseReason)
      requires k in table.entries && table.entries[k].hist != []
      reads table, table.entries.Values
    {
      (table.entries[k], ReasonFor(cfg, table.entries[k].hist, flushing))
    }

    ghost predicate Listed(list: seq<(FlowEntry, CloseReason)>, ks: seq<Key>, flushing: bool)
      reads this, table, table.entries.Values
    {
      && |list| == |ks| && Exportable(View(), ks)
      && forall i :: 0 <= i < |ks| ==> list[i] == Item(ks[i], flushing)
    }

    lemma ItemOf(k: Key, flushing: bool)
      requires Valid() && k in table.order
      ensures k in table.entries && table.entries[k].hist != [] && table.entries[k].hist == View().live[k]
      ensures table.entries[k].Record() == RecordOf(cfg, View().live[k])
      ensures var f := table.entries[k].Record();
              Item(k, flushing) == (table.entries[k], if flushing
                  && !Terminal(f.state) then Flushed else TimeoutReason(f))
    {
      KeyRebuilt(table.entries[k], k);
    }

    method ExportHead(list: seq<(FlowEntry, CloseReason)>, ghost ks: seq<Key>, ghost flushing: bool)
      requires Valid() && Listed(list, ks, flushing) && list != []
      modifies `exported, `segments, table, table.entries.Values
      ensures Valid() && View() == Export(old(View()), ks[0], ReasonFor(cfg, old(View()).live[ks[0]], flushing))
      ensures Listed(list[1..], ks[1..], flushing)
      ensures table.entries.Values <= old(table.entries.Values)
    {
      hide EntryOf, RecordOf, WellFormed, ReasonFor, Without, LogFaithful;
      ExportKeepsExportable(View(), ks, list[0].1);
      ExportFlow(list[0].0, list[0].1, ks[0]);
    }

    /** The second loop of sweep and of flush. */
    method ExportListed(list: seq<(FlowEntry, CloseReason)>, ghost ks: seq<Key>, ghost flushing: bool)
      requires Valid() && Listed(list, ks, flushing)
      modifies `exported, `segments, table, table.entries.Values
      ensures Valid() && View() == ExportAll(cfg, old(View()), ks, flushing)
      ensures table.entries.Values <= old(table.entries.Values)
    {
      hide EntryOf, RecordOf, WellFormed, ReasonFor, LogFaithful, TableFaithful, Without, Export, Exportable;
      var i := 0;
      assert list[0..] == list && ks[0..] == ks;
      while i < |list|
        invariant 0 <= i <= |list| && Valid() && table.entries.Values <= old(table.entries.Values)
        invariant Listed(list[i..], ks[i..], flushing)
        invariant ExportAll(cfg, View(), ks[i..], flushing) == ExportAll(cfg, old(View()), ks, flushing)
      {
        assert ks[i..][1..] == ks[i + 1..] && list[i..][1..] == list[i + 1..];
        ExportHead(list[i..], ks[i..], flushing);
        i := i + 1;
      }
    }

    /** After i items, `ks` are the expired keys among them and `list` what is noted for those. */
    ghost predicate Collected(list: seq<(FlowEntry, CloseReason)>, ks: seq<Key>, i: nat, now: real)
      requires Valid() && i <= |table.order|
      reads this, table, table.entries.Values
    {
      && |list| == |ks|
      && ks + ExpiredAmong(cfg, View().live, table.order[i..], now) == ExpiredAmong(cfg, View().live, table.order, now)
      && forall j :: 0 <= j < |ks| ==> ks[j] in table.order && list[j] == Item(ks[j], false)
    }

    lemma OrderIsLive()
      requires Valid()
      ensures forall k :: k in table.order ==> k in View().live && View().live[k] != []
    {
    }

    lemma CollectOne(list: seq<(FlowEntry, CloseReason)>, ks: seq<Key>, i: nat, now: real)
      requires Valid() && i < |table.order| && Collected(list, ks, i, now)
      ensures var e := table.entries[table.order[i]];
              if IsExpired(cfg, e.Record(), now)
              then Collected(list + [(e, TimeoutReason(e.Record()))], ks + [table.order[i]], i + 1, now)
              else Collected(list, ks, i + 1, now)
    {
      hide EntryOf, RecordOf, LogFaithful, TableFaithful, Item, ExpiredAmong, IsExpired, TimeoutReason, WellFormed;
      OrderIsLive();
      ItemOf(table.order[i], false);
      ExpiredHead(cfg, View().live, table.order, i, now, ks, ExpiredAmong(cfg, View().live, table.order, now));
    }

    lemma CollectDone(list: seq<(FlowEntry, CloseReason)>, ks: seq<Key>, now: real)
      requires Valid() && Collected(list, ks, |table.order|, now)
      ensures ks == ExpiredAmong(cfg, View().live, View().order, now)
      ensures Listed(list, ks, false) && Exportable(View(), ks) && |list| == |ks|
    {
      ExpiredNone(cfg, View().live, table.order[|table.order|..], now);
    }

    /** The first loop of sweep: the entries that have timed out, in table order. */
    method CollectExpired(now: real) returns (list: seq<(FlowEntry, CloseReason)>, ghost ks: seq<Key>)
      requires Valid()
      ensures ks == ExpiredAmong(cfg, View().live, View().order, now)
      ensures Listed(list, ks, false) && Exportable(View(), ks) && |list| == |ks|
    {
      hide Listed, Exportable, Collected, EntryOf, RecordOf, LogFaithful, IsExpired, TimeoutReason, ExpiredAmong;
      var items := table.Items();
      list, ks := [], [];
      var i := 0;
      CollectNothing(now);
      while i < |items|
        invariant 0 <= i <= |items| && Collected(list, ks, i, now)
      {
        var entry := items[i].1;
        CollectOne(list, ks, i, now);
        if IsExpired(cfg, entry.Record(), now) {
          list := list + [(entry, TimeoutReason(entry.Record()))];
          ks := ks + [table.order[i]];
        }
        i := i + 1;
      }
      CollectDone(list, ks, now);
    }

    lemma CollectNothing(now: real)
      requires Valid()
      ensures Collected([], [], 0, now)
    {
      assert table.order[0..] == table.order;
    }

    /** sweep(now): export every flow that has timed out; an absent `now` is the clock. */
    method SweepTable(now: Option<real>) returns (n: nat)
      requires Valid()
      modifies this, table, table.entries.Values
      ensures Valid() && table.entries.Values <= old(table.entries.Values)
      ensures View() == Sweep(cfg, old(View()), if now.Some? then now.value else old(clock))
      ensures n == |old(View()).order| - |View().order|
    {
      hide EntryOf, RecordOf, TableFaithful, LogFaithful, ExpiredAmong, WellFormed, Exportable, ExportAll, Listed;
      var evalTime := if now.Some? then now.value else clock;
      ghost var before := View();
      var list;
      ghost var ks;
      list, ks := CollectExpired(evalTime);
      ExportAllWellFormed(cfg, before, ks, false);
      ExportListed(list, ks, false);
      ghost var swept := View();
      lastSweep := Some(MinR(evalTime, clock));
      assert View() == swept.(lastSweep := Some(MinR(evalTime, clock)));
      SweptWellFormed(swept, MinR(evalTime, clock));
      n := |list|;
    }

    /** The first loop of flush: every entry, oldest first, with its reason. */
    method CollectAll() returns (list: seq<(FlowEntry, CloseReason)>)
      requires Valid()
      ensures Listed(list, table.order, true)
    {
      hide EntryOf, RecordOf, LogFaithful, TableFaithful, Item, TimeoutReason;
      var items := table.Items();
      list := [];
      var i := 0;
      while i < |items|
        invariant 0 <= i <= |items| && |list| == i
        invariant forall j :: 0 <= j < i ==> list[j] == Item(table.order[j], true)
      {
        var entry := items[i].1;
        ItemOf(table.order[i], true);
        var reason := if Terminal(entry.Record().state) then TimeoutReason(entry.Record()) else Flushed;
        list := list + [(entry, reason)];
        i := i + 1;
      }
    }

    /** flush(): export everything, oldest first. The defensive removal never fires: each export
        shrinks the table. */
    method FlushTable() returns (n: nat)
      requires Valid()
      modifies this, table, table.entries.Values
      ensures Valid() && View() == Flush(cfg, old(View())) && table.entries.Values <= old(table.entries.Values)
      ensures n == |old(View()).order|
    {
      hide EntryOf, RecordOf, TableFaithful, LogFaithful, WellFormed, ExportAll;
      var list := CollectAll();
      ExportListed(list, table.order, true);
      n := |list|;
    }

    // -------------------------------------------------------------- update

    /** Steps 2 and 3 of update(): look the flow up; close it first if it timed out or is reused. */
    method Lookup(p: Packet) returns (entry: FlowEntry?)
      requires Valid()
      modifies this, table, table.entries.Values
      ensures Valid() && View() == Cut(cfg, old(View()), p)
      ensures entry != null <==> KeyOf(p) in table.entries
      ensures entry != null ==> entry == table.entries[KeyOf(p)]
      ensures table.entries.Values <= old(table.entries.Values)
    {
      hide EntryOf, WellFormed, Without, MakeKey;
      var key := KeyOf(p);
      entry := table.Get(key);
      if entry != null {
        KeyRebuilt(entry, key);
        if IsExpired(cfg, entry.Record(), p.ts) {
          ExportFlow(entry, TimeoutReason(entry.Record()), key);
          entry := null;
        } else if p.protocol == TCP && SYN in p.flags && ACK !in p.flags && Terminal(entry.state) {
          ExportFlow(entry, PortReuse, key);
          entry := null;
        }
      }
    }

    /** Step 4.1: evict while the table is full; the loop runs at most once. */
    method Evict()
      requires Valid()
      modifies this, table, table.entries.Values
      ensures Valid() && View() == MakeRoom(cfg, old(View()))
      ensures |table.order| < cfg.maxActive && table.entries.Values <= old(table.entries.Values)
      ensures table.entries.Keys <= old(table.entries.Keys)
    {
      hide EntryOf, Without, LogFaithful, TableFaithful, Export;
      ghost var before := View();
      while |table.order| >= cfg.maxActive
        invariant Valid() && table.entries.Values <= old(table.entries.Values)
        invariant table.entries.Keys <= old(table.entries.Keys)
        invariant View() == before || (|before.order| >= cfg.maxActive && View() == MakeRoom(cfg, before))
        invariant View() != before ==> |table.order| < cfg.maxActive
        decreases |table.order|
      {
        MakeRoomWellFormed(cfg, before);
        var oldest := table.Oldest();
        ExportFlow(oldest.value.1, Evicted, oldest.value.0);
      }
    }

    ghost predicate OthersFaithful(k: Key)
      requires k in table.entries
      reads table, table.entries.Values
    {
      && (forall j :: j in table.entries && j != k ==>
            table.entries[j] != table.entries[k] && table.entries[j].Faithful(cfg))
      && (forall i, j :: i in table.entries && j in table.entries && i != j ==> table.entries[i] != table.entries[j])
    }

    /** Steps 5 to 7 for the entry of key k, which is new or in use. */
    method Process(entry: FlowEntry, p: Packet, ghost k: Key) returns (dir: Direction)
      requires k in table.entries && table.entries[k] == entry && OthersFaithful(k)
      requires Ready(entry, p)
      modifies entry
      ensures dir == DirectionOf(entry.id.endpointA, p.src)
      ensures TableFaithful() && entry.Faithful(cfg) && entry.hist == old(entry.hist) + [p]
      ensures Live() == old(Live())[k := old(entry.hist) + [p]]
    {
      hide EntryOf, NewEntry;
      dir := CountPacket(entry, p);
    }

    /** The entry is the fold of its packets, or has none yet. */
    ghost predicate Ready(entry: FlowEntry, p: Packet)
      reads entry
    {
      if entry.hist == [] then entry.Value() == NewEntry(p) else entry.Faithful(cfg)
    }

    method CountPacket(entry: FlowEntry, p: Packet) returns (dir: Direction)
      requires Ready(entry, p)
      modifies entry
      ensures dir == DirectionOf(entry.id.endpointA, p.src)
      ensures entry.Faithful(cfg) && entry.hist == old(entry.hist) + [p]
    {
      hide EntryOf, Absorb, Moved, Counted, NewEntry;
      EntrySnoc(cfg, entry.hist, p);
      dir := DirectionOf(entry.id.endpointA, p.src);
      AbsorbIs(cfg, entry.Value(), p);
      entry.Advance(cfg, p, dir);
      entry.Count(p, dir);
    }

    /** A new entry, not counted yet, becomes the newest of the table. */
    method Register(p: Packet) returns (entry: FlowEntry)
      requires Valid() && KeyOf(p) !in table.entries
      modifies table
      ensures fresh(entry) && entry.Value() == NewEntry(p) && entry.hist == []
      ensures table.entries == old(table.entries)[KeyOf(p) := entry] && OthersFaithful(KeyOf(p))
      ensures View() == old(View()).(order := Without(old(table.order), KeyOf(p)) + [KeyOf(p)],
                                     live := old(View()).live[KeyOf(p) := []])
    {
      hide EntryOf, RecordOf, Without, LogFaithful, KeyOf, NewEntry, WellFormed;
      var key := KeyOf(p);
      entry := new FlowEntry(p, key);
      table.Add(key, entry);
      assert Live() == old(Live())[key := []];
    }

    /** Step 4.1: make room, then create the flow. */
    method Create(p: Packet) returns (entry: FlowEntry)
      requires Valid() && KeyOf(p) !in table.entries
      modifies this, table, table.entries.Values
      ensures fresh(entry) && entry.Value() == NewEntry(p) && entry.hist == []
      ensures LogFaithful() && IsPlaced(cfg, old(View()), View(), p)
      ensures KeyOf(p) in table.entries && table.entries[KeyOf(p)] == entry && OthersFaithful(KeyOf(p))
      ensures fresh(table.entries.Values - old(table.entries.Values))
    {
      hide EntryOf, RecordOf, Without, LogFaithful, TableFaithful, OthersFaithful, KeyOf, NewEntry, WellFormed,
           IsPlaced;
      ghost var before := View();
      Evict();
      entry := Register(p);
      NewIsPlaced(cfg, before, View(), p);
    }

    /** Step 4: make the packet's flow the newest in the table, creating it if there is none. */
    method Place(found: FlowEntry?, p: Packet) returns (entry: FlowEntry)
      requires Valid() && found == table.Get(KeyOf(p))
      modifies this, table, table.entries.Values
      ensures LogFaithful() && IsPlaced(cfg, old(View()), View(), p)
      ensures KeyOf(p) in table.entries && table.entries[KeyOf(p)] == entry
      ensures OthersFaithful(KeyOf(p)) && Ready(entry, p)
      ensures fresh(table.entries.Values - old(table.entries.Values))
    {
      hide EntryOf, Without, LogFaithful, MakeRoom, MakeKey, NewEntry, WellFormed, TimeoutReason;
      if found == null {
        entry := Create(p);
      } else {
        entry := found;
        table.Touch(KeyOf(p));
        assert Live() == old(Live())[KeyOf(p) := old(Live())[KeyOf(p)]];
      }
    }

    /** Steps 2 to 4 of update(). */
    method Acquire(p: Packet) returns (entry: FlowEntry)
      requires Valid()
      modifies this, table, table.entries.Values
      ensures LogFaithful() && IsPlaced(cfg, Cut(cfg, old(View()), p), View(), p)
      ensures KeyOf(p) in table.entries && table.entries[KeyOf(p)] == entry
      ensures OthersFaithful(KeyOf(p)) && Ready(entry, p)
      ensures fresh(table.entries.Values - old(table.entries.Values))
    {
      hide EntryOf, LogFaithful, TableFaithful, OthersFaithful, MakeRoom, Cut, WellFormed, MakeKey, IsPlaced;
      var found := Lookup(p);
      entry := Place(found, p);
    }

    /** Steps 2 to 7 of update(). */
    method Receive(p: Packet) returns (tag: Tag)
      requires Valid() && p.ts <= clock
      modifies this, table, table.entries.Values
      ensures Valid() && View() == Arrive(cfg, old(View()), p)
      ensures tag == TagOf(cfg, Arrive(cfg, old(View()), p).live[KeyOf(p)])
      ensures fresh(table.entries.Values - old(table.entries.Values))
    {
      hide EntryOf, Without, LogFaithful, TableFaithful, OthersFaithful, MakeRoom, Cut, WellFormed, MakeKey, NewEntry,
           Ready;
      ghost var before := View();
      ArriveWellFormed(cfg, before, p);
      assert Watermark(before, p) == before;
      var entry := Acquire(p);
      ghost var placed := View();
      PlacedThenPut(cfg, Cut(cfg, before, p), placed, p);
      var dir := Process(entry, p, KeyOf(p));
      assert View() == placed.(live := placed.live[KeyOf(p) := placed.live[KeyOf(p)] + [p]]);
      tag := Tag(entry.id.key, entry.id.createdAt, dir, entry.state);
    }

    /** update() for an event that is tracked. */
    method Track(p: Packet) returns (tag: Tag)
      requires Valid()
      modifies this, table, table.entries.Values
      ensures Valid() && View() == Update(cfg, old(View()), p) && tag == TagFor(cfg, old(View()), p)
      ensures fresh(table.entries.Values - old(table.entries.Values))
    {
      hide EntryOf, Without, LogFaithful, TableFaithful, WellFormed, KeyOf, TagOf, Arrive, Sweep;
      ghost var before := View();
      clock := MaxR(clock, p.ts);
      ghost var now := View();
      assert now == Watermark(before, p);
      WatermarkArrives(cfg, before, p);
      tag := Receive(p);
      ghost var after := View();
      if lastSweep.None? {
        lastSweep := Some(clock);
        assert View() == after.(lastSweep := Some(clock));
        SweptWellFormed(after, clock);
      } else if clock - lastSweep.value >= cfg.sweepInterval {
        var _ := SweepTable(Some(clock));
      }
    }

    /** update(): an event the guard rejects is left without a flow and changes nothing. */
    method UpdateEvent(e: Event) returns (tag: Option<Tag>)
      requires Valid()
      modifies this, table, table.entries.Values
      ensures Valid() && fresh(table.entries.Values - old(table.entries.Values))
      ensures var p := PacketOf(e);
              if p.None? then tag == None && View() == old(View())
              else View() == Update(cfg, old(View()), p.value) && tag == Some(TagFor(cfg, old(View()), p.value))
    {
      if e.timestamp.None? || e.invalid || e.protocol.None? || e.src.None? || e.dst.None? {
        return None;
      }
      var t := Track(Packet(e.timestamp.value, e.protocol.value, e.src.value, e.dst.value, e.flags, e.rawLength,
                            e.payloadLength, e.app));
      tag := Some(t);
    }

    /** snapshot(): a read-only lookup of the event's flow. What it returns is the live object of the
        table, so the caller sees the later packets of the flow too. */
    method Snapshot(e: Event) returns (flow: FlowEntry?)
      requires Valid()
      ensures flow != null <==> PacketOf(e).Some? && KeyOf(PacketOf(e).value) in table.entries
      ensures flow != null ==> var k := KeyOf(PacketOf(e).value);
                               flow == table.entries[k] && flow.Record() == RecordOf(cfg, View().live[k])
    {
      if e.timestamp.None? || e.invalid || e.protocol.None? || e.src.None? || e.dst.None? {
        return null;
      }
      var key := MakeKey(e.protocol.value, e.src.value, e.dst.value);
      flow := table.Get(key);
      if flow != null {
        KeyRebuilt(flow, key);
      }
    }
  }

  /** The fields of an IDSEvent the tracker reads. A missing IP or port makes the endpoint None; a
      timestamp that is not a finite number makes it None. */
  datatype Event = Event(
    timestamp: Option<real>,
    invalid: bool,                  // preprocess_status == "invalid"
    protocol: Option<Protocol>,     // None: neither TCP nor UDP
    src: Option<Endpoint>,
    dst: Option<Endpoint>,
    flags: set<Flag>,
    rawLength: nat,
    payloadLength: nat,
    app: Option<string>)

  /** The packet an event contributes, or None when the tracker skips it. */
  function PacketOf(e: Event): Option<Packet> {
    if e.timestamp.Some? && !e.invalid && e.protocol.Some? && e.src.Some? && e.dst.Some? then
      Some(Packet(e.timestamp.value, e.protocol.value, e.src.value, e.dst.value, e.flags, e.rawLength,
                  e.payloadLength, e.app))
    else None
  }
}

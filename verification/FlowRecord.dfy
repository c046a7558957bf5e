/** src/models/flow.py and src/flow/timeout.py: a flow's record as the fold of its packets. */
module FlowRecord {
  import opened Common
  import opened FlowKey
  import opened TcpState

  /** A packet that update() tracks. `app` is upper case already. */
  datatype Packet = Packet(
    ts: real,
    protocol: Protocol,
    src: Endpoint,
    dst: Endpoint,
    flags: set<Flag>,
    rawLength: nat,
    payloadLength: nat,
    app: Option<string>)

  datatype CloseReason =
    TcpClosed | TcpReset | IdleTimeout | HandshakeTimeout | PortReuse | Evicted | Flushed

  /** What identifies a flow. createdAt, with the key, is what make_flow_id hashes. */
  datatype FlowId = FlowId(key: Key, protocol: Protocol, endpointA: Endpoint, endpointB: Endpoint, createdAt: real)

  /** start_time and last_seen. */
  datatype Span = Span(first: real, last: real) {
    function Extend(ts: real): Span { Span(MinR(first, ts), MaxR(last, ts)) }
  }

  /** packet_count, byte_count and payload_byte_count. */
  datatype Totals = Totals(packets: nat, bytes: nat, payload: nat) {
    function Add(p: Packet): Totals { Totals(packets + 1, bytes + p.rawLength, payload + p.payloadLength) }
  }

  /** The packet and byte counts of one direction. */
  datatype Lane = Lane(packets: nat, bytes: nat) {
    function AddIf(mine: bool, p: Packet): Lane { if mine then Lane(packets + 1, bytes + p.rawLength) else this }
  }

  datatype FlagCounts = FlagCounts(syn: nat, ack: nat, fin: nat, rst: nat) {
    function Add(p: Packet): FlagCounts {
      FlagCounts(syn + One(Has(p, SYN)), ack + One(Has(p, ACK)), fin + One(Has(p, FIN)), rst + One(Has(p, RST)))
    }
  }

  function One(b: bool): nat { if b then 1 else 0 }

  predicate Has(p: Packet, f: Flag) { p.protocol == TCP && f in p.flags }

  datatype Flow = Flow(
    id: FlowId,
    app: Option<string>,
    span: Span,
    totals: Totals,
    forward: Lane,
    backward: Lane,
    flags: FlagCounts,
    state: State,
    closeReason: Option<CloseReason>,
    midstream: bool)

  /** A Flow with the fields FlowEntry adds to it. */
  datatype Entry = Entry(
    flow: Flow,
    finFwd: bool,
    finBwd: bool,
    synackSeen: bool,
    synackDir: Option<Direction>,
    stateChangedAt: real)

  datatype RawConfig = Config(
    udpIdle: real,
    tcpHandshake: real,
    tcpLinger: real,
    tcpIdle: real,
    sweepInterval: real,
    maxActive: int,
    needsFinalAck: bool)

  /** The config getters only ever return positive values. */
  type Config = c: RawConfig |
    c.udpIdle > 0.0 && c.tcpHandshake > 0.0 && c.tcpLinger > 0.0 && c.tcpIdle > 0.0
    && c.sweepInterval > 0.0 && c.maxActive > 0
    witness Config(60.0, 30.0, 10.0, 300.0, 1.0, 100000, false)

  function KeyOf(p: Packet): Key {
    MakeKey(p.protocol, p.src, p.dst)
  }

  function MinR(a: real, b: real): real { if b < a then b else a }

  function MaxR(a: real, b: real): real { if a < b then b else a }

  // ---------------------------------------------------------------- timeout.py

  function TimeoutFor(cfg: Config, f: Flow): (t: real)
    ensures t > 0.0
  {
    if f.id.protocol == UDP then cfg.udpIdle
    else if f.state == HANDSHAKE then cfg.tcpHandshake
    else if Terminal(f.state) then cfg.tcpLinger
    else cfg.tcpIdle
  }

  predicate IsExpired(cfg: Config, f: Flow, now: real) {
    now - f.span.last > TimeoutFor(cfg, f)
  }

  function TimeoutReason(f: Flow): CloseReason {
    match f.state
    case CLOSED => TcpClosed
    case RESET => TcpReset
    case HANDSHAKE => HandshakeTimeout
    case _ => IdleTimeout
  }

  // ---------------------------------------------------------------- the record of a history

  /** A flow as update() creates it, before its first packet is counted. */
  function NewEntry(p: Packet): Entry {
    Entry(
      Flow(FlowId(KeyOf(p), p.protocol, p.src, p.dst, p.ts), None, Span(p.ts, p.ts), Totals(0, 0, 0), Lane(0, 0),
           Lane(0, 0), FlagCounts(0, 0, 0, 0), if p.protocol == UDP then ACTIVE else HANDSHAKE, None, false),
      false, false, false, None, p.ts)
  }

  function ResolveApp(cur: Option<string>, app: Option<string>): Option<string> {
    if app.Some? && (cur.None? || (cur.value == "UNKNOWN" && app.value != "UNKNOWN")) then app else cur
  }

  function Counted(f: Flow, p: Packet): Flow {
    var fwd := DirectionOf(f.id.endpointA, p.src) == Forward;
    f.(span := f.span.Extend(p.ts),
       totals := f.totals.Add(p),
       forward := f.forward.AddIf(fwd, p),
       backward := f.backward.AddIf(!fwd, p),
       flags := f.flags.Add(p),
       app := ResolveApp(f.app, p.app))
  }

  function ContextOf(e: Entry): Context {
    Context(e.synackSeen, e.synackDir, e.finFwd, e.finBwd, e.flow.midstream)
  }

  /** Step 6 of update(): the state machine. */
  function Moved(cfg: Config, e: Entry, p: Packet): Entry {
    if p.protocol == UDP then e
    else
      var (s, c) := Transition(cfg.needsFinalAck, e.flow.state, p.flags, DirectionOf(e.flow.id.endpointA, p.src),
                               ContextOf(e), e.flow.totals.packets == 0);
      Entry(e.flow.(midstream := c.midstream, state := s), c.finFwd, c.finBwd, c.synackSeen, c.synackDir,
            if s != e.flow.state then p.ts else e.stateChangedAt)
  }

  /** Steps 6 and 7: the state machine, then the statistics. */
  function Absorb(cfg: Config, e: Entry, p: Packet): Entry {
    var moved := Moved(cfg, e, p);
    moved.(flow := Counted(moved.flow, p))
  }

  /** The entry of a flow whose packets are `h`, oldest first. */
  function EntryOf(cfg: Config, h: seq<Packet>): Entry
    requires h != []
  {
    var last := h[|h| - 1];
    if |h| == 1 then Absorb(cfg, NewEntry(last), last)
    else Absorb(cfg, EntryOf(cfg, h[..|h| - 1]), last)
  }

  function RecordOf(cfg: Config, h: seq<Packet>): Flow
    requires h != []
  {
    EntryOf(cfg, h).flow
  }

  /** All packets of `h` have the key k. */
  predicate OfKey(h: seq<Packet>, k: Key) {
    forall i :: 0 <= i < |h| ==> KeyOf(h[i]) == k
  }

  lemma Snoc(cfg: Config, h: seq<Packet>, p: Packet)
    requires h != []
    ensures EntryOf(cfg, h + [p]) == Absorb(cfg, EntryOf(cfg, h), p)
  {
    assert (h + [p])[..|h|] == h;
  }

  lemma EntrySnoc(cfg: Config, h: seq<Packet>, p: Packet)
    ensures EntryOf(cfg, h + [p]) == Absorb(cfg, if h == [] then NewEntry(p) else EntryOf(cfg, h), p)
  {
    if h != [] {
      Snoc(cfg, h, p);
    }
  }

  lemma AbsorbIs(cfg: Config, e: Entry, p: Packet)
    ensures Absorb(cfg, e, p) == Moved(cfg, e, p).(flow := Counted(Moved(cfg, e, p).flow, p))
  {
  }

  // ---------------------------------------------------------------- what the record means

  datatype Measure =
    | Packets
    | Bytes
    | Payload
    | SentBy(a: Endpoint, bytes: bool)
    | SentByOther(a: Endpoint, bytes: bool)
    | Carrying(flag: Flag)
    | Copies(q: Packet)

  function Weight(m: Measure, p: Packet): nat {
    match m
    case Packets => 1
    case Bytes => p.rawLength
    case Payload => p.payloadLength
    case SentBy(a, bytes) => if p.src != a then 0 else if bytes then p.rawLength else 1
    case SentByOther(a, bytes) => if p.src == a then 0 else if bytes then p.rawLength else 1
    case Carrying(flag) => One(Has(p, flag))
    case Copies(q) => One(p == q)
  }

  /** A measure summed over a history. */
  function Total(m: Measure, h: seq<Packet>): nat {
    if h == [] then 0 else Total(m, h[..|h| - 1]) + Weight(m, h[|h| - 1])
  }

  lemma {:induction false} TotalAppend(m: Measure, g: seq<Packet>, h: seq<Packet>)
    ensures Total(m, g + h) == Total(m, g) + Total(m, h)
  {
    if h == [] {
      assert g + h == g;
    } else {
      assert (g + h)[..|g + h| - 1] == g + h[..|h| - 1];
      TotalAppend(m, g, h[..|h| - 1]);
    }
  }

  /** Identity fields come from the first packet and never change. */
  lemma {:induction false} RecordIdentity(cfg: Config, h: seq<Packet>)
    requires h != []
    ensures var f := RecordOf(cfg, h);
            f.id == FlowId(KeyOf(h[0]), h[0].protocol, h[0].src, h[0].dst, h[0].ts)
            && f.closeReason == None && f.totals.packets == |h|
  {
    if |h| > 1 {
      RecordIdentity(cfg, h[..|h| - 1]);
    }
  }

  /** What one more packet does to the statistics of the record. */
  lemma StatisticsStep(cfg: Config, h: seq<Packet>)
    requires h != []
    ensures var f, p := RecordOf(cfg, h), h[|h| - 1];
            var fwd := p.src == h[0].src;
            var g := if |h| == 1 then NewEntry(p).flow else RecordOf(cfg, h[..|h| - 1]);
            && f.span == g.span.Extend(p.ts) && f.totals == g.totals.Add(p) && f.flags == g.flags.Add(p)
            && f.forward == g.forward.AddIf(fwd, p) && f.backward == g.backward.AddIf(!fwd, p)
  {
    hide Transition, ResolveApp, Span.Extend, Totals.Add, FlagCounts.Add, Lane.AddIf;
    if |h| > 1 {
      RecordIdentity(cfg, h[..|h| - 1]);
    }
  }

  /** Every counter of the record is the sum it is named after. */
  lemma {:induction false} RecordTotals(cfg: Config, h: seq<Packet>)
    requires h != []
    ensures var f := RecordOf(cfg, h);
            && f.totals.packets == Total(Packets, h)
            && f.totals.bytes == Total(Bytes, h)
            && f.totals.payload == Total(Payload, h)
            && f.forward.packets == Total(SentBy(h[0].src, false), h)
            && f.forward.bytes == Total(SentBy(h[0].src, true), h)
            && f.backward.packets == Total(SentByOther(h[0].src, false), h)
            && f.backward.bytes == Total(SentByOther(h[0].src, true), h)
            && f.forward.packets + f.backward.packets == f.totals.packets
            && f.forward.bytes + f.backward.bytes == f.totals.bytes
  {
    hide RecordOf;
    StatisticsStep(cfg, h);
    if |h| > 1 {
      RecordTotals(cfg, h[..|h| - 1]);
    }
  }

  lemma {:induction false} RecordFlags(cfg: Config, h: seq<Packet>)
    requires h != [] && OfKey(h, KeyOf(h[0]))
    ensures var f := RecordOf(cfg, h);
            && f.flags.syn == Total(Carrying(SYN), h)
            && f.flags.ack == Total(Carrying(ACK), h)
            && f.flags.fin == Total(Carrying(FIN), h)
            && f.flags.rst == Total(Carrying(RST), h)
  {
    hide RecordOf;
    StatisticsStep(cfg, h);
    if |h| > 1 {
      RecordFlags(cfg, h[..|h| - 1]);
    }
  }

  /** start_time and last_seen are the least and greatest timestamps. */
  lemma {:induction false} RecordSpan(cfg: Config, h: seq<Packet>)
    requires h != []
    ensures forall i :: 0 <= i < |h| ==> RecordOf(cfg, h).span.first <= h[i].ts <= RecordOf(cfg, h).span.last
    ensures exists i :: 0 <= i < |h| && RecordOf(cfg, h).span.first == h[i].ts
    ensures exists i :: 0 <= i < |h| && RecordOf(cfg, h).span.last == h[i].ts
  {
    hide RecordOf;
    StatisticsStep(cfg, h);
    var n := |h| - 1;
    if n == 0 {
      assert RecordOf(cfg, h).span.first == h[0].ts && RecordOf(cfg, h).span.last == h[0].ts;
    } else {
      var g := h[..n];
      RecordSpan(cfg, g);
      var i :| 0 <= i < |g| && RecordOf(cfg, g).span.first == g[i].ts;
      var j :| 0 <= j < |g| && RecordOf(cfg, g).span.last == g[j].ts;
      assert g[i] == h[i] && g[j] == h[j];
      assert RecordOf(cfg, h).span.first == h[i].ts || RecordOf(cfg, h).span.first == h[n].ts;
      assert RecordOf(cfg, h).span.last == h[j].ts || RecordOf(cfg, h).span.last == h[n].ts;
      assert forall k :: 0 <= k < n ==> h[k] == g[k];
    }
  }

  predicate Specific(app: Option<string>) { app.Some? && app.value != "UNKNOWN" }

  /** The application protocol a history reports: the first specific name, else UNKNOWN if that was
      reported, else nothing. */
  function ReportedApp(h: seq<Packet>): Option<string> {
    if h == [] then None
    else if Specific(h[0].app) then h[0].app
    else if ReportedApp(h[1..]).Some? then ReportedApp(h[1..])
    else h[0].app
  }

  lemma {:induction false} ReportedAppSnoc(h: seq<Packet>, p: Packet)
    ensures ReportedApp(h + [p]) == ResolveApp(ReportedApp(h), p.app)
  {
    if h != [] {
      assert (h + [p])[1..] == h[1..] + [p];
      ReportedAppSnoc(h[1..], p);
    }
  }

  lemma {:induction false} RecordApp(cfg: Config, h: seq<Packet>)
    requires h != []
    ensures RecordOf(cfg, h).app == ReportedApp(h)
  {
    var n := |h| - 1;
    assert h == h[..n] + [h[n]];
    ReportedAppSnoc(h[..n], h[n]);
    if n > 0 {
      RecordApp(cfg, h[..n]);
    }
  }
}

/** Whole runs of the tracker: the input is partitioned among the flows and totals are conserved. */
module FlowRuns {
  import opened Common
  import opened FlowKey
  import opened FlowRecord
  import opened FlowHistories

  datatype Command = Arrival(p: Packet) | SweepAt(now: Option<real>) | FlushAll

  ghost function Step(cfg: Config, s: Tracker, c: Command): (r: Tracker)
    requires WellFormed(s)
    ensures WellFormed(r)
  {
    StepWellFormed(cfg, s, c);
    match c
    case Arrival(p) => Update(cfg, s, p)
    case SweepAt(now) => Sweep(cfg, s, if now.Some? then now.value else s.clock)
    case FlushAll => Flush(cfg, s)
  }

  ghost function Run(cfg: Config, cs: seq<Command>): (s: Tracker)
    ensures WellFormed(s)
  {
    if cs == [] then INIT else Step(cfg, Run(cfg, cs[..|cs| - 1]), cs[|cs| - 1])
  }

  lemma SweepKeys(cfg: Config, s: Tracker, now: real)
    requires WellFormed(s)
    ensures Exportable(s, ExpiredAmong(cfg, s.live, s.order, now)) && Exportable(s, s.order)
  {
  }

  lemma SweepWellFormed(cfg: Config, s: Tracker, now: real)
    requires WellFormed(s)
    ensures WellFormed(Sweep(cfg, s, now)) && |Sweep(cfg, s, now).order| <= |s.order|
            && Sweep(cfg, s, now).clock == s.clock
  {
    SweepKeys(cfg, s, now);
    ExportAllWellFormed(cfg, s, ExpiredAmong(cfg, s.live, s.order, now), false);
  }

  lemma FlushWellFormed(cfg: Config, s: Tracker)
    requires WellFormed(s)
    ensures WellFormed(Flush(cfg, s)) && Flush(cfg, s).order == [] && Flush(cfg, s).clock == s.clock
  {
    SweepKeys(cfg, s, s.clock);
    ExportAllWellFormed(cfg, s, s.order, true);
  }

  lemma StepWellFormed(cfg: Config, s: Tracker, c: Command)
    requires WellFormed(s)
    ensures match c
            case Arrival(p) => WellFormed(Update(cfg, s, p))
            case SweepAt(now) => WellFormed(Sweep(cfg, s, if now.Some? then now.value else s.clock))
            case FlushAll => WellFormed(Flush(cfg, s))
  {
    hide WellFormed, Sweep, Flush, Arrive;
    match c
    case Arrival(p) =>
      ArriveWellFormed(cfg, s, p);
      var t := Arrive(cfg, s, p);
      SweepWellFormed(cfg, t, t.clock);
      SweptWellFormed(t, t.clock);
    case SweepAt(now) => SweepWellFormed(cfg, s, if now.Some? then now.value else s.clock);
    case FlushAll => FlushWellFormed(cfg, s);
  }

  lemma FirstPacket(cfg: Config, p: Packet)
    ensures Run(cfg, [Arrival(p)])
            == Tracker([KeyOf(p)], map[KeyOf(p) := [p]], [], MaxR(0.0, p.ts), Some(MaxR(0.0, p.ts)))
  {
    var cs := [Arrival(p)];
    assert cs[..0] == [];
    assert [] + [p] == [p] && [] + [KeyOf(p)] == [KeyOf(p)];
    assert Run(cfg, cs) == Step(cfg, INIT, Arrival(p));
  }

  /** The tracked packets of a run. */
  function Packets(cs: seq<Command>): seq<Packet> {
    if cs == [] then []
    else Packets(cs[..|cs| - 1]) + if cs[|cs| - 1].Arrival? then [cs[|cs| - 1].p] else []
  }

  /** Those with key k, in order of arrival. */
  function PacketsOf(cs: seq<Command>, k: Key): seq<Packet> {
    if cs == [] then []
    else
      PacketsOf(cs[..|cs| - 1], k)
      + if cs[|cs| - 1].Arrival? && KeyOf(cs[|cs| - 1].p) == k then [cs[|cs| - 1].p] else []
  }

  /** The newest timestamp of a run; None before the first packet. */
  function Newest(cs: seq<Command>): Option<real> {
    if cs == [] then None
    else
      var last, before := cs[|cs| - 1], Newest(cs[..|cs| - 1]);
      if !last.Arrival? then before
      else if before.None? then Some(last.p.ts)
      else Some(MaxR(before.value, last.p.ts))
  }

  // ---------------------------------------------------------------- the input is partitioned among the flows

  predicate SegmentOf(g: Segment, k: Key) {
    g.packets != [] && KeyOf(g.packets[0]) == k
  }

  /** The packets of the exported flows of key k, in order. */
  function ClosedPackets(log: seq<Segment>, k: Key): seq<Packet> {
    if log == [] then []
    else ClosedPackets(log[..|log| - 1], k) + if SegmentOf(log[|log| - 1], k) then log[|log| - 1].packets else []
  }

  function LivePackets(s: Tracker, k: Key): seq<Packet> {
    if k in s.live then s.live[k] else []
  }

  /** All the packets the tracker ever attributed to key k: exported flows first, then the open one. */
  function History(s: Tracker, k: Key): seq<Packet> {
    ClosedPackets(s.exported, k) + LivePackets(s, k)
  }

  lemma ExportKeepsHistory(s: Tracker, j: Key, reason: CloseReason, k: Key)
    requires WellFormed(s) && j in s.live
    ensures History(Export(s, j, reason), k) == History(s, k)
  {
    var t := Export(s, j, reason);
    assert OneFlow(s.live[j], j);
    assert t.exported[..|t.exported| - 1] == s.exported;
  }

  lemma {:induction false} ExportAllKeepsHistory(cfg: Config, s: Tracker, ks: seq<Key>, flushing: bool, k: Key)
    requires WellFormed(s) && Exportable(s, ks)
    ensures History(ExportAll(cfg, s, ks, flushing), k) == History(s, k)
    decreases |ks|
  {
    if ks != [] {
      var reason := ReasonFor(cfg, s.live[ks[0]], flushing);
      ExportKeepsHistory(s, ks[0], reason, k);
      ExportWellFormed(s, ks[0], reason);
      ExportKeepsExportable(s, ks, reason);
      ExportAllKeepsHistory(cfg, Export(s, ks[0], reason), ks[1..], flushing, k);
    }
  }

  /** A packet is appended to the history of its own key and to no other. */
  lemma ArriveExtendsHistory(cfg: Config, s: Tracker, p: Packet, k: Key)
    requires WellFormed(s)
    ensures History(Arrive(cfg, s, p), k) == History(s, k) + if KeyOf(p) == k then [p] else []
  {
    var now := Watermark(s, p);
    var j := KeyOf(p);
    if j in now.live && CutReason(cfg, now.live[j], p).Some? {
      ExportKeepsHistory(now, j, CutReason(cfg, now.live[j], p).value, k);
    }
    var cut := Cut(cfg, now, p);
    assert History(cut, k) == History(s, k);
    if j !in cut.live && |cut.order| >= cfg.maxActive {
      assert cut.order[0] in cut.order;
      ExportKeepsHistory(cut, cut.order[0], Evicted, k);
    }
    var room := if j in cut.live then cut else MakeRoom(cfg, cut);
    assert History(room, k) == History(s, k);
    PutExtendsHistory(room, p, k);
  }

  lemma PutExtendsHistory(s: Tracker, p: Packet, k: Key)
    ensures History(Put(s, p), k) == History(s, k) + if KeyOf(p) == k then [p] else []
  {
  }

  lemma SweepKeepsHistory(cfg: Config, s: Tracker, now: real, k: Key)
    requires WellFormed(s)
    ensures History(Sweep(cfg, s, now), k) == History(s, k)
  {
    SweepKeys(cfg, s, now);
    ExportAllKeepsHistory(cfg, s, ExpiredAmong(cfg, s.live, s.order, now), false, k);
  }

  lemma StepHistory(cfg: Config, s: Tracker, c: Command, k: Key)
    requires WellFormed(s)
    ensures History(Step(cfg, s, c), k) == History(s, k) + if c.Arrival? && KeyOf(c.p) == k then [c.p] else []
  {
    hide WellFormed, Sweep, Arrive, KeyOf;
    match c
    case Arrival(p) =>
      ArriveWellFormed(cfg, s, p);
      ArriveExtendsHistory(cfg, s, p, k);
      var t := Arrive(cfg, s, p);
      SweepKeepsHistory(cfg, t, t.clock, k);
    case SweepAt(now) => SweepKeepsHistory(cfg, s, if now.Some? then now.value else s.clock, k);
    case FlushAll =>
      SweepKeys(cfg, s, s.clock);
      ExportAllKeepsHistory(cfg, s, s.order, true, k);
  }

  /** Over any run of updates, sweeps and flushes the packets of each key are partitioned, in order
      of arrival, among its exported flows and its open one: none is lost, repeated or misfiled. */
  lemma {:induction false} InputIsPartitioned(cfg: Config, cs: seq<Command>, k: Key)
    ensures History(Run(cfg, cs), k) == PacketsOf(cs, k)
  {
    if cs != [] {
      InputIsPartitioned(cfg, cs[..|cs| - 1], k);
      StepHistory(cfg, Run(cfg, cs[..|cs| - 1]), cs[|cs| - 1], k);
    }
  }

  // ---------------------------------------------------------------- totals are conserved

  function LogTotal(m: Measure, log: seq<Segment>): nat {
    if log == [] then 0 else LogTotal(m, log[..|log| - 1]) + Total(m, log[|log| - 1].packets)
  }

  function LiveTotal(m: Measure, live: map<Key, seq<Packet>>, order: seq<Key>): nat {
    if order == [] then 0
    else (if order[0] in live then Total(m, live[order[0]]) else 0) + LiveTotal(m, live, order[1..])
  }

  /** A measure summed over every flow, exported or open. */
  function Everything(m: Measure, s: Tracker): nat {
    LogTotal(m, s.exported) + LiveTotal(m, s.live, s.order)
  }

  lemma {:induction false} LiveTotalLocal(m: Measure, a: map<Key, seq<Packet>>, b: map<Key, seq<Packet>>,
          order: seq<Key>)
    requires forall k :: k in order ==> (k in a <==> k in b) && (k in a ==> a[k] == b[k])
    ensures LiveTotal(m, a, order) == LiveTotal(m, b, order)
  {
    if order != [] {
      LiveTotalLocal(m, a, b, order[1..]);
    }
  }

  lemma {:induction false} LiveTotalWithout(m: Measure, live: map<Key, seq<Packet>>, order: seq<Key>, k: Key)
    requires NoDup(order) && (forall j :: j in order ==> j in live)
    ensures LiveTotal(m, live, order)
            == LiveTotal(m, live, Without(order, k)) + if k in order then Total(m, live[k]) else 0
  {
    if order != [] {
      LiveTotalWithout(m, live, order[1..], k);
      if order[0] == k {
        assert k !in order[1..];
      } else {
        assert Without(order, k)[1..] == Without(order[1..], k);
      }
    }
  }

  lemma {:induction false} LiveTotalSnoc(m: Measure, live: map<Key, seq<Packet>>, order: seq<Key>, k: Key)
    requires k in live
    ensures LiveTotal(m, live, order + [k]) == LiveTotal(m, live, order) + Total(m, live[k])
  {
    if order != [] {
      assert (order + [k])[1..] == order[1..] + [k];
      LiveTotalSnoc(m, live, order[1..], k);
    }
  }

  lemma ExportKeepsEverything(m: Measure, s: Tracker, k: Key, reason: CloseReason)
    requires WellFormed(s) && k in s.live
    ensures Everything(m, Export(s, k, reason)) == Everything(m, s)
  {
    var t := Export(s, k, reason);
    assert t.exported[..|t.exported| - 1] == s.exported;
    LiveTotalWithout(m, s.live, s.order, k);
    LiveTotalLocal(m, s.live, t.live, t.order);
  }

  lemma PutAddsWeight(m: Measure, s: Tracker, p: Packet)
    requires WellFormed(s)
    ensures Everything(m, Put(s, p)) == Everything(m, s) + Weight(m, p)
  {
    var k := KeyOf(p);
    var t := Put(s, p);
    var rest := Without(s.order, k);
    LiveTotalWithout(m, s.live, s.order, k);
    LiveTotalSnoc(m, t.live, rest, k);
    LiveTotalLocal(m, s.live, t.live, rest);
    assert t.live[k][..|t.live[k]| - 1] == LivePackets(s, k);
  }

  lemma {:induction false} ExportAllKeepsEverything(m: Measure, cfg: Config, s: Tracker, ks: seq<Key>, flushing: bool)
    requires WellFormed(s) && Exportable(s, ks)
    ensures Everything(m, ExportAll(cfg, s, ks, flushing)) == Everything(m, s)
    decreases |ks|
  {
    if ks != [] {
      var reason := ReasonFor(cfg, s.live[ks[0]], flushing);
      ExportKeepsEverything(m, s, ks[0], reason);
      ExportWellFormed(s, ks[0], reason);
      ExportKeepsExportable(s, ks, reason);
      ExportAllKeepsEverything(m, cfg, Export(s, ks[0], reason), ks[1..], flushing);
    }
  }

  lemma ArriveAddsWeight(m: Measure, cfg: Config, s: Tracker, p: Packet)
    requires WellFormed(s)
    ensures Everything(m, Arrive(cfg, s, p)) == Everything(m, s) + Weight(m, p)
  {
    var now := Watermark(s, p);
    var j := KeyOf(p);
    if j in now.live && CutReason(cfg, now.live[j], p).Some? {
      ExportKeepsEverything(m, now, j, CutReason(cfg, now.live[j], p).value);
    }
    var cut := Cut(cfg, now, p);
    assert Everything(m, cut) == Everything(m, s);
    if j !in cut.live {
      MakeRoomWellFormed(cfg, cut);
      if |cut.order| >= cfg.maxActive {
        assert cut.order[0] in cut.order;
        ExportKeepsEverything(m, cut, cut.order[0], Evicted);
      }
    }
    PutAddsWeight(m, if j in cut.live then cut else MakeRoom(cfg, cut), p);
  }

  lemma SweepKeepsEverything(m: Measure, cfg: Config, s: Tracker, now: real)
    requires WellFormed(s)
    ensures Everything(m, Sweep(cfg, s, now)) == Everything(m, s)
  {
    SweepKeys(cfg, s, now);
    ExportAllKeepsEverything(m, cfg, s, ExpiredAmong(cfg, s.live, s.order, now), false);
  }

  lemma StepAddsWeight(m: Measure, cfg: Config, s: Tracker, c: Command)
    requires WellFormed(s)
    ensures Everything(m, Step(cfg, s, c)) == Everything(m, s) + if c.Arrival? then Weight(m, c.p) else 0
  {
    hide WellFormed, Sweep, Arrive, Weight;
    match c
    case Arrival(p) =>
      ArriveWellFormed(cfg, s, p);
      ArriveAddsWeight(m, cfg, s, p);
      var t := Arrive(cfg, s, p);
      SweepKeepsEverything(m, cfg, t, t.clock);
    case SweepAt(now) => SweepKeepsEverything(m, cfg, s, if now.Some? then now.value else s.clock);
    case FlushAll =>
      SweepKeys(cfg, s, s.clock);
      ExportAllKeepsEverything(m, cfg, s, s.order, true);
  }

  /** Packets, bytes, payload bytes, flags, and the copies of any one packet: what the exported and
      open flows account for is what arrived. */
  lemma {:induction false} TotalsAreConserved(m: Measure, cfg: Config, cs: seq<Command>)
    ensures Everything(m, Run(cfg, cs)) == Total(m, Packets(cs))
  {
    if cs != [] {
      var last := cs[|cs| - 1];
      TotalsAreConserved(m, cfg, cs[..|cs| - 1]);
      StepAddsWeight(m, cfg, Run(cfg, cs[..|cs| - 1]), last);
      TotalAppend(m, Packets(cs[..|cs| - 1]), if last.Arrival? then [last.p] else []);
    }
  }
}

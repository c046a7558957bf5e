/** The flow tracker on histories: the table holds, per key, the packets of the open flow, and every
    decision is taken on the record those packets fold to. FlowTracker refines this. */
module FlowHistories {
  import opened Common
  import opened FlowKey
  import opened TcpState
  import opened FlowRecord

  /** An exported flow: its packets and why it was closed. */
  datatype Segment = Segment(packets: seq<Packet>, reason: CloseReason)

  datatype Tracker = Tracker(
    order: seq<Key>,               // least recently touched first
    live: map<Key, seq<Packet>>,
    exported: seq<Segment>,
    clock: real,
    lastSweep: Option<real>)

  const INIT := Tracker([], map[], [], 0.0, None)

  function Without(order: seq<Key>, k: Key): (r: seq<Key>)
    ensures forall x :: x in r <==> x in order && x != k
    ensures |r| <= |order|
  {
    if order == [] then []
    else if order[0] == k then Without(order[1..], k)
    else [order[0]] + Without(order[1..], k)
  }

  ghost predicate NoDup(order: seq<Key>) {
    forall i, j :: 0 <= i < j < |order| ==> order[i] != order[j]
  }

  ghost predicate OneFlow(h: seq<Packet>, k: Key) {
    h != [] && OfKey(h, k)
  }

  /** The table and the log are well formed. */
  ghost predicate WellFormed(s: Tracker) {
    && NoDup(s.order)
    && (forall k :: k in s.order <==> k in s.live)
    && (forall k :: k in s.live ==> OneFlow(s.live[k], k))
    && (forall i :: 0 <= i < |s.exported| ==>
          s.exported[i].packets != [] && OneFlow(s.exported[i].packets, KeyOf(s.exported[i].packets[0])))
    && (s.lastSweep.Some? ==> s.lastSweep.value <= s.clock)
  }

  // ---------------------------------------------------------------- operations

  /** Remove the flow of key k and log it. */
  function Export(s: Tracker, k: Key, reason: CloseReason): Tracker
    requires k in s.live
  {
    s.(order := Without(s.order, k), live := s.live - {k}, exported := s.exported + [Segment(s.live[k], reason)])
  }

  /** The reason a sweep (or, when `flushing`, a flush) gives a flow. */
  function ReasonFor(cfg: Config, h: seq<Packet>, flushing: bool): CloseReason
    requires h != []
  {
    var f := RecordOf(cfg, h);
    if flushing && !Terminal(f.state) then Flushed else TimeoutReason(f)
  }

  lemma SweepReason(cfg: Config, h: seq<Packet>)
    requires h != []
    ensures ReasonFor(cfg, h, false) == TimeoutReason(RecordOf(cfg, h))
  {
  }

  predicate Exportable(s: Tracker, ks: seq<Key>) {
    (forall i :: 0 <= i < |ks| ==> ks[i] in s.live && s.live[ks[i]] != [])
    && forall i, j :: 0 <= i < j < |ks| ==> ks[i] != ks[j]
  }

  function ExportAll(cfg: Config, s: Tracker, ks: seq<Key>, flushing: bool): Tracker
    requires Exportable(s, ks)
    decreases |ks|
  {
    if ks == [] then s
    else ExportAll(cfg, Export(s, ks[0], ReasonFor(cfg, s.live[ks[0]], flushing)), ks[1..], flushing)
  }

  predicate Expired(cfg: Config, h: seq<Packet>, now: real)
    requires h != []
  {
    IsExpired(cfg, RecordOf(cfg, h), now)
  }

  /** The keys among `ks` whose flow has timed out at `now`, in the same order. */
  function ExpiredAmong(cfg: Config, live: map<Key, seq<Packet>>, ks: seq<Key>, now: real): (r: seq<Key>)
    requires forall k :: k in ks ==> k in live && live[k] != []
    ensures forall k :: k in r <==> k in ks && Expired(cfg, live[k], now)
    ensures (forall i, j :: 0 <= i < j < |ks| ==> ks[i] != ks[j]) ==> forall i, j :: 0 <= i < j < |r| ==> r[i] != r[j]
  {
    if ks == [] then []
    else
      var rest := ExpiredAmong(cfg, live, ks[1..], now);
      if Expired(cfg, live[ks[0]], now) then [ks[0]] + rest else rest
  }

  lemma ExpiredHead(cfg: Config, live: map<Key, seq<Packet>>, ks: seq<Key>, i: nat, now: real, found: seq<Key>,
          all: seq<Key>)
    requires i < |ks| && forall k :: k in ks ==> k in live && live[k] != []
    requires found + ExpiredAmong(cfg, live, ks[i..], now) == all
    ensures (if IsExpired(cfg, RecordOf(cfg, live[ks[i]]), now) then found + [ks[i]] else found)
            + ExpiredAmong(cfg, live, ks[i + 1..], now) == all
  {
    hide IsExpired, RecordOf;
    assert ks[i..][1..] == ks[i + 1..];
  }

  lemma ExpiredNone(cfg: Config, live: map<Key, seq<Packet>>, ks: seq<Key>, now: real)
    requires ks == []
    ensures ExpiredAmong(cfg, live, ks, now) == []
  {
  }

  ghost function Sweep(cfg: Config, s: Tracker, now: real): Tracker
    requires WellFormed(s)
  {
    ExportAll(cfg, s, ExpiredAmong(cfg, s.live, s.order, now), false).(lastSweep := Some(MinR(now, s.clock)))
  }

  ghost function Flush(cfg: Config, s: Tracker): Tracker
    requires WellFormed(s)
  {
    ExportAll(cfg, s, s.order, true)
  }

  /** A pure SYN that finds a flow which is over starts a new one. */
  predicate Reuses(cfg: Config, h: seq<Packet>, p: Packet)
    requires h != []
  {
    p.protocol == TCP && SYN in p.flags && ACK !in p.flags && Terminal(RecordOf(cfg, h).state)
  }

  /** Whether packet p closes the open flow `h` of its key, and why. */
  function CutReason(cfg: Config, h: seq<Packet>, p: Packet): Option<CloseReason>
    requires h != []
  {
    if Expired(cfg, h, p.ts) then Some(TimeoutReason(RecordOf(cfg, h)))
    else if Reuses(cfg, h, p) then Some(PortReuse)
    else None
  }

  /** Step 3 of update(): lazy expiration and port reuse. */
  ghost function Cut(cfg: Config, s: Tracker, p: Packet): (r: Tracker)
    requires WellFormed(s)
    ensures WellFormed(r) && |r.order| <= |s.order| && r.clock == s.clock
  {
    var k := KeyOf(p);
    if k in s.live && CutReason(cfg, s.live[k], p).Some? then
      ExportWellFormed(s, k, CutReason(cfg, s.live[k], p).value);
      Export(s, k, CutReason(cfg, s.live[k], p).value)
    else s
  }

  /** A full table gives up its least recently touched flow. */
  ghost function MakeRoom(cfg: Config, s: Tracker): Tracker
    requires WellFormed(s)
  {
    if |s.order| >= cfg.maxActive then Export(s, s.order[0], Evicted) else s
  }

  /** Give the packet to the open flow of its key, or to a new one, as the most recently touched. */
  function Put(s: Tracker, p: Packet): Tracker {
    var k := KeyOf(p);
    s.(order := Without(s.order, k) + [k], live := s.live[k := (if k in s.live then s.live[k] else []) + [p]])
  }

  /** Steps 1 to 7 of update(). */
  ghost function Arrive(cfg: Config, s: Tracker, p: Packet): Tracker
    requires WellFormed(s)
  {
    var cut := Cut(cfg, Watermark(s, p), p);
    Put(if KeyOf(p) in cut.live then cut else MakeRoom(cfg, cut), p)
  }

  /** `placed` is the table once the flow of packet p is its newest, before p is counted. */
  ghost predicate IsPlaced(cfg: Config, cut: Tracker, placed: Tracker, p: Packet)
    requires WellFormed(cut)
  {
    var k := KeyOf(p);
    var room := if k in cut.live then cut else MakeRoom(cfg, cut);
    placed == room.(order := Without(room.order, k) + [k],
                    live := room.live[k := if k in room.live then room.live[k] else []])
  }

  lemma NewIsPlaced(cfg: Config, cut: Tracker, placed: Tracker, p: Packet)
    requires WellFormed(cut) && KeyOf(p) !in cut.live
    requires var room := MakeRoom(cfg, cut);
             placed == room.(order := Without(room.order, KeyOf(p)) + [KeyOf(p)], live := room.live[KeyOf(p) := []])
    ensures IsPlaced(cfg, cut, placed, p)
  {
  }

  lemma PlacedThenPut(cfg: Config, cut: Tracker, placed: Tracker, p: Packet)
    requires WellFormed(cut) && IsPlaced(cfg, cut, placed, p)
    ensures var room := if KeyOf(p) in cut.live then cut else MakeRoom(cfg, cut);
            Put(room, p) == placed.(live := placed.live[KeyOf(p) := placed.live[KeyOf(p)] + [p]])
            && WellFormed(Put(room, p))
  {
    hide WellFormed, MakeRoom, Without, KeyOf;
    MakeRoomWellFormed(cfg, cut);
    PutWellFormed(if KeyOf(p) in cut.live then cut else MakeRoom(cfg, cut), p);
  }

  function Watermark(s: Tracker, p: Packet): Tracker {
    s.(clock := MaxR(s.clock, p.ts))
  }

  /** Step 8: the periodic sweep. */
  ghost function Tick(cfg: Config, s: Tracker): Tracker
    requires WellFormed(s)
  {
    if s.lastSweep.None? then s.(lastSweep := Some(s.clock))
    else if s.clock - s.lastSweep.value >= cfg.sweepInterval then Sweep(cfg, s, s.clock)
    else s
  }

  ghost function Update(cfg: Config, s: Tracker, p: Packet): Tracker
    requires WellFormed(s)
  {
    ArriveWellFormed(cfg, s, p);
    Tick(cfg, Arrive(cfg, s, p))
  }

  /** What update() writes on the event. The flow id is a hash of the key and the creation time. */
  datatype Tag = Tag(key: Key, createdAt: real, direction: Direction, state: State)

  function TagOf(cfg: Config, h: seq<Packet>): Tag
    requires h != []
  {
    var f := RecordOf(cfg, h);
    Tag(f.id.key, f.id.createdAt, DirectionOf(f.id.endpointA, h[|h| - 1].src), f.state)
  }

  ghost function TagFor(cfg: Config, s: Tracker, p: Packet): Tag
    requires WellFormed(s)
  {
    ArriveWellFormed(cfg, s, p);
    TagOf(cfg, Arrive(cfg, s, p).live[KeyOf(p)])
  }

  // ---------------------------------------------------------------- every operation keeps the table well formed

  lemma {:induction false} WithoutNoDup(order: seq<Key>, k: Key)
    requires NoDup(order)
    ensures NoDup(Without(order, k))
    ensures |Without(order, k)| == |order| - One(k in order)
  {
    if order != [] {
      assert NoDup(order[1..]);
      assert order[0] !in order[1..];
      WithoutNoDup(order[1..], k);
    }
  }

  lemma ExportWellFormed(s: Tracker, k: Key, reason: CloseReason)
    requires WellFormed(s) && k in s.live
    ensures WellFormed(Export(s, k, reason))
    ensures |Export(s, k, reason).order| == |s.order| - 1
  {
    WithoutNoDup(s.order, k);
    var t := Export(s, k, reason);
    assert t.exported[|s.exported|].packets == s.live[k];
  }

  lemma MakeRoomWellFormed(cfg: Config, s: Tracker)
    requires WellFormed(s)
    ensures WellFormed(MakeRoom(cfg, s)) && MakeRoom(cfg, s).clock == s.clock
    ensures |s.order| <= cfg.maxActive ==> |MakeRoom(cfg, s).order| < cfg.maxActive
  {
    if |s.order| >= cfg.maxActive {
      assert s.order[0] in s.order;
      ExportWellFormed(s, s.order[0], Evicted);
    }
  }

  lemma PutWellFormed(s: Tracker, p: Packet)
    requires WellFormed(s)
    ensures WellFormed(Put(s, p)) && KeyOf(p) in Put(s, p).live
    ensures |Put(s, p).order| == |s.order| + One(KeyOf(p) !in s.live)
  {
    WithoutNoDup(s.order, KeyOf(p));
  }

  lemma ArriveWellFormed(cfg: Config, s: Tracker, p: Packet)
    requires WellFormed(s)
    ensures WellFormed(Arrive(cfg, s, p)) && KeyOf(p) in Arrive(cfg, s, p).live
    ensures |s.order| <= cfg.maxActive ==> |Arrive(cfg, s, p).order| <= cfg.maxActive
  {
    var now := Watermark(s, p);
    var cut := Cut(cfg, now, p);
    if KeyOf(p) in cut.live {
      PutWellFormed(cut, p);
    } else {
      MakeRoomWellFormed(cfg, cut);
      PutWellFormed(MakeRoom(cfg, cut), p);
    }
  }

  lemma SweptWellFormed(s: Tracker, at: real)
    requires WellFormed(s) && at <= s.clock
    ensures WellFormed(s.(lastSweep := Some(at)))
  {
  }

  lemma WatermarkArrives(cfg: Config, s: Tracker, p: Packet)
    requires WellFormed(s)
    ensures WellFormed(Watermark(s, p)) && Arrive(cfg, Watermark(s, p), p) == Arrive(cfg, s, p)
  {
    assert Watermark(Watermark(s, p), p) == Watermark(s, p);
  }

  lemma ExportKeepsExportable(s: Tracker, ks: seq<Key>, reason: CloseReason)
    requires Exportable(s, ks) && ks != []
    ensures Exportable(Export(s, ks[0], reason), ks[1..])
  {
  }

  lemma {:induction false} ExportAllWellFormed(cfg: Config, s: Tracker, ks: seq<Key>, flushing: bool)
    requires WellFormed(s) && Exportable(s, ks)
    ensures WellFormed(ExportAll(cfg, s, ks, flushing))
    ensures |ExportAll(cfg, s, ks, flushing).order| == |s.order| - |ks|
    ensures ExportAll(cfg, s, ks, flushing).clock == s.clock
    ensures ExportAll(cfg, s, ks, flushing).lastSweep == s.lastSweep
    decreases |ks|
  {
    if ks != [] {
      var reason := ReasonFor(cfg, s.live[ks[0]], flushing);
      ExportWellFormed(s, ks[0], reason);
      ExportKeepsExportable(s, ks, reason);
      ExportAllWellFormed(cfg, Export(s, ks[0], reason), ks[1..], flushing);
    }
  }

  /** The segments a bulk export logs, one per key, in order. */
  function Closing(cfg: Config, live: map<Key, seq<Packet>>, ks: seq<Key>, flushing: bool): seq<Segment>
    requires forall i :: 0 <= i < |ks| ==> ks[i] in live && live[ks[i]] != []
  {
    seq(|ks|, i requires 0 <= i < |ks| => Segment(live[ks[i]], ReasonFor(cfg, live[ks[i]], flushing)))
  }

  /** A bulk export removes the named flows and leaves the others as they were. */
  lemma {:induction false} ExportAllLive(cfg: Config, s: Tracker, ks: seq<Key>, flushing: bool)
    requires Exportable(s, ks)
    ensures forall k :: k in ExportAll(cfg, s, ks, flushing).live <==> k in s.live && k !in ks
    ensures forall k :: k in s.live && k !in ks ==> ExportAll(cfg, s, ks, flushing).live[k] == s.live[k]
    decreases |ks|
  {
    if ks != [] {
      var reason := ReasonFor(cfg, s.live[ks[0]], flushing);
      ExportKeepsExportable(s, ks, reason);
      ExportAllLive(cfg, Export(s, ks[0], reason), ks[1..], flushing);
    }
  }

  lemma ClosingCons(cfg: Config, s: Tracker, ks: seq<Key>, flushing: bool)
    requires Exportable(s, ks) && ks != []
    ensures var seg := Segment(s.live[ks[0]], ReasonFor(cfg, s.live[ks[0]], flushing));
            Closing(cfg, s.live, ks, flushing) == [seg] + Closing(cfg, s.live - {ks[0]}, ks[1..], flushing)
  {
    var all, rest := Closing(cfg, s.live, ks, flushing), Closing(cfg, s.live - {ks[0]}, ks[1..], flushing);
    forall i | 0 <= i < |rest|
      ensures all[i + 1] == rest[i]
    {
      assert ks[i + 1] == ks[1..][i];
    }
  }

  /** ... and logs each of them once, in order. */
  lemma {:induction false} ExportAllLog(cfg: Config, s: Tracker, ks: seq<Key>, flushing: bool)
    requires Exportable(s, ks)
    ensures ExportAll(cfg, s, ks, flushing).exported == s.exported + Closing(cfg, s.live, ks, flushing)
    decreases |ks|
  {
    if ks == [] {
      assert s.exported + Closing(cfg, s.live, ks, flushing) == s.exported;
    } else {
      ClosingCons(cfg, s, ks, flushing);
      ExportKeepsExportable(s, ks, ReasonFor(cfg, s.live[ks[0]], flushing));
      ExportAllLog(cfg, Export(s, ks[0], ReasonFor(cfg, s.live[ks[0]], flushing)), ks[1..], flushing);
    }
  }
}

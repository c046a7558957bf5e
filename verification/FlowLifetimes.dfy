/** How long a flow lives and why it was closed, read off its packets. */
module FlowLifetimes {
  import opened FlowKey
  import opened TcpState
  import opened FlowRecord
  import opened FlowHistories
  import opened FlowRuns
  import opened TcpRuns
  import opened TcpLives
  import FI = FlowInputs
  import FS = FlowSplitting

  /** A flow of one key whose packets are TCP; its state is the one they show. */
  lemma KeyedIsTcp(cfg: Config, h: seq<Packet>)
    requires h != [] && OfKey(h, KeyOf(h[0]))
    ensures h[0].protocol == TCP ==> TcpFlow(h) && RecordOf(cfg, h).state == StateShown(cfg, h)
    ensures h[0].protocol == UDP ==> RecordOf(cfg, h).state == ACTIVE
    ensures RecordOf(cfg, h).id.protocol == h[0].protocol
  {
    hide RecordOf, StateShown, MarksAgree;
    RecordIdentity(cfg, h);
    forall i | 0 <= i < |h|
      ensures h[i].protocol == h[0].protocol
    {
      assert KeyOf(h[i]) == KeyOf(h[0]);
    }
    if h[0].protocol == TCP {
      LivesShow(cfg, h);
    } else {
      UdpIsActive(cfg, h);
    }
  }

  lemma {:induction false} UdpIsActive(cfg: Config, h: seq<Packet>)
    requires h != [] && forall i :: 0 <= i < |h| ==> h[i].protocol == UDP
    ensures RecordOf(cfg, h).state == ACTIVE
  {
    if |h| > 1 {
      UdpIsActive(cfg, h[..|h| - 1]);
    }
  }

  /** An RST, or FINs from both ends, ended the flow. */
  predicate IsOver(cfg: Config, h: seq<Packet>) {
    HasRst(h) || IsClosed(cfg, h)
  }

  /** The flow began with a SYN that is still to be acknowledged, and nobody has sent a FIN. */
  predicate IsOpening(h: seq<Packet>)
    requires h != []
  {
    SYN in h[0].flags && !IsAcknowledged(h) && !HasFin(h, true) && !HasFin(h, false)
  }

  // ---------------------------------------------------------------- the limit

  /** How long after its newest packet the flow is still open. */
  function Limit(cfg: Config, h: seq<Packet>): real
    requires h != []
  {
    if h[0].protocol == UDP then cfg.udpIdle
    else if IsOver(cfg, h) then cfg.tcpLinger
    else if IsOpening(h) then cfg.tcpHandshake
    else cfg.tcpIdle
  }

  /** No packet of the flow is within the limit of `now`. */
  predicate Elapsed(cfg: Config, h: seq<Packet>, now: real)
    requires h != []
  {
    forall i :: 0 <= i < |h| ==> now - h[i].ts > Limit(cfg, h)
  }

  /** is_expired says exactly that. */
  lemma ExpiredExactly(cfg: Config, h: seq<Packet>, now: real)
    requires h != [] && OfKey(h, KeyOf(h[0]))
    ensures Expired(cfg, h, now) <==> Elapsed(cfg, h, now)
  {
    hide RecordOf, OfKey, IsClosed, HasRst, IsAcknowledged, HasFin;
    KeyedIsTcp(cfg, h);
    RecordSpan(cfg, h);
  }

  /** A sweep leaves exactly the open flows that have a packet within their limit of the time it looks at. */
  lemma SweepExactly(cfg: Config, s: Tracker, at: real, k: Key)
    requires WellFormed(s)
    ensures k in Sweep(cfg, s, at).live <==> k in s.live && s.live[k] != [] && !Elapsed(cfg, s.live[k], at)
  {
    hide Sweep, Expired, Elapsed;
    FI.SweepKeeps(cfg, s, at, k);
    if k in s.live {
      assert OneFlow(s.live[k], k) && KeyOf(s.live[k][0]) == k;
      ExpiredExactly(cfg, s.live[k], at);
    }
  }

  predicate IsBareSyn(p: Packet) {
    p.protocol == TCP && SYN in p.flags && ACK !in p.flags
  }

  /** A packet continues the open flow of its key unless the flow's limit has elapsed or the packet is a bare
      SYN and the flow is over. */
  lemma ArriveExactly(cfg: Config, s: Tracker, p: Packet)
    requires WellFormed(s) && KeyOf(p) in s.live
    ensures var h := s.live[KeyOf(p)];
            && h != [] && KeyOf(p) in Arrive(cfg, s, p).live
            && Arrive(cfg, s, p).live[KeyOf(p)]
               == if Elapsed(cfg, h, p.ts) || (IsBareSyn(p) && IsOver(cfg, h)) then [p] else h + [p]
  {
    hide Arrive, Expired, Elapsed, KeyOf, IsClosed, HasRst, RecordOf;
    var h := s.live[KeyOf(p)];
    assert OneFlow(h, KeyOf(p)) && KeyOf(h[0]) == KeyOf(p);
    SameProtocol(h[0], p);
    FS.ArriveFlow(cfg, s, p);
    ExpiredExactly(cfg, h, p.ts);
    KeyedIsTcp(cfg, h);
    assert [] + [p] == [p];
  }

  lemma SameProtocol(p: Packet, q: Packet)
    requires KeyOf(p) == KeyOf(q)
    ensures p.protocol == q.protocol
  {
  }

  /** The limit of a flow of one packet. */
  function FirstLimit(cfg: Config, p: Packet): real {
    if p.protocol == UDP then cfg.udpIdle
    else if RST in p.flags then cfg.tcpLinger
    else if SYN in p.flags then cfg.tcpHandshake
    else cfg.tcpIdle
  }

  /** The second packet of a key joins the first one's flow exactly when it comes within that limit. */
  lemma SecondPacketJoins(cfg: Config, s: Tracker, p: Packet, q: Packet)
    requires WellFormed(s) && KeyOf(q) in s.live && s.live[KeyOf(q)] == [p]
    requires !(IsBareSyn(q) && RST in p.flags)
    ensures KeyOf(q) in Arrive(cfg, s, q).live
    ensures Arrive(cfg, s, q).live[KeyOf(q)] == [p, q] <==> q.ts - p.ts <= FirstLimit(cfg, p)
  {
    hide Arrive, KeyOf;
    ArriveExactly(cfg, s, q);
    OnePacket(cfg, p);
    assert [p] + [q] == [p, q];
  }

  lemma OnePacket(cfg: Config, p: Packet)
    ensures Limit(cfg, [p]) == FirstLimit(cfg, p)
    ensures p.protocol == TCP ==> (IsOver(cfg, [p]) <==> RST in p.flags)
  {
    var h := [p];
    assert h[..0] == [] && h[..1] == h;
    assert HasRst(h) <==> RST in h[0].flags;
    assert !HasFin(h, false) && !HasFin([], false);
    assert !IsAcknowledged(h);
    assert SYN in p.flags && RST !in p.flags ==> !HasFin(h, true);
  }

  // ---------------------------------------------------------------- the reason

  /** What a close reason says about the flow's packets. */
  predicate Tells(cfg: Config, h: seq<Packet>, reason: CloseReason)
    requires h != []
  {
    var tcp := h[0].protocol == TCP;
    match reason
    case TcpClosed => tcp && IsClosed(cfg, h)
    case TcpReset => tcp && HasRst(h) && !IsClosed(cfg, h)
    case HandshakeTimeout => tcp && !IsOver(cfg, h) && IsOpening(h)
    case IdleTimeout => !tcp || (!IsOver(cfg, h) && !IsOpening(h))
    case PortReuse => tcp && IsOver(cfg, h)
    case Flushed => !tcp || !IsOver(cfg, h)
    case Evicted => true
  }

  /** The reason a sweep or a lazy close gives, and the one a flush gives. */
  lemma ReasonExactly(cfg: Config, h: seq<Packet>)
    requires h != [] && OfKey(h, KeyOf(h[0]))
    ensures ReasonFor(cfg, h, false)
            == if h[0].protocol == UDP then IdleTimeout
               else if IsClosed(cfg, h) then TcpClosed
               else if HasRst(h) then TcpReset
               else if IsOpening(h) then HandshakeTimeout
               else IdleTimeout
    ensures ReasonFor(cfg, h, true)
            == if h[0].protocol == TCP && IsOver(cfg, h) then ReasonFor(cfg, h, false) else Flushed
  {
    hide RecordOf, OfKey, IsClosed, HasRst, IsAcknowledged, HasFin;
    KeyedIsTcp(cfg, h);
  }

  /** The reasons the tracker gives, by the flow's state. */
  predicate Given(cfg: Config, h: seq<Packet>, reason: CloseReason)
    requires h != []
  {
    var f := RecordOf(cfg, h);
    || reason == TimeoutReason(f) || reason == Evicted
    || (reason == PortReuse && Terminal(f.state)) || (reason == Flushed && !Terminal(f.state))
  }

  lemma GivenTells(cfg: Config, h: seq<Packet>, reason: CloseReason)
    requires h != [] && OfKey(h, KeyOf(h[0])) && Given(cfg, h, reason)
    ensures Tells(cfg, h, reason)
  {
    hide RecordOf, OfKey, IsClosed, HasRst, IsAcknowledged, HasFin;
    KeyedIsTcp(cfg, h);
  }

  ghost predicate AllGiven(cfg: Config, log: seq<Segment>) {
    forall i :: 0 <= i < |log| ==> log[i].packets != [] && Given(cfg, log[i].packets, log[i].reason)
  }

  lemma ExportGives(cfg: Config, s: Tracker, k: Key, reason: CloseReason)
    requires AllGiven(cfg, s.exported) && k in s.live && s.live[k] != [] && Given(cfg, s.live[k], reason)
    ensures AllGiven(cfg, Export(s, k, reason).exported)
  {
    hide Given;
  }

  lemma CutIsGiven(cfg: Config, h: seq<Packet>, p: Packet)
    requires h != [] && CutReason(cfg, h, p).Some?
    ensures Given(cfg, h, CutReason(cfg, h, p).value)
  {
    hide RecordOf;
  }

  lemma ArriveGives(cfg: Config, s: Tracker, p: Packet)
    requires WellFormed(s) && AllGiven(cfg, s.exported)
    ensures AllGiven(cfg, Arrive(cfg, s, p).exported)
  {
    hide AllGiven, Given, CutReason, KeyOf, Without;
    var w, k := Watermark(s, p), KeyOf(p);
    if k in w.live && CutReason(cfg, w.live[k], p).Some? {
      CutIsGiven(cfg, w.live[k], p);
      ExportGives(cfg, w, k, CutReason(cfg, w.live[k], p).value);
    }
    var cut := Cut(cfg, w, p);
    if k !in cut.live && |cut.order| >= cfg.maxActive {
      assert cut.order[0] in cut.order;
      EvictedIsGiven(cfg, cut.live[cut.order[0]]);
      ExportGives(cfg, cut, cut.order[0], Evicted);
    }
  }

  lemma EvictedIsGiven(cfg: Config, h: seq<Packet>)
    requires h != []
    ensures Given(cfg, h, Evicted)
  {
  }

  lemma BulkGives(cfg: Config, s: Tracker, ks: seq<Key>, flushing: bool)
    requires Exportable(s, ks) && AllGiven(cfg, s.exported)
    ensures AllGiven(cfg, ExportAll(cfg, s, ks, flushing).exported)
  {
    hide RecordOf;
    ExportAllLog(cfg, s, ks, flushing);
  }

  lemma StepGives(cfg: Config, s: Tracker, c: Command)
    requires WellFormed(s) && AllGiven(cfg, s.exported)
    ensures AllGiven(cfg, Step(cfg, s, c).exported)
  {
    hide WellFormed, Arrive, AllGiven, Exportable, ExpiredAmong;
    var t := if c.Arrival? then Arrive(cfg, s, c.p) else s;
    if c.Arrival? {
      ArriveWellFormed(cfg, s, c.p);
      ArriveGives(cfg, s, c.p);
    }
    var at := if c.SweepAt? && c.now.Some? then c.now.value else t.clock;
    SweepKeys(cfg, t, at);
    BulkGives(cfg, t, ExpiredAmong(cfg, t.live, t.order, at), false);
    BulkGives(cfg, t, t.order, true);
  }

  lemma {:induction false} RunGives(cfg: Config, cs: seq<Command>)
    ensures AllGiven(cfg, Run(cfg, cs).exported)
  {
    hide AllGiven, Step;
    if cs == [] {
      NothingGiven(cfg);
    } else {
      RunGives(cfg, cs[..|cs| - 1]);
      StepGives(cfg, Run(cfg, cs[..|cs| - 1]), cs[|cs| - 1]);
    }
  }

  lemma NothingGiven(cfg: Config)
    ensures AllGiven(cfg, [])
  {
  }

  /** Over any run, the reason logged with every exported flow is true of the flow's packets. */
  lemma ReasonsAreTrue(cfg: Config, cs: seq<Command>, i: nat)
    requires i < |Run(cfg, cs).exported|
    ensures var g := Run(cfg, cs).exported[i]; g.packets != [] && Tells(cfg, g.packets, g.reason)
  {
    hide Given, Tells, Run, KeyOf;
    RunGives(cfg, cs);
    var g := Run(cfg, cs).exported[i];
    assert OneFlow(g.packets, KeyOf(g.packets[0]));
    GivenTells(cfg, g.packets, g.reason);
  }
}

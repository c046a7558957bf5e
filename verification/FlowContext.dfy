/** src/engine/flow_context.py: which side of its flow a packet's sender is on. */
module FlowContext {
  import opened Common
  import opened FlowKey
  import opened TcpState
  import opened FlowRecord
  import opened FlowHistories
  import opened TcpRuns
  import opened TcpLives

  datatype Role = ToServer | ToClient

  datatype PacketContext = PacketContext(role: Role, established: bool, midstream: bool, direction: Direction,
      state: State)

  /** Which endpoint is the server judging by ports alone: 0 the first, 1 the second, None unknown. */
  function ServerIndex(portA: int, portB: int, known: set<int>): Option<int> {
    if (portA in known) != (portB in known) then Some(if portA in known then 0 else 1)
    else if portA != portB then Some(if portA < portB then 0 else 1)
    else None
  }

  predicate ClientIsA(f: Flow, known: set<int>) {
    (f.id.protocol == TCP && !f.midstream)
    || ServerIndex(f.id.endpointA.port, f.id.endpointB.port, known) != Some(0)
  }

  /** build_flow_context for a packet the tracker tagged `tag`, the flow as snapshot() returns it. */
  function BuildContext(tag: Tag, flow: Option<Flow>, known: set<int>): Option<PacketContext> {
    if flow.None? then None
    else
      var f := flow.value;
      var role := if (tag.direction == Forward) == ClientIsA(f, known) then ToServer else ToClient;
      if f.id.protocol == TCP then
        if tag.state == ACTIVE then None
        else Some(PacketContext(role, tag.state in {ESTABLISHED, CLOSING, CLOSED}, f.midstream, tag.direction,
            tag.state))
      else Some(PacketContext(role, f.backward.packets > 0, f.midstream, tag.direction, ACTIVE))
  }

  /** The context of packet i of a flow, taken right after it, as the engine does. */
  function ContextAt(cfg: Config, h: seq<Packet>, i: nat, known: set<int>): Option<PacketContext>
    requires i < |h|
  {
    BuildContext(TagOf(cfg, h[..i + 1]), Some(RecordOf(cfg, h[..i + 1])), known)
  }

  lemma {:induction false} TcpIsNeverActive(cfg: Config, h: seq<Packet>)
    requires h != []
    ensures h[0].protocol == TCP ==> RecordOf(cfg, h).state != ACTIVE
  {
    if |h| > 1 {
      TcpIsNeverActive(cfg, h[..|h| - 1]);
    }
  }

  /** What decides packet i's role: its sender, and which endpoint is the client; the latter is fixed
      by the first packet. */
  lemma RoleOfPacket(cfg: Config, h: seq<Packet>, i: nat, known: set<int>)
    requires i < |h|
    ensures ContextAt(cfg, h, i, known).Some?
    ensures ContextAt(cfg, h, i, known).value.role
            == if FromA(h, i) == ClientIsA(RecordOf(cfg, h[..1]), known) then ToServer else ToClient
  {
    var g := h[..i + 1];
    RecordIdentity(cfg, g);
    RecordIdentity(cfg, h[..1]);
    TcpIsNeverActive(cfg, g);
    assert g[..1] == h[..1];
    RankIsMonotone(cfg, g, 1);
  }

  /** Role stability: with the known ports fixed, an endpoint keeps one role for the flow's whole
      life, and the two endpoints of a flow always have opposite roles. */
  lemma RolesAreStable(cfg: Config, h: seq<Packet>, i: nat, j: nat, known: set<int>)
    requires i < |h| && j < |h| && OfKey(h, KeyOf(h[0]))
    ensures ContextAt(cfg, h, i, known).Some? && ContextAt(cfg, h, j, known).Some?
    ensures ContextAt(cfg, h, i, known).value.role == ContextAt(cfg, h, j, known).value.role <==> h[i].src == h[j].src
  {
    RoleOfPacket(cfg, h, i, known);
    RoleOfPacket(cfg, h, j, known);
    var a, x, y := h[0], h[i], h[j];
    SameKeySameEndpoints(a.protocol, a.src, a.dst, x.protocol, x.src, x.dst);
    SameKeySameEndpoints(a.protocol, a.src, a.dst, y.protocol, y.src, y.dst);
  }

  /** Ports tell unless they are equal, and what they tell does not depend on the order of asking. */
  lemma PortsAreSymmetric(portA: int, portB: int, known: set<int>)
    ensures ServerIndex(portA, portB, known) == None <==> portA == portB
    ensures ServerIndex(portA, portB, known) == Some(0) <==> ServerIndex(portB, portA, known) == Some(1)
  {
  }

  /** When ports decide and differ, a sender's role does not depend on which endpoint was seen first. */
  lemma FirstSeenDoesNotMatter(cfg: Config, g: seq<Packet>, i: nat, h: seq<Packet>, j: nat, known: set<int>)
    requires i < |g| && j < |h| && OfKey(g, KeyOf(g[0])) && OfKey(h, KeyOf(g[0]))
    requires g[0].src.port != g[0].dst.port
    requires g[0].protocol == UDP || (RecordOf(cfg, g[..1]).midstream && RecordOf(cfg, h[..1]).midstream)
    requires g[i].src == h[j].src
    ensures ContextAt(cfg, g, i, known).Some? && ContextAt(cfg, h, j, known).Some?
    ensures ContextAt(cfg, g, i, known).value.role == ContextAt(cfg, h, j, known).value.role
  {
    RoleOfPacket(cfg, g, i, known);
    RoleOfPacket(cfg, h, j, known);
    var a, x, b, y := g[0], g[i], h[0], h[j];
    SameKeySameEndpoints(a.protocol, a.src, a.dst, x.protocol, x.src, x.dst);
    SameKeySameEndpoints(a.protocol, a.src, a.dst, b.protocol, b.src, b.dst);
    SameKeySameEndpoints(a.protocol, a.src, a.dst, y.protocol, y.src, y.dst);
    RecordIdentity(cfg, g[..1]);
    RecordIdentity(cfg, h[..1]);
    PortsAreSymmetric(a.src.port, a.dst.port, known);
  }

  lemma {:induction false} SomeFromOther(h: seq<Packet>, a: Endpoint)
    ensures Total(SentByOther(a, false), h) > 0 <==> exists i :: 0 <= i < |h| && h[i].src != a
  {
    if h != [] {
      SomeFromOther(h[..|h| - 1], a);
    }
  }

  /** A UDP packet is established exactly when the flow has seen, it included, a packet from the
      endpoint that did not open it. */
  lemma UdpEstablishedIffAnswered(cfg: Config, h: seq<Packet>, i: nat, known: set<int>)
    requires i < |h| && h[0].protocol == UDP
    ensures ContextAt(cfg, h, i, known).Some?
    ensures ContextAt(cfg, h, i, known).value.established <==> exists j :: 0 <= j <= i && !FromA(h, j)
  {
    var g := h[..i + 1];
    RoleOfPacket(cfg, h, i, known);
    RecordIdentity(cfg, g);
    RecordTotals(cfg, g);
    SomeFromOther(g, g[0].src);
    if j :| 0 <= j <= i && !FromA(h, j) {
      assert g[j].src != g[0].src;
    }
    if j :| 0 <= j < |g| && g[j].src != g[0].src {
      assert !FromA(h, j);
    }
  }

  // ---------------------------------------------------------------- the context, from the packets

  /** The flow began with a bare SYN, or with an RST: it is not taken for one picked up midstream. */
  predicate SeenFromTheStart(p: Packet) {
    p.protocol == TCP && (RST in p.flags || (SYN in p.flags && ACK !in p.flags))
  }

  lemma SameEnds(h: seq<Packet>, i: nat)
    requires i < |h| && OfKey(h, KeyOf(h[0]))
    ensures (h[i].src == h[0].src && h[i].dst == h[0].dst) || (h[i].src == h[0].dst && h[i].dst == h[0].src)
    ensures h[i].protocol == h[0].protocol
  {
    var a, x := h[0], h[i];
    SameKeySameEndpoints(a.protocol, a.src, a.dst, x.protocol, x.src, x.dst);
  }

  lemma FirstRecord(cfg: Config, p: Packet)
    ensures var f := RecordOf(cfg, [p]);
            && f.id.protocol == p.protocol && f.id.endpointA == p.src && f.id.endpointB == p.dst
            && (p.protocol == TCP ==> (f.midstream <==> !SeenFromTheStart(p)))
  {
    RecordIdentity(cfg, [p]);
    if p.protocol == TCP {
      MidstreamExactly(cfg, [p]);
    }
  }

  /** A packet of a TCP flow seen from its start goes to the server exactly when the endpoint that opened the
      flow sent it. Otherwise the ports tell: it goes to the server if its destination's port alone is known
      or, when that does not decide, if its source's port is the larger; with equal ports the first sender is
      the client. */
  lemma RoleExactly(cfg: Config, h: seq<Packet>, i: nat, known: set<int>)
    requires i < |h| && OfKey(h, KeyOf(h[0]))
    ensures ContextAt(cfg, h, i, known).Some?
    ensures var p := h[i];
            ContextAt(cfg, h, i, known).value.role == ToServer
            <==> if SeenFromTheStart(h[0]) || p.src.port == p.dst.port then p.src == h[0].src
                 else if (p.src.port in known) != (p.dst.port in known) then p.dst.port in known
                 else p.src.port > p.dst.port
  {
    hide ContextAt, RecordOf, OfKey;
    RoleOfPacket(cfg, h, i, known);
    SameEnds(h, i);
    assert h[..1] == [h[0]];
    FirstRecord(cfg, h[0]);
  }

  /** What the rest of a TCP packet's context says about the flow's packets up to it. */
  lemma TcpContextExactly(cfg: Config, h: seq<Packet>, i: nat, known: set<int>)
    requires i < |h| && OfKey(h, KeyOf(h[0])) && h[0].protocol == TCP
    ensures ContextAt(cfg, h, i, known).Some?
    ensures var c, g := ContextAt(cfg, h, i, known).value, h[..i + 1];
            && c.state == StateShown(cfg, g)
            && (c.midstream <==> !SeenFromTheStart(h[0]))
            && (c.direction == Forward <==> h[i].src == h[0].src)
            && (c.established <==> IsClosed(cfg, g)
                                   || (!HasRst(g) && (HasFin(g, true) || HasFin(g, false) || SYN !in h[0].flags
                                                      || IsAcknowledged(g))))
  {
    hide RecordOf, OfKey, IsClosed, HasRst, HasFin, IsAcknowledged, KeyOf;
    RoleOfPacket(cfg, h, i, known);
    var g := h[..i + 1];
    RecordIdentity(cfg, g);
    AllTcp(h, i + 1);
    LivesShow(cfg, g);
    MidstreamExactly(cfg, g);
  }

  lemma AllTcp(h: seq<Packet>, n: nat)
    requires 0 < n <= |h| && OfKey(h, KeyOf(h[0])) && h[0].protocol == TCP
    ensures TcpFlow(h[..n])
  {
    forall i | 0 <= i < n
      ensures h[i].protocol == TCP
    {
      SameEnds(h, i);
    }
  }
}

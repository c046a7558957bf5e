/** src/models/rule.py and the pure stages of src/engine/matcher.py. */
module Rules {
  import opened Common
  import opened ContentMatcher
  import FlowKey
  import opened TcpState
  import FC = FlowContext
  import RuleScanner

  datatype RuleProtocol = Tcp | Udp | Ip

  datatype RuleDirection = OneWay | BothWays

  const PORT_MAX := 65535

  datatype RawPortSpec = PortSpec(lo: int, hi: int)

  type PortSpec = s: RawPortSpec | 0 <= s.lo <= s.hi <= PORT_MAX witness PortSpec(0, 0)

  datatype IpSpec = IpSpec(any: bool, network: bv32, mask: bv32)

  datatype FlowStateSpec = Established | NotEstablished

  datatype FlowSpec = FlowSpec(role: Option<FC.Role>, state: Option<FlowStateSpec>)

  datatype FlagsMode = Exact | AllOf | AnyOf | NoneOf

  datatype FlagsSpec = FlagsSpec(mode: FlagsMode, flags: set<Flag>)

  datatype DsizeSpec = DsizeEq(a: nat) | DsizeLt(a: nat) | DsizeGt(a: nat) | DsizeRange(a: nat, b: nat)

  /** Where a rule was read, and the line verbatim. */
  datatype Origin = Origin(sourceFile: string, lineNo: nat, raw: string)

  /** The action is always `alert`. */
  datatype Rule = Rule(
    protocol: RuleProtocol,
    srcIp: IpSpec,
    srcPort: PortSpec,
    direction: RuleDirection,
    dstIp: IpSpec,
    dstPort: PortSpec,
    msg: string,
    sid: int,
    rev: int,
    classtype: Option<string>,
    priority: int,
    contents: seq<ContentSpec>,
    flow: Option<FlowSpec>,
    flags: Option<FlagsSpec>,
    dsize: Option<DsizeSpec>,
    passive: seq<RuleScanner.OptionPair>,
    origin: Origin)

  /** What the engine reads of an event. None: the field is missing or malformed. */
  datatype Event = Event(
    protocol: Option<FlowKey.Protocol>,
    srcIp: Option<bv32>,
    srcPort: Option<int>,
    dstIp: Option<bv32>,
    dstPort: Option<int>,
    flags: Option<set<Flag>>,
    payload: seq<byte>,
    skipped: bool,               // processing_action is skipped or dropped
    invalid: bool)               // preprocess_status is invalid

  // ---------------------------------------------------------------- the header stage

  predicate IpIn(spec: IpSpec, ip: bv32) {
    spec.any || (ip & spec.mask) == spec.network
  }

  predicate PortIn(spec: PortSpec, port: int) {
    spec.lo <= port <= spec.hi
  }

  predicate ValidPort(p: Option<int>) {
    p.Some? && 0 <= p.value <= PORT_MAX
  }

  /** The packet's source fits the first side and its destination the second. */
  predicate Fits(srcIp: IpSpec, srcPort: PortSpec, dstIp: IpSpec, dstPort: PortSpec, e: Event)
    requires e.srcIp.Some? && e.dstIp.Some? && e.srcPort.Some? && e.dstPort.Some?
  {
    && IpIn(srcIp, e.srcIp.value) && PortIn(srcPort, e.srcPort.value)
    && IpIn(dstIp, e.dstIp.value) && PortIn(dstPort, e.dstPort.value)
  }

  function NameOf(p: FlowKey.Protocol): RuleProtocol {
    if p == FlowKey.TCP then Tcp else Udp
  }

  predicate MatchHeader(r: Rule, e: Event) {
    && e.protocol.Some?
    && (r.protocol == Ip || r.protocol == NameOf(e.protocol.value))
    && ValidPort(e.srcPort) && ValidPort(e.dstPort)
    && e.srcIp.Some? && e.dstIp.Some?
    && (|| Fits(r.srcIp, r.srcPort, r.dstIp, r.dstPort, e)
        || (r.direction == BothWays && Fits(r.dstIp, r.dstPort, r.srcIp, r.srcPort, e)))
  }

  // ---------------------------------------------------------------- the flow and packet stages

  predicate MatchFlow(r: Rule, ctx: Option<FC.PacketContext>) {
    r.flow.None? ||
    (ctx.Some?
     && (r.flow.value.role.Some? ==> ctx.value.role == r.flow.value.role.value)
     && (r.flow.value.state == Some(Established) ==> ctx.value.established)
     && (r.flow.value.state == Some(NotEstablished) ==> !ctx.value.established))
  }

  predicate MatchFlags(spec: Option<FlagsSpec>, e: Event) {
    if spec.None? then true
    else if e.protocol != Some(FlowKey.TCP) || e.flags.None? then false
    else
      var wanted, present := spec.value.flags, e.flags.value;
      match spec.value.mode
      case Exact => present == wanted
      case AllOf => wanted <= present
      case AnyOf => wanted * present != {}
      case NoneOf => wanted * present == {}
  }

  predicate MatchDsize(spec: Option<DsizeSpec>, e: Event) {
    if spec.None? then true
    else
      match spec.value
      case DsizeEq(a) => |e.payload| == a
      case DsizeLt(a) => |e.payload| < a
      case DsizeGt(a) => |e.payload| > a
      case DsizeRange(a, b) => a <= |e.payload| <= b
  }
}

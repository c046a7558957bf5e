/** The value parsers of src/rules/parser.py: numbers, header fields, flow, flags and dsize. */
module OptionValues {
  import opened Common
  import opened PyText
  import opened Rules
  import opened RuleScanner
  import opened TcpState
  import FC = FlowContext

  // ---------------------------------------------------------------- numbers

  predicate AllDigits(s: string) {
    forall i :: 0 <= i < |s| ==> '0' <= s[i] <= '9'
  }

  predicate AsciiDigits(s: string) {
    s != [] && AllDigits(s)
  }

  function Decimal(s: string): nat
    requires AllDigits(s)
  {
    if s == [] then 0 else 10 * Decimal(s[..|s| - 1]) + (s[|s| - 1] - '0') as int
  }

  /** Python's int() refuses more digits than this. */
  const MAX_STR_DIGITS := 4300

  const MAX_OPTION_INT := 0xFFFFFFFF

  function Number(s: string): Option<nat> {
    if AsciiDigits(s) && |s| <= MAX_STR_DIGITS then Some(Decimal(s)) else None
  }

  /** _non_negative_int */
  function NonNegative(s: string): Option<nat> {
    var n := Number(s);
    if n.Some? && n.value <= MAX_OPTION_INT then n else None
  }

  /** _positive_int */
  function Positive(v: Option<string>): Option<nat> {
    if v.None? then None
    else
      var n := NonNegative(v.value);
      if n.Some? && n.value >= 1 then n else None
  }

  function Show(n: nat): string {
    (if n < 10 then [] else Show(n / 10)) + ['0' + (n % 10) as char]
  }

  lemma {:induction false} ShowReads(n: nat)
    ensures AsciiDigits(Show(n)) && Decimal(Show(n)) == n
  {
    var front := if n < 10 then [] else Show(n / 10);
    if n >= 10 {
      ShowReads(n / 10);
    }
    assert Show(n)[..|Show(n)| - 1] == front;
  }

  predicate Zeros(w: string) {
    forall i :: 0 <= i < |w| ==> w[i] == '0'
  }

  lemma {:induction false} ZerosAddNothing(w: string, s: string)
    requires Zeros(w) && AllDigits(s)
    ensures AllDigits(w + s) && Decimal(w + s) == Decimal(s)
  {
    var t := w + s;
    if s != [] {
      assert t[..|t| - 1] == w + s[..|s| - 1];
      ZerosAddNothing(w, s[..|s| - 1]);
    } else if w != [] {
      assert t[..|t| - 1] == w[..|w| - 1] + [];
      ZerosAddNothing(w[..|w| - 1], []);
    }
  }

  lemma ShowMore(m: nat, c: char)
    requires '0' <= c <= '9'
    ensures Show(10 * m + (c - '0') as int) == (if m == 0 then [] else Show(m)) + [c]
  {
    var d := (c - '0') as int;
    assert (10 * m + d) / 10 == m && (10 * m + d) % 10 == d;
  }

  lemma DecimalMore(s: string)
    requires AsciiDigits(s)
    ensures Decimal(s) == 10 * Decimal(s[..|s| - 1]) + (s[|s| - 1] - '0') as int
  {
  }

  /** A run of digits is zeros and then the numeral of its value. */
  lemma {:induction false} DigitsAreShown(s: string) returns (w: string)
    requires AsciiDigits(s)
    ensures Zeros(w) && s == w + Show(Decimal(s))
  {
    hide Show, Decimal;
    var front, c := s[..|s| - 1], s[|s| - 1];
    DecimalMore(s);
    ShowMore(Decimal(front), c);
    assert s == front + [c];
    if front == [] {
      NoDigits();
      w := [];
    } else {
      w := DigitsAreShown(front);
      if Decimal(front) == 0 {
        NoDigits();
        w := front;
      }
    }
  }

  lemma NoDigits()
    ensures Decimal([]) == 0 && Show(0) == "0"
  {
  }

  /** int() of an option reads exactly the numerals, with any zeros before them, up to its limit of digits. */
  lemma NumeralExactly(s: string, n: nat)
    ensures Number(s) == Some(n) <==> |s| <= MAX_STR_DIGITS && exists w :: Zeros(w) && s == w + Show(n)
  {
    hide Show, Decimal;
    if Number(s) == Some(n) {
      var w := DigitsAreShown(s);
    }
    if w :| Zeros(w) && s == w + Show(n) {
      ShowReads(n);
      ZerosAddNothing(w, Show(n));
    }
  }

  function Pow10(k: nat): nat {
    if k == 0 then 1 else 10 * Pow10(k - 1)
  }

  lemma {:induction false} ShowIsShort(n: nat, k: nat)
    requires k >= 1 && n < Pow10(k)
    ensures |Show(n)| <= k
  {
    if n >= 10 {
      assert Pow10(1) == 10;
      ShowIsShort(n / 10, k - 1);
    }
  }

  lemma NumberOfShow(n: nat)
    requires n <= MAX_OPTION_INT
    ensures Number(Show(n)) == NonNegative(Show(n)) == Some(n)
  {
    ShowReads(n);
    assert Pow10(10) == 10_000_000_000 by {
      assert Pow10(5) == 100_000;
      assert Pow10(7) == 100 * Pow10(5);
      assert Pow10(9) == 100 * Pow10(7);
    }
    ShowIsShort(n, 10);
  }

  // ---------------------------------------------------------------- ports

  predicate UnsupportedPrefix(t: string) {
    t != [] && (t[0] == '$' || t[0] == '!' || t[0] == '[')
  }

  function ParsePort(t: string): Result<PortSpec> {
    if t == "any" then Ok(PortSpec(0, PORT_MAX))
    else if UnsupportedPrefix(t) then Err(UnsupportedPortSyntax)
    else
      var (loText, rest) := Partition(t, ':');
      var hiText := if rest.Some? then rest.value else loText;
      if rest.Some? && (':' in hiText || (loText == "" && hiText == "")) then Err(BadPort)
      else
        var lo := if rest.Some? && loText == "" then Some(0) else Number(loText);
        var hi := if hiText == "" then Some(PORT_MAX) else Number(hiText);
        if lo.None? || hi.None? || !(lo.value <= hi.value <= PORT_MAX) then Err(BadPort)
        else Ok(PortSpec(lo.value, hi.value))
  }

  lemma DigitsArePlain(s: string, c: char)
    requires AsciiDigits(s) && !('0' <= c <= '9')
    ensures c !in s && s != "any" && !UnsupportedPrefix(s)
    ensures !IsSpace(s[0]) && !IsSpace(s[|s| - 1])
  {
    assert "any"[0] == 'a' && '0' <= s[0] <= '9';
  }

  lemma FindNone(s: string, c: char)
    requires c !in s
    ensures Partition(s, c) == (s, None)
  {
  }

  /** Every port range can be written, in each of the four spellings, and is read back. */
  lemma PortsSurvive(lo: nat, hi: nat)
    requires lo <= hi <= PORT_MAX
    ensures ParsePort(Show(lo) + ":" + Show(hi)) == Ok(PortSpec(lo, hi))
    ensures ParsePort(":" + Show(hi)) == Ok(PortSpec(0, hi))
    ensures ParsePort(Show(lo) + ":") == Ok(PortSpec(lo, PORT_MAX))
    ensures ParsePort(Show(lo)) == Ok(PortSpec(lo, lo))
  {
    hide Show, Number, Partition, Find, AllDigits, UnsupportedPrefix, Decimal, NonNegative;
    NumberOfShow(lo);
    NumberOfShow(hi);
    ShowReads(lo);
    ShowReads(hi);
    var a, b := Show(lo), Show(hi);
    DigitsArePlain(a, ':');
    DigitsArePlain(b, ':');
    ShowedPort(a, b);
    ShowedPort("", b);
    ShowedPort(a, "");
    FindNone(a, ':');
  }

  /** A text with one colon is split there. */
  lemma ShowedPort(a: string, b: string)
    requires ':' !in a && ':' !in b && (a == "" || !UnsupportedPrefix(a))
    ensures Partition(a + ":" + b, ':') == (a, Some(b))
    ensures a + ":" + b != "any" && !UnsupportedPrefix(a + ":" + b)
    ensures a == "" ==> a + ":" + b == ":" + b
    ensures b == "" ==> a + ":" + b == a + ":"
  {
    PartitionAt(a, ':', b);
    var t := a + ":" + b;
    assert t[|a|] == ':';
    assert ':' !in "any";
    if a != "" {
      assert t[0] == a[0];
    }
  }

  /** t is "a:b", either end possibly open. */
  predicate RangeSpelling(t: string, a: string, b: string, lo: nat, hi: nat) {
    && t == a + ":" + b && (a != "" || b != "")
    && (if a == "" then lo == 0 else Number(a) == Some(lo))
    && (if b == "" then hi == PORT_MAX else Number(b) == Some(hi))
  }

  ghost predicate PortSpelling(t: string, lo: nat, hi: nat) {
    || (t == "any" && lo == 0 && hi == PORT_MAX)
    || (lo == hi && Number(t) == Some(lo))
    || exists a, b :: RangeSpelling(t, a, b, lo, hi)
  }

  lemma PartitionBack(s: string, c: char)
    ensures var (a, rest) := Partition(s, c);
            c !in a && s == if rest.Some? then a + [c] + rest.value else a
  {
  }

  lemma NumeralIsPlain(s: string, c: char)
    requires Number(s).Some? && !('0' <= c <= '9')
    ensures c !in s && s != "any" && s != "" && !UnsupportedPrefix(s)
  {
    DigitsArePlain(s, c);
  }

  lemma RangeIsRead(t: string, a: string, b: string, lo: nat, hi: nat)
    requires RangeSpelling(t, a, b, lo, hi) && lo <= hi <= PORT_MAX
    ensures ParsePort(t) == Ok(PortSpec(lo, hi))
  {
    hide Number, Partition;
    if a != "" {
      NumeralIsPlain(a, ':');
    }
    if b != "" {
      NumeralIsPlain(b, ':');
    }
    ShowedPort(a, b);
  }

  /** A port text is accepted as lo..hi exactly when it is one of the spellings of that range. */
  lemma PortsExactly(t: string, lo: nat, hi: nat)
    requires lo <= hi <= PORT_MAX
    ensures ParsePort(t) == Ok(PortSpec(lo, hi)) <==> PortSpelling(t, lo, hi)
  {
    hide Number, Partition;
    PartitionBack(t, ':');
    var (a, rest) := Partition(t, ':');
    if ParsePort(t) == Ok(PortSpec(lo, hi)) && t != "any" && rest.Some? {
      assert RangeSpelling(t, a, rest.value, lo, hi);
    }
    if a, b :| RangeSpelling(t, a, b, lo, hi) {
      RangeIsRead(t, a, b, lo, hi);
    }
    if Number(t).Some? {
      NumeralIsPlain(t, ':');
      FindNone(t, ':');
    }
  }

  // ---------------------------------------------------------------- the header

  /** ipaddress.ip_network: network address and mask of an IPv4 network, None for anything else. */
  type NetFn = string -> Option<(bv32, bv32)>

  function ParseIp(t: string, net: NetFn): Result<IpSpec> {
    if t == "any" then Ok(IpSpec(true, 0, 0))
    else if UnsupportedPrefix(t) then Err(UnsupportedIpSyntax)
    else
      var prefix := Partition(t, '/').1;
      if prefix.Some? && !AsciiDigits(prefix.value) then Err(BadIp)
      else
        var n := net(t);
        if n.None? then Err(BadIp) else Ok(IpSpec(false, n.value.0, n.value.1))
  }

  const UNSUPPORTED_ACTIONS := {"drop", "reject", "pass", "log", "sdrop", "activate", "dynamic"}

  const UNSUPPORTED_PROTOCOLS := {
    "icmp", "icmpv6", "http", "dns", "smtp", "ftp", "ssh", "tls", "ssl", "smb",
    "pop3", "imap", "telnet", "snmp", "sip", "tftp", "ntp", "dhcp", "rdp"}

  function ParseAction(t: string): Result<()> {
    if t == "alert" then Ok(()) else if t in UNSUPPORTED_ACTIONS then Err(UnsupportedAction(t)) else Err(BadHeader)
  }

  function ParseProtocol(t: string): Result<RuleProtocol> {
    if t == "tcp" then Ok(Tcp)
    else if t == "udp" then Ok(Udp)
    else if t == "ip" then Ok(Ip)
    else if t in UNSUPPORTED_PROTOCOLS then Err(UnsupportedProtocol(t))
    else Err(BadHeader)
  }

  function ParseDirection(t: string): Result<RuleDirection> {
    if t == "->" then Ok(OneWay) else if t == "<>" then Ok(BothWays) else Err(BadDirection)
  }

  datatype Field =
    | ActionField | ProtocolField(protocol: RuleProtocol) | IpField(ip: IpSpec) | PortField(port: PortSpec)
    | DirectionField(direction: RuleDirection)

  function As<T>(r: Result<T>, f: T -> Field): Result<Field> {
    match r
    case Ok(v) => Ok(f(v))
    case Err(reason) => Err(reason)
  }

  /** The parser of header field i. */
  function ParseField(i: nat, t: string, net: NetFn): Result<Field>
    requires i < HEADER_TOKEN_COUNT
  {
    if i == 0 then As(ParseAction(t), _ => ActionField)
    else if i == 1 then As(ParseProtocol(t), p => ProtocolField(p))
    else if i == 2 || i == 5 then As(ParseIp(t, net), ip => IpField(ip))
    else if i == 3 || i == 6 then As(ParsePort(t), port => PortField(port))
    else As(ParseDirection(t), d => DirectionField(d))
  }

  function FieldFault(h: seq<string>, i: nat, net: NetFn): Option<Reason>
    requires i < |h| <= HEADER_TOKEN_COUNT
  {
    var r := ParseField(i, h[i], net);
    if r.Err? then Some(r.reason) else None
  }

  /** The first of the fields before n whose fault is invalid, or the first whose fault is not. */
  function FirstFault(h: seq<string>, n: nat, invalid: bool, net: NetFn): Option<Reason>
    requires n <= |h| <= HEADER_TOKEN_COUNT
  {
    if n == 0 then None
    else
      var before, last := FirstFault(h, n - 1, invalid, net), FieldFault(h, n - 1, net);
      if before.Some? then before
      else if last.Some? && last.value.IsInvalid() == invalid then last
      else None
  }

  lemma {:induction false} FirstFaultExists(h: seq<string>, n: nat, invalid: bool, net: NetFn)
    requires n <= |h| <= HEADER_TOKEN_COUNT
    ensures FirstFault(h, n, invalid, net).Some?
            <==> exists i ::
                   0 <= i < n && FieldFault(h, i, net).Some? && FieldFault(h, i, net).value.IsInvalid() == invalid
    ensures FirstFault(h, n, invalid, net).Some? ==> FirstFault(h, n, invalid, net).value.IsInvalid() == invalid
  {
    hide ParseField;
    if n > 0 {
      FirstFaultExists(h, n - 1, invalid, net);
    }
  }

  function HeaderInvalid(h: seq<string>, net: NetFn): Option<Reason> {
    if |h| != HEADER_TOKEN_COUNT then Some(BadHeader) else FirstFault(h, |h|, true, net)
  }

  function HeaderUnsupported(h: seq<string>, net: NetFn): Option<Reason> {
    if |h| != HEADER_TOKEN_COUNT then None else FirstFault(h, |h|, false, net)
  }

  /** parse_header: any invalid field wins over every unsupported one. */
  method ParseHeader(h: seq<string>, net: NetFn) returns (r: Result<seq<Field>>)
    ensures r.Ok? <==> HeaderInvalid(h, net).None? && HeaderUnsupported(h, net).None?
    ensures r.Err? ==> Some(r.reason) == if HeaderInvalid(h, net).Some? then HeaderInvalid(h, net)
            else HeaderUnsupported(h, net)
    ensures r.Ok? ==> |h| == |r.value| == HEADER_TOKEN_COUNT
    ensures r.Ok? ==> forall i :: 0 <= i < |h| ==> ParseField(i, h[i], net) == Ok(r.value[i])
  {
    hide ParseField;
    if |h| != HEADER_TOKEN_COUNT { return Err(BadHeader); }
    var values: seq<Field> := [];
    var firstUnsupported: Option<Reason> := None;
    var i := 0;
    while i < |h|
      invariant 0 <= i <= |h|
      invariant FirstFault(h, i, true, net).None? && FirstFault(h, i, false, net) == firstUnsupported
      invariant firstUnsupported.None? ==> |values| == i && forall j :: 0 <= j < i ==>
                ParseField(j, h[j], net) == Ok(values[j])
    {
      var f := ParseField(i, h[i], net);
      if f.Ok? {
        values := values + [f.value];
      } else if f.reason.IsInvalid() {
        FaultStays(h, i + 1, net);
        return Err(f.reason);
      } else if firstUnsupported.None? {
        firstUnsupported := Some(f.reason);
      }
      i := i + 1;
    }
    if firstUnsupported.Some? { return Err(firstUnsupported.value); }
    r := Ok(values);
  }

  lemma {:induction false} FaultStays(h: seq<string>, n: nat, net: NetFn)
    requires n <= |h| <= HEADER_TOKEN_COUNT && FirstFault(h, n, true, net).Some?
    ensures FirstFault(h, |h|, true, net) == FirstFault(h, n, true, net)
    decreases |h| - n
  {
    if n < |h| {
      FaultStays(h, n + 1, net);
    }
  }

  // ---------------------------------------------------------------- flow

  function SplitOn(s: string, c: char): seq<string>
    decreases |s|
  {
    var (a, rest) := Partition(s, c);
    if rest.None? then [a] else [a] + SplitOn(rest.value, c)
  }

  function FlowItems(v: string): seq<string> {
    var pieces := SplitOn(v, ',');
    seq(|pieces|, i requires 0 <= i < |pieces| => Strip(pieces[i]))
  }

  function RoleOf(item: string): Option<FC.Role> {
    if item == "to_server" || item == "from_client" then Some(FC.ToServer)
    else if item == "to_client" || item == "from_server" then Some(FC.ToClient)
    else None
  }

  function StateSpecOf(item: string): Option<FlowStateSpec> {
    if item == "established" then Some(Established)
    else if item == "not_established" then Some(NotEstablished)
    else None
  }

  predicate IsFlowWord(item: string) {
    RoleOf(item).Some? || StateSpecOf(item).Some?
  }

  function FirstUnknown(items: seq<string>): Option<string> {
    if items == [] then None else if !IsFlowWord(items[0]) then Some(items[0]) else FirstUnknown(items[1..])
  }

  const BAD_FLOW := BadOptionValue("flow")

  function FlowValue(v: Option<string>): Result<FlowSpec> {
    if v.None? || Strip(v.value) == [] then Err(BAD_FLOW)
    else
      var items := FlowItems(v.value);
      var roles := set x | x in items && RoleOf(x).Some? :: RoleOf(x).value;
      var states := set x | x in items && StateSpecOf(x).Some? :: StateSpecOf(x).value;
      if [] in items then Err(BAD_FLOW)
      else if {FC.ToServer, FC.ToClient} <= roles || {Established, NotEstablished} <= states then Err(ConflictingFlow)
      else if FirstUnknown(items).Some? then Err(UnsupportedFlowOption(FirstUnknown(items).value))
      else
        Ok(FlowSpec(
             if FC.ToServer in roles then Some(FC.ToServer) else if FC.ToClient in roles then Some(FC.ToClient)
                 else None,
             if Established in states then Some(Established)
                 else if NotEstablished in states then Some(NotEstablished) else None))
  }

  lemma {:induction false} UnknownIsAnItem(items: seq<string>)
    ensures FirstUnknown(items).Some? <==> exists x :: x in items && !IsFlowWord(x)
  {
    if items != [] {
      UnknownIsAnItem(items[1..]);
      assert items == [items[0]] + items[1..];
    }
  }

  /** Order and repetition of the words do not matter, except for which unknown word is reported. */
  lemma FlowIsASet(v: string, w: string)
    requires Strip(v) != [] && Strip(w) != []
    requires forall x :: x in FlowItems(v) <==> x in FlowItems(w)
    ensures var a, b := FlowValue(Some(v)), FlowValue(Some(w));
            a == b || (a.Err? && b.Err? && a.reason.UnsupportedFlowOption? && b.reason.UnsupportedFlowOption?)
  {
    hide FlowItems, Strip, RoleOf, StateSpecOf, FirstUnknown;
    var items, others := FlowItems(v), FlowItems(w);
    UnknownIsAnItem(items);
    UnknownIsAnItem(others);
    assert (set x | x in items && RoleOf(x).Some? :: RoleOf(x).value)
           == (set x | x in others && RoleOf(x).Some? :: RoleOf(x).value);
    assert (set x | x in items && StateSpecOf(x).Some? :: StateSpecOf(x).value)
           == (set x | x in others && StateSpecOf(x).Some? :: StateSpecOf(x).value);
  }

  /** The flow words say role and state, and nothing else: every item is a known word, the role is the
      one every role word gives, and the state likewise. */
  ghost predicate SaysFlow(items: seq<string>, f: FlowSpec) {
    && (forall x :: x in items ==> IsFlowWord(x))
    && (forall r :: f.role == Some(r) <==> exists x :: x in items && RoleOf(x) == Some(r))
    && (forall t :: f.state == Some(t) <==> exists x :: x in items && StateSpecOf(x) == Some(t))
  }

  lemma RolesOf(items: seq<string>, r: FC.Role)
    ensures r in (set x | x in items && RoleOf(x).Some? :: RoleOf(x).value)
            <==> exists x :: x in items && RoleOf(x) == Some(r)
  {
  }

  lemma StatesOf(items: seq<string>, t: FlowStateSpec)
    ensures t in (set x | x in items && StateSpecOf(x).Some? :: StateSpecOf(x).value)
            <==> exists x :: x in items && StateSpecOf(x) == Some(t)
  {
  }

  /** A flow value is accepted as f exactly when its words say f. */
  lemma FlowExactly(v: string, f: FlowSpec)
    ensures FlowValue(Some(v)) == Ok(f) <==> Strip(v) != [] && SaysFlow(FlowItems(v), f)
  {
    hide FlowItems, Strip, RoleOf, StateSpecOf, FirstUnknown;
    var items := FlowItems(v);
    UnknownIsAnItem(items);
    RolesOf(items, FC.ToServer);
    RolesOf(items, FC.ToClient);
    StatesOf(items, Established);
    StatesOf(items, NotEstablished);
    EmptyIsUnknown();
    if FlowValue(Some(v)) == Ok(f) {
      forall r
        ensures f.role == Some(r) <==> exists x :: x in items && RoleOf(x) == Some(r)
      {
        match r case ToServer => case ToClient =>
      }
      forall t
        ensures f.state == Some(t) <==> exists x :: x in items && StateSpecOf(x) == Some(t)
      {
        match t case Established => case NotEstablished =>
      }
    } else if SaysFlow(items, f) {
      FlowParts(f);
    }
  }

  lemma FlowParts(f: FlowSpec)
    ensures f.role == None || f.role == Some(FC.ToServer) || f.role == Some(FC.ToClient)
    ensures f.state == None || f.state == Some(Established) || f.state == Some(NotEstablished)
  {
    if f.role.Some? {
      match f.role.value case ToServer => case ToClient =>
    }
    if f.state.Some? {
      match f.state.value case Established => case NotEstablished =>
    }
  }

  lemma EmptyIsUnknown()
    ensures !IsFlowWord([])
  {
  }

  // ---------------------------------------------------------------- flags

  function FlagOf(c: char): Option<Flag> {
    match c
    case 'F' => Some(FIN)
    case 'S' => Some(SYN)
    case 'R' => Some(RST)
    case 'P' => Some(PSH)
    case 'A' => Some(ACK)
    case 'U' => Some(URG)
    case 'C' => Some(CWR)
    case 'E' => Some(ECE)
    case _ => None
  }

  /** One or more flag letters. */
  predicate FlagLetters(s: string) {
    s != [] && forall i :: 0 <= i < |s| ==> FlagOf(s[i]).Some?
  }

  function FlagSet(s: string): set<Flag> {
    set c | c in s && FlagOf(c).Some? :: FlagOf(c).value
  }

  /** The modifier of a flags value, and what it applies to. */
  function FlagsModeOf(main: string): (FlagsMode, string) {
    if main != [] && main[0] == '!' then (NoneOf, main[1..])
    else if main != [] && main[|main| - 1] == '+' then (AllOf, main[..|main| - 1])
    else if main != [] && main[|main| - 1] == '*' then (AnyOf, main[..|main| - 1])
    else (Exact, main)
  }

  const BAD_FLAGS := BadOptionValue("flags")

  function FlagsValue(v: Option<string>): Result<FlagsSpec> {
    if v.None? then Err(BAD_FLAGS)
    else
      var (whole, mask) := Partition(v.value, ',');
      var (mode, main) := FlagsModeOf(whole);
      if main == "0" && mode != Exact then Err(BAD_FLAGS)
      else if main != "0" && !FlagLetters(main) then Err(BAD_FLAGS)
      else if mask.Some? then Err(UnsupportedFlagsMask)
      else Ok(FlagsSpec(mode, if main == "0" then {} else FlagSet(main)))
  }

  function ShowFlags(mode: FlagsMode, letters: string): string {
    match mode
    case Exact => letters
    case AllOf => letters + "+"
    case AnyOf => letters + "*"
    case NoneOf => "!" + letters
  }

  /** Each spelling of a flags value means what it says; with a mask it is unsupported, not invalid. */
  lemma FlagsSurvive(mode: FlagsMode, letters: string, mask: string)
    requires FlagLetters(letters)
    ensures FlagsValue(Some(ShowFlags(mode, letters))) == Ok(FlagsSpec(mode, FlagSet(letters)))
    ensures FlagsValue(Some(ShowFlags(mode, letters) + "," + mask)) == Err(UnsupportedFlagsMask)
    ensures FlagSet(letters) != {}
  {
    var s := ShowFlags(mode, letters);
    assert FlagOf(letters[0]).value in FlagSet(letters) by {
      assert letters[0] in letters;
    }
    assert FlagOf('0').None? && FlagOf('!').None? && FlagOf('+').None? && FlagOf('*').None? && FlagOf(',').None?;
    assert letters != "0" by {
      assert "0"[0] == '0';
    }
    assert ',' !in s;
    assert FlagsModeOf(s) == (mode, letters) by {
      assert (letters + "+")[..|letters|] == letters && (letters + "*")[..|letters|] == letters;
      assert ("!" + letters)[1..] == letters;
    }
    FindNone(s, ',');
    PartitionAt(s, ',', mask);
  }

  ghost predicate FlagsSpelling(t: string, spec: FlagsSpec) {
    || (t == "0" && spec == FlagsSpec(Exact, {}))
    || exists letters :: FlagLetters(letters) && t == ShowFlags(spec.mode, letters) && spec.flags == FlagSet(letters)
  }

  /** A flags value is accepted as spec exactly when it is one of its spellings. */
  lemma FlagsExactly(t: string, spec: FlagsSpec)
    ensures FlagsValue(Some(t)) == Ok(spec) <==> FlagsSpelling(t, spec)
  {
    hide Partition, FlagLetters, FlagSet;
    PartitionBack(t, ',');
    ModeIsShown(t);
    if FlagsValue(Some(t)) == Ok(spec) {
      var (mode, main) := FlagsModeOf(t);
      assert t == ShowFlags(mode, main);
    }
    if t == "0" {
      FindNone(t, ',');
    }
    ZeroIsNoFlag();
    if letters :| FlagLetters(letters) && t == ShowFlags(spec.mode, letters) && spec.flags == FlagSet(letters) {
      FlagsSurvive(spec.mode, letters, "");
    }
  }

  lemma ModeIsShown(main: string)
    ensures var (mode, rest) := FlagsModeOf(main); main == ShowFlags(mode, rest)
  {
  }

  lemma ZeroIsNoFlag()
    ensures ',' !in "0" && !FlagLetters("0") && forall m, letters :: FlagLetters(letters) ==>
            ShowFlags(m, letters) != "0"
  {
    assert FlagOf("0"[0]).None?;
    forall m, letters | FlagLetters(letters)
      ensures ShowFlags(m, letters) != "0"
    {
      var s := ShowFlags(m, letters);
      assert m == Exact ==> s[0] == letters[0];
      assert m != Exact ==> |s| >= 2;
    }
  }

  // ---------------------------------------------------------------- dsize

  const BAD_DSIZE := BadOptionValue("dsize")

  /** a with b as its upper bound, both at most MAX_OPTION_INT. */
  function SizeRange(a: string, b: string): Result<DsizeSpec> {
    var lo, hi := NonNegative(a), NonNegative(b);
    if lo.None? || hi.None? || lo.value > hi.value then Err(BAD_DSIZE) else Ok(DsizeRange(lo.value, hi.value))
  }

  function DsizeValue(v: Option<string>): Result<DsizeSpec> {
    if v.None? then Err(BAD_DSIZE)
    else
      var text := Strip(v.value);
      var (a, rest) := Partition(text, '<');
      if AsciiDigits(text) then
        var n := NonNegative(text);
        if n.None? then Err(BAD_DSIZE) else Ok(DsizeEq(n.value))
      else if text != [] && (text[0] == '<' || text[0] == '>') && AsciiDigits(LStrip(text[1..])) then
        var n := NonNegative(LStrip(text[1..]));
        if n.None? then Err(BAD_DSIZE) else if text[0] == '<' then Ok(DsizeLt(n.value)) else Ok(DsizeGt(n.value))
      else if rest.Some? && rest.value != [] && rest.value[0] == '>' then
        SizeRange(RStrip(a), LStrip(rest.value[1..]))
      else Err(BAD_DSIZE)
  }

  lemma OperatorFirst(op: char, digits: string)
    requires AsciiDigits(digits) && (op == '<' || op == '>')
    ensures var text := [op] + digits;
            Strip(text) == text && !AsciiDigits(text) && text[0] == op && LStrip(text[1..]) == digits
  {
    var text := [op] + digits;
    StripTrim(text);
    assert !('0' <= text[0] <= '9') && text[1..] == digits;
  }

  lemma OperatorBetween(s: string, t: string)
    requires AsciiDigits(s) && AsciiDigits(t)
    ensures var text := s + "<>" + t;
            && Strip(text) == text && !AsciiDigits(text) && text[0] != '<' && text[0] != '>'
            && Partition(text, '<') == (s, Some(">" + t)) && RStrip(s) == s && LStrip((">" + t)[1..]) == t
  {
    var text := s + "<>" + t;
    DigitsArePlain(s, '<');
    DigitsArePlain(t, '<');
    assert text[0] == s[0] && text[|text| - 1] == t[|t| - 1];
    StripTrim(text);
    assert !AsciiDigits(text) by {
      assert text[|s|] == '<';
    }
    PartitionAt(s, '<', ">" + t);
    assert s + "<" + (">" + t) == text;
    assert (">" + t)[1..] == t;
  }

  /** Every payload length test can be written and is read back. */
  lemma DsizesSurvive(a: nat, b: nat)
    requires a <= MAX_OPTION_INT && b <= MAX_OPTION_INT
    ensures DsizeValue(Some(Show(a))) == Ok(DsizeEq(a))
    ensures DsizeValue(Some("<" + Show(a))) == Ok(DsizeLt(a))
    ensures DsizeValue(Some(">" + Show(a))) == Ok(DsizeGt(a))
    ensures DsizeValue(Some(Show(a) + "<>" + Show(b))) == if a <= b then Ok(DsizeRange(a, b)) else Err(BAD_DSIZE)
  {
    hide Show, Decimal, Number, NonNegative, AllDigits, DsizeValue;
    NumberOfShow(a);
    NumberOfShow(b);
    ShowReads(a);
    ShowReads(b);
    DsizeOne(Show(a), '<');
    DsizeOne(Show(a), '>');
    DsizeTwo(Show(a), Show(b));
  }

  lemma DsizeOne(s: string, op: char)
    requires AsciiDigits(s) && NonNegative(s).Some? && (op == '<' || op == '>')
    ensures DsizeValue(Some(s)) == Ok(DsizeEq(NonNegative(s).value))
    ensures DsizeValue(Some([op] + s)) == Ok(if op == '<' then DsizeLt(NonNegative(s).value)
            else DsizeGt(NonNegative(s).value))
  {
    DigitsArePlain(s, '<');
    StripTrim(s);
    hide AllDigits, NonNegative, Partition, LStrip, RStrip, Strip;
    OperatorFirst(op, s);
  }

  lemma DsizeTwo(s: string, t: string)
    requires AsciiDigits(s) && AsciiDigits(t)
    ensures DsizeValue(Some(s + "<>" + t)) == SizeRange(s, t)
  {
    hide AllDigits, NonNegative, Partition, LStrip, RStrip, Strip, SizeRange;
    OperatorBetween(s, t);
  }

  predicate Blank(w: string) {
    forall i :: 0 <= i < |w| ==> IsSpace(w[i])
  }

  /** text is the operator, blanks, and a number. */
  ghost predicate ComparisonSpelling(text: string, op: char, n: nat) {
    exists w, s :: Blank(w) && NonNegative(s) == Some(n) && text == [op] + w + s
  }

  /** text is two numbers around "<>", with blanks on either side of it. */
  ghost predicate SizesSpelling(text: string, a: nat, b: nat) {
    exists s, u, w, t :: Blank(u) && Blank(w) && NonNegative(s) == Some(a) && NonNegative(t) == Some(b)
                         && text == s + u + "<>" + w + t
  }

  ghost predicate DsizeSpelling(text: string, d: DsizeSpec) {
    match d
    case DsizeEq(n) => NonNegative(text) == Some(n)
    case DsizeLt(n) => ComparisonSpelling(text, '<', n)
    case DsizeGt(n) => ComparisonSpelling(text, '>', n)
    case DsizeRange(a, b) => a <= b && SizesSpelling(text, a, b)
  }

  lemma {:induction false} LStripSplits(s: string) returns (w: string)
    ensures Blank(w) && s == w + LStrip(s)
  {
    if s != [] && IsSpace(s[0]) {
      w := LStripSplits(s[1..]);
      w := [s[0]] + w;
    } else {
      w := [];
    }
  }

  lemma {:induction false} RStripSplits(s: string) returns (w: string)
    ensures Blank(w) && s == RStrip(s) + w
  {
    if s != [] && IsSpace(s[|s| - 1]) {
      w := RStripSplits(s[..|s| - 1]);
      w := w + [s[|s| - 1]];
    } else {
      w := [];
    }
  }

  lemma {:induction false} LStripBlank(w: string, s: string)
    requires Blank(w) && s != [] && !IsSpace(s[0])
    ensures LStrip(w + s) == s
  {
    if w == [] {
      assert w + s == s;
    } else {
      assert (w + s)[1..] == w[1..] + s;
      LStripBlank(w[1..], s);
    }
  }

  lemma {:induction false} RStripBlank(s: string, w: string)
    requires Blank(w) && s != [] && !IsSpace(s[|s| - 1])
    ensures RStrip(s + w) == s
  {
    if w == [] {
      assert s + w == s;
    } else {
      assert (s + w)[..|s + w| - 1] == s + w[..|w| - 1];
      RStripBlank(s, w[..|w| - 1]);
    }
  }

  lemma ComparisonIsRead(text: string, op: char, w: string, s: string)
    requires (op == '<' || op == '>') && Blank(w) && NonNegative(s).Some? && text == [op] + w + s
    ensures !AsciiDigits(text) && text[0] == op && LStrip(text[1..]) == s && AsciiDigits(s)
  {
    hide NonNegative, LStrip;
    NumberIsDigits(s);
    DigitsArePlain(s, '<');
    LStripBlank(w, s);
    assert text[1..] == w + s && !('0' <= text[0] <= '9');
  }

  lemma SizesAreRead(text: string, s: string, u: string, w: string, t: string)
    requires Blank(u) && Blank(w) && NonNegative(s).Some? && NonNegative(t).Some? && text == s + u + "<>" + w + t
    ensures !AsciiDigits(text) && text[0] != '<' && text[0] != '>'
    ensures Partition(text, '<') == (s + u, Some(">" + w + t)) && RStrip(s + u) == s && LStrip((">" + w + t)[1..]) == t
  {
    hide NonNegative, LStrip, RStrip, Partition, AllDigits;
    NumberIsDigits(s);
    NumberIsDigits(t);
    DigitsArePlain(s, '<');
    DigitsArePlain(s, '>');
    DigitsArePlain(t, '<');
    RStripBlank(s, u);
    LStripBlank(w, t);
    assert (">" + w + t)[1..] == w + t;
    assert text[0] == s[0] && s[0] in s;
    assert text == (s + u) + "<" + (">" + w + t);
    PartitionAt(s + u, '<', ">" + w + t);
    NotDigits(text, |s + u|);
  }

  lemma NotDigits(text: string, i: nat)
    requires i < |text| && !('0' <= text[i] <= '9')
    ensures !AsciiDigits(text)
  {
  }

  lemma SizesAreSpelled(text: string, a: nat, b: nat)
    requires var (front, rest) := Partition(text, '<');
             rest.Some? && rest.value != [] && rest.value[0] == '>'
             && NonNegative(RStrip(front)) == Some(a) && NonNegative(LStrip(rest.value[1..])) == Some(b)
    ensures SizesSpelling(text, a, b)
  {
    hide NonNegative, LStrip, RStrip, Partition;
    PartitionBack(text, '<');
    var (front, rest) := Partition(text, '<');
    var u := RStripSplits(front);
    var w := LStripSplits(rest.value[1..]);
    var s, t := RStrip(front), LStrip(rest.value[1..]);
    assert rest.value == ">" + (w + t);
    assert text == s + u + "<>" + w + t;
  }

  lemma ComparisonIsSpelled(text: string, n: nat)
    requires text != [] && NonNegative(LStrip(text[1..])) == Some(n)
    ensures ComparisonSpelling(text, text[0], n)
  {
    hide NonNegative, LStrip;
    var w := LStripSplits(text[1..]);
    var s := LStrip(text[1..]);
    assert text == [text[0]] + w + s;
  }

  /** A dsize value is accepted as d exactly when, blanks around it aside, it is one of d's spellings. */
  lemma DsizesExactly(v: string, d: DsizeSpec)
    ensures DsizeValue(Some(v)) == Ok(d) <==> DsizeSpelling(Strip(v), d)
  {
    hide NonNegative, LStrip, RStrip, Partition, Strip, AllDigits, ComparisonSpelling, SizesSpelling;
    var text := Strip(v);
    if DsizeValue(Some(v)) == Ok(d) {
      match d {
        case DsizeEq(n) =>
        case DsizeLt(n) => ComparisonIsSpelled(text, n);
        case DsizeGt(n) => ComparisonIsSpelled(text, n);
        case DsizeRange(a, b) => SizesAreSpelled(text, a, b);
      }
    }
    if DsizeSpelling(text, d) {
      SpellingIsRead(v, d);
    }
  }

  lemma SpellingIsRead(v: string, d: DsizeSpec)
    requires DsizeSpelling(Strip(v), d)
    ensures DsizeValue(Some(v)) == Ok(d)
  {
    hide NonNegative, LStrip, RStrip, Partition, Strip, AllDigits;
    var text := Strip(v);
    match d {
      case DsizeEq(n) => NumberIsDigits(text);
      case DsizeLt(n) =>
        var w, s :| Blank(w) && NonNegative(s) == Some(n) && text == ['<'] + w + s;
        ComparisonIsRead(text, '<', w, s);
      case DsizeGt(n) =>
        var w, s :| Blank(w) && NonNegative(s) == Some(n) && text == ['>'] + w + s;
        ComparisonIsRead(text, '>', w, s);
      case DsizeRange(a, b) =>
        var s, u, w, t :| Blank(u) && Blank(w) && NonNegative(s) == Some(a) && NonNegative(t) == Some(b)
                          && text == s + u + "<>" + w + t;
        SizesAreRead(text, s, u, w, t);
    }
  }

  lemma NumberIsDigits(s: string)
    requires NonNegative(s).Some?
    ensures AsciiDigits(s)
  {
  }
}

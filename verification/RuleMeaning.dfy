/** What a rule's text asks of a packet: the header fields, the flow words, the flag letters and the payload
    length tests, taken from the text to the outcome. */
module RuleMeaning {
  import opened Common
  import opened PyText
  import opened FlowKey
  import opened TcpState
  import opened Rules
  import opened RuleScanner
  import opened OptionValues
  import opened RuleValidator
  import opened Evaluation
  import CM = ContentMatcher
  import CW = ContentWindows
  import FC = FlowContext

  // ---------------------------------------------------------------- numbers

  /** The text is n in decimal, perhaps after zeros, and no longer than int() takes. */
  ghost predicate Numeral(text: string, n: nat) {
    |text| <= MAX_STR_DIGITS && exists w :: Zeros(w) && text == w + Show(n)
  }

  const LARGEST := 4_294_967_295

  /** sid, rev and priority take the numerals from 1 on, as far as 32 bits reach. */
  lemma PositiveExactly(text: string, n: nat)
    ensures Positive(Some(text)) == Some(n) <==> Numeral(text, n) && 1 <= n <= LARGEST
  {
    hide Number;
    NumeralExactly(text, n);
  }

  /** offset and depth take any numeral in reach of 32 bits, within one that is not 0, and distance also one
      with a minus sign before it; nocase takes no value. */
  lemma ModifierExactly(key: string, v: Option<string>, n: int)
    requires key in CONTENT_MODIFIERS && key != "nocase"
    ensures ModifierValue(key, v) == Some(n)
            <==> v.Some? && -LARGEST <= n <= LARGEST
                 && if key == "distance" && v.value != [] && v.value[0] == '-' then
                      n <= 0 && Numeral(v.value[1..], -n)
                    else n >= 0 && Numeral(v.value, n) && (key == "within" ==> n >= 1)
  {
    hide Number, Numeral;
    if v.Some? {
      var negative := key == "distance" && v.value != [] && v.value[0] == '-';
      var text := if negative then v.value[1..] else v.value;
      if NonNegative(text).Some? {
        ReadAsNumeral(text, NonNegative(text).value);
      }
      var m := if n < 0 then -n else n;
      ReadAsNumeral(text, m);
    }
  }

  lemma ReadAsNumeral(text: string, n: nat)
    ensures NonNegative(text) == Some(n) <==> Numeral(text, n) && n <= LARGEST
  {
    hide Number;
    NumeralExactly(text, n);
  }

  const UPPER_LETTERS := "ABCDEFGHIJKLMNOPQRSTUVWXYZ"
  const LOWER_LETTERS := "abcdefghijklmnopqrstuvwxyz"
  const DIGITS := "0123456789"

  lemma UpperAt(k: nat)
    requires k < 26
    ensures UPPER_LETTERS[k] as int == 65 + k
  {
  }

  lemma LowerAt(k: nat)
    requires k < 26
    ensures LOWER_LETTERS[k] as int == 97 + k
  {
  }

  lemma DigitAt(k: nat)
    requires k < 10
    ensures DIGITS[k] as int == 48 + k
  {
  }

  predicate InClassType(c: char) {
    c in UPPER_LETTERS || c in LOWER_LETTERS || c in DIGITS || c in "_-"
  }

  lemma ClassTypeCharacter(c: char)
    ensures InClassType(c) <==> 'A' <= c <= 'Z' || 'a' <= c <= 'z' || '0' <= c <= '9' || c == '_' || c == '-'
  {
    var n := c as int;
    if 65 <= n <= 90 {
      UpperAt(n - 65);
    } else if 97 <= n <= 122 {
      LowerAt(n - 97);
    } else if 48 <= n <= 57 {
      DigitAt(n - 48);
    }
    forall k | 0 <= k < 26
      ensures 65 <= UPPER_LETTERS[k] as int <= 90 && 97 <= LOWER_LETTERS[k] as int <= 122
    {
      UpperAt(k);
      LowerAt(k);
    }
    forall k | 0 <= k < 10
      ensures 48 <= DIGITS[k] as int <= 57
    {
      DigitAt(k);
    }
  }

  /** A class type is one or more letters, digits, underscores and hyphens. */
  lemma ClassTypeExactly(t: string)
    ensures IsClassType(Some(t)) <==> t != [] && forall i :: 0 <= i < |t| ==> InClassType(t[i])
  {
    hide InClassType;
    forall i | 0 <= i < |t|
      ensures InClassType(t[i]) <==> 'A' <= t[i] <= 'Z' || 'a' <= t[i] <= 'z' || '0' <= t[i] <= '9' || t[i] == '_'
                                     || t[i] == '-'
    {
      ClassTypeCharacter(t[i]);
    }
  }

  /** The line has one sid option, and it holds the number n. */
  predicate OnlySid(os: Options, k: nat, n: nat) {
    k < |os| && os[k].key == "sid" && Positive(os[k].value) == Some(n)
    && forall j :: 0 <= j < |os| && j != k ==> os[j].key != "sid"
  }

  lemma {:induction false} NoneCounts(os: Options, key: string)
    ensures Count(os, key) == 0 <==> forall j :: 0 <= j < |os| ==> os[j].key != key
  {
    if os != [] {
      NoneCounts(os[..|os| - 1], key);
    }
  }

  /** The sid reported with a rejected line is that of its only sid option, if that holds one. */
  lemma {:induction false} ReportedSidExactly(os: Options, n: int)
    ensures BestEffortSid(os) == Some(n) <==> n >= 1 && exists k :: OnlySid(os, k, n)
  {
    hide Positive;
    if os != [] {
      var front, last := os[..|os| - 1], os[|os| - 1];
      NoneCounts(front, "sid");
      if last.key == "sid" {
        PositiveIsPositive(last.value);
        if n >= 1 && Count(front, "sid") == 0 && Positive(last.value) == Some(n) {
          assert OnlySid(os, |os| - 1, n);
        }
      } else {
        ReportedSidExactly(front, n);
        if n >= 1 {
          if k :| OnlySid(front, k, n) {
            assert OnlySid(os, k, n);
          }
          if k :| OnlySid(os, k, n) {
            assert OnlySid(front, k, n);
          }
        }
      }
    }
  }

  lemma PositiveIsPositive(v: Option<string>)
    ensures Positive(v).Some? ==> Positive(v).value >= 1
  {
  }

  // ---------------------------------------------------------------- flags

  /** The letter of each flag. */
  predicate Stands(c: char, f: Flag) {
    match f
    case SYN => c == 'S'
    case ACK => c == 'A'
    case FIN => c == 'F'
    case RST => c == 'R'
    case PSH => c == 'P'
    case URG => c == 'U'
    case ECE => c == 'E'
    case CWR => c == 'C'
  }

  predicate Named(letters: string, f: Flag) {
    exists i :: 0 <= i < |letters| && Stands(letters[i], f)
  }

  /** `+` after the letters: the packet has them all; `*`: one of them; `!` before them: none; else these and
      no others. `0` stands for no flag. */
  predicate FlagsHold(t: string, present: set<Flag>) {
    if t == "0" || t == "" then present == {}
    else if t[0] == '!' then forall f :: Named(t[1..], f) ==> f !in present
    else if t[|t| - 1] == '+' then forall f :: Named(t[..|t| - 1], f) ==> f in present
    else if t[|t| - 1] == '*' then exists f :: Named(t[..|t| - 1], f) && f in present
    else forall f :: Named(t, f) <==> f in present
  }

  lemma NamedIsInSet(letters: string, f: Flag)
    ensures f in FlagSet(letters) <==> Named(letters, f)
  {
    if i :| 0 <= i < |letters| && Stands(letters[i], f) {
      assert letters[i] in letters && FlagOf(letters[i]) == Some(f);
    }
    if f in FlagSet(letters) {
      var c :| c in letters && FlagOf(c) == Some(f);
      var i :| 0 <= i < |letters| && letters[i] == c;
      assert Stands(letters[i], f);
    }
  }

  lemma SetsMeet(a: set<Flag>, b: set<Flag>)
    ensures a * b != {} <==> exists f :: f in a && f in b
  {
    if f :| f in a && f in b {
      assert f in a * b;
    }
  }

  lemma LettersArePlain(s: string)
    requires FlagLetters(s)
    ensures s != [] && s[0] != '!' && s[|s| - 1] != '+' && s[|s| - 1] != '*' && s != "0"
  {
    assert FlagOf("0"[0]).None?;
  }

  /** The text shown for a mode holds of the flags exactly when the mode does. */
  lemma ShownMeans(mode: FlagsMode, letters: string, present: set<Flag>)
    requires FlagLetters(letters)
    ensures FlagsHold(ShowFlags(mode, letters), present)
            <==> match mode
                 case Exact => present == FlagSet(letters)
                 case AllOf => FlagSet(letters) <= present
                 case AnyOf => FlagSet(letters) * present != {}
                 case NoneOf => FlagSet(letters) * present == {}
  {
    hide FlagSet, Named, FlagLetters;
    LettersArePlain(letters);
    forall f
      ensures f in FlagSet(letters) <==> Named(letters, f)
    {
      NamedIsInSet(letters, f);
    }
    SetsMeet(FlagSet(letters), present);
    var t := ShowFlags(mode, letters);
    match mode {
      case Exact =>
      case AllOf => assert t[..|t| - 1] == letters && t[0] == letters[0] && |t| > 1;
      case AnyOf => assert t[..|t| - 1] == letters && t[0] == letters[0] && |t| > 1;
      case NoneOf => assert t[1..] == letters && |t| > 1;
    }
  }

  /** A flags value holds of a packet exactly when the packet is TCP, its flags are known and they are as the
      text says. */
  lemma FlagsMean(t: string, e: Event)
    requires FlagsValue(Some(t)).Ok?
    ensures MatchFlags(Some(FlagsValue(Some(t)).value), e)
            <==> e.protocol == Some(TCP) && e.flags.Some? && FlagsHold(t, e.flags.value)
  {
    hide FlagSet, Named, FlagLetters, FlagsHold;
    var spec := FlagsValue(Some(t)).value;
    FlagsExactly(t, spec);
    if t == "0" {
      FlagsExactly(t, FlagsSpec(Exact, {}));
      NoFlagHolds(if e.flags.Some? then e.flags.value else {});
    } else {
      var letters :| FlagLetters(letters) && t == ShowFlags(spec.mode, letters) && spec.flags == FlagSet(letters);
      if e.flags.Some? {
        ShownMeans(spec.mode, letters, e.flags.value);
      }
    }
  }

  lemma NoFlagHolds(present: set<Flag>)
    ensures FlagsHold("0", present) <==> present == {}
  {
  }

  // ---------------------------------------------------------------- dsize

  /** The payload length is the number, is below or above it, or lies between the two numbers. */
  ghost predicate LengthHolds(v: string, n: nat) {
    var text := Strip(v);
    || NonNegative(text) == Some(n)
    || (exists k :: ComparisonSpelling(text, '<', k) && n < k)
    || (exists k :: ComparisonSpelling(text, '>', k) && n > k)
    || (exists a: nat, b: nat :: SizesSpelling(text, a, b) && a <= n <= b)
  }

  lemma LengthMeans(v: string, e: Event)
    requires DsizeValue(Some(v)).Ok?
    ensures MatchDsize(Some(DsizeValue(Some(v)).value), e) <==> LengthHolds(v, |e.payload|)
  {
    hide DsizeValue, NonNegative, ComparisonSpelling, SizesSpelling, Strip;
    var d, text := DsizeValue(Some(v)).value, Strip(v);
    DsizesExactly(v, d);
    var n := |e.payload|;
    if NonNegative(text) == Some(n) {
      DsizesExactly(v, DsizeEq(n));
    }
    if k :| ComparisonSpelling(text, '<', k) && n < k {
      DsizesExactly(v, DsizeLt(k));
    }
    if k :| ComparisonSpelling(text, '>', k) && n > k {
      DsizesExactly(v, DsizeGt(k));
    }
    if a: nat, b: nat :| SizesSpelling(text, a, b) && a <= n <= b {
      DsizesExactly(v, DsizeRange(a, b));
    }
  }

  // ---------------------------------------------------------------- flow

  predicate WordHolds(word: string, c: FC.PacketContext) {
    && (word == "to_server" || word == "from_client" ==> c.role == FC.ToServer)
    && (word == "to_client" || word == "from_server" ==> c.role == FC.ToClient)
    && (word == "established" ==> c.established)
    && (word == "not_established" ==> !c.established)
  }

  /** Every word of a flow value holds of the packet's context; without a context none does. */
  predicate WordsHold(v: string, ctx: Option<FC.PacketContext>) {
    ctx.Some? && forall x :: x in FlowItems(v) ==> WordHolds(x, ctx.value)
  }

  lemma WordMeans(word: string, c: FC.PacketContext)
    ensures WordHolds(word, c)
            <==> (RoleOf(word).Some? ==> c.role == RoleOf(word).value)
                 && (StateSpecOf(word) == Some(Established) ==> c.established)
                 && (StateSpecOf(word) == Some(NotEstablished) ==> !c.established)
  {
  }

  lemma WordsMean(v: string, r: Rule, ctx: Option<FC.PacketContext>)
    requires FlowValue(Some(v)).Ok? && r.flow == Some(FlowValue(Some(v)).value)
    ensures MatchFlow(r, ctx) <==> WordsHold(v, ctx)
  {
    hide FlowValue, FlowItems, WordHolds, RoleOf, StateSpecOf, Strip;
    var f, items := r.flow.value, FlowItems(v);
    FlowExactly(v, f);
    if ctx.Some? {
      forall x | x in items
        ensures WordHolds(x, ctx.value)
                <==> (RoleOf(x).Some? ==> ctx.value.role == RoleOf(x).value)
                     && (StateSpecOf(x) == Some(Established) ==> ctx.value.established)
                     && (StateSpecOf(x) == Some(NotEstablished) ==> !ctx.value.established)
      {
        WordMeans(x, ctx.value);
      }
    }
  }

  // ---------------------------------------------------------------- the header

  predicate ProtocolHolds(t: string, p: Option<Protocol>) {
    p.Some? && (t == "ip" || (t == "tcp" && p.value == TCP) || (t == "udp" && p.value == UDP))
  }

  /** `any`, or the network the text stands for contains the address. */
  predicate AddressHolds(t: string, net: NetFn, ip: Option<bv32>) {
    ip.Some? && (t == "any" || (net(t).Some? && (ip.value & net(t).value.1) == net(t).value.0))
  }

  /** The port lies in the range the text spells. */
  ghost predicate PortHolds(t: string, q: Option<int>) {
    q.Some? && exists lo: nat, hi: nat :: PortSpelling(t, lo, hi) && lo <= q.value <= hi <= PORT_MAX
  }

  /** The fields before the arrow hold of one side of the packet and those after it of the other. */
  ghost predicate SidesHold(h: seq<string>, net: NetFn, ip: Option<bv32>, port: Option<int>, otherIp: Option<bv32>,
          otherPort: Option<int>)
    requires |h| == HEADER_TOKEN_COUNT
  {
    && AddressHolds(h[2], net, ip) && PortHolds(h[3], port)
    && AddressHolds(h[5], net, otherIp) && PortHolds(h[6], otherPort)
  }

  /** The header holds of the packet as it was sent or, for `<>`, the other way round. */
  ghost predicate HeaderHolds(h: seq<string>, net: NetFn, e: Event)
    requires |h| == HEADER_TOKEN_COUNT
  {
    && ProtocolHolds(h[1], e.protocol)
    && (|| SidesHold(h, net, e.srcIp, e.srcPort, e.dstIp, e.dstPort)
        || (h[4] == "<>" && SidesHold(h, net, e.dstIp, e.dstPort, e.srcIp, e.srcPort)))
  }

  /** The words a header is made of: what else Snort knows is unsupported, anything else invalid. */
  lemma HeaderWordsExactly(t: string)
    ensures ParseAction(t).Ok? <==> t == "alert"
    ensures ParseAction(t).Err? && !ParseAction(t).reason.IsInvalid()
            <==> t in ["drop", "reject", "pass", "log", "sdrop", "activate", "dynamic"]
    ensures ParseProtocol(t).Ok? <==> t == "tcp" || t == "udp" || t == "ip"
    ensures ParseProtocol(t).Err? && !ParseProtocol(t).reason.IsInvalid()
            <==> t in ["icmp", "icmpv6", "http", "dns", "smtp", "ftp", "ssh", "tls", "ssl", "smb", "pop3", "imap",
                       "telnet", "snmp", "sip", "tftp", "ntp", "dhcp", "rdp"]
    ensures ParseDirection(t).Ok? <==> t == "->" || t == "<>"
    ensures ParseDirection(t).Err? ==> ParseDirection(t).reason.IsInvalid()
  {
  }

  lemma ProtocolMeans(t: string, p: Option<Protocol>)
    requires ParseProtocol(t).Ok?
    ensures ProtocolHolds(t, p)
            <==> p.Some? && (ParseProtocol(t).value == Ip || ParseProtocol(t).value == NameOf(p.value))
  {
  }

  lemma AddressIsRead(t: string, net: NetFn)
    requires ParseIp(t, net).Ok?
    ensures var spec := ParseIp(t, net).value;
            if t == "any" then spec.any else net(t) == Some((spec.network, spec.mask)) && !spec.any
  {
    hide Partition, AllDigits;
  }

  /** Nothing but digits stands after the first slash, if there is one. */
  ghost predicate PrefixIsDigits(t: string) {
    forall a, b :: t == a + ['/'] + b && '/' !in a ==> AsciiDigits(b)
  }

  lemma PrefixExactly(t: string)
    ensures PrefixIsDigits(t) <==> Partition(t, '/').1.None? || AsciiDigits(Partition(t, '/').1.value)
  {
    hide AsciiDigits;
    PartitionBack(t, '/');
    var (a, rest) := Partition(t, '/');
    if rest.None? || AsciiDigits(rest.value) {
      forall c, d | t == c + ['/'] + d && '/' !in c
        ensures AsciiDigits(d)
      {
        PartitionAt(c, '/', d);
      }
    }
    if rest.Some? && PrefixIsDigits(t) {
      assert t == a + ['/'] + rest.value;
    }
  }

  /** An address text is read exactly when it is `any`, or when it opens with none of `$`, `!` and `[`, has
      nothing but digits after its first slash, if it has one, and stands for a network. */
  lemma AddressExactly(t: string, net: NetFn)
    ensures ParseIp(t, net).Ok?
            <==> t == "any"
                 || (net(t).Some? && (t == "" || (t[0] != '$' && t[0] != '!' && t[0] != '[')) && PrefixIsDigits(t))
  {
    hide AsciiDigits, Partition, PrefixIsDigits;
    PrefixExactly(t);
  }

  lemma NetworkMeans(spec: IpSpec, network: bv32, mask: bv32, ip: bv32)
    requires spec == IpSpec(false, network, mask)
    ensures IpIn(spec, ip) <==> (ip & mask) == network
  {
  }

  lemma NetworkHolds(t: string, net: NetFn, network: bv32, mask: bv32, ip: bv32)
    requires net(t) == Some((network, mask)) && t != "any"
    ensures AddressHolds(t, net, Some(ip)) <==> (ip & mask) == network
  {
  }

  lemma SameNetwork(t: string, net: NetFn, spec: IpSpec, network: bv32, mask: bv32, ip: bv32)
    requires net(t) == Some((network, mask)) && t != "any" && spec == IpSpec(false, network, mask)
    ensures AddressHolds(t, net, Some(ip)) <==> IpIn(spec, ip)
  {
    hide AddressHolds, IpIn;
    NetworkMeans(spec, network, mask, ip);
    NetworkHolds(t, net, network, mask, ip);
  }

  lemma AddressMeans(t: string, net: NetFn, ip: bv32)
    requires ParseIp(t, net).Ok?
    ensures AddressHolds(t, net, Some(ip)) <==> IpIn(ParseIp(t, net).value, ip)
  {
    hide ParseIp, AddressHolds, IpIn;
    AddressIsRead(t, net);
    var spec := ParseIp(t, net).value;
    if t == "any" {
      AnyHolds(t, net, spec, ip);
    } else {
      SameNetwork(t, net, spec, spec.network, spec.mask, ip);
    }
  }

  lemma AnyHolds(t: string, net: NetFn, spec: IpSpec, ip: bv32)
    requires t == "any" && spec.any
    ensures AddressHolds(t, net, Some(ip)) && IpIn(spec, ip)
  {
  }

  lemma PortMeans(t: string, q: int)
    requires ParsePort(t).Ok?
    ensures PortHolds(t, Some(q)) <==> PortIn(ParsePort(t).value, q)
  {
    hide ParsePort, PortSpelling;
    var s := ParsePort(t).value;
    PortsExactly(t, s.lo, s.hi);
    if lo: nat, hi: nat :| PortSpelling(t, lo, hi) && lo <= q <= hi <= PORT_MAX {
      PortsExactly(t, lo, hi);
    }
  }

  lemma DirectionMeans(t: string)
    requires ParseDirection(t).Ok?
    ensures ParseDirection(t).value == BothWays <==> t == "<>"
  {
  }

  lemma SidesMean(r: Rule, h: seq<string>, net: NetFn, ip: bv32, port: int, otherIp: bv32, otherPort: int)
    requires Headed(r, h, net)
    ensures SidesHold(h, net, Some(ip), Some(port), Some(otherIp), Some(otherPort))
            <==> IpIn(r.srcIp, ip) && PortIn(r.srcPort, port) && IpIn(r.dstIp, otherIp) && PortIn(r.dstPort, otherPort)
  {
    hide ParseIp, ParsePort, AddressHolds, PortHolds, IpIn, PortIn, ParseProtocol, ParseDirection;
    AddressMeans(h[2], net, ip);
    PortMeans(h[3], port);
    AddressMeans(h[5], net, otherIp);
    PortMeans(h[6], otherPort);
  }

  /** The rule has the header these words stand for. */
  predicate Headed(r: Rule, h: seq<string>, net: NetFn) {
    && |h| == HEADER_TOKEN_COUNT
    && ParseProtocol(h[1]) == Ok(r.protocol) && ParseDirection(h[4]) == Ok(r.direction)
    && ParseIp(h[2], net) == Ok(r.srcIp) && ParsePort(h[3]) == Ok(r.srcPort)
    && ParseIp(h[5], net) == Ok(r.dstIp) && ParsePort(h[6]) == Ok(r.dstPort)
  }

  lemma HeaderMeans(r: Rule, h: seq<string>, net: NetFn, e: Event)
    requires Headed(r, h, net)
    ensures MatchHeader(r, e) <==> HeaderHolds(h, net, e)
  {
    hide ParseIp, ParsePort, IpIn, PortIn, ParseProtocol, ParseDirection, SidesHold, ProtocolHolds;
    ProtocolMeans(h[1], e.protocol);
    DirectionMeans(h[4]);
    if e.srcIp.Some? && e.dstIp.Some? && e.srcPort.Some? && e.dstPort.Some? {
      SidesMean(r, h, net, e.srcIp.value, e.srcPort.value, e.dstIp.value, e.dstPort.value);
      SidesMean(r, h, net, e.dstIp.value, e.dstPort.value, e.srcIp.value, e.srcPort.value);
      PortsInRange(r, e.srcPort.value, e.dstPort.value);
    } else {
      SidesNeedAll(h, net, e);
    }
  }

  lemma PortsInRange(r: Rule, p: int, q: int)
    ensures PortIn(r.srcPort, p) || PortIn(r.dstPort, p) ==> 0 <= p <= PORT_MAX
    ensures PortIn(r.srcPort, q) || PortIn(r.dstPort, q) ==> 0 <= q <= PORT_MAX
  {
  }

  lemma SidesNeedAll(h: seq<string>, net: NetFn, e: Event)
    requires |h| == HEADER_TOKEN_COUNT
    ensures SidesHold(h, net, e.srcIp, e.srcPort, e.dstIp, e.dstPort)
            || SidesHold(h, net, e.dstIp, e.dstPort, e.srcIp, e.srcPort)
            ==> e.srcIp.Some? && e.dstIp.Some? && e.srcPort.Some? && e.dstPort.Some?
  {
  }

  // ---------------------------------------------------------------- from a line to its outcome

  /** An option of the line, if it stands there, holds. */
  ghost predicate FlowSays(os: Options, ctx: Option<FC.PacketContext>) {
    Count(os, "flow") == 0 || (ValueOf(os, "flow").Some? && WordsHold(ValueOf(os, "flow").value, ctx))
  }

  ghost predicate FlagsSay(os: Options, e: Event) {
    Count(os, "flags") == 0
    || (ValueOf(os, "flags").Some? && e.protocol == Some(TCP) && e.flags.Some?
        && FlagsHold(ValueOf(os, "flags").value, e.flags.value))
  }

  ghost predicate DsizeSays(os: Options, e: Event) {
    Count(os, "dsize") == 0 || (ValueOf(os, "dsize").Some? && LengthHolds(ValueOf(os, "dsize").value, |e.payload|))
  }

  lemma FlowOptionMeans(os: Options, r: Rule, ctx: Option<FC.PacketContext>)
    requires Once(os, "flow", FlowValue) == Ok(r.flow)
    ensures MatchFlow(r, ctx) <==> FlowSays(os, ctx)
  {
    hide FlowValue, WordsHold, Count, ValueOf;
    if r.flow.Some? {
      NoValueNoFlow();
      WordsMean(ValueOf(os, "flow").value, r, ctx);
    }
  }

  lemma NoValueNoFlow()
    ensures FlowValue(None).Err? && FlagsValue(None).Err? && DsizeValue(None).Err?
  {
  }

  lemma FlagsOptionMeans(os: Options, r: Rule, e: Event)
    requires Once(os, "flags", FlagsValue) == Ok(r.flags)
    ensures MatchFlags(r.flags, e) <==> FlagsSay(os, e)
  {
    hide FlagsValue, FlagsHold, Count, ValueOf;
    if r.flags.Some? {
      NoValueNoFlow();
      FlagsMean(ValueOf(os, "flags").value, e);
    }
  }

  lemma DsizeOptionMeans(os: Options, r: Rule, e: Event)
    requires Once(os, "dsize", DsizeValue) == Ok(r.dsize)
    ensures MatchDsize(r.dsize, e) <==> DsizeSays(os, e)
  {
    hide DsizeValue, LengthHolds, Count, ValueOf;
    if r.dsize.Some? {
      NoValueNoFlow();
      LengthMeans(ValueOf(os, "dsize").value, e);
    }
  }

  /** The contents of the rule can be laid in the payload. */
  ghost predicate ContentsSay(r: Rule, e: Event) {
    exists ps :: CW.Laid(e.payload, r.contents, ps)
  }

  /** A line accepted as a rule is rejected by the first stage whose part of the line does not hold of the
      packet, and detected when all of them hold and nothing raises. */
  lemma LineExactly(h: seq<string>, os: Options, g: Setting, i: Input)
    requires Classified(h, os, g).Valid?
    ensures |h| == HEADER_TOKEN_COUNT
    ensures var r := Classified(h, os, g).rule;
            var header, flow := HeaderHolds(h, g.net, i.e), FlowSays(os, i.ctx);
            var packet := FlagsSay(os, i.e) && DsizeSays(os, i.e);
            && (OutcomeOf(r, i) == Outcome.Rejected(HeaderStage) <==> !header)
            && (OutcomeOf(r, i) == Outcome.Rejected(FlowStage) <==> header && !flow)
            && (OutcomeOf(r, i) == Outcome.Rejected(PacketStage) <==> header && flow && !packet)
            && (OutcomeOf(r, i) == Outcome.Rejected(ContentStage)
                <==> header && flow && packet && r.contents != [] && r !in i.faults.content && !ContentsSay(r, i.e))
            && (OutcomeOf(r, i).Matched?
                <==> header && flow && packet && r !in i.faults.build
                     && (r.contents == [] || (r !in i.faults.content && ContentsSay(r, i.e))))
  {
    hide HeaderHolds, FlowSays, FlagsSay, DsizeSays, MatchHeader, MatchFlow, MatchFlags, MatchDsize, CW.Laid, CM.Chain,
         Once, Specs, FoundIn, InvalidReason, UnsupportedReason, ParseIp, ParsePort, ParseProtocol, ParseDirection;
    var r := Classified(h, os, g).rule;
    HeaderMeans(r, h, g.net, i.e);
    FlowOptionMeans(os, r, i.ctx);
    FlagsOptionMeans(os, r, i.e);
    DsizeOptionMeans(os, r, i.e);
    CW.ChainExactly(i.e.payload, r.contents);
  }
}

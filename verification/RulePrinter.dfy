/** Printing a whole rule and parsing it back: src/rules/validator.py gives the same rule. */
module RulePrinter {
  import opened Common
  import opened PyText
  import opened Rules
  import opened RuleScanner
  import opened OptionText
  import opened OptionValues
  import opened RuleLoader
  import opened RuleValidator
  import opened ContentPrinter
  import opened TcpState
  import FC = FlowContext
  import CM = ContentMatcher
  import RT = RuleRoundTrip

  // ---------------------------------------------------------------- texts of the option values

  function RoleWord(role: FC.Role): string {
    match role case ToServer => "to_server" case ToClient => "to_client"
  }

  function StateWord(state: FlowStateSpec): string {
    match state case Established => "established" case NotEstablished => "not_established"
  }

  function FlowText(f: FlowSpec): string {
    if f.role.None? then if f.state.None? then "" else StateWord(f.state.value)
    else if f.state.None? then RoleWord(f.role.value)
    else RoleWord(f.role.value) + "," + StateWord(f.state.value)
  }

  predicate FlowWord(w: string) {
    w != "" && Nice(w) && ',' !in w
  }

  lemma RoleWordIsRead(role: FC.Role)
    ensures RoleOf(RoleWord(role)) == Some(role) && StateSpecOf(RoleWord(role)) == None
  {
    var w := RoleWord(role);
    assert w[0] == 't' && w[3] == if role == FC.ToServer then 's' else 'c';
  }

  lemma StateWordIsRead(state: FlowStateSpec)
    ensures RoleOf(StateWord(state)) == None && StateSpecOf(StateWord(state)) == Some(state)
  {
    var w := StateWord(state);
    assert w[0] == if state == Established then 'e' else 'n';
  }

  lemma RoleWordIsNice(role: FC.Role)
    ensures FlowWord(RoleWord(role))
  {
  }

  lemma StateWordIsNice(state: FlowStateSpec)
    ensures FlowWord(StateWord(state))
  {
  }

  lemma OneFlowWord(w: string)
    requires FlowWord(w)
    ensures Strip(w) == w != [] && FlowItems(w) == [w]
  {
    hide Find, Strip;
    NiceIsPlain(w);
    StripTrim(w);
    FindNone(w, ',');
    assert SplitOn(w, ',') == [w];
  }

  lemma TwoFlowWords(a: string, b: string)
    requires FlowWord(a) && FlowWord(b)
    ensures Strip(a + "," + b) != [] && FlowItems(a + "," + b) == [a, b]
  {
    hide Find, Strip, Partition;
    NiceIsPlain(a);
    NiceIsPlain(b);
    StripTrim(a);
    StripTrim(b);
    StripTrim(a + "," + b);
    PartitionAt(a, ',', b);
    FindNone(b, ',');
    assert SplitOn(b, ',') == [b];
    assert SplitOn(a + "," + b, ',') == [a] + [b];
  }

  lemma FlowIsRead(f: FlowSpec)
    requires f.role.Some? || f.state.Some?
    ensures FlowValue(Some(FlowText(f))) == Ok(f) && Nice(FlowText(f))
  {
    hide FlowValue, FlowItems, RoleOf, StateSpecOf, RoleWord, StateWord, Nice, Strip;
    var role := if f.role.Some? then f.role.value else FC.ToServer;
    var state := if f.state.Some? then f.state.value else Established;
    RoleWordIsNice(role);
    StateWordIsNice(state);
    RoleWordIsRead(role);
    StateWordIsRead(state);
    var a, b := RoleWord(role), StateWord(state);
    OneFlowWord(a);
    OneFlowWord(b);
    TwoFlowWords(a, b);
    CommaIsNice();
    NiceAppend(a, ",");
    NiceAppend(a + ",", b);
    assert a in [a] && b in [b] && [a, b][0] == a && [a, b][1] == b;
    FlowExactly(FlowText(f), f);
  }

  lemma CommaIsNice()
    ensures Nice(",")
  {
  }

  function LetterOf(f: Flag): char {
    match f
    case FIN => 'F'
    case SYN => 'S'
    case RST => 'R'
    case PSH => 'P'
    case ACK => 'A'
    case URG => 'U'
    case CWR => 'C'
    case ECE => 'E'
  }

  const ALL_FLAGS: seq<Flag> := [FIN, SYN, RST, PSH, ACK, URG, CWR, ECE]

  /** The letters of the flags among the first n. */
  function Letters(fs: set<Flag>, n: nat): string
    requires n <= |ALL_FLAGS|
  {
    if n == 0 then "" else Letters(fs, n - 1) + if ALL_FLAGS[n - 1] in fs then [LetterOf(ALL_FLAGS[n - 1])] else []
  }

  lemma {:induction false} LettersAreFlags(fs: set<Flag>, n: nat)
    requires n <= |ALL_FLAGS|
    ensures forall c :: c in Letters(fs, n)
                        <==> exists i :: 0 <= i < n && ALL_FLAGS[i] in fs && c == LetterOf(ALL_FLAGS[i])
    ensures Nice(Letters(fs, n)) && forall i :: 0 <= i < |Letters(fs, n)| ==> FlagOf(Letters(fs, n)[i]).Some?
  {
    hide ALL_FLAGS;
    if n > 0 {
      LettersAreFlags(fs, n - 1);
      LetterIsRead(ALL_FLAGS[n - 1]);
    }
  }

  lemma LetterIsRead(f: Flag)
    ensures FlagOf(LetterOf(f)) == Some(f) && Nice([LetterOf(f)])
  {
  }

  lemma EveryFlagIsListed(f: Flag) returns (i: nat)
    ensures i < |ALL_FLAGS| && ALL_FLAGS[i] == f
  {
    i := match f
         case FIN => 0 case SYN => 1 case RST => 2 case PSH => 3
         case ACK => 4 case URG => 5 case CWR => 6 case ECE => 7;
  }

  lemma LettersSayFlags(fs: set<Flag>)
    ensures FlagSet(Letters(fs, |ALL_FLAGS|)) == fs && (fs != {} ==> Letters(fs, |ALL_FLAGS|) != "")
  {
    hide ALL_FLAGS, FlagOf, LetterOf, Letters;
    LettersAreFlags(fs, |ALL_FLAGS|);
    var s := Letters(fs, |ALL_FLAGS|);
    forall f | f in fs
      ensures f in FlagSet(s) && s != ""
    {
      var i := EveryFlagIsListed(f);
      LetterIsRead(f);
      assert LetterOf(ALL_FLAGS[i]) in s;
    }
    forall f | f in FlagSet(s)
      ensures f in fs
    {
      var c :| c in s && FlagOf(c) == Some(f);
      var i :| 0 <= i < |ALL_FLAGS| && ALL_FLAGS[i] in fs && c == LetterOf(ALL_FLAGS[i]);
      LetterIsRead(ALL_FLAGS[i]);
    }
  }

  function FlagsText(spec: FlagsSpec): string {
    if spec.flags == {} then "0" else ShowFlags(spec.mode, Letters(spec.flags, |ALL_FLAGS|))
  }

  lemma FlagsAreRead(spec: FlagsSpec)
    requires spec.flags == {} ==> spec.mode == Exact
    ensures FlagsValue(Some(FlagsText(spec))) == Ok(spec) && Nice(FlagsText(spec))
  {
    hide FlagsValue, FlagSet, FlagOf, Letters, ALL_FLAGS;
    LettersAreFlags(spec.flags, |ALL_FLAGS|);
    LettersSayFlags(spec.flags);
    FlagsExactly(FlagsText(spec), spec);
    var letters := Letters(spec.flags, |ALL_FLAGS|);
    ModifiersAreNice(letters);
    if spec.flags != {} {
      assert FlagLetters(letters);
    }
  }

  lemma ModifiersAreNice(letters: string)
    requires Nice(letters)
    ensures Nice("0") && Nice(letters + "+") && Nice(letters + "*") && Nice("!" + letters)
  {
  }

  function DsizeText(d: DsizeSpec): string {
    match d
    case DsizeEq(a) => Show(a)
    case DsizeLt(a) => "<" + Show(a)
    case DsizeGt(a) => ">" + Show(a)
    case DsizeRange(a, b) => Show(a) + "<>" + Show(b)
  }

  predicate DsizeInRange(d: DsizeSpec) {
    d.a <= MAX_OPTION_INT && (d.DsizeRange? ==> d.a <= d.b <= MAX_OPTION_INT)
  }

  lemma DsizeIsRead(d: DsizeSpec)
    requires DsizeInRange(d)
    ensures DsizeValue(Some(DsizeText(d))) == Ok(d) && Nice(DsizeText(d))
  {
    hide DsizeValue, Show;
    var b := if d.DsizeRange? then d.b else d.a;
    DsizesSurvive(d.a, b);
    ShowIsNice(d.a);
    ShowIsNice(b);
    hide Nice;
    SignsAreNice();
    NiceAppend("<", Show(d.a));
    NiceAppend(">", Show(d.a));
    NiceAppend(Show(d.a), "<>");
    NiceAppend(Show(d.a) + "<>", Show(b));
  }

  lemma SignsAreNice()
    ensures Nice("<") && Nice(">") && Nice("<>")
  {
  }

  // ---------------------------------------------------------------- options that stand once

  /** The options of a table of keys and values; an absent value is no option. */
  function FromTable(t: seq<(string, Option<string>)>): Options {
    if t == [] then [] else FromTable(t[..|t| - 1]) + Opt(t[|t| - 1].0, t[|t| - 1].1)
  }

  predicate Distinct(t: seq<(string, Option<string>)>) {
    forall i, j :: 0 <= i < j < |t| ==> t[i].0 != t[j].0
  }

  lemma {:induction false} CountAppend(a: Options, b: Options, key: string)
    ensures Count(a + b, key) == Count(a, key) + Count(b, key)
    ensures ValueOf(a + b, key) == if Count(b, key) > 0 then ValueOf(b, key) else ValueOf(a, key)
    decreases |b|
  {
    if b == [] {
      assert a + b == a;
    } else {
      assert (a + b)[..|a + b| - 1] == a + b[..|b| - 1];
      CountAppend(a, b[..|b| - 1], key);
    }
  }

  lemma {:induction false} NotCounted(os: Options, key: string)
    requires forall o :: o in os ==> o.key != key
    ensures Count(os, key) == 0 && ValueOf(os, key) == None
  {
    if os != [] {
      assert os[|os| - 1] in os && forall o :: o in os[..|os| - 1] ==> o in os;
      NotCounted(os[..|os| - 1], key);
    }
  }

  lemma OptCounts(key: string, v: Option<string>, k: string)
    ensures Count(Opt(key, v), k) == (if k == key && v.Some? then 1 else 0)
    ensures ValueOf(Opt(key, v), k) == if k == key then v else None
  {
    if v.Some? {
      var o := OptionPair(key, v);
      assert [o][..0] == [];
      assert Count([o], k) == Count([], k) + if k == key then 1 else 0;
    }
  }

  lemma {:induction false} TableCounts(t: seq<(string, Option<string>)>, k: string)
    requires Distinct(t)
    ensures (forall i :: 0 <= i < |t| ==> t[i].0 != k) ==>
              Count(FromTable(t), k) == 0 && ValueOf(FromTable(t), k) == None
    ensures forall i :: 0 <= i < |t| && t[i].0 == k ==>
              Count(FromTable(t), k) == (if t[i].1.Some? then 1 else 0) && ValueOf(FromTable(t), k) == t[i].1
  {
    hide Count, ValueOf, Opt;
    if t == [] {
      NotCounted([], k);
    } else {
      var init, last := t[..|t| - 1], t[|t| - 1];
      TableCounts(init, k);
      OptCounts(last.0, last.1, k);
      CountAppend(FromTable(init), Opt(last.0, last.1), k);
      assert forall i :: 0 <= i < |init| ==> init[i] == t[i];
    }
  }

  lemma {:induction false} TableMembers(t: seq<(string, Option<string>)>)
    ensures forall o :: o in FromTable(t)
                        <==> exists i :: 0 <= i < |t| && t[i].1.Some? && o == OptionPair(t[i].0, t[i].1)
  {
    if t != [] {
      var init := t[..|t| - 1];
      TableMembers(init);
      assert forall i :: 0 <= i < |init| ==> init[i] == t[i];
    }
  }

  /** Identification options that stand at most once, each with a good value, have no fault. */
  lemma {:induction false} NoIdentFault(os: Options, n: nat)
    requires n <= |os|
    requires forall o :: o in os ==> Count(os, o.key) <= 1 || o.key !in IDENTIFICATION_KEYWORDS
    requires forall o :: o in os ==> IdentFault([], o).None?
    ensures FirstOptionFault(os[..n], IdentFault).None?
  {
    hide Unquoted, Positive, IsClassType;
    if n > 0 {
      NoIdentFault(os, n - 1);
      var o := os[n - 1];
      assert os[..n] == os[..n - 1] + [o] && o in os;
      OneMoreFault(os[..n - 1], o, IdentFault);
      CountGrows(os, n, o.key);
      assert os[..n][..n - 1] == os[..n - 1];
    } else {
      NoFaultYet(IdentFault);
      assert os[..0] == [];
    }
  }

  lemma {:induction false} PassiveAppend(a: Options, b: Options)
    ensures Passive(a + b) == Passive(a) + Passive(b)
    decreases |b|
  {
    if b == [] {
      assert a + b == a;
    } else {
      assert (a + b)[..|a + b| - 1] == a + b[..|b| - 1];
      PassiveAppend(a, b[..|b| - 1]);
    }
  }

  lemma {:induction false} PassiveAll(os: Options)
    requires forall o :: o in os ==> o.key in PASSIVE_KEYWORDS
    ensures Passive(os) == os
  {
    hide PASSIVE_KEYWORDS;
    if os != [] {
      assert os[|os| - 1] in os && forall o :: o in os[..|os| - 1] ==> o in os;
      PassiveAll(os[..|os| - 1]);
      assert os == os[..|os| - 1] + [os[|os| - 1]];
    }
  }

  lemma {:induction false} PassiveNone(os: Options)
    requires forall o :: o in os ==> o.key !in PASSIVE_KEYWORDS
    ensures Passive(os) == []
  {
    hide PASSIVE_KEYWORDS;
    if os != [] {
      assert os[|os| - 1] in os && forall o :: o in os[..|os| - 1] ==> o in os;
      PassiveNone(os[..|os| - 1]);
    }
  }

  // ---------------------------------------------------------------- the header

  function ProtocolText(p: RuleProtocol): string {
    match p case Tcp => "tcp" case Udp => "udp" case Ip => "ip"
  }

  function DirectionText(d: RuleDirection): string {
    match d case OneWay => "->" case BothWays => "<>"
  }

  function PortText(p: PortSpec): string {
    Show(p.lo) + ":" + Show(p.hi)
  }

  /** The seven words of the header; addresses are written as `src` and `dst`. */
  function HeaderWords(r: Rule, src: string, dst: string): seq<string> {
    ["alert", ProtocolText(r.protocol), src, PortText(r.srcPort), DirectionText(r.direction), dst, PortText(r.dstPort)]
  }

  /** The word is a text of the address. */
  predicate AddressText(t: string, ip: IpSpec, net: NetFn) {
    IsWord(t) && '(' !in t && ParseIp(t, net) == Ok(ip)
  }

  predicate HeaderWord(w: string) {
    IsWord(w) && '(' !in w
  }

  lemma PortIsRead(p: PortSpec)
    ensures ParsePort(PortText(p)) == Ok(p) && HeaderWord(PortText(p))
  {
    hide ParsePort, Show;
    PortsSurvive(p.lo, p.hi);
    ShowReads(p.lo);
    ShowReads(p.hi);
    hide Decimal;
    NumeralIsWord(Show(p.lo), Show(p.hi));
  }

  lemma NumeralIsWord(a: string, b: string)
    requires AllDigits(a) && AllDigits(b)
    ensures HeaderWord(a + ":" + b)
  {
  }

  lemma WordsAreRead(p: RuleProtocol, d: RuleDirection)
    ensures ParseProtocol(ProtocolText(p)) == Ok(p) && ParseDirection(DirectionText(d)) == Ok(d)
            && ParseAction("alert").Ok?
    ensures HeaderWord("alert") && HeaderWord(ProtocolText(p)) && HeaderWord(DirectionText(d))
    ensures ProtocolText(p) == "udp" ==> p == Udp
  {
    assert "tcp"[0] == 't' && "udp"[0] == 'u' && "ip"[0] == 'i' && "->"[0] == '-' && "<>"[0] == '<';
  }

  lemma HeaderIsRead(r: Rule, src: string, dst: string, net: NetFn)
    requires AddressText(src, r.srcIp, net) && AddressText(dst, r.dstIp, net)
    ensures var h := HeaderWords(r, src, dst);
            && RT.GoodHeader(h) && HeaderInvalid(h, net).None? && HeaderUnsupported(h, net).None?
            && ParseProtocol(h[1]) == Ok(r.protocol) && ParseIp(h[2], net) == Ok(r.srcIp)
               && ParsePort(h[3]) == Ok(r.srcPort)
            && ParseDirection(h[4]) == Ok(r.direction) && ParseIp(h[5], net) == Ok(r.dstIp)
               && ParsePort(h[6]) == Ok(r.dstPort)
            && (h[1] == "udp" ==> r.protocol == Udp)
  {
    hide ParseProtocol, ParseDirection, ParseAction, ParseIp, ParsePort, ProtocolText, DirectionText, PortText,
         IsWord, FirstFault;
    WordsAreRead(r.protocol, r.direction);
    PortIsRead(r.srcPort);
    PortIsRead(r.dstPort);
    var h := HeaderWords(r, src, dst);
    FirstFaultExists(h, |h|, true, net);
    FirstFaultExists(h, |h|, false, net);
    forall i | 0 <= i < |h|
      ensures FieldFault(h, i, net).None?
    {
      assert ParseField(i, h[i], net).Ok?;
    }
  }

  // ---------------------------------------------------------------- the options

  function TextOf<T>(v: Option<T>, text: T -> string): Option<string> {
    if v.None? then None else Some(text(v.value))
  }

  function Table(r: Rule): seq<(string, Option<string>)> {
    [("msg", Some(RT.Quote(RT.EscapeText(r.msg)))), ("sid", Some(ShowInt(r.sid))), ("rev", Some(ShowInt(r.rev))),
     ("priority", Some(ShowInt(r.priority))), ("classtype", r.classtype), ("flow", TextOf(r.flow, FlowText)),
     ("flags", TextOf(r.flags, FlagsText)), ("dsize", TextOf(r.dsize, DsizeText))]
  }

  function RuleOptions(r: Rule): Options {
    ContentsOptions(r.contents) + (FromTable(Table(r)) + r.passive)
  }

  predicate InRange(n: int) {
    1 <= n <= MAX_OPTION_INT
  }

  /** The rule can be written: numbers in range, contents that are texts of their patterns and do not
      conflict, values that say something, and passive options that the scanner leaves alone. */
  ghost predicate Writable(r: Rule) {
    && InRange(r.sid) && InRange(r.rev) && InRange(r.priority) && (r.classtype.Some? ==> IsClassType(r.classtype))
    && (forall c :: c in r.contents ==> WritableContent(c) && !ContentConflicts(c))
    && (r.flow.Some? ==> r.flow.value.role.Some? || r.flow.value.state.Some?)
    && (r.flags.Some? ==> r.protocol != Udp && (r.flags.value.flags == {} ==> r.flags.value.mode == Exact))
    && (r.dsize.Some? ==> DsizeInRange(r.dsize.value))
    && (forall o :: o in r.passive ==> o.key in PASSIVE_KEYWORDS && RT.GoodOption(o))
  }

  lemma TableIsDistinct(r: Rule)
    ensures Distinct(Table(r))
  {
    hide ShowInt, FlowText, FlagsText, DsizeText, RT.Quote, RT.EscapeText;
    assert "msg"[0] == 'm' && "sid"[0] == 's' && "rev"[0] == 'r' && "flow"[1] == 'l' && "flags"[0] == 'f'
        && "dsize"[0] == 'd';
  }

  /** Contents come with keys of their own. */
  lemma {:induction false} ContentKeys(cs: seq<CM.ContentSpec>)
    ensures forall o :: o in ContentsOptions(cs) ==> o.key == "content" || o.key in CONTENT_MODIFIERS
  {
    hide CONTENT_MODIFIERS;
    if cs != [] {
      ContentKeys(cs[..|cs| - 1]);
      OneContentKeys(cs[|cs| - 1]);
      hide ContentOptions;
    }
  }

  lemma OneContentKeys(c: CM.ContentSpec)
    ensures forall o :: o in ContentOptions(c) ==> o.key == "content" || o.key in CONTENT_MODIFIERS
  {
  }

  lemma KindsDiffer()
    ensures IDENTIFICATION_KEYWORDS !! PASSIVE_KEYWORDS && IDENTIFICATION_KEYWORDS !! CONTENT_MODIFIERS
    ensures PASSIVE_KEYWORDS !! CONTENT_MODIFIERS
    ensures forall k :: k in {"content", "flow", "flags", "dsize"} ==>
              k !in IDENTIFICATION_KEYWORDS && k !in PASSIVE_KEYWORDS && k !in CONTENT_MODIFIERS
    ensures "flow" != "content" && "flags" != "content" && "dsize" != "content"
    ensures "content" !in IDENTIFICATION_KEYWORDS
  {
    assert "msg"[0] == 'm' && "sid"[0] == 's' && "rev"[0] == 'r' && "gid"[0] == 'g' && "flow"[1] == 'l';
  }

  /** Every option of a keyword that stands once comes from the table. */
  lemma RuleCounts(r: Rule, i: nat)
    requires Writable(r) && i < |Table(r)|
    ensures var (key, v) := Table(r)[i];
            Count(RuleOptions(r), key) == (if v.Some? then 1 else 0) && ValueOf(RuleOptions(r), key) == v
  {
    hide Count, ValueOf, FromTable, ContentsOptions, CONTENT_MODIFIERS, PASSIVE_KEYWORDS, IDENTIFICATION_KEYWORDS,
         WritableContent, ContentConflicts, RT.GoodOption, IsClassType, Distinct;
    var t := Table(r);
    var key := t[i].0;
    TableIsDistinct(r);
    KeyIsTheTables(r, i);
    ContentKeys(r.contents);
    NotCounted(ContentsOptions(r.contents), key);
    NotCounted(r.passive, key);
    TableCounts(t, key);
    CountAppend(FromTable(t), r.passive, key);
    CountAppend(ContentsOptions(r.contents), FromTable(t) + r.passive, key);
  }

  lemma KeyIsTheTables(r: Rule, i: nat)
    requires i < |Table(r)|
    ensures Table(r)[i].0 in SUPPORTED_KEYWORDS
    ensures Table(r)[i].0 !in PASSIVE_KEYWORDS && Table(r)[i].0 !in CONTENT_MODIFIERS && Table(r)[i].0 != "content"
  {
    hide ShowInt, FlowText, FlagsText, DsizeText, RT.Quote, RT.EscapeText;
    KindsDiffer();
  }

  /** The texts of the table are good options, and those of the identification have good values. */
  lemma TableIsGood(r: Rule, i: nat)
    requires Writable(r) && i < |Table(r)| && Table(r)[i].1.Some?
    ensures var o := OptionPair(Table(r)[i].0, Table(r)[i].1); RT.GoodOption(o) && IdentFault([], o).None?
  {
    hide WritableContent, ContentConflicts, RT.GoodOption, ContentsOptions, PASSIVE_KEYWORDS, CONTENT_MODIFIERS,
         FlowText, FlagsText, DsizeText, ShowInt, NiceKey, Nice, Unquoted, Positive, IsClassType, RT.EscapeText,
         RT.Quote;
    IdentificationKeysAreNice();
    MatchKeysAreNice();
    TextIsGood(r.msg);
    IntIsGood(r.sid);
    IntIsGood(r.rev);
    IntIsGood(r.priority);
    if i == 4 { ClassTypeIsNice(r.classtype); }
    if i == 5 { FlowIsRead(r.flow.value); }
    if i == 6 { FlagsAreRead(r.flags.value); }
    if i == 7 { DsizeIsRead(r.dsize.value); }
    NothingCounted();
    if i != 0 {
      NiceIsGood(Table(r)[i].0, Table(r)[i].1);
    }
    OnlyThoseKeys();
  }

  lemma NothingCounted()
    ensures forall k :: Count([], k) == 0
  {
  }

  lemma OnlyThoseKeys()
    ensures "flow" !in IDENTIFICATION_KEYWORDS && "flags" !in IDENTIFICATION_KEYWORDS
            && "dsize" !in IDENTIFICATION_KEYWORDS
    ensures "msg" != "sid" && "msg" != "classtype" && "sid" != "classtype" && "rev" != "msg" && "rev" != "sid"
    ensures "rev" != "classtype" && "priority" != "msg" && "priority" != "sid" && "priority" != "classtype"
  {
    KindsDiffer();
    assert "msg"[0] == 'm' && "sid"[0] == 's' && "rev"[0] == 'r' && "priority"[0] == 'p' && "classtype"[0] == 'c';
  }

  lemma TextIsGood(t: string)
    ensures Unquoted(Some(RT.Quote(RT.EscapeText(t)))) == Some(t)
    ensures RT.GoodOption(OptionPair("msg", Some(RT.Quote(RT.EscapeText(t)))))
  {
    hide RT.Sealed, RT.EscapeText, Unescape;
    RT.UnquoteQuotes(t);
    RT.EscapeTextIsSealed(t);
    IdentificationKeysAreNice();
    QuotedIsGood("msg", RT.EscapeText(t));
  }

  lemma IntIsGood(n: int)
    requires InRange(n)
    ensures Positive(Some(ShowInt(n))) == Some(n) && Nice(ShowInt(n))
  {
    hide Show, Number, Nice;
    NumberOfShow(n);
    ShowIsNice(n);
  }

  lemma ClassTypeIsNice(v: Option<string>)
    requires IsClassType(v)
    ensures Nice(v.value)
  {
  }

  lemma {:induction false} ContentsAreGood(cs: seq<CM.ContentSpec>)
    requires forall c :: c in cs ==> WritableContent(c)
    ensures forall o :: o in ContentsOptions(cs) ==> RT.GoodOption(o)
  {
    hide WritableContent, ContentOptions, RT.GoodOption;
    if cs != [] {
      assert cs[|cs| - 1] in cs && forall c :: c in cs[..|cs| - 1] ==> c in cs;
      ContentsAreGood(cs[..|cs| - 1]);
      ContentIsGood(cs[|cs| - 1]);
    }
  }

  lemma ContentIsGood(c: CM.ContentSpec)
    requires WritableContent(c)
    ensures forall o :: o in ContentOptions(c) ==> RT.GoodOption(o)
  {
    hide Decode, RT.GoodOption, RT.Sealed, NiceKey, Nice, ShowInt, RT.Quote, Quoted, Negated;
    RT.QuoteIsQuoted(c.raw);
    DecodableIsSealed(c.raw, false, []);
    ContentKeysAreNice();
    QuotedIsGood("content", c.raw);
    NiceIsGood("nocase", None);
    NumberIsGood("offset", c.offset);
    NumberIsGood("depth", c.depth);
    NumberIsGood("distance", c.distance);
    NumberIsGood("within", c.within);
  }

  lemma NumberIsGood(key: string, n: Option<int>)
    requires NiceKey(key)
    ensures forall o :: o in Opt(key, NumberText(n)) ==> RT.GoodOption(o)
  {
    hide NiceKey, RT.GoodOption;
    if n.Some? {
      IntIsNice(n.value);
      NiceIsGood(key, NumberText(n));
    }
  }

  lemma IntIsNice(n: int)
    ensures Nice(ShowInt(n))
  {
    hide Show;
    ShowIsNice(if n < 0 then -n else n);
  }

  // ---------------------------------------------------------------- the whole rule

  /** Every option of the rule is good, has a supported key and, if it identifies, a good value. */
  lemma OptionsAreGood(r: Rule)
    requires Writable(r)
    ensures forall o :: o in RuleOptions(r) ==> RT.GoodOption(o) && !IsUnknown(o) && IdentFault([], o).None?
  {
    hide WritableContent, ContentConflicts, RT.GoodOption, ContentsOptions, FromTable, Table, IdentFault,
         PASSIVE_KEYWORDS, CONTENT_MODIFIERS, IsClassType;
    ContentsAreGood(r.contents);
    ContentKeys(r.contents);
    TableMembers(Table(r));
    forall o | o in RuleOptions(r)
      ensures RT.GoodOption(o) && !IsUnknown(o) && IdentFault([], o).None?
    {
      if o in FromTable(Table(r)) {
        var i :| 0 <= i < |Table(r)| && Table(r)[i].1.Some? && o == OptionPair(Table(r)[i].0, Table(r)[i].1);
        TableIsGood(r, i);
        KeyIsTheTables(r, i);
      } else {
        OtherKeys(o);
      }
    }
  }

  lemma OtherKeys(o: OptionPair)
    requires o.key == "content" || o.key in CONTENT_MODIFIERS || o.key in PASSIVE_KEYWORDS
    ensures !IsUnknown(o) && IdentFault([], o).None?
  {
    KindsDiffer();
  }

  lemma OptionsAreBuilt(r: Rule)
    requires Writable(r)
    ensures Built(RuleOptions(r), r.contents)
  {
    hide WritableContent, ContentConflicts, RT.GoodOption, ContentsOptions, FromTable, Table, Built, IsClassType,
         CONTENT_MODIFIERS, PASSIVE_KEYWORDS;
    ContentsAreRead(r.contents);
    TableMembers(Table(r));
    var tail := FromTable(Table(r)) + r.passive;
    forall o | o in tail
      ensures o.key !in CONTENT_MODIFIERS && o.key != "content"
    {
      KindsDiffer();
      if o in FromTable(Table(r)) {
        var i :| 0 <= i < |Table(r)| && Table(r)[i].1.Some? && o == OptionPair(Table(r)[i].0, Table(r)[i].1);
        KeyIsTheTables(r, i);
      }
    }
    TailIsIgnored(ContentsOptions(r.contents), tail, r.contents);
  }

  lemma PassiveIsKept(r: Rule)
    requires Writable(r)
    ensures Passive(RuleOptions(r)) == r.passive
  {
    hide WritableContent, ContentConflicts, RT.GoodOption, ContentsOptions, FromTable, Table, IsClassType,
         CONTENT_MODIFIERS, PASSIVE_KEYWORDS;
    var t := FromTable(Table(r));
    TableMembers(Table(r));
    ContentKeys(r.contents);
    KindsDiffer();
    forall o | o in t
      ensures o.key !in PASSIVE_KEYWORDS
    {
      var i :| 0 <= i < |Table(r)| && Table(r)[i].1.Some? && o == OptionPair(Table(r)[i].0, Table(r)[i].1);
      KeyIsTheTables(r, i);
    }
    PassiveNone(ContentsOptions(r.contents));
    PassiveNone(t);
    PassiveAll(r.passive);
    PassiveAppend(t, r.passive);
    PassiveAppend(ContentsOptions(r.contents), t + r.passive);
  }

  /** No keyword of the identification stands twice. */
  lemma OptionsHaveNoIdentFault(r: Rule)
    requires Writable(r)
    ensures FirstOptionFault(RuleOptions(r), IdentFault).None?
  {
    hide Writable, RT.GoodOption, Count, IdentFault, RuleOptions, FirstOptionFault, IDENTIFICATION_KEYWORDS;
    var os := RuleOptions(r);
    OptionsAreGood(r);
    forall o | o in os
      ensures Count(os, o.key) <= 1 || o.key !in IDENTIFICATION_KEYWORDS
    {
      if o.key in IDENTIFICATION_KEYWORDS {
        var i := PlaceOf(r, o.key);
        RuleCounts(r, i);
      }
    }
    NoIdentFault(os, |os|);
    assert os[..|os|] == os;
  }

  lemma PlaceOf(r: Rule, key: string) returns (i: nat)
    requires key in IDENTIFICATION_KEYWORDS
    ensures i < |Table(r)| && Table(r)[i].0 == key
  {
    hide ShowInt, FlowText, FlagsText, DsizeText, RT.Quote, RT.EscapeText;
    i := if key == "msg" then 0
         else if key == "sid" then 1
         else if key == "rev" then 2
         else if key == "priority" then 3
         else 4;
  }

  /** Everything the options say about the rule. */
  lemma OptionsSay(r: Rule)
    requires Writable(r)
    ensures var os, f := RuleOptions(r), FoundIn(RuleOptions(r));
            && f.msg == Some(r.msg) && f.sid.Some? && f.sid.value == r.sid && Or(f.rev, 1) == r.rev
            && f.priority.Some? && f.priority.value == r.priority && f.classtype == r.classtype
               && f.passive == r.passive
            && Count(os, "sid") == 1 && Count(os, "msg") == 1
            && Once(os, "flow", FlowValue) == Ok(r.flow) && Once(os, "flags", FlagsValue) == Ok(r.flags)
            && Once(os, "dsize", DsizeValue) == Ok(r.dsize)
            && (Count(os, "flags") > 0 ==> r.flags.Some?)
  {
    hide RuleOptions, Count, ValueOf, WritableContent, ContentConflicts, RT.GoodOption, IsClassType, FlowText,
         FlagsText, DsizeText, ShowInt, RT.Quote, RT.EscapeText, Unquoted, Positive, FlowValue, FlagsValue,
         DsizeValue, PASSIVE_KEYWORDS, Passive, IDENTIFICATION_KEYWORDS;
    TextIsGood(r.msg);
    IntIsGood(r.sid);
    IntIsGood(r.rev);
    IntIsGood(r.priority);
    PassiveIsKept(r);
    RuleCounts(r, 0);
    RuleCounts(r, 1);
    RuleCounts(r, 2);
    RuleCounts(r, 3);
    RuleCounts(r, 4);
    RuleCounts(r, 5);
    RuleCounts(r, 6);
    RuleCounts(r, 7);
    if r.flow.Some? { FlowIsRead(r.flow.value); }
    if r.flags.Some? { FlagsAreRead(r.flags.value); }
    if r.dsize.Some? { DsizeIsRead(r.dsize.value); }
  }

  /** No check finds anything wrong or unsupported. */
  lemma NothingIsWrong(r: Rule, src: string, dst: string, net: NetFn)
    requires Writable(r) && AddressText(src, r.srcIp, net) && AddressText(dst, r.dstIp, net)
    ensures var h, os := HeaderWords(r, src, dst), RuleOptions(r);
            InvalidReason(h, os, net).None? && UnsupportedReason(h, os, net).None?
  {
    hide RuleOptions, HeaderWords, WritableContent, RT.GoodOption, FoundIn, Once, Count, FirstOptionFault, Specs,
         HasNegated, HeaderInvalid, HeaderUnsupported, UnknownKeyword, FirstConflict, ContentConflicts, IdentFault;
    var os := RuleOptions(r);
    HeaderIsRead(r, src, dst, net);
    OptionsSay(r);
    OptionsAreBuilt(r);
    OptionsHaveNoIdentFault(r);
    OptionsAreGood(r);
    FirstConflictExists(r.contents);
    UnknownKeywordExists(os);
    assert forall k :: 0 <= k < |os| ==> os[k] in os;
  }

  /** Printing a rule and parsing the line gives the rule back: every field, in whatever combination. */
  lemma PrintedRuleIsRead(r: Rule, src: string, dst: string, g: Setting)
    requires Writable(r) && AddressText(src, r.srcIp, g.net) && AddressText(dst, r.dstIp, g.net)
    ensures ParsedLine(RT.PrintRule(HeaderWords(r, src, dst), RuleOptions(r)), g) == Valid(r.(origin := g.origin))
  {
    hide RuleOptions, HeaderWords, Writable, RT.GoodOption, FoundIn, Once, Count, Specs, InvalidReason,
         UnsupportedReason, Tokenized, RT.PrintRule, ParseIp, ParsePort, ParseProtocol, ParseDirection, RuleOf, Built,
         RT.GoodHeader, IdentFault;
    var h, os := HeaderWords(r, src, dst), RuleOptions(r);
    HeaderIsRead(r, src, dst, g.net);
    OptionsAreGood(r);
    assert forall i :: 0 <= i < |os| ==> os[i] in os;
    RT.TokensSurvive(h, os);
    NothingIsWrong(r, src, dst, g.net);
    SameRule(r, src, dst, g, RuleOf(h, os, g));
  }

  /** The options and the header leave no choice. */
  lemma SameRule(r: Rule, src: string, dst: string, g: Setting, q: Rule)
    requires Writable(r) && AddressText(src, r.srcIp, g.net) && AddressText(dst, r.dstIp, g.net)
    requires IsRule(q, HeaderWords(r, src, dst), RuleOptions(r), g)
    ensures q == r.(origin := g.origin)
  {
    hide RuleOptions, HeaderWords, Writable, FoundIn, Once, Count, FirstOptionFault, HasNegated, ParseIp, ParsePort,
         ParseProtocol, ParseDirection, HeaderInvalid, HeaderUnsupported, Specs;
    HeaderIsRead(r, src, dst, g.net);
    OptionsSay(r);
    OptionsAreBuilt(r);
  }
}

/** load_rules and _collect of src/rules/loader.py. */
module RuleLoader {
  import opened Common
  import opened RuleLines
  import opened RuleScanner
  import opened Rules
  import RuleIndex

  /** What the parser makes of one rule line. */
  datatype ParseResult = Valid(rule: Rule) | Rejected(reason: Reason, sid: Option<int>)

  /** The parser: a function of the text, the file and the line. None: it raised. */
  type ParseFn = (string, string, nat) -> Option<ParseResult>

  function SafeParse(parse: ParseFn, text: string, file: string, line: nat): ParseResult {
    var r := parse(text, file, line);
    if r.None? then Rejected(InternalError, None) else r.value
  }

  datatype Status = IsValid | IsInvalid | IsUnsupported | IsDisabled

  datatype Record = Record(file: string, line: nat, status: Status, reason: Option<Reason>, sid: Option<int>,
      text: string)

  datatype Report = Report(
    lines: LineCounts,
    valid: nat,
    invalid: nat,
    unsupported: nat,
    disabled: nat,
    filesFailed: nat,
    disabledFiles: nat)

  /** One parsed rule line, in the order read. */
  datatype Parsed = Parsed(file: string, line: nat, text: string, result: ParseResult)

  // ---------------------------------------------------------------- which rules are kept

  /** Result i is valid and no earlier valid result has its sid. */
  predicate FirstOfItsSid(ps: seq<Parsed>, i: nat)
    requires i < |ps|
  {
    ps[i].result.Valid?
    && forall j :: 0 <= j < i && ps[j].result.Valid? ==> ps[j].result.rule.sid != ps[i].result.rule.sid
  }

  function StatusOf(ps: seq<Parsed>, i: nat, disabled: set<int>): Status
    requires i < |ps|
  {
    match ps[i].result
    case Rejected(reason, _) => if reason.IsInvalid() then IsInvalid else IsUnsupported
    case Valid(rule) =>
      if !FirstOfItsSid(ps, i) then IsInvalid
      else if rule.sid in disabled then IsDisabled
      else IsValid
  }

  /** The report entry of line i: a rejected line keeps its own reason and sid. */
  function RecordOf(ps: seq<Parsed>, i: nat, disabled: set<int>): Record
    requires i < |ps|
  {
    var p, status := ps[i], StatusOf(ps, i, disabled);
    var reason := match p.result
                  case Rejected(reason, _) => Some(reason)
                  case Valid(_) => if status == IsInvalid then Some(DuplicateSid)
                                   else if status == IsDisabled then Some(DisabledSid)
                                   else None;
    var sid := if p.result.Valid? then Some(p.result.rule.sid) else p.result.sid;
    Record(p.file, p.line, status, reason, sid, p.text)
  }

  /** The rules of the results whose status is valid, in order. */
  function Kept(ps: seq<Parsed>, n: nat, disabled: set<int>): seq<Rule>
    requires n <= |ps|
  {
    if n == 0 then []
    else Kept(ps, n - 1, disabled) + if StatusOf(ps, n - 1, disabled) == IsValid then [ps[n - 1].result.rule] else []
  }

  function StatusCount(ps: seq<Parsed>, n: nat, disabled: set<int>, s: Status): nat
    requires n <= |ps|
  {
    if n == 0 then 0
    else StatusCount(ps, n - 1, disabled, s) + if StatusOf(ps, n - 1, disabled) == s then 1 else 0
  }

  // ---------------------------------------------------------------- _collect

  /** The lists, the set and the counters load_rules updates. */
  class LoadState {
    const disabled: set<int>
    var rules: seq<Rule>
    var records: seq<Record>
    var seenSids: set<int>
    var report: Report
    ghost var parsed: seq<Parsed>

    constructor (disabled: set<int>)
      ensures Inv() && parsed == [] && this.disabled == disabled
      ensures report == Report(LineCounts(0, 0, 0, 0), 0, 0, 0, 0, 0, 0)
    {
      this.disabled := disabled;
      rules, records, seenSids, parsed := [], [], {}, [];
      report := Report(LineCounts(0, 0, 0, 0), 0, 0, 0, 0, 0, 0);
    }

    /** rules, seen_sids, counters and records say what they should about the lines parsed so far. */
    ghost predicate Inv()
      reads this
    {
      && rules == Kept(parsed, |parsed|, disabled)
      && Seen(parsed, seenSids)
      && Tallied(parsed, disabled, report)
      && Recorded(parsed, disabled, records)
    }

    method Collect(p: Parsed)
      requires Inv()
      modifies this
      ensures Inv() && parsed == old(parsed) + [p]
      ensures report.lines == old(report.lines) && report.filesFailed == old(report.filesFailed)
      ensures report.disabledFiles == old(report.disabledFiles)
    {
      hide Kept, Seen, Tallied, Recorded, StatusOf;
      StatusIs(parsed, seenSids, p, disabled);
      OneMore(parsed, p, disabled);
      ghost var before := parsed;
      parsed := parsed + [p];
      var status, reason, sid;
      match p.result {
        case Rejected(r, s) =>
          status, reason, sid := if r.IsInvalid() then IsInvalid else IsUnsupported, Some(r), s;
          SeenSame(before, seenSids, p);
        case Valid(rule) =>
          status, reason, sid := IsValid, None, Some(rule.sid);
          if rule.sid in seenSids {
            status, reason := IsInvalid, Some(DuplicateSid);
            SeenSame(before, seenSids, p);
          } else {
            SeenMore(before, seenSids, p);
            seenSids := seenSids + {rule.sid};
            if rule.sid in disabled {
              status, reason := IsDisabled, Some(DisabledSid);
            } else {
              rules := rules + [rule];
            }
          }
      }
      TalliedMore(before, disabled, report, p);
      RecordedMore(before, disabled, records, p);
      match status {
        case IsValid => report := report.(valid := report.valid + 1);
        case IsInvalid => report := report.(invalid := report.invalid + 1);
        case IsUnsupported => report := report.(unsupported := report.unsupported + 1);
        case IsDisabled => report := report.(disabled := report.disabled + 1);
      }
      records := records + [Record(p.file, p.line, status, reason, sid, p.text)];
    }
  }

  /** seen_sids holds the sids of the valid results. */
  ghost predicate Seen(ps: seq<Parsed>, seen: set<int>) {
    forall sid :: sid in seen <==> exists i :: 0 <= i < |ps| && ps[i].result.Valid? && ps[i].result.rule.sid == sid
  }

  ghost predicate Tallied(ps: seq<Parsed>, disabled: set<int>, r: Report) {
    && r.valid == StatusCount(ps, |ps|, disabled, IsValid)
    && r.invalid == StatusCount(ps, |ps|, disabled, IsInvalid)
    && r.unsupported == StatusCount(ps, |ps|, disabled, IsUnsupported)
    && r.disabled == StatusCount(ps, |ps|, disabled, IsDisabled)
  }

  /** One record per line. */
  ghost predicate Recorded(ps: seq<Parsed>, disabled: set<int>, records: seq<Record>) {
    |records| == |ps| && forall i :: 0 <= i < |ps| ==> records[i] == RecordOf(ps, i, disabled)
  }

  /** The status _collect gives a new result is the one its place in the sequence calls for. */
  lemma StatusIs(ps: seq<Parsed>, seen: set<int>, p: Parsed, disabled: set<int>)
    requires Seen(ps, seen)
    ensures StatusOf(ps + [p], |ps|, disabled)
            == match p.result
               case Rejected(r, _) => if r.IsInvalid() then IsInvalid else IsUnsupported
               case Valid(rule) => if rule.sid in seen then IsInvalid else if rule.sid in disabled then IsDisabled
                   else IsValid
  {
    var all := ps + [p];
    if p.result.Valid? {
      if p.result.rule.sid in seen {
        var i :| 0 <= i < |ps| && ps[i].result.Valid? && ps[i].result.rule.sid == p.result.rule.sid;
        assert all[i] == ps[i];
      } else {
        assert forall j :: 0 <= j < |ps| ==> all[j] == ps[j];
      }
    }
  }

  lemma SeenSame(ps: seq<Parsed>, seen: set<int>, p: Parsed)
    requires Seen(ps, seen) && (p.result.Valid? ==> p.result.rule.sid in seen)
    ensures Seen(ps + [p], seen)
  {
    var all := ps + [p];
    assert forall j :: 0 <= j < |ps| ==> all[j] == ps[j];
  }

  lemma SeenMore(ps: seq<Parsed>, seen: set<int>, p: Parsed)
    requires Seen(ps, seen) && p.result.Valid?
    ensures Seen(ps + [p], seen + {p.result.rule.sid})
  {
    var all := ps + [p];
    assert forall j :: 0 <= j < |ps| ==> all[j] == ps[j];
    assert all[|ps|] == p;
  }

  lemma OneMore(ps: seq<Parsed>, p: Parsed, disabled: set<int>)
    ensures Kept(ps + [p], |ps| + 1, disabled)
            == Kept(ps, |ps|, disabled)
               + (if StatusOf(ps + [p], |ps|, disabled) == IsValid then [p.result.rule] else [])
    ensures forall s :: StatusCount(ps + [p], |ps| + 1, disabled, s)
                        == StatusCount(ps, |ps|, disabled, s)
                           + (if StatusOf(ps + [p], |ps|, disabled) == s then 1 else 0)
  {
    hide StatusOf;
    PrefixKeeps(ps, p, |ps|, disabled);
  }

  lemma TalliedMore(ps: seq<Parsed>, disabled: set<int>, r: Report, p: Parsed)
    requires Tallied(ps, disabled, r)
    ensures match StatusOf(ps + [p], |ps|, disabled)
            case IsValid => Tallied(ps + [p], disabled, r.(valid := r.valid + 1))
            case IsInvalid => Tallied(ps + [p], disabled, r.(invalid := r.invalid + 1))
            case IsUnsupported => Tallied(ps + [p], disabled, r.(unsupported := r.unsupported + 1))
            case IsDisabled => Tallied(ps + [p], disabled, r.(disabled := r.disabled + 1))
  {
    hide StatusOf, StatusCount;
    OneMore(ps, p, disabled);
  }

  lemma RecordedMore(ps: seq<Parsed>, disabled: set<int>, records: seq<Record>, p: Parsed)
    requires Recorded(ps, disabled, records)
    ensures Recorded(ps + [p], disabled, records + [RecordOf(ps + [p], |ps|, disabled)])
  {
    hide StatusOf;
    PrefixKeeps(ps, p, |ps|, disabled);
  }

  /** Later lines change nothing about the earlier ones. */
  lemma {:induction false} PrefixKeeps(ps: seq<Parsed>, p: Parsed, n: nat, disabled: set<int>)
    requires n <= |ps|
    ensures forall i :: 0 <= i < |ps| ==> StatusOf(ps + [p], i, disabled) == StatusOf(ps, i, disabled)
    ensures Kept(ps + [p], n, disabled) == Kept(ps, n, disabled)
    ensures forall s :: StatusCount(ps + [p], n, disabled, s) == StatusCount(ps, n, disabled, s)
  {
    forall i | 0 <= i < |ps|
      ensures StatusOf(ps + [p], i, disabled) == StatusOf(ps, i, disabled)
    {
      assert forall j :: 0 <= j <= i ==> (ps + [p])[j] == ps[j];
    }
    if n > 0 {
      PrefixKeeps(ps, p, n - 1, disabled);
    }
  }

  // ---------------------------------------------------------------- load_rules

  /** A rule file: its resolved path, its name in reports and its contents, or None if it cannot be read. */
  datatype Source = Source(key: string, name: string, enabled: bool, content: Option<string>)

  function ParsedFrom(ys: seq<(nat, string)>, name: string, parse: ParseFn): seq<Parsed> {
    if ys == [] then []
    else
      var (line, text) := ys[|ys| - 1];
      ParsedFrom(ys[..|ys| - 1], name, parse) + [Parsed(name, line, text, SafeParse(parse, text, name, line))]
  }

  function FileLines(content: string): seq<Logical> {
    LinesFrom(PhysicalLines(content), 0)
  }

  /** What reading the sources in order parses; a path read before is skipped. */
  function AllParsed(sources: seq<Source>, parse: ParseFn): seq<Parsed> {
    if sources == [] then []
    else
      var s := sources[|sources| - 1];
      AllParsed(sources[..|sources| - 1], parse)
      + if !Loads(sources, |sources| - 1) || s.content.None? then []
        else ParsedFrom(Yielded(FileLines(s.content.value)), s.name, parse)
  }

  /** Source i is enabled and its path has not been loaded before. */
  predicate Loads(sources: seq<Source>, i: nat)
    requires i < |sources|
  {
    sources[i].enabled && forall j :: 0 <= j < i ==> !(sources[j].enabled && sources[j].key == sources[i].key)
  }

  /** Rule lines over all files read, from the line scan alone. */
  function AllRuleLines(sources: seq<Source>): nat {
    if sources == [] then 0
    else
      var s := sources[|sources| - 1];
      AllRuleLines(sources[..|sources| - 1])
      + if !Loads(sources, |sources| - 1) || s.content.None? then 0
        else CountKind(FileLines(s.content.value), RuleText)
  }

  /** How many sources are disabled, and how many of the others could not be read. */
  function NotRead(sources: seq<Source>): (nat, nat) {
    if sources == [] then (0, 0)
    else
      var s, before := sources[|sources| - 1], NotRead(sources[..|sources| - 1]);
      (before.0 + (if s.enabled then 0 else 1),
       before.1 + (if Loads(sources, |sources| - 1) && s.content.None? then 1 else 0))
  }

  /** loaded_paths holds the paths of the enabled sources before i. */
  ghost predicate LoadedBefore(sources: seq<Source>, i: nat, loaded: set<string>)
    requires i <= |sources|
  {
    forall k :: k in loaded <==> exists j :: 0 <= j < i && sources[j].enabled && sources[j].key == k
  }

  lemma NextSource(sources: seq<Source>, i: nat, loaded: set<string>, parse: ParseFn)
    requires i < |sources| && LoadedBefore(sources, i, loaded)
    ensures var s := sources[i];
            var isRead := s.enabled && s.key !in loaded && s.content.Some?;
            && AllParsed(sources[..i + 1], parse)
               == AllParsed(sources[..i], parse)
                  + (if isRead then ParsedFrom(Yielded(FileLines(s.content.value)), s.name, parse) else [])
            && AllRuleLines(sources[..i + 1])
               == AllRuleLines(sources[..i]) + (if isRead then CountKind(FileLines(s.content.value), RuleText) else 0)
            && NotRead(sources[..i + 1])
               == (NotRead(sources[..i]).0 + (if s.enabled then 0 else 1),
                   NotRead(sources[..i]).1 + (if s.enabled && s.key !in loaded && s.content.None? then 1 else 0))
            && LoadedBefore(sources, i + 1, if s.enabled then loaded + {s.key} else loaded)
  {
    hide ParsedFrom, FileLines, Yielded, CountKind;
    var taken := sources[..i + 1];
    assert taken[..i] == sources[..i] && taken[i] == sources[i];
    assert Loads(taken, i) <==> sources[i].enabled && sources[i].key !in loaded;
  }

  predicate SameFiles(r: Report, o: Report) {
    r.disabledFiles == o.disabledFiles && r.filesFailed == o.filesFailed
  }

  method LoadFile(s: Source, parse: ParseFn, st: LoadState)
    requires s.content.Some? && st.Inv()
    modifies st
    ensures st.Inv()
    ensures st.parsed == old(st.parsed) + ParsedFrom(Yielded(FileLines(s.content.value)), s.name, parse)
    ensures var c, o, r := CountsOf(FileLines(s.content.value)), old(st.report.lines), st.report.lines;
            r.rules == o.rules + c.rules && r.total - r.blank - r.comment == o.total - o.blank - o.comment + c.rules
    ensures SameFiles(st.report, old(st.report))
  {
    hide Kept, Seen, Tallied, Recorded, ParsedFrom, Yielded, CountKind, LinesFrom, StatusCount;
    var lines := PhysicalLines(s.content.value);
    var ys, counts := IterRuleLines(lines);
    LinesAreAccounted(lines);
    var l := st.report.lines;
    CountLines(st, LineCounts(l.total + counts.total, l.blank + counts.blank, l.comment + counts.comment, l.rules
        + counts.rules));
    CollectAll(ys, s.name, parse, st);
  }

  method CountLines(st: LoadState, lines: LineCounts)
    requires st.Inv()
    modifies st`report
    ensures st.Inv() && st.report == old(st.report).(lines := lines)
  {
    hide Kept, Seen, Recorded, StatusCount;
    st.report := st.report.(lines := lines);
  }

  method CollectAll(ys: seq<(nat, string)>, name: string, parse: ParseFn, st: LoadState)
    requires st.Inv()
    modifies st
    ensures st.Inv() && st.parsed == old(st.parsed) + ParsedFrom(ys, name, parse)
    ensures st.report.lines == old(st.report.lines) && SameFiles(st.report, old(st.report))
  {
    hide Kept, Seen, Tallied, Recorded, StatusCount;
    ghost var before := st.parsed;
    var i := 0;
    while i < |ys|
      invariant 0 <= i <= |ys| && st.Inv() && st.report.lines == old(st.report.lines)
                && SameFiles(st.report, old(st.report))
      invariant st.parsed == before + ParsedFrom(ys[..i], name, parse)
    {
      var (line, text) := ys[i];
      assert ys[..i + 1][..i] == ys[..i];
      st.Collect(Parsed(name, line, text, SafeParse(parse, text, name, line)));
      i := i + 1;
    }
    assert ys[..i] == ys;
  }

  /** What the load state holds once the sources have been gone through. */
  ghost predicate Loaded(st: LoadState, sources: seq<Source>, parse: ParseFn)
    reads st
  {
    && st.Inv() && st.parsed == AllParsed(sources, parse)
    && st.report.lines.rules == AllRuleLines(sources)
    && st.report.lines.total == st.report.lines.blank + st.report.lines.comment + st.report.lines.rules
    && (st.report.disabledFiles, st.report.filesFailed) == NotRead(sources)
  }

  /** A file named on the command line: its path, and whether an existing regular file is there. */
  datatype Extra = Extra(key: string, name: string, isFile: bool, content: Option<string>)

  /** The extra files as sources: they are always enabled. */
  function AsSources(extras: seq<Extra>): seq<Source> {
    seq(|extras|, i requires 0 <= i < |extras| => Source(extras[i].key, extras[i].name, true, extras[i].content))
  }

  datatype Loading = FileNotFound(name: string) | Done(st: LoadState)

  /** The first extra file that is missing. */
  predicate IsFirstMissing(name: string, extras: seq<Extra>) {
    exists i :: 0 <= i < |extras| && !extras[i].isFile && name == extras[i].name && forall j :: 0 <= j < i ==>
        extras[j].isFile
  }

  predicate AllFiles(extras: seq<Extra>) {
    forall i :: 0 <= i < |extras| ==> extras[i].isFile
  }

  method CheckExtras(extras: seq<Extra>) returns (missing: Option<string>)
    ensures missing.None? <==> AllFiles(extras)
    ensures missing.Some? ==> IsFirstMissing(missing.value, extras)
  {
    var i := 0;
    while i < |extras|
      invariant 0 <= i <= |extras| && forall j :: 0 <= j < i ==> extras[j].isFile
    {
      if !extras[i].isFile { return Some(extras[i].name); }
      i := i + 1;
    }
    missing := None;
  }

  /** load_rules: a missing extra file raises before anything is loaded, the first one in order; else
      the configured files are loaded and then the extra ones. */
  method LoadRules(configured: seq<Source>, extras: seq<Extra>, parse: ParseFn, disabled: set<int>) returns (r: Loading)
    ensures r.Done? <==> AllFiles(extras)
    ensures r.FileNotFound? ==> IsFirstMissing(r.name, extras)
    ensures r.Done? ==> fresh(r.st) && r.st.disabled == disabled && Loaded(r.st, configured + AsSources(extras), parse)
  {
    var missing := CheckExtras(extras);
    if missing.Some? { return FileNotFound(missing.value); }
    var st := LoadSources(configured + AsSources(extras), parse, disabled);
    r := Done(st);
  }

  /** The loop over the sources. */
  method LoadSources(sources: seq<Source>, parse: ParseFn, disabled: set<int>) returns (st: LoadState)
    ensures fresh(st) && st.disabled == disabled && Loaded(st, sources, parse)
  {
    st := new LoadState(disabled);
    var loaded: set<string> := {};
    var i := 0;
    while i < |sources|
      invariant 0 <= i <= |sources| && fresh(st) && st.disabled == disabled
      invariant Loaded(st, sources[..i], parse) && LoadedBefore(sources, i, loaded)
    {
      hide Loaded, LoadedBefore;
      loaded := LoadSource(sources, i, loaded, parse, st);
      i := i + 1;
    }
    assert sources[..i] == sources;
  }

  /** One turn of the loop over the sources. */
  method LoadSource(sources: seq<Source>, i: nat, loaded: set<string>, parse: ParseFn, st: LoadState)
          returns (more: set<string>)
    requires i < |sources| && Loaded(st, sources[..i], parse) && LoadedBefore(sources, i, loaded)
    modifies st
    ensures Loaded(st, sources[..i + 1], parse) && LoadedBefore(sources, i + 1, more)
  {
    hide ParsedFrom, FileLines, Kept, Seen, Tallied, Recorded, AllParsed, AllRuleLines, Loads, Yielded, CountKind,
         NotRead, LoadedBefore;
    var s := sources[i];
    more := loaded;
    NextSource(sources, i, loaded, parse);
    if !s.enabled {
      CountFiles(st, st.report.disabledFiles + 1, st.report.filesFailed);
      return;
    }
    if s.key in loaded {
      assert loaded + {s.key} == loaded;
      return;
    }
    more := loaded + {s.key};
    if s.content.None? {
      CountFiles(st, st.report.disabledFiles, st.report.filesFailed + 1);
      return;
    }
    LoadFile(s, parse, st);
  }

  method CountFiles(st: LoadState, disabledFiles: nat, filesFailed: nat)
    requires st.Inv()
    modifies st`report
    ensures st.Inv() && st.report == old(st.report).(disabledFiles := disabledFiles, filesFailed := filesFailed)
  {
    hide Kept, Seen, Recorded, StatusCount;
    st.report := st.report.(disabledFiles := disabledFiles, filesFailed := filesFailed);
  }

  // ---------------------------------------------------------------- what loading guarantees

  /** Every rule line gets exactly one status, and the valid ones are the rules returned. */
  lemma {:induction false} StatusesAddUp(ps: seq<Parsed>, n: nat, disabled: set<int>)
    requires n <= |ps|
    ensures n == StatusCount(ps, n, disabled, IsValid) + StatusCount(ps, n, disabled, IsInvalid)
                 + StatusCount(ps, n, disabled, IsUnsupported) + StatusCount(ps, n, disabled, IsDisabled)
    ensures |Kept(ps, n, disabled)| == StatusCount(ps, n, disabled, IsValid)
  {
    if n > 0 {
      StatusesAddUp(ps, n - 1, disabled);
    }
  }

  /** No two returned rules share a sid, and none is disabled. */
  lemma {:induction false} KeptSidsAreUnique(ps: seq<Parsed>, n: nat, disabled: set<int>)
    requires n <= |ps|
    ensures forall r :: r in Kept(ps, n, disabled) ==>
              r.sid !in disabled && exists i :: 0 <= i < n && ps[i].result == Valid(r) && FirstOfItsSid(ps, i)
    ensures forall a, b :: 0 <= a < b < |Kept(ps, n, disabled)| ==>
            Kept(ps, n, disabled)[a].sid != Kept(ps, n, disabled)[b].sid
  {
    if n > 0 {
      KeptSidsAreUnique(ps, n - 1, disabled);
      var before := Kept(ps, n - 1, disabled);
      if StatusOf(ps, n - 1, disabled) == IsValid {
        forall a | 0 <= a < |before|
          ensures before[a].sid != ps[n - 1].result.rule.sid
        {
          assert before[a] in before;
          var i :| 0 <= i < n - 1 && ps[i].result == Valid(before[a]) && FirstOfItsSid(ps, i);
        }
      }
    }
  }

  /** Feeding the loaded rules to the repository never meets its duplicate error. */
  method FillRepository(ghost ps: seq<Parsed>, rules: seq<Rule>, disabled: set<int>)
          returns (repo: RuleIndex.RuleRepository)
    requires rules == Kept(ps, |ps|, disabled)
    ensures fresh(repo) && repo.Valid() && repo.rules == rules && !repo.frozen
  {
    KeptSidsAreUnique(ps, |ps|, disabled);
    repo := new RuleIndex.RuleRepository();
    var i := 0;
    while i < |rules|
      invariant 0 <= i <= |rules| && fresh(repo) && repo.Valid() && repo.rules == rules[..i] && !repo.frozen
    {
      var r := repo.Add(rules[i]);
      assert r.Order?;
      i := i + 1;
    }
  }

  lemma {:induction false} ParsedPerYield(ys: seq<(nat, string)>, name: string, parse: ParseFn)
    ensures |ParsedFrom(ys, name, parse)| == |ys|
  {
    if ys != [] {
      ParsedPerYield(ys[..|ys| - 1], name, parse);
    }
  }

  lemma {:induction false} ParsedPerRuleLine(sources: seq<Source>, parse: ParseFn)
    ensures |AllParsed(sources, parse)| == AllRuleLines(sources)
  {
    if sources != [] {
      var s := sources[|sources| - 1];
      ParsedPerRuleLine(sources[..|sources| - 1], parse);
      if s.content.Some? {
        ParsedPerYield(Yielded(FileLines(s.content.value)), s.name, parse);
        KindsAddUp(FileLines(s.content.value));
      }
    }
  }

  /** The report balances: rule_lines == valid + invalid + unsupported + disabled, len(rules) ==
      valid, and there is one record per rule line. */
  lemma LoadBalances(sources: seq<Source>, parse: ParseFn, st: LoadState)
    requires Loaded(st, sources, parse)
    ensures var r := st.report;
            r.lines.rules == r.valid + r.invalid + r.unsupported + r.disabled == |st.records| && |st.rules| == r.valid
  {
    ParsedPerRuleLine(sources, parse);
    StatusesAddUp(st.parsed, |st.parsed|, st.disabled);
  }

  /** An earlier line gave a valid rule of the same sid. */
  predicate Repeats(ps: seq<Parsed>, i: nat)
    requires i < |ps| && ps[i].result.Valid?
  {
    exists j :: 0 <= j < i && ps[j].result.Valid? && ps[j].result.rule.sid == ps[i].result.rule.sid
  }

  /** What the report says of a line: a rejected one keeps its reason and sid; a valid one is a duplicate if an
      earlier valid line has its sid, else disabled if its sid is, else kept and without a reason. */
  lemma RecordExactly(ps: seq<Parsed>, i: nat, disabled: set<int>)
    requires i < |ps|
    ensures var r := RecordOf(ps, i, disabled);
            && r.file == ps[i].file && r.line == ps[i].line && r.text == ps[i].text
            && match ps[i].result
               case Rejected(reason, sid) =>
                 r.reason == Some(reason) && r.sid == sid
                 && r.status == if reason.IsInvalid() then IsInvalid else IsUnsupported
               case Valid(rule) =>
                 && r.sid == Some(rule.sid)
                 && (r.status, r.reason) == if Repeats(ps, i) then (IsInvalid, Some(DuplicateSid))
                                            else if rule.sid in disabled then (IsDisabled, Some(DisabledSid))
                                            else (IsValid, None)
  {
    if ps[i].result.Valid? {
      assert FirstOfItsSid(ps, i) <==> !Repeats(ps, i);
    }
  }

  /** A rule is kept exactly when some line is the first valid one of its sid and the sid is not disabled. */
  lemma {:induction false} KeptExactly(ps: seq<Parsed>, n: nat, disabled: set<int>, r: Rule)
    requires n <= |ps|
    ensures r in Kept(ps, n, disabled)
            <==> exists i :: 0 <= i < n && ps[i].result == Valid(r) && !Repeats(ps, i) && r.sid !in disabled
  {
    hide Repeats, StatusOf;
    if n > 0 {
      KeptExactly(ps, n - 1, disabled, r);
      RecordExactly(ps, n - 1, disabled);
    }
  }

  // ---------------------------------------------------------------- no line of a file is missed

  /** The first enabled source of a path is the one that is loaded. */
  lemma {:induction false} SomeSourceLoads(sources: seq<Source>, n: nat)
    requires n < |sources| && sources[n].enabled
    ensures exists k :: 0 <= k <= n && sources[k].key == sources[n].key && Loads(sources, k)
  {
    if !Loads(sources, n) {
      var j :| 0 <= j < n && sources[j].enabled && sources[j].key == sources[n].key;
      SomeSourceLoads(sources, j);
    }
  }

  lemma {:induction false} YieldIsParsed(ys: seq<(nat, string)>, name: string, parse: ParseFn, y: (nat, string))
    requires y in ys
    ensures Parsed(name, y.0, y.1, SafeParse(parse, y.1, name, y.0)) in ParsedFrom(ys, name, parse)
  {
    if y != ys[|ys| - 1] {
      assert y in ys[..|ys| - 1];
      YieldIsParsed(ys[..|ys| - 1], name, parse, y);
    }
  }

  /** Every rule line of a source that loads and can be read is parsed. */
  lemma {:induction false} LineIsParsed(sources: seq<Source>, k: nat, parse: ParseFn, y: (nat, string))
    requires k < |sources| && Loads(sources, k) && sources[k].content.Some?
    requires y in Yielded(FileLines(sources[k].content.value))
    ensures Parsed(sources[k].name, y.0, y.1, SafeParse(parse, y.1, sources[k].name, y.0)) in AllParsed(sources, parse)
  {
    hide ParsedFrom, FileLines, Yielded;
    var n := |sources| - 1;
    if k == n {
      YieldIsParsed(Yielded(FileLines(sources[k].content.value)), sources[k].name, parse, y);
    } else {
      assert Loads(sources[..n], k);
      LineIsParsed(sources[..n], k, parse, y);
    }
  }

  /** The file of every --rules argument is loaded, under the first source that names its path, and every rule
      line of it is parsed. */
  lemma ExtrasAreRead(configured: seq<Source>, extras: seq<Extra>, i: nat, parse: ParseFn)
    requires i < |extras|
    ensures var all := configured + AsSources(extras);
            exists k :: 0 <= k < |all| && all[k].key == extras[i].key && Loads(all, k)
                        && (all[k].content.Some? ==> forall y :: y in Yielded(FileLines(all[k].content.value)) ==>
                              Parsed(all[k].name, y.0, y.1, SafeParse(parse, y.1, all[k].name, y.0))
                              in AllParsed(all, parse))
  {
    hide ParsedFrom, FileLines, Yielded, AllParsed, SafeParse;
    var all := configured + AsSources(extras);
    SomeSourceLoads(all, |configured| + i);
    var k :| 0 <= k < |all| && all[k].key == extras[i].key && Loads(all, k);
    if all[k].content.Some? {
      forall y | y in Yielded(FileLines(all[k].content.value))
        ensures Parsed(all[k].name, y.0, y.1, SafeParse(parse, y.1, all[k].name, y.0)) in AllParsed(all, parse)
      {
        LineIsParsed(all, k, parse, y);
      }
    }
  }
}

/** src/engine/matcher.py (match_rule), src/engine/stats.py and src/engine/evaluator.py. */
module Evaluation {
  import opened Common
  import opened ContentMatcher
  import opened Rules
  import opened RuleIndex
  import FC = FlowContext

  // ---------------------------------------------------------------- what happens to one candidate

  datatype Stage = HeaderStage | FlowStage | PacketStage | ContentStage

  datatype Outcome =
    | Rejected(stage: Stage)
    | ContentRaised                                    // an exception inside the content stage
    | BuildRaised(details: seq<Detail>, hadContent: bool)    // matched, but its Detection could not be built
    | Matched(details: seq<Detail>, hadContent: bool)

  /** The rules whose content search, or whose Detection, raises on this event. */
  datatype Faults = Faults(content: set<Rule>, build: set<Rule>)

  /** Everything one call of the engine is given. */
  datatype Input = Input(e: Event, ctx: Option<FC.PacketContext>, faults: Faults)

  ghost function OutcomeOf(r: Rule, i: Input): Outcome {
    if !MatchHeader(r, i.e) then Rejected(HeaderStage)
    else if !MatchFlow(r, i.ctx) then Rejected(FlowStage)
    else if !(MatchFlags(r.flags, i.e) && MatchDsize(r.dsize, i.e)) then Rejected(PacketStage)
    else if r.contents == [] then
      if r in i.faults.build then BuildRaised([HeaderOnly], false) else Matched([HeaderOnly], false)
    else if r in i.faults.content then ContentRaised
    else if Chain(i.e.payload, r.contents).None? then Rejected(ContentStage)
    else
      var details := Details(r.contents, Chain(i.e.payload, r.contents).value);
      if r in i.faults.build then BuildRaised(details, true) else Matched(details, true)
  }

  datatype Detection = Detection(sid: int, matched: seq<Detail>)

  ghost function OutcomesOf(rules: seq<Rule>, i: Input): seq<Outcome> {
    if rules == [] then [] else OutcomesOf(rules[..|rules| - 1], i) + [OutcomeOf(rules[|rules| - 1], i)]
  }

  /** The detections of a list of rules, in order: one per rule that matches and can be built. */
  ghost function DetectionsOf(rules: seq<Rule>, i: Input): seq<Detection> {
    if rules == [] then []
    else
      var r := rules[|rules| - 1];
      DetectionsOf(rules[..|rules| - 1], i)
      + if OutcomeOf(r, i).Matched? then [Detection(r.sid, OutcomeOf(r, i).details)] else []
  }

  predicate IsError(o: Outcome) { o.ContentRaised? || o.BuildRaised? }

  ghost function ErrorsOf(rules: seq<Rule>, i: Input): seq<Rule> {
    if rules == [] then []
    else ErrorsOf(rules[..|rules| - 1], i) + if IsError(OutcomeOf(rules[|rules| - 1], i)) then [rules[|rules| - 1]]
        else []
  }

  /** When a rule is detected: its header, flow, flags and dsize fit, its contents (if any) can all
      be placed in their windows, and nothing raises. */
  lemma DetectedIff(r: Rule, i: Input)
    ensures OutcomeOf(r, i).Matched? <==>
              && MatchHeader(r, i.e) && MatchFlow(r, i.ctx) && MatchFlags(r.flags, i.e) && MatchDsize(r.dsize, i.e)
              && (r.contents != [] ==> r !in i.faults.content && exists ps :: Placement(i.e.payload, r.contents, ps))
              && r !in i.faults.build
  {
    hide MatchHeader, MatchFlow, MatchFlags, MatchDsize, Placement;
    ChainIsFirstPlacement(i.e.payload, r.contents);
  }

  /** What a match carries: the details of its contents where they were found first, or the header entry alone. */
  lemma MatchCarries(r: Rule, i: Input)
    requires OutcomeOf(r, i).Matched? || OutcomeOf(r, i).BuildRaised?
    ensures var o := OutcomeOf(r, i);
            if r.contents == [] then !o.hadContent && o.details == [HeaderOnly]
            else o.hadContent && Chain(i.e.payload, r.contents).Some?
                 && o.details == Details(r.contents, Chain(i.e.payload, r.contents).value)
  {
    hide MatchHeader, MatchFlow, MatchFlags, MatchDsize, Chain;
  }

  // ---------------------------------------------------------------- the index loses nothing

  /** The detections through the index are those of the naive loop over every rule, in the same
      order, and so are the rules that fail. */
  lemma {:induction false} IndexLosesNothing(rules: seq<Rule>, i: Input)
    ensures DetectionsOf(CandidatesOf(rules, NameOfEvent(i.e), i.e.dstPort), i) == DetectionsOf(rules, i)
    ensures ErrorsOf(CandidatesOf(rules, NameOfEvent(i.e), i.e.dstPort), i) == ErrorsOf(rules, i)
  {
    if rules != [] {
      var before, r := rules[..|rules| - 1], rules[|rules| - 1];
      var cs := CandidatesOf(before, NameOfEvent(i.e), i.e.dstPort);
      IndexLosesNothing(before, i);
      if IsCandidate(r, NameOfEvent(i.e), i.e.dstPort) {
        assert (cs + [r])[..|cs|] == cs;
      } else {
        if MatchHeader(r, i.e) { HeaderMatchIsCandidate(r, i.e); }
        assert cs + [] == cs;
      }
    }
  }

  // ---------------------------------------------------------------- counters

  datatype Counters = Counters(
    eventsEvaluated: nat,
    eventsSkipped: nat,
    candidateRules: nat,
    rejectedHeader: nat,
    rejectedFlow: nat,
    rejectedPacket: nat,
    contentEvaluations: nat,
    rejectedContent: nat,
    matches: nat,
    ruleErrors: nat)

  const ZERO := Counters(0, 0, 0, 0, 0, 0, 0, 0, 0, 0)

  /** One counter increment per outcome, plus content_evaluations when the content stage completed. */
  function Tick(c: Counters, o: Outcome): Counters {
    match o
    case Rejected(HeaderStage) => c.(rejectedHeader := c.rejectedHeader + 1)
    case Rejected(FlowStage) => c.(rejectedFlow := c.rejectedFlow + 1)
    case Rejected(PacketStage) => c.(rejectedPacket := c.rejectedPacket + 1)
    case Rejected(ContentStage) =>
      c.(rejectedContent := c.rejectedContent + 1, contentEvaluations := c.contentEvaluations + 1)
    case ContentRaised => c.(ruleErrors := c.ruleErrors + 1)
    case BuildRaised(_, had) =>
      c.(ruleErrors := c.ruleErrors + 1, contentEvaluations := c.contentEvaluations + if had then 1 else 0)
    case Matched(_, had) =>
      c.(matches := c.matches + 1, contentEvaluations := c.contentEvaluations + if had then 1 else 0)
  }

  function Tally(c: Counters, os: seq<Outcome>): Counters {
    if os == [] then c else Tick(Tally(c, os[..|os| - 1]), os[|os| - 1])
  }

  class EvaluationStats {
    var eventsEvaluated: nat
    var eventsSkipped: nat
    var candidateRules: nat
    var rejectedHeader: nat
    var rejectedFlow: nat
    var rejectedPacket: nat
    var contentEvaluations: nat
    var rejectedContent: nat
    var matches: nat
    var ruleErrors: nat

    constructor ()
      ensures Value() == ZERO
    {
      eventsEvaluated, eventsSkipped, candidateRules := 0, 0, 0;
      rejectedHeader, rejectedFlow, rejectedPacket := 0, 0, 0;
      contentEvaluations, rejectedContent, matches, ruleErrors := 0, 0, 0, 0;
    }

    function Value(): Counters
      reads this
    {
      Counters(eventsEvaluated, eventsSkipped, candidateRules, rejectedHeader, rejectedFlow, rejectedPacket,
               contentEvaluations, rejectedContent, matches, ruleErrors)
    }

    method RecordStage(stage: Stage, passed: bool)
      modifies this
      ensures Value() == if !passed then Tick(old(Value()), Rejected(stage))
                         else if stage == ContentStage then
                           old(Value()).(contentEvaluations := old(contentEvaluations) + 1)
                         else old(Value())
    {
      match stage {
        case ContentStage =>
          contentEvaluations := contentEvaluations + 1;
          if !passed { rejectedContent := rejectedContent + 1; }
        case HeaderStage => if !passed { rejectedHeader := rejectedHeader + 1; }
        case FlowStage => if !passed { rejectedFlow := rejectedFlow + 1; }
        case PacketStage => if !passed { rejectedPacket := rejectedPacket + 1; }
      }
    }

    method RecordEventEvaluated(candidates: nat)
      modifies this
      ensures Value() == Evaluated(old(Value()), candidates)
    {
      eventsEvaluated := eventsEvaluated + 1;
      candidateRules := candidateRules + candidates;
    }

    method RecordEventSkipped()
      modifies this
      ensures Value() == Skipped(old(Value()))
    {
      eventsSkipped := eventsSkipped + 1;
    }

    method RecordMatch()
      modifies this
      ensures Value() == old(Value()).(matches := old(matches) + 1)
    {
      matches := matches + 1;
    }

    method RecordRuleError()
      modifies this
      ensures Value() == Tick(old(Value()), ContentRaised)
    {
      ruleErrors := ruleErrors + 1;
    }

    method IsConsistent() returns (ok: bool)
      ensures ok <==> Consistent(Value())
    {
      ok := candidateRules
            == rejectedHeader + rejectedFlow + rejectedPacket + rejectedContent + matches + ruleErrors;
    }
  }

  function Evaluated(c: Counters, candidates: nat): Counters {
    c.(eventsEvaluated := c.eventsEvaluated + 1, candidateRules := c.candidateRules + candidates)
  }

  function Skipped(c: Counters): Counters {
    c.(eventsSkipped := c.eventsSkipped + 1)
  }

  /** Every candidate ended in exactly one outcome. */
  predicate Consistent(c: Counters) {
    c.candidateRules
    == c.rejectedHeader + c.rejectedFlow + c.rejectedPacket + c.rejectedContent + c.matches + c.ruleErrors
  }

  // ---------------------------------------------------------------- match_rule

  /** The content_fn of one packet: the payload is lower-cased at most once, when first needed. */
  class ContentFn {
    const payload: seq<byte>
    var cache: Option<seq<byte>>

    constructor (payload: seq<byte>)
      ensures this.payload == payload && Valid()
    {
      this.payload := payload;
      cache := None;
    }

    ghost predicate Valid()
      reads this
    {
      cache.Some? ==> cache.value == Lower(payload)
    }

    /** The shared cache cannot be seen: the result is that of a search without it. */
    method Call(r: Rule) returns (found: Option<seq<Detail>>)
      requires Valid()
      modifies this
      ensures Valid()
      ensures found.Some? <==> Chain(payload, r.contents).Some?
      ensures found.Some? ==> found.value == Details(r.contents, Chain(payload, r.contents).value)
    {
      var lowered := None;
      if exists c :: c in r.contents && c.nocase {
        if cache.None? { cache := Some(Lower(payload)); }
        lowered := cache;
      }
      found := MatchContents(r.contents, payload, lowered);
    }
  }

  /** What match_rule returns, or that content_fn raised through it. */
  datatype RuleResult = Failed(stage: Stage) | Passed(details: seq<Detail>) | Raised

  function ResultOf(o: Outcome): RuleResult {
    match o
    case Rejected(stage) => Failed(stage)
    case ContentRaised => Raised
    case BuildRaised(details, _) => Passed(details)
    case Matched(details, _) => Passed(details)
  }

  /** match_rule: the stages in order, the first failure recorded and returned. */
  method MatchRule(r: Rule, i: Input, contentFn: ContentFn, stats: EvaluationStats) returns (result: RuleResult)
    requires contentFn.Valid() && contentFn.payload == i.e.payload
    modifies contentFn, stats
    ensures contentFn.Valid()
    ensures result == ResultOf(OutcomeOf(r, i))
    ensures stats.Value() == match OutcomeOf(r, i)
                             case Rejected(_) => Tick(old(stats.Value()), OutcomeOf(r, i))
                             case ContentRaised => old(stats.Value())
                             case _ => old(stats.Value()).(contentEvaluations := old(stats.contentEvaluations)
                                                                                + if r.contents == [] then 0 else 1)
  {
    hide MatchHeader, MatchFlow, MatchFlags, MatchDsize, Chain;
    var ok := MatchHeader(r, i.e);
    stats.RecordStage(HeaderStage, ok);
    if !ok { return Failed(HeaderStage); }
    ok := MatchFlow(r, i.ctx);
    stats.RecordStage(FlowStage, ok);
    if !ok { return Failed(FlowStage); }
    ok := MatchFlags(r.flags, i.e) && MatchDsize(r.dsize, i.e);
    stats.RecordStage(PacketStage, ok);
    if !ok { return Failed(PacketStage); }
    if r.contents == [] { return Passed([HeaderOnly]); }
    if r in i.faults.content { return Raised; }
    var found := contentFn.Call(r);
    stats.RecordStage(ContentStage, found.Some?);
    if found.None? { return Failed(ContentStage); }
    result := Passed(found.value);
  }

  // ---------------------------------------------------------------- the engine

  predicate Eligible(e: Event) {
    !e.skipped && !e.invalid && e.protocol.Some? && e.dstPort.Some?
  }

  /** The engine tests the event at all. */
  predicate Runs(rules: seq<Rule>, enabled: bool, e: Event) {
    enabled && rules != [] && Eligible(e)
  }

  class EvaluationEngine {
    const rules: seq<Rule>
    const indexer: RuleIndexer
    const stats: EvaluationStats
    const enabled: bool
    var warnedSids: set<int>

    constructor (repository: RuleRepository, enabled: bool)
      requires repository.Valid()
      modifies repository
      ensures Valid() && rules == repository.rules == old(repository.rules) && fresh(stats)
      ensures repository.Valid() && repository.frozen
      ensures stats.Value() == ZERO && warnedSids == {} && this.enabled == enabled
    {
      repository.Freeze();
      rules := repository.rules;
      indexer := new RuleIndexer(repository);
      stats := new EvaluationStats();
      this.enabled := enabled;
      warnedSids := {};
    }

    ghost predicate Valid()
      reads indexer.tcp, indexer.udp, indexer.ip
    {
      indexer.Valid() && indexer.rules == rules
    }

    /** _run: every candidate is tested, an error is counted and the next one is tested. What comes
        back is what the naive loop over every rule gives. */
    method Run(i: Input) returns (matched: seq<Detection>)
      requires Valid()
      modifies `warnedSids, stats
      ensures Valid()
      ensures matched == if Runs(rules, enabled, i.e) then DetectionsOf(rules, i) else []
      ensures stats.Value() == AfterEvent(rules, Runs(rules, enabled, i.e), old(stats.Value()), i)
      ensures warnedSids == old(warnedSids) + if Runs(rules, enabled, i.e) then SidsOf(ErrorsOf(rules, i)) else {}
    {
      if !enabled || |rules| == 0 || !Eligible(i.e) {
        stats.RecordEventSkipped();
        return [];
      }
      ghost var before, warned := stats.Value(), warnedSids;
      var candidates := indexer.Candidates(NameOfEvent(i.e), i.e.dstPort);
      stats.RecordEventEvaluated(|candidates|);
      matched := TestAll(candidates, i);
      hide DetectionsOf, OutcomesOf, ErrorsOf, CandidatesOf, Tally, Evaluated, OutcomeOf;
      IndexLosesNothing(rules, i);
    }

    /** The loop of _run. */
    method TestAll(candidates: seq<Rule>, i: Input) returns (matched: seq<Detection>)
      modifies `warnedSids, stats
      ensures matched == DetectionsOf(candidates, i)
      ensures stats.Value() == Tally(old(stats.Value()), OutcomesOf(candidates, i))
      ensures warnedSids == old(warnedSids) + SidsOf(ErrorsOf(candidates, i))
    {
      hide OutcomeOf, Tick, Evaluated, DetectionsOf, OutcomesOf, ErrorsOf, SidsOf, Tally;
      ghost var before, warned := stats.Value(), warnedSids;
      var contentFn := new ContentFn(i.e.payload);
      matched := [];
      var n := 0;
      NothingTested(candidates, i, before);
      while n < |candidates|
        invariant 0 <= n <= |candidates| && contentFn.Valid() && fresh(contentFn)
        invariant matched == DetectionsOf(candidates[..n], i)
        invariant stats.Value() == Tally(before, OutcomesOf(candidates[..n], i))
        invariant warnedSids == warned + SidsOf(ErrorsOf(candidates[..n], i))
      {
        OneMore(candidates, n, i, before);
        matched := TestOne(candidates[n], i, contentFn, matched);
        n := n + 1;
      }
      assert candidates[..n] == candidates;
    }

    /** The engine over a session: one call of detect per event. */
    method DetectAll(inputs: seq<Input>) returns (all: seq<seq<Detection>>)
      requires Valid() && stats.Value() == ZERO
      modifies `warnedSids, stats
      ensures Valid() && stats.Value() == SessionCounters(rules, enabled, inputs)
      ensures all == SessionItems(rules, enabled, inputs)
      ensures Consistent(stats.Value())
    {
      hide SessionCounters, SessionItems, AfterEvent, DetectionsOf, ErrorsOf, SidsOf;
      all := [];
      var n := 0;
      NoInputs(rules, enabled);
      assert inputs[..0] == [];
      while n < |inputs|
        invariant 0 <= n <= |inputs| && Valid() && stats.Value() == SessionCounters(rules, enabled, inputs[..n])
        invariant all == SessionItems(rules, enabled, inputs[..n])
      {
        OneMoreInput(rules, enabled, inputs, n);
        var found := Run(inputs[n]);
        all := all + [found];
        n := n + 1;
      }
      assert inputs[..n] == inputs;
      AccountsBalance(rules, enabled, inputs);
    }

    /** The guarded block of the loop: match_rule, build, record_match, append; or record_rule_error. */
    method TestOne(r: Rule, i: Input, contentFn: ContentFn, matched: seq<Detection>) returns (out: seq<Detection>)
      requires contentFn.Valid() && contentFn.payload == i.e.payload
      modifies `warnedSids, stats, contentFn
      ensures contentFn.Valid()
      ensures out == matched + if OutcomeOf(r, i).Matched? then [Detection(r.sid, OutcomeOf(r, i).details)] else []
      ensures stats.Value() == Tick(old(stats.Value()), OutcomeOf(r, i))
      ensures warnedSids == old(warnedSids) + if IsError(OutcomeOf(r, i)) then {r.sid} else {}
    {
      hide MatchHeader, MatchFlow, MatchFlags, MatchDsize, Chain;
      out := matched;
      var result := MatchRule(r, i, contentFn, stats);
      match result {
        case Failed(_) =>
        case Raised => NoteError(r);
        case Passed(details) =>
          if r in i.faults.build {
            NoteError(r);
          } else {
            stats.RecordMatch();
            out := out + [Detection(r.sid, details)];
          }
      }
    }

    /** The except clause: count the failure and remember that its sid has been warned about. */
    method NoteError(r: Rule)
      modifies `warnedSids, stats
      ensures stats.Value() == Tick(old(stats.Value()), ContentRaised)
      ensures warnedSids == old(warnedSids) + {r.sid}
    {
      stats.RecordRuleError();
      if r.sid !in warnedSids {
        warnedSids := warnedSids + {r.sid};
      }
    }
  }

  lemma NothingTested(cs: seq<Rule>, i: Input, c: Counters)
    ensures DetectionsOf(cs[..0], i) == [] && Tally(c, OutcomesOf(cs[..0], i)) == c
            && SidsOf(ErrorsOf(cs[..0], i)) == {}
  {
  }

  lemma OneMore(cs: seq<Rule>, n: nat, i: Input, c: Counters)
    requires n < |cs|
    ensures var o := OutcomeOf(cs[n], i);
            && DetectionsOf(cs[..n + 1], i)
               == DetectionsOf(cs[..n], i) + (if o.Matched? then [Detection(cs[n].sid, o.details)] else [])
            && Tally(c, OutcomesOf(cs[..n + 1], i)) == Tick(Tally(c, OutcomesOf(cs[..n], i)), o)
            && SidsOf(ErrorsOf(cs[..n + 1], i)) == SidsOf(ErrorsOf(cs[..n], i)) + if IsError(o) then {cs[n].sid} else {}
  {
    hide OutcomeOf;
    assert cs[..n + 1][..n] == cs[..n];
    var os, o := OutcomesOf(cs[..n], i), OutcomeOf(cs[n], i);
    assert (os + [o])[..|os|] == os;
  }

  function SidsOf(rules: seq<Rule>): set<int> {
    set r | r in rules :: r.sid
  }

  ghost function AfterEvent(rules: seq<Rule>, runs: bool, c: Counters, i: Input): Counters {
    if !runs then Skipped(c)
    else
      var cs := CandidatesOf(rules, NameOfEvent(i.e), i.e.dstPort);
      Tally(Evaluated(c, |cs|), OutcomesOf(cs, i))
  }

  // ---------------------------------------------------------------- accounting

  function MatchCount(os: seq<Outcome>): nat {
    if os == [] then 0 else MatchCount(os[..|os| - 1]) + if os[|os| - 1].Matched? then 1 else 0
  }

  predicate ContentMatch(o: Outcome) { o.Matched? && o.hadContent }

  predicate LateError(o: Outcome) { o.BuildRaised? && o.hadContent }

  function ContentMatches(os: seq<Outcome>): nat {
    if os == [] then 0 else ContentMatches(os[..|os| - 1]) + if ContentMatch(os[|os| - 1]) then 1 else 0
  }

  /** Errors raised after the content stage had completed. */
  function LateErrors(os: seq<Outcome>): nat {
    if os == [] then 0 else LateErrors(os[..|os| - 1]) + if LateError(os[|os| - 1]) then 1 else 0
  }

  function Outcomes(c: Counters): nat {
    c.rejectedHeader + c.rejectedFlow + c.rejectedPacket + c.rejectedContent + c.matches + c.ruleErrors
  }

  lemma {:induction false} TallyAccounts(c: Counters, os: seq<Outcome>)
    ensures var t := Tally(c, os);
            && Outcomes(t) == Outcomes(c) + |os|
            && t.candidateRules == c.candidateRules && t.eventsSkipped == c.eventsSkipped
            && t.eventsEvaluated == c.eventsEvaluated
            && t.matches == c.matches + MatchCount(os)
            && t.contentEvaluations - t.rejectedContent
               == c.contentEvaluations - c.rejectedContent + ContentMatches(os) + LateErrors(os)
  {
    if os != [] {
      TallyAccounts(c, os[..|os| - 1]);
    }
  }

  lemma {:induction false} DetectionsAreMatches(rules: seq<Rule>, i: Input)
    ensures |OutcomesOf(rules, i)| == |rules| && |DetectionsOf(rules, i)| == MatchCount(OutcomesOf(rules, i))
  {
    if rules != [] {
      var before, r := rules[..|rules| - 1], rules[|rules| - 1];
      DetectionsAreMatches(before, i);
      var os := OutcomesOf(before, i);
      assert OutcomesOf(rules, i) == os + [OutcomeOf(r, i)];
      assert (os + [OutcomeOf(r, i)])[..|os|] == os;
    }
  }

  ghost function SessionCounters(rules: seq<Rule>, enabled: bool, inputs: seq<Input>): Counters {
    if inputs == [] then ZERO
    else
      var last := inputs[|inputs| - 1];
      AfterEvent(rules, Runs(rules, enabled, last.e), SessionCounters(rules, enabled, inputs[..|inputs| - 1]), last)
  }

  /** What detect returns for each event. */
  ghost function SessionItems(rules: seq<Rule>, enabled: bool, inputs: seq<Input>): seq<seq<Detection>> {
    if inputs == [] then []
    else
      var last := inputs[|inputs| - 1];
      SessionItems(rules, enabled, inputs[..|inputs| - 1])
      + [if Runs(rules, enabled, last.e) then DetectionsOf(rules, last) else []]
  }

  function Items(all: seq<seq<Detection>>): nat {
    if all == [] then 0 else Items(all[..|all| - 1]) + |all[|all| - 1]|
  }

  lemma NoInputs(rules: seq<Rule>, enabled: bool)
    ensures SessionCounters(rules, enabled, []) == ZERO && SessionItems(rules, enabled, []) == []
  {
  }

  lemma OneMoreInput(rules: seq<Rule>, enabled: bool, inputs: seq<Input>, n: nat)
    requires n < |inputs|
    ensures var i := inputs[n];
            && SessionCounters(rules, enabled, inputs[..n + 1])
               == AfterEvent(rules, Runs(rules, enabled, i.e), SessionCounters(rules, enabled, inputs[..n]), i)
            && SessionItems(rules, enabled, inputs[..n + 1])
               == SessionItems(rules, enabled, inputs[..n])
                  + [if Runs(rules, enabled, i.e) then DetectionsOf(rules, i) else []]
  {
    hide AfterEvent, DetectionsOf, Runs;
    assert inputs[..n + 1][..n] == inputs[..n];
  }

  /** Content stages that completed with a match, whether or not the Detection was then built. */
  ghost function SessionContentHits(rules: seq<Rule>, enabled: bool, inputs: seq<Input>): nat {
    if inputs == [] then 0
    else
      var last := inputs[|inputs| - 1];
      var os := OutcomesOf(CandidatesOf(rules, NameOfEvent(last.e), last.e.dstPort), last);
      SessionContentHits(rules, enabled, inputs[..|inputs| - 1])
      + if Runs(rules, enabled, last.e) then ContentMatches(os) + LateErrors(os) else 0
  }

  /** Accounting over any sequence of events, whatever rules fail: the candidates are the four
      rejections plus matches plus errors; matches is the number of detections returned; a completed
      content stage is a content rejection, a match, or an error after it; every event is counted once. */
  lemma {:induction false} AccountsBalance(rules: seq<Rule>, enabled: bool, inputs: seq<Input>)
    ensures var c := SessionCounters(rules, enabled, inputs);
            && Consistent(c)
            && c.matches == Items(SessionItems(rules, enabled, inputs))
            && c.contentEvaluations == c.rejectedContent + SessionContentHits(rules, enabled, inputs)
            && c.eventsEvaluated + c.eventsSkipped == |inputs|
  {
    if inputs != [] {
      var before, last := inputs[..|inputs| - 1], inputs[|inputs| - 1];
      AccountsBalance(rules, enabled, before);
      if Runs(rules, enabled, last.e) {
        var c := SessionCounters(rules, enabled, before);
        var cs := CandidatesOf(rules, NameOfEvent(last.e), last.e.dstPort);
        IndexLosesNothing(rules, last);
        DetectionsAreMatches(cs, last);
        TallyAccounts(Evaluated(c, |cs|), OutcomesOf(cs, last));
      }
    }
  }

  // ---------------------------------------------------------------- what each counter counts

  function RejectedAt(os: seq<Outcome>, stage: Stage): nat {
    if os == [] then 0
    else RejectedAt(os[..|os| - 1], stage) + if os[|os| - 1] == Rejected(stage) then 1 else 0
  }

  function ErrorCount(os: seq<Outcome>): nat {
    if os == [] then 0 else ErrorCount(os[..|os| - 1]) + if IsError(os[|os| - 1]) then 1 else 0
  }

  lemma {:induction false} TallyCounts(c: Counters, os: seq<Outcome>)
    ensures var t := Tally(c, os);
            && t.rejectedHeader == c.rejectedHeader + RejectedAt(os, HeaderStage)
            && t.rejectedFlow == c.rejectedFlow + RejectedAt(os, FlowStage)
            && t.rejectedPacket == c.rejectedPacket + RejectedAt(os, PacketStage)
            && t.rejectedContent == c.rejectedContent + RejectedAt(os, ContentStage)
            && t.ruleErrors == c.ruleErrors + ErrorCount(os)
            && t.candidateRules == c.candidateRules && t.eventsSkipped == c.eventsSkipped
  {
    if os != [] {
      TallyCounts(c, os[..|os| - 1]);
    }
  }

  /** The outcomes of all candidates of all evaluated events, event by event. */
  ghost function SessionOutcomes(rules: seq<Rule>, enabled: bool, inputs: seq<Input>): seq<Outcome> {
    if inputs == [] then []
    else
      var last := inputs[|inputs| - 1];
      SessionOutcomes(rules, enabled, inputs[..|inputs| - 1])
      + if Runs(rules, enabled, last.e) then OutcomesOf(CandidatesOf(rules, NameOfEvent(last.e), last.e.dstPort), last)
        else []
  }

  /** The events the engine does not look at: switched off, without rules, or the event is skipped, invalid,
      neither TCP nor UDP or without a destination port. */
  function Ignored(rules: seq<Rule>, enabled: bool, inputs: seq<Input>): nat {
    if inputs == [] then 0
    else
      var e := inputs[|inputs| - 1].e;
      Ignored(rules, enabled, inputs[..|inputs| - 1])
      + if !enabled || |rules| == 0 || e.skipped || e.invalid || e.protocol.None? || e.dstPort.None? then 1 else 0
  }

  lemma {:induction false} CountsAppend(os: seq<Outcome>, more: seq<Outcome>, stage: Stage)
    ensures RejectedAt(os + more, stage) == RejectedAt(os, stage) + RejectedAt(more, stage)
    ensures ErrorCount(os + more) == ErrorCount(os) + ErrorCount(more)
  {
    if more == [] {
      assert os + more == os;
    } else {
      assert (os + more)[..|os + more| - 1] == os + more[..|more| - 1];
      CountsAppend(os, more[..|more| - 1], stage);
    }
  }

  /** Over any session every counter counts what its name says. */
  lemma {:induction false} CountersExactly(rules: seq<Rule>, enabled: bool, inputs: seq<Input>)
    ensures var c, os := SessionCounters(rules, enabled, inputs), SessionOutcomes(rules, enabled, inputs);
            && c.rejectedHeader == RejectedAt(os, HeaderStage) && c.rejectedFlow == RejectedAt(os, FlowStage)
            && c.rejectedPacket == RejectedAt(os, PacketStage) && c.rejectedContent == RejectedAt(os, ContentStage)
            && c.ruleErrors == ErrorCount(os) && c.candidateRules == |os|
            && c.eventsSkipped == Ignored(rules, enabled, inputs)
  {
    hide OutcomeOf, CandidatesOf, Tally;
    if inputs != [] {
      var before, last := inputs[..|inputs| - 1], inputs[|inputs| - 1];
      CountersExactly(rules, enabled, before);
      var c, os := SessionCounters(rules, enabled, before), SessionOutcomes(rules, enabled, before);
      if Runs(rules, enabled, last.e) {
        var cs := CandidatesOf(rules, NameOfEvent(last.e), last.e.dstPort);
        var more := OutcomesOf(cs, last);
        DetectionsAreMatches(cs, last);
        TallyCounts(Evaluated(c, |cs|), more);
        CountsAppend(os, more, HeaderStage);
        CountsAppend(os, more, FlowStage);
        CountsAppend(os, more, PacketStage);
        CountsAppend(os, more, ContentStage);
      } else {
        assert os + [] == os;
      }
    }
  }
}

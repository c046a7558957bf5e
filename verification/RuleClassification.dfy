/** What the classification of src/rules/validator.py guarantees. */
module RuleClassification {
  import opened Common
  import opened Rules
  import opened RuleScanner
  import opened OptionValues
  import RuleLines
  import opened RuleLoader
  import opened RuleValidator
  import CM = ContentMatcher

  // ---------------------------------------------------------------- invalid means some check fails

  /** An option that may stand once stands twice, or its value is invalid. */
  predicate OnceFault<T>(os: Options, key: string, parse: Option<string> -> Result<T>) {
    || Count(os, key) > 1
    || (Count(os, key) == 1 && parse(ValueOf(os, key)).Err? && parse(ValueOf(os, key)).reason.IsInvalid())
  }

  predicate HeaderFault(h: seq<string>, net: NetFn) {
    |h| != HEADER_TOKEN_COUNT
    || exists i :: 0 <= i < |h| && FieldFault(h, i, net).Some? && FieldFault(h, i, net).value.IsInvalid()
  }

  predicate OptionFaultAt(os: Options, k: nat)
    requires k < |os|
  {
    IdentFault(os[..k], os[k]).Some? || ContentFault(os[..k], os[k]).Some?
  }

  predicate CrossFault(h: seq<string>, os: Options) {
    (exists c :: c in Specs(os) && ContentConflicts(c)) || FlagsNeedTcp(h, os).Some?
  }

  /** Some check of the structure, the header, an option's value or across options fails. */
  predicate Faulty(h: seq<string>, os: Options, net: NetFn) {
    || HeaderFault(h, net)
    || Count(os, "sid") == 0 || Count(os, "msg") == 0
    || (exists k :: 0 <= k < |os| && OptionFaultAt(os, k))
    || OnceFault(os, "flow", FlowValue) || OnceFault(os, "flags", FlagsValue) || OnceFault(os, "dsize", DsizeValue)
    || CrossFault(h, os)
  }

  lemma HeaderIsFaulty(h: seq<string>, net: NetFn)
    ensures HeaderInvalid(h, net).Some? <==> HeaderFault(h, net)
  {
    hide FieldFault;
    if |h| == HEADER_TOKEN_COUNT {
      FirstFaultExists(h, |h|, true, net);
    }
  }

  lemma OptionsAreFaulty(os: Options)
    ensures FirstOptionFault(os, IdentFault).Some? || FirstOptionFault(os, ContentFault).Some?
            <==> exists k :: 0 <= k < |os| && OptionFaultAt(os, k)
  {
    hide IdentFault, ContentFault;
    FirstOptionFaultExists(os, IdentFault);
    FirstOptionFaultExists(os, ContentFault);
    if k :| 0 <= k < |os| && IdentFault(os[..k], os[k]).Some? {
      assert OptionFaultAt(os, k);
    }
    if k :| 0 <= k < |os| && ContentFault(os[..k], os[k]).Some? {
      assert OptionFaultAt(os, k);
    }
  }

  lemma OnceIsFaulty<T>(os: Options, key: string, parse: Option<string> -> Result<T>)
    ensures InvalidOf(ErrorOf(Once(os, key, parse))).Some? <==> OnceFault(os, key, parse)
  {
  }

  /** A rule is reported invalid exactly when some check fails, whatever is unsupported about it. */
  lemma InvalidIffFaulty(h: seq<string>, os: Options, net: NetFn)
    ensures InvalidReason(h, os, net).Some? <==> Faulty(h, os, net)
  {
    hide HeaderInvalid, FirstOptionFault, Specs, Count, ValueOf, OnceFault, HeaderFault, Once, OptionFaultAt,
         FlagsNeedTcp;
    HeaderIsFaulty(h, net);
    OptionsAreFaulty(os);
    OnceIsFaulty(os, "flow", FlowValue);
    OnceIsFaulty(os, "flags", FlagsValue);
    OnceIsFaulty(os, "dsize", DsizeValue);
    FirstConflictExists(Specs(os));
  }

  // ---------------------------------------------------------------- what the codes are

  lemma {:induction false} FaultsAreInvalid(os: Options, fault: FaultFn)
    requires forall k :: 0 <= k < |os| && fault(os[..k], os[k]).Some? ==> fault(os[..k], os[k]).value.IsInvalid()
    ensures FirstOptionFault(os, fault).Some? ==> FirstOptionFault(os, fault).value.IsInvalid()
  {
    if os != [] {
      var init := os[..|os| - 1];
      assert forall k :: 0 <= k < |init| ==> init[..k] == os[..k] && init[k] == os[k];
      FaultsAreInvalid(init, fault);
    }
  }

  lemma IdentFaultsAreInvalid(before: Options, o: OptionPair)
    ensures IdentFault(before, o).Some? ==> IdentFault(before, o).value.IsInvalid()
  {
  }

  lemma ContentFaultsAreInvalid(before: Options, o: OptionPair)
    ensures ContentFault(before, o).Some? ==> ContentFault(before, o).value.IsInvalid()
  {
  }

  lemma ConflictsAreInvalid(cs: seq<CM.ContentSpec>)
    ensures FirstConflict(cs).Some? ==> FirstConflict(cs).value.IsInvalid()
  {
  }

  lemma InvalidReasonIsInvalid(h: seq<string>, os: Options, net: NetFn)
    ensures InvalidReason(h, os, net).Some? ==> InvalidReason(h, os, net).value.IsInvalid()
  {
    hide HeaderInvalid, FirstOptionFault, Specs, Count, IdentFault, ContentFault, FirstConflict, FlowReason,
         FlagsReason, DsizeReason;
    HeaderKinds(h, net);
    forall k | 0 <= k < |os|
      ensures IdentFault(os[..k], os[k]).Some? ==> IdentFault(os[..k], os[k]).value.IsInvalid()
    {
      IdentFaultsAreInvalid(os[..k], os[k]);
    }
    forall k | 0 <= k < |os|
      ensures ContentFault(os[..k], os[k]).Some? ==> ContentFault(os[..k], os[k]).value.IsInvalid()
    {
      ContentFaultsAreInvalid(os[..k], os[k]);
    }
    FaultsAreInvalid(os, IdentFault);
    FaultsAreInvalid(os, ContentFault);
    ConflictsAreInvalid(Specs(os));
  }

  lemma UnsupportedReasonIsNot(h: seq<string>, os: Options, net: NetFn)
    ensures UnsupportedReason(h, os, net).Some? ==> !UnsupportedReason(h, os, net).value.IsInvalid()
  {
    hide HeaderUnsupported, HasNegated, FlowReason, FlagsReason, DsizeReason, UnknownKeyword;
    HeaderKinds(h, net);
    UnknownKeywordExists(os);
  }

  /** The three outcomes: invalid exactly when a check fails; unsupported exactly when none fails but
      a part of the rule is unsupported; valid otherwise. */
  lemma ClassificationIsExact(h: seq<string>, os: Options, g: Setting)
    ensures var r := Classified(h, os, g);
            && (r.Rejected? && r.reason.IsInvalid() <==> Faulty(h, os, g.net))
            && (r.Rejected? && !r.reason.IsInvalid()
                <==> !Faulty(h, os, g.net) && UnsupportedReason(h, os, g.net).Some?)
            && (r.Valid? ==> !HasNegated(os) && forall k :: 0 <= k < |os| ==> os[k].key in SUPPORTED_KEYWORDS)
  {
    hide InvalidReason, Faulty, HeaderUnsupported, HasNegated, FlowReason, FlagsReason, DsizeReason, UnknownKeyword,
         RuleOf, Reason.IsInvalid, BestEffortSid;
    var net := g.net;
    InvalidIffFaulty(h, os, net);
    InvalidReasonIsInvalid(h, os, net);
    UnsupportedReasonIsNot(h, os, net);
    if Classified(h, os, g).Valid? {
      UnknownKeywordExists(os);
      forall k | 0 <= k < |os|
        ensures os[k].key in SUPPORTED_KEYWORDS
      {
        assert !IsUnknown(os[k]);
      }
    }
  }

  // ---------------------------------------------------------------- what a valid rule is like

  /** Non-empty, with numbers in range. */
  predicate SpecInRange(c: CM.ContentSpec) {
    && c.pattern != []
    && (c.offset.Some? ==> 0 <= c.offset.value <= MAX_OPTION_INT)
    && (c.depth.Some? ==> 0 <= c.depth.value <= MAX_OPTION_INT)
    && (c.distance.Some? ==> -MAX_OPTION_INT <= c.distance.value <= MAX_OPTION_INT)
    && (c.within.Some? ==> 1 <= c.within.value <= MAX_OPTION_INT)
  }

  lemma ModifiersInRange(key: string, v: Option<string>)
    requires ModifierValue(key, v).Some?
    ensures key == "distance" ==> -MAX_OPTION_INT <= ModifierValue(key, v).value <= MAX_OPTION_INT
    ensures key != "distance" ==> 0 <= ModifierValue(key, v).value <= MAX_OPTION_INT
    ensures key == "within" ==> ModifierValue(key, v).value >= 1
  {
  }

  lemma ContentIsNotEmpty(v: Option<string>)
    ensures FullContent(v).Ok? ==> FullContent(v).value.pattern != []
  {
  }

  lemma {:induction false} SpecsInRange(os: Options)
    requires FirstOptionFault(os, ContentFault).None?
    ensures forall c :: c in Specs(os) ==> SpecInRange(c)
  {
    hide ModifierValue, FullContent;
    if os != [] {
      var init, o := os[..|os| - 1], os[|os| - 1];
      SpecsInRange(init);
      var cs := Specs(init);
      if o.key == "content" {
        ContentIsNotEmpty(o.value);
      } else if o.key in CONTENT_MODIFIERS && cs != [] {
        ModifiersInRange(o.key, o.value);
        assert cs[|cs| - 1] in cs;
        assert SpecInRange(WithModifier(cs[|cs| - 1], o.key, o.value));
        assert forall c :: c in cs[..|cs| - 1] ==> c in cs;
      }
    }
  }

  /** What the engine may rely on: contents that are not empty, whose windows can hold them and whose
      modifiers do not mix, a sid in range, and no flags test on UDP. */
  predicate Usable(r: Rule) {
    && 1 <= r.sid <= MAX_OPTION_INT
    && (forall c :: c in r.contents ==> SpecInRange(c) && !ContentConflicts(c))
    && (r.flags.Some? ==> r.protocol != Udp)
  }

  lemma ValidRulesAreUsable(h: seq<string>, os: Options, g: Setting)
    ensures var r := Classified(h, os, g); r.Valid? ==> Usable(r.rule)
  {
    hide HeaderInvalid, FirstOptionFault, Specs, Count, IdentFault, FlowReason, FlagsReason, DsizeReason,
         HeaderUnsupported, HasNegated, UnknownKeyword, ParseIp, ParsePort, FlowValue, FlagsValue, DsizeValue,
         Reason.IsInvalid, NonNegative, RuleOf;
    var r := Classified(h, os, g);
    if r.Valid? {
      assert IsRule(r.rule, h, os, g);
      SpecsInRange(os);
      FirstConflictExists(Specs(os));
      SidInRange(os);
    }
  }

  lemma SidInRange(os: Options)
    ensures FoundIn(os).sid.Some? ==> 1 <= FoundIn(os).sid.value <= MAX_OPTION_INT
  {
  }

  /** The content has an absolute modifier and a relative one. */
  predicate Mixes(c: CM.ContentSpec) {
    (c.offset.Some? || c.depth.Some?) && (c.distance.Some? || c.within.Some?)
  }

  /** A window shorter than the pattern admits no payload at all, and any other window admits one. */
  lemma TooNarrowIffNeverMatches(c: CM.ContentSpec, prevEnd: nat)
    requires SpecInRange(c)
    ensures (exists data, pos :: CM.Admits(data, c, prevEnd, pos))
            <==> if CM.IsRelative(c) then c.within.Some? ==> |c.pattern| <= c.within.value
                 else c.depth.Some? ==> |c.pattern| <= c.depth.value
  {
    var (start, end) := CM.Window(c, prevEnd);
    assert start >= 0;
    if end.None? || start + |c.pattern| <= end.value {
      var data := seq(start, _ => 0 as byte) + c.pattern;
      assert data[start..start + |c.pattern|] == c.pattern;
      assert CM.Admits(data, c, prevEnd, start);
    }
  }

  /** Among the contents that do not mix modifiers, the conflicts are exactly those that no payload
      can match, wherever the content before ended. */
  lemma ConflictIffNeverMatches(c: CM.ContentSpec, prevEnd: nat)
    requires SpecInRange(c) && !Mixes(c)
    ensures ContentConflicts(c) <==> !exists data, pos :: CM.Admits(data, c, prevEnd, pos)
  {
    TooNarrowIffNeverMatches(c, prevEnd);
  }

  /** The code of a conflicting content names what is wrong with it: its depth, its within if the depth is not
      too short, the mixture if neither is. */
  lemma ConflictNamesItsCause(c: CM.ContentSpec)
    requires ContentConflicts(c)
    ensures ConflictOf(c) == DepthLtPattern <==> exists d :: c.depth == Some(d) && d < |c.pattern|
    ensures ConflictOf(c) == WithinLtPattern
            <==> (forall d :: c.depth == Some(d) ==> |c.pattern| <= d)
                 && exists w :: c.within == Some(w) && w < |c.pattern|
    ensures ConflictOf(c) == MixedAbsoluteRelative
            <==> (forall d :: c.depth == Some(d) ==> |c.pattern| <= d)
                 && (forall w :: c.within == Some(w) ==> |c.pattern| <= w)
    ensures ConflictOf(c) == MixedAbsoluteRelative ==> Mixes(c)
  {
  }

  /** A mixed content always conflicts, and matches some payload exactly when its relative window is
      wide enough: the engine never looks at its offset and depth. */
  lemma MixedConflictsAnyway(c: CM.ContentSpec, prevEnd: nat)
    requires SpecInRange(c) && Mixes(c)
    ensures ContentConflicts(c)
    ensures (exists data, pos :: CM.Admits(data, c, prevEnd, pos))
            <==> (c.within.Some? ==> |c.pattern| <= c.within.value)
  {
    TooNarrowIffNeverMatches(c, prevEnd);
  }

  /** For instance "abc" with distance 0 and depth 1 is rejected, though it would be found in "abc". */
  lemma RejectedMixedContentMatches()
    ensures var c := CM.ContentSpec("abc", [0x61, 0x62, 0x63], false, None, Some(1), Some(0), None);
            && SpecInRange(c) && ContentConflicts(c) && ConflictOf(c) == DepthLtPattern
            && CM.Admits([0x61, 0x62, 0x63], c, 0, 0)
  {
    var p: seq<byte> := [0x61, 0x62, 0x63];
    assert p[0..3] == p;
  }

  lemma ParsedLineIsUsable(text: string, g: Setting)
    ensures var r := ParsedLine(text, g); r.Valid? ==> Usable(r.rule)
  {
    hide Classified, Usable, Tokenized;
    if Tokenized(text).Ok? {
      ValidRulesAreUsable(Tokenized(text).value.header, Tokenized(text).value.options, g);
    }
  }

  lemma {:induction false} ParsedFromIsUsable(ys: seq<(nat, string)>, name: string, net: NetFn, defaultPriority: int)
    ensures forall p :: p in ParsedFrom(ys, name, Parser(net, defaultPriority)) && p.result.Valid? ==>
            Usable(p.result.rule)
  {
    hide Usable, ParsedLine;
    if ys != [] {
      ParsedFromIsUsable(ys[..|ys| - 1], name, net, defaultPriority);
      var (line, text) := ys[|ys| - 1];
      ParsedLineIsUsable(text, Setting(net, defaultPriority, Origin(name, line, text)));
    }
  }

  lemma {:induction false} AllParsedIsUsable(sources: seq<Source>, net: NetFn, defaultPriority: int)
    ensures forall p :: p in AllParsed(sources, Parser(net, defaultPriority)) && p.result.Valid? ==>
            Usable(p.result.rule)
  {
    hide Usable, ParsedFrom, FileLines, Loads, Parser;
    if sources != [] {
      var s := sources[|sources| - 1];
      AllParsedIsUsable(sources[..|sources| - 1], net, defaultPriority);
      if s.content.Some? {
        ParsedFromIsUsable(RuleLines.Yielded(FileLines(s.content.value)), s.name, net, defaultPriority);
      }
    }
  }

  /** Every rule the loader returns with this parser, whatever the files hold, is usable. */
  lemma LoadedRulesAreUsable(sources: seq<Source>, net: NetFn, defaultPriority: int, disabled: set<int>)
    ensures var ps := AllParsed(sources, Parser(net, defaultPriority)); forall r :: r in Kept(ps, |ps|, disabled) ==>
            Usable(r)
  {
    hide Usable, AllParsed, Parser;
    var ps := AllParsed(sources, Parser(net, defaultPriority));
    AllParsedIsUsable(sources, net, defaultPriority);
    KeptSidsAreUnique(ps, |ps|, disabled);
    forall r | r in Kept(ps, |ps|, disabled)
      ensures Usable(r)
    {
      var i :| 0 <= i < |ps| && ps[i].result == Valid(r) && FirstOfItsSid(ps, i);
      assert ps[i] in ps;
    }
  }
}

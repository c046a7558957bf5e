/** Unsupported parts of a rule decide nothing: src/rules/validator.py reports the same invalid code with
    and without them. */
module RuleSupport {
  import opened Common
  import opened PyText
  import opened Rules
  import opened RuleScanner
  import opened OptionText
  import opened OptionValues
  import opened RuleValidator
  import opened RuleClassification

  // ---------------------------------------------------------------- the supported part of an option

  /** The flow words this engine knows, in order. */
  function KnownWords(items: seq<string>): seq<string> {
    if items == [] then []
    else (if IsFlowWord(items[0]) then [items[0]] else []) + KnownWords(items[1..])
  }

  function JoinWords(ws: seq<string>): string {
    if ws == [] then "" else if |ws| == 1 then ws[0] else ws[0] + "," + JoinWords(ws[1..])
  }

  /** A flow value without its unknown words; `established` if nothing else is left. */
  function KnownFlow(v: string): string {
    var ws := KnownWords(FlowItems(v));
    if ws == [] then "established" else JoinWords(ws)
  }

  /** The value without what is unsupported about it: a content without its '!', a flow value without
      its unknown words and a flags value without its mask. */
  function SupportedValue(key: string, v: Option<string>): Option<string> {
    if key == "content" && v.Some? && Negated(v.value) then Some(v.value[1..])
    else if key == "flow" && v.Some? && IsUnsupported(FlowValue(v)) then Some(KnownFlow(v.value))
    else if key == "flags" && v.Some? && IsUnsupported(FlagsValue(v)) then Some(Partition(v.value, ',').0)
    else v
  }

  predicate IsUnsupported<T>(r: Result<T>) {
    r.Err? && !r.reason.IsInvalid()
  }

  function SupportedOption(o: OptionPair): OptionPair {
    OptionPair(o.key, SupportedValue(o.key, o.value))
  }

  /** The supported part of the options; unknown keywords are dropped. */
  function Supported(os: Options): Options {
    if os == [] then []
    else Supported(os[..|os| - 1]) + if IsUnknown(os[|os| - 1]) then [] else [SupportedOption(os[|os| - 1])]
  }

  lemma SupportedContent(v: Option<string>)
    ensures var w := SupportedValue("content", v);
            FullContent(w) == FullContent(v) && !(w.Some? && Negated(w.value))
  {
  }

  lemma FlowWordIsPlain(w: string)
    requires IsFlowWord(w)
    ensures w != "" && ',' !in w && !IsSpace(w[0]) && !IsSpace(w[|w| - 1])
  {
  }

  lemma {:induction false} KnownAreTheWords(items: seq<string>)
    ensures forall x :: x in KnownWords(items) <==> x in items && IsFlowWord(x)
  {
    hide RoleOf, StateSpecOf;
    if items != [] {
      KnownAreTheWords(items[1..]);
      assert items == [items[0]] + items[1..];
    }
  }

  lemma {:induction false} SplitJoin(ws: seq<string>)
    requires ws != [] && forall w :: w in ws ==> ',' !in w
    ensures SplitOn(JoinWords(ws), ',') == ws
  {
    hide Partition;
    assert ws[0] in ws;
    if |ws| == 1 {
      FindNone(ws[0], ',');
      assert ws == [ws[0]];
    } else {
      assert forall w :: w in ws[1..] ==> w in ws;
      SplitJoin(ws[1..]);
      PartitionAt(ws[0], ',', JoinWords(ws[1..]));
      assert ws == [ws[0]] + ws[1..];
    }
  }

  lemma {:induction false} JoinIsTrim(ws: seq<string>)
    requires ws != [] && forall w :: w in ws ==> IsFlowWord(w)
    ensures var t := JoinWords(ws); t != "" && !IsSpace(t[0]) && !IsSpace(t[|t| - 1])
  {
    hide RoleOf, StateSpecOf;
    assert ws[0] in ws;
    FlowWordIsPlain(ws[0]);
    if |ws| > 1 {
      assert forall w :: w in ws[1..] ==> w in ws;
      JoinIsTrim(ws[1..]);
    }
  }

  lemma ItemsOfJoin(ws: seq<string>)
    requires ws != [] && forall w :: w in ws ==> IsFlowWord(w)
    ensures FlowItems(JoinWords(ws)) == ws && Strip(JoinWords(ws)) != []
  {
    hide RoleOf, StateSpecOf, Strip, JoinWords;
    JoinIsTrim(ws);
    StripTrim(JoinWords(ws));
    forall w | w in ws
      ensures ',' !in w && Strip(w) == w
    {
      FlowWordIsPlain(w);
      StripTrim(w);
    }
    SplitJoin(ws);
  }

  /** Without its unknown words the value says exactly what the known ones say. */
  lemma KnownFlowIsRead(v: string)
    requires IsUnsupported(FlowValue(Some(v))) && KnownWords(FlowItems(v)) != []
    ensures FlowValue(Some(KnownFlow(v))).Ok?
    ensures SaysFlow(KnownWords(FlowItems(v)), FlowValue(Some(KnownFlow(v))).value)
  {
    hide FlowItems, Strip, RoleOf, StateSpecOf, FirstUnknown, KnownWords, JoinWords;
    var items, ws := FlowItems(v), KnownWords(FlowItems(v));
    KnownAreTheWords(items);
    ItemsOfJoin(ws);
    UnknownIsAnItem(ws);
    EmptyIsUnknown();
    assert (set x | x in items && RoleOf(x).Some? :: RoleOf(x).value)
           == (set x | x in ws && RoleOf(x).Some? :: RoleOf(x).value);
    assert (set x | x in items && StateSpecOf(x).Some? :: StateSpecOf(x).value)
           == (set x | x in ws && StateSpecOf(x).Some? :: StateSpecOf(x).value);
    assert FlowValue(Some(JoinWords(ws))).Ok?;
    FlowExactly(JoinWords(ws), FlowValue(Some(JoinWords(ws))).value);
  }

  lemma SupportedFlow(v: Option<string>)
    ensures var r, s := FlowValue(v), FlowValue(SupportedValue("flow", v));
            !IsUnsupported(s) && InvalidOf(ErrorOf(s)) == InvalidOf(ErrorOf(r))
  {
    hide FlowValue, KnownWords, FlowItems, JoinWords;
    NoFlowIsInvalid();
    EstablishedIsAFlow();
    if v.Some? && IsUnsupported(FlowValue(v)) && KnownWords(FlowItems(v.value)) != [] {
      KnownFlowIsRead(v.value);
    }
  }

  lemma NoFlowIsInvalid()
    ensures !IsUnsupported(FlowValue(None)) && !IsUnsupported(FlagsValue(None))
  {
  }

  lemma EstablishedIsAFlow()
    ensures FlowValue(Some("established")).Ok?
  {
    hide FlowValue, Strip, FlowItems, SaysFlow;
    var v := "established";
    FlowExactly(v, FlowSpec(None, Some(Established)));
    OneItem(v);
  }

  lemma OneItem(v: string)
    requires v == "established"
    ensures Strip(v) != [] && FlowItems(v) == [v] && SaysFlow([v], FlowSpec(None, Some(Established)))
  {
    StripTrim(v);
    assert ',' !in v;
    FindNone(v, ',');
    assert SplitOn(v, ',') == [v];
    assert RoleOf(v) == None && StateSpecOf(v) == Some(Established) by {
      assert v[0] == 'e' && "to_server"[0] == 't' && "to_client"[0] == 't' && "from_client"[0] == 'f'
          && "from_server"[0] == 'f';
    }
    assert v in [v];
  }

  lemma SupportedFlags(v: Option<string>)
    ensures var r, s := FlagsValue(v), FlagsValue(SupportedValue("flags", v));
            !IsUnsupported(s) && InvalidOf(ErrorOf(s)) == InvalidOf(ErrorOf(r))
  {
    hide FlagLetters, FlagSet, Partition, FlagsModeOf;
    if v.Some? {
      PartitionBack(v.value, ',');
      FindNone(Partition(v.value, ',').0, ',');
    }
  }

  lemma DsizeIsSupported(v: Option<string>)
    ensures !IsUnsupported(DsizeValue(v))
  {
  }

  // ---------------------------------------------------------------- the same checks fail

  lemma CountMore(os: Options, o: OptionPair, key: string)
    ensures Count(os + [o], key) == Count(os, key) + (if o.key == key then 1 else 0)
    ensures ValueOf(os + [o], key) == if o.key == key then o.value else ValueOf(os, key)
  {
    assert (os + [o])[..|os|] == os;
  }

  lemma {:induction false} SupportedCounts(os: Options, key: string)
    requires key in SUPPORTED_KEYWORDS
    ensures Count(Supported(os), key) == Count(os, key)
    ensures ValueOf(Supported(os), key) == if Count(os, key) > 0 then SupportedValue(key, ValueOf(os, key)) else None
  {
    hide SupportedValue;
    if os != [] {
      var init, o := os[..|os| - 1], os[|os| - 1];
      SupportedCounts(init, key);
      if IsUnknown(o) {
        assert Supported(init) + [] == Supported(init);
      } else {
        CountMore(Supported(init), SupportedOption(o), key);
      }
    }
  }

  lemma {:induction false} SupportedContents(os: Options)
    ensures Open(Supported(os)) == Open(os) && Specs(Supported(os)) == Specs(os) && !HasNegated(Supported(os))
  {
    hide Negated, FullContent, WithModifier, SupportedValue;
    if os != [] {
      var init, o := os[..|os| - 1], os[|os| - 1];
      assert os == init + [o];
      SupportedContents(init);
      ContentsMore(init, o);
      if IsUnknown(o) {
        assert Supported(init) + [] == Supported(init);
      } else {
        KeepsModifier(o);
        SupportedContent(o.value);
        ContentsMore(Supported(init), SupportedOption(o));
      }
    }
  }

  /** Only content, flow and flags have unsupported values. */
  lemma KeepsModifier(o: OptionPair)
    ensures o.key in CONTENT_MODIFIERS + IDENTIFICATION_KEYWORDS + {"dsize"} ==> SupportedOption(o) == o
  {
    hide FlowValue, FlagsValue, Negated, IsUnsupported, KnownFlow;
  }

  lemma SameFault(os: Options, o: OptionPair)
    ensures IsUnknown(o) ==> IdentFault(os, o).None? && ContentFault(os, o).None?
    ensures !IsUnknown(o) ==> IdentFault(Supported(os), SupportedOption(o)) == IdentFault(os, o)
    ensures !IsUnknown(o) ==> ContentFault(Supported(os), SupportedOption(o)) == ContentFault(os, o)
  {
    hide SupportedValue, FullContent, Open, Count, Unquoted, Positive, IsClassType, ModifierValue, Supported;
    KeepsModifier(o);
    SupportedContents(os);
    SupportedContent(o.value);
    if o.key in IDENTIFICATION_KEYWORDS {
      SupportedCounts(os, o.key);
    }
  }

  lemma {:induction false} SupportedFaults(os: Options)
    ensures FirstOptionFault(Supported(os), IdentFault) == FirstOptionFault(os, IdentFault)
    ensures FirstOptionFault(Supported(os), ContentFault) == FirstOptionFault(os, ContentFault)
  {
    hide IdentFault, ContentFault, SupportedOption;
    if os != [] {
      var init, o := os[..|os| - 1], os[|os| - 1];
      SupportedFaults(init);
      SameFault(init, o);
      if IsUnknown(o) {
        assert Supported(init) + [] == Supported(init);
      } else {
        OneMoreFault(Supported(init), SupportedOption(o), IdentFault);
        OneMoreFault(Supported(init), SupportedOption(o), ContentFault);
      }
    }
  }

  /** flow, flags and dsize: the same invalid code, and nothing unsupported left. */
  lemma SupportedMatch(os: Options)
    ensures InvalidMatch(Supported(os)) == InvalidMatch(os) && UnsupportedMatch(Supported(os)).None?
  {
    hide FlowValue, FlagsValue, DsizeValue, SupportedValue, Count, ValueOf, Supported, Reason.IsInvalid;
    SupportedOnce(os);
    SupportedFlow(ValueOf(os, "flow"));
    SupportedFlags(ValueOf(os, "flags"));
    DsizeIsSupported(ValueOf(os, "dsize"));
    DuplicateIsInvalid();
  }

  lemma SupportedOnce(os: Options)
    ensures Count(Supported(os), "flow") == Count(os, "flow") && Count(Supported(os), "flags") == Count(os, "flags")
    ensures Count(os, "flow") > 0 ==> ValueOf(Supported(os), "flow") == SupportedValue("flow", ValueOf(os, "flow"))
    ensures Count(os, "flags") > 0 ==> ValueOf(Supported(os), "flags") == SupportedValue("flags", ValueOf(os, "flags"))
    ensures Count(Supported(os), "dsize") == Count(os, "dsize")
    ensures Count(os, "dsize") > 0 ==> ValueOf(Supported(os), "dsize") == ValueOf(os, "dsize")
  {
    hide SupportedValue, Count, ValueOf, Supported;
    SupportedCounts(os, "flow");
    SupportedCounts(os, "flags");
    SupportedCounts(os, "dsize");
    KeepsModifier(OptionPair("dsize", ValueOf(os, "dsize")));
  }

  lemma DuplicateIsInvalid()
    ensures forall key :: DuplicateOption(key).IsInvalid()
  {
  }

  lemma {:induction false} SupportedAreKnown(os: Options)
    ensures UnknownKeyword(Supported(os)).None?
  {
    hide Supported;
    AllKnown(os);
    UnknownKeywordExists(Supported(os));
  }

  lemma {:induction false} AllKnown(os: Options)
    ensures forall k :: 0 <= k < |Supported(os)| ==> !IsUnknown(Supported(os)[k])
  {
    hide SupportedValue;
    if os != [] {
      AllKnown(os[..|os| - 1]);
    }
  }

  // ---------------------------------------------------------------- the supported part of a header

  const SUPPORTED_HEADER := ["alert", "tcp", "any", "any", "->", "any", "any"]

  /** Each field with unsupported syntax replaced by a plain one. */
  function SupportedHeader(h: seq<string>, net: NetFn): seq<string> {
    if |h| != HEADER_TOKEN_COUNT then h
    else
      seq(|h|, i requires 0 <= i < |h| =>
        var fault := FieldFault(h, i, net);
        if fault.Some? && !fault.value.IsInvalid() then SUPPORTED_HEADER[i] else h[i])
  }

  lemma PlainFieldsAreRead(i: nat, net: NetFn)
    requires i < HEADER_TOKEN_COUNT
    ensures ParseField(i, SUPPORTED_HEADER[i], net).Ok?
  {
  }

  lemma SupportedFields(h: seq<string>, i: nat, net: NetFn)
    requires i < |h| == HEADER_TOKEN_COUNT
    ensures FieldFault(SupportedHeader(h, net), i, net) == InvalidOf(FieldFault(h, i, net))
  {
    hide ParseField, Reason.IsInvalid, SUPPORTED_HEADER;
    PlainFieldsAreRead(i, net);
  }

  lemma {:induction false} SupportedFirstFault(h: seq<string>, n: nat, net: NetFn)
    requires n <= |h| == HEADER_TOKEN_COUNT
    ensures FirstFault(SupportedHeader(h, net), n, true, net) == FirstFault(h, n, true, net)
    ensures FirstFault(SupportedHeader(h, net), n, false, net).None?
  {
    hide SupportedHeader, FieldFault, Reason.IsInvalid;
    HeaderLength(h, net);
    if n > 0 {
      SupportedFirstFault(h, n - 1, net);
      SupportedFields(h, n - 1, net);
    }
  }

  lemma HeaderLength(h: seq<string>, net: NetFn)
    ensures |SupportedHeader(h, net)| == |h|
  {
  }

  lemma SupportedProtocol(h: seq<string>, net: NetFn)
    requires |h| == HEADER_TOKEN_COUNT
    ensures SupportedHeader(h, net)[1] == "udp" <==> h[1] == "udp"
  {
    assert "udp"[0] == 'u' && "tcp"[0] == 't';
    assert h[1] == "udp" ==> FieldFault(h, 1, net).None?;
  }

  // ---------------------------------------------------------------- the theorem

  /** The supported part of a rule has nothing unsupported left, and it is reported invalid, with the
      same code, exactly when the rule is: unsupported parts, wherever they stand, hide nothing. */
  lemma UnsupportedPartsHideNothing(h: seq<string>, os: Options, net: NetFn)
    ensures InvalidReason(SupportedHeader(h, net), Supported(os), net) == InvalidReason(h, os, net)
    ensures UnsupportedReason(SupportedHeader(h, net), Supported(os), net).None?
  {
    hide FirstOptionFault, Specs, Count, ValueOf, IdentFault, ContentFault, FirstConflict, InvalidMatch,
         UnsupportedMatch, Reason.IsInvalid, Supported, SupportedHeader, FirstFault, HasNegated, UnknownKeyword;
    HeaderLength(h, net);
    if |h| == HEADER_TOKEN_COUNT {
      SupportedFirstFault(h, |h|, net);
      SupportedProtocol(h, net);
    }
    SupportedFaults(os);
    SupportedContents(os);
    SupportedMatch(os);
    SupportedOnce(os);
    SupportedAreKnown(os);
    SupportedCounts(os, "sid");
    SupportedCounts(os, "msg");
  }

  /** So a rule is invalid exactly when its supported part is not a valid rule. */
  lemma InvalidIffSupportedPartIsNotValid(h: seq<string>, os: Options, g: Setting)
    ensures Faulty(h, os, g.net) <==> !Classified(SupportedHeader(h, g.net), Supported(os), g).Valid?
  {
    hide Faulty, InvalidReason, UnsupportedReason, Supported, SupportedHeader, RuleOf;
    InvalidIffFaulty(h, os, g.net);
    UnsupportedPartsHideNothing(h, os, g.net);
  }
}

/** The option parsers of src/rules/parser.py and the classification of src/rules/validator.py. */
module RuleValidator {
  import opened Common
  import opened Rules
  import opened RuleScanner
  import opened OptionText
  import opened OptionValues
  import opened RuleLoader
  import CM = ContentMatcher

  type Options = seq<OptionPair>

  const IDENTIFICATION_KEYWORDS := {"msg", "sid", "rev", "classtype", "priority"}

  const PASSIVE_KEYWORDS := {"reference", "metadata", "gid"}

  const CONTENT_MODIFIERS := {"nocase", "offset", "depth", "distance", "within"}

  const SUPPORTED_KEYWORDS :=
    IDENTIFICATION_KEYWORDS + PASSIVE_KEYWORDS + CONTENT_MODIFIERS + {"content", "flow", "flags", "dsize"}

  function Count(os: Options, key: string): nat {
    if os == [] then 0 else Count(os[..|os| - 1], key) + if os[|os| - 1].key == key then 1 else 0
  }

  /** The value of the last option called `key`. */
  function ValueOf(os: Options, key: string): Option<string> {
    if os == [] then None
    else if os[|os| - 1].key == key then os[|os| - 1].value
    else ValueOf(os[..|os| - 1], key)
  }

  // ---------------------------------------------------------------- identification

  predicate IsClassType(v: Option<string>) {
    v.Some? && v.value != [] && forall i :: 0 <= i < |v.value| ==>
      var c := v.value[i]; 'A' <= c <= 'Z' || 'a' <= c <= 'z' || '0' <= c <= '9' || c == '_' || c == '-'
  }

  /** What is wrong with an identification option that comes after `before`. */
  function IdentFault(before: Options, o: OptionPair): Option<Reason> {
    if o.key !in IDENTIFICATION_KEYWORDS then None
    else if Count(before, o.key) > 0 then Some(DuplicateOption(o.key))
    else if o.key == "msg" then if Unquoted(o.value).None? then Some(MissingMsg) else None
    else if o.key == "sid" then if Positive(o.value).None? then Some(BadSid) else None
    else if o.key == "classtype" then if !IsClassType(o.value) then Some(BadOptionValue(o.key)) else None
    else if Positive(o.value).None? then Some(BadOptionValue(o.key)) else None
  }

  type FaultFn = (Options, OptionPair) -> Option<Reason>

  function FirstOptionFault(os: Options, fault: FaultFn): Option<Reason> {
    if os == [] then None
    else
      var before := FirstOptionFault(os[..|os| - 1], fault);
      if before.Some? then before else fault(os[..|os| - 1], os[|os| - 1])
  }

  lemma {:induction false} FirstOptionFaultExists(os: Options, fault: FaultFn)
    ensures FirstOptionFault(os, fault).Some? <==> exists k :: 0 <= k < |os| && fault(os[..k], os[k]).Some?
  {
    if os != [] {
      var init := os[..|os| - 1];
      FirstOptionFaultExists(init, fault);
      assert forall k :: 0 <= k < |init| ==> init[..k] == os[..k] && init[k] == os[k];
    }
  }

  lemma {:induction false} OptionFaultStays(os: Options, n: nat, fault: FaultFn)
    requires n <= |os| && FirstOptionFault(os[..n], fault).Some?
    ensures FirstOptionFault(os, fault) == FirstOptionFault(os[..n], fault)
    decreases |os| - n
  {
    if n < |os| {
      assert os[..n + 1][..n] == os[..n];
      OptionFaultStays(os, n + 1, fault);
    } else {
      assert os[..n] == os;
    }
  }

  function IdentReason(os: Options): Option<Reason> {
    var fault := FirstOptionFault(os, IdentFault);
    if fault.Some? then fault
    else if Count(os, "sid") == 0 then Some(MissingSid)
    else if Count(os, "msg") == 0 then Some(MissingMsg)
    else None
  }

  datatype Identification = Identification(msg: string, sid: int, rev: int, classtype: Option<string>, priority: int,
      passive: Options)

  /** The passive options, in order and as written. */
  function Passive(os: Options): Options {
    if os == [] then []
    else Passive(os[..|os| - 1]) + if os[|os| - 1].key in PASSIVE_KEYWORDS then [os[|os| - 1]] else []
  }

  /** The text of msg, the sid, the revision and so on as the options of those names give them. */
  datatype Found = Found(
    seen: set<string>,
    msg: Option<string>,
    sid: Option<nat>,
    rev: Option<nat>,
    classtype: Option<string>,
    priority: Option<nat>,
    passive: Options)

  function FoundIn(os: Options): Found {
    Found((set k | k in IDENTIFICATION_KEYWORDS && Count(os, k) > 0),
          Unquoted(ValueOf(os, "msg")),
          Positive(ValueOf(os, "sid")),
          Positive(ValueOf(os, "rev")),
          ValueOf(os, "classtype"),
          Positive(ValueOf(os, "priority")),
          Passive(os))
  }

  function Or(n: Option<nat>, default: int): int {
    if n.Some? then n.value else default
  }

  /** What one more option adds. */
  function Add(f: Found, o: OptionPair): Found {
    if o.key in PASSIVE_KEYWORDS then f.(passive := f.passive + [o])
    else if o.key !in IDENTIFICATION_KEYWORDS then f
    else
      var g := f.(seen := f.seen + {o.key});
      if o.key == "msg" then g.(msg := Unquoted(o.value))
      else if o.key == "sid" then g.(sid := Positive(o.value))
      else if o.key == "rev" then g.(rev := Positive(o.value))
      else if o.key == "priority" then g.(priority := Positive(o.value))
      else g.(classtype := o.value)
  }

  lemma FoundMore(os: Options, o: OptionPair)
    ensures FoundIn(os + [o]) == Add(FoundIn(os), o)
  {
    hide Unquoted, Positive;
    var all := os + [o];
    assert all[..|os|] == os && all[|os|] == o;
    var seen, more := FoundIn(os).seen, FoundIn(all).seen;
    if o.key in IDENTIFICATION_KEYWORDS {
      assert more == seen + {o.key};
    } else {
      assert more == seen;
    }
  }

  /** With no fault, an option that is present has a value. */
  lemma {:induction false} NoFaultMeansRead(os: Options)
    requires FirstOptionFault(os, IdentFault).None?
    ensures FoundIn(os).msg.Some? <==> Count(os, "msg") > 0
    ensures FoundIn(os).sid.Some? <==> Count(os, "sid") > 0
  {
    hide Unquoted, Positive, IsClassType;
    if os == [] {
      NothingFound();
    } else {
      NoFaultMeansRead(os[..|os| - 1]);
    }
  }

  lemma NothingFound()
    ensures FoundIn([]) == Found({}, None, None, None, None, None, [])
  {
  }

  predicate Identifies(d: Identification, f: Found, defaultPriority: int) {
    && f.msg == Some(d.msg) && f.sid.Some? && d.sid == f.sid.value
    && d.rev == Or(f.rev, 1) && d.priority == Or(f.priority, defaultPriority)
    && d.classtype == f.classtype && d.passive == f.passive
  }

  /** parse_identification. */
  method ParseIdentification(os: Options, defaultPriority: int) returns (r: Result<Identification>)
    ensures r.Err? <==> IdentReason(os).Some?
    ensures r.Err? ==> Some(r.reason) == IdentReason(os)
    ensures r.Ok? ==> Identifies(r.value, FoundIn(os), defaultPriority)
  {
    hide FirstOptionFault, FoundIn, Unquoted, Positive, IsClassType, Count;
    var seen: set<string> := {};
    var msg: Option<string>, sid: Option<nat>, rev: Option<nat> := None, None, None;
    var classtype: Option<string>, priority: Option<nat>, passive: Options := None, None, [];
    var i := 0;
    NothingFound();
    NoFaultYet(IdentFault);
    assert os[..0] == [];
    while i < |os|
      invariant 0 <= i <= |os| && FirstOptionFault(os[..i], IdentFault).None?
      invariant Found(seen, msg, sid, rev, classtype, priority, passive) == FoundIn(os[..i])
    {
      var o := os[i];
      assert os[..i + 1] == os[..i] + [o];
      FoundMore(os[..i], o);
      OneMoreFault(os[..i], o, IdentFault);
      SeenIsCounted(os[..i]);
      i := i + 1;
      if o.key in PASSIVE_KEYWORDS {
        passive := passive + [o];
        continue;
      }
      if o.key !in IDENTIFICATION_KEYWORDS { continue; }
      if o.key in seen {
        OptionFaultStays(os, i, IdentFault);
        return Err(DuplicateOption(o.key));
      }
      seen := seen + {o.key};
      if o.key == "msg" {
        msg := Unquoted(o.value);
        if msg.None? {
          OptionFaultStays(os, i, IdentFault);
          return Err(MissingMsg);
        }
      } else if o.key == "sid" {
        sid := Positive(o.value);
        if sid.None? {
          OptionFaultStays(os, i, IdentFault);
          return Err(BadSid);
        }
      } else if o.key == "rev" {
        rev := Positive(o.value);
        if rev.None? {
          OptionFaultStays(os, i, IdentFault);
          return Err(BadOptionValue(o.key));
        }
      } else if o.key == "priority" {
        priority := Positive(o.value);
        if priority.None? {
          OptionFaultStays(os, i, IdentFault);
          return Err(BadOptionValue(o.key));
        }
      } else {
        if !IsClassType(o.value) {
          OptionFaultStays(os, i, IdentFault);
          return Err(BadOptionValue(o.key));
        }
        classtype := o.value;
      }
    }
    assert os[..i] == os;
    NoFaultMeansRead(os);
    if sid.None? { return Err(MissingSid); }
    if msg.None? { return Err(MissingMsg); }
    r := Ok(Identification(msg.value, sid.value, Or(rev, 1), classtype, Or(priority, defaultPriority), passive));
  }

  lemma NoFaultYet(fault: FaultFn)
    ensures FirstOptionFault([], fault).None?
  {
  }

  lemma OneMoreFault(os: Options, o: OptionPair, fault: FaultFn)
    ensures FirstOptionFault(os + [o], fault)
            == if FirstOptionFault(os, fault).Some? then FirstOptionFault(os, fault) else fault(os, o)
  {
    assert (os + [o])[..|os|] == os;
  }

  lemma SeenIsCounted(os: Options)
    ensures forall k :: k in FoundIn(os).seen <==> k in IDENTIFICATION_KEYWORDS && Count(os, k) > 0
  {
  }

  // ---------------------------------------------------------------- content and its modifiers

  /** _modifier_value; the number is meaningless for nocase. */
  function ModifierValue(key: string, v: Option<string>): Option<int> {
    if key == "nocase" then if v.None? then Some(1) else None
    else if v.None? then None
    else if key == "distance" then
      var negative := v.value != [] && v.value[0] == '-';
      var n := NonNegative(if negative then v.value[1..] else v.value);
      if n.None? then None
      else
        var m: int := n.value;
        Some(if negative then -m else m)
    else
      var n := NonNegative(v.value);
      if n.None? || (key == "within" && n.value < 1) then None else Some(n.value)
  }

  function WithModifier(c: CM.ContentSpec, key: string, v: Option<string>): CM.ContentSpec {
    var n := ModifierValue(key, v);
    if key == "nocase" then c.(nocase := true)
    else if key == "offset" then c.(offset := n)
    else if key == "depth" then c.(depth := n)
    else if key == "distance" then c.(distance := n)
    else c.(within := n)
  }

  /** A content option, the text of a negated one included. */
  function FullContent(v: Option<string>): Result<Content> {
    if v.Some? && Negated(v.value) then DecodedContent(Some(v.value[1..])) else DecodedContent(v)
  }

  /** The modifiers given so far to the content being built, or None before the first content. */
  function Open(before: Options): Option<set<string>> {
    if before == [] then None
    else
      var o, earlier := before[|before| - 1], Open(before[..|before| - 1]);
      if o.key == "content" then Some({})
      else if o.key in CONTENT_MODIFIERS && earlier.Some? then Some(earlier.value + {o.key})
      else earlier
  }

  /** What is wrong with a content or modifier that comes after `before`. */
  function ContentFault(before: Options, o: OptionPair): Option<Reason> {
    if o.key == "content" then
      var c := FullContent(o.value);
      if c.Err? then Some(c.reason) else None
    else if o.key !in CONTENT_MODIFIERS then None
    else if Open(before).None? then Some(ModifierWithoutContent)
    else if o.key in Open(before).value then Some(DuplicateOption(o.key))
    else if ModifierValue(o.key, o.value).None? then Some(BadOptionValue(o.key))
    else None
  }

  function Bare(c: Content): CM.ContentSpec {
    CM.ContentSpec(c.raw, c.pattern, false, None, None, None, None)
  }

  /** The contents in order, each with the modifiers that follow it. */
  function Specs(os: Options): seq<CM.ContentSpec> {
    if os == [] then []
    else
      var o, before := os[|os| - 1], Specs(os[..|os| - 1]);
      if o.key == "content" then
        if FullContent(o.value).Ok? then before + [Bare(FullContent(o.value).value)] else before
      else if o.key in CONTENT_MODIFIERS && before != [] then
        before[..|before| - 1] + [WithModifier(before[|before| - 1], o.key, o.value)]
      else before
  }

  /** Some content is negated. */
  predicate HasNegated(os: Options) {
    os != [] && (HasNegated(os[..|os| - 1])
                 || (os[|os| - 1].key == "content" && os[|os| - 1].value.Some? && Negated(os[|os| - 1].value.value)))
  }

  /** The list with the content being built closed. */
  function Closed(contents: seq<CM.ContentSpec>, current: Option<CM.ContentSpec>): seq<CM.ContentSpec> {
    contents + if current.Some? then [current.value] else []
  }

  lemma ContentsMore(os: Options, o: OptionPair)
    ensures Open(os + [o]) == (if o.key == "content" then Some({})
                               else if o.key in CONTENT_MODIFIERS && Open(os).Some? then Some(Open(os).value + {o.key})
                               else Open(os))
    ensures Specs(os + [o])
            == (if o.key == "content" then
                  if FullContent(o.value).Ok? then Specs(os) + [Bare(FullContent(o.value).value)] else Specs(os)
                else if o.key in CONTENT_MODIFIERS && Specs(os) != [] then
                  Specs(os)[..|Specs(os)| - 1] + [WithModifier(Specs(os)[|Specs(os)| - 1], o.key, o.value)]
                else Specs(os))
    ensures HasNegated(os + [o])
            <==> HasNegated(os) || (o.key == "content" && o.value.Some? && Negated(o.value.value))
  {
    hide FullContent, WithModifier, Negated;
    assert (os + [o])[..|os|] == os && (os + [o])[|os|] == o;
  }

  lemma NoContentYet()
    ensures Open([]) == None && Specs([]) == [] && !HasNegated([])
  {
  }

  /** parse_contents_full. */
  method ParseContentsFull(os: Options) returns (r: Result<(seq<CM.ContentSpec>, bool)>)
    ensures r.Err? <==> FirstOptionFault(os, ContentFault).Some?
    ensures r.Err? ==> Some(r.reason) == FirstOptionFault(os, ContentFault)
    ensures r.Ok? ==> r.value == (Specs(os), HasNegated(os))
  {
    hide FirstOptionFault, Open, Specs, HasNegated, DecodedContent, WithModifier, ModifierValue, Negated;
    var contents: seq<CM.ContentSpec>, current: Option<CM.ContentSpec>, seen: set<string> := [], None, {};
    var unsupported := false;
    var i := 0;
    NoContentYet();
    NoFaultYet(ContentFault);
    assert os[..0] == [];
    while i < |os|
      invariant 0 <= i <= |os| && FirstOptionFault(os[..i], ContentFault).None?
      invariant Open(os[..i]) == (if current.Some? then Some(seen) else None)
      invariant Specs(os[..i]) == Closed(contents, current) && unsupported == HasNegated(os[..i])
    {
      var o := os[i];
      assert os[..i + 1] == os[..i] + [o];
      ContentsMore(os[..i], o);
      OneMoreFault(os[..i], o, ContentFault);
      i := i + 1;
      if o.key == "content" {
        contents := Closed(contents, current);
        var negated := o.value.Some? && Negated(o.value.value);
        var c := DecodeFull(o.value);
        if c.Err? {
          OptionFaultStays(os, i, ContentFault);
          return Err(c.reason);
        }
        unsupported := unsupported || negated;
        current, seen := Some(Bare(c.value)), {};
      } else if o.key in CONTENT_MODIFIERS {
        if current.None? {
          OptionFaultStays(os, i, ContentFault);
          return Err(ModifierWithoutContent);
        }
        if o.key in seen {
          OptionFaultStays(os, i, ContentFault);
          return Err(DuplicateOption(o.key));
        }
        seen := seen + {o.key};
        if ModifierValue(o.key, o.value).None? {
          OptionFaultStays(os, i, ContentFault);
          return Err(BadOptionValue(o.key));
        }
        assert Closed(contents, current)[..|contents|] == contents;
        current := Some(WithModifier(current.value, o.key, o.value));
      }
    }
    assert os[..i] == os;
    contents := Closed(contents, current);
    r := Ok((contents, unsupported));
  }

  /** Decode a content; a negated one is decoded again without its '!'. */
  method DecodeFull(v: Option<string>) returns (r: Result<Content>)
    ensures r == FullContent(v)
  {
    hide Decode, Quoted;
    r := DecodeContent(v);
    if r == Err(UnsupportedContentNegation) {
      NegationOnly(v);
      r := DecodeContent(Some(v.value[1..]));
    }
  }

  lemma NegationOnly(v: Option<string>)
    ensures DecodedContent(v) == Err(UnsupportedContentNegation) <==> v.Some? && Negated(v.value)
  {
  }

  // ---------------------------------------------------------------- options given at most once

  /** What an option that may stand once parses to: an error if it stands twice. */
  function Once<T>(os: Options, key: string, parse: Option<string> -> Result<T>): Result<Option<T>> {
    if Count(os, key) > 1 then Err(DuplicateOption(key))
    else if Count(os, key) == 0 then Ok(None)
    else
      match parse(ValueOf(os, key))
      case Ok(v) => Ok(Some(v))
      case Err(reason) => Err(reason)
  }

  /** _single_option. */
  method SingleOption(os: Options, key: string) returns (r: Result<(bool, Option<string>)>)
    ensures r == if Count(os, key) > 1 then Err(DuplicateOption(key)) else Ok((Count(os, key) == 1, ValueOf(os, key)))
  {
    var found, value := false, None;
    var i := 0;
    while i < |os|
      invariant 0 <= i <= |os|
      invariant Count(os[..i], key) == (if found then 1 else 0) && value == ValueOf(os[..i], key)
    {
      assert os[..i + 1][..i] == os[..i];
      if os[i].key == key {
        if found {
          CountGrows(os, i + 1, key);
          return Err(DuplicateOption(key));
        }
        found, value := true, os[i].value;
      }
      i := i + 1;
    }
    assert os[..i] == os;
    r := Ok((found, value));
  }

  lemma {:induction false} CountGrows(os: Options, n: nat, key: string)
    requires n <= |os|
    ensures Count(os[..n], key) <= Count(os, key)
    decreases |os| - n
  {
    if n < |os| {
      assert os[..n + 1][..n] == os[..n];
      CountGrows(os, n + 1, key);
    } else {
      assert os[..n] == os;
    }
  }

  method ParseOnce<T>(os: Options, key: string, parse: Option<string> -> Result<T>) returns (r: Result<Option<T>>)
    ensures r == Once(os, key, parse)
  {
    var s := SingleOption(os, key);
    if s.Err? { return Err(s.reason); }
    if !s.value.0 { return Ok(None); }
    var v := parse(s.value.1);
    r := match v case Ok(x) => Ok(Some(x)) case Err(reason) => Err(reason);
  }

  // ---------------------------------------------------------------- checks across options

  predicate ContentConflicts(c: CM.ContentSpec) {
    || (c.depth.Some? && c.depth.value < |c.pattern|)
    || (c.within.Some? && c.within.value < |c.pattern|)
    || ((c.offset.Some? || c.depth.Some?) && (c.distance.Some? || c.within.Some?))
  }

  function ConflictOf(c: CM.ContentSpec): Reason
    requires ContentConflicts(c)
  {
    if c.depth.Some? && c.depth.value < |c.pattern| then DepthLtPattern
    else if c.within.Some? && c.within.value < |c.pattern| then WithinLtPattern
    else MixedAbsoluteRelative
  }

  function FirstConflict(cs: seq<CM.ContentSpec>): Option<Reason> {
    if cs == [] then None
    else if ContentConflicts(cs[0]) then Some(ConflictOf(cs[0]))
    else FirstConflict(cs[1..])
  }

  /** validate_contents. */
  method ValidateContents(cs: seq<CM.ContentSpec>) returns (r: Option<Reason>)
    ensures r == FirstConflict(cs)
  {
    var i := 0;
    while i < |cs|
      invariant 0 <= i <= |cs| && FirstConflict(cs[i..]) == FirstConflict(cs)
    {
      var c := cs[i];
      assert cs[i..][0] == c && cs[i..][1..] == cs[i + 1..];
      if c.depth.Some? && c.depth.value < |c.pattern| { return Some(DepthLtPattern); }
      if c.within.Some? && c.within.value < |c.pattern| { return Some(WithinLtPattern); }
      if (c.offset.Some? || c.depth.Some?) && (c.distance.Some? || c.within.Some?) {
        return Some(MixedAbsoluteRelative);
      }
      i := i + 1;
    }
    r := None;
  }

  lemma {:induction false} FirstConflictExists(cs: seq<CM.ContentSpec>)
    ensures FirstConflict(cs).Some? <==> exists c :: c in cs && ContentConflicts(c)
  {
    if cs != [] {
      FirstConflictExists(cs[1..]);
      assert cs == [cs[0]] + cs[1..];
    }
  }

  predicate IsUnknown(o: OptionPair) {
    o.key !in SUPPORTED_KEYWORDS
  }

  /** unsupported_keyword. */
  function UnknownKeyword(os: Options): Option<Reason> {
    if os == [] then None
    else if IsUnknown(os[0]) then Some(UnsupportedKeyword(os[0].key))
    else UnknownKeyword(os[1..])
  }

  lemma {:induction false} UnknownKeywordExists(os: Options)
    ensures UnknownKeyword(os).Some? <==> exists k :: 0 <= k < |os| && IsUnknown(os[k])
    ensures UnknownKeyword(os).Some? ==> UnknownKeyword(os).value.UnsupportedKeyword?
  {
    if os != [] {
      UnknownKeywordExists(os[1..]);
      if exists k :: 0 <= k < |os| && IsUnknown(os[k]) {
        var k :| 0 <= k < |os| && IsUnknown(os[k]);
        assert k > 0 ==> os[1..][k - 1] == os[k];
      }
      if j :| 0 <= j < |os| - 1 && IsUnknown(os[1..][j]) {
        assert os[j + 1] == os[1..][j];
      }
    }
  }

  // ---------------------------------------------------------------- the classification

  function ErrorOf<T>(r: Result<T>): Option<Reason> {
    match r
    case Ok(_) => None
    case Err(reason) => Some(reason)
  }

  function InvalidOf(r: Option<Reason>): Option<Reason> {
    if r.Some? && r.value.IsInvalid() then r else None
  }

  function UnsupportedOf(r: Option<Reason>): Option<Reason> {
    if r.Some? && !r.value.IsInvalid() then r else None
  }

  /** The first reason there is. */
  function First(a: Option<Reason>, b: Option<Reason>): Option<Reason> {
    if a.Some? then a else b
  }

  function FlowReason(os: Options): Option<Reason> { ErrorOf(Once(os, "flow", FlowValue)) }

  function FlagsReason(os: Options): Option<Reason> { ErrorOf(Once(os, "flags", FlagsValue)) }

  function DsizeReason(os: Options): Option<Reason> { ErrorOf(Once(os, "dsize", DsizeValue)) }

  function InvalidMatch(os: Options): Option<Reason> {
    First(InvalidOf(FlowReason(os)), First(InvalidOf(FlagsReason(os)), InvalidOf(DsizeReason(os))))
  }

  function AsList(r: Option<Reason>): seq<Reason> {
    if r.Some? then [r.value] else []
  }

  /** The unsupported codes of flow, flags and dsize, in this order. */
  function UnsupportedCodes(os: Options): seq<Reason> {
    AsList(UnsupportedOf(FlowReason(os))) + AsList(UnsupportedOf(FlagsReason(os)))
    + AsList(UnsupportedOf(DsizeReason(os)))
  }

  function UnsupportedMatch(os: Options): Option<Reason> {
    if UnsupportedCodes(os) == [] then None else Some(UnsupportedCodes(os)[0])
  }

  function FlagsNeedTcp(h: seq<string>, os: Options): Option<Reason> {
    if |h| > 1 && h[1] == "udp" && Count(os, "flags") > 0 then Some(FlagsRequiresTcp) else None
  }

  /** The invalid code a rule is reported with, if any check reports one. */
  function InvalidReason(h: seq<string>, os: Options, net: NetFn): Option<Reason> {
    First(HeaderInvalid(h, net),
    First(IdentReason(os),
    First(FirstOptionFault(os, ContentFault),
    First(InvalidMatch(os),
    First(FirstConflict(Specs(os)), FlagsNeedTcp(h, os))))))
  }

  /** The unsupported code of a rule no check finds invalid. */
  function UnsupportedReason(h: seq<string>, os: Options, net: NetFn): Option<Reason> {
    First(HeaderUnsupported(h, net),
    First(if HasNegated(os) then Some(UnsupportedContentNegation) else None,
    First(UnsupportedMatch(os), UnknownKeyword(os))))
  }

  /** _best_effort_sid */
  function BestEffortSid(os: Options): Option<int> {
    if Count(os, "sid") != 1 then None
    else
      var n := Positive(ValueOf(os, "sid"));
      if n.None? then None else Some(n.value)
  }

  /** What a rule line is read with, besides its text: the default priority and where it stands. */
  datatype Setting = Setting(net: NetFn, defaultPriority: int, origin: Origin)

  /** r is the rule the header and the options stand for. */
  predicate IsRule(r: Rule, h: seq<string>, os: Options, g: Setting) {
    && |h| == HEADER_TOKEN_COUNT
    && ParseProtocol(h[1]) == Ok(r.protocol)
    && ParseIp(h[2], g.net) == Ok(r.srcIp) && ParsePort(h[3]) == Ok(r.srcPort)
    && ParseDirection(h[4]) == Ok(r.direction)
    && ParseIp(h[5], g.net) == Ok(r.dstIp) && ParsePort(h[6]) == Ok(r.dstPort)
    && IsAbout(r, FoundIn(os), g)
    && r.contents == Specs(os)
    && Once(os, "flow", FlowValue) == Ok(r.flow)
    && Once(os, "flags", FlagsValue) == Ok(r.flags)
    && Once(os, "dsize", DsizeValue) == Ok(r.dsize)
  }

  /** The identification of the rule; rev is 1 and priority the default when absent. */
  predicate IsAbout(r: Rule, f: Found, g: Setting) {
    && f.msg == Some(r.msg) && f.sid.Some? && r.sid == f.sid.value
    && r.rev == Or(f.rev, 1) && r.priority == Or(f.priority, g.defaultPriority)
    && r.classtype == f.classtype && r.passive == f.passive && r.origin == g.origin
  }

  /** A rule without invalid or unsupported parts has all its parts. */
  lemma AllPartsRead(h: seq<string>, os: Options, net: NetFn)
    requires InvalidReason(h, os, net).None? && UnsupportedReason(h, os, net).None?
    ensures |h| == HEADER_TOKEN_COUNT
    ensures forall i :: 0 <= i < |h| ==> ParseField(i, h[i], net).Ok?
    ensures FoundIn(os).msg.Some? && FoundIn(os).sid.Some?
    ensures Once(os, "flow", FlowValue).Ok? && Once(os, "flags", FlagsValue).Ok? && Once(os, "dsize", DsizeValue).Ok?
  {
    hide ParseField, FirstOptionFault, Specs, HasNegated, Once, FirstConflict, UnknownKeyword, Count, FoundIn,
         Reason.IsInvalid, FirstFault;
    HeaderKinds(h, net);
    FirstFaultExists(h, |h|, true, net);
    FirstFaultExists(h, |h|, false, net);
    forall i | 0 <= i < |h|
      ensures ParseField(i, h[i], net).Ok?
    {
      assert FieldFault(h, i, net).None?;
    }
    NoFaultMeansRead(os);
  }

  lemma PartsOfHeader(h: seq<string>, net: NetFn)
    requires |h| == HEADER_TOKEN_COUNT && forall i :: 0 <= i < |h| ==> ParseField(i, h[i], net).Ok?
    ensures ParseProtocol(h[1]).Ok? && ParseIp(h[2], net).Ok? && ParsePort(h[3]).Ok? && ParseDirection(h[4]).Ok?
    ensures ParseIp(h[5], net).Ok? && ParsePort(h[6]).Ok?
  {
    hide ParseIp, ParsePort;
    assert ParseField(1, h[1], net).Ok? && ParseField(2, h[2], net).Ok? && ParseField(3, h[3], net).Ok?;
    assert ParseField(4, h[4], net).Ok? && ParseField(5, h[5], net).Ok? && ParseField(6, h[6], net).Ok?;
  }

  function RuleOf(h: seq<string>, os: Options, g: Setting): (r: Rule)
    requires InvalidReason(h, os, g.net).None? && UnsupportedReason(h, os, g.net).None?
    ensures IsRule(r, h, os, g)
  {
    hide ParseField, ParseIp, ParsePort, ParseProtocol, ParseDirection, InvalidReason, UnsupportedReason, Once, Specs,
         FoundIn;
    AllPartsRead(h, os, g.net);
    PartsOfHeader(h, g.net);
    var f := FoundIn(os);
    Rule(ParseProtocol(h[1]).value, ParseIp(h[2], g.net).value, ParsePort(h[3]).value, ParseDirection(h[4]).value,
         ParseIp(h[5], g.net).value, ParsePort(h[6]).value,
         f.msg.value, f.sid.value, Or(f.rev, 1), f.classtype, Or(f.priority, g.defaultPriority), Specs(os),
         Once(os, "flow", FlowValue).value, Once(os, "flags", FlagsValue).value, Once(os, "dsize", DsizeValue).value,
         f.passive, g.origin)
  }

  /** How a tokenized line is classified: invalid codes first, then unsupported ones, else the rule. */
  function Classified(h: seq<string>, os: Options, g: Setting): ParseResult {
    var reason := First(InvalidReason(h, os, g.net), UnsupportedReason(h, os, g.net));
    if reason.Some? then Rejected(reason.value, BestEffortSid(os)) else Valid(RuleOf(h, os, g))
  }

  function ParsedLine(text: string, g: Setting): ParseResult {
    match Tokenized(text)
    case Err(reason) => Rejected(reason, None)
    case Ok(t) => Classified(t.header, t.options, g)
  }

  /** parse_rule as the loader is given it, with everything but the line fixed. */
  function Parser(net: NetFn, defaultPriority: int): ParseFn {
    (text: string, file: string, line: nat) => Some(ParsedLine(text,
        Setting(net, defaultPriority, Origin(file, line, text))))
  }

  /** _parse_rule. */
  method ParseRule(text: string, g: Setting) returns (r: ParseResult)
    ensures r == ParsedLine(text, g)
  {
    hide Tokenized, Classified;
    var t := TokenizeRule(text);
    if t.Err? { return Rejected(t.reason, None); }
    r := Classify(t.value.header, t.value.options, g);
  }

  datatype MatchOptions = MatchOptions(flow: Option<FlowSpec>, flags: Option<FlagsSpec>, dsize: Option<DsizeSpec>)

  /** flow, flags and dsize: the first invalid code, or the values and the unsupported codes in order. */
  method ParseMatchOptions(os: Options) returns (r: Result<MatchOptions>, unsupported: seq<Reason>)
    ensures r.Err? ==> Some(r.reason) == InvalidMatch(os)
    ensures r.Ok? ==> InvalidMatch(os).None? && unsupported == UnsupportedCodes(os)
    ensures r.Ok? && unsupported == [] ==>
              && Once(os, "flow", FlowValue) == Ok(r.value.flow) && Once(os, "flags", FlagsValue) == Ok(r.value.flags)
              && Once(os, "dsize", DsizeValue) == Ok(r.value.dsize)
  {
    hide Once, FlowValue, FlagsValue, DsizeValue, Reason.IsInvalid;
    unsupported := [];
    var flow := ParseOnce(os, "flow", FlowValue);
    if flow.Err? {
      if flow.reason.IsInvalid() { return Err(flow.reason), []; }
      unsupported := unsupported + [flow.reason];
    }
    var flags := ParseOnce(os, "flags", FlagsValue);
    if flags.Err? {
      if flags.reason.IsInvalid() { return Err(flags.reason), []; }
      unsupported := unsupported + [flags.reason];
    }
    var dsize := ParseOnce(os, "dsize", DsizeValue);
    if dsize.Err? {
      if dsize.reason.IsInvalid() { return Err(dsize.reason), []; }
      unsupported := unsupported + [dsize.reason];
    }
    r := Ok(MatchOptions(OrNone(flow), OrNone(flags), OrNone(dsize)));
  }

  function OrNone<T>(r: Result<Option<T>>): Option<T> {
    if r.Ok? then r.value else None
  }

  /** Steps 2 to 4 of _parse_rule. */
  method Classify(h: seq<string>, os: Options, g: Setting) returns (r: ParseResult)
    ensures r == Classified(h, os, g)
  {
    hide HeaderInvalid, HeaderUnsupported, IdentReason, FirstOptionFault, Specs, HasNegated, Once, FirstConflict,
         UnknownKeyword, Count, ValueOf, FoundIn, ParseField, Positive, InvalidMatch, UnsupportedCodes,
         Reason.IsInvalid, ParseIp, ParsePort, ParseProtocol, ParseDirection, BestEffortSid, RuleOf, IsRule;
    var sid := BestEffortSid(os);
    var unsupported: seq<Reason> := [];
    var header := ParseHeader(h, g.net);
    HeaderKinds(h, g.net);
    if header.Err? {
      if header.reason.IsInvalid() { return Rejected(header.reason, sid); }
      unsupported := unsupported + [header.reason];
    }
    var ident := ParseIdentification(os, g.defaultPriority);
    if ident.Err? { return Rejected(ident.reason, sid); }
    var contents := ParseContentsFull(os);
    if contents.Err? { return Rejected(contents.reason, sid); }
    if contents.value.1 {
      unsupported := unsupported + [UnsupportedContentNegation];
    }
    var matched, more := ParseMatchOptions(os);
    if matched.Err? { return Rejected(matched.reason, sid); }
    unsupported := unsupported + more;
    var conflict := ValidateContents(contents.value.0);
    if conflict.Some? { return Rejected(conflict.value, sid); }
    if Count(os, "flags") > 0 && h[1] == "udp" { return Rejected(FlagsRequiresTcp, sid); }
    var keyword := UnknownKeyword(os);
    if keyword.Some? {
      unsupported := unsupported + [keyword.value];
    }
    if unsupported != [] { return Rejected(unsupported[0], sid); }
    r := Valid(BuildRule(h, os, g, header.value, ident.value, contents.value.0, matched.value));
  }

  /** The Rule built at the end of _parse_rule, from what the parsers returned. */
  function BuildRule(h: seq<string>, os: Options, g: Setting, f: seq<Field>, d: Identification,
          contents: seq<CM.ContentSpec>,
                     m: MatchOptions): (r: Rule)
    requires |h| == |f| == HEADER_TOKEN_COUNT && forall i :: 0 <= i < |h| ==> ParseField(i, h[i], g.net) == Ok(f[i])
    requires Identifies(d, FoundIn(os), g.defaultPriority) && contents == Specs(os)
    requires Once(os, "flow", FlowValue) == Ok(m.flow) && Once(os, "flags", FlagsValue) == Ok(m.flags)
    requires Once(os, "dsize", DsizeValue) == Ok(m.dsize)
    requires InvalidReason(h, os, g.net).None? && UnsupportedReason(h, os, g.net).None?
    ensures r == RuleOf(h, os, g)
  {
    hide ParseField, ParseIp, ParsePort, ParseProtocol, ParseDirection, InvalidReason, UnsupportedReason, Once, Specs,
         FoundIn, RuleOf;
    FieldsAreRead(h, f, g.net);
    Rule(f[1].protocol, f[2].ip, f[3].port, f[4].direction, f[5].ip, f[6].port, d.msg, d.sid, d.rev, d.classtype,
        d.priority,
         contents, m.flow, m.flags, m.dsize, d.passive, g.origin)
  }

  lemma HeaderKinds(h: seq<string>, net: NetFn)
    ensures HeaderInvalid(h, net).Some? ==> HeaderInvalid(h, net).value.IsInvalid()
    ensures HeaderUnsupported(h, net).Some? ==> !HeaderUnsupported(h, net).value.IsInvalid()
    ensures HeaderUnsupported(h, net).Some? ==> |h| == HEADER_TOKEN_COUNT
    ensures HeaderInvalid(h, net).None? ==> |h| == HEADER_TOKEN_COUNT
  {
    if |h| == HEADER_TOKEN_COUNT {
      FirstFaultExists(h, |h|, true, net);
      FirstFaultExists(h, |h|, false, net);
    }
  }

  lemma FieldsAreRead(h: seq<string>, f: seq<Field>, net: NetFn)
    requires |h| == |f| == HEADER_TOKEN_COUNT
    requires forall i :: 0 <= i < |h| ==> ParseField(i, h[i], net) == Ok(f[i])
    ensures f[1].ProtocolField? && ParseProtocol(h[1]) == Ok(f[1].protocol)
    ensures f[2].IpField? && ParseIp(h[2], net) == Ok(f[2].ip)
    ensures f[3].PortField? && ParsePort(h[3]) == Ok(f[3].port)
    ensures f[4].DirectionField? && ParseDirection(h[4]) == Ok(f[4].direction)
    ensures f[5].IpField? && ParseIp(h[5], net) == Ok(f[5].ip)
    ensures f[6].PortField? && ParsePort(h[6]) == Ok(f[6].port)
  {
    hide ParseIp, ParsePort;
    assert ParseField(1, h[1], net) == Ok(f[1]) && ParseField(2, h[2], net) == Ok(f[2])
        && ParseField(3, h[3], net) == Ok(f[3]);
    assert ParseField(4, h[4], net) == Ok(f[4]) && ParseField(5, h[5], net) == Ok(f[5])
        && ParseField(6, h[6], net) == Ok(f[6]);
  }
}

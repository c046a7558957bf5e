/** Printing the contents of a rule with their modifiers, and reading them back. */
module ContentPrinter {
  import opened Common
  import opened PyText
  import opened RuleScanner
  import opened OptionText
  import opened OptionValues
  import opened RuleValidator
  import opened RuleClassification
  import CM = ContentMatcher
  import RT = RuleRoundTrip

  // ---------------------------------------------------------------- characters that need no escape

  /** Every character is visible ASCII and has no meaning to the option scanner. */
  predicate Nice(v: string) {
    forall i :: 0 <= i < |v| ==> '!' <= v[i] <= '~' && v[i] != '"' && v[i] != '\\' && v[i] != ';'
  }

  lemma NiceIsPlain(v: string)
    requires Nice(v)
    ensures RT.Plain(v) && Trim(v)
  {
  }

  lemma NiceAppend(a: string, b: string)
    requires Nice(a) && Nice(b)
    ensures Nice(a + b)
  {
  }

  lemma ShowIsNice(n: nat)
    ensures Nice(Show(n)) && Show(n) != ""
  {
    ShowReads(n);
  }

  predicate NiceKey(k: string) {
    k != "" && Nice(k) && ':' !in k
  }

  lemma IdentificationKeysAreNice()
    ensures NiceKey("msg") && NiceKey("sid") && NiceKey("rev") && NiceKey("priority") && NiceKey("classtype")
  {
  }

  lemma ContentKeysAreNice()
    ensures NiceKey("content") && NiceKey("nocase") && NiceKey("offset") && NiceKey("depth") && NiceKey("distance")
            && NiceKey("within")
  {
  }

  lemma MatchKeysAreNice()
    ensures NiceKey("flow") && NiceKey("flags") && NiceKey("dsize")
  {
  }

  lemma NiceIsGood(k: string, v: Option<string>)
    requires NiceKey(k) && (v.Some? ==> Nice(v.value))
    ensures RT.GoodOption(OptionPair(k, v))
  {
    hide RT.Clean;
    NiceIsPlain(k);
    if v.Some? {
      NiceIsPlain(v.value);
      RT.PlainIsClean(v.value);
    }
  }

  lemma QuotedIsGood(k: string, s: string)
    requires NiceKey(k) && RT.Sealed(s)
    ensures RT.GoodOption(OptionPair(k, Some(RT.Quote(s))))
  {
    hide RT.Clean, RT.Sealed;
    NiceIsPlain(k);
    RT.QuoteIsClean(s);
  }

  /** A text that decodes can stand between quotes. */
  lemma {:induction false} DecodableIsSealed(s: string, inHex: bool, ds: Digits)
    requires Decode(s, inHex, ds).Some?
    ensures RT.Sealed(s)
    decreases |s|
  {
    hide RT.Sealed, EncodeChar, FromHex;
    if s == [] {
      RT.PlainIsSealed([]);
    } else if !inHex && s[0] == '\\' {
      var head := s[..2];
      assert s == head + s[2..];
      EscapePairIsSealed(head);
      DecodableIsSealed(s[2..], false, []);
      RT.SealedAppend(head, s[2..]);
    } else {
      var head := s[..1];
      assert s == head + s[1..];
      RestDecodes(s, inHex, ds);
      RT.SealedAppend(head, s[1..]);
    }
  }

  lemma RestDecodes(s: string, inHex: bool, ds: Digits)
    requires s != [] && Decode(s, inHex, ds).Some? && (inHex || s[0] != '\\')
    ensures RT.Sealed(s[1..]) && RT.Sealed(s[..1])
    decreases |s|, 0
  {
    hide RT.Sealed, EncodeChar, FromHex;
    OneIsSealed(s[..1]);
    if inHex && s[0] != '|' {
      DecodableIsSealed(s[1..], true, if HexDigit(s[0]).Some? then ds + [HexDigit(s[0]).value] else ds);
    } else if !inHex && s[0] == '|' {
      DecodableIsSealed(s[1..], true, []);
    } else {
      DecodableIsSealed(s[1..], false, []);
    }
  }

  lemma OneIsSealed(p: string)
    requires |p| == 1 && p[0] != '\\' && p[0] != '"'
    ensures RT.Sealed(p)
  {
  }

  lemma EscapePairIsSealed(p: string)
    requires |p| == 2 && p[0] == '\\'
    ensures RT.Sealed(p)
  {
    var two: nat := |p|;
    assert Escaped(p, two - 1);
    assert Escaped(p, two) <==> p[two - 1] == '\\' && !Escaped(p, two - 1);
  }

  // ---------------------------------------------------------------- contents

  function Opt(key: string, v: Option<string>): Options {
    if v.None? then [] else [OptionPair(key, v)]
  }

  function ShowInt(n: int): string {
    if n < 0 then "-" + Show(-n) else Show(n)
  }

  function NumberText(n: Option<int>): Option<string> {
    if n.None? then None else Some(ShowInt(n.value))
  }

  /** A content option and its modifiers. */
  function ContentOptions(c: CM.ContentSpec): Options {
    [OptionPair("content", Some(RT.Quote(c.raw)))] + (if c.nocase then [OptionPair("nocase", None)] else [])
    + Opt("offset", NumberText(c.offset)) + Opt("depth", NumberText(c.depth))
    + Opt("distance", NumberText(c.distance)) + Opt("within", NumberText(c.within))
  }

  function ContentsOptions(cs: seq<CM.ContentSpec>): Options {
    if cs == [] then [] else ContentsOptions(cs[..|cs| - 1]) + ContentOptions(cs[|cs| - 1])
  }

  /** raw is a text of the pattern, and the numbers are in range. */
  predicate WritableContent(c: CM.ContentSpec) {
    SpecInRange(c) && DecodedContent(Some(RT.Quote(c.raw))) == Ok(Content(c.raw, c.pattern))
  }

  /** The options read without fault as the contents cs. */
  predicate Built(os: Options, cs: seq<CM.ContentSpec>) {
    FirstOptionFault(os, ContentFault).None? && Specs(os) == cs && !HasNegated(os)
  }

  /** ... of which the last one, b, has been given the modifiers `seen` so far. */
  predicate Building(os: Options, cs: seq<CM.ContentSpec>, b: CM.ContentSpec, seen: set<string>) {
    Built(os, cs + [b]) && Open(os) == Some(seen)
  }

  lemma StartContent(os: Options, cs: seq<CM.ContentSpec>, c: CM.ContentSpec)
    requires Built(os, cs) && WritableContent(c)
    ensures Building(os + [OptionPair("content", Some(RT.Quote(c.raw)))], cs, Bare(Content(c.raw, c.pattern)), {})
  {
    hide Open, Specs, HasNegated, FirstOptionFault, DecodedContent, Negated, SpecInRange;
    var o := OptionPair("content", Some(RT.Quote(c.raw)));
    RT.QuoteIsQuoted(c.raw);
    ContentsMore(os, o);
    OneMoreFault(os, o, ContentFault);
  }

  lemma AddModifier(os: Options, cs: seq<CM.ContentSpec>, b: CM.ContentSpec, seen: set<string>, key: string,
          v: Option<string>)
    requires Building(os, cs, b, seen) && key in CONTENT_MODIFIERS && key !in seen && ModifierValue(key, v).Some?
    ensures Building(os + [OptionPair(key, v)], cs, WithModifier(b, key, v), seen + {key})
  {
    hide Open, Specs, HasNegated, FirstOptionFault, DecodedContent, Negated, ModifierValue, WithModifier;
    var o := OptionPair(key, v);
    assert key != "content";
    ContentsMore(os, o);
    OneMoreFault(os, o, ContentFault);
    assert (cs + [b])[..|cs|] == cs && (cs + [b])[|cs|] == b;
  }

  lemma NumberIsRead(key: string, n: int)
    requires key in {"offset", "depth", "distance", "within"} && -MAX_OPTION_INT <= n <= MAX_OPTION_INT
    requires (key != "distance" ==> n >= 0) && (key == "within" ==> n >= 1)
    ensures ModifierValue(key, Some(ShowInt(n))) == Some(n)
  {
    hide NonNegative;
    var text := ShowInt(n);
    ShowReads(if n < 0 then -n else n);
    hide Show, AllDigits, Decimal;
    NumberOfShow(if n < 0 then -n else n);
    if n < 0 {
      assert text[0] == '-' && text[1..] == Show(-n);
    } else {
      DigitsArePlain(text, '-');
    }
  }

  function SetNumber(b: CM.ContentSpec, key: string, n: Option<int>): CM.ContentSpec {
    if key == "offset" then b.(offset := n)
    else if key == "depth" then b.(depth := n)
    else if key == "distance" then b.(distance := n)
    else b.(within := n)
  }

  predicate NumberInRange(key: string, n: Option<int>) {
    n.Some? ==> -MAX_OPTION_INT <= n.value <= MAX_OPTION_INT && (key != "distance" ==> n.value >= 0)
                && (key == "within" ==> n.value >= 1)
  }

  lemma AddNumber(os: Options, cs: seq<CM.ContentSpec>, b: CM.ContentSpec, seen: set<string>, key: string,
          n: Option<int>)
    returns (more: set<string>)
    requires Building(os, cs, b, seen) && key in {"offset", "depth", "distance", "within"} && key !in seen
             && NumberInRange(key, n)
    requires SetNumber(b, key, None) == b
    ensures Building(os + Opt(key, NumberText(n)), cs, SetNumber(b, key, n), more) && more <= seen + {key}
  {
    hide Building, ModifierValue, ShowInt;
    if n.None? {
      assert os + [] == os;
      more := seen;
    } else {
      NumberIsRead(key, n.value);
      AddModifier(os, cs, b, seen, key, NumberText(n));
      more := seen + {key};
    }
  }

  /** One printed content is read back. */
  lemma ContentIsRead(os: Options, cs: seq<CM.ContentSpec>, c: CM.ContentSpec)
    requires Built(os, cs) && WritableContent(c)
    ensures Built(os + ContentOptions(c), cs + [c])
  {
    hide Built, Specs, HasNegated, Open, FirstOptionFault, DecodedContent, ModifierValue, ShowInt, NumberText;
    StartContent(os, cs, c);
    var b0 := Bare(Content(c.raw, c.pattern));
    var o0 := os + [OptionPair("content", Some(RT.Quote(c.raw)))];
    var o1, b1, s1 := o0, b0, {};
    if c.nocase {
      NocaseIsRead();
      AddModifier(o0, cs, b0, {}, "nocase", None);
      o1, b1, s1 := o0 + [OptionPair("nocase", None)], b0.(nocase := true), {"nocase"};
      assert {} + {"nocase"} == {"nocase"};
    }
    KeysDiffer();
    hide Building;
    var s2 := AddNumber(o1, cs, b1, s1, "offset", c.offset);
    var o2, b2 := o1 + Opt("offset", NumberText(c.offset)), b1.(offset := c.offset);
    var s3 := AddNumber(o2, cs, b2, s2, "depth", c.depth);
    var o3, b3 := o2 + Opt("depth", NumberText(c.depth)), b2.(depth := c.depth);
    var s4 := AddNumber(o3, cs, b3, s3, "distance", c.distance);
    var o4, b4 := o3 + Opt("distance", NumberText(c.distance)), b3.(distance := c.distance);
    var s5 := AddNumber(o4, cs, b4, s4, "within", c.within);
    var o5 := o4 + Opt("within", NumberText(c.within));
    assert b4.(within := c.within) == c;
    Finish(o5, cs, c, s5);
    if !c.nocase {
      assert o0 + [] == o0;
    }
    assert o5 == os + ContentOptions(c);
  }

  lemma Finish(os: Options, cs: seq<CM.ContentSpec>, b: CM.ContentSpec, seen: set<string>)
    requires Building(os, cs, b, seen)
    ensures Built(os, cs + [b])
  {
  }

  lemma NocaseIsRead()
    ensures ModifierValue("nocase", None) == Some(1)
  {
  }

  lemma KeysDiffer()
    ensures "nocase" != "offset" && "nocase" != "depth" && "nocase" != "distance" && "nocase" != "within"
    ensures "offset" != "depth" && "offset" != "distance" && "offset" != "within"
    ensures "depth" != "distance" && "depth" != "within" && "distance" != "within"
  {
    assert "nocase"[0] == 'n' && "offset"[0] == 'o' && "within"[0] == 'w';
  }

  lemma {:induction false} ContentsAreRead(cs: seq<CM.ContentSpec>)
    requires forall c :: c in cs ==> WritableContent(c)
    ensures Built(ContentsOptions(cs), cs)
  {
    hide WritableContent, ContentOptions;
    if cs == [] {
      NothingBuilt();
    } else {
      var before := cs[..|cs| - 1];
      ContentsAreRead(before);
      ContentIsRead(ContentsOptions(before), before, cs[|cs| - 1]);
      assert before + [cs[|cs| - 1]] == cs;
    }
  }

  lemma NothingBuilt()
    ensures Built([], [])
  {
  }

  /** Options of other kinds change nothing about the contents. */
  lemma {:induction false} TailIsIgnored(os: Options, tail: Options, cs: seq<CM.ContentSpec>)
    requires Built(os, cs) && forall o :: o in tail ==> o.key !in CONTENT_MODIFIERS && o.key != "content"
    ensures Built(os + tail, cs)
    decreases |tail|
  {
    hide Open, Specs, HasNegated, FirstOptionFault, FullContent, ModifierValue, WithModifier;
    if tail == [] {
      assert os + tail == os;
    } else {
      var init, o := tail[..|tail| - 1], tail[|tail| - 1];
      assert os + tail == (os + init) + [o] && o in tail;
      assert forall x :: x in init ==> x in tail;
      TailIsIgnored(os, init, cs);
      ContentsMore(os + init, o);
      OneMoreFault(os + init, o, ContentFault);
    }
  }
}

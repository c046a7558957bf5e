/** Exactly which values unquote_string and decode_content of src/rules/parser.py accept, and as what. */
module OptionSpellings {
  import opened Common
  import opened RuleScanner
  import opened OptionText
  import RT = RuleRoundTrip

  // ---------------------------------------------------------------- quoted texts

  /** One character as it is written between quotes. */
  datatype Letter = Plain(c: char) | Escape(c: char)

  /** A quote and a backslash cannot stand for themselves. */
  predicate GoodLetter(x: Letter) {
    x.Plain? ==> x.c != '"' && x.c != '\\'
  }

  function WrittenLetter(x: Letter): string {
    if x.Plain? then [x.c] else ['\\', x.c]
  }

  /** A backslash before any other character than the three it escapes is kept. */
  function MeantLetter(x: Letter): string {
    if x.Escape? && !Escapable(x.c) then ['\\', x.c] else [x.c]
  }

  function Written(xs: seq<Letter>): string {
    if xs == [] then [] else WrittenLetter(xs[0]) + Written(xs[1..])
  }

  function Meant(xs: seq<Letter>): string {
    if xs == [] then [] else MeantLetter(xs[0]) + Meant(xs[1..])
  }

  predicate GoodLetters(xs: seq<Letter>) {
    forall i :: 0 <= i < |xs| ==> GoodLetter(xs[i])
  }

  lemma {:induction false} WrittenUnescapes(xs: seq<Letter>)
    requires GoodLetters(xs)
    ensures Unescape(Written(xs)) == Some(Meant(xs))
  {
    if xs != [] {
      WrittenUnescapes(xs[1..]);
      var head, rest := WrittenLetter(xs[0]), Written(xs[1..]);
      assert Written(xs) == head + rest && (head + rest)[|head|..] == rest;
    }
  }

  lemma {:induction false} UnescapedIsWritten(s: string) returns (xs: seq<Letter>)
    requires Unescape(s).Some?
    ensures GoodLetters(xs) && s == Written(xs) && Unescape(s).value == Meant(xs)
    decreases |s|
  {
    hide GoodLetter, WrittenLetter, MeantLetter;
    if s == [] {
      xs := [];
    } else {
      var x, tail := FirstLetter(s);
      var rest := UnescapedIsWritten(tail);
      xs := [x] + rest;
      assert xs[1..] == rest;
    }
  }

  lemma FirstLetter(s: string) returns (x: Letter, tail: string)
    requires s != [] && Unescape(s).Some?
    ensures GoodLetter(x) && s == WrittenLetter(x) + tail && |tail| < |s|
    ensures Unescape(tail).Some? && Unescape(s).value == MeantLetter(x) + Unescape(tail).value
  {
    x := if s[0] == '\\' then Escape(s[1]) else Plain(s[0]);
    tail := s[|WrittenLetter(x)|..];
  }

  lemma QuotedIsQuote(v: string)
    requires Quoted(v)
    ensures v == RT.Quote(v[1..|v| - 1])
  {
  }

  /** The value is the letters between quotes, and they mean t. */
  ghost predicate Spells(v: string, xs: seq<Letter>, t: string) {
    GoodLetters(xs) && v == RT.Quote(Written(xs)) && t == Meant(xs)
  }

  /** A value is unquoted to t exactly when it is a quoted run of letters that mean t. */
  lemma UnquotedExactly(v: string, t: string)
    ensures Unquoted(Some(v)) == Some(t) <==> exists xs :: Spells(v, xs, t)
  {
    hide Unescape, Written, Meant, GoodLetters, RT.Quote;
    if Unquoted(Some(v)) == Some(t) {
      var xs := UnescapedIsWritten(v[1..|v| - 1]);
      QuotedIsQuote(v);
      assert Spells(v, xs, t);
    }
    if xs :| Spells(v, xs, t) {
      RT.QuoteIsQuoted(Written(xs));
      WrittenUnescapes(xs);
    }
  }

  // ---------------------------------------------------------------- contents

  /** A letter of text, or a hex block with what stands between its bars. */
  datatype Part = Text(x: Letter) | Block(inner: string)

  function DigitOf(c: char): Digits {
    if HexDigit(c).Some? then [HexDigit(c).value] else []
  }

  function DigitsOf(inner: string): Digits {
    if inner == [] then [] else DigitOf(inner[0]) + DigitsOf(inner[1..])
  }

  predicate InBlock(c: char) {
    HexDigit(c).Some? || c == ' ' || c == '\t'
  }

  predicate HexText(inner: string) {
    forall i :: 0 <= i < |inner| ==> InBlock(inner[i])
  }

  /** Text must be encodable and '|' opens a block; a block holds an even number of digits and blanks. */
  predicate GoodPart(p: Part) {
    match p
    case Text(x) => GoodLetter(x) && (x.Plain? ==> x.c != '|') && EncodeChar(x.c).Some?
    case Block(inner) => HexText(inner) && |DigitsOf(inner)| % 2 == 0
  }

  function WrittenPart(p: Part): string {
    match p
    case Text(x) => WrittenLetter(x)
    case Block(inner) => ['|'] + inner + ['|']
  }

  /** The bytes of a part: UTF-8 for text, two digits a byte for a block. */
  function BytesOfPart(p: Part): seq<byte>
    requires GoodPart(p)
  {
    match p
    case Text(x) =>
      if x.Escape? && !Escapable(x.c) then [0x5C] + EncodeChar(x.c).value else EncodeChar(x.c).value
    case Block(inner) => FromHex(DigitsOf(inner))
  }

  predicate GoodParts(ps: seq<Part>) {
    forall i :: 0 <= i < |ps| ==> GoodPart(ps[i])
  }

  function WrittenParts(ps: seq<Part>): string {
    if ps == [] then [] else WrittenPart(ps[0]) + WrittenParts(ps[1..])
  }

  function BytesOfParts(ps: seq<Part>): seq<byte>
    requires GoodParts(ps)
  {
    if ps == [] then [] else BytesOfPart(ps[0]) + BytesOfParts(ps[1..])
  }

  /** Inside a block a character adds its digit, a blank adds none. */
  lemma BlockStep(s: string, ds: Digits)
    requires s != [] && s[0] != '|'
    ensures Decode(s, true, ds) == if InBlock(s[0]) then Decode(s[1..], true, ds + DigitOf(s[0])) else None
  {
    assert ds + [] == ds;
  }

  lemma BlockEnds(s: string, ds: Digits)
    requires s != [] && s[0] == '|'
    ensures |ds| % 2 == 0 ==> Decode(s, true, ds) == Prepend(FromHex(ds), Decode(s[1..], false, []))
    ensures |ds| % 2 == 1 ==> Decode(s, true, ds) == None
  {
  }

  lemma {:induction false} BlockDecodes(inner: string, ds: Digits, rest: string)
    requires HexText(inner) && |ds + DigitsOf(inner)| % 2 == 0
    ensures Decode(inner + ['|'] + rest, true, ds) == Prepend(FromHex(ds + DigitsOf(inner)), Decode(rest, false, []))
    decreases |inner|
  {
    hide FromHex, Decode, DigitOf;
    var s := inner + ['|'] + rest;
    if inner == [] {
      assert s[1..] == rest && ds + [] == ds;
      BlockEnds(s, ds);
    } else {
      assert s[1..] == inner[1..] + ['|'] + rest && InBlock(inner[0]);
      BlockStep(s, ds);
      assert ds + DigitOf(inner[0]) + DigitsOf(inner[1..]) == ds + DigitsOf(inner);
      BlockDecodes(inner[1..], ds + DigitOf(inner[0]), rest);
    }
  }

  lemma EscapablesEncode(c: char)
    ensures Escapable(c) ==> EncodeChar(c) == Some([c as int])
  {
  }

  lemma LetterDecodes(x: Letter, rest: string)
    requires GoodPart(Text(x))
    ensures Decode(WrittenLetter(x) + rest, false, []) == Prepend(BytesOfPart(Text(x)), Decode(rest, false, []))
  {
    hide FromHex, EncodeChar, HexDigit;
    var w := WrittenLetter(x);
    var s := w + rest;
    EscapablesEncode(x.c);
    assert s[|w|..] == rest && s[0] == w[0];
    if x.Escape? {
      assert s[1] == x.c;
    }
  }

  lemma BlockPartDecodes(inner: string, rest: string)
    requires GoodPart(Block(inner))
    ensures Decode(['|'] + inner + ['|'] + rest, false, [])
            == Prepend(FromHex(DigitsOf(inner)), Decode(rest, false, []))
  {
    hide FromHex, EncodeChar, HexDigit;
    var s := ['|'] + inner + ['|'] + rest;
    assert s[1..] == inner + ['|'] + rest && s[0] == '|' && [] + DigitsOf(inner) == DigitsOf(inner);
    BlockDecodes(inner, [], rest);
  }

  lemma PartDecodes(p: Part, rest: string)
    requires GoodPart(p)
    ensures Decode(WrittenPart(p) + rest, false, []) == Prepend(BytesOfPart(p), Decode(rest, false, []))
  {
    hide Decode, FromHex, EncodeChar, WrittenLetter, HexText;
    match p {
      case Text(x) => LetterDecodes(x, rest);
      case Block(inner) => BlockPartDecodes(inner, rest);
    }
  }

  lemma {:induction false} PartsDecode(ps: seq<Part>)
    requires GoodParts(ps)
    ensures Decode(WrittenParts(ps), false, []) == Some(BytesOfParts(ps))
  {
    hide Decode, WrittenPart, BytesOfPart, GoodPart;
    if ps == [] {
      NothingDecodes();
    } else {
      PartsDecode(ps[1..]);
      PartDecodes(ps[0], WrittenParts(ps[1..]));
    }
  }

  lemma NothingDecodes()
    ensures Decode([], false, []) == Some([])
  {
  }

  /** An open block runs to its bar. */
  lemma {:induction false} OpenBlockIsWritten(s: string, ds: Digits) returns (inner: string, rest: string)
    requires Decode(s, true, ds).Some?
    ensures HexText(inner) && s == inner + ['|'] + rest && |ds + DigitsOf(inner)| % 2 == 0
    ensures Decode(rest, false, []).Some? && |rest| < |s|
    decreases |s|
  {
    hide FromHex, Decode, DigitOf, InBlock;
    OpenIsNotEmpty(ds);
    if s[0] == '|' {
      inner, rest := [], s[1..];
      assert ds + [] == ds;
      BlockEnds(s, ds);
    } else {
      BlockStep(s, ds);
      var tail;
      tail, rest := OpenBlockIsWritten(s[1..], ds + DigitOf(s[0]));
      inner := [s[0]] + tail;
      assert inner[1..] == tail;
      assert ds + DigitOf(s[0]) + DigitsOf(tail) == ds + DigitsOf(inner);
    }
  }

  lemma OpenIsNotEmpty(ds: Digits)
    ensures Decode([], true, ds) == None
  {
  }

  lemma {:induction false} DecodedIsWritten(s: string) returns (ps: seq<Part>)
    requires Decode(s, false, []).Some?
    ensures GoodParts(ps) && s == WrittenParts(ps)
    decreases |s|
  {
    hide WrittenPart, GoodPart;
    if s == [] {
      ps := [];
    } else {
      var p, rest := FirstPart(s);
      var more := DecodedIsWritten(rest);
      ps := [p] + more;
      assert ps[1..] == more;
    }
  }

  lemma FirstPart(s: string) returns (p: Part, rest: string)
    requires s != [] && Decode(s, false, []).Some?
    ensures GoodPart(p) && s == WrittenPart(p) + rest && Decode(rest, false, []).Some? && |rest| < |s|
  {
    hide FromHex, EncodeChar, HexDigit;
    if s[0] == '|' {
      var inner;
      inner, rest := OpenBlockIsWritten(s[1..], []);
      p := Block(inner);
      assert [] + DigitsOf(inner) == DigitsOf(inner);
    } else {
      var x := if s[0] == '\\' then Escape(s[1]) else Plain(s[0]);
      EscapablesEncode(x.c);
      p, rest := Text(x), s[|WrittenLetter(x)|..];
    }
  }

  /** The value is the parts between quotes, and their bytes are bs. */
  ghost predicate SpellsContent(v: string, ps: seq<Part>, raw: string, bs: seq<byte>) {
    GoodParts(ps) && raw == WrittenParts(ps) && v == RT.Quote(raw) && bs == BytesOfParts(ps)
  }

  /** A content is accepted as bs exactly when it is a quoted run of text, escapes and even hex blocks
      of those bytes, and they are not empty. */
  lemma ContentExactly(v: string, raw: string, bs: seq<byte>)
    ensures DecodedContent(Some(v)) == Ok(Content(raw, bs)) <==> bs != [] && exists ps :: SpellsContent(v, ps, raw, bs)
  {
    hide Decode, WrittenParts, BytesOfParts, GoodParts, RT.Quote, Quoted, Negated;
    if DecodedContent(Some(v)) == Ok(Content(raw, bs)) {
      var ps := DecodedIsWritten(raw);
      PartsDecode(ps);
      QuotedIsQuote(v);
      assert SpellsContent(v, ps, raw, bs);
    }
    if ps :| SpellsContent(v, ps, raw, bs) {
      RT.QuoteIsQuoted(raw);
      PartsDecode(ps);
    }
  }

  /** A content is reported as negated exactly when its value opens with an exclamation mark and a quote. */
  lemma NegationExactly(v: string)
    ensures DecodedContent(Some(v)) == Err(UnsupportedContentNegation) <==> exists rest :: v == "!\"" + rest
  {
    hide Decode;
    if |v| >= 2 && v[0] == '!' && v[1] == '"' {
      assert v == "!\"" + v[2..];
    }
  }

  // ---------------------------------------------------------------- digits and UTF-8

  const LOWER := "0123456789abcdef"
  const UPPER := "0123456789ABCDEF"

  /** The character is the hex digit of value v, in either case. */
  predicate IsHex(c: char, v: nat) {
    v < 16 && (c == LOWER[v] || c == UPPER[v])
  }

  lemma HexExactly(c: char, v: nat)
    ensures HexDigit(c) == Some(v) <==> IsHex(c, v)
  {
  }

  /** inner writes each byte as two digits, in either case. */
  predicate HexPairs(inner: string, bs: seq<byte>) {
    && |inner| == 2 * |bs|
    && forall i :: 0 <= i < |bs| ==> IsHex(inner[2 * i], bs[i] / 16) && IsHex(inner[2 * i + 1], bs[i] % 16)
  }

  lemma TwoDigits(inner: string, b: byte)
    requires |inner| >= 2 && IsHex(inner[0], b / 16) && IsHex(inner[1], b % 16)
    ensures InBlock(inner[0]) && InBlock(inner[1])
    ensures DigitsOf(inner) == [b / 16, b % 16] + DigitsOf(inner[2..])
  {
    hide IsHex, HexDigit;
    HexExactly(inner[0], b / 16);
    HexExactly(inner[1], b % 16);
    assert inner[1..][1..] == inner[2..];
  }

  lemma NoPairs(inner: string)
    requires HexPairs(inner, [])
    ensures HexText(inner) && DigitsOf(inner) == [] && FromHex([]) == []
  {
  }

  lemma FirstPair(inner: string, bs: seq<byte>)
    requires HexPairs(inner, bs) && bs != []
    ensures |inner| >= 2 && IsHex(inner[0], bs[0] / 16) && IsHex(inner[1], bs[0] % 16)
  {
    hide IsHex;
    assert IsHex(inner[2 * 0], bs[0] / 16) && IsHex(inner[2 * 0 + 1], bs[0] % 16);
  }

  lemma TailIsPairs(inner: string, bs: seq<byte>)
    requires HexPairs(inner, bs) && bs != []
    ensures HexPairs(inner[2..], bs[1..])
  {
    hide IsHex;
    var rest := inner[2..];
    forall i | 0 <= i < |bs| - 1
      ensures IsHex(rest[2 * i], bs[1..][i] / 16) && IsHex(rest[2 * i + 1], bs[1..][i] % 16)
    {
      assert rest[2 * i] == inner[2 * (i + 1)] && rest[2 * i + 1] == inner[2 * (i + 1) + 1];
      assert bs[1..][i] == bs[i + 1];
    }
  }

  lemma HeadIsHex(inner: string)
    requires |inner| >= 2 && InBlock(inner[0]) && InBlock(inner[1]) && HexText(inner[2..])
    ensures HexText(inner)
  {
    hide InBlock;
    assert forall i :: 2 <= i < |inner| ==> inner[i] == inner[2..][i - 2];
  }

  lemma TwoFromHex(b: byte)
    ensures FromHex([b / 16, b % 16]) == [b]
  {
    assert [b / 16, b % 16][2..] == [] && 16 * (b / 16) + b % 16 == b;
  }

  lemma FromHexHead(b: byte, ds: Digits)
    requires |ds| % 2 == 0
    ensures FromHex([b / 16, b % 16] + ds) == [b] + FromHex(ds)
  {
    hide FromHex;
    TwoFromHex(b);
    var two: Digits := [b / 16, b % 16];
    RT.FromHexAppend(two, ds);
  }

  lemma {:induction false} PairsDecode(inner: string, bs: seq<byte>)
    requires HexPairs(inner, bs)
    ensures HexText(inner) && |DigitsOf(inner)| % 2 == 0 && FromHex(DigitsOf(inner)) == bs
  {
    hide IsHex, InBlock, HexPairs, FromHex, DigitsOf, HexText;
    if bs == [] {
      NoPairs(inner);
    } else {
      FirstPair(inner, bs);
      TwoDigits(inner, bs[0]);
      TailIsPairs(inner, bs);
      PairsDecode(inner[2..], bs[1..]);
      HeadIsHex(inner);
      FromHexHead(bs[0], DigitsOf(inner[2..]));
    }
  }

  /** A hex block reads as the bytes its digits spell, in either case. */
  lemma BlockSurvives(inner: string, bs: seq<byte>)
    requires HexPairs(inner, bs) && bs != []
    ensures DecodedContent(Some(RT.Quote("|" + inner + "|"))) == Ok(Content("|" + inner + "|", bs))
  {
    hide HexPairs, RT.Quote, DecodedContent, FromHex, HexText, DigitsOf;
    PairsDecode(inner, bs);
    var raw, ps := "|" + inner + "|", [Block(inner)];
    OneBlock(inner);
    assert SpellsContent(RT.Quote(raw), ps, raw, bs);
    ContentExactly(RT.Quote(raw), raw, bs);
  }

  lemma OneBlock(inner: string)
    requires GoodPart(Block(inner))
    ensures GoodParts([Block(inner)]) && WrittenParts([Block(inner)]) == "|" + inner + "|"
    ensures BytesOfParts([Block(inner)]) == FromHex(DigitsOf(inner))
  {
    var ps := [Block(inner)];
    assert ps[1..] == [] && WrittenParts([]) == [] && BytesOfParts([]) == [];
    assert WrittenPart(Block(inner)) + [] == "|" + inner + "|";
    assert FromHex(DigitsOf(inner)) + [] == FromHex(DigitsOf(inner));
  }

  predicate Continues(b: int) {
    0x80 <= b < 0xC0
  }

  /** The code point one UTF-8 sequence stands for, in its shortest form (section 3 of RFC 3629). */
  function CodePoint(b: seq<int>): Option<int> {
    if |b| == 1 && 0 <= b[0] < 0x80 then Some(b[0])
    else if |b| == 2 && 0xC2 <= b[0] < 0xE0 && Continues(b[1]) then Some((b[0] - 0xC0) * 0x40 + (b[1] - 0x80))
    else if |b| == 3 && 0xE0 <= b[0] < 0xF0 && Continues(b[1]) && Continues(b[2]) then
      var n := (b[0] - 0xE0) * 0x1000 + (b[1] - 0x80) * 0x40 + (b[2] - 0x80);
      if n < 0x800 then None else Some(n)
    else if |b| == 4 && 0xF0 <= b[0] < 0xF8 && Continues(b[1]) && Continues(b[2]) && Continues(b[3]) then
      var n := (b[0] - 0xF0) * 0x40000 + (b[1] - 0x80) * 0x1000 + (b[2] - 0x80) * 0x40 + (b[3] - 0x80);
      if n < 0x10000 then None else Some(n)
    else None
  }

  lemma DividesBack(n: nat)
    ensures n == n / 0x40 * 0x40 + n % 0x40
    ensures n / 0x40 == n / 0x1000 * 0x40 + n / 0x40 % 0x40
    ensures n / 0x1000 == n / 0x40000 * 0x40 + n / 0x1000 % 0x40
  {
  }

  /** The bytes of a character of text are its UTF-8 sequence. */
  lemma CharsAreUtf8(c: char)
    requires EncodeChar(c).Some?
    ensures CodePoint(EncodeChar(c).value) == Some(c as int)
  {
    DividesBack(c as int);
  }
}

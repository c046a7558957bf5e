/** Printing a rule and reading it back: tokens, option order, texts and bytes survive. */
module RuleRoundTrip {
  import opened Common
  import opened PyText
  import opened RuleScanner
  import opened OptionText

  // ---------------------------------------------------------------- printing

  /** Text between quotes: ';', '"' and the backslash are escaped. */
  function EscapeText(t: string): string {
    if t == [] then []
    else (if Escapable(t[0]) then ['\\', t[0]] else [t[0]]) + EscapeText(t[1..])
  }

  function Quote(s: string): string { ['"'] + s + ['"'] }

  lemma QuoteIsQuoted(s: string)
    ensures Quoted(Quote(s)) && !Negated(Quote(s)) && Quote(s)[1..|Quote(s)| - 1] == s
  {
  }

  const HEX := "0123456789ABCDEF"

  /** A hex block's inside: two digits and a blank per byte. */
  function HexText(bs: seq<byte>): string {
    if bs == [] then [] else [HEX[bs[0] / 16], HEX[bs[0] % 16], ' '] + HexText(bs[1..])
  }

  /** A run of bytes and how it is to be written: as escaped ASCII text or as a hex block. */
  datatype Chunk = AsText(bytes: seq<byte>) | AsHex(bytes: seq<byte>)

  /** Only ASCII other than '|' can be written as text; '|' has no escape. */
  predicate Printable(c: Chunk) {
    c.AsText? ==> forall i :: 0 <= i < |c.bytes| ==> c.bytes[i] < 0x80 && c.bytes[i] != 0x7C
  }

  function Chars(bs: seq<byte>): string {
    if bs == [] then [] else [bs[0] as char] + Chars(bs[1..])
  }

  function PrintChunk(c: Chunk): string {
    match c
    case AsText(bs) => EscapeText(Chars(bs))
    case AsHex(bs) => ['|'] + HexText(bs) + ['|']
  }

  function PrintChunks(cs: seq<Chunk>): string {
    if cs == [] then [] else PrintChunk(cs[0]) + PrintChunks(cs[1..])
  }

  function BytesOf(cs: seq<Chunk>): seq<byte> {
    if cs == [] then [] else cs[0].bytes + BytesOf(cs[1..])
  }

  function PrintOption(o: OptionPair): string {
    if o.value.None? then o.key else o.key + [':'] + o.value.value
  }

  function PrintOptions(os: seq<OptionPair>): string {
    if os == [] then [] else PrintOptions(os[..|os| - 1]) + PrintOption(os[|os| - 1]) + [';', ' ']
  }

  function PrintRule(header: seq<string>, os: seq<OptionPair>): string {
    Spaced(header) + ['('] + PrintOptions(os) + [')']
  }

  // ---------------------------------------------------------------- text

  /** Every text survives being escaped, quoted and unquoted. */
  lemma {:induction false} UnescapeEscapes(t: string, rest: string)
    ensures Unescape(EscapeText(t) + rest) == Prepend(t, Unescape(rest))
  {
    if t == [] {
      assert EscapeText(t) + rest == rest;
      PrependNothing(Unescape(rest));
    } else {
      var head := if Escapable(t[0]) then ['\\', t[0]] else [t[0]];
      var tail := EscapeText(t[1..]) + rest;
      UnescapeEscapes(t[1..], rest);
      assert EscapeText(t) + rest == head + tail;
      assert (head + tail)[|head|..] == tail;
      PrependAssoc([t[0]], t[1..], Unescape(rest));
      assert [t[0]] + t[1..] == t;
    }
  }

  lemma UnquoteQuotes(t: string)
    ensures var v := Quote(EscapeText(t)); Quoted(v) && Unescape(v[1..|v| - 1]) == Some(t)
  {
    var v := Quote(EscapeText(t));
    assert v[1..|v| - 1] == EscapeText(t) == EscapeText(t) + [];
    UnescapeEscapes(t, []);
    assert t + [] == t;
  }

  // ---------------------------------------------------------------- bytes

  lemma HexDigits(b: byte)
    ensures HexDigit(HEX[b / 16]) == Some(b / 16) && HexDigit(HEX[b % 16]) == Some(b % 16)
    ensures FromHex([b / 16, b % 16]) == [b]
  {
    HexDigitOf(b / 16);
    HexDigitOf(b % 16);
    assert [b / 16, b % 16][2..] == [];
  }

  lemma HexDigitOf(d: nat)
    requires d < 16
    ensures HexDigit(HEX[d]) == Some(d)
  {
  }

  lemma {:induction false} FromHexAppend(a: Digits, b: Digits)
    requires |a| % 2 == 0 && |b| % 2 == 0
    ensures FromHex(a + b) == FromHex(a) + FromHex(b)
  {
    if a == [] {
      assert a + b == b;
    } else {
      assert (a + b)[2..] == a[2..] + b;
      FromHexAppend(a[2..], b);
    }
  }

  /** One byte of a hex block, read. */
  lemma HexByteDecodes(b: byte, tail: string, ds: Digits)
    ensures Decode([HEX[b / 16], HEX[b % 16], ' '] + tail, true, ds) == Decode(tail, true, ds + [b / 16, b % 16])
  {
    var s := [HEX[b / 16], HEX[b % 16], ' '] + tail;
    HexDigits(b);
    hide HexDigit;
    assert s[1..] == [HEX[b % 16], ' '] + tail && s[1..][1..] == [' '] + tail && s[1..][1..][1..] == tail;
    assert HEX[b / 16] != '|' && HEX[b % 16] != '|';
    assert Decode(s, true, ds) == Decode(s[1..], true, ds + [b / 16]);
    assert ds + [b / 16] + [b % 16] == ds + [b / 16, b % 16];
    assert Decode(s[1..], true, ds + [b / 16]) == Decode(s[1..][1..], true, ds + [b / 16, b % 16]);
  }

  lemma BlockCloses(rest: string, ds: Digits)
    requires |ds| % 2 == 0
    ensures Decode(['|'] + rest, true, ds) == Prepend(FromHex(ds), Decode(rest, false, []))
  {
    assert (['|'] + rest)[1..] == rest;
  }

  lemma BlockOpens(inner: string)
    ensures Decode(['|'] + inner, false, []) == Decode(inner, true, [])
  {
    assert (['|'] + inner)[1..] == inner;
  }

  lemma {:induction false} HexTextDecodes(bs: seq<byte>, ds: Digits, rest: string)
    requires |ds| % 2 == 0
    ensures Decode(HexText(bs) + ['|'] + rest, true, ds) == Prepend(FromHex(ds) + bs, Decode(rest, false, []))
    decreases |bs|
  {
    hide Decode, FromHex;
    if bs == [] {
      assert HexText(bs) + ['|'] + rest == ['|'] + rest;
      BlockCloses(rest, ds);
      assert FromHex(ds) + bs == FromHex(ds);
    } else {
      var b := bs[0];
      var tail := HexText(bs[1..]) + ['|'] + rest;
      assert HexText(bs) + ['|'] + rest == [HEX[b / 16], HEX[b % 16], ' '] + tail;
      HexByteDecodes(b, tail, ds);
      HexTextDecodes(bs[1..], ds + [b / 16, b % 16], rest);
      FromHexAppend(ds, [b / 16, b % 16]);
      HexDigits(b);
      assert FromHex(ds) + [b] + bs[1..] == FromHex(ds) + bs;
    }
  }

  /** One character of text, read. */
  lemma TextByteDecodes(b: byte, tail: string)
    requires b < 0x80 && b != 0x7C
    ensures var c := b as char;
            Decode((if Escapable(c) then ['\\', c] else [c]) + tail, false, []) == Prepend([b], Decode(tail, false, []))
  {
    var c := b as char;
    if Escapable(c) {
      assert (['\\', c] + tail)[2..] == tail;
    } else {
      assert ([c] + tail)[1..] == tail;
    }
  }

  lemma EscapeCons(bs: seq<byte>)
    requires bs != [] && Printable(AsText(bs))
    ensures var c := bs[0] as char;
            EscapeText(Chars(bs)) == (if Escapable(c) then ['\\', c] else [c]) + EscapeText(Chars(bs[1..]))
  {
    assert Chars(bs)[1..] == Chars(bs[1..]);
  }

  lemma {:induction false} TextDecodes(bs: seq<byte>, rest: string)
    requires Printable(AsText(bs))
    ensures Decode(EscapeText(Chars(bs)) + rest, false, []) == Prepend(bs, Decode(rest, false, []))
  {
    hide Decode;
    if bs == [] {
      assert EscapeText(Chars(bs)) + rest == rest;
      PrependNothing(Decode(rest, false, []));
    } else {
      var c := bs[0] as char;
      var head := if Escapable(c) then ['\\', c] else [c];
      var tail := EscapeText(Chars(bs[1..])) + rest;
      EscapeCons(bs);
      assert EscapeText(Chars(bs)) + rest == head + tail;
      hide Chars, EscapeText, Escapable;
      TextByteDecodes(bs[0], tail);
      TextDecodes(bs[1..], rest);
      PrependAssoc([bs[0]], bs[1..], Decode(rest, false, []));
      assert [bs[0]] + bs[1..] == bs;
    }
  }

  lemma ChunkDecodes(c: Chunk, rest: string)
    requires Printable(c)
    ensures Decode(PrintChunk(c) + rest, false, []) == Prepend(c.bytes, Decode(rest, false, []))
  {
    match c
    case AsText(bs) => TextDecodes(bs, rest);
    case AsHex(bs) =>
      hide Decode;
      var inner := HexText(bs) + ['|'] + rest;
      assert PrintChunk(c) + rest == ['|'] + inner;
      BlockOpens(inner);
      HexTextDecodes(bs, [], rest);
      assert FromHex([]) + bs == bs;
  }

  lemma {:induction false} ChunksDecode(cs: seq<Chunk>)
    requires forall i :: 0 <= i < |cs| ==> Printable(cs[i])
    ensures Decode(PrintChunks(cs), false, []) == Some(BytesOf(cs))
  {
    if cs != [] {
      hide Decode, PrintChunk;
      ChunksDecode(cs[1..]);
      ChunkDecodes(cs[0], PrintChunks(cs[1..]));
    }
  }

  /** Every nonempty byte string, cut into chunks and written as text or hex in any mixture, is
      decoded to the same bytes. */
  lemma ContentSurvives(cs: seq<Chunk>)
    requires forall i :: 0 <= i < |cs| ==> Printable(cs[i])
    requires BytesOf(cs) != []
    ensures DecodedContent(Some(Quote(PrintChunks(cs)))) == Ok(Content(PrintChunks(cs), BytesOf(cs)))
  {
    hide Decode, PrintChunks, BytesOf, Quoted, Negated, Quote;
    QuoteIsQuoted(PrintChunks(cs));
    ChunksDecode(cs);
  }

  // ---------------------------------------------------------------- scanning a concatenation

  /** After s the scanner is outside quotes and not after a backslash. */
  predicate Neutral(s: string) {
    !Escaped(s, |s|) && !InQuote(s, |s|)
  }

  /** ... and nothing in s is a separator. */
  ghost predicate Clean(s: string) {
    Neutral(s) && forall i :: 0 <= i < |s| ==> !Cut(s, i)
  }

  lemma {:induction false} ScanPrefix(a: string, b: string, i: nat)
    requires i <= |a|
    ensures Escaped(a + b, i) == Escaped(a, i) && InQuote(a + b, i) == InQuote(a, i)
    ensures PiecesAt(a + b, i) == PiecesAt(a, i)
  {
    if i > 0 {
      ScanPrefix(a, b, i - 1);
    }
  }

  lemma {:induction false} EscapedAppend(a: string, b: string, i: nat)
    requires !Escaped(a, |a|) && i <= |b|
    ensures Escaped(a + b, |a| + i) == Escaped(b, i)
  {
    if i == 0 {
      ScanPrefix(a, b, |a|);
    } else {
      EscapedAppend(a, b, i - 1);
    }
  }

  lemma {:induction false} ScanAppend(a: string, b: string, i: nat)
    requires Neutral(a) && i <= |b|
    ensures Escaped(a + b, |a| + i) == Escaped(b, i) && InQuote(a + b, |a| + i) == InQuote(b, i)
  {
    EscapedAppend(a, b, i);
    if i == 0 {
      ScanPrefix(a, b, |a|);
    } else {
      ScanAppend(a, b, i - 1);
    }
  }

  lemma CutAppend(a: string, b: string, i: nat)
    requires Neutral(a) && i < |b|
    ensures (a + b)[|a| + i] == b[i] && Cut(a + b, |a| + i) == Cut(b, i)
  {
    ScanAppend(a, b, i);
  }

  lemma CleanAppend(a: string, b: string)
    requires Clean(a) && Clean(b)
    ensures Clean(a + b)
  {
    ScanAppend(a, b, |b|);
    forall i | 0 <= i < |a + b|
      ensures !Cut(a + b, i)
    {
      if i < |a| {
        ScanPrefix(a, b, i);
        assert !Cut(a, i);
      } else {
        var j := i - |a|;
        CutAppend(a, b, j);
        assert i == |a| + j && !Cut(b, j);
      }
    }
  }

  /** Appending clean text extends the piece being read. */
  lemma {:induction false} PiecesExtend(a: string, b: string, i: nat)
    requires Neutral(a) && Clean(b) && i <= |b|
    ensures PiecesAt(a + b, |a| + i) == (PiecesAt(a, |a|).0, PiecesAt(a, |a|).1 + b[..i])
  {
    if i == 0 {
      ScanPrefix(a, b, |a|);
      assert PiecesAt(a, |a|).1 + b[..0] == PiecesAt(a, |a|).1;
    } else {
      PiecesExtend(a, b, i - 1);
      CutAppend(a, b, i - 1);
      var j := |a| + i - 1;
      assert (a + b)[j] == b[i - 1] && !Cut(a + b, j);
      assert PiecesAt(a + b, j + 1) == (PiecesAt(a + b, j).0, PiecesAt(a + b, j).1 + [b[i - 1]]);
      assert PiecesAt(a, |a|).1 + b[..i - 1] + [b[i - 1]] == PiecesAt(a, |a|).1 + b[..i];
    }
  }

  /** A ';' after neutral text completes the piece. */
  lemma PieceCompletes(a: string)
    requires Neutral(a)
    ensures Neutral(a + [';']) && PiecesAt(a + [';'], |a| + 1) == (PiecesAt(a, |a|).0 + [PiecesAt(a, |a|).1], [])
  {
    ScanPrefix(a, [';'], |a|);
  }

  // ---------------------------------------------------------------- clean pieces of text

  predicate Plain(s: string) {
    forall i :: 0 <= i < |s| ==> s[i] != '"' && s[i] != '\\' && s[i] != ';'
  }

  lemma {:induction false} PlainNeutral(s: string, i: nat)
    requires Plain(s) && i <= |s|
    ensures !Escaped(s, i) && !InQuote(s, i)
  {
    if i > 0 {
      PlainNeutral(s, i - 1);
    }
  }

  lemma PlainIsClean(s: string)
    requires Plain(s)
    ensures Clean(s)
  {
    PlainNeutral(s, |s|);
  }

  /** Every quote in s is escaped and s does not end in an open escape: s can stand between quotes. */
  ghost predicate Sealed(s: string) {
    !Escaped(s, |s|) && forall i :: 0 <= i < |s| && s[i] == '"' ==> Escaped(s, i)
  }

  lemma SealedAppend(a: string, b: string)
    requires Sealed(a) && Sealed(b)
    ensures Sealed(a + b)
  {
    EscapedAppend(a, b, |b|);
    forall i | 0 <= i < |a + b| && (a + b)[i] == '"'
      ensures Escaped(a + b, i)
    {
      if i < |a| {
        ScanPrefix(a, b, i);
      } else {
        EscapedAppend(a, b, i - |a|);
      }
    }
  }

  lemma PlainIsSealed(s: string)
    requires Plain(s)
    ensures Sealed(s)
  {
    PlainNeutral(s, |s|);
  }

  lemma {:induction false} EscapeTextIsSealed(t: string)
    ensures Sealed(EscapeText(t))
  {
    if t != [] {
      var head := if Escapable(t[0]) then ['\\', t[0]] else [t[0]];
      assert Escaped(head, 1) <==> Escapable(t[0]);
      assert Sealed(head);
      EscapeTextIsSealed(t[1..]);
      SealedAppend(head, EscapeText(t[1..]));
    }
  }

  lemma {:induction false} HexTextIsPlain(bs: seq<byte>)
    ensures Plain(HexText(bs))
  {
    if bs != [] {
      HexTextIsPlain(bs[1..]);
      HexDigits(bs[0]);
    }
  }

  lemma {:induction false} ChunksAreSealed(cs: seq<Chunk>)
    requires forall i :: 0 <= i < |cs| ==> Printable(cs[i])
    ensures Sealed(PrintChunks(cs))
  {
    if cs != [] {
      ChunksAreSealed(cs[1..]);
      match cs[0] {
        case AsText(bs) => EscapeTextIsSealed(Chars(bs));
        case AsHex(bs) =>
          HexTextIsPlain(bs);
          PlainIsSealed(['|'] + HexText(bs) + ['|']);
      }
      SealedAppend(PrintChunk(cs[0]), PrintChunks(cs[1..]));
    }
  }

  lemma {:induction false} InsideQuotes(s: string, i: nat)
    requires Sealed(s) && i <= |s|
    ensures InQuote(['"'] + s, 1 + i) && Escaped(['"'] + s, 1 + i) == Escaped(s, i)
  {
    EscapedAppend(['"'], s, i);
    if i > 0 {
      InsideQuotes(s, i - 1);
      EscapedAppend(['"'], s, i - 1);
    }
  }

  /** What stands between quotes cannot cut an option or end the quotes early. */
  lemma QuoteIsClean(s: string)
    requires Sealed(s)
    ensures Clean(Quote(s))
  {
    var a := ['"'] + s;
    var q := Quote(s);
    assert q == a + ['"'];
    InsideQuotes(s, |s|);
    ScanPrefix(a, ['"'], |a|);
    forall i | 0 <= i < |q|
      ensures !Cut(q, i)
    {
      if 0 < i < |a| {
        InsideQuotes(s, i - 1);
        ScanPrefix(a, ['"'], i);
      }
    }
  }

  // ---------------------------------------------------------------- options

  predicate GoodKey(k: string) {
    k != [] && Trim(k) && Plain(k) && ':' !in k
  }

  ghost predicate GoodOption(o: OptionPair) {
    GoodKey(o.key) && (o.value.Some? ==> Trim(o.value.value) && Clean(o.value.value))
  }

  lemma PrintOptionIsClean(o: OptionPair)
    requires GoodOption(o)
    ensures Clean(PrintOption(o)) && Trim(PrintOption(o)) && PrintOption(o) != []
  {
    PlainIsClean(o.key);
    if o.value.Some? {
      PlainIsClean([':']);
      CleanAppend(o.key, [':']);
      CleanAppend(o.key + [':'], o.value.value);
    }
  }

  lemma OptionReadsBack(o: OptionPair, piece: string)
    requires GoodOption(o) && (piece == PrintOption(o) || piece == [' '] + PrintOption(o))
    ensures OptionOf(piece) == Some(Ok(o))
  {
    hide Clean;
    PrintOptionIsClean(o);
    StripTrim(PrintOption(o));
    StripPadded(PrintOption(o));
    StripTrim(o.key);
    if o.value.Some? {
      PartitionAt(o.key, ':', o.value.value);
      StripTrim(o.value.value);
    } else {
      assert Find(o.key, ':') == -1;
    }
  }

  /** The pieces of printed options: one per option, and a blank rest. */
  function Pieces(os: seq<OptionPair>): seq<string> {
    if os == [] then [] else Pieces(os[..|os| - 1]) + [LastPiece(os)]
  }

  function LastPiece(os: seq<OptionPair>): string
    requires os != []
  {
    Rest(os[..|os| - 1]) + PrintOption(os[|os| - 1])
  }

  function Rest(os: seq<OptionPair>): string { if os == [] then [] else [' '] }

  lemma {:induction false} OptionsScan(os: seq<OptionPair>)
    requires forall i :: 0 <= i < |os| ==> GoodOption(os[i])
    ensures Neutral(PrintOptions(os)) && PiecesAt(PrintOptions(os), |PrintOptions(os)|) == (Pieces(os), Rest(os))
  {
    if os != [] {
      hide Clean, GoodOption, Neutral;
      var before, o := os[..|os| - 1], os[|os| - 1];
      OptionsScan(before);
      PrintOptionIsClean(o);
      OneOptionScan(PrintOptions(before), PrintOption(o));
      assert PrintOptions(os) == PrintOptions(before) + PrintOption(o) + [';'] + [' '];
    }
  }

  lemma OneOptionScan(a: string, b: string)
    requires Neutral(a) && Clean(b)
    ensures var s := a + b + [';'] + [' '];
            Neutral(s) && PiecesAt(s, |s|) == (PiecesAt(a, |a|).0 + [PiecesAt(a, |a|).1 + b], [' '])
  {
    ScanAppend(a, b, |b|);
    PiecesExtend(a, b, |b|);
    assert b[..|b|] == b;
    var c := a + b;
    PieceCompletes(c);
    PlainIsClean([' ']);
    ScanAppend(c + [';'], [' '], 1);
    PiecesExtend(c + [';'], [' '], 1);
    assert [] + [' '][..1] == [' '];
  }

  lemma OptionsOfSnoc(pieces: seq<string>, piece: string, os: seq<OptionPair>, o: OptionPair)
    requires OptionsOf(pieces) == Ok(os) && OptionOf(piece) == Some(Ok(o))
    ensures OptionsOf(pieces + [piece]) == Ok(os + [o])
  {
    hide OptionOf;
    assert (pieces + [piece])[..|pieces|] == pieces;
  }

  lemma LastPieceReadsBack(os: seq<OptionPair>)
    requires os != [] && GoodOption(os[|os| - 1])
    ensures OptionOf(LastPiece(os)) == Some(Ok(os[|os| - 1]))
  {
    var o := os[|os| - 1];
    assert [] + PrintOption(o) == PrintOption(o);
    OptionReadsBack(o, LastPiece(os));
  }

  lemma PiecesSnoc(os: seq<OptionPair>)
    requires os != []
    ensures Pieces(os) == Pieces(os[..|os| - 1]) + [LastPiece(os)]
  {
  }

  lemma {:induction false} PiecesReadBack(os: seq<OptionPair>)
    requires forall i :: 0 <= i < |os| ==> GoodOption(os[i])
    ensures OptionsOf(Pieces(os)) == Ok(os)
  {
    hide GoodOption, OptionOf, LastPiece;
    if os != [] {
      var before, o := os[..|os| - 1], os[|os| - 1];
      PiecesReadBack(before);
      LastPieceReadsBack(os);
      PiecesSnoc(os);
      OptionsOfSnoc(Pieces(before), LastPiece(os), before, o);
      assert before + [o] == os;
    }
  }

  lemma RestIsBlank(os: seq<OptionPair>)
    ensures OptionOf(Rest(os)) == None
  {
    assert LStrip([' ']) == LStrip([]);
  }

  lemma OptionsReadBack(os: seq<OptionPair>)
    requires forall i :: 0 <= i < |os| ==> GoodOption(os[i])
    ensures OptionsIn(PrintOptions(os)) == Ok(os)
  {
    hide GoodOption, Pieces, Rest, OptionOf, PrintOptions, PiecesAt;
    OptionsScan(os);
    PiecesReadBack(os);
    RestIsBlank(os);
    var all := Pieces(os) + [Rest(os)];
    assert all[..|all| - 1] == Pieces(os);
  }

  // ---------------------------------------------------------------- rules

  predicate GoodHeader(h: seq<string>) {
    |h| == HEADER_TOKEN_COUNT && forall i :: 0 <= i < |h| ==> IsWord(h[i]) && '(' !in h[i]
  }

  lemma {:induction false} SpacedHasNo(ws: seq<string>, c: char)
    requires c != ' ' && forall i :: 0 <= i < |ws| ==> c !in ws[i]
    ensures c !in Spaced(ws)
  {
    if ws != [] {
      SpacedHasNo(ws[1..], c);
    }
  }

  /** Every good header and list of options is tokenized back exactly, in order. */
  lemma TokensSurvive(h: seq<string>, os: seq<OptionPair>)
    requires GoodHeader(h) && forall i :: 0 <= i < |os| ==> GoodOption(os[i])
    ensures Tokenized(PrintRule(h, os)) == Ok(Tokens(h, os))
  {
    hide GoodOption, PrintOptions, OptionsIn, Words;
    var body := PrintOptions(os);
    var t := PrintRule(h, os);
    var head := Spaced(h);
    assert head[0] == h[0][0] && !IsSpace(head[0]);
    StripTrim(t);
    SpacedHasNo(h, '(');
    assert t == head + ['('] + (body + [')']);
    FindAt(head, '(', body + [')']);
    assert t[|t| - 1] == ')' && RFind(t, ')') == |t| - 1;
    assert t[|t|..] == [];
    assert t[|head| + 1..|t| - 1] == body;
    assert t[..|head|] == head;
    OptionsReadBack(os);
    WordsOfSpaced(h);
  }

  /** An option as its author means it. */
  datatype Written =
    | Bare(key: string)
    | Value(key: string, value: string)
    | Text(key: string, text: string)                   // msg and the like
    | Bytes(key: string, chunks: seq<Chunk>)            // content

  ghost predicate GoodWritten(w: Written) {
    && GoodKey(w.key)
    && (w.Value? ==> Trim(w.value) && Plain(w.value))
    && (w.Bytes? ==> BytesOf(w.chunks) != [] && forall i :: 0 <= i < |w.chunks| ==> Printable(w.chunks[i]))
  }

  function Pair(w: Written): OptionPair {
    match w
    case Bare(k) => OptionPair(k, None)
    case Value(k, v) => OptionPair(k, Some(v))
    case Text(k, t) => OptionPair(k, Some(Quote(EscapeText(t))))
    case Bytes(k, cs) => OptionPair(k, Some(Quote(PrintChunks(cs))))
  }

  lemma PairIsGood(w: Written)
    requires GoodWritten(w)
    ensures GoodOption(Pair(w))
  {
    match w
    case Bare(_) =>
    case Value(_, v) => PlainIsClean(v);
    case Text(_, t) => EscapeTextIsSealed(t); QuoteIsClean(EscapeText(t));
    case Bytes(_, cs) => ChunksAreSealed(cs); QuoteIsClean(PrintChunks(cs));
  }

  /** Rule text round trip: print seven header words and any options, tokenize the line, and unquote
      or decode the values; the words, the options in order, the texts and the bytes come back. */
  lemma RuleSurvives(h: seq<string>, ws: seq<Written>)
    requires GoodHeader(h) && forall i :: 0 <= i < |ws| ==> GoodWritten(ws[i])
    ensures var os := seq(|ws|, i requires 0 <= i < |ws| => Pair(ws[i]));
            && Tokenized(PrintRule(h, os)) == Ok(Tokens(h, os))
            && forall i :: 0 <= i < |ws| ==>
                 && os[i].key == ws[i].key
                 && (ws[i].Bare? ==> os[i].value == None)
                 && (ws[i].Value? ==> os[i].value == Some(ws[i].value))
                 && (ws[i].Text? ==> os[i].value.Some? && Quoted(os[i].value.value)
                                     && Unescape(os[i].value.value[1..|os[i].value.value| - 1]) == Some(ws[i].text))
                 && (ws[i].Bytes? ==>
                       DecodedContent(os[i].value) == Ok(Content(PrintChunks(ws[i].chunks), BytesOf(ws[i].chunks))))
  {
    var os := seq(|ws|, i requires 0 <= i < |ws| => Pair(ws[i]));
    forall i | 0 <= i < |ws|
      ensures GoodOption(os[i])
      ensures ws[i].Text? ==> os[i].value.Some? && Quoted(os[i].value.value)
                              && Unescape(os[i].value.value[1..|os[i].value.value| - 1]) == Some(ws[i].text)
      ensures ws[i].Bytes? ==> DecodedContent(os[i].value) == Ok(Content(PrintChunks(ws[i].chunks),
              BytesOf(ws[i].chunks)))
    {
      PairIsGood(ws[i]);
      if ws[i].Text? { UnquoteQuotes(ws[i].text); }
      if ws[i].Bytes? { ContentSurvives(ws[i].chunks); }
    }
    TokensSurvive(h, os);
  }

  /** Every nonempty byte string has a printing: one hex block. */
  lemma EveryPatternIsWritable(bs: seq<byte>)
    requires bs != []
    ensures Printable(AsHex(bs)) && BytesOf([AsHex(bs)]) == bs
    ensures GoodWritten(Bytes("content", [AsHex(bs)]))
  {
    assert bs + [] == bs;
  }
}

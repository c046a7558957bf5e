/** tokenize_rule and _split_options of src/rules/parser.py. */
module RuleScanner {
  import opened Common
  import opened PyText

  /** The reason codes of src/models/rule_report.py. */
  datatype Reason =
    | MalformedRule | BadHeader | BadIp | BadPort | BadDirection
    | MissingSid | BadSid | MissingMsg | ModifierWithoutContent
    | DepthLtPattern | WithinLtPattern | MixedAbsoluteRelative | FlagsRequiresTcp | ConflictingFlow
    | BadOptionValue(key: string) | DuplicateOption(key: string)
    | DuplicateSid | InternalError | DisabledSid
    | UnsupportedAction(word: string) | UnsupportedProtocol(word: string) | UnsupportedKeyword(word: string)
    | UnsupportedFlowOption(word: string)
    | UnsupportedIpSyntax | UnsupportedPortSyntax | UnsupportedFlagsMask | UnsupportedContentNegation
  {
    /** reason.startswith("invalid:") */
    predicate IsInvalid() {
      !(UnsupportedAction? || UnsupportedProtocol? || UnsupportedKeyword? || UnsupportedFlowOption?
        || UnsupportedIpSyntax? || UnsupportedPortSyntax? || UnsupportedFlagsMask? || UnsupportedContentNegation?
           || DisabledSid?)
    }
  }

  datatype Result<+T> = Ok(value: T) | Err(reason: Reason)

  datatype OptionPair = OptionPair(key: string, value: Option<string>)

  // ---------------------------------------------------------------- which characters are special

  /** The character at i is escaped: an unescaped backslash stands right before it. */
  predicate Escaped(s: string, i: nat)
    requires i <= |s|
  {
    i > 0 && s[i - 1] == '\\' && !Escaped(s, i - 1)
  }

  /** Position i lies inside quotes: an odd number of unescaped quotes stands before it. */
  predicate InQuote(s: string, i: nat)
    requires i <= |s|
  {
    i > 0 && (if s[i - 1] == '"' && !Escaped(s, i - 1) then !InQuote(s, i - 1) else InQuote(s, i - 1))
  }

  /** A separator: an unescaped ';' outside quotes. */
  predicate Cut(s: string, i: nat)
    requires i < |s|
  {
    s[i] == ';' && !Escaped(s, i) && !InQuote(s, i)
  }

  /** The pieces completed before position i, and the one being read. */
  function PiecesAt(s: string, i: nat): (seq<string>, string)
    requires i <= |s|
  {
    if i == 0 then ([], [])
    else
      var (done, cur) := PiecesAt(s, i - 1);
      if Cut(s, i - 1) then (done + [cur], []) else (done, cur + [s[i - 1]])
  }

  function RawPieces(s: string): seq<string> {
    PiecesAt(s, |s|).0 + [PiecesAt(s, |s|).1]
  }

  // ---------------------------------------------------------------- the scanner

  /** The first half of _split_options: the scan that skips escaped characters two at a time. */
  method ScanPieces(body: string) returns (pieces: seq<string>, inQuote: bool)
    ensures inQuote == InQuote(body, |body|)
    ensures !inQuote ==> pieces == RawPieces(body)
  {
    pieces := [];
    var current: string := [];
    inQuote := false;
    var i, n := 0, |body|;
    while i < n
      invariant 0 <= i <= n && (i < n ==> !Escaped(body, i))
      invariant inQuote == InQuote(body, i)
      invariant (pieces, current) == PiecesAt(body, i)
    {
      var ch := body[i];
      if ch == '\\' && i + 1 < n {
        assert Escaped(body, i + 1);
        assert PiecesAt(body, i + 1) == (pieces, current + [ch]);
        current := current + [ch];
        current := current + [body[i + 1]];
        i := i + 2;
        continue;
      }
      if ch == '"' {
        inQuote := !inQuote;
      }
      if ch == ';' && !inQuote {
        pieces := pieces + [current];
        current := [];
      } else {
        current := current + [ch];
      }
      i := i + 1;
    }
    if inQuote { return; }
    pieces := pieces + [current];
  }

  /** One piece as an option: None if it is blank, an error if its key is empty. */
  function OptionOf(piece: string): Option<Result<OptionPair>> {
    var p := Strip(piece);
    if p == [] then None
    else
      var (k, v) := Partition(p, ':');
      var key := Strip(k);
      if key == [] then Some(Err(MalformedRule))
      else Some(Ok(OptionPair(key, if v.Some? then Some(Strip(v.value)) else None)))
  }

  function OptionsOf(pieces: seq<string>): Result<seq<OptionPair>> {
    if pieces == [] then Ok([])
    else
      var before, last := OptionsOf(pieces[..|pieces| - 1]), OptionOf(pieces[|pieces| - 1]);
      if before.Err? || last.None? then before
      else if last.value.Err? then Err(last.value.reason)
      else Ok(before.value + [last.value.value])
  }

  function OptionsIn(body: string): Result<seq<OptionPair>> {
    if InQuote(body, |body|) then Err(MalformedRule) else OptionsOf(RawPieces(body))
  }

  method SplitOptions(body: string) returns (r: Result<seq<OptionPair>>)
    ensures r == OptionsIn(body)
  {
    var pieces, inQuote := ScanPieces(body);
    if inQuote { return Err(MalformedRule); }
    var options: seq<OptionPair> := [];
    var j := 0;
    while j < |pieces|
      invariant 0 <= j <= |pieces| && OptionsOf(pieces[..j]) == Ok(options)
    {
      assert pieces[..j + 1][..j] == pieces[..j];
      var piece := Strip(pieces[j]);
      j := j + 1;
      if piece == [] { continue; }
      var (k, v) := Partition(piece, ':');
      var key := Strip(k);
      if key == [] {
        ErrorStays(pieces, j);
        return Err(MalformedRule);
      }
      options := options + [OptionPair(key, if v.Some? then Some(Strip(v.value)) else None)];
    }
    assert pieces[..j] == pieces;
    r := Ok(options);
  }

  lemma {:induction false} ErrorStays(pieces: seq<string>, j: nat)
    requires j <= |pieces| && OptionsOf(pieces[..j]).Err?
    ensures OptionsOf(pieces) == OptionsOf(pieces[..j])
    decreases |pieces| - j
  {
    if j < |pieces| {
      assert pieces[..j + 1][..j] == pieces[..j];
      ErrorStays(pieces, j + 1);
    } else {
      assert pieces[..j] == pieces;
    }
  }

  const HEADER_TOKEN_COUNT := 7

  datatype Tokens = Tokens(header: seq<string>, options: seq<OptionPair>)

  function Tokenized(text: string): Result<Tokens> {
    var t := Strip(text);
    var open, close := Find(t, '('), RFind(t, ')');
    if open == -1 || close < open || Strip(t[close + 1..]) != [] then Err(MalformedRule)
    else
      var options := OptionsIn(t[open + 1..close]);
      if options.Err? then Err(options.reason)
      else if |Words(t[..open])| != HEADER_TOKEN_COUNT then Err(BadHeader)
      else Ok(Tokens(Words(t[..open]), options.value))
  }

  /** tokenize_rule. */
  method TokenizeRule(text: string) returns (r: Result<Tokens>)
    ensures r == Tokenized(text)
  {
    var t := Strip(text);
    var open := Find(t, '(');
    if open == -1 { return Err(MalformedRule); }
    var close := RFind(t, ')');
    if close < open { return Err(MalformedRule); }
    if Strip(t[close + 1..]) != [] { return Err(MalformedRule); }
    var options := SplitOptions(t[open + 1..close]);
    if options.Err? { return Err(options.reason); }
    var header := Words(t[..open]);
    if |header| != HEADER_TOKEN_COUNT { return Err(BadHeader); }
    r := Ok(Tokens(header, options.value));
  }

  // ---------------------------------------------------------------- the split is lossless and exact

  lemma {:induction false} JoinSnoc(pieces: seq<string>, cur: string)
    ensures Join(pieces + [cur], ";") == if pieces == [] then cur else Join(pieces, ";") + ";" + cur
  {
    assert (pieces + [cur])[..|pieces|] == pieces;
  }

  lemma {:induction false} PrefixIsJoined(s: string, i: nat)
    requires i <= |s|
    ensures Join(PiecesAt(s, i).0 + [PiecesAt(s, i).1], ";") == s[..i]
  {
    var (done, cur) := PiecesAt(s, i);
    JoinSnoc(done, cur);
    if i > 0 {
      var (before, c) := PiecesAt(s, i - 1);
      PrefixIsJoined(s, i - 1);
      JoinSnoc(before, c);
      assert s[..i] == s[..i - 1] + [s[i - 1]];
    }
  }

  /** Lossless: joining the raw pieces with ';' gives the body back. */
  lemma SplitIsLossless(s: string)
    ensures Join(RawPieces(s), ";") == s
  {
    PrefixIsJoined(s, |s|);
    assert s[..|s|] == s;
  }

  /** The separators before position i, in order. */
  function Cuts(s: string, i: nat): seq<nat>
    requires i <= |s|
  {
    if i == 0 then [] else Cuts(s, i - 1) + if Cut(s, i - 1) then [i - 1] else []
  }

  /** Cuts lists the unescaped ';' outside quotes, each once, left to right. */
  lemma {:induction false} CutsAreTheSeparators(s: string, i: nat)
    requires i <= |s|
    ensures forall p: nat :: p in Cuts(s, i) <==> p < i && Cut(s, p)
    ensures forall a, b :: 0 <= a < b < |Cuts(s, i)| ==> Cuts(s, i)[a] < Cuts(s, i)[b]
  {
    if i > 0 {
      CutsAreTheSeparators(s, i - 1);
      var c := Cuts(s, i - 1);
      assert forall a :: 0 <= a < |c| ==> c[a] in c;
    }
  }

  /** The pieces of s[..i]: `cur` runs from just after the last separator to i, and what is before
      that separator is made of the earlier pieces in the same way. */
  predicate LieBetween(s: string, i: nat, cs: seq<nat>, done: seq<string>, cur: string)
    decreases |cs|
  {
    i <= |s| &&
    if cs == [] then done == [] && cur == s[..i]
    else
      var c := cs[|cs| - 1];
      c < i && done != [] && cur == s[c + 1..i] && LieBetween(s, c, cs[..|cs| - 1], done[..|done| - 1],
          done[|done| - 1])
  }

  /** Reading one more character, within a piece or as a separator. */
  lemma NextPiece(s: string, i: nat, cs: seq<nat>, done: seq<string>, cur: string)
    requires i < |s| && LieBetween(s, i, cs, done, cur)
    ensures LieBetween(s, i + 1, cs, done, cur + [s[i]])
    ensures LieBetween(s, i + 1, cs + [i], done + [cur], [])
  {
    if cs == [] {
      assert s[..i + 1] == s[..i] + [s[i]];
    } else {
      var c := cs[|cs| - 1];
      assert s[c + 1..i + 1] == s[c + 1..i] + [s[i]];
    }
    assert (cs + [i])[..|cs|] == cs && (done + [cur])[..|done|] == done;
  }

  lemma NothingReadYet(s: string)
    ensures LieBetween(s, 0, [], [], [])
  {
  }

  /** The pieces are what lies between consecutive separators: the body is cut there and nowhere else. */
  lemma {:induction false} PiecesLieBetweenCuts(s: string, i: nat)
    requires i <= |s|
    ensures LieBetween(s, i, Cuts(s, i), PiecesAt(s, i).0, PiecesAt(s, i).1)
  {
    hide Cut, LieBetween;
    if i == 0 {
      NothingReadYet(s);
    } else {
      PiecesLieBetweenCuts(s, i - 1);
      NextPiece(s, i - 1, Cuts(s, i - 1), PiecesAt(s, i - 1).0, PiecesAt(s, i - 1).1);
      assert Cuts(s, i - 1) + [] == Cuts(s, i - 1);
    }
  }
}

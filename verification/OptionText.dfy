/** unquote_string and decode_content of src/rules/parser.py. */
module OptionText {
  import opened Common
  import opened RuleScanner

  /** ';', '"' and the backslash are what a backslash can escape. */
  predicate Escapable(c: char) {
    c == ';' || c == '"' || c == '\\'
  }

  predicate Quoted(v: string) {
    |v| >= 2 && v[0] == '"' && v[|v| - 1] == '"'
  }

  // ---------------------------------------------------------------- unquote_string

  /** The text written as s between quotes, or None if s has a bare quote or a dangling backslash. */
  function Unescape(s: string): Option<string> {
    if s == [] then Some([])
    else if s[0] == '\\' then
      if |s| == 1 then None
      else
        var rest := Unescape(s[2..]);
        if rest.None? then None
        else Some((if Escapable(s[1]) then [s[1]] else [s[0], s[1]]) + rest.value)
    else if s[0] == '"' then None
    else
      var rest := Unescape(s[1..]);
      if rest.None? then None else Some([s[0]] + rest.value)
  }

  /** The text a quoted value stands for, or None if it is not a well-formed quoted string. */
  function Unquoted(v: Option<string>): Option<string> {
    if v.None? || !Quoted(v.value) then None else Unescape(v.value[1..|v.value| - 1])
  }

  function Prepend<T>(a: seq<T>, b: Option<seq<T>>): Option<seq<T>> {
    if b.None? then None else Some(a + b.value)
  }

  lemma PrependNothing<T>(b: Option<seq<T>>)
    ensures Prepend([], b) == b
  {
    if b.Some? {
      assert [] + b.value == b.value;
    }
  }

  lemma PrependAssoc<T>(a: seq<T>, b: seq<T>, c: Option<seq<T>>)
    ensures Prepend(a, Prepend(b, c)) == Prepend(a + b, c)
  {
    if c.Some? {
      assert a + (b + c.value) == a + b + c.value;
    }
  }

  /** unquote_string. */
  method UnquoteString(value: Option<string>) returns (r: Option<string>)
    ensures r == Unquoted(value)
  {
    if value.None? || |value.value| < 2 || value.value[0] != '"' || value.value[|value.value| - 1] != '"' {
      return None;
    }
    var inner := value.value[1..|value.value| - 1];
    var out: string := [];
    var i, n := 0, |inner|;
    assert inner[0..] == inner;
    PrependNothing(Unescape(inner));
    while i < n
      invariant 0 <= i <= n
      invariant Prepend(out, Unescape(inner[i..])) == Unescape(inner)
    {
      var ch := inner[i];
      if ch == '\\' {
        if i + 1 >= n { return None; }
        var nxt := inner[i + 1];
        var add := if Escapable(nxt) then [nxt] else [ch, nxt];
        assert inner[i..][2..] == inner[i + 2..];
        assert Unescape(inner[i..]) == Prepend(add, Unescape(inner[i + 2..]));
        PrependAssoc(out, add, Unescape(inner[i + 2..]));
        out := out + add;
        i := i + 2;
        continue;
      }
      if ch == '"' { return None; }
      assert inner[i..][1..] == inner[i + 1..];
      assert Unescape(inner[i..]) == Prepend([ch], Unescape(inner[i + 1..]));
      PrependAssoc(out, [ch], Unescape(inner[i + 1..]));
      out := out + [ch];
      i := i + 1;
    }
    assert inner[i..] == [];
    assert out + [] == out;
    r := Some(out);
  }

  // ---------------------------------------------------------------- decode_content

  function HexDigit(c: char): Option<nat> {
    if '0' <= c <= '9' then Some((c - '0') as int)
    else if 'a' <= c <= 'f' then Some((c - 'a') as int + 10)
    else if 'A' <= c <= 'F' then Some((c - 'A') as int + 10)
    else None
  }

  /** bytes.fromhex of an even number of digits. */
  function FromHex(ds: seq<nat>): seq<byte>
    requires |ds| % 2 == 0 && forall i :: 0 <= i < |ds| ==> ds[i] < 16
  {
    if ds == [] then [] else [(16 * ds[0] + ds[1]) as byte] + FromHex(ds[2..])
  }

  /** UTF-8; the replacement character is refused. */
  function EncodeChar(c: char): Option<seq<byte>> {
    var n := c as int;
    if n == 0xFFFD then None
    else if n < 0x80 then Some([n])
    else if n < 0x800 then Some([0xC0 + n / 0x40, 0x80 + n % 0x40])
    else if n < 0x10000 then Some([0xE0 + n / 0x1000, 0x80 + n / 0x40 % 0x40, 0x80 + n % 0x40])
    else Some([0xF0 + n / 0x40000, 0x80 + n / 0x1000 % 0x40, 0x80 + n / 0x40 % 0x40, 0x80 + n % 0x40])
  }

  type Digits = ds: seq<nat> | forall i :: 0 <= i < |ds| ==> ds[i] < 16 witness []

  /** The bytes the rest `s` of a content stands for: in a hex block after the digits `ds`, or in text. */
  function Decode(s: string, inHex: bool, ds: Digits): Option<seq<byte>>
    decreases |s|
  {
    if s == [] then if inHex then None else Some([])
    else if inHex then
      if s[0] == '|' then
        if |ds| % 2 == 1 then None else Prepend(FromHex(ds), Decode(s[1..], false, []))
      else if HexDigit(s[0]).Some? then Decode(s[1..], true, ds + [HexDigit(s[0]).value])
      else if s[0] == ' ' || s[0] == '\t' then Decode(s[1..], true, ds)
      else None
    else if s[0] == '|' then Decode(s[1..], true, [])
    else if s[0] == '\\' then
      if |s| == 1 then None
      else if Escapable(s[1]) then Prepend([s[1] as int], Decode(s[2..], false, []))
      else
        var c := EncodeChar(s[1]);
        if c.None? then None else Prepend([0x5C] + c.value, Decode(s[2..], false, []))
    else if s[0] == '"' then None
    else
      var c := EncodeChar(s[0]);
      if c.None? then None else Prepend(c.value, Decode(s[1..], false, []))
  }

  datatype Content = Content(raw: string, pattern: seq<byte>)

  predicate Negated(v: string) {
    |v| >= 2 && v[0] == '!' && v[1] == '"'
  }

  const BAD_CONTENT := BadOptionValue("content")

  function DecodedContent(value: Option<string>): Result<Content> {
    if value.Some? && Negated(value.value) then Err(UnsupportedContentNegation)
    else if value.None? || !Quoted(value.value) then Err(BAD_CONTENT)
    else
      var raw := value.value[1..|value.value| - 1];
      var bytes := Decode(raw, false, []);
      if bytes.None? || bytes.value == [] then Err(BAD_CONTENT) else Ok(Content(raw, bytes.value))
  }

  /** decode_content. */
  method DecodeContent(value: Option<string>) returns (r: Result<Content>)
    ensures r == DecodedContent(value)
  {
    if value.Some? && Negated(value.value) { return Err(UnsupportedContentNegation); }
    if value.None? || !Quoted(value.value) { return Err(BAD_CONTENT); }
    var raw := value.value[1..|value.value| - 1];
    var out: seq<byte> := [];
    var inHex := false;
    var hexDigits: Digits := [];
    var i, n := 0, |raw|;
    assert raw[0..] == raw;
    PrependNothing(Decode(raw, false, []));
    while i < n
      invariant 0 <= i <= n && (!inHex ==> hexDigits == [])
      invariant Prepend(out, Decode(raw[i..], inHex, hexDigits)) == Decode(raw, false, [])
    {
      var ch, rest := raw[i], raw[i + 1..];
      assert raw[i..][0] == ch && raw[i..][1..] == rest;
      if inHex {
        if ch == '|' {
          if |hexDigits| % 2 == 1 { return Err(BAD_CONTENT); }
          PrependAssoc(out, FromHex(hexDigits), Decode(rest, false, []));
          out := out + FromHex(hexDigits);
          hexDigits := [];
          inHex := false;
        } else if HexDigit(ch).Some? {
          hexDigits := hexDigits + [HexDigit(ch).value];
        } else if ch != ' ' && ch != '\t' {
          return Err(BAD_CONTENT);
        }
        i := i + 1;
        continue;
      }
      if ch == '|' {
        inHex := true;
        i := i + 1;
      } else if ch == '\\' {
        if i + 1 >= n { return Err(BAD_CONTENT); }
        var nxt := raw[i + 1];
        assert raw[i..][1] == nxt && raw[i..][2..] == raw[i + 2..];
        var c := EncodeChar(nxt);
        if c.None? { return Err(BAD_CONTENT); }
        var add := if Escapable(nxt) then c.value else [0x5C] + c.value;
        PrependAssoc(out, add, Decode(raw[i + 2..], false, []));
        out := out + add;
        i := i + 2;
      } else if ch == '"' {
        return Err(BAD_CONTENT);
      } else {
        var c := EncodeChar(ch);
        if c.None? { return Err(BAD_CONTENT); }
        PrependAssoc(out, c.value, Decode(rest, false, []));
        out := out + c.value;
        i := i + 1;
      }
    }
    assert raw[i..] == [] && out + [] == out;
    if inHex || out == [] { return Err(BAD_CONTENT); }
    r := Ok(Content(raw, out));
  }
}

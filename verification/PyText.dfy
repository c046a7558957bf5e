/** The str methods the rule parser uses: strip, split, partition, find, rfind and join. */
module PyText {
  import opened Common

  /** str.isspace() of one character. */
  predicate IsSpace(c: char) {
    var n := c as int;
    || 9 <= n <= 13 || 28 <= n <= 32 || n == 0x85 || n == 0xA0 || n == 0x1680 || 0x2000 <= n <= 0x200A
    || n == 0x2028 || n == 0x2029 || n == 0x202F || n == 0x205F || n == 0x3000
  }

  function LStrip(s: string): string {
    if s != [] && IsSpace(s[0]) then LStrip(s[1..]) else s
  }

  function RStrip(s: string): string {
    if s != [] && IsSpace(s[|s| - 1]) then RStrip(s[..|s| - 1]) else s
  }

  function Strip(s: string): string { RStrip(LStrip(s)) }

  /** No blank at either end. */
  predicate Trim(s: string) {
    s != [] ==> !IsSpace(s[0]) && !IsSpace(s[|s| - 1])
  }

  lemma StripTrim(s: string)
    requires Trim(s)
    ensures Strip(s) == s
  {
  }

  lemma StripPadded(s: string)
    requires Trim(s)
    ensures Strip([' '] + s) == s
  {
    assert ([' '] + s)[1..] == s;
    if s == [] {
      assert LStrip([' '] + s) == [];
    }
  }

  /** str.find(c): the first index of c, or -1. */
  function Find(s: string, c: char): (r: int)
    ensures r == -1 ==> c !in s
    ensures r != -1 ==> 0 <= r < |s| && s[r] == c && c !in s[..r]
  {
    if s == [] then -1
    else if s[0] == c then 0
    else
      var r := Find(s[1..], c);
      assert s == [s[0]] + s[1..];
      if r == -1 then -1 else
      assert s[..r + 1] == [s[0]] + s[1..][..r];
      r + 1
  }

  /** str.rfind(c): the last index of c, or -1. */
  function RFind(s: string, c: char): (r: int)
    ensures r == -1 ==> c !in s
    ensures r != -1 ==> 0 <= r < |s| && s[r] == c && c !in s[r + 1..]
  {
    if s == [] then -1
    else if s[|s| - 1] == c then |s| - 1
    else
      var r := RFind(s[..|s| - 1], c);
      assert s == s[..|s| - 1] + [s[|s| - 1]];
      if r == -1 then -1 else
      assert s[r + 1..] == s[..|s| - 1][r + 1..] + [s[|s| - 1]];
      r
  }

  /** s.partition(c): what is before the first c, and what is after it if there is one. */
  function Partition(s: string, c: char): (string, Option<string>) {
    var i := Find(s, c);
    if i == -1 then (s, None) else (s[..i], Some(s[i + 1..]))
  }

  lemma {:induction false} FindAt(a: string, c: char, b: string)
    requires c !in a
    ensures Find(a + [c] + b, c) == |a|
  {
    if a != [] {
      assert (a + [c] + b)[1..] == a[1..] + [c] + b;
      FindAt(a[1..], c, b);
    }
  }

  lemma PartitionAt(a: string, c: char, b: string)
    requires c !in a
    ensures Partition(a + [c] + b, c) == (a, Some(b))
  {
    FindAt(a, c, b);
    assert (a + [c] + b)[..|a|] == a && (a + [c] + b)[|a| + 1..] == b;
  }

  /** str.split(): the maximal runs of non-blank characters. */
  function Words(s: string): seq<string> {
    WordsFrom(s, [])
  }

  /** Words of s when `cur` is the word being read. */
  function WordsFrom(s: string, cur: string): seq<string>
    decreases |s|
  {
    if s == [] then if cur == [] then [] else [cur]
    else if IsSpace(s[0]) then (if cur == [] then [] else [cur]) + WordsFrom(s[1..], [])
    else WordsFrom(s[1..], cur + [s[0]])
  }

  predicate IsWord(w: string) {
    w != [] && forall i :: 0 <= i < |w| ==> !IsSpace(w[i])
  }

  /** Each word followed by one blank. */
  function Spaced(ws: seq<string>): string {
    if ws == [] then [] else ws[0] + [' '] + Spaced(ws[1..])
  }

  lemma {:induction false} WordsFromWord(w: string, rest: string, cur: string)
    requires forall i :: 0 <= i < |w| ==> !IsSpace(w[i])
    ensures WordsFrom(w + rest, cur) == WordsFrom(rest, cur + w)
    decreases |w|
  {
    if w == [] {
      assert w + rest == rest && cur + w == cur;
    } else {
      assert (w + rest)[1..] == w[1..] + rest;
      assert cur + [w[0]] + w[1..] == cur + w;
      WordsFromWord(w[1..], rest, cur + [w[0]]);
    }
  }

  lemma {:induction false} WordsOfSpaced(ws: seq<string>)
    requires forall i :: 0 <= i < |ws| ==> IsWord(ws[i])
    ensures Words(Spaced(ws)) == ws
  {
    if ws != [] {
      var rest := [' '] + Spaced(ws[1..]);
      assert Spaced(ws) == ws[0] + rest;
      WordsFromWord(ws[0], rest, []);
      assert [] + ws[0] == ws[0];
      assert rest[1..] == Spaced(ws[1..]);
      WordsOfSpaced(ws[1..]);
      assert ws == [ws[0]] + ws[1..];
    }
  }

  function Join(pieces: seq<string>, sep: string): string {
    if pieces == [] then []
    else if |pieces| == 1 then pieces[0]
    else Join(pieces[..|pieces| - 1], sep) + sep + pieces[|pieces| - 1]
  }
}

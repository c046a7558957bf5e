/** iter_rule_lines of src/rules/loader.py: physical lines to logical lines. */
module RuleLines {
  import opened PyText

  datatype Kind = Blank | Comment | RuleText

  /** Physical lines first..next (zero-based, next excluded) read as one; `text` is what is yielded
      for a rule. */
  datatype Logical = Logical(kind: Kind, first: nat, next: nat, text: string)

  predicate EndsWith(s: string, c: char) {
    s != [] && s[|s| - 1] == c
  }

  predicate Continues(text: string) {
    EndsWith(RStrip(text), '\\')
  }

  /** Drop the trailing backslash and the blanks around it. */
  function Unslash(text: string): string
    requires Continues(text)
  {
    RStrip(RStrip(text)[..|RStrip(text)| - 1])
  }

  function Glue(text: string, line: string): string {
    var nxt := LStrip(line);
    if nxt != [] then text + [' '] + nxt else text
  }

  /** The text of a rule that reads `text` so far, and the first line after it. */
  function Gather(lines: seq<string>, text: string, i: nat): (r: (string, nat))
    requires i <= |lines|
    ensures i <= r.1 <= |lines|
    decreases |lines| - i
  {
    if !Continues(text) then (text, i)
    else if i == |lines| then (Unslash(text), i)
    else Gather(lines, Glue(Unslash(text), lines[i]), i + 1)
  }

  /** The logical line starting at physical line i. */
  function LineAt(lines: seq<string>, i: nat): (r: Logical)
    requires i < |lines|
    ensures r.first == i < r.next <= |lines|
  {
    var stripped := Strip(lines[i]);
    if stripped == [] then Logical(Blank, i, i + 1, [])
    else if stripped[0] == '#' then Logical(Comment, i, i + 1, [])
    else
      var (text, next) := Gather(lines, lines[i], i + 1);
      Logical(RuleText, i, next, text)
  }

  function LinesFrom(lines: seq<string>, i: nat): seq<Logical>
    requires i <= |lines|
    decreases |lines| - i
  {
    if i == |lines| then [] else [LineAt(lines, i)] + LinesFrom(lines, LineAt(lines, i).next)
  }

  /** The first character that is no blank is c, and stands at j. */
  predicate StartsWith(s: string, j: nat, c: char) {
    j < |s| && s[j] == c && !IsSpace(c) && forall k :: 0 <= k < j ==> IsSpace(s[k])
  }

  lemma {:induction false} LStripStart(s: string) returns (j: nat)
    ensures LStrip(s) == [] <==> forall k :: 0 <= k < |s| ==> IsSpace(s[k])
    ensures LStrip(s) != [] ==> StartsWith(s, j, LStrip(s)[0])
  {
    j := 0;
    if s != [] && IsSpace(s[0]) {
      j := LStripStart(s[1..]);
      assert forall k :: 1 <= k < |s| ==> s[k] == s[1..][k - 1];
      j := j + 1;
    }
  }

  lemma OneStart(s: string, j: nat, c: char, k: nat, d: char)
    requires StartsWith(s, j, c) && StartsWith(s, k, d)
    ensures j == k && c == d
  {
    assert !IsSpace(s[j]) && !IsSpace(s[k]);
  }

  lemma {:induction false} RStripStart(s: string)
    requires s != [] && !IsSpace(s[0])
    ensures RStrip(s) != [] && RStrip(s)[0] == s[0]
  {
    if IsSpace(s[|s| - 1]) {
      RStripStart(s[..|s| - 1]);
    }
  }

  /** A line is blank when it has nothing but blanks, and a comment when the first other character is '#'. */
  lemma KindExactly(lines: seq<string>, i: nat)
    requires i < |lines|
    ensures LineAt(lines, i).kind == Blank <==> forall k :: 0 <= k < |lines[i]| ==> IsSpace(lines[i][k])
    ensures LineAt(lines, i).kind == Comment <==> exists j :: StartsWith(lines[i], j, '#')
  {
    hide LStrip, RStrip, Gather, IsSpace;
    var s := lines[i];
    var j := LStripStart(s);
    HashIsNoSpace();
    if LStrip(s) == [] {
      NothingLeft();
    } else {
      RStripStart(LStrip(s));
      if k :| StartsWith(s, k, '#') {
        OneStart(s, j, LStrip(s)[0], k, '#');
      }
    }
  }

  lemma NothingLeft()
    ensures RStrip([]) == []
  {
  }

  lemma HashIsNoSpace()
    ensures !IsSpace('#')
  {
  }

  // ---------------------------------------------------------------- the generator

  datatype LineCounts = LineCounts(total: nat, blank: nat, comment: nat, rules: nat)

  function CountKind(ls: seq<Logical>, k: Kind): nat {
    if ls == [] then 0 else CountKind(ls[..|ls| - 1], k) + if ls[|ls| - 1].kind == k then 1 else 0
  }

  /** What is yielded: line number (from 1) and text of each rule line. */
  function Yielded(ls: seq<Logical>): seq<(nat, string)> {
    if ls == [] then []
    else
      var last := ls[|ls| - 1];
      Yielded(ls[..|ls| - 1]) + if last.kind == RuleText then [(last.first + 1, last.text)] else []
  }

  /** The continuation loop: each step takes one more line or stops at the end of the file. */
  method GatherRule(lines: seq<string>, start: nat) returns (text: string, i: nat)
    requires start < |lines|
    ensures (text, i) == Gather(lines, lines[start], start + 1) && start < i <= |lines|
  {
    text, i := lines[start], start + 1;
    while Continues(text)
      invariant start < i <= |lines| && Gather(lines, text, i) == Gather(lines, lines[start], start + 1)
      decreases |lines| - i
    {
      text := Unslash(text);
      if i >= |lines| { return; }
      text := Glue(text, lines[i]);
      i := i + 1;
    }
  }

  /** iter_rule_lines; `counts` is the part of the report it updates. */
  method IterRuleLines(lines: seq<string>) returns (out: seq<(nat, string)>, counts: LineCounts)
    ensures out == Yielded(LinesFrom(lines, 0))
    ensures counts == CountsOf(LinesFrom(lines, 0))
  {
    hide Gather, LinesFrom, Yielded, CountKind, Strip;
    NoLines(lines);
    out, counts := [], LineCounts(0, 0, 0, 0);
    ghost var done: seq<Logical> := [];
    var i, n := 0, |lines|;
    while i < n
      invariant 0 <= i <= n
      invariant done + LinesFrom(lines, i) == LinesFrom(lines, 0)
      invariant out == Yielded(done) && counts == CountsOf(done)
      decreases n - i
    {
      var start, line := i + 1, lines[i];
      ghost var l := LineAt(lines, i);
      OneMoreLine(done, l);
      NextLine(lines, i, done);
      done := done + [l];
      var stripped := Strip(line);
      if stripped == [] {
        i := i + 1;
        counts := counts.(total := counts.total + 1, blank := counts.blank + 1);
        continue;
      }
      if stripped[0] == '#' {
        i := i + 1;
        counts := counts.(total := counts.total + 1, comment := counts.comment + 1);
        continue;
      }
      var text;
      text, i := GatherRule(lines, i);
      counts := counts.(total := counts.total + 1, rules := counts.rules + 1);
      out := out + [(start, text)];
    }
    assert done + [] == done;
  }

  function CountsOf(ls: seq<Logical>): LineCounts {
    LineCounts(|ls|, CountKind(ls, Blank), CountKind(ls, Comment), CountKind(ls, RuleText))
  }

  lemma NoLines(lines: seq<string>)
    ensures LinesFrom(lines, |lines|) == [] && Yielded([]) == [] && CountsOf([]) == LineCounts(0, 0, 0, 0)
  {
  }

  lemma NextLine(lines: seq<string>, i: nat, done: seq<Logical>)
    requires i < |lines|
    ensures done + [LineAt(lines, i)] + LinesFrom(lines, LineAt(lines, i).next) == done + LinesFrom(lines, i)
  {
    hide LineAt;
    var l := LineAt(lines, i);
    assert done + [l] + LinesFrom(lines, l.next) == done + ([l] + LinesFrom(lines, l.next));
  }

  lemma OneMoreLine(done: seq<Logical>, l: Logical)
    ensures Yielded(done + [l]) == Yielded(done) + if l.kind == RuleText then [(l.first + 1, l.text)] else []
    ensures forall k :: CountKind(done + [l], k) == CountKind(done, k) + if l.kind == k then 1 else 0
  {
    assert (done + [l])[..|done|] == done;
  }

  // ---------------------------------------------------------------- what the lines are

  /** content.split("\n"). */
  function SplitLines(content: string): (r: seq<string>)
    ensures r != []
  {
    if content == [] then [[]]
    else
      var rest := SplitLines(content[1..]);
      if content[0] == '\n' then [[]] + rest else [[content[0]] + rest[0]] + rest[1..]
  }

  function DropReturn(line: string): string {
    if EndsWith(line, '\r') then line[..|line| - 1] else line
  }

  /** The physical lines of a file: what follows the final newline is not a line. */
  function PhysicalLines(content: string): seq<string> {
    var ls := SplitLines(content);
    var kept := if ls[|ls| - 1] == [] then ls[..|ls| - 1] else ls;
    seq(|kept|, i requires 0 <= i < |kept| => DropReturn(kept[i]))
  }

  /** A line of a file, and whether it ends in a carriage return and a newline or in a newline alone. */
  datatype FileLine = FileLine(text: string, crlf: bool)

  predicate Writable(l: FileLine) {
    '\n' !in l.text && (l.crlf || !EndsWith(l.text, '\r'))
  }

  function RawLine(l: FileLine): string {
    l.text + if l.crlf then "\r" else ""
  }

  function FileOf(ls: seq<FileLine>): string {
    if ls == [] then [] else RawLine(ls[0]) + ['\n'] + FileOf(ls[1..])
  }

  function RawLines(ls: seq<FileLine>): seq<string> {
    seq(|ls|, i requires 0 <= i < |ls| => RawLine(ls[i]))
  }

  function Texts(ls: seq<FileLine>): seq<string> {
    seq(|ls|, i requires 0 <= i < |ls| => ls[i].text)
  }

  lemma {:induction false} SplitOne(line: string)
    requires '\n' !in line
    ensures SplitLines(line) == [line]
  {
    if line != [] {
      SplitOne(line[1..]);
      assert line[0] in line && [line[0]] + line[1..] == line;
    }
  }

  lemma {:induction false} SplitFirst(line: string, rest: string)
    requires '\n' !in line
    ensures SplitLines(line + ['\n'] + rest) == [line] + SplitLines(rest)
  {
    var s := line + ['\n'] + rest;
    if line == [] {
      assert s[1..] == rest;
    } else {
      assert s[0] == line[0] && line[0] in line && s[1..] == line[1..] + ['\n'] + rest;
      SplitFirst(line[1..], rest);
      assert [line[0]] + line[1..] == line;
    }
  }

  lemma {:induction false} FileSplits(ls: seq<FileLine>, tail: string)
    requires AllWritable(ls) && '\n' !in tail
    ensures SplitLines(FileOf(ls) + tail) == RawLines(ls) + [tail]
  {
    hide SplitLines;
    if ls == [] {
      assert FileOf(ls) + tail == tail;
      SplitOne(tail);
    } else {
      var rest := FileOf(ls[1..]) + tail;
      assert FileOf(ls) + tail == RawLine(ls[0]) + ['\n'] + rest;
      SplitFirst(RawLine(ls[0]), rest);
      FileSplits(ls[1..], tail);
      assert RawLines(ls) == [RawLine(ls[0])] + RawLines(ls[1..]);
    }
  }

  lemma ReturnDrops(l: FileLine)
    requires Writable(l)
    ensures DropReturn(RawLine(l)) == l.text
  {
  }

  function Dropped(lines: seq<string>): seq<string> {
    seq(|lines|, i requires 0 <= i < |lines| => DropReturn(lines[i]))
  }

  predicate AllWritable(ls: seq<FileLine>) {
    forall i :: 0 <= i < |ls| ==> Writable(ls[i])
  }

  lemma PhysicalOf(content: string, front: seq<string>, tail: string)
    requires SplitLines(content) == front + [tail]
    ensures PhysicalLines(content) == Dropped(front) + if tail == [] then [] else [DropReturn(tail)]
  {
    hide SplitLines, DropReturn;
    assert (front + [tail])[..|front|] == front;
  }

  lemma DroppedTexts(ls: seq<FileLine>)
    requires AllWritable(ls)
    ensures Dropped(RawLines(ls)) == Texts(ls)
  {
    hide Writable, DropReturn, RawLine;
    forall i | 0 <= i < |ls|
      ensures DropReturn(RawLine(ls[i])) == ls[i].text
    {
      ReturnDrops(ls[i]);
    }
  }

  /** The lines of a file are read back, whichever way each ends; a last one without a newline is a line too
      unless it is empty. */
  lemma FileLinesSurvive(ls: seq<FileLine>, tail: string)
    requires AllWritable(ls) && Writable(FileLine(tail, false))
    ensures PhysicalLines(FileOf(ls) + tail) == Texts(ls) + if tail == [] then [] else [tail]
  {
    hide *;
    TailIsLine(tail);
    FileSplits(ls, tail);
    PhysicalOf(FileOf(ls) + tail, RawLines(ls), tail);
    DroppedTexts(ls);
  }

  lemma TailIsLine(tail: string)
    requires Writable(FileLine(tail, false))
    ensures '\n' !in tail && DropReturn(tail) == tail
  {
  }

  lemma LinesFromHead(lines: seq<string>, i: nat)
    requires i < |lines|
    ensures LinesFrom(lines, i) == [LineAt(lines, i)] + LinesFrom(lines, LineAt(lines, i).next)
  {
  }

  /** Every physical line belongs to exactly one logical line: the logical lines follow one another
      without a gap from the first physical line to the last. */
  lemma {:induction false} LinesTile(lines: seq<string>, i: nat)
    requires i <= |lines|
    ensures var ls := LinesFrom(lines, i);
            && (ls == [] <==> i == |lines|)
            && (ls != [] ==> ls[0].first == i && ls[|ls| - 1].next == |lines|)
            && (forall k :: 0 <= k < |ls| ==> i <= ls[k].first < ls[k].next)
            && (forall k :: 0 <= k < |ls| - 1 ==> ls[k].next == ls[k + 1].first)
    decreases |lines| - i
  {
    hide LineAt;
    if i < |lines| {
      var l, ls := LineAt(lines, i), LinesFrom(lines, i);
      var rest := LinesFrom(lines, l.next);
      LinesTile(lines, l.next);
      hide LinesFrom;
      assert ls == [l] + rest by {
        LinesFromHead(lines, i);
      }
      assert forall k :: 0 < k < |ls| ==> ls[k] == rest[k - 1];
    }
  }

  lemma {:induction false} LinesAreOrdered(lines: seq<string>, i: nat)
    requires i <= |lines|
    ensures forall k :: 0 <= k < |LinesFrom(lines, i)| ==> i <= LinesFrom(lines, i)[k].first
    ensures forall j, k :: 0 <= j < k < |LinesFrom(lines, i)| ==>
              LinesFrom(lines, i)[j].first < LinesFrom(lines, i)[k].first
    decreases |lines| - i
  {
    if i < |lines| {
      var l, ls := LineAt(lines, i), LinesFrom(lines, i);
      var rest := LinesFrom(lines, l.next);
      LinesAreOrdered(lines, l.next);
      assert ls == [l] + rest;
      assert forall k :: 0 < k < |ls| ==> ls[k] == rest[k - 1];
    }
  }

  /** The reported line numbers are those of rule lines and strictly increase. */
  lemma {:induction false} NumbersIncrease(ls: seq<Logical>)
    requires forall j, k :: 0 <= j < k < |ls| ==> ls[j].first < ls[k].first
    ensures forall j, k :: 0 <= j < k < |Yielded(ls)| ==> Yielded(ls)[j].0 < Yielded(ls)[k].0
    ensures forall y :: y in Yielded(ls) ==> ls != [] && y.0 <= ls[|ls| - 1].first + 1
  {
    if ls != [] {
      var before := ls[..|ls| - 1];
      NumbersIncrease(before);
      assert forall j :: 0 <= j < |Yielded(before)| ==> Yielded(before)[j] in Yielded(before);
    }
  }

  lemma {:induction false} KindsAddUp(ls: seq<Logical>)
    ensures |ls| == CountKind(ls, Blank) + CountKind(ls, Comment) + CountKind(ls, RuleText)
    ensures |Yielded(ls)| == CountKind(ls, RuleText)
  {
    if ls != [] {
      KindsAddUp(ls[..|ls| - 1]);
    }
  }

  /** total_lines == blank + comment + rule_lines, one rule per rule_lines, in strictly increasing
      line order. */
  lemma LinesAreAccounted(lines: seq<string>)
    ensures var ls := LinesFrom(lines, 0);
            && CountsOf(ls).total == CountsOf(ls).blank + CountsOf(ls).comment + CountsOf(ls).rules
            && |Yielded(ls)| == CountsOf(ls).rules
            && forall j, k :: 0 <= j < k < |Yielded(ls)| ==> Yielded(ls)[j].0 < Yielded(ls)[k].0
  {
    KindsAddUp(LinesFrom(lines, 0));
    LinesAreOrdered(lines, 0);
    NumbersIncrease(LinesFrom(lines, 0));
  }

  // ---------------------------------------------------------------- breaking a rule over lines

  /** A fragment of a rule that can stand on a line of its own. */
  predicate Fragment(s: string) {
    s != [] && Trim(s) && s[|s| - 1] != '\\'
  }

  /** The fragments as physical lines, each but the last ending in a blank and a backslash. */
  function Broken(fs: seq<string>): seq<string> {
    if fs == [] then []
    else if |fs| == 1 then [fs[0]]
    else [fs[0] + [' ', '\\']] + Broken(fs[1..])
  }

  lemma BrokenLineContinues(f: string)
    requires Fragment(f)
    ensures Continues(f + [' ', '\\']) && Unslash(f + [' ', '\\']) == f && !Continues(f)
  {
    var s := f + [' ', '\\'];
    assert RStrip(s) == s;
    assert s[..|s| - 1] == f + [' '];
    assert (f + [' '])[..|f|] == f;
    assert RStrip(f + [' ']) == RStrip(f) == f;
  }

  /** With `text` read so far ending in fragment f's place, the rest of the fragments are glued on
      with single blanks. */
  lemma {:induction false} GatherJoins(lines: seq<string>, fs: seq<string>, text: string, i: nat)
    requires i + |fs| == |lines| && lines[i..] == Broken(fs) && fs != []
    requires forall k :: 0 <= k < |fs| ==> Fragment(fs[k])
    requires Fragment(text)
    ensures Gather(lines, text + [' ', '\\'], i) == (text + [' '] + Join(fs, " "), |lines|)
    decreases |fs|
  {
    hide RStrip, Continues, Unslash;
    BrokenLineContinues(text);
    var f := fs[0];
    assert lines[i] == lines[i..][0];
    assert LStrip(f) == f;
    if |fs| == 1 {
      var whole := text + [' '] + f;
      assert Glue(text, lines[i]) == whole;
      assert Fragment(whole);
      BrokenLineContinues(whole);
    } else {
      var line := f + [' ', '\\'];
      assert lines[i] == line && LStrip(line) == line;
      var more := text + [' '] + f;
      assert Glue(text, line) == text + [' '] + line == more + [' ', '\\'];
      assert Fragment(more);
      assert lines[i + 1..] == lines[i..][1..] == Broken(fs[1..]);
      GatherJoins(lines, fs[1..], more, i + 1);
      JoinCons(fs);
      assert more + [' '] + Join(fs[1..], " ") == text + [' '] + (f + [' '] + Join(fs[1..], " "));
    }
  }

  lemma {:induction false} JoinCons(fs: seq<string>)
    requires |fs| > 1
    ensures Join(fs, " ") == fs[0] + [' '] + Join(fs[1..], " ")
  {
    if |fs| == 2 {
      assert fs[..1] == [fs[0]] && fs[1..] == [fs[1]];
    } else {
      JoinCons(fs[..|fs| - 1]);
      assert fs[..|fs| - 1][1..] == fs[1..][..|fs| - 2];
      assert Join(fs[1..], " ") == Join(fs[1..][..|fs| - 2], " ") + " " + fs[|fs| - 1];
    }
  }

  /** A rule broken over any number of lines reads as the same rule on one line. */
  lemma BrokenRuleReadsAsOne(fs: seq<string>)
    requires fs != [] && Fragment(fs[0]) && fs[0][0] != '#'
    requires forall k :: 0 <= k < |fs| ==> Fragment(fs[k])
    ensures LinesFrom(Broken(fs), 0) == [Logical(RuleText, 0, |Broken(fs)|, Join(fs, " "))]
  {
    var lines := Broken(fs);
    BrokenLength(fs);
    var f := fs[0];
    BrokenLineContinues(f);
    if |fs| == 1 {
      StripTrim(f);
      assert Gather(lines, f, 1) == (f, 1);
    } else {
      var line := f + [' ', '\\'];
      StripTrim(line);
      assert lines[1..] == Broken(fs[1..]);
      GatherJoins(lines, fs[1..], f, 1);
      JoinCons(fs);
    }
    assert LinesFrom(lines, |lines|) == [];
  }

  lemma {:induction false} BrokenLength(fs: seq<string>)
    ensures |Broken(fs)| == |fs|
  {
    if |fs| > 1 {
      BrokenLength(fs[1..]);
    }
  }
}

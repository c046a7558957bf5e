/** src/engine/content_matcher.py: the search windows and the backtracking content chain. */
module ContentMatcher {
  import opened Common

  datatype ContentSpec = ContentSpec(
    raw: string,
    pattern: seq<byte>,
    nocase: bool,
    offset: Option<int>,
    depth: Option<int>,
    distance: Option<int>,
    within: Option<int>)

  // ---------------------------------------------------------------- what a match is

  function Cased(nocase: bool, s: seq<byte>): seq<byte> {
    if nocase then Lower(s) else s
  }

  function Stop(data: seq<byte>, end: Option<int>): int {
    if end.None? then |data| else Min(end.value, |data|)
  }

  /** `pattern` lies at `pos`, completely inside data[start:end]. */
  predicate Occurs(data: seq<byte>, pattern: seq<byte>, nocase: bool,
                   start: int, end: Option<int>, pos: int)
  {
    && pattern != []
    && Max(0, start) <= pos
    && pos + |pattern| <= Stop(data, end)
    && Cased(nocase, data[pos..pos + |pattern|]) == Cased(nocase, pattern)
  }

  predicate IsRelative(spec: ContentSpec) {
    spec.distance.Some? || spec.within.Some?
  }

  function AbsoluteWindow(spec: ContentSpec): (int, Option<int>) {
    var start := if spec.offset.Some? then spec.offset.value else 0;
    (start, if spec.depth.None? then None else Some(start + spec.depth.value))
  }

  function RelativeWindow(spec: ContentSpec, prevEnd: int): (int, Option<int>) {
    var start := Max(0, prevEnd + (if spec.distance.Some? then spec.distance.value else 0));
    (start, if spec.within.None? then None else Some(start + spec.within.value))
  }

  function Window(spec: ContentSpec, prevEnd: int): (int, Option<int>) {
    if IsRelative(spec) then RelativeWindow(spec, prevEnd) else AbsoluteWindow(spec)
  }

  /** Content `spec` may be placed at `pos` when the content before it ended at `prevEnd`. */
  predicate Admits(data: seq<byte>, spec: ContentSpec, prevEnd: int, pos: int) {
    var (start, end) := Window(spec, prevEnd);
    Occurs(data, spec.pattern, spec.nocase, start, end, pos)
  }

  /** `ps` places the contents from index i on, the content before them having ended at prevEnd. */
  predicate Solves(data: seq<byte>, cs: seq<ContentSpec>, i: nat, prevEnd: int, ps: seq<int>)
    requires i <= |cs|
    decreases |cs| - i
  {
    if i == |cs| then ps == []
    else
      && ps != []
      && Admits(data, cs[i], prevEnd, ps[0])
      && Solves(data, cs, i + 1, ps[0] + |cs[i].pattern|, ps[1..])
  }

  predicate LexLe(a: seq<int>, b: seq<int>) {
    a == [] || (b != [] && (a[0] < b[0] || (a[0] == b[0] && LexLe(a[1..], b[1..]))))
  }

  /** The lexicographically smallest placement of the contents from index i on. */
  ghost predicate IsFirst(data: seq<byte>, cs: seq<ContentSpec>, i: nat, prevEnd: int, ps: seq<int>)
    requires i <= |cs|
  {
    && Solves(data, cs, i, prevEnd, ps)
    && forall qs :: Solves(data, cs, i, prevEnd, qs) ==> LexLe(ps, qs)
  }

  ghost predicate Hopeless(data: seq<byte>, cs: seq<ContentSpec>, i: nat, prevEnd: int)
    requires i <= |cs|
  {
    forall qs :: !Solves(data, cs, i, prevEnd, qs)
  }

  // ---------------------------------------------------------------- the whole chain, position by position

  /** Where the content before index i of the placement `ps` ended; 0 for the first content. */
  function EndBefore(cs: seq<ContentSpec>, ps: seq<int>, i: nat): int
    requires i <= |ps| && i <= |cs|
  {
    if i == 0 then 0 else ps[i - 1] + |cs[i - 1].pattern|
  }

  /** Every content of the rule lies inside its own window. */
  ghost predicate Placement(data: seq<byte>, cs: seq<ContentSpec>, ps: seq<int>) {
    && |ps| == |cs|
    && forall i :: 0 <= i < |cs| ==> Admits(data, cs[i], EndBefore(cs, ps, i), ps[i])
  }

  lemma {:induction false} SolvesSuffix(data: seq<byte>, cs: seq<ContentSpec>, ps: seq<int>, i: nat)
    requires |ps| == |cs| && i <= |cs|
    ensures Solves(data, cs, i, EndBefore(cs, ps, i), ps[i..])
            <==> forall j :: i <= j < |cs| ==> Admits(data, cs[j], EndBefore(cs, ps, j), ps[j])
    decreases |cs| - i
  {
    if i < |cs| {
      assert ps[i..][1..] == ps[i + 1..];
      SolvesSuffix(data, cs, ps, i + 1);
    }
  }

  lemma {:induction false} SolutionLength(data: seq<byte>, cs: seq<ContentSpec>, i: nat, prevEnd: int, ps: seq<int>)
    requires i <= |cs| && Solves(data, cs, i, prevEnd, ps)
    ensures |ps| == |cs| - i
    decreases |cs| - i
  {
    if i < |cs| {
      SolutionLength(data, cs, i + 1, ps[0] + |cs[i].pattern|, ps[1..]);
    }
  }

  lemma SolvesIsPlacement(data: seq<byte>, cs: seq<ContentSpec>, ps: seq<int>)
    ensures Solves(data, cs, 0, 0, ps) <==> Placement(data, cs, ps)
  {
    if Solves(data, cs, 0, 0, ps) {
      SolutionLength(data, cs, 0, 0, ps);
    }
    if |ps| == |cs| {
      assert ps[0..] == ps;
      SolvesSuffix(data, cs, ps, 0);
    }
  }

  lemma {:induction false} LexAntisymmetric(a: seq<int>, b: seq<int>)
    requires |a| == |b| && LexLe(a, b) && LexLe(b, a)
    ensures a == b
  {
    if a != [] {
      LexAntisymmetric(a[1..], b[1..]);
    }
  }

  /** There is at most one lexicographically first placement. */
  lemma FirstIsUnique(data: seq<byte>, cs: seq<ContentSpec>, i: nat, prevEnd: int, ps: seq<int>, qs: seq<int>)
    requires i <= |cs| && IsFirst(data, cs, i, prevEnd, ps) && IsFirst(data, cs, i, prevEnd, qs)
    ensures ps == qs
  {
    SolutionLength(data, cs, i, prevEnd, ps);
    SolutionLength(data, cs, i, prevEnd, qs);
    LexAntisymmetric(ps, qs);
  }

  // ---------------------------------------------------------------- find

  predicate At(hay: seq<byte>, needle: seq<byte>, stop: int, q: int) {
    0 <= q && q + |needle| <= stop <= |hay| && hay[q..q + |needle|] == needle
  }

  /** bytes.find(needle, start, stop) as the first-occurrence loop it is. */
  method BytesFind(hay: seq<byte>, needle: seq<byte>, start: int, stop: int) returns (pos: int)
    requires 0 <= start <= stop <= |hay| && needle != []
    ensures pos == -1 || (start <= pos && At(hay, needle, stop, pos))
    ensures forall q :: start <= q && At(hay, needle, stop, q) ==> 0 <= pos <= q
  {
    pos := start;
    while pos + |needle| <= stop
      invariant start <= pos
      invariant forall q :: start <= q < pos ==> !At(hay, needle, stop, q)
    {
      if hay[pos..pos + |needle|] == needle { return; }
      pos := pos + 1;
    }
    pos := -1;
  }

  lemma LowerSlice(s: seq<byte>, lo: int, hi: int)
    requires 0 <= lo <= hi <= |s|
    ensures Lower(s)[lo..hi] == Lower(s[lo..hi])
  {
  }

  /** The least position at which the pattern occurs in the window, or -1 when there is none.
      An empty `data` stands for a missing or empty payload. */
  method Find(data: seq<byte>, pattern: seq<byte>, nocase: bool, start: int, end: Option<int>,
              lowered: Option<seq<byte>>) returns (pos: int)
    requires lowered.Some? && |lowered.value| == |data| ==> lowered.value == Lower(data)
    ensures pos == -1 || Occurs(data, pattern, nocase, start, end, pos)
    ensures forall q :: Occurs(data, pattern, nocase, start, end, q) ==> 0 <= pos <= q
  {
    if data == [] || pattern == [] { return -1; }
    var from := Max(0, start);
    var stop := Stop(data, end);
    if from >= stop || |pattern| > stop - from { return -1; }
    if nocase {
      var low := if lowered.None? || |lowered.value| != |data| then Lower(data) else lowered.value;
      pos := BytesFind(low, Lower(pattern), from, stop);
      forall q | Occurs(data, pattern, nocase, start, end, q) || (from <= q && At(low, Lower(pattern), stop, q))
        ensures Occurs(data, pattern, nocase, start, end, q) && At(low, Lower(pattern), stop, q)
      {
        LowerSlice(data, q, q + |pattern|);
      }
      assert pos != -1 ==> Occurs(data, pattern, nocase, start, end, pos);
    } else {
      pos := BytesFind(data, pattern, from, stop);
      assert forall q :: Occurs(data, pattern, nocase, start, end, q) ==> At(data, pattern, stop, q);
    }
  }

  // ---------------------------------------------------------------- match_chain

  datatype State = State(index: nat, prevEnd: int)

  /** The state a failure is remembered under: an absolute content ignores prevEnd. */
  function StateOf(cs: seq<ContentSpec>, i: nat, prevEnd: int): State
    requires i < |cs|
  {
    State(i, if IsRelative(cs[i]) then prevEnd else 0)
  }

  /** Sharing one state per absolute content loses nothing: the outcome depends on the state alone. */
  lemma SameStateSameOutcome(data: seq<byte>, cs: seq<ContentSpec>, i: nat, prevEnd: int, e: int)
    requires i < |cs| && StateOf(cs, i, prevEnd) == StateOf(cs, i, e)
    ensures Hopeless(data, cs, i, prevEnd) <==> Hopeless(data, cs, i, e)
    ensures forall ps :: IsFirst(data, cs, i, prevEnd, ps) <==> IsFirst(data, cs, i, e, ps)
  {
    forall ps
      ensures Solves(data, cs, i, prevEnd, ps) <==> Solves(data, cs, i, e, ps)
    {
    }
  }

  function Row(i: nat, n: nat): set<State> {
    if n == 0 then {State(i, 0)} else Row(i, n - 1) + {State(i, n)}
  }

  /** Every state the search can reach: k contents, and a previous end in 0..n. */
  function Grid(k: nat, n: nat): set<State> {
    if k == 0 then {} else Grid(k - 1, n) + Row(k - 1, n)
  }

  lemma {:induction false} RowSize(i: nat, n: nat)
    ensures |Row(i, n)| == n + 1
    ensures forall s :: s in Row(i, n) <==> s.index == i && 0 <= s.prevEnd <= n
  {
    if n > 0 {
      RowSize(i, n - 1);
    }
  }

  lemma {:induction false} GridMembers(k: nat, n: nat)
    ensures forall s :: s in Grid(k, n) <==> s.index < k && 0 <= s.prevEnd <= n
  {
    hide Row;
    if k > 0 {
      GridMembers(k - 1, n);
      RowSize(k - 1, n);
    }
  }

  lemma OnGrid(k: nat, n: nat, s: State)
    requires s.index < k && 0 <= s.prevEnd <= n
    ensures s in Grid(k, n)
  {
    GridMembers(k, n);
  }

  /** What `states` expansions may cost: n + 1 calls of find each. */
  function Cost(n: nat, states: nat): nat {
    if states == 0 then 0 else Cost(n, states - 1) + n + 1
  }

  lemma {:induction false} CostIsProduct(n: nat, states: nat)
    ensures Cost(n, states) == states * (n + 1)
  {
    if states > 0 {
      CostIsProduct(n, states - 1);
    }
  }

  lemma {:induction false} CostIsMonotone(n: nat, a: nat, b: nat)
    requires a <= b
    ensures Cost(n, a) <= Cost(n, b)
  {
    if a < b {
      CostIsMonotone(n, a, b - 1);
    }
  }

  lemma {:induction false} GridSize(k: nat, n: nat)
    ensures |Grid(k, n)| == Cost(n, k)
  {
    hide Row;
    if k > 0 {
      GridSize(k - 1, n);
      GridMembers(k - 1, n);
      RowSize(k - 1, n);
      assert Grid(k - 1, n) !! Row(k - 1, n);
    }
  }

  lemma {:induction false} SubsetSize(a: set<State>, b: set<State>)
    requires a <= b
    ensures |a| <= |b|
  {
    if a != {} {
      var x :| x in a;
      SubsetSize(a - {x}, b - {x});
    }
  }

  function Pairs(cs: seq<ContentSpec>, i: nat, ps: seq<int>): seq<(int, int)>
    requires i + |ps| <= |cs|
  {
    seq(|ps|, j requires 0 <= j < |ps| => (ps[j], |cs[i + j].pattern|))
  }

  /** Every admitted position of content i before `start` leads nowhere. */
  ghost predicate TriedBelow(data: seq<byte>, cs: seq<ContentSpec>, i: nat, prevEnd: int, start: int)
    requires i < |cs|
  {
    forall q :: q < start && Admits(data, cs[i], prevEnd, q) ==> Hopeless(data, cs, i + 1, q + |cs[i].pattern|)
  }

  lemma NothingLeftIsFirst(data: seq<byte>, cs: seq<ContentSpec>, prevEnd: int)
    ensures IsFirst(data, cs, |cs|, prevEnd, []) && Pairs(cs, |cs|, []) == []
  {
  }

  /** The first position that leads somewhere, followed by the first placement after it, is first. */
  lemma FirstExtends(data: seq<byte>, cs: seq<ContentSpec>, i: nat, prevEnd: int, pos: int, rest: seq<int>)
    requires i < |cs| && TriedBelow(data, cs, i, prevEnd, pos) && Admits(data, cs[i], prevEnd, pos)
    requires |rest| == |cs| - i - 1 && IsFirst(data, cs, i + 1, pos + |cs[i].pattern|, rest)
    ensures IsFirst(data, cs, i, prevEnd, [pos] + rest)
  {
    var ps := [pos] + rest;
    assert ps[1..] == rest;
    forall qs | Solves(data, cs, i, prevEnd, qs)
      ensures LexLe(ps, qs)
    {
      assert Solves(data, cs, i + 1, qs[0] + |cs[i].pattern|, qs[1..]);
    }
  }

  lemma PairsCons(cs: seq<ContentSpec>, i: nat, pos: int, rest: seq<int>)
    requires i < |cs| && |rest| == |cs| - i - 1
    ensures Pairs(cs, i, [pos] + rest) == [(pos, |cs[i].pattern|)] + Pairs(cs, i + 1, rest)
  {
    var left, right := Pairs(cs, i, [pos] + rest), [(pos, |cs[i].pattern|)] + Pairs(cs, i + 1, rest);
    forall j | 0 <= j < |left|
      ensures left[j] == right[j]
    {
      assert j > 0 ==> ([pos] + rest)[j] == rest[j - 1];
    }
  }

  /** `pos` is what find gives when asked to go on from `start`. */
  ghost predicate IsNext(data: seq<byte>, spec: ContentSpec, prevEnd: int, start: int, pos: int) {
    && (pos == -1 || (Max(0, start) <= pos < pos + |spec.pattern| <= |data| && Admits(data, spec, prevEnd, pos)))
    && forall q :: start <= q && Admits(data, spec, prevEnd, q) ==> 0 <= pos <= q
  }

  lemma FindIsNext(data: seq<byte>, spec: ContentSpec, prevEnd: int, start: int, end: Option<int>, pos: int)
    requires Window(spec, prevEnd).0 <= start && Window(spec, prevEnd).1 == end
    requires pos == -1 || Occurs(data, spec.pattern, spec.nocase, start, end, pos)
    requires forall q :: Occurs(data, spec.pattern, spec.nocase, start, end, q) ==> 0 <= pos <= q
    ensures IsNext(data, spec, prevEnd, start, pos)
  {
    forall q | start <= q && Admits(data, spec, prevEnd, q)
      ensures Occurs(data, spec.pattern, spec.nocase, start, end, q)
    {
    }
  }

  lemma NoneTried(data: seq<byte>, cs: seq<ContentSpec>, i: nat, prevEnd: int)
    requires i < |cs|
    ensures TriedBelow(data, cs, i, prevEnd, Window(cs[i], prevEnd).0)
  {
  }

  lemma TriedOneMore(data: seq<byte>, cs: seq<ContentSpec>, i: nat, prevEnd: int, start: int, pos: int)
    requires i < |cs| && TriedBelow(data, cs, i, prevEnd, start)
    requires IsNext(data, cs[i], prevEnd, start, pos) && pos != -1
    ensures TriedBelow(data, cs, i, prevEnd, pos)
    ensures Hopeless(data, cs, i + 1, pos + |cs[i].pattern|) ==> TriedBelow(data, cs, i, prevEnd, pos + 1)
  {
  }

  lemma AllTried(data: seq<byte>, cs: seq<ContentSpec>, i: nat, prevEnd: int, start: int)
    requires i < |cs| && TriedBelow(data, cs, i, prevEnd, start)
    requires IsNext(data, cs[i], prevEnd, start, -1)
    ensures Hopeless(data, cs, i, prevEnd)
    ensures Hopeless(data, cs, i, StateOf(cs, i, prevEnd).prevEnd)
  {
    SameStateSameOutcome(data, cs, i, prevEnd, StateOf(cs, i, prevEnd).prevEnd);
    forall qs ensures !Solves(data, cs, i, prevEnd, qs) {}
  }

  /** The variables shared by match_chain and its inner search. Three ghosts measure the work:
      `finds` counts the calls of find, `expanded` holds the states whose occurrences were
      enumerated, and `budget` grows by |data| + 1 for each of them. */
  class ChainSearch {
    const data: seq<byte>
    const contents: seq<ContentSpec>
    const lowered: Option<seq<byte>>
    var failed: set<State>
    var path: seq<(int, int)>
    ghost var finds: nat
    ghost var expanded: set<State>
    ghost var budget: nat

    constructor (data: seq<byte>, contents: seq<ContentSpec>, lowered: Option<seq<byte>>)
      requires lowered.Some? && |lowered.value| == |data| ==> lowered.value == Lower(data)
      ensures this.data == data && this.contents == contents && this.lowered == lowered
      ensures failed == {} && path == [] && finds == 0 && expanded == {} && budget == 0
    {
      this.data, this.contents, this.lowered := data, contents, lowered;
      failed, path, finds, expanded, budget := {}, [], 0, {}, 0;
    }

    /** Every remembered failure is a real one, and is on the grid. */
    ghost predicate Memo()
      reads this
    {
      && (lowered.Some? && |lowered.value| == |data| ==> lowered.value == Lower(data))
      && expanded <= Grid(|contents|, |data|)
      && (forall s :: s in failed ==> s in expanded)
      && (forall s :: s in failed ==> s.index < |contents| && Hopeless(data, contents, s.index, s.prevEnd))
      && budget == Cost(|data|, |expanded|)
    }

    /** No state at index i or later is being expanded right now. */
    ghost predicate NothingOpenFrom(i: nat)
      reads this
    {
      forall s :: s in expanded && i <= s.index ==> s in failed
    }

    /** search(i, prev_end). */
    method Search(i: nat, prevEnd: int) returns (ok: bool, ghost sol: seq<int>)
      requires i <= |contents| && 0 <= prevEnd <= |data|
      requires Memo() && NothingOpenFrom(i)
      modifies this
      decreases |contents| - i, 1
      ensures Memo() && old(failed) <= failed && old(expanded) <= expanded
      ensures forall s :: s in expanded && s !in old(expanded) ==> i <= s.index
      ensures finds - old(finds) <= budget - old(budget)
      ensures ok ==> IsFirst(data, contents, i, prevEnd, sol) && |sol| == |contents| - i
      ensures ok ==> path == old(path) + Pairs(contents, i, sol)
      ensures !ok ==> Hopeless(data, contents, i, prevEnd)
      ensures !ok ==> path == old(path) && NothingOpenFrom(i)
    {
      if i == |contents| {
        NothingLeftIsFirst(data, contents, prevEnd);
        return true, [];
      }
      var state := State(i, if IsRelative(contents[i]) then prevEnd else 0);
      SameStateSameOutcome(data, contents, i, prevEnd, state.prevEnd);
      if state in failed { return false, []; }
      OnGrid(|contents|, |data|, state);
      expanded, budget := expanded + {state}, budget + |data| + 1;
      ok, sol := TryOccurrences(i, prevEnd);
      if !ok {
        failed := failed + {state};
      }
    }

    /** The loop of search: every occurrence of content i in its window, left to right. */
    method TryOccurrences(i: nat, prevEnd: int) returns (ok: bool, ghost sol: seq<int>)
      requires i < |contents| && 0 <= prevEnd <= |data|
      requires Memo() && NothingOpenFrom(i + 1)
      modifies this
      decreases |contents| - i, 0
      ensures Memo() && old(failed) <= failed && old(expanded) <= expanded
      ensures forall s :: s in expanded && s !in old(expanded) ==> i < s.index
      ensures finds - old(finds) <= budget - old(budget) + |data| + 1
      ensures ok ==> IsFirst(data, contents, i, prevEnd, sol) && |sol| == |contents| - i
      ensures ok ==> path == old(path) + Pairs(contents, i, sol)
      ensures !ok ==> Hopeless(data, contents, i, prevEnd)
      ensures !ok ==> path == old(path) && NothingOpenFrom(i + 1)
    {
      hide Admits, Solves, Window, Grid, TriedBelow, IsFirst, Hopeless, Occurs, Cost;
      var spec := contents[i];
      var (start, end) := Window(spec, prevEnd);
      var length := |spec.pattern|;
      NoneTried(data, contents, i, prevEnd);
      ghost var tries := 0;
      while true
        invariant Memo() && old(failed) <= failed && old(expanded) <= expanded
        invariant forall s :: s in expanded && s !in old(expanded) ==> i < s.index
        invariant NothingOpenFrom(i + 1) && path == old(path)
        invariant end == Window(spec, prevEnd).1 && Window(spec, prevEnd).0 <= start
        invariant tries == 0 || tries <= start <= |data|
        invariant finds - old(finds) <= budget - old(budget) + tries
        invariant TriedBelow(data, contents, i, prevEnd, start)
        decreases |data| - start
      {
        var pos := Find(data, spec.pattern, spec.nocase, start, end, lowered);
        finds := finds + 1;
        FindIsNext(data, spec, prevEnd, start, end, pos);
        if pos < 0 {
          AllTried(data, contents, i, prevEnd, start);
          return false, [];
        }
        TriedOneMore(data, contents, i, prevEnd, start, pos);
        path := path + [(pos, length)];
        ghost var rest;
        ok, rest := Search(i + 1, pos + length);
        if ok {
          sol := [pos] + rest;
          FirstExtends(data, contents, i, prevEnd, pos, rest);
          PairsCons(contents, i, pos, rest);
          return;
        }
        path := path[..|path| - 1];
        start := pos + 1;
        tries := tries + 1;
      }
    }
  }

  /** The least position of content i from which the chain can be completed. */
  lemma {:induction false} FirstHead(data: seq<byte>, cs: seq<ContentSpec>, i: nat, prevEnd: int, pos: int)
    returns (q: int)
    requires i < |cs| && Admits(data, cs[i], prevEnd, pos) && !Hopeless(data, cs, i + 1, pos + |cs[i].pattern|)
    ensures TriedBelow(data, cs, i, prevEnd, q) && Admits(data, cs[i], prevEnd, q)
    ensures !Hopeless(data, cs, i + 1, q + |cs[i].pattern|)
    decreases pos
  {
    hide Hopeless, Solves;
    q := pos;
    if !TriedBelow(data, cs, i, prevEnd, pos) {
      q :| q < pos && Admits(data, cs[i], prevEnd, q) && !Hopeless(data, cs, i + 1, q + |cs[i].pattern|);
      q := FirstHead(data, cs, i, prevEnd, q);
    }
  }

  lemma SomeHead(data: seq<byte>, cs: seq<ContentSpec>, i: nat, prevEnd: int) returns (pos: int)
    requires i < |cs| && !Hopeless(data, cs, i, prevEnd)
    ensures Admits(data, cs[i], prevEnd, pos) && !Hopeless(data, cs, i + 1, pos + |cs[i].pattern|)
  {
    var qs :| Solves(data, cs, i, prevEnd, qs);
    pos := qs[0];
    assert Solves(data, cs, i + 1, pos + |cs[i].pattern|, qs[1..]);
  }

  /** Whenever some placement exists, a lexicographically first one does. */
  lemma {:induction false} FirstExists(data: seq<byte>, cs: seq<ContentSpec>, i: nat, prevEnd: int)
    returns (ps: seq<int>)
    requires i <= |cs| && !Hopeless(data, cs, i, prevEnd)
    ensures IsFirst(data, cs, i, prevEnd, ps) && |ps| == |cs| - i
    decreases |cs| - i
  {
    if i == |cs| {
      NothingLeftIsFirst(data, cs, prevEnd);
      return [];
    }
    hide Admits, Solves, Hopeless, TriedBelow, IsFirst;
    var pos := SomeHead(data, cs, i, prevEnd);
    pos := FirstHead(data, cs, i, prevEnd, pos);
    var rest := FirstExists(data, cs, i + 1, pos + |cs[i].pattern|);
    FirstExtends(data, cs, i, prevEnd, pos, rest);
    ps := [pos] + rest;
  }

  /** What match_chain stands for: the lexicographically first placement, if there is one. */
  ghost function Chain(data: seq<byte>, cs: seq<ContentSpec>): (r: Option<seq<int>>)
    ensures r.Some? ==> |r.value| == |cs|
  {
    if exists ps :: IsFirst(data, cs, 0, 0, ps) then
      var ps :| IsFirst(data, cs, 0, 0, ps);
      SolutionLength(data, cs, 0, 0, ps);
      Some(ps)
    else None
  }

  /** Some placement exists exactly when Chain has one; Chain's is a placement and no placement
      comes before it. */
  lemma ChainIsFirstPlacement(data: seq<byte>, cs: seq<ContentSpec>)
    ensures Chain(data, cs).Some? <==> exists ps :: Placement(data, cs, ps)
    ensures Chain(data, cs).Some? ==> Placement(data, cs, Chain(data, cs).value)
    ensures forall ps :: Placement(data, cs, ps) ==> Chain(data, cs).Some? && LexLe(Chain(data, cs).value, ps)
  {
    forall ps
      ensures Solves(data, cs, 0, 0, ps) <==> Placement(data, cs, ps)
    {
      SolvesIsPlacement(data, cs, ps);
    }
    if qs :| Placement(data, cs, qs) {
      assert Solves(data, cs, 0, 0, qs);
      var ps := FirstExists(data, cs, 0, 0);
    }
  }

  /** match_chain: the memoised search finds the first placement exactly when there is one, and
      calls find at most k * (n + 1) * (n + 1) times. */
  method MatchChain(payload: seq<byte>, cs: seq<ContentSpec>, lowered: Option<seq<byte>>)
    returns (r: Option<seq<(int, int)>>, ghost finds: nat)
    requires lowered.Some? && |lowered.value| == |payload| ==> lowered.value == Lower(payload)
    ensures r.Some? <==> exists ps :: Placement(payload, cs, ps)
    ensures r.Some? ==> Chain(payload, cs).Some? && r == Some(Pairs(cs, 0, Chain(payload, cs).value))
    ensures finds <= |cs| * (|payload| + 1) * (|payload| + 1)
  {
    hide Placement, Cost, Grid, Chain, IsFirst, Solves;
    ChainIsFirstPlacement(payload, cs);
    finds := 0;
    if cs == [] {
      EmptyChain(payload, cs);
      return Some([]), 0;
    }
    if payload == [] {
      EmptyChain(payload, cs);
      return None, 0;
    }
    var low := if lowered.None? && exists c :: c in cs && c.nocase then Some(Lower(payload)) else lowered;
    var search := new ChainSearch(payload, cs, low);
    NoWorkYet(|cs|, |payload|);
    var ok;
    ghost var sol;
    ok, sol := search.Search(0, 0);
    finds := search.finds;
    WorkBound(|cs|, |payload|, search.expanded);
    SearchDecides(payload, cs, ok, sol);
    if ok {
      assert search.path == Pairs(cs, 0, sol);
      return Some(search.path), finds;
    }
    return None, finds;
  }

  lemma NoWorkYet(k: nat, n: nat)
    ensures Cost(n, 0) == 0 && {} <= Grid(k, n)
  {
  }

  lemma EmptyChain(payload: seq<byte>, cs: seq<ContentSpec>)
    ensures cs == [] ==> Placement(payload, cs, []) && Chain(payload, cs) == Some([]) && Pairs(cs, 0, []) == []
    ensures cs != [] && payload == [] ==> forall ps :: !Placement(payload, cs, ps)
  {
    ChainIsFirstPlacement(payload, cs);
    if cs == [] {
      assert Placement(payload, cs, []);
    } else if payload == [] {
      forall ps ensures !Placement(payload, cs, ps) {
        assert |ps| == |cs| ==> !Admits(payload, cs[0], EndBefore(cs, ps, 0), ps[0]);
      }
    }
  }

  lemma SearchDecides(data: seq<byte>, cs: seq<ContentSpec>, ok: bool, sol: seq<int>)
    requires ok ==> IsFirst(data, cs, 0, 0, sol) && |sol| == |cs|
    requires !ok ==> Hopeless(data, cs, 0, 0)
    ensures ok ==> Placement(data, cs, sol) && Chain(data, cs) == Some(sol)
    ensures !ok ==> forall ps :: !Placement(data, cs, ps)
  {
    if ok {
      SolvesIsPlacement(data, cs, sol);
      FirstIsUnique(data, cs, 0, 0, sol, Chain(data, cs).value);
    } else {
      forall ps ensures !Placement(data, cs, ps) {
        SolvesIsPlacement(data, cs, ps);
      }
    }
  }

  lemma WorkBound(k: nat, n: nat, expanded: set<State>)
    requires expanded <= Grid(k, n)
    ensures Cost(n, |expanded|) <= k * (n + 1) * (n + 1)
  {
    SubsetSize(expanded, Grid(k, n));
    GridSize(k, n);
    CostIsProduct(n, k);
    CostIsMonotone(n, |expanded|, k * (n + 1));
    CostIsProduct(n, k * (n + 1));
  }

  /** One entry of Detection.matched. */
  datatype Detail = HeaderOnly | ContentAt(value: string, offset: int, length: int)

  function Details(cs: seq<ContentSpec>, ps: seq<int>): seq<Detail>
    requires |ps| == |cs|
  {
    seq(|cs|, j requires 0 <= j < |cs| => ContentAt(cs[j].raw, ps[j], |cs[j].pattern|))
  }

  /** match_contents: one entry per content in rule order, where the finally successful combination put it. */
  method MatchContents(cs: seq<ContentSpec>, payload: seq<byte>, lowered: Option<seq<byte>>)
    returns (r: Option<seq<Detail>>)
    requires lowered.Some? && |lowered.value| == |payload| ==> lowered.value == Lower(payload)
    ensures r.Some? <==> Chain(payload, cs).Some?
    ensures r.Some? ==> |Chain(payload, cs).value| == |cs| && r.value == Details(cs, Chain(payload, cs).value)
  {
    ChainIsFirstPlacement(payload, cs);
    var chain;
    ghost var finds;
    chain, finds := MatchChain(payload, cs, lowered);
    if chain.None? { return None; }
    r := Some(seq(|cs|, j requires 0 <= j < |cs| => ContentAt(cs[j].raw, chain.value[j].0, chain.value[j].1)));
  }
}

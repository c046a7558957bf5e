/** Where match_chain lets a content lie, in terms of the rule's own numbers and of the payload's bytes. */
module ContentWindows {
  import opened Common
  import opened ContentMatcher

  // ---------------------------------------------------------------- one content

  /** Equal bytes; under nocase also the two cases of one ASCII letter. */
  predicate SameByte(nocase: bool, a: byte, b: byte) {
    a == b || (nocase && 0x41 <= a <= 0x5A && b == a + 0x20) || (nocase && 0x41 <= b <= 0x5A && a == b + 0x20)
  }

  /** The pattern reads at pos, byte by byte. */
  predicate Reads(data: seq<byte>, spec: ContentSpec, pos: int) {
    && spec.pattern != [] && 0 <= pos && pos + |spec.pattern| <= |data|
    && forall j :: 0 <= j < |spec.pattern| ==> SameByte(spec.nocase, data[pos + j], spec.pattern[j])
  }

  function Or(x: Option<int>, default: int): int {
    if x.Some? then x.value else default
  }

  /** distance and within count from where the content before ended, offset and depth from the start of the
      payload; one of the first two makes the other two count for nothing. */
  predicate InReach(spec: ContentSpec, prevEnd: int, pos: int) {
    var end := pos + |spec.pattern|;
    if spec.distance.Some? || spec.within.Some? then
      && pos >= prevEnd + Or(spec.distance, 0)
      && (spec.within.Some? ==> end <= Max(0, prevEnd + Or(spec.distance, 0)) + spec.within.value)
    else
      && pos >= Or(spec.offset, 0)
      && (spec.depth.Some? ==> end <= Or(spec.offset, 0) + spec.depth.value)
  }

  lemma LowerIsSame(a: byte, b: byte)
    ensures LowerByte(a) == LowerByte(b) <==> SameByte(true, a, b)
  {
  }

  lemma CasedIsSame(nocase: bool, s: seq<byte>, t: seq<byte>)
    requires |s| == |t|
    ensures Cased(nocase, s) == Cased(nocase, t) <==> forall j :: 0 <= j < |s| ==> SameByte(nocase, s[j], t[j])
  {
    hide SameByte, LowerByte;
    forall j | 0 <= j < |s|
      ensures SameByte(true, s[j], t[j]) <==> LowerByte(s[j]) == LowerByte(t[j])
      ensures SameByte(false, s[j], t[j]) <==> s[j] == t[j]
    {
      LowerIsSame(s[j], t[j]);
      CasedByte(s[j], t[j]);
    }
    if Cased(nocase, s) == Cased(nocase, t) {
      assert nocase ==> forall j :: 0 <= j < |s| ==> Lower(s)[j] == Lower(t)[j];
    }
  }

  lemma CasedByte(a: byte, b: byte)
    ensures SameByte(false, a, b) <==> a == b
  {
  }

  /** A content may lie at pos exactly when its bytes read there and pos is in reach. */
  lemma AdmitsExactly(data: seq<byte>, spec: ContentSpec, prevEnd: int, pos: int)
    ensures Admits(data, spec, prevEnd, pos) <==> Reads(data, spec, pos) && InReach(spec, prevEnd, pos)
  {
    hide SameByte, Cased;
    var p := spec.pattern;
    if 0 <= pos && pos + |p| <= |data| {
      var s := data[pos..pos + |p|];
      CasedIsSame(spec.nocase, s, p);
      assert forall j :: 0 <= j < |p| ==> s[j] == data[pos + j];
    }
  }

  // ---------------------------------------------------------------- the chain

  /** The end of the content before the i-th, 0 for the first. */
  function EndOf(cs: seq<ContentSpec>, ps: seq<int>, i: nat): int
    requires i <= |cs| && i <= |ps|
  {
    if i == 0 then 0 else ps[i - 1] + |cs[i - 1].pattern|
  }

  ghost predicate Laid(data: seq<byte>, cs: seq<ContentSpec>, ps: seq<int>) {
    && |ps| == |cs|
    && forall i :: 0 <= i < |cs| ==> Reads(data, cs[i], ps[i]) && InReach(cs[i], EndOf(cs, ps, i), ps[i])
  }

  /** The placements match_chain looks for are exactly these. */
  lemma PlacementExactly(data: seq<byte>, cs: seq<ContentSpec>, ps: seq<int>)
    ensures Placement(data, cs, ps) <==> Laid(data, cs, ps)
  {
    hide Admits, Reads, InReach;
    if |ps| == |cs| {
      forall i | 0 <= i < |cs|
        ensures Admits(data, cs[i], EndBefore(cs, ps, i), ps[i])
                <==> Reads(data, cs[i], ps[i]) && InReach(cs[i], EndOf(cs, ps, i), ps[i])
      {
        AdmitsExactly(data, cs[i], EndOf(cs, ps, i), ps[i]);
      }
    }
  }

  /** match_chain finds something exactly when the contents can be laid so, and then finds the first way. */
  lemma ChainExactly(data: seq<byte>, cs: seq<ContentSpec>)
    ensures Chain(data, cs).Some? <==> exists ps :: Laid(data, cs, ps)
    ensures Chain(data, cs).Some? ==> Laid(data, cs, Chain(data, cs).value)
    ensures forall ps :: Laid(data, cs, ps) ==> Chain(data, cs).Some? && LexLe(Chain(data, cs).value, ps)
  {
    hide Placement, Laid, Chain;
    ChainIsFirstPlacement(data, cs);
    forall ps
      ensures Placement(data, cs, ps) <==> Laid(data, cs, ps)
    {
      PlacementExactly(data, cs, ps);
    }
  }

  /** What a match reports: the k-th entry shows the k-th content's text and where in the payload its bytes
      read, within reach of the end of the entry before. */
  lemma FoundWhereReported(data: seq<byte>, cs: seq<ContentSpec>, k: nat)
    requires cs != [] && k < |cs| && Chain(data, cs).Some?
    ensures |Details(cs, Chain(data, cs).value)| == |cs|
    ensures var ds := Details(cs, Chain(data, cs).value);
            && ds[k].ContentAt? && ds[k].value == cs[k].raw && ds[k].length == |cs[k].pattern|
            && Reads(data, cs[k], ds[k].offset)
            && (k > 0 ==> ds[k - 1].ContentAt?)
            && InReach(cs[k], if k == 0 then 0 else ds[k - 1].offset + ds[k - 1].length, ds[k].offset)
  {
    hide Chain, Reads, InReach;
    ChainExactly(data, cs);
    var ps := Chain(data, cs).value;
    assert Reads(data, cs[k], ps[k]) && InReach(cs[k], EndOf(cs, ps, k), ps[k]);
  }

  // ---------------------------------------------------------------- as payloads

  /** A case-sensitive content. */
  function Plain(p: seq<byte>): ContentSpec {
    ContentSpec("", p, false, None, None, None, None)
  }

  lemma ReadsIsSlice(data: seq<byte>, spec: ContentSpec, pos: int)
    requires !spec.nocase
    ensures Reads(data, spec, pos) <==> spec.pattern != [] && 0 <= pos && pos + |spec.pattern| <= |data|
                                        && data[pos..pos + |spec.pattern|] == spec.pattern
  {
    var p := spec.pattern;
    if 0 <= pos && pos + |p| <= |data| {
      var s := data[pos..pos + |p|];
      assert forall j :: 0 <= j < |p| ==> s[j] == data[pos + j];
    }
  }

  /** data is x, then a, then y. */
  predicate Around(data: seq<byte>, x: seq<byte>, a: seq<byte>, y: seq<byte>) {
    data == x + a + y
  }

  /** The content lies at the end of x, within its offset and depth. */
  predicate OffsetFits(x: seq<byte>, a: seq<byte>, offset: nat, depth: Option<nat>) {
    offset <= |x| && (depth.Some? ==> |x| + |a| <= offset + depth.value)
  }

  lemma OneLaid(data: seq<byte>, a: seq<byte>, offset: nat, depth: Option<nat>, pos: int)
    requires a != []
    ensures Laid(data, [Plain(a).(offset := Some(offset), depth := depth)], [pos])
            <==> 0 <= pos && pos + |a| <= |data| && data[pos..pos + |a|] == a
                 && OffsetFits(data[..pos], a, offset, depth)
  {
    hide Reads;
    var spec := Plain(a).(offset := Some(offset), depth := depth);
    var cs, ps := [spec], [pos];
    ReadsIsSlice(data, spec, pos);
    assert Laid(data, cs, ps) <==> Reads(data, cs[0], ps[0]) && InReach(cs[0], EndOf(cs, ps, 0), ps[0]);
  }

  /** One content with an offset and perhaps a depth matches exactly the payloads that have it after as
      many bytes as the offset asks for and no more than the depth leaves. */
  lemma OffsetExactly(data: seq<byte>, a: seq<byte>, offset: nat, depth: Option<nat>)
    requires a != []
    ensures Chain(data, [Plain(a).(offset := Some(offset), depth := depth)]).Some?
            <==> exists x, y :: Around(data, x, a, y) && OffsetFits(x, a, offset, depth)
  {
    hide Chain, Laid;
    var cs := [Plain(a).(offset := Some(offset), depth := depth)];
    ChainExactly(data, cs);
    if ps :| Laid(data, cs, ps) {
      LaidLength(data, cs, ps);
      assert ps == [ps[0]];
      OneLaid(data, a, offset, depth, ps[0]);
      assert Around(data, data[..ps[0]], a, data[ps[0] + |a|..]);
    }
    if x, y :| Around(data, x, a, y) && OffsetFits(x, a, offset, depth) {
      assert data[|x|..|x| + |a|] == a && data[..|x|] == x;
      OneLaid(data, a, offset, depth, |x|);
    }
  }

  /** data is x, then a, then g, then b, then y. */
  predicate TwoAround(data: seq<byte>, x: seq<byte>, a: seq<byte>, g: seq<byte>, b: seq<byte>, y: seq<byte>) {
    data == x + a + g + b + y
  }

  /** The gap between two contents is as long as distance and within allow. */
  predicate GapFits(g: seq<byte>, b: seq<byte>, distance: nat, within: Option<nat>) {
    distance <= |g| && (within.Some? ==> |g| + |b| <= distance + within.value)
  }

  lemma TwoSlices(data: seq<byte>, a: seq<byte>, b: seq<byte>, p: nat, q: nat)
    requires p + |a| <= q && q + |b| <= |data| && data[p..p + |a|] == a && data[q..q + |b|] == b
    ensures TwoAround(data, data[..p], a, data[p + |a|..q], b, data[q + |b|..])
  {
    assert data == data[..p] + data[p..p + |a|] + data[p + |a|..q] + data[q..q + |b|] + data[q + |b|..];
  }

  lemma SlicesBack(data: seq<byte>, x: seq<byte>, a: seq<byte>, g: seq<byte>, b: seq<byte>, y: seq<byte>)
    requires TwoAround(data, x, a, g, b, y)
    ensures var p, q := |x|, |x| + |a| + |g|;
            q + |b| <= |data| && data[p..p + |a|] == a && data[q..q + |b|] == b
  {
  }

  lemma LaidLeavesGap(data: seq<byte>, a: seq<byte>, b: seq<byte>, distance: nat, within: Option<nat>, p: int, q: int)
    requires a != [] && b != []
    requires var cs := [Plain(a), Plain(b).(distance := Some(distance), within := within)]; Laid(data, cs, [p, q])
    ensures 0 <= p && p + |a| <= q && q + |b| <= |data|
    ensures TwoAround(data, data[..p], a, data[p + |a|..q], b, data[q + |b|..])
    ensures GapFits(data[p + |a|..q], b, distance, within)
  {
    hide Reads, TwoAround;
    var first, second := Plain(a), Plain(b).(distance := Some(distance), within := within);
    var cs, ps := [first, second], [p, q];
    assert Reads(data, cs[0], ps[0]) && Reads(data, cs[1], ps[1]) && InReach(cs[1], EndOf(cs, ps, 1), ps[1]);
    assert InReach(cs[0], EndOf(cs, ps, 0), ps[0]);
    ReadsIsSlice(data, first, p);
    ReadsIsSlice(data, second, q);
    TwoSlices(data, a, b, p, q);
  }

  lemma GapIsLaid(data: seq<byte>, a: seq<byte>, b: seq<byte>, distance: nat, within: Option<nat>, x: seq<byte>,
          g: seq<byte>, y: seq<byte>)
    requires a != [] && b != [] && TwoAround(data, x, a, g, b, y) && GapFits(g, b, distance, within)
    ensures Laid(data, [Plain(a), Plain(b).(distance := Some(distance), within := within)], [|x|, |x| + |a| + |g|])
  {
    hide Reads, TwoAround;
    var first, second := Plain(a), Plain(b).(distance := Some(distance), within := within);
    SlicesBack(data, x, a, g, b, y);
    ReadsIsSlice(data, first, |x|);
    ReadsIsSlice(data, second, |x| + |a| + |g|);
  }

  /** Two contents, the second a distance d >= 0 after the first, match exactly the payloads that have both
      with a gap of at least d bytes between them, and no more than `within` leaves. */
  lemma GapExactly(data: seq<byte>, a: seq<byte>, b: seq<byte>, distance: nat, within: Option<nat>)
    requires a != [] && b != []
    ensures Chain(data, [Plain(a), Plain(b).(distance := Some(distance), within := within)]).Some?
            <==> exists x, g, y :: TwoAround(data, x, a, g, b, y) && GapFits(g, b, distance, within)
  {
    hide Chain, Laid, TwoAround, GapFits;
    var cs := [Plain(a), Plain(b).(distance := Some(distance), within := within)];
    ChainExactly(data, cs);
    if ps :| Laid(data, cs, ps) {
      LaidLength(data, cs, ps);
      assert ps == [ps[0], ps[1]];
      LaidLeavesGap(data, a, b, distance, within, ps[0], ps[1]);
    }
    if x, g, y :| TwoAround(data, x, a, g, b, y) && GapFits(g, b, distance, within) {
      GapIsLaid(data, a, b, distance, within, x, g, y);
    }
  }

  lemma LaidLength(data: seq<byte>, cs: seq<ContentSpec>, ps: seq<int>)
    requires Laid(data, cs, ps)
    ensures |ps| == |cs|
  {
  }

  /** In particular `distance:d; within:|b|` leaves no choice: the gap is d bytes long. */
  lemma ExactGap(data: seq<byte>, a: seq<byte>, b: seq<byte>, d: nat)
    requires a != [] && b != []
    ensures Chain(data, [Plain(a), Plain(b).(distance := Some(d), within := Some(|b|))]).Some?
            <==> exists x, g, y :: TwoAround(data, x, a, g, b, y) && |g| == d
  {
    hide Chain, TwoAround;
    GapExactly(data, a, b, d, Some(|b|));
    if x, g, y :| TwoAround(data, x, a, g, b, y) && |g| == d {
      assert GapFits(g, b, d, Some(|b|));
    }
    if x, g, y :| TwoAround(data, x, a, g, b, y) && GapFits(g, b, d, Some(|b|)) {
      assert |g| == d;
    }
  }
}

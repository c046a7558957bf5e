/** src/decoder/url_decoder.py on bytes: percent decoding in several passes, URIs and forms. */
module UrlDecoder {
  import opened Common

  const PERCENT: byte := 0x25
  const PLUS: byte := 0x2B
  const SPACE: byte := 0x20
  const AMP: byte := 0x26
  const EQUALS: byte := 0x3D
  const QUESTION: byte := 0x3F

  function HexValue(b: byte): Option<nat> {
    if 0x30 <= b <= 0x39 then Some(b - 0x30)
    else if 0x61 <= b <= 0x66 then Some(b - 0x61 + 10)
    else if 0x41 <= b <= 0x46 then Some(b - 0x41 + 10)
    else None
  }

  /** s starts with '%' and two hex digits. */
  predicate StartsEscape(s: seq<byte>) {
    |s| >= 3 && s[0] == PERCENT && HexValue(s[1]).Some? && HexValue(s[2]).Some?
  }

  function EscapeValue(s: seq<byte>): byte
    requires StartsEscape(s)
  {
    16 * HexValue(s[1]).value + HexValue(s[2]).value
  }

  /** unquote_to_bytes: one pass; a '%' without two hex digits is left as it is. */
  function Unquote(s: seq<byte>): seq<byte> {
    if s == [] then []
    else if StartsEscape(s) then [EscapeValue(s)] + Unquote(s[3..])
    else [s[0]] + Unquote(s[1..])
  }

  /** Some '%' is not followed by two hex digits. */
  predicate Malformed(s: seq<byte>) {
    exists i :: 0 <= i < |s| && s[i] == PERCENT && !StartsEscape(s[i..])
  }

  function Times(s: seq<byte>, n: nat): seq<byte> {
    if n == 0 then s else Unquote(Times(s, n - 1))
  }

  function Replace(s: seq<byte>, a: byte, b: byte): (r: seq<byte>)
    ensures |r| == |s| && forall i :: 0 <= i < |s| ==> r[i] == if s[i] == a then b else s[i]
  {
    seq(|s|, i requires 0 <= i < |s| => if s[i] == a then b else s[i])
  }

  function Unplus(s: seq<byte>, plus: bool): seq<byte> {
    if plus then Replace(s, PLUS, SPACE) else s
  }

  // ---------------------------------------------------------------- one pass

  lemma {:induction false} NoPercentNoChange(s: seq<byte>)
    requires PERCENT !in s
    ensures Unquote(s) == s && !Malformed(s)
  {
    if s != [] {
      NoPercentNoChange(s[1..]);
    }
  }

  /** A pass either changes nothing or saves at least two bytes. */
  lemma {:induction false} PassSaves(s: seq<byte>)
    ensures Unquote(s) == s || |Unquote(s)| + 2 <= |s|
  {
    if s != [] {
      PassSaves(if StartsEscape(s) then s[3..] else s[1..]);
    }
  }

  lemma {:induction false} FixpointStays(s: seq<byte>, j: nat, n: nat)
    requires j <= n && Unquote(Times(s, j)) == Times(s, j)
    ensures Times(s, n) == Times(s, j)
  {
    if j < n {
      FixpointStays(s, j, n - 1);
    }
  }

  // ---------------------------------------------------------------- several passes

  /** How many of the first n passes change something. */
  function Encodings(s: seq<byte>, n: nat): nat {
    if n == 0 then 0 else Encodings(s, n - 1) + if Times(s, n) != Times(s, n - 1) then 1 else 0
  }

  /** A malformed '%' stands in what one of the first n passes reads. */
  predicate MeetsMalformed(s: seq<byte>, n: nat) {
    exists j :: 0 <= j < n && Malformed(Times(s, j))
  }

  /** The byte part of percent_decode: the loop with its two early exits gives exactly `passes`
      passes; `encodings` counts the passes that changed something, each of which saved two bytes or
      more; `invalid` says whether a malformed '%' was met. */
  method PercentDecode(data: seq<byte>, passes: nat, plusAsSpace: bool)
    returns (out: seq<byte>, encodings: nat, invalid: bool)
    ensures var start := Unplus(data, plusAsSpace);
            out == Times(start, passes) && encodings == Encodings(start, passes)
                && (invalid <==> MeetsMalformed(start, passes))
    ensures 2 * encodings <= |data| - |out| && encodings <= passes
    ensures encodings > 0 <==> out != Unplus(data, plusAsSpace)
  {
    hide Unquote, Times, Malformed, MeetsMalformed, Encodings;
    out, encodings, invalid := data, 0, false;
    if plusAsSpace {
      out := Replace(out, PLUS, SPACE);
    }
    ghost var start := out;
    NoPasses(start);
    var i := 0;
    while i < passes
      invariant 0 <= i <= passes && encodings == i && out == Times(start, i)
      invariant 2 * encodings <= |data| - |out| && encodings == Encodings(start, i)
      invariant invalid <==> MeetsMalformed(start, i)
    {
      OneMorePass(start, i);
      if PERCENT !in out {
        NoPercentNoChange(out);
        NothingNew(start, i, passes);
        break;
      }
      if Malformed(out) {
        invalid := true;
      }
      var decoded := Unquote(out);
      PassSaves(out);
      if decoded == out {
        NothingNew(start, i, passes);
        break;
      }
      out := decoded;
      encodings := encodings + 1;
      i := i + 1;
    }
  }

  lemma NoPasses(s: seq<byte>)
    ensures Times(s, 0) == s && Encodings(s, 0) == 0 && !MeetsMalformed(s, 0)
  {
  }

  lemma OneMorePass(s: seq<byte>, i: nat)
    ensures Times(s, i + 1) == Unquote(Times(s, i))
    ensures Encodings(s, i + 1) == Encodings(s, i) + if Unquote(Times(s, i)) != Times(s, i) then 1 else 0
    ensures MeetsMalformed(s, i + 1) <==> MeetsMalformed(s, i) || Malformed(Times(s, i))
  {
  }

  /** From a fixpoint on, the later passes see and do nothing new. */
  lemma {:induction false} NothingNew(s: seq<byte>, i: nat, passes: nat)
    requires i <= passes && Unquote(Times(s, i)) == Times(s, i)
    ensures Times(s, passes) == Times(s, i) && Encodings(s, passes) == Encodings(s, i)
    ensures MeetsMalformed(s, passes) <==> MeetsMalformed(s, i) || (i < passes && Malformed(Times(s, i)))
  {
    hide Unquote, Malformed, MeetsMalformed, Encodings;
    if i < passes {
      FixpointStays(s, i, passes - 1);
      NothingNew(s, i, passes - 1);
      OneMorePass(s, passes - 1);
    }
  }

  /** decode_uri up to the call of percent_decode: '+' is a blank only after the first '?'. */
  method UriBytes(raw: seq<byte>, plusInQuery: bool) returns (r: seq<byte>)
    ensures |r| == |raw|
    ensures forall i :: 0 <= i < |raw| ==>
              r[i] == if plusInQuery && raw[i] == PLUS && QUESTION in raw[..i] then SPACE else raw[i]
  {
    var q := FindByte(raw, QUESTION);
    if plusInQuery && q != -1 {
      r := raw[..q + 1] + Replace(raw[q + 1..], PLUS, SPACE);
      forall i | 0 <= i < |raw|
        ensures QUESTION in raw[..i] <==> i > q
      {
        if i > q { assert raw[..i][q] == QUESTION; }
      }
    } else {
      r := raw;
    }
  }

  method FindByte(s: seq<byte>, b: byte) returns (r: int)
    ensures r == -1 <==> b !in s
    ensures r != -1 ==> 0 <= r < |s| && s[r] == b && b !in s[..r]
  {
    r := 0;
    while r < |s|
      invariant 0 <= r <= |s| && b !in s[..r]
    {
      if s[r] == b { return; }
      r := r + 1;
    }
    r := -1;
  }

  // ---------------------------------------------------------------- encoding is undone

  const HEX: seq<byte> := [0x30, 0x31, 0x32, 0x33, 0x34, 0x35, 0x36, 0x37, 0x38, 0x39, 0x41, 0x42, 0x43, 0x44, 0x45,
      0x46]

  /** Percent-encode every byte outside `keep`. */
  function Encode(s: seq<byte>, keep: set<byte>): seq<byte> {
    if s == [] then []
    else (if s[0] in keep then [s[0]] else [PERCENT, HEX[s[0] / 16], HEX[s[0] % 16]]) + Encode(s[1..], keep)
  }

  lemma HexRoundTrip(d: nat)
    requires d < 16
    ensures HexValue(HEX[d]) == Some(d)
  {
  }

  lemma EscapeDecodes(b: byte, rest: seq<byte>)
    ensures Unquote([PERCENT, HEX[b / 16], HEX[b % 16]] + rest) == [b] + Unquote(rest)
  {
    var s := [PERCENT, HEX[b / 16], HEX[b % 16]] + rest;
    HexRoundTrip(b / 16);
    HexRoundTrip(b % 16);
    assert s[3..] == rest;
  }

  /** Decoding undoes encoding, whatever bytes the encoder kept, as long as it escaped '%'. */
  lemma {:induction false} UnquoteEncodes(s: seq<byte>, keep: set<byte>)
    requires PERCENT !in keep
    ensures Unquote(Encode(s, keep)) == s
  {
    if s != [] {
      var rest := Encode(s[1..], keep);
      UnquoteEncodes(s[1..], keep);
      if s[0] in keep {
        assert Encode(s, keep) == [s[0]] + rest;
        assert ([s[0]] + rest)[1..] == rest;
      } else {
        EscapeDecodes(s[0], rest);
      }
    }
  }

  /** The bytes encoded once per entry of `keeps`, the first entry outermost. */
  function EncodeAll(s: seq<byte>, keeps: seq<set<byte>>): seq<byte> {
    if keeps == [] then s else Encode(EncodeAll(s, keeps[1..]), keeps[0])
  }

  lemma {:induction false} TimesShift(s: seq<byte>, n: nat)
    ensures Times(s, n + 1) == Times(Unquote(s), n)
  {
    if n > 0 {
      TimesShift(s, n - 1);
    }
  }

  /** k passes undo a k-fold encoding. */
  lemma {:induction false} PassesUndoEncodings(s: seq<byte>, keeps: seq<set<byte>>)
    requires forall i :: 0 <= i < |keeps| ==> PERCENT !in keeps[i]
    ensures Times(EncodeAll(s, keeps), |keeps|) == s
  {
    if keeps != [] {
      PassesUndoEncodings(s, keeps[1..]);
      UnquoteEncodes(EncodeAll(s, keeps[1..]), keeps[0]);
      TimesShift(EncodeAll(s, keeps), |keeps| - 1);
    }
  }

  // ---------------------------------------------------------------- every way of encoding is undone

  /** The byte is the hex digit of value v, in either case. */
  predicate IsDigit(b: byte, v: nat) {
    (v < 10 && b == 0x30 + v) || (10 <= v < 16 && (b == 0x41 + v - 10 || b == 0x61 + v - 10))
  }

  lemma DigitExactly(b: byte, v: nat)
    ensures HexValue(b) == Some(v) <==> IsDigit(b, v)
  {
  }

  /** t spells s: each byte as itself, unless it is '%', or as '%' and its two digits, in either case. */
  predicate IsEncoded(t: seq<byte>, s: seq<byte>)
    decreases |s|
  {
    if s == [] then t == []
    else
      || (t != [] && t[0] == s[0] != PERCENT && IsEncoded(t[1..], s[1..]))
      || (|t| >= 3 && t[0] == PERCENT && IsDigit(t[1], s[0] / 16) && IsDigit(t[2], s[0] % 16)
          && IsEncoded(t[3..], s[1..]))
  }

  lemma EscapeExactly(t: seq<byte>, b: byte)
    requires |t| >= 3 && t[0] == PERCENT
    ensures StartsEscape(t) && EscapeValue(t) == b <==> IsDigit(t[1], b / 16) && IsDigit(t[2], b % 16)
  {
    DigitExactly(t[1], b / 16);
    DigitExactly(t[2], b % 16);
    if StartsEscape(t) && EscapeValue(t) == b {
      HexBelow16(t[1]);
      HexBelow16(t[2]);
    }
  }

  lemma HexBelow16(b: byte)
    ensures HexValue(b).Some? ==> HexValue(b).value < 16
  {
  }

  lemma MalformedTail(t: seq<byte>, n: nat)
    requires n <= |t| && !Malformed(t)
    ensures !Malformed(t[n..])
  {
    forall i | 0 <= i < |t| - n && t[n..][i] == PERCENT
      ensures StartsEscape(t[n..][i..])
    {
      assert t[n..][i..] == t[n + i..] && t[n + i] == PERCENT;
    }
  }

  /** A pass turns a text without a malformed '%' into s exactly when the text is an encoding of s. */
  lemma {:induction false} PassExactly(t: seq<byte>, s: seq<byte>)
    requires !Malformed(t)
    ensures Unquote(t) == s <==> IsEncoded(t, s)
    decreases |t|
  {
    hide Malformed, StartsEscape, EscapeValue, IsDigit;
    if t != [] && s != [] {
      if t[0] == PERCENT {
        PercentIsEscape(t);
        EscapeExactly(t, s[0]);
        MalformedTail(t, 3);
        PassExactly(t[3..], s[1..]);
      } else {
        NoEscape(t);
        MalformedTail(t, 1);
        PassExactly(t[1..], s[1..]);
      }
    }
  }

  lemma PercentIsEscape(t: seq<byte>)
    requires t != [] && t[0] == PERCENT && !Malformed(t)
    ensures StartsEscape(t) && |t| >= 3
  {
    assert t[0..] == t;
  }

  lemma NoEscape(t: seq<byte>)
    requires t != [] && t[0] != PERCENT
    ensures !StartsEscape(t)
  {
  }

  lemma {:induction false} EncodedIsSound(t: seq<byte>, s: seq<byte>)
    requires IsEncoded(t, s)
    ensures !Malformed(t)
    decreases |s|
  {
    hide IsDigit, StartsEscape;
    if s == [] {
      assert t == [];
    } else {
      var n := if t[0] == s[0] != PERCENT && IsEncoded(t[1..], s[1..]) then 1 else 3;
      EncodedIsSound(t[n..], s[1..]);
      if n == 3 {
        EscapeExactly(t, s[0]);
        DigitsAreNoPercent(t, s[0]);
      }
      HeadIsSound(t, n);
    }
  }

  lemma HeadIsSound(t: seq<byte>, n: nat)
    requires 1 <= n <= |t| && !Malformed(t[n..]) && (t[0] == PERCENT ==> StartsEscape(t))
    requires forall i :: 1 <= i < n ==> t[i] != PERCENT
    ensures !Malformed(t)
  {
    hide StartsEscape;
    forall i | 0 <= i < |t| && t[i] == PERCENT
      ensures StartsEscape(t[i..])
    {
      if i >= n {
        assert t[n..][i - n] == PERCENT && t[n..][i - n..] == t[i..];
      } else {
        assert t[0..] == t;
      }
    }
  }

  lemma DigitsAreNoPercent(t: seq<byte>, b: byte)
    requires |t| >= 3 && IsDigit(t[1], b / 16) && IsDigit(t[2], b % 16)
    ensures t[1] != PERCENT && t[2] != PERCENT
  {
  }

  /** As many passes as there are encodings undo them, however each was written. */
  lemma {:induction false} PassesUndo(ts: seq<seq<byte>>)
    requires ts != [] && forall i :: 0 <= i < |ts| - 1 ==> IsEncoded(ts[i], ts[i + 1])
    ensures Times(ts[0], |ts| - 1) == ts[|ts| - 1]
  {
    hide IsEncoded, Unquote;
    if |ts| > 1 {
      EncodedIsSound(ts[0], ts[1]);
      PassExactly(ts[0], ts[1]);
      TimesShift(ts[0], |ts| - 2);
      PassesUndo(ts[1..]);
    }
  }

  // ---------------------------------------------------------------- forms

  /** bytes.split(sep). */
  function Split(s: seq<byte>, sep: byte): (r: seq<seq<byte>>)
    ensures r != []
  {
    if s == [] then [[]]
    else
      var rest := Split(s[1..], sep);
      if s[0] == sep then [[]] + rest else [[s[0]] + rest[0]] + rest[1..]
  }

  /** The part of a pair before its first '=', and the part after it. */
  function Halves(pair: seq<byte>): (seq<byte>, seq<byte>) {
    if pair == [] then ([], [])
    else if pair[0] == EQUALS then ([], pair[1..])
    else
      var (k, v) := Halves(pair[1..]);
      ([pair[0]] + k, v)
  }

  function DecodeHalf(s: seq<byte>, passes: nat, plus: bool): seq<byte> {
    Times(Unplus(s, plus), passes)
  }

  function PairsOf(pieces: seq<seq<byte>>, passes: nat, plus: bool): seq<(seq<byte>, seq<byte>)> {
    if pieces == [] then []
    else
      PairsOf(pieces[..|pieces| - 1], passes, plus)
      + var last := pieces[|pieces| - 1];
        if last == [] then []
        else [(DecodeHalf(Halves(last).0, passes, plus), DecodeHalf(Halves(last).1, passes, plus))]
  }

  function FormPairs(data: seq<byte>, passes: nat, plus: bool): seq<(seq<byte>, seq<byte>)> {
    if data == [] then [] else PairsOf(Split(data, AMP), passes, plus)
  }

  method SplitPair(pair: seq<byte>) returns (k: seq<byte>, v: seq<byte>)
    ensures (k, v) == Halves(pair)
  {
    var i := 0;
    assert pair[0..] == pair && pair[..0] + Halves(pair).0 == Halves(pair).0;
    while i < |pair| && pair[i] != EQUALS
      invariant 0 <= i <= |pair|
      invariant Halves(pair) == (pair[..i] + Halves(pair[i..]).0, Halves(pair[i..]).1)
    {
      assert pair[i..][1..] == pair[i + 1..];
      assert pair[..i] + ([pair[i]] + Halves(pair[i + 1..]).0) == pair[..i + 1] + Halves(pair[i + 1..]).0;
      i := i + 1;
    }
    if i < |pair| {
      assert pair[i..][1..] == pair[i + 1..] && pair[..i] + [] == pair[..i];
      k, v := pair[..i], pair[i + 1..];
    } else {
      assert pair[i..] == [] && pair[..i] + [] == pair;
      k, v := pair, [];
    }
  }

  /** The names and values of the non-empty pieces, as they are before percent decoding. */
  function RawHalves(pieces: seq<seq<byte>>, plus: bool): seq<seq<byte>> {
    if pieces == [] then []
    else
      var last := pieces[|pieces| - 1];
      RawHalves(pieces[..|pieces| - 1], plus)
      + if last == [] then [] else [Unplus(Halves(last).0, plus), Unplus(Halves(last).1, plus)]
  }

  /** n is the largest number of encodings among the halves. */
  predicate IsMostEncodings(n: nat, halves: seq<seq<byte>>, passes: nat) {
    && (forall i :: 0 <= i < |halves| ==> Encodings(halves[i], passes) <= n)
    && (n == 0 || exists i :: 0 <= i < |halves| && Encodings(halves[i], passes) == n)
  }

  predicate SomeMalformed(halves: seq<seq<byte>>, passes: nat) {
    exists i :: 0 <= i < |halves| && MeetsMalformed(halves[i], passes)
  }

  lemma OneMoreHalf(halves: seq<seq<byte>>, h: seq<byte>, passes: nat, n: nat)
    requires IsMostEncodings(n, halves, passes)
    ensures IsMostEncodings(if Encodings(h, passes) > n then Encodings(h, passes) else n, halves + [h], passes)
    ensures SomeMalformed(halves + [h], passes) <==> SomeMalformed(halves, passes) || MeetsMalformed(h, passes)
  {
    hide Encodings, MeetsMalformed, SomeMalformed;
    var all := halves + [h];
    var m := if Encodings(h, passes) > n then Encodings(h, passes) else n;
    forall i | 0 <= i < |all|
      ensures Encodings(all[i], passes) <= m
    {
      assert i < |halves| ==> all[i] == halves[i];
    }
    if m == n && n > 0 {
      var i :| 0 <= i < |halves| && Encodings(halves[i], passes) == n;
      assert all[i] == halves[i];
    } else {
      assert all[|halves|] == h;
    }
    HalfIsMalformed(halves, h, passes);
  }

  lemma HalfIsMalformed(halves: seq<seq<byte>>, h: seq<byte>, passes: nat)
    ensures SomeMalformed(halves + [h], passes) <==> SomeMalformed(halves, passes) || MeetsMalformed(h, passes)
  {
    hide MeetsMalformed;
    var all := halves + [h];
    if i :| 0 <= i < |halves| && MeetsMalformed(halves[i], passes) {
      assert all[i] == halves[i];
    }
    if MeetsMalformed(h, passes) {
      assert all[|halves|] == h;
    }
    if i :| 0 <= i < |all| && MeetsMalformed(all[i], passes) {
      assert i < |halves| ==> all[i] == halves[i];
    }
  }

  lemma OneMorePiece(pieces: seq<seq<byte>>, i: nat, passes: nat, plus: bool)
    requires i < |pieces|
    ensures var p := pieces[i];
            && PairsOf(pieces[..i + 1], passes, plus)
               == PairsOf(pieces[..i], passes, plus)
                  + (if p == [] then [] else [(DecodeHalf(Halves(p).0, passes, plus),
                      DecodeHalf(Halves(p).1, passes, plus))])
            && RawHalves(pieces[..i + 1], plus)
               == RawHalves(pieces[..i], plus)
                  + (if p == [] then [] else [Unplus(Halves(p).0, plus)] + [Unplus(Halves(p).1, plus)])
  {
    hide DecodeHalf, Halves, Unplus;
    assert pieces[..i + 1][..i] == pieces[..i];
  }

  /** The byte part of _decode_x_www_form_urlencoded. */
  method DecodeForm(data: seq<byte>, passes: nat, plus: bool)
    returns (pairs: seq<(seq<byte>, seq<byte>)>, maxEncodings: nat, invalid: bool)
    ensures pairs == FormPairs(data, passes, plus)
    ensures var halves := if data == [] then [] else RawHalves(Split(data, AMP), plus);
            IsMostEncodings(maxEncodings, halves, passes) && (invalid <==> SomeMalformed(halves, passes))
    ensures 2 * maxEncodings <= |data|
  {
    hide Encodings, MeetsMalformed, Times, Unplus, Halves, PairsOf, RawHalves, IsMostEncodings, SomeMalformed;
    pairs, maxEncodings, invalid := [], 0, false;
    NoPieces(passes, plus);
    if data == [] { return; }
    var pieces := Split(data, AMP);
    var i := 0;
    assert pieces[..0] == [];
    while i < |pieces|
      invariant 0 <= i <= |pieces| && pairs == PairsOf(pieces[..i], passes, plus)
      invariant IsMostEncodings(maxEncodings, RawHalves(pieces[..i], plus), passes)
      invariant invalid <==> SomeMalformed(RawHalves(pieces[..i], plus), passes)
      invariant 2 * maxEncodings <= |data|
    {
      OneMorePiece(pieces, i, passes, plus);
      ghost var halves := RawHalves(pieces[..i], plus);
      var pair := pieces[i];
      i := i + 1;
      if pair == [] {
        assert halves + [] == halves;
        continue;
      }
      var kBytes, vBytes := SplitPair(pair);
      var k, kCount, kInvalid := PercentDecode(kBytes, passes, plus);
      var v, vCount, vInvalid := PercentDecode(vBytes, passes, plus);
      pairs := pairs + [(k, v)];
      HalvesFit(pair);
      PieceFits(data, AMP, i - 1);
      OneMoreHalf(halves, Unplus(kBytes, plus), passes, maxEncodings);
      if kCount > maxEncodings { maxEncodings := kCount; }
      OneMoreHalf(halves + [Unplus(kBytes, plus)], Unplus(vBytes, plus), passes, maxEncodings);
      if vCount > maxEncodings { maxEncodings := vCount; }
      invalid := invalid || kInvalid || vInvalid;
      assert halves + ([Unplus(kBytes, plus)] + [Unplus(vBytes, plus)])
             == halves + [Unplus(kBytes, plus)] + [Unplus(vBytes, plus)];
    }
    assert pieces[..i] == pieces;
  }

  lemma NoPieces(passes: nat, plus: bool)
    ensures PairsOf([], passes, plus) == [] && RawHalves([], plus) == []
    ensures IsMostEncodings(0, [], passes) && !SomeMalformed([], passes)
  {
  }

  lemma {:induction false} HalvesFit(pair: seq<byte>)
    ensures |Halves(pair).0| + |Halves(pair).1| <= |pair|
  {
    if pair != [] && pair[0] != EQUALS {
      HalvesFit(pair[1..]);
    }
  }

  lemma {:induction false} PieceFits(s: seq<byte>, sep: byte, i: nat)
    requires i < |Split(s, sep)|
    ensures |Split(s, sep)[i]| <= |s|
  {
    if s != [] {
      if s[0] == sep {
        if i > 0 { PieceFits(s[1..], sep, i - 1); }
      } else {
        PieceFits(s[1..], sep, i);
      }
    }
  }

  /** The application/x-www-form-urlencoded serialisation of one name or value. A blank may be
      written '+' when the decoder is told so. */
  function FormEncode(s: seq<byte>, keep: set<byte>, plus: bool): seq<byte> {
    if s == [] then [] else FormByte(s[0], keep, plus) + FormEncode(s[1..], keep, plus)
  }

  function FormByte(b: byte, keep: set<byte>, plus: bool): seq<byte> {
    if plus && b == SPACE then [PLUS] else if b in keep then [b] else [PERCENT, HEX[b / 16], HEX[b % 16]]
  }

  /** The bytes an encoder may leave alone: none with a meaning in a form. */
  predicate Harmless(keep: set<byte>) {
    PERCENT !in keep && PLUS !in keep && AMP !in keep && EQUALS !in keep
  }

  function SerialisePair(p: (seq<byte>, seq<byte>), keep: set<byte>, plus: bool): seq<byte> {
    FormEncode(p.0, keep, plus) + [EQUALS] + FormEncode(p.1, keep, plus)
  }

  function Serialise(ps: seq<(seq<byte>, seq<byte>)>, keep: set<byte>, plus: bool): seq<byte> {
    if ps == [] then []
    else if |ps| == 1 then SerialisePair(ps[0], keep, plus)
    else SerialisePair(ps[0], keep, plus) + [AMP] + Serialise(ps[1..], keep, plus)
  }

  lemma FormByteIsSafe(b: byte, keep: set<byte>, plus: bool)
    requires Harmless(keep)
    ensures AMP !in FormByte(b, keep, plus) && EQUALS !in FormByte(b, keep, plus)
  {
    HexIsHarmless(b / 16);
    HexIsHarmless(b % 16);
  }

  lemma HexIsHarmless(d: nat)
    requires d < 16
    ensures HEX[d] != AMP && HEX[d] != EQUALS
  {
  }

  lemma {:induction false} FormEncodeIsSafe(s: seq<byte>, keep: set<byte>, plus: bool)
    requires Harmless(keep)
    ensures AMP !in FormEncode(s, keep, plus) && EQUALS !in FormEncode(s, keep, plus)
  {
    if s != [] {
      hide FormByte;
      FormByteIsSafe(s[0], keep, plus);
      FormEncodeIsSafe(s[1..], keep, plus);
    }
  }

  lemma UnplusAppend(a: seq<byte>, b: seq<byte>, plus: bool)
    ensures Unplus(a + b, plus) == Unplus(a, plus) + Unplus(b, plus)
  {
    if plus {
      var whole, parts := Unplus(a + b, plus), Unplus(a, plus) + Unplus(b, plus);
      forall i | 0 <= i < |whole|
        ensures whole[i] == parts[i]
      {
      }
    }
  }

  /** One byte survives, in front of anything. */
  lemma FormByteDecodes(b: byte, keep: set<byte>, plus: bool, tail: seq<byte>)
    requires Harmless(keep)
    ensures Unquote(Unplus(FormByte(b, keep, plus), plus) + tail) == [b] + Unquote(tail)
  {
    if (plus && b == SPACE) || b in keep {
      assert Unplus(FormByte(b, keep, plus), plus) == [b];
      assert ([b] + tail)[1..] == tail;
    } else {
      assert HEX[b / 16] in HEX && HEX[b % 16] in HEX;
      assert Unplus(FormByte(b, keep, plus), plus) == [PERCENT, HEX[b / 16], HEX[b % 16]];
      EscapeDecodes(b, tail);
    }
  }

  /** One name or value survives. */
  lemma {:induction false} HalfSurvives(s: seq<byte>, keep: set<byte>, plus: bool)
    requires Harmless(keep)
    ensures DecodeHalf(FormEncode(s, keep, plus), 1, plus) == s
  {
    OnePass(Unplus(FormEncode(s, keep, plus), plus));
    if s != [] {
      hide Unquote, FormByte, Unplus, Times;
      var rest := FormEncode(s[1..], keep, plus);
      HalfSurvives(s[1..], keep, plus);
      OnePass(Unplus(rest, plus));
      UnplusAppend(FormByte(s[0], keep, plus), rest, plus);
      FormByteDecodes(s[0], keep, plus, Unplus(rest, plus));
    }
  }

  lemma OnePass(s: seq<byte>)
    ensures Times(s, 1) == Unquote(s)
  {
    assert Times(s, 0) == s;
  }

  lemma {:induction false} HalvesAtEquals(k: seq<byte>, v: seq<byte>)
    requires EQUALS !in k
    ensures Halves(k + [EQUALS] + v) == (k, v)
  {
    var s := k + [EQUALS] + v;
    if k == [] {
      assert s[1..] == v;
    } else {
      assert s[1..] == k[1..] + [EQUALS] + v;
      HalvesAtEquals(k[1..], v);
      assert [k[0]] + k[1..] == k;
    }
  }

  lemma {:induction false} SplitAt(a: seq<byte>, sep: byte, b: seq<byte>)
    requires sep !in a
    ensures Split(a, sep) == [a]
    ensures Split(a + [sep] + b, sep) == [a] + Split(b, sep)
  {
    var s := a + [sep] + b;
    if a == [] {
      assert s[1..] == b;
    } else {
      assert s[1..] == a[1..] + [sep] + b;
      SplitAt(a[1..], sep, b);
      assert [a[0]] + a[1..] == a;
    }
  }

  lemma {:induction false} PairsCons(piece: seq<byte>, pieces: seq<seq<byte>>, passes: nat, plus: bool)
    requires piece != []
    ensures PairsOf([piece] + pieces, passes, plus)
            == [(DecodeHalf(Halves(piece).0, passes, plus), DecodeHalf(Halves(piece).1, passes, plus))]
               + PairsOf(pieces, passes, plus)
  {
    var all := [piece] + pieces;
    if pieces == [] {
      assert all[..0] == [];
    } else {
      assert all[..|all| - 1] == [piece] + pieces[..|pieces| - 1];
      PairsCons(piece, pieces[..|pieces| - 1], passes, plus);
    }
  }

  /** A name or value encoded further, once per entry of `keeps`, before the form encoding survives as
      many passes. */
  lemma NestedHalfSurvives(s: seq<byte>, keeps: seq<set<byte>>, keep: set<byte>, plus: bool)
    requires Harmless(keep) && forall i :: 0 <= i < |keeps| ==> PERCENT !in keeps[i]
    ensures DecodeHalf(FormEncode(EncodeAll(s, keeps), keep, plus), |keeps| + 1, plus) == s
  {
    hide Unquote, Unplus, Times, EncodeAll, FormEncode;
    var inner := EncodeAll(s, keeps);
    var outer := Unplus(FormEncode(inner, keep, plus), plus);
    HalfSurvives(inner, keep, plus);
    OnePass(outer);
    TimesShift(outer, |keeps|);
    PassesUndoEncodings(s, keeps);
  }

  /** Every name and value encoded once per entry of `keeps`. */
  function EncodePairs(ps: seq<(seq<byte>, seq<byte>)>, keeps: seq<set<byte>>): seq<(seq<byte>, seq<byte>)> {
    if ps == [] then [] else [(EncodeAll(ps[0].0, keeps), EncodeAll(ps[0].1, keeps))] + EncodePairs(ps[1..], keeps)
  }

  lemma PairSurvives(p: (seq<byte>, seq<byte>), keeps: seq<set<byte>>, keep: set<byte>, plus: bool)
    requires Harmless(keep) && forall i :: 0 <= i < |keeps| ==> PERCENT !in keeps[i]
    ensures var s := SerialisePair((EncodeAll(p.0, keeps), EncodeAll(p.1, keeps)), keep, plus);
            s != [] && AMP !in s
            && (DecodeHalf(Halves(s).0, |keeps| + 1, plus), DecodeHalf(Halves(s).1, |keeps| + 1, plus)) == p
  {
    hide EncodeAll, DecodeHalf, FormEncode;
    var k, v := EncodeAll(p.0, keeps), EncodeAll(p.1, keeps);
    FormEncodeIsSafe(k, keep, plus);
    FormEncodeIsSafe(v, keep, plus);
    HalvesAtEquals(FormEncode(k, keep, plus), FormEncode(v, keep, plus));
    NestedHalfSurvives(p.0, keeps, keep, plus);
    NestedHalfSurvives(p.1, keeps, keep, plus);
  }

  /** Serialising a form, its names and values encoded k - 1 times more, and decoding it with k passes
      gives back the same pairs in the same order, duplicates and empty names or values included. */
  lemma {:induction false} FormSurvives(ps: seq<(seq<byte>, seq<byte>)>, keeps: seq<set<byte>>, keep: set<byte>,
          plus: bool)
    requires Harmless(keep) && forall i :: 0 <= i < |keeps| ==> PERCENT !in keeps[i]
    ensures FormPairs(Serialise(EncodePairs(ps, keeps), keep, plus), |keeps| + 1, plus) == ps
  {
    hide SerialisePair, DecodeHalf, Halves, Split, EncodeAll;
    if ps != [] {
      var es := EncodePairs(ps, keeps);
      var first, rest := SerialisePair(es[0], keep, plus), Serialise(es[1..], keep, plus);
      assert es[1..] == EncodePairs(ps[1..], keeps);
      PairSurvives(ps[0], keeps, keep, plus);
      SplitAt(first, AMP, rest);
      if |ps| == 1 {
        assert es[1..] == [];
        PairsCons(first, [], |keeps| + 1, plus);
        assert [first] + [] == [first];
      } else {
        FormSurvives(ps[1..], keeps, keep, plus);
        SerialisedIsNotEmpty(es[1..], keep, plus);
        PairsCons(first, Split(rest, AMP), |keeps| + 1, plus);
      }
      assert [ps[0]] + ps[1..] == ps;
    }
  }

  lemma SerialisedIsNotEmpty(ps: seq<(seq<byte>, seq<byte>)>, keep: set<byte>, plus: bool)
    requires ps != []
    ensures Serialise(ps, keep, plus) != []
  {
  }
}

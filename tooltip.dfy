/**
 * The tooltip pattern of `split_tool_tip`,
 *   `([-.\d]+)\s*\[([-.\d]+)\s*-([-.\d]+)]`,
 * searched leftmost-first in a string, as the `regex` crate's `captures` does.
 *
 * The matcher is written out by hand. A match starting at `p` takes the maximal run of
 * number characters as the value (a shorter one would leave a number character where
 * whitespace or '[' is needed), skips whitespace, needs '[', and then reads the run
 * `[b, e)` of number characters after it. The greedy low group first tries the whole
 * run: whitespace and a '-' must follow it, then a maximal run as the high group, then
 * ']'. Failing that, it backs off to the last '-' inside the run that leaves at least one
 * character on each side: low is the text before it, high the text after it up to the
 * end of the run, and ']' must close the run.
 */
module Tooltip {
  import opened Text
  import opened Tables

  /** The class `[-.\d]`, with `\d` read as the ASCII digits. */
  predicate IsNumberChar(c: char) {
    c == '-' || c == '.' || ('0' <= c <= '9')
  }

  predicate AllNumberChars(s: string) {
    forall i :: 0 <= i < |s| ==> IsNumberChar(s[i])
  }

  predicate NoDash(s: string) {
    forall i :: 0 <= i < |s| ==> s[i] != '-'
  }

  /** The three capture groups: the value, the low bound and the high bound. */
  datatype Captures = Captures(value: string, low: string, high: string)

  /** A match: where it starts, and what its groups captured. */
  datatype Found = Found(start: nat, caps: Captures)

  /** The end of the maximal run of number characters starting at `i`. */
  function RunEnd(s: string, i: nat): (e: nat)
    requires i <= |s|
    ensures i <= e <= |s|
    decreases |s| - i
  {
    if i < |s| && IsNumberChar(s[i]) then RunEnd(s, i + 1) else i
  }

  /** The end of the maximal run of whitespace (`\s*`) starting at `i`. */
  function SkipSpace(s: string, i: nat): (e: nat)
    requires i <= |s|
    ensures i <= e <= |s|
    decreases |s| - i
  {
    if i < |s| && IsWhitespace(s[i]) then SkipSpace(s, i + 1) else i
  }

  /** The last '-' at a position in `[lo, hi)`. */
  function LastDash(s: string, lo: nat, hi: nat): (r: Option<nat>)
    requires lo <= hi <= |s|
    ensures r.Some? ==> lo <= r.value < hi
    decreases hi - lo
  {
    if hi == lo then None
    else if s[hi - 1] == '-' then Some(hi - 1)
    else LastDash(s, lo, hi - 1)
  }

  /** The match of the pattern that starts exactly at `p`, with the regex's priorities. */
  function MatchAt(s: string, p: nat): (r: Option<Captures>)
    requires p <= |s|
    ensures r.Some? ==> r.value.value != [] && r.value.low != [] && r.value.high != []
  {
    var a := RunEnd(s, p);
    var w := SkipSpace(s, a);
    if a == p || w == |s| || s[w] != '[' then None
    else match MatchBounds(s, w + 1)
      case Some(bounds) => Some(Captures(s[p..a], bounds.0, bounds.1))
      case None => None
  }

  /** The low and high groups of a match whose '[' ends just before `b`, with `\s*-` and `]`. */
  function MatchBounds(s: string, b: nat): (r: Option<(string, string)>)
    requires b <= |s|
    ensures r.Some? ==> r.value.0 != [] && r.value.1 != []
  {
    var e := RunEnd(s, b);
    var d := SkipSpace(s, e);
    if e == b then None
    else if d < |s| && s[d] == '-' && RunEnd(s, d + 1) > d + 1
      && RunEnd(s, d + 1) < |s| && s[RunEnd(s, d + 1)] == ']'
    then
      // the low group is the whole run
      Some((s[b..e], s[d + 1..RunEnd(s, d + 1)]))
    else if e < |s| && s[e] == ']' && b + 2 <= e then
      // the low group backs off to the last '-' that leaves a high group
      match LastDash(s, b + 1, e - 1)
      case Some(k) => Some((s[b..k], s[k + 1..e]))
      case None => None
    else None
  }

  /** `RunEnd` stops at the first character that is not a number character. */
  lemma {:induction false} RunEndSpec(s: string, i: nat)
    requires i <= |s|
    ensures forall j :: i <= j < RunEnd(s, i) ==> IsNumberChar(s[j])
    ensures RunEnd(s, i) == |s| || !IsNumberChar(s[RunEnd(s, i)])
    decreases |s| - i
  {
    if i < |s| && IsNumberChar(s[i]) {
      RunEndSpec(s, i + 1);
    }
  }

  /** `SkipSpace` stops at the first character that is not whitespace. */
  lemma {:induction false} SkipSpaceSpec(s: string, i: nat)
    requires i <= |s|
    ensures forall j :: i <= j < SkipSpace(s, i) ==> IsWhitespace(s[j])
    ensures SkipSpace(s, i) == |s| || !IsWhitespace(s[SkipSpace(s, i)])
    decreases |s| - i
  {
    if i < |s| && IsWhitespace(s[i]) {
      SkipSpaceSpec(s, i + 1);
    }
  }

  /** `LastDash` finds the last '-' of the range, and only fails when there is none. */
  lemma {:induction false} LastDashSpec(s: string, lo: nat, hi: nat)
    requires lo <= hi <= |s|
    ensures var r := LastDash(s, lo, hi);
      r.Some? ==> s[r.value] == '-' && forall j :: r.value < j < hi ==> s[j] != '-'
    ensures LastDash(s, lo, hi).None? ==> forall j :: lo <= j < hi ==> s[j] != '-'
    decreases hi - lo
  {
    if hi > lo && s[hi - 1] != '-' {
      LastDashSpec(s, lo, hi - 1);
    }
  }

  /** The value of a match is the non-empty run of number characters where the match starts. */
  lemma MatchAtValue(s: string, p: nat)
    requires p <= |s|
    ensures MatchAt(s, p).Some? ==>
      var c := MatchAt(s, p).value;
      && c.value != [] && AllNumberChars(c.value)
      && p + |c.value| <= |s| && s[p..p + |c.value|] == c.value
  {
    if MatchAt(s, p).Some? {
      RunInner(s, p, p, RunEnd(s, p));
    }
  }

  /** The low and high groups of a match are non-empty runs of number characters. */
  lemma MatchAtBounds(s: string, p: nat)
    requires p <= |s|
    ensures MatchAt(s, p).Some? ==>
      var c := MatchAt(s, p).value;
      c.low != [] && AllNumberChars(c.low) && c.high != [] && AllNumberChars(c.high)
  {
    if MatchAt(s, p).Some? {
      MatchBoundsSound(s, SkipSpace(s, RunEnd(s, p)) + 1);
    }
  }

  /** Both bounds a match reads are non-empty runs of number characters. */
  lemma MatchBoundsSound(s: string, b: nat)
    requires b <= |s|
    ensures MatchBounds(s, b).Some? ==>
      var bounds := MatchBounds(s, b).value;
      bounds.0 != [] && AllNumberChars(bounds.0) && bounds.1 != [] && AllNumberChars(bounds.1)
  {
    if MatchBounds(s, b).Some? {
      var e := RunEnd(s, b);
      var d := SkipSpace(s, e);
      var bounds := MatchBounds(s, b).value;
      if d < |s| && s[d] == '-' && RunEnd(s, d + 1) > d + 1
        && RunEnd(s, d + 1) < |s| && s[RunEnd(s, d + 1)] == ']'
      {
        var f := RunEnd(s, d + 1);
        assert bounds == (s[b..e], s[d + 1..f]);
        RunInner(s, b, b, e);
        RunInner(s, d + 1, d + 1, f);
      } else {
        var k := LastDash(s, b + 1, e - 1).value;
        assert bounds == (s[b..k], s[k + 1..e]);
        RunInner(s, b, b, k);
        RunInner(s, b, k + 1, e);
      }
    }
  }

  /** Every part of a run of number characters is made of number characters. */
  lemma RunInner(s: string, i: nat, k: nat, j: nat)
    requires i <= |s| && i <= k <= j <= RunEnd(s, i)
    ensures AllNumberChars(s[k..j])
  {
    RunEndSpec(s, i);
    RunSlice(s, k, j);
  }

  lemma RunSlice(s: string, i: nat, j: nat)
    requires i <= j <= |s|
    requires forall k :: i <= k < j ==> IsNumberChar(s[k])
    ensures AllNumberChars(s[i..j])
  {
  }

  /**
   * `Regex::captures`: the match at the leftmost position, at `from` or later, where there
   * is one. No match starts between `from` and what it finds, and it fails only when no
   * match starts at `from` or later.
   */
  function Search(s: string, from: nat): (r: Option<Found>)
    requires from <= |s|
    ensures r.Some? ==> from <= r.value.start <= |s|
    ensures r.Some? ==> MatchAt(s, r.value.start) == Some(r.value.caps)
    ensures r.Some? ==> forall q :: from <= q < r.value.start ==> MatchAt(s, q).None?
    ensures r.None? ==> forall q :: from <= q <= |s| ==> MatchAt(s, q).None?
    decreases |s| - from
  {
    match MatchAt(s, from)
    case Some(c) => Some(Found(from, c))
    case None => if from == |s| then None else Search(s, from + 1)
  }

  /** What `split_tool_tip` reads from a tooltip field: the captures in its trimmed text. */
  function Parse(field: string): (r: Option<Captures>)
    ensures r.Some? ==> r.value.value != [] && r.value.low != [] && r.value.high != []
  {
    match Search(Trim(field), 0)
    case Some(f) => Some(f.caps)
    case None => None
  }

  /**
   * The trimmed field matches somewhere exactly when `Parse` succeeds, and then the three
   * captures are non-empty runs of number characters.
   */
  lemma ParseSound(field: string)
    ensures Parse(field).None? <==> forall q :: 0 <= q <= |Trim(field)| ==> MatchAt(Trim(field), q).None?
    ensures Parse(field).Some? ==>
      var c := Parse(field).value;
      c.value != [] && AllNumberChars(c.value) && c.low != [] && AllNumberChars(c.low)
      && c.high != [] && AllNumberChars(c.high)
  {
    var s := Trim(field);
    if Search(s, 0).Some? {
      MatchAtValue(s, Search(s, 0).value.start);
      MatchAtBounds(s, Search(s, 0).value.start);
    }
  }

  /** A field without '[' is no tooltip. */
  lemma ParseNeedsBracket(field: string)
    requires forall i :: 0 <= i < |field| ==> field[i] != '['
    ensures Parse(field).None?
  {
    var s := Trim(field);
    TrimIsInfix(field);
    forall q | 0 <= q <= |s| ensures MatchAt(s, q).None? {
      var w := SkipSpace(s, RunEnd(s, q));
      assert w == |s| || s[w] != '[';
    }
    ParseSound(field);
  }

  /** A tooltip as the data source writes it: `value ws[low-high]`. */
  function Render(value: string, ws: string, low: string, high: string): (r: string)
    ensures |r| == |value| + |ws| + |low| + |high| + 3
  {
    value + ws + "[" + low + "-" + high + "]"
  }

  lemma {:induction false} RunEndIs(s: string, i: nat, j: nat)
    requires i <= j <= |s|
    requires forall k :: i <= k < j ==> IsNumberChar(s[k])
    requires j == |s| || !IsNumberChar(s[j])
    ensures RunEnd(s, i) == j
    decreases j - i
  {
    if i < j {
      RunEndIs(s, i + 1, j);
    }
  }

  lemma {:induction false} SkipSpaceIs(s: string, i: nat, j: nat)
    requires i <= j <= |s|
    requires forall k :: i <= k < j ==> IsWhitespace(s[k])
    requires j == |s| || !IsWhitespace(s[j])
    ensures SkipSpace(s, i) == j
    decreases j - i
  {
    if i < j {
      SkipSpaceIs(s, i + 1, j);
    }
  }

  /** A match at `p` with value run `[p, a)`, '[' at `w` after whitespace, and these bounds. */
  lemma MatchAtIs(s: string, p: nat, a: nat, w: nat, bounds: (string, string))
    requires p < a <= w < |s|
    requires RunEnd(s, p) == a && SkipSpace(s, a) == w && s[w] == '['
    requires MatchBounds(s, w + 1) == Some(bounds)
    ensures MatchAt(s, p) == Some(Captures(s[p..a], bounds.0, bounds.1))
  {
  }

  /** Bounds read by backing off: a run `[b, e)` closed by ']' whose last '-' sits at `k`. */
  lemma BoundsBackOff(s: string, b: nat, k: nat, e: nat)
    requires b < k && k + 1 < e < |s|
    requires RunEnd(s, b) == e && s[e] == ']'
    requires LastDash(s, b + 1, e - 1) == Some(k)
    ensures MatchBounds(s, b) == Some((s[b..k], s[k + 1..e]))
  {
    assert SkipSpace(s, e) == e by {
      SkipSpaceIs(s, e, e);
    }
  }

  /** Bounds read whole: a run `[b, e)`, whitespace `[e, d)`, '-' at `d`, a run `(d, f)`, ']' at `f`. */
  lemma BoundsWhole(s: string, b: nat, e: nat, d: nat, f: nat)
    requires b < e <= d && d + 1 < f < |s|
    requires RunEnd(s, b) == e && SkipSpace(s, e) == d && s[d] == '-'
    requires RunEnd(s, d + 1) == f && s[f] == ']'
    ensures MatchBounds(s, b) == Some((s[b..e], s[d + 1..f]))
  {
  }

  /**
   * A match at 0 backed off to a '-': a value run `[0, a)`, whitespace `[a, w)`, '[' at `w`,
   * a run `(w, e)` closed by ']' whose last '-' sits at `k`.
   */
  lemma MatchAtDash(s: string, a: nat, w: nat, k: nat, e: nat)
    requires 0 < a <= w && w + 1 < k && k + 1 < e < |s|
    requires forall j :: 0 <= j < a ==> IsNumberChar(s[j])
    requires forall j :: a <= j < w ==> IsWhitespace(s[j])
    requires s[w] == '[' && s[k] == '-' && s[e] == ']'
    requires forall j :: w < j < e ==> IsNumberChar(s[j])
    requires forall j :: k < j < e ==> s[j] != '-'
    ensures MatchAt(s, 0) == Some(Captures(s[..a], s[w + 1..k], s[k + 1..e]))
  {
    assert RunEnd(s, 0) == a by {
      RunEndIs(s, 0, a);
    }
    assert SkipSpace(s, a) == w by {
      SkipSpaceIs(s, a, w);
    }
    assert MatchBounds(s, w + 1) == Some((s[w + 1..k], s[k + 1..e])) by {
      RunEndIs(s, w + 1, e);
      LastDashIs(s, w + 2, e - 1, k);
      BoundsBackOff(s, w + 1, k, e);
    }
    MatchAtIs(s, 0, a, w, (s[w + 1..k], s[k + 1..e]));
    assert s[0..a] == s[..a];
  }

  /**
   * Round trip: a rendered tooltip whose high bound has no '-' is parsed back into its
   * three parts, whatever whitespace separates the value from '['.
   */
  lemma ParseRender(value: string, ws: string, low: string, high: string)
    requires value != [] && AllNumberChars(value)
    requires AllWhitespace(ws)
    requires low != [] && AllNumberChars(low)
    requires high != [] && AllNumberChars(high) && NoDash(high)
    ensures Parse(Render(value, ws, low, high)) == Some(Captures(value, low, high))
  {
    var s := Render(value, ws, low, high);
    var a := |value|;
    var w := a + |ws|;
    var k := w + 1 + |low|;
    var e := k + 1 + |high|;
    assert MatchAt(s, 0) == Some(Captures(value, low, high)) by {
      assert s[..a] == value;
      assert s[a..w] == ws;
      assert s[w + 1..k] == low;
      assert s[k + 1..e] == high;
      MatchAtDash(s, a, w, k, e);
    }
    assert Trim(s) == s by {
      TrimNoop(s);
    }
    assert Search(s, 0) == Some(Found(0, Captures(value, low, high)));
  }

  /**
   * A match at 0 where the low group is the whole run `(w, e)`: whitespace `[e, d)`, then
   * '-' at `d`, a high run `(d, f)` and ']' at `f`.
   */
  lemma MatchAtSpaced(s: string, a: nat, w: nat, e: nat, d: nat, f: nat)
    requires 0 < a <= w && w + 1 < e < d && d + 1 < f < |s|
    requires forall j :: 0 <= j < a ==> IsNumberChar(s[j])
    requires forall j :: a <= j < w ==> IsWhitespace(s[j])
    requires forall j :: w < j < e ==> IsNumberChar(s[j])
    requires forall j :: e <= j < d ==> IsWhitespace(s[j])
    requires forall j :: d < j < f ==> IsNumberChar(s[j])
    requires s[w] == '[' && s[d] == '-' && s[f] == ']'
    ensures MatchAt(s, 0) == Some(Captures(s[..a], s[w + 1..e], s[d + 1..f]))
  {
    assert RunEnd(s, 0) == a by {
      RunEndIs(s, 0, a);
    }
    assert SkipSpace(s, a) == w by {
      SkipSpaceIs(s, a, w);
    }
    assert MatchBounds(s, w + 1) == Some((s[w + 1..e], s[d + 1..f])) by {
      RunEndIs(s, w + 1, e);
      SkipSpaceIs(s, e, d);
      RunEndIs(s, d + 1, f);
      BoundsWhole(s, w + 1, e, d, f);
    }
    MatchAtIs(s, 0, a, w, (s[w + 1..e], s[d + 1..f]));
    assert s[0..a] == s[..a];
  }

  /** A tooltip with whitespace before the dash: `value ws[low ws2-high]`. */
  function RenderSpaced(value: string, ws: string, low: string, ws2: string, high: string): (r: string)
    ensures |r| == |value| + |ws| + |low| + |ws2| + |high| + 3
  {
    (value + ws + "[" + low) + (ws2 + "-" + high + "]")
  }

  /**
   * Round trip when whitespace precedes the dash: the three parts come back whatever
   * they contain, a negative high bound included.
   */
  lemma ParseRenderSpaced(value: string, ws: string, low: string, ws2: string, high: string)
    requires value != [] && AllNumberChars(value)
    requires AllWhitespace(ws) && ws2 != [] && AllWhitespace(ws2)
    requires low != [] && AllNumberChars(low)
    requires high != [] && AllNumberChars(high)
    ensures Parse(RenderSpaced(value, ws, low, ws2, high)) == Some(Captures(value, low, high))
  {
    var s := RenderSpaced(value, ws, low, ws2, high);
    var a := |value|;
    var w := a + |ws|;
    var e := w + 1 + |low|;
    var d := e + |ws2|;
    var f := d + 1 + |high|;
    assert MatchAt(s, 0) == Some(Captures(value, low, high)) by {
      assert s[..a] == value;
      assert s[a..w] == ws;
      assert s[w + 1..e] == low;
      assert s[e..d] == ws2;
      assert s[d + 1..f] == high;
      MatchAtSpaced(s, a, w, e, d, f);
    }
    assert Trim(s) == s by {
      TrimNoop(s);
    }
    assert Search(s, 0) == Some(Found(0, Captures(value, low, high)));
  }

  lemma LastDashIs(s: string, lo: nat, hi: nat, k: nat)
    requires lo <= k < hi <= |s| && s[k] == '-'
    requires forall j :: k < j < hi ==> s[j] != '-'
    ensures LastDash(s, lo, hi) == Some(k)
    decreases hi - lo
  {
    if s[hi - 1] != '-' {
      LastDashIs(s, lo, hi - 1, k);
    }
  }

  /** The tooltip of the WHO data: "12.3 [10.1-14.5]" reads as 12.3, 10.1 and 14.5. */
  lemma ParseExample()
    ensures Parse("12.3 [10.1-14.5]") == Some(Captures("12.3", "10.1", "14.5"))
  {
    assert "12.3 [10.1-14.5]" == Render("12.3", " ", "10.1", "14.5");
    ParseRender("12.3", " ", "10.1", "14.5");
  }

  /**
   * A negative high bound is split at its own sign: "-1.5 [-2.0--1.0]" gives the low
   * bound "-2.0-" and the high bound "1.0", not -2.0 and -1.0.
   */
  lemma ParseNegativeHigh()
    ensures Parse("-1.5 [-2.0--1.0]") == Some(Captures("-1.5", "-2.0-", "1.0"))
  {
    assert "-1.5 [-2.0--1.0]" == Render("-1.5", " ", "-2.0-", "1.0");
    ParseRender("-1.5", " ", "-2.0-", "1.0");
  }

  /** With a space before the dash, the same bounds are read as intended: -2.0 and -1.0. */
  lemma ParseNegativeHighSpaced()
    ensures Parse("-1.5 [-2.0 --1.0]") == Some(Captures("-1.5", "-2.0", "-1.0"))
  {
    assert "-1.5 [-2.0 --1.0]" == RenderSpaced("-1.5", " ", "-2.0", " ", "-1.0");
    ParseRenderSpaced("-1.5", " ", "-2.0", " ", "-1.0");
  }

  // ---------------------------------------------------------------- the pattern, declaratively

  /** `piece` stands in `s` at position `p`. */
  predicate Occurs(s: string, p: nat, piece: string) {
    p + |piece| <= |s| && s[p..p + |piece|] == piece
  }

  /** The parts of a match: number tokens for the three groups, whitespace for each `\s*`. */
  predicate Parts(c: Captures, ws: string, ws2: string) {
    c.value != [] && AllNumberChars(c.value) && AllWhitespace(ws)
    && c.low != [] && AllNumberChars(c.low) && AllWhitespace(ws2)
    && c.high != [] && AllNumberChars(c.high)
  }

  /**
   * The pattern matches at `p` with captures `c`: the text at `p` reads
   * `value ws "[" low ws2 "-" high "]"` for some whitespace `ws` and `ws2`.
   */
  ghost predicate PatternAt(s: string, p: nat, c: Captures) {
    exists ws: string, ws2: string ::
      Parts(c, ws, ws2) && Occurs(s, p, RenderSpaced(c.value, ws, c.low, ws2, c.high))
  }

  /**
   * The match `captures` returns: the pattern occurs at `p`, nowhere before `p`, and no
   * match at `p` has a longer low group (the second group is greedy, the first has no choice).
   */
  ghost predicate LeftmostFirst(s: string, p: nat, c: Captures) {
    && PatternAt(s, p, c)
    && (forall q: nat, d: Captures :: q < p ==> !PatternAt(s, q, d))
    && (forall d: Captures :: PatternAt(s, p, d) ==> |d.low| <= |c.low|)
  }

  /** Two pieces standing one after the other form their concatenation. */
  lemma OccursJoin(s: string, p: nat, x: string, y: string)
    requires Occurs(s, p, x) && Occurs(s, p + |x|, y)
    ensures Occurs(s, p, x + y)
  {
    assert s[p..p + |x| + |y|] == s[p..p + |x|] + s[p + |x|..p + |x| + |y|];
  }

  /** A concatenation stands where its two pieces stand one after the other. */
  lemma OccursSplit(s: string, p: nat, x: string, y: string)
    requires Occurs(s, p, x + y)
    ensures Occurs(s, p, x) && Occurs(s, p + |x|, y)
  {
    var whole := s[p..p + |x| + |y|];
    assert whole[..|x|] == s[p..p + |x|] && (x + y)[..|x|] == x;
    assert whole[|x|..] == s[p + |x|..p + |x| + |y|] && (x + y)[|x|..] == y;
  }

  lemma OccursChar(s: string, i: nat, ch: char)
    ensures Occurs(s, i, [ch]) <==> i < |s| && s[i] == ch
  {
    if i < |s| {
      assert s[i..i + 1] == [s[i]];
    }
  }

  lemma OccursNumbers(s: string, i: nat, x: string)
    requires Occurs(s, i, x) && AllNumberChars(x)
    ensures forall j :: i <= j < i + |x| ==> IsNumberChar(s[j])
  {
    forall j | i <= j < i + |x| ensures IsNumberChar(s[j]) {
      assert s[j] == s[i..i + |x|][j - i];
    }
  }

  lemma OccursSpaces(s: string, i: nat, x: string)
    requires Occurs(s, i, x) && AllWhitespace(x)
    ensures forall j :: i <= j < i + |x| ==> IsWhitespace(s[j])
  {
    forall j | i <= j < i + |x| ensures IsWhitespace(s[j]) {
      assert s[j] == s[i..i + |x|][j - i];
    }
  }

  /** Each piece of a rendered match stands at its place, `value` at `p`. */
  predicate Pieces(s: string, p: nat, c: Captures, ws: string, ws2: string) {
    var a := p + |c.value|; var w := a + |ws|; var e := w + 1 + |c.low|;
    var d := e + |ws2|; var f := d + 1 + |c.high|;
    Occurs(s, p, c.value) && Occurs(s, a, ws) && Occurs(s, w, "[") && Occurs(s, w + 1, c.low)
    && Occurs(s, e, ws2) && Occurs(s, d, "-") && Occurs(s, d + 1, c.high) && Occurs(s, f, "]")
  }

  /** Where a rendered match stands at `p`, each of its pieces stands at its place. */
  lemma RenderedPieces(s: string, p: nat, c: Captures, ws: string, ws2: string)
    requires Occurs(s, p, RenderSpaced(c.value, ws, c.low, ws2, c.high))
    ensures Pieces(s, p, c, ws, ws2)
  {
    var x := c.value + ws + "[" + c.low;
    OccursSplit(s, p, x, ws2 + "-" + c.high + "]");
    HeadPieces(s, p, c.value, ws, c.low);
    TailPieces(s, p + |x|, ws2, c.high);
  }

  /** Where each piece of a match stands at its place, the rendered match stands at `p`. */
  lemma PiecesRendered(s: string, p: nat, c: Captures, ws: string, ws2: string)
    requires Pieces(s, p, c, ws, ws2)
    ensures Occurs(s, p, RenderSpaced(c.value, ws, c.low, ws2, c.high))
  {
    var x := c.value + ws + "[" + c.low;
    PiecesHead(s, p, c.value, ws, c.low);
    PiecesTail(s, p + |x|, ws2, c.high);
    OccursJoin(s, p, x, ws2 + "-" + c.high + "]");
  }

  /** The pieces of `value ws[low`. */
  lemma HeadPieces(s: string, p: nat, v: string, ws: string, l: string)
    requires Occurs(s, p, v + ws + "[" + l)
    ensures Occurs(s, p, v) && Occurs(s, p + |v|, ws) && Occurs(s, p + |v| + |ws|, "[")
    ensures Occurs(s, p + |v| + |ws| + 1, l)
  {
    OccursSplit(s, p, v + ws + "[", l);
    OccursSplit(s, p, v + ws, "[");
    OccursSplit(s, p, v, ws);
  }

  lemma PiecesHead(s: string, p: nat, v: string, ws: string, l: string)
    requires Occurs(s, p, v) && Occurs(s, p + |v|, ws) && Occurs(s, p + |v| + |ws|, "[")
    requires Occurs(s, p + |v| + |ws| + 1, l)
    ensures Occurs(s, p, v + ws + "[" + l)
  {
    OccursJoin(s, p, v, ws);
    OccursJoin(s, p, v + ws, "[");
    OccursJoin(s, p, v + ws + "[", l);
  }

  /** The pieces of `ws2-high]`. */
  lemma TailPieces(s: string, q: nat, ws2: string, h: string)
    requires Occurs(s, q, ws2 + "-" + h + "]")
    ensures Occurs(s, q, ws2) && Occurs(s, q + |ws2|, "-") && Occurs(s, q + |ws2| + 1, h)
    ensures Occurs(s, q + |ws2| + 1 + |h|, "]")
  {
    OccursSplit(s, q, ws2 + "-" + h, "]");
    OccursSplit(s, q, ws2 + "-", h);
    OccursSplit(s, q, ws2, "-");
  }

  lemma PiecesTail(s: string, q: nat, ws2: string, h: string)
    requires Occurs(s, q, ws2) && Occurs(s, q + |ws2|, "-") && Occurs(s, q + |ws2| + 1, h)
    requires Occurs(s, q + |ws2| + 1 + |h|, "]")
    ensures Occurs(s, q, ws2 + "-" + h + "]")
  {
    OccursJoin(s, q, ws2, "-");
    OccursJoin(s, q, ws2 + "-", h);
    OccursJoin(s, q, ws2 + "-" + h, "]");
  }

  /**
   * Where the pieces of a match lie in `s`: the value in `[p, a)`, whitespace in `[a, w)`,
   * '[' at `w`, the low group in `(w, e)`, whitespace in `[e, d)`, '-' at `d`, the high group
   * in `(d, f)` and ']' at `f`.
   */
  predicate Layout(s: string, p: nat, a: nat, w: nat, e: nat, d: nat, f: nat) {
    && p < a <= w && w + 1 < e <= d && d + 1 < f < |s|
    && (forall j :: p <= j < a ==> IsNumberChar(s[j]))
    && (forall j :: a <= j < w ==> IsWhitespace(s[j]))
    && s[w] == '['
    && (forall j :: w < j < e ==> IsNumberChar(s[j]))
    && (forall j :: e <= j < d ==> IsWhitespace(s[j]))
    && s[d] == '-'
    && (forall j :: d < j < f ==> IsNumberChar(s[j]))
    && s[f] == ']'
  }

  /** The pieces of a match stand where `Layout` says, its groups read off `s`. */
  lemma PiecesToLayout(s: string, p: nat, c: Captures, ws: string, ws2: string)
    returns (a: nat, w: nat, e: nat, d: nat, f: nat)
    requires Parts(c, ws, ws2) && Pieces(s, p, c, ws, ws2)
    ensures Layout(s, p, a, w, e, d, f) && c == Captures(s[p..a], s[w + 1..e], s[d + 1..f])
  {
    a := p + |c.value|;
    w := a + |ws|;
    e := w + 1 + |c.low|;
    d := e + |ws2|;
    f := d + 1 + |c.high|;
    PiecesMarks(s, p, c, ws, ws2);
    PiecesGroups(s, p, c, ws, ws2);
    PiecesSpaces(s, p, c, ws, ws2);
  }

  /** The '[', '-' and ']' of a match, where its pieces put them. */
  lemma PiecesMarks(s: string, p: nat, c: Captures, ws: string, ws2: string)
    requires Pieces(s, p, c, ws, ws2)
    ensures var w := p + |c.value| + |ws|; var d := w + 1 + |c.low| + |ws2|;
      var f := d + 1 + |c.high|;
      f < |s| && s[w] == '[' && s[d] == '-' && s[f] == ']'
  {
    var w := p + |c.value| + |ws|;
    var d := w + 1 + |c.low| + |ws2|;
    OccursChar(s, w, '[');
    OccursChar(s, d, '-');
    OccursChar(s, d + 1 + |c.high|, ']');
  }

  /** The three groups of a match are runs of number characters, read off `s`. */
  lemma PiecesGroups(s: string, p: nat, c: Captures, ws: string, ws2: string)
    requires Parts(c, ws, ws2) && Pieces(s, p, c, ws, ws2)
    ensures var a := p + |c.value|; var w := a + |ws|; var e := w + 1 + |c.low|;
      var d := e + |ws2|; var f := d + 1 + |c.high|;
      && f <= |s|
      && (forall j :: p <= j < a ==> IsNumberChar(s[j]))
      && (forall j :: w < j < e ==> IsNumberChar(s[j]))
      && (forall j :: d < j < f ==> IsNumberChar(s[j]))
      && c.value == s[p..a] && c.low == s[w + 1..e] && c.high == s[d + 1..f]
  {
    var a := p + |c.value|;
    var w := a + |ws|;
    var d := w + 1 + |c.low| + |ws2|;
    OccursNumbers(s, p, c.value);
    OccursNumbers(s, w + 1, c.low);
    OccursNumbers(s, d + 1, c.high);
  }

  /** The whitespace of a match, where its pieces put it. */
  lemma PiecesSpaces(s: string, p: nat, c: Captures, ws: string, ws2: string)
    requires Parts(c, ws, ws2) && Pieces(s, p, c, ws, ws2)
    ensures var a := p + |c.value|; var w := a + |ws|; var e := w + 1 + |c.low|;
      var d := e + |ws2|;
      && d <= |s|
      && (forall j :: a <= j < w ==> IsWhitespace(s[j]))
      && (forall j :: e <= j < d ==> IsWhitespace(s[j]))
  {
    var a := p + |c.value|;
    var e := a + |ws| + 1 + |c.low|;
    OccursSpaces(s, a, ws);
    OccursSpaces(s, e, ws2);
  }

  /** A layout's groups and whitespace are the parts of a match, each standing at its place. */
  lemma LayoutPieces(s: string, p: nat, a: nat, w: nat, e: nat, d: nat, f: nat)
    requires Layout(s, p, a, w, e, d, f)
    ensures var c := Captures(s[p..a], s[w + 1..e], s[d + 1..f]);
      Parts(c, s[a..w], s[e..d]) && Pieces(s, p, c, s[a..w], s[e..d])
  {
    LayoutParts(s, p, a, w, e, d, f);
    LayoutOccurs(s, p, a, w, e, d, f);
  }

  lemma LayoutParts(s: string, p: nat, a: nat, w: nat, e: nat, d: nat, f: nat)
    requires Layout(s, p, a, w, e, d, f)
    ensures Parts(Captures(s[p..a], s[w + 1..e], s[d + 1..f]), s[a..w], s[e..d])
  {
    RunSlice(s, p, a);
    RunSlice(s, w + 1, e);
    RunSlice(s, d + 1, f);
    SpaceSlice(s, a, w);
    SpaceSlice(s, e, d);
  }

  lemma LayoutOccurs(s: string, p: nat, a: nat, w: nat, e: nat, d: nat, f: nat)
    requires Layout(s, p, a, w, e, d, f)
    ensures Pieces(s, p, Captures(s[p..a], s[w + 1..e], s[d + 1..f]), s[a..w], s[e..d])
  {
    OccursChar(s, w, '[');
    OccursChar(s, d, '-');
    OccursChar(s, f, ']');
  }

  /** Every layout is a match, with the groups it lays out. */
  lemma LayoutToPattern(s: string, p: nat, a: nat, w: nat, e: nat, d: nat, f: nat)
    requires Layout(s, p, a, w, e, d, f)
    ensures PatternAt(s, p, Captures(s[p..a], s[w + 1..e], s[d + 1..f]))
  {
    var c := Captures(s[p..a], s[w + 1..e], s[d + 1..f]);
    var ws, ws2 := s[a..w], s[e..d];
    LayoutPieces(s, p, a, w, e, d, f);
    PiecesRendered(s, p, c, ws, ws2);
    assert Parts(c, ws, ws2) && Occurs(s, p, RenderSpaced(c.value, ws, c.low, ws2, c.high));
  }

  lemma SpaceSlice(s: string, i: nat, j: nat)
    requires i <= j <= |s|
    requires forall k :: i <= k < j ==> IsWhitespace(s[k])
    ensures AllWhitespace(s[i..j])
  {
    forall k | 0 <= k < j - i ensures IsWhitespace(s[i..j][k]) {
      assert s[i..j][k] == s[i + k];
    }
  }

  /** In a layout the value and high groups are maximal runs, and each `\s*` is maximal. */
  lemma LayoutRuns(s: string, p: nat, a: nat, w: nat, e: nat, d: nat, f: nat)
    requires Layout(s, p, a, w, e, d, f)
    ensures RunEnd(s, p) == a && SkipSpace(s, a) == w
    ensures SkipSpace(s, e) == d && RunEnd(s, d + 1) == f
  {
    assert !IsNumberChar(s[a]) by {
      if a < w {
        assert IsWhitespace(s[a]);
      }
    }
    RunEndIs(s, p, a);
    SkipSpaceIs(s, a, w);
    SkipSpaceIs(s, e, d);
    RunEndIs(s, d + 1, f);
  }

  /** Where the pieces of a match of the pattern at `p` lie in `s`. */
  lemma PatternLayout(s: string, p: nat, c: Captures) returns (a: nat, w: nat, e: nat, d: nat, f: nat)
    requires PatternAt(s, p, c)
    ensures Layout(s, p, a, w, e, d, f) && c == Captures(s[p..a], s[w + 1..e], s[d + 1..f])
  {
    var ws, ws2 :| Parts(c, ws, ws2) && Occurs(s, p, RenderSpaced(c.value, ws, c.low, ws2, c.high));
    RenderedPieces(s, p, c, ws, ws2);
    a, w, e, d, f := PiecesToLayout(s, p, c, ws, ws2);
  }

  /** Where the pieces of the bounds `MatchBounds` reads from `b` lie in `s`. */
  lemma BoundsLayout(s: string, b: nat) returns (e: nat, d: nat, f: nat)
    requires b <= |s| && MatchBounds(s, b).Some?
    ensures b < e <= d && d + 1 < f < |s|
    ensures forall j :: b <= j < e ==> IsNumberChar(s[j])
    ensures forall j :: e <= j < d ==> IsWhitespace(s[j])
    ensures s[d] == '-' && s[f] == ']'
    ensures forall j :: d < j < f ==> IsNumberChar(s[j])
    ensures MatchBounds(s, b).value == (s[b..e], s[d + 1..f])
  {
    e := RunEnd(s, b);
    RunEndSpec(s, b);
    d := SkipSpace(s, e);
    SkipSpaceSpec(s, e);
    if d < |s| && s[d] == '-' && RunEnd(s, d + 1) > d + 1
      && RunEnd(s, d + 1) < |s| && s[RunEnd(s, d + 1)] == ']'
    {
      f := RunEnd(s, d + 1);
      RunEndSpec(s, d + 1);
    } else {
      var run := e;
      LastDashSpec(s, b + 1, run - 1);
      e := LastDash(s, b + 1, run - 1).value;
      d, f := e, run;
    }
  }

  /** Soundness: what the matcher returns at `p` is the pattern, standing at `p`. */
  lemma MatchAtPattern(s: string, p: nat)
    requires p <= |s| && MatchAt(s, p).Some?
    ensures PatternAt(s, p, MatchAt(s, p).value)
  {
    var a := RunEnd(s, p);
    var w := SkipSpace(s, a);
    RunEndSpec(s, p);
    SkipSpaceSpec(s, a);
    assert p < a <= w < |s| && s[w] == '[';
    var e, d, f := BoundsLayout(s, w + 1);
    MatchAtIs(s, p, a, w, (s[w + 1..e], s[d + 1..f]));
    assert Layout(s, p, a, w, e, d, f);
    LayoutToPattern(s, p, a, w, e, d, f);
  }

  /**
   * Completeness: wherever the pattern stands at `p`, the matcher succeeds at `p`, with the
   * same value group and a low group at least as long.
   */
  lemma PatternMatchAt(s: string, p: nat, c: Captures)
    requires p <= |s| && PatternAt(s, p, c)
    ensures MatchAt(s, p).Some?
    ensures MatchAt(s, p).value.value == c.value && |c.low| <= |MatchAt(s, p).value.low|
  {
    var a, w, e, d, f := PatternLayout(s, p, c);
    LayoutRuns(s, p, a, w, e, d, f);
    var bounds := LayoutBounds(s, w + 1, e, d, f);
    MatchAtIs(s, p, a, w, bounds);
  }

  /**
   * The bounds the matcher reads after a '[' at `b - 1` laid out as in `Layout`: the low
   * group it takes is at least as long as the laid-out one.
   */
  lemma LayoutBounds(s: string, b: nat, e: nat, d: nat, f: nat) returns (bounds: (string, string))
    requires b < e <= d && d + 1 < f < |s|
    requires forall j :: b <= j < e ==> IsNumberChar(s[j])
    requires forall j :: e <= j < d ==> IsWhitespace(s[j])
    requires s[d] == '-' && s[f] == ']'
    requires forall j :: d < j < f ==> IsNumberChar(s[j])
    requires SkipSpace(s, e) == d && RunEnd(s, d + 1) == f
    ensures MatchBounds(s, b) == Some(bounds) && e - b <= |bounds.0|
  {
    if e < d {
      assert !IsNumberChar(s[e]) by {
        assert IsWhitespace(s[e]);
      }
      RunEndIs(s, b, e);
      BoundsWhole(s, b, e, d, f);
      bounds := (s[b..e], s[d + 1..f]);
    } else {
      RunEndIs(s, b, f);
      LastDashSpec(s, b + 1, f - 1);
      var k := LastDash(s, b + 1, f - 1).value;
      BoundsBackOff(s, b, k, f);
      bounds := (s[b..k], s[k + 1..f]);
    }
  }

  /** Two matches at `p` whose low groups have one length are the same match. */
  lemma PatternUnique(s: string, p: nat, c1: Captures, c2: Captures)
    requires PatternAt(s, p, c1) && PatternAt(s, p, c2) && |c1.low| == |c2.low|
    ensures c1 == c2
  {
    var a1, w1, e1, d1, f1 := PatternLayout(s, p, c1);
    var a2, w2, e2, d2, f2 := PatternLayout(s, p, c2);
    LayoutUnique(s, p, a1, w1, e1, d1, f1, a2, w2, e2, d2, f2);
  }

  /** Two layouts at `p` whose low groups have one length lie at the same places. */
  lemma LayoutUnique(s: string, p: nat, a1: nat, w1: nat, e1: nat, d1: nat, f1: nat,
                     a2: nat, w2: nat, e2: nat, d2: nat, f2: nat)
    requires Layout(s, p, a1, w1, e1, d1, f1) && Layout(s, p, a2, w2, e2, d2, f2)
    requires e1 - w1 == e2 - w2
    ensures a1 == a2 && w1 == w2 && e1 == e2 && d1 == d2 && f1 == f2
  {
    LayoutRuns(s, p, a1, w1, e1, d1, f1);
    LayoutRuns(s, p, a2, w2, e2, d2, f2);
  }

  /** The pattern only stands where it fits. */
  lemma PatternInside(s: string, p: nat, c: Captures)
    requires PatternAt(s, p, c)
    ensures p <= |s|
  {
  }

  /** There is at most one leftmost-first match. */
  lemma LeftmostFirstUnique(s: string, p1: nat, c1: Captures, p2: nat, c2: Captures)
    requires LeftmostFirst(s, p1, c1) && LeftmostFirst(s, p2, c2)
    ensures p1 == p2 && c1 == c2
  {
    if p1 != p2 {
      assert false;
    }
    PatternUnique(s, p1, c1, c2);
  }

  /**
   * `Parse` is the regex's `captures` on the trimmed field: it fails exactly when the pattern
   * stands nowhere in it, and otherwise returns the leftmost-first match.
   */
  lemma ParseSpec(field: string)
    ensures Parse(field).None? <==> forall q: nat, c: Captures :: !PatternAt(Trim(field), q, c)
    ensures Parse(field).Some? ==> exists q: nat :: LeftmostFirst(Trim(field), q, Parse(field).value)
  {
    var s := Trim(field);
    match Search(s, 0)
    case None =>
      forall q: nat, c: Captures ensures !PatternAt(s, q, c) {
        if PatternAt(s, q, c) {
          PatternInside(s, q, c);
          PatternMatchAt(s, q, c);
        }
      }
    case Some(found) =>
      var q, m := found.start, found.caps;
      MatchAtPattern(s, q);
      forall q': nat, d: Captures | q' < q ensures !PatternAt(s, q', d) {
        if PatternAt(s, q', d) {
          PatternMatchAt(s, q', d);
        }
      }
      forall d: Captures | PatternAt(s, q, d) ensures |d.low| <= |m.low| {
        PatternMatchAt(s, q, d);
      }
      assert LeftmostFirst(s, q, m);
  }
}

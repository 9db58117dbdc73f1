/**
 * The two extractions `analyzeNewsItem` performs on a description before the
 * prompt is built:
 *   numbers:     description.match(/\d+(\.\d+)?/g) || []
 *   comparisons: description.match(/(?:vs|versus)\s+[-\d.]+/g) || []
 * Neither expression has the `i` or `u` flag, so matching is case-sensitive
 * and `\d` is ASCII 0-9.
 */
module Extraction {
  import opened Outcomes
  import opened Text
  import opened GlobalMatch

  // ---------------------------------------------------------------- numbers

  /** A string of the shape `\d+(\.\d+)?`. */
  predicate IsNumberToken(t: string) {
    || (|t| > 0 && All(t, IsDigit))
    || exists k | 0 < k < |t| - 1 :: t[k] == '.' && All(t[..k], IsDigit) && All(t[k + 1..], IsDigit)
  }

  /**
   * The greedy match of `\d+(\.\d+)?` at `a`: the run of digits, extended by
   * `.` and the following run of digits when a digit follows the dot.
   */
  function NumberMatch(s: string, a: nat): Option<nat> {
    if a < |s| && IsDigit(s[a]) then
      var j := RunEnd(s, a, IsDigit);
      if j + 1 < |s| && s[j] == '.' && IsDigit(s[j + 1]) then Some(RunEnd(s, j + 1, IsDigit))
      else Some(j)
    else None
  }

  /** Only a digit can start a number token. */
  lemma NumberTokenStartsWithDigit(t: string)
    requires IsNumberToken(t)
    ensures |t| > 0 && IsDigit(t[0])
  {
    if !(|t| > 0 && All(t, IsDigit)) {
      var k :| 0 < k < |t| - 1 && t[k] == '.' && All(t[..k], IsDigit) && All(t[k + 1..], IsDigit);
      assert t[..k][0] == t[0];
    }
  }

  /** In a number token with a dot at `k` (relative to `a`), the dot sits where the leading digit run of `s` from `a` ends. */
  lemma DotAtRunEnd(s: string, a: nat, b: nat, k: nat)
    requires a < b <= |s| && 0 < k < b - a - 1
    requires s[a..b][k] == '.' && All(s[a..b][..k], IsDigit) && All(s[a..b][k + 1..], IsDigit)
    ensures RunEnd(s, a, IsDigit) == a + k
    ensures a + k + 1 < |s| && s[a + k] == '.' && IsDigit(s[a + k + 1])
  {
    assert forall i | a <= i < a + k :: s[a..b][..k][i - a] == s[i];
    assert s[a..b][k + 1..][0] == s[a + k + 1];
  }

  /** A digit run `s[a..b]` lies within the leading digit run from `a`. */
  lemma DigitsWithinRun(s: string, a: nat, b: nat)
    requires a < b <= |s| && All(s[a..b], IsDigit)
    ensures RunEnd(s, a, IsDigit) >= b
  {
    assert forall i | a <= i < b :: s[a..b][i - a] == s[i];
    RunReaches(s, a, b, IsDigit);
  }

  /** A fraction token `s[a..b]` with its dot at `k` ends the leading digit run at the dot and the next run reaches `b`. */
  lemma FractionAcrossRun(s: string, a: nat, b: nat, k: nat)
    requires a < b <= |s| && 0 < k < b - a - 1
    requires s[a..b][k] == '.' && All(s[a..b][..k], IsDigit) && All(s[a..b][k + 1..], IsDigit)
    ensures var j := RunEnd(s, a, IsDigit);
      j + 1 < b && s[j] == '.' && IsDigit(s[j + 1]) && RunEnd(s, j + 1, IsDigit) >= b
  {
    DotAtRunEnd(s, a, b, k);
    assert forall i | a + k + 1 <= i < b :: s[a..b][k + 1..][i - a - k - 1] == s[i];
    RunReaches(s, a + k + 1, b, IsDigit);
  }

  /**
   * A number token `s[a..b]` either lies within the leading digit run from
   * `a`, or that run ends inside it at a dot followed by a digit run reaching
   * at least to `b`.
   */
  lemma NumberTokenShape(s: string, a: nat, b: nat)
    requires a < b <= |s| && IsNumberToken(s[a..b])
    ensures var j := RunEnd(s, a, IsDigit);
      || j >= b
      || (j + 1 < b && s[j] == '.' && IsDigit(s[j + 1]) && RunEnd(s, j + 1, IsDigit) >= b)
  {
    var u := s[a..b];
    if All(u, IsDigit) {
      DigitsWithinRun(s, a, b);
    } else {
      var k :| 0 < k < |u| - 1 && u[k] == '.' && All(u[..k], IsDigit) && All(u[k + 1..], IsDigit);
      FractionAcrossRun(s, a, b, k);
    }
  }

  /** Where no dot and digit follow the leading digit run, that run is the longest number token. */
  lemma IntegerMatchLongest(s: string, a: nat, j: nat)
    requires a < |s| && IsDigit(s[a]) && j == RunEnd(s, a, IsDigit)
    requires !(j + 1 < |s| && s[j] == '.' && IsDigit(s[j + 1]))
    ensures LongestAt(s, IsNumberToken, a, j)
  {
    assert All(s[a..j], IsDigit);
    forall b: nat | j < b <= |s|
      ensures !IsNumberToken(s[a..b])
    {
      if IsNumberToken(s[a..b]) {
        NumberTokenShape(s, a, b);
      }
    }
  }

  /** A non-empty digit run, a dot and a non-empty digit run, one after the other, form a number token. */
  lemma FractionTokenFromParts(s: string, a: nat, j: nat, e: nat)
    requires a < j && j + 1 < e <= |s| && s[j] == '.'
    requires All(s[a..j], IsDigit) && All(s[j + 1..e], IsDigit)
    ensures IsNumberToken(s[a..e])
  {
    var t := s[a..e];
    var k := j - a;
    assert t[..k] == s[a..j];
    assert t[k + 1..] == s[j + 1..e];
    assert t[k] == '.';
  }

  /** Where a dot and a digit follow the leading digit run, the run, the dot and the next digit run form the longest number token. */
  lemma FractionMatchLongest(s: string, a: nat, j: nat, e: nat)
    requires a < |s| && IsDigit(s[a]) && j == RunEnd(s, a, IsDigit)
    requires j + 1 < |s| && s[j] == '.' && IsDigit(s[j + 1])
    requires e == RunEnd(s, j + 1, IsDigit)
    ensures LongestAt(s, IsNumberToken, a, e)
  {
    RunSlice(s, a, j, IsDigit);
    RunSlice(s, j + 1, e, IsDigit);
    FractionTokenFromParts(s, a, j, e);
    forall b: nat | e < b <= |s|
      ensures !IsNumberToken(s[a..b])
    {
      if IsNumberToken(s[a..b]) {
        NumberTokenShape(s, a, b);
      }
    }
  }

  /** The number matcher ends its match where the longest number token starting at `a` ends. */
  lemma NumberMatchLongest(s: string, a: nat)
    requires NumberMatch(s, a).Some?
    ensures LongestAt(s, IsNumberToken, a, NumberMatch(s, a).value)
  {
    var j := RunEnd(s, a, IsDigit);
    if j + 1 < |s| && s[j] == '.' && IsDigit(s[j + 1]) {
      FractionMatchLongest(s, a, j, RunEnd(s, j + 1, IsDigit));
    } else {
      IntegerMatchLongest(s, a, j);
    }
  }

  /** The number matcher is sound for `\d+(\.\d+)?`. */
  lemma NumberMatchSound()
    ensures Sound(NumberMatch, IsNumberToken)
  {
    forall s: string, a: nat
      ensures NumberMatch(s, a).Some? <==> MatchesAt(s, IsNumberToken, a)
      ensures NumberMatch(s, a).Some? ==> LongestAt(s, IsNumberToken, a, NumberMatch(s, a).value)
    {
      if NumberMatch(s, a).Some? {
        NumberMatchLongest(s, a);
        assert IsNumberToken(s[a..NumberMatch(s, a).value]);
      } else if MatchesAt(s, IsNumberToken, a) {
        var b: nat :| a < b <= |s| && IsNumberToken(s[a..b]);
        NumberTokenStartsWithDigit(s[a..b]);
        assert false;
      }
    }
  }

  /** `description.match(/\d+(\.\d+)?/g) || []`. */
  function Numbers(description: string): seq<string> {
    MatchAll(description, NumberMatch)
  }

  /**
   * Every extracted number is a digit run optionally followed by `.` and a
   * digit run, the numbers are the leftmost non-overlapping matches in order
   * of occurrence, and every digit of the description lies inside one of them.
   */
  lemma NumbersAreGlobalMatch(description: string)
    ensures IsGlobalMatchFrom(description, IsNumberToken, 0, ScanFrom(description, NumberMatch, 0))
    ensures forall k | 0 <= k < |Numbers(description)| :: IsNumberToken(Numbers(description)[k])
    ensures forall p | 0 <= p < |description| && IsDigit(description[p]) ::
      Covered(ScanFrom(description, NumberMatch, 0), p)
  {
    NumberMatchSound();
    ScanFromCorrect(description, NumberMatch, IsNumberToken, 0);
    forall p | 0 <= p < |description| && IsDigit(description[p])
      ensures MatchesAt(description, IsNumberToken, p)
    {
      assert description[p..p + 1] == [description[p]];
      assert IsNumberToken(description[p..p + 1]);
    }
  }

  /** Appending a digit to a number token gives a number token. */
  lemma NumberTokenAppendDigit(t: string, c: char)
    requires IsNumberToken(t) && IsDigit(c)
    ensures IsNumberToken(t + [c])
  {
    var u := t + [c];
    if !(|t| > 0 && All(t, IsDigit)) {
      var i :| 0 < i < |t| - 1 && t[i] == '.' && All(t[..i], IsDigit) && All(t[i + 1..], IsDigit);
      assert u[..i] == t[..i];
      assert u[i + 1..] == t[i + 1..] + [c];
      assert u[i] == '.';
    }
  }

  /** Appending a dot and a digit to a digit run gives a number token. */
  lemma NumberTokenAppendFraction(t: string, c: char)
    requires |t| > 0 && All(t, IsDigit) && IsDigit(c)
    ensures IsNumberToken(t + ['.', c])
  {
    var u := t + ['.', c];
    assert u[..|t|] == t;
    assert u[|t| + 1..] == [c];
    assert u[|t|] == '.';
  }

  /** A number token without a dot is a digit run. */
  lemma NumberTokenWithoutDot(t: string)
    requires IsNumberToken(t) && '.' !in t
    ensures |t| > 0 && All(t, IsDigit)
  {
  }

  /** A longest number token is not followed by a digit. */
  lemma LongestNumberNotFollowedByDigit(s: string, a: nat, b: nat)
    requires LongestAt(s, IsNumberToken, a, b) && b < |s|
    ensures !IsDigit(s[b])
  {
    NotLonger(s, IsNumberToken, a, b, b + 1);
    assert s[a..b + 1] == s[a..b] + [s[b]];
    if IsDigit(s[b]) {
      NumberTokenAppendDigit(s[a..b], s[b]);
    }
  }

  /** A longest number token without a dot is not followed by a dot and a digit. */
  lemma LongestIntegerNotFollowedByFraction(s: string, a: nat, b: nat)
    requires LongestAt(s, IsNumberToken, a, b) && '.' !in s[a..b] && b + 1 < |s|
    ensures !(s[b] == '.' && IsDigit(s[b + 1]))
  {
    NotLonger(s, IsNumberToken, a, b, b + 2);
    assert s[a..b + 2] == s[a..b] + [s[b], s[b + 1]];
    NumberTokenWithoutDot(s[a..b]);
    if s[b] == '.' && IsDigit(s[b + 1]) {
      NumberTokenAppendFraction(s[a..b], s[b + 1]);
    }
  }

  /**
   * Maximality: a number is never directly followed by a digit, and a number
   * without a fractional part is never directly followed by `.` and a digit.
   */
  lemma NumbersMaximal(description: string, k: nat)
    requires k < |Numbers(description)|
    ensures var sp := ScanFrom(description, NumberMatch, 0)[k];
      && (sp.end < |description| ==> !IsDigit(description[sp.end]))
      && ('.' !in Numbers(description)[k] && sp.end + 1 < |description| ==>
            !(description[sp.end] == '.' && IsDigit(description[sp.end + 1])))
  {
    var s := description;
    var sp := ScanFrom(s, NumberMatch, 0)[k];
    NumberMatchSound();
    MatchAllTokens(s, NumberMatch, IsNumberToken, k);
    assert Numbers(s)[k] == s[sp.start..sp.end];
    if sp.end < |s| {
      LongestNumberNotFollowedByDigit(s, sp.start, sp.end);
    }
    if '.' !in s[sp.start..sp.end] && sp.end + 1 < |s| {
      LongestIntegerNotFollowedByFraction(s, sp.start, sp.end);
    }
  }

  /** The `|| []` fallback: the number list is empty exactly when the description has no digit. */
  lemma NumbersEmptyIffNoDigit(description: string)
    ensures Numbers(description) == [] <==> forall p | 0 <= p < |description| :: !IsDigit(description[p])
  {
    var s := description;
    NumberMatchSound();
    MatchAllEmpty(s, NumberMatch, IsNumberToken);
    forall p: nat | p < |s|
      ensures MatchesAt(s, IsNumberToken, p) <==> IsDigit(s[p])
    {
      if IsDigit(s[p]) {
        assert s[p..p + 1] == [s[p]];
        assert IsNumberToken(s[p..p + 1]);
      }
      if MatchesAt(s, IsNumberToken, p) {
        var b: nat :| p < b <= |s| && IsNumberToken(s[p..b]);
        NumberTokenStartsWithDigit(s[p..b]);
      }
    }
  }

  // ------------------------------------------------------------ comparisons

  /** `\s` of a JavaScript regular expression: the ECMAScript white-space and line-terminator characters. */
  predicate IsJsSpace(c: char) {
    || c == ' '
    || '\t' <= c <= '\r'
    || c == '\U{00A0}' || c == '\U{1680}'
    || '\U{2000}' <= c <= '\U{200A}'
    || c == '\U{2028}' || c == '\U{2029}' || c == '\U{202F}' || c == '\U{205F}'
    || c == '\U{3000}' || c == '\U{FEFF}'
  }

  /** The character class `[-\d.]`. */
  predicate IsRangeChar(c: char) {
    c == '-' || IsDigit(c) || c == '.'
  }

  /** The alternation `(?:vs|versus)`. */
  predicate IsComparisonKeyword(w: string) {
    w == "vs" || w == "versus"
  }

  /** A string of the shape `(?:vs|versus)\s+[-\d.]+`. */
  predicate IsComparisonToken(t: string) {
    exists a, b | 0 < a < b < |t| ::
      IsComparisonKeyword(t[..a]) && All(t[a..b], IsJsSpace) && All(t[b..], IsRangeChar)
  }

  /** End of the keyword alternative that matches at `a`; `vs` is tried first. */
  function KeywordEnd(s: string, a: nat): Option<nat> {
    if OccursAt(s, "vs", a) then Some(a + 2)
    else if OccursAt(s, "versus", a) then Some(a + 6)
    else None
  }

  /**
   * The greedy match of `(?:vs|versus)\s+[-\d.]+` at `a`: the keyword, the
   * whole run of white space after it, then the whole run of `[-\d.]`.
   */
  function ComparisonMatch(s: string, a: nat): Option<nat> {
    match KeywordEnd(s, a)
    case None => None
    case Some(w) =>
      var b := RunEnd(s, w, IsJsSpace);
      if w < b < |s| && IsRangeChar(s[b]) then Some(RunEnd(s, b, IsRangeChar)) else None
  }

  /** A keyword found in `s` at `p` is the alternative `KeywordEnd` picks. */
  lemma KeywordAt(s: string, p: nat, e: nat, x: nat)
    requires p < e <= |s| && 0 < x < e - p
    requires IsComparisonKeyword(s[p..e][..x])
    ensures KeywordEnd(s, p) == Some(p + x)
  {
    assert s[p..e][..x] == s[p..p + x];
    if x == 6 {
      assert s[p..p + 6] == "versus";
      assert s[p + 1] == s[p..p + 6][1];
      assert !OccursAt(s, "vs", p);
    }
  }

  /** The white-space part of a comparison token found at `p` is the whole white-space run after the keyword. */
  lemma SpacesAcrossRun(s: string, p: nat, e: nat, x: nat, y: nat)
    requires p < e <= |s| && 0 < x < y < e - p
    requires All(s[p..e][x..y], IsJsSpace) && All(s[p..e][y..], IsRangeChar)
    ensures RunEnd(s, p + x, IsJsSpace) == p + y
  {
    var t := s[p..e];
    assert forall i | p + x <= i < p + y :: t[x..y][i - p - x] == s[i];
    assert t[y..][0] == s[p + y];
    assert !IsJsSpace(s[p + y]);
  }

  /** The figure part of a comparison token found at `p` starts with a `[-\d.]` character and lies within that run. */
  lemma FigureWithinRun(s: string, p: nat, e: nat, y: nat)
    requires p < e <= |s| && 0 < y < e - p
    requires All(s[p..e][y..], IsRangeChar)
    ensures IsRangeChar(s[p + y]) && RunEnd(s, p + y, IsRangeChar) >= e
  {
    assert forall i | p + y <= i < e :: s[p..e][y..][i - p - y] == s[i];
    RunReaches(s, p + y, e, IsRangeChar);
  }

  /** A comparison token found in `s` at `p` splits exactly where the keyword and the white-space run end. */
  lemma ComparisonSplit(s: string, p: nat, e: nat, x: nat, y: nat)
    requires p < e <= |s| && 0 < x < y < e - p
    requires IsComparisonKeyword(s[p..e][..x])
    requires All(s[p..e][x..y], IsJsSpace) && All(s[p..e][y..], IsRangeChar)
    ensures KeywordEnd(s, p) == Some(p + x)
    ensures RunEnd(s, p + x, IsJsSpace) == p + y
    ensures IsRangeChar(s[p + y]) && RunEnd(s, p + y, IsRangeChar) >= e
  {
    KeywordAt(s, p, e, x);
    SpacesAcrossRun(s, p, e, x, y);
    FigureWithinRun(s, p, e, y);
  }

  /** A keyword, a non-empty white-space run and a non-empty `[-\d.]` run, one after the other, form a comparison token. */
  lemma ComparisonTokenFromParts(s: string, a: nat, w: nat, b: nat, e: nat)
    requires a < w < b < e <= |s|
    requires IsComparisonKeyword(s[a..w]) && All(s[w..b], IsJsSpace) && All(s[b..e], IsRangeChar)
    ensures IsComparisonToken(s[a..e])
  {
    var t := s[a..e];
    var x, y := w - a, b - a;
    assert t[..x] == s[a..w];
    assert forall i | 0 <= i < y - x :: t[x..y][i] == s[w + i] == s[w..b][i];
    assert All(t[x..y], IsJsSpace);
    assert forall i | 0 <= i < e - b :: t[y..][i] == s[b + i] == s[b..e][i];
    assert All(t[y..], IsRangeChar);
  }

  /** What the comparison matcher spans is a comparison token. */
  lemma ComparisonMatchToken(s: string, a: nat)
    requires ComparisonMatch(s, a).Some?
    ensures a < ComparisonMatch(s, a).value <= |s|
    ensures IsComparisonToken(s[a..ComparisonMatch(s, a).value])
  {
    var w := KeywordEnd(s, a).value;
    var b := RunEnd(s, w, IsJsSpace);
    var e := RunEnd(s, b, IsRangeChar);
    if OccursAt(s, "vs", a) {
      assert s[a..w] == "vs";
    } else {
      assert s[a..w] == "versus";
    }
    RunSlice(s, w, b, IsJsSpace);
    RunSlice(s, b, e, IsRangeChar);
    ComparisonTokenFromParts(s, a, w, b, e);
  }

  /** The comparison matcher ends its match where the longest comparison token starting at `a` ends. */
  lemma ComparisonMatchLongest(s: string, a: nat)
    requires ComparisonMatch(s, a).Some?
    ensures LongestAt(s, IsComparisonToken, a, ComparisonMatch(s, a).value)
  {
    ComparisonMatchToken(s, a);
    var b := RunEnd(s, KeywordEnd(s, a).value, IsJsSpace);
    var e := ComparisonMatch(s, a).value;
    forall e': nat | e < e' <= |s|
      ensures !IsComparisonToken(s[a..e'])
    {
      var u := s[a..e'];
      if IsComparisonToken(u) {
        var x, y :| 0 < x < y < |u| && IsComparisonKeyword(u[..x]) && All(u[x..y], IsJsSpace) && All(u[y..], IsRangeChar);
        ComparisonSplit(s, a, e', x, y);
      }
    }
  }

  /** A position where the comparison matcher finds nothing starts no comparison token. */
  lemma ComparisonMissNoToken(s: string, a: nat, e: nat)
    requires a < e <= |s| && IsComparisonToken(s[a..e])
    ensures ComparisonMatch(s, a).Some?
  {
    var t := s[a..e];
    var x, y :| 0 < x < y < |t| && IsComparisonKeyword(t[..x]) && All(t[x..y], IsJsSpace) && All(t[y..], IsRangeChar);
    ComparisonSplit(s, a, e, x, y);
  }

  /** The comparison matcher is sound for `(?:vs|versus)\s+[-\d.]+`. */
  lemma ComparisonMatchSound()
    ensures Sound(ComparisonMatch, IsComparisonToken)
  {
    forall s: string, a: nat
      ensures ComparisonMatch(s, a).Some? <==> MatchesAt(s, IsComparisonToken, a)
      ensures ComparisonMatch(s, a).Some? ==> LongestAt(s, IsComparisonToken, a, ComparisonMatch(s, a).value)
    {
      if ComparisonMatch(s, a).Some? {
        ComparisonMatchLongest(s, a);
        assert IsComparisonToken(s[a..ComparisonMatch(s, a).value]);
      } else if MatchesAt(s, IsComparisonToken, a) {
        var b: nat :| a < b <= |s| && IsComparisonToken(s[a..b]);
        ComparisonMissNoToken(s, a, b);
      }
    }
  }

  /** `description.match(/(?:vs|versus)\s+[-\d.]+/g) || []`. */
  function Comparisons(description: string): seq<string> {
    MatchAll(description, ComparisonMatch)
  }

  /**
   * Every comparison is `vs` or `versus` (case-sensitive), at least one white
   * space, then at least one of `-`, digit, `.`; the comparisons are the
   * leftmost non-overlapping longest matches in order, and each is the whole
   * run of `[-\d.]` that follows the white space.
   */
  lemma ComparisonsAreGlobalMatch(description: string)
    ensures IsGlobalMatchFrom(description, IsComparisonToken, 0, ScanFrom(description, ComparisonMatch, 0))
    ensures forall k | 0 <= k < |Comparisons(description)| :: IsComparisonToken(Comparisons(description)[k])
  {
    ComparisonMatchSound();
    ScanFromCorrect(description, ComparisonMatch, IsComparisonToken, 0);
  }

  /** The `|| []` fallback: the comparison list is empty exactly when the expression matches nowhere. */
  lemma ComparisonsEmptyIffNoMatch(description: string)
    ensures Comparisons(description) == [] <==>
      forall p: nat | p < |description| :: !MatchesAt(description, IsComparisonToken, p)
  {
    ComparisonMatchSound();
    MatchAllEmpty(description, ComparisonMatch, IsComparisonToken);
  }
}

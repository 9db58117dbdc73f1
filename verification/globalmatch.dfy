/**
 * `String.prototype.match` with a global regular expression, for expressions
 * that never match the empty string and whose greedy match at a position is
 * the longest one. The search starts at index 0; wherever the expression
 * matches, the match is taken and the search resumes at its end; elsewhere
 * it moves on by one character. No match gives the empty list, which is what
 * `match(...) || []` yields in the source.
 *
 * The expression itself is given twice: as a declarative token predicate
 * (which strings it matches) and as a matcher computing where the match at a
 * position ends. `Sound` ties the two together.
 */
module GlobalMatch {
  import opened Outcomes

  /** The half-open index range `[start, end)` of one match. */
  datatype Span = Span(start: nat, end: nat)

  /** Where the match found at a position ends, if the expression matches there. */
  type Matcher = (string, nat) -> Option<nat>

  /** Every character of `t` satisfies `p`. */
  predicate All(t: string, p: char -> bool) {
    forall i | 0 <= i < |t| :: p(t[i])
  }

  /** End of the longest run of characters satisfying `p` that starts at `i`. */
  function RunEnd(s: string, i: nat, p: char -> bool): (j: nat)
    requires i <= |s|
    decreases |s| - i
    ensures i <= j <= |s|
    ensures forall k | i <= k < j :: p(s[k])
    ensures j == |s| || !p(s[j])
  {
    if i < |s| && p(s[i]) then RunEnd(s, i + 1, p) else i
  }

  /** A run of `p` characters from `i` up to `b` reaches at least to `b`. */
  lemma RunReaches(s: string, i: nat, b: nat, p: char -> bool)
    requires i <= b <= |s|
    requires forall k | i <= k < b :: p(s[k])
    ensures RunEnd(s, i, p) >= b
  {
  }

  /** A run of `p` characters from `i` up to `b` is a slice all of whose characters satisfy `p`. */
  lemma RunSlice(s: string, i: nat, b: nat, p: char -> bool)
    requires i <= b <= |s|
    requires forall k | i <= k < b :: p(s[k])
    ensures All(s[i..b], p)
  {
    assert forall k | 0 <= k < b - i :: s[i..b][k] == s[i + k];
  }

  /** `s[a..b]` is a non-empty token. */
  ghost predicate TokenAt(s: string, tok: string -> bool, a: nat, b: nat) {
    a < b <= |s| && tok(s[a..b])
  }

  /** Some token of `s` starts at `a`: the expression matches at `a`. */
  ghost predicate MatchesAt(s: string, tok: string -> bool, a: nat) {
    exists b: nat | a < b <= |s| :: tok(s[a..b])
  }

  /** `s[a..b]` is the longest token starting at `a`. */
  ghost predicate LongestAt(s: string, tok: string -> bool, a: nat, b: nat) {
    TokenAt(s, tok, a, b) && forall b': nat | b < b' <= |s| :: !tok(s[a..b'])
  }

  /** The matcher finds a match exactly where a token starts, and that match is the longest token. */
  ghost predicate Sound(m: Matcher, tok: string -> bool) {
    forall s: string, a: nat ::
      && (m(s, a).Some? <==> MatchesAt(s, tok, a))
      && (m(s, a).Some? ==> LongestAt(s, tok, a, m(s, a).value))
  }

  /** Position `p` lies inside one of the spans. */
  ghost predicate Covered(spans: seq<Span>, p: nat) {
    exists k | 0 <= k < |spans| :: spans[k].start <= p < spans[k].end
  }

  /** Every span lies inside `s`, at or after `i`, and the spans are in increasing order without overlap. */
  predicate Ordered(s: string, i: nat, spans: seq<Span>) {
    && (forall k | 0 <= k < |spans| :: i <= spans[k].start < spans[k].end <= |s|)
    && (forall j, k | 0 <= j < k < |spans| :: spans[j].end <= spans[k].start)
  }

  /**
   * The global-match semantics from index `i` on, stated without reference to
   * a search procedure: the spans are ordered, each is the longest token at
   * its start, and every position at which the expression matches lies inside
   * a span.
   */
  ghost predicate IsGlobalMatchFrom(s: string, tok: string -> bool, i: nat, spans: seq<Span>) {
    && Ordered(s, i, spans)
    && (forall k | 0 <= k < |spans| :: LongestAt(s, tok, spans[k].start, spans[k].end))
    && (forall p: nat | i <= p < |s| :: MatchesAt(s, tok, p) ==> Covered(spans, p))
  }

  /** The search loop of a global match, resuming at `i`. */
  function ScanFrom(s: string, m: Matcher, i: nat): (spans: seq<Span>)
    decreases |s| - i
    ensures Ordered(s, i, spans)
  {
    if i >= |s| then []
    else
      var r := m(s, i);
      // a matcher that reports an empty or backwards match is passed over
      if r.Some? && i < r.value <= |s| then [Span(i, r.value)] + ScanFrom(s, m, r.value)
      else ScanFrom(s, m, i + 1)
  }

  /** The matched substrings, in order. */
  function Tokens(s: string, spans: seq<Span>): (r: seq<string>)
    requires Ordered(s, 0, spans)
    ensures |r| == |spans|
    ensures forall k | 0 <= k < |spans| :: r[k] == s[spans[k].start..spans[k].end]
  {
    seq(|spans|, k requires 0 <= k < |spans| => s[spans[k].start..spans[k].end])
  }

  /** `s.match(re) || []` for a global expression `re`. */
  function MatchAll(s: string, m: Matcher): seq<string> {
    Tokens(s, ScanFrom(s, m, 0))
  }

  /** No token starting where a longest token starts extends beyond it. */
  lemma NotLonger(s: string, tok: string -> bool, a: nat, b: nat, b': nat)
    requires LongestAt(s, tok, a, b) && b < b' <= |s|
    ensures !tok(s[a..b'])
  {
  }

  /** Two longest tokens at the same start end at the same place. */
  lemma LongestUnique(s: string, tok: string -> bool, a: nat, b1: nat, b2: nat)
    requires LongestAt(s, tok, a, b1) && LongestAt(s, tok, a, b2)
    ensures b1 == b2
  {
  }

  /** The search loop computes the global-match semantics. */
  lemma {:induction false} ScanFromCorrect(s: string, m: Matcher, tok: string -> bool, i: nat)
    requires Sound(m, tok)
    ensures IsGlobalMatchFrom(s, tok, i, ScanFrom(s, m, i))
    decreases |s| - i
  {
    var spans := ScanFrom(s, m, i);
    if i >= |s| {
    } else if m(s, i).Some? {
      var e := m(s, i).value;
      assert LongestAt(s, tok, i, e);
      var rest := ScanFrom(s, m, e);
      ScanFromCorrect(s, m, tok, e);
      assert spans == [Span(i, e)] + rest;
      forall p: nat | i <= p < |s| && MatchesAt(s, tok, p)
        ensures Covered(spans, p)
      {
        if p < e {
          assert spans[0].start <= p < spans[0].end;
        } else {
          var k :| 0 <= k < |rest| && rest[k].start <= p < rest[k].end;
          assert spans[k + 1] == rest[k];
        }
      }
    } else {
      assert !MatchesAt(s, tok, i);
      ScanFromCorrect(s, m, tok, i + 1);
    }
  }

  /** Where the expression matches at `i`, a solution from `i` begins with that match. */
  lemma FirstSpanAtMatch(s: string, tok: string -> bool, i: nat, e: nat, spans: seq<Span>)
    requires IsGlobalMatchFrom(s, tok, i, spans)
    requires LongestAt(s, tok, i, e)
    ensures |spans| > 0 && spans[0] == Span(i, e)
    ensures IsGlobalMatchFrom(s, tok, e, spans[1..])
  {
    assert MatchesAt(s, tok, i) by {
      assert tok(s[i..e]);
    }
    var k :| 0 <= k < |spans| && spans[k].start <= i < spans[k].end;
    assert k == 0;
    LongestUnique(s, tok, i, spans[0].end, e);
    var rest := spans[1..];
    forall p: nat | e <= p < |s| && MatchesAt(s, tok, p)
      ensures Covered(rest, p)
    {
      var j :| 0 <= j < |spans| && spans[j].start <= p < spans[j].end;
      assert j > 0;
      assert rest[j - 1] == spans[j];
    }
  }

  /** Where the expression does not match at `i`, a solution from `i` is one from `i + 1`. */
  lemma NoSpanAtMiss(s: string, tok: string -> bool, i: nat, spans: seq<Span>)
    requires IsGlobalMatchFrom(s, tok, i, spans)
    requires !MatchesAt(s, tok, i)
    ensures IsGlobalMatchFrom(s, tok, i + 1, spans)
  {
    if |spans| > 0 {
      var a := spans[0].start;
      assert MatchesAt(s, tok, a) by {
        assert tok(s[a..spans[0].end]);
      }
    }
  }

  /** The global-match semantics has exactly one solution: the one the search loop finds. */
  lemma {:induction false} ScanFromUnique(s: string, m: Matcher, tok: string -> bool, i: nat, spans: seq<Span>)
    requires Sound(m, tok)
    requires IsGlobalMatchFrom(s, tok, i, spans)
    ensures spans == ScanFrom(s, m, i)
    decreases |s| - i
  {
    if i >= |s| {
      assert |spans| == 0;
    } else {
      var r := m(s, i);
      assert r.Some? <==> MatchesAt(s, tok, i);
      if r.Some? {
        var e := r.value;
        assert LongestAt(s, tok, i, e);
        FirstSpanAtMatch(s, tok, i, e, spans);
        ScanFromUnique(s, m, tok, e, spans[1..]);
        assert spans == [Span(i, e)] + spans[1..];
      } else {
        NoSpanAtMiss(s, tok, i, spans);
        ScanFromUnique(s, m, tok, i + 1, spans);
      }
    }
  }

  /** A global match finds nothing exactly when the expression matches nowhere in `s`. */
  lemma MatchAllEmpty(s: string, m: Matcher, tok: string -> bool)
    requires Sound(m, tok)
    ensures MatchAll(s, m) == [] <==> forall p: nat | p < |s| :: !MatchesAt(s, tok, p)
  {
    var spans := ScanFrom(s, m, 0);
    ScanFromCorrect(s, m, tok, 0);
    if |spans| > 0 {
      var a := spans[0].start;
      assert MatchesAt(s, tok, a) by {
        assert tok(s[a..spans[0].end]);
      }
    }
  }

  /** Every matched substring is a token, and no token extends it to the right. */
  lemma MatchAllTokens(s: string, m: Matcher, tok: string -> bool, k: nat)
    requires Sound(m, tok)
    requires k < |MatchAll(s, m)|
    ensures tok(MatchAll(s, m)[k])
    ensures LongestAt(s, tok, ScanFrom(s, m, 0)[k].start, ScanFrom(s, m, 0)[k].end)
  {
    ScanFromCorrect(s, m, tok, 0);
  }
}

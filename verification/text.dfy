/**
 * String primitives used by the dashboard: occurrence search with the
 * semantics of JavaScript's `indexOf`/`includes`, `String.replace` with a
 * string pattern (first occurrence only), ASCII lower-casing and
 * `Array.join(", ")` together with its inverse.
 */
module Text {
  import opened Outcomes

  /** `\d` of a JavaScript regular expression without the `u` flag. */
  predicate IsDigit(c: char) {
    '0' <= c <= '9'
  }

  /** `pat` occurs in `s` starting at index `i`. */
  predicate OccursAt(s: string, pat: string, i: nat) {
    i + |pat| <= |s| && s[i..i + |pat|] == pat
  }

  /** JavaScript's `s.includes(pat)`. */
  predicate Contains(s: string, pat: string) {
    exists i: nat | i <= |s| :: OccursAt(s, pat, i)
  }

  /** `k` is the leftmost index at which `pat` occurs in `s`. */
  predicate IsFirstOccurrence(s: string, pat: string, k: nat) {
    OccursAt(s, pat, k) && forall j: nat | j < k :: !OccursAt(s, pat, j)
  }

  /** Leftmost occurrence of `pat` in `s` at or after `from` (`indexOf(pat, from)`). */
  function FindFrom(s: string, pat: string, from: nat): (r: Option<nat>)
    decreases |s| - from
    ensures r.Some? ==> from <= r.value && OccursAt(s, pat, r.value)
    ensures r.Some? ==> forall j: nat | from <= j < r.value :: !OccursAt(s, pat, j)
    ensures r.None? ==> forall j: nat | from <= j :: !OccursAt(s, pat, j)
  {
    if from + |pat| > |s| then None
    else if OccursAt(s, pat, from) then Some(from)
    else FindFrom(s, pat, from + 1)
  }

  /** `s.indexOf(pat)`, with `None` for JavaScript's `-1`. */
  function IndexOf(s: string, pat: string): (r: Option<nat>)
    ensures r.None? <==> !Contains(s, pat)
    ensures r.Some? ==> IsFirstOccurrence(s, pat, r.value)
  {
    var r := FindFrom(s, pat, 0);
    if r.Some? then
      assert OccursAt(s, pat, r.value);
      r
    else
      r
  }

  /**
   * `s.replace(pat, rep)` with a string pattern: only the leftmost occurrence
   * of `pat` is replaced; a string without `pat` comes back unchanged. `rep`
   * is spliced in literally, which is JavaScript's behaviour when `rep` holds
   * no `$` pattern (`$&`, `$$`, `` $` ``, `$'`).
   */
  function ReplaceFirst(s: string, pat: string, rep: string): (r: string)
    ensures !Contains(s, pat) ==> r == s
    ensures Contains(s, pat) ==>
      exists k: nat | k <= |s| :: IsFirstOccurrence(s, pat, k) && r == s[..k] + rep + s[k + |pat|..]
    ensures |r| == if Contains(s, pat) then |s| - |pat| + |rep| else |s|
  {
    match IndexOf(s, pat)
    case None => s
    case Some(k) => s[..k] + rep + s[k + |pat|..]
  }

  /** The first occurrence is unique, so the replaced position is determined. */
  lemma FirstOccurrenceUnique(s: string, pat: string, k1: nat, k2: nat)
    requires IsFirstOccurrence(s, pat, k1) && IsFirstOccurrence(s, pat, k2)
    ensures k1 == k2
  {
  }

  /** `ReplaceFirst` splices `rep` in at the first occurrence of `pat`. */
  lemma ReplaceAt(s: string, pat: string, rep: string, k: nat)
    requires IsFirstOccurrence(s, pat, k)
    ensures ReplaceFirst(s, pat, rep) == s[..k] + rep + s[k + |pat|..]
  {
    assert Contains(s, pat) by { assert OccursAt(s, pat, k); }
    FirstOccurrenceUnique(s, pat, k, IndexOf(s, pat).value);
  }

  /** Inverse of `ReplaceFirst`: putting `pat` back where it was removed restores `s`. */
  lemma ReplaceFirstUndo(s: string, pat: string, rep: string, k: nat)
    requires IsFirstOccurrence(s, pat, k)
    ensures ReplaceFirst(s, pat, rep)[..k] + pat + ReplaceFirst(s, pat, rep)[k + |rep|..] == s
  {
    var r := ReplaceFirst(s, pat, rep);
    ReplaceAt(s, pat, rep, k);
    assert r[..k] == s[..k];
    assert r[k + |rep|..] == s[k + |pat|..];
    assert s == s[..k] + s[k..k + |pat|] + s[k + |pat|..];
  }

  /** The ASCII part of JavaScript's `toLowerCase` on one character. */
  function LowerChar(c: char): char {
    if 'A' <= c <= 'Z' then (c as int + 32) as char else c
  }

  /** `s.toLowerCase()`, folding A-Z only. */
  function ToLower(s: string): (r: string)
    ensures |r| == |s|
    ensures forall i | 0 <= i < |s| :: r[i] == LowerChar(s[i])
  {
    seq(|s|, i requires 0 <= i < |s| => LowerChar(s[i]))
  }

  /** Lower-casing distributes over concatenation. */
  lemma ToLowerAppend(a: string, b: string)
    ensures ToLower(a + b) == ToLower(a) + ToLower(b)
  {
  }

  /** The separator of `Array.prototype.join(', ')`. */
  const Separator: string := ", "

  /** `xs.join(', ')`; the empty list joins to the empty string. */
  function Join(xs: seq<string>): string
  {
    if |xs| == 0 then ""
    else if |xs| == 1 then xs[0]
    else xs[0] + Separator + Join(xs[1..])
  }

  /** Splits a joined list at each comma; the inverse of `Join` for comma-free items. */
  function Split(s: string): (r: seq<string>)
    decreases |s|
  {
    if |s| == 0 then []
    else match IndexOf(s, ",")
      case None => [s]
      case Some(k) =>
        if k + 2 <= |s| then [s[..k]] + Split(s[k + 2..]) else [s[..k]]
  }

  /** None of `xs` is empty and none contains a comma. */
  predicate CommaFreeItems(xs: seq<string>) {
    forall i | 0 <= i < |xs| :: |xs[i]| > 0 && !Contains(xs[i], ",")
  }

  /** The first comma of `a + b` is the first comma of `b`, shifted, when `a` has none. */
  lemma IndexOfCommaAfter(a: string, b: string)
    requires !Contains(a, ",")
    requires |b| > 0 && b[0] == ','
    ensures IndexOf(a + b, ",") == Some(|a|)
  {
    var s := a + b;
    assert OccursAt(s, ",", |a|);
    forall j: nat | j < |a|
      ensures !OccursAt(s, ",", j)
    {
      assert s[j] == a[j];
      assert OccursAt(a, ",", j) ==> Contains(a, ",");
    }
    assert IsFirstOccurrence(s, ",", |a|);
    FirstOccurrenceUnique(s, ",", |a|, IndexOf(s, ",").value);
  }

  /** Round trip: splitting a joined list of comma-free, non-empty items gives the list back. */
  lemma {:induction false} SplitJoin(xs: seq<string>)
    requires CommaFreeItems(xs)
    ensures Split(Join(xs)) == xs
    decreases |xs|
  {
    if |xs| == 0 {
    } else if |xs| == 1 {
      assert Join(xs) == xs[0];
      assert IndexOf(xs[0], ",").None?;
    } else {
      var rest := Join(xs[1..]);
      var s := xs[0] + Separator + rest;
      assert Join(xs) == s;
      IndexOfCommaAfter(xs[0], Separator + rest);
      assert xs[0] + (Separator + rest) == s;
      assert s[|xs[0]| + 2..] == rest;
      assert s[..|xs[0]|] == xs[0];
      assert CommaFreeItems(xs[1..]) by {
        forall i | 0 <= i < |xs[1..]|
          ensures |xs[1..][i]| > 0 && !Contains(xs[1..][i], ",")
        {
          assert xs[1..][i] == xs[i + 1];
        }
      }
      SplitJoin(xs[1..]);
      assert xs == [xs[0]] + xs[1..];
    }
  }
}

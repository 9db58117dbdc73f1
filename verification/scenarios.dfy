/**
 * Worked cases: the extraction of a release line, the keyword filter on a
 * central-bank headline and on an unrelated one, and a scan that breaks off
 * at its second call.
 */
module Scenarios {
  import opened Outcomes
  import opened Text
  import opened GlobalMatch
  import opened Extraction
  import opened News
  import opened HighImpact
  import opened Dashboard

  // ------------------------------------------------------------ extraction

  /** The end of a housing-sales description. */
  const Release: string := "3.96M vs 3.93M"

  lemma ReleaseFirstNumber()
    ensures NumberMatch(Release, 0) == Some(4)
  {
    assert RunEnd(Release, 0, IsDigit) == 1;
    assert RunEnd(Release, 2, IsDigit) == 4;
  }

  lemma ReleaseSecondNumber()
    ensures NumberMatch(Release, 9) == Some(13)
  {
    assert RunEnd(Release, 9, IsDigit) == 10;
    assert RunEnd(Release, 11, IsDigit) == 13;
  }

  /** The number scan passes over a stretch without a digit. */
  lemma {:induction false} SkipRunWithoutDigit(s: string, p: nat, q: nat)
    requires p <= q <= |s|
    requires forall k | p <= k < q :: !IsDigit(s[k])
    ensures ScanFrom(s, NumberMatch, p) == ScanFrom(s, NumberMatch, q)
    decreases q - p
  {
    if p < q {
      assert NumberMatch(s, p) == None;
      SkipRunWithoutDigit(s, p + 1, q);
    }
  }

  /** "M vs " holds no digit, so the number scan passes over it. */
  lemma ReleaseGap()
    ensures ScanFrom(Release, NumberMatch, 4) == ScanFrom(Release, NumberMatch, 9)
  {
    SkipRunWithoutDigit(Release, 4, 9);
  }

  /** A global match that finds exactly two spans yields exactly those substrings, in order. */
  lemma TwoMatches(s: string, m: Matcher, a: nat, b: nat, c: nat, d: nat)
    requires ScanFrom(s, m, 0) == [Span(a, b), Span(c, d)]
    ensures a <= b <= |s| && c <= d <= |s| && MatchAll(s, m) == [s[a..b], s[c..d]]
  {
    var spans := ScanFrom(s, m, 0);
    assert spans[0] == Span(a, b) && spans[1] == Span(c, d);
    var t := MatchAll(s, m);
    assert |t| == 2 && t[0] == s[a..b] && t[1] == s[c..d];
  }

  /** The two figures of the release line. */
  lemma ReleaseFigures()
    ensures Release[0..4] == "3.96" && Release[9..13] == "3.93"
  {
  }

  /** Both figures are extracted, in order, with their decimals and without the unit. */
  lemma ReleaseNumbers()
    ensures Numbers(Release) == ["3.96", "3.93"]
  {
    ReleaseFirstNumber();
    ReleaseSecondNumber();
    ReleaseGap();
    SkipRunWithoutDigit(Release, 13, 14);
    TwoMatches(Release, NumberMatch, 0, 4, 9, 13);
    ReleaseFigures();
  }

  /** A dotted triple: the first number keeps one fraction, so it is directly followed by `.` and a digit. */
  const Triple: string := "1.2.3"

  /** "1.2.3" gives "1.2" and then "3": a number with a fraction can be followed by `.` and a digit. */
  lemma TripleNumbers()
    ensures Numbers(Triple) == ["1.2", "3"]
    ensures Triple[3] == '.' && IsDigit(Triple[4])
  {
    assert RunEnd(Triple, 0, IsDigit) == 1;
    assert RunEnd(Triple, 2, IsDigit) == 3;
    assert NumberMatch(Triple, 0) == Some(3);
    assert NumberMatch(Triple, 3) == None;
    assert RunEnd(Triple, 4, IsDigit) == 5;
    assert NumberMatch(Triple, 4) == Some(5);
    assert ScanFrom(Triple, NumberMatch, 0) == [Span(0, 3), Span(4, 5)];
    TwoMatches(Triple, NumberMatch, 0, 3, 4, 5);
    assert Triple[0..3] == "1.2" && Triple[4..5] == "3";
  }

  lemma ReleaseComparisonMatch()
    ensures ComparisonMatch(Release, 6) == Some(13)
    ensures ScanFrom(Release, ComparisonMatch, 6) == [Span(6, 13)] + ScanFrom(Release, ComparisonMatch, 13)
  {
    assert Release[6..8] == "vs";
    assert KeywordEnd(Release, 6) == Some(8);
    assert RunEnd(Release, 8, IsJsSpace) == 9;
    assert RunEnd(Release, 9, IsRangeChar) == 13;
  }

  /** Only a `v` can start a comparison. */
  lemma NoComparisonWithoutV(s: string, p: nat)
    requires p < |s| && s[p] != 'v'
    ensures ComparisonMatch(s, p) == None
  {
  }

  /** The comparison scan passes over a position that does not hold a `v`. */
  lemma SkipWithoutV(s: string, p: nat)
    requires p < |s| && s[p] != 'v'
    ensures ScanFrom(s, ComparisonMatch, p) == ScanFrom(s, ComparisonMatch, p + 1)
  {
    NoComparisonWithoutV(s, p);
  }

  /** The comparison scan passes over a stretch without a `v`. */
  lemma {:induction false} SkipRunWithoutV(s: string, p: nat, q: nat)
    requires p <= q <= |s|
    requires forall k | p <= k < q :: s[k] != 'v'
    ensures ScanFrom(s, ComparisonMatch, p) == ScanFrom(s, ComparisonMatch, q)
    decreases q - p
  {
    if p < q {
      SkipWithoutV(s, p);
      SkipRunWithoutV(s, p + 1, q);
    }
  }

  /** No keyword starts before the "vs". */
  lemma ReleaseNoEarlierComparison()
    ensures ScanFrom(Release, ComparisonMatch, 0) == ScanFrom(Release, ComparisonMatch, 6)
  {
    SkipRunWithoutV(Release, 0, 6);
  }

  /** Nor after the figure. */
  lemma ReleaseNoLaterComparison()
    ensures ScanFrom(Release, ComparisonMatch, 13) == []
  {
    SkipWithoutV(Release, 13);
  }

  lemma ReleaseComparisonSpans()
    ensures ScanFrom(Release, ComparisonMatch, 0) == [Span(6, 13)]
  {
    ReleaseComparisonMatch();
    ReleaseNoEarlierComparison();
    ReleaseNoLaterComparison();
  }

  /** The keyword, the space and the figure of the release line. */
  lemma ReleaseFigure()
    ensures Release[6..13] == "vs 3.93"
  {
  }

  /** A global match that finds exactly one span yields exactly that substring. */
  lemma OneMatch(s: string, m: Matcher, a: nat, b: nat)
    requires ScanFrom(s, m, 0) == [Span(a, b)]
    ensures a <= b <= |s| && MatchAll(s, m) == [s[a..b]]
  {
    var spans := ScanFrom(s, m, 0);
    assert spans[0] == Span(a, b);
    var t := MatchAll(s, m);
    assert |t| == 1 && t[0] == s[a..b];
  }

  /** The comparison keeps the keyword and the figure but not the unit. */
  lemma ReleaseComparisons()
    ensures Comparisons(Release) == ["vs 3.93"]
  {
    ReleaseComparisonSpans();
    OneMatch(Release, ComparisonMatch, 6, 13);
    ReleaseFigure();
  }

  // ------------------------------------------------------------ keyword filter

  /** A headline item with the given title and link and no description. */
  function Headline(title: string, link: string): NewsItem {
    NewsItem(title, link, "", "", "", "")
  }

  const FedTitle: string := "Fed holds rates steady"
  /** A headline with none of the letters e, p and f, between which every keyword is covered. */
  const OilTitle: string := "Oil down"

  /** A capitalised "Fed" matches the keyword "fed" once lower-cased. */
  lemma FedHeadlineSelected(link: string)
    ensures IsHighImpact(Headline(FedTitle, link))
  {
    var content := Content(Headline(FedTitle, link));
    assert content[0] == 'f' && content[1] == 'e' && content[2] == 'd';
    assert content[0..3] == "fed";
    assert OccursAt(content, Keywords[0], 0);
  }

  /** A lower-case letter absent from `s` in both cases is absent from `s` lower-cased. */
  lemma AbsentAfterLowering(s: string, c: char, upper: char)
    requires 'a' <= c <= 'z' && upper as int == c as int - 32 && c !in s && upper !in s
    ensures c !in ToLower(s)
  {
  }

  /** A lower-case letter that a title lacks in both cases is absent from the content of its headline. */
  lemma AbsentFromHeadline(title: string, link: string, c: char, upper: char)
    requires 'a' <= c <= 'z' && upper as int == c as int - 32 && c !in title && upper !in title
    ensures c !in Content(Headline(title, link))
  {
    var raw := title + " " + "";
    assert forall d | d in raw :: d in title || d == ' ';
    AbsentAfterLowering(raw, c, upper);
  }

  /** Lower-cased, the oil headline lacks e, p and f. */
  lemma OilContentLacks(link: string)
    ensures var content := Content(Headline(OilTitle, link));
      'e' !in content && 'p' !in content && 'f' !in content
  {
    AbsentFromHeadline(OilTitle, link, 'e', 'E');
    AbsentFromHeadline(OilTitle, link, 'p', 'P');
    AbsentFromHeadline(OilTitle, link, 'f', 'F');
  }

  /** No keyword occurs in "oil down": each keyword has one of e, p and f. */
  lemma OilHeadlineNotSelected(link: string)
    ensures !IsHighImpact(Headline(OilTitle, link))
  {
    var content := Content(Headline(OilTitle, link));
    OilContentLacks(link);
    forall k | 0 <= k < |Keywords|
      ensures !Contains(content, Keywords[k])
    {
      var c := if k in {1, 6, 7, 8} then 'p' else if k in {2, 5} then 'f' else 'e';
      AbsentCharRulesOut(content, Keywords[k], c);
    }
    MentionsAnyIff(content, Keywords);
  }

  // ------------------------------------------------------------ an interrupted scan

  /** Three central-bank headlines under distinct links. */
  const Feed: seq<NewsItem> := [Headline(FedTitle, "a"), Headline(FedTitle, "b"), Headline(FedTitle, "c")]

  /** A configured dashboard showing `Feed`, with no analysis yet. */
  const Ready: AppState := AppState(Feed, map[], Some(ApiKeyConfig("key", "")), En, None, false, 0.0)

  /** Every headline of `Feed` is selected, in order. */
  lemma FeedAllSelected()
    ensures SelectHighImpact(Feed) == Feed
  {
    FedHeadlineSelected("a");
    FedHeadlineSelected("b");
    FedHeadlineSelected("c");
    assert FilterFrom(Feed, IsHighImpact, 3) == [];
    assert FilterFrom(Feed, IsHighImpact, 2) == [Feed[2]];
    assert FilterFrom(Feed, IsHighImpact, 1) == [Feed[1], Feed[2]];
  }

  /**
   * The first call answers and the second fails: only the first headline's
   * analysis is stored, the third is never requested, the scan error is set,
   * and the progress goes 0, one third, 0.
   */
  lemma ScanBreaksOffAtSecond(oracle: Oracle, text: string)
    requires oracle(0, RequestFor(Ready, Feed[0])) == Answer(text)
    requires oracle(1, RequestFor(Ready, Feed[1])).ApiFailure?
    ensures var r := HandleScanAll(Ready, oracle);
      && r.state.analyses == map["a" := text]
      && r.requests == [RequestFor(Ready, Feed[0]), RequestFor(Ready, Feed[1])]
      && r.state.error == Some(ScanFailedMessage)
      && !r.state.isScanning
      && r.progress == [0.0, Percent(1, 3), 0.0]
  {
    FeedAllSelected();
    var m := map[Feed[0].link := text];
    var second := ScanLoop("key", En, Feed, oracle, 1, m);
    assert second == LoopEnd(m, [RequestFor(Ready, Feed[1])], [], true);
    var loop := ScanLoop("key", En, Feed, oracle, 0, map[]);
    assert loop == LoopEnd(m, [RequestFor(Ready, Feed[0])] + second.requests, [Percent(1, 3)] + second.progress, true);
  }
}

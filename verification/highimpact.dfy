/**
 * The high-impact filter of `handleScanAll`: an item is selected when its
 * lower-cased `title + " " + description` contains one of eleven keywords.
 * `Array.filter` keeps the selected items in feed order.
 */
module HighImpact {
  import opened Text
  import opened News

  /** The keywords, in the order the source tests them. */
  const Keywords: seq<string> := [
    "fed", "gdp", "inflation", "employment", "interest rate", "fomc",
    "cpi", "nfp", "pmi", "retail sales", "trade balance"]

  /** `${item.title} ${item.description}`.toLowerCase() */
  function Content(item: NewsItem): string {
    ToLower(item.title + " " + item.description)
  }

  /** The `||` chain of `content.includes(keyword)` tests, left to right. */
  function MentionsAny(content: string, keywords: seq<string>): bool
    decreases |keywords|
  {
    |keywords| > 0 && (Contains(content, keywords[0]) || MentionsAny(content, keywords[1..]))
  }

  /** The filter predicate. */
  predicate IsHighImpact(item: NewsItem) {
    MentionsAny(Content(item), Keywords)
  }

  /** The `||` chain holds exactly when some keyword of the list occurs in the content. */
  lemma {:induction false} MentionsAnyIff(content: string, keywords: seq<string>)
    ensures MentionsAny(content, keywords) <==> exists k | 0 <= k < |keywords| :: Contains(content, keywords[k])
    decreases |keywords|
  {
    if |keywords| > 0 {
      MentionsAnyIff(content, keywords[1..]);
      if exists k | 0 <= k < |keywords| :: Contains(content, keywords[k]) {
        var k :| 0 <= k < |keywords| && Contains(content, keywords[k]);
        if k > 0 {
          assert keywords[1..][k - 1] == keywords[k];
        }
      }
      if exists k | 0 <= k < |keywords[1..]| :: Contains(content, keywords[1..][k]) {
        var k :| 0 <= k < |keywords[1..]| && Contains(content, keywords[1..][k]);
        assert keywords[k + 1] == keywords[1..][k];
      }
    }
  }

  /** An item is high-impact exactly when its case-folded title and description mention one of the keywords. */
  lemma HighImpactIff(item: NewsItem)
    ensures IsHighImpact(item) <==>
      exists k | 0 <= k < |Keywords| :: Contains(ToLower(item.title + " " + item.description), Keywords[k])
  {
    MentionsAnyIff(Content(item), Keywords);
  }

  /** Selection ignores the case of A-Z in the title and the description. */
  lemma SelectionIgnoresCase(a: NewsItem, b: NewsItem)
    requires ToLower(a.title) == ToLower(b.title)
    requires ToLower(a.description) == ToLower(b.description)
    ensures IsHighImpact(a) == IsHighImpact(b)
  {
    ToLowerAppend(a.title, " " + a.description);
    ToLowerAppend(" ", a.description);
    ToLowerAppend(b.title, " " + b.description);
    ToLowerAppend(" ", b.description);
    assert a.title + " " + a.description == a.title + (" " + a.description);
    assert b.title + " " + b.description == b.title + (" " + b.description);
  }

  /** `items.filter(keep)` from index `i` on. */
  function FilterFrom(items: seq<NewsItem>, keep: NewsItem -> bool, i: nat): (r: seq<NewsItem>)
    requires i <= |items|
    decreases |items| - i
    ensures |r| <= |items| - i
  {
    if i == |items| then []
    else if keep(items[i]) then [items[i]] + FilterFrom(items, keep, i + 1)
    else FilterFrom(items, keep, i + 1)
  }

  /** `newsItems.filter(...)` with the keyword test: the high-impact items, in feed order. */
  function SelectHighImpact(items: seq<NewsItem>): seq<NewsItem> {
    FilterFrom(items, IsHighImpact, 0)
  }

  /**
   * `positions` lists, in strictly increasing order, exactly the indices
   * from `i` on whose items `keep` accepts, and `selected` holds the items at
   * those positions.
   */
  ghost predicate SelectsPositions(items: seq<NewsItem>, keep: NewsItem -> bool, i: nat, selected: seq<NewsItem>, positions: seq<nat>) {
    && |positions| == |selected|
    && (forall k | 0 <= k < |positions| :: i <= positions[k] < |items| && selected[k] == items[positions[k]])
    && (forall j, k | 0 <= j < k < |positions| :: positions[j] < positions[k])
    && (forall p | i <= p < |items| :: keep(items[p]) <==> p in positions)
  }

  /** Indices from `i` on whose items `keep` accepts. */
  function PositionsFrom(items: seq<NewsItem>, keep: NewsItem -> bool, i: nat): seq<nat>
    requires i <= |items|
    decreases |items| - i
  {
    if i == |items| then []
    else if keep(items[i]) then [i] + PositionsFrom(items, keep, i + 1)
    else PositionsFrom(items, keep, i + 1)
  }

  /** Accepting the item at `i` puts it, and its position, in front. */
  lemma PositionsCons(items: seq<NewsItem>, keep: NewsItem -> bool, i: nat, sel: seq<NewsItem>, ps: seq<nat>)
    requires i < |items| && keep(items[i])
    requires SelectsPositions(items, keep, i + 1, sel, ps)
    ensures SelectsPositions(items, keep, i, [items[i]] + sel, [i] + ps)
  {
    var ps' := [i] + ps;
    var sel' := [items[i]] + sel;
    assert forall k | 0 < k < |ps'| :: ps'[k] == ps[k - 1] && sel'[k] == sel[k - 1];
    assert forall p :: p in ps' <==> p == i || p in ps;
  }

  /** Rejecting the item at `i` leaves selection and positions as they are from `i + 1`. */
  lemma PositionsSkip(items: seq<NewsItem>, keep: NewsItem -> bool, i: nat, sel: seq<NewsItem>, ps: seq<nat>)
    requires i < |items| && !keep(items[i])
    requires SelectsPositions(items, keep, i + 1, sel, ps)
    ensures SelectsPositions(items, keep, i, sel, ps)
  {
    assert i !in ps;
  }

  /** The filter keeps exactly the accepted items, as an order-preserving subsequence. */
  lemma {:induction false} FilterFromPositions(items: seq<NewsItem>, keep: NewsItem -> bool, i: nat)
    requires i <= |items|
    ensures SelectsPositions(items, keep, i, FilterFrom(items, keep, i), PositionsFrom(items, keep, i))
    decreases |items| - i
  {
    if i < |items| {
      FilterFromPositions(items, keep, i + 1);
      if keep(items[i]) {
        PositionsCons(items, keep, i, FilterFrom(items, keep, i + 1), PositionsFrom(items, keep, i + 1));
      } else {
        PositionsSkip(items, keep, i, FilterFrom(items, keep, i + 1), PositionsFrom(items, keep, i + 1));
      }
    }
  }

  /** A filter holds an element exactly when the list holds it and `keep` accepts it. */
  lemma FilterMembers(items: seq<NewsItem>, keep: NewsItem -> bool)
    ensures forall x :: x in FilterFrom(items, keep, 0) <==> x in items && keep(x)
  {
    FilterFromPositions(items, keep, 0);
    var sel := FilterFrom(items, keep, 0);
    var ps := PositionsFrom(items, keep, 0);
    forall x
      ensures x in sel <==> x in items && keep(x)
    {
      if x in items && keep(x) {
        var p :| 0 <= p < |items| && items[p] == x;
        var k :| 0 <= k < |ps| && ps[k] == p;
        assert sel[k] == x;
      }
    }
  }

  /**
   * The selection is an order-preserving subsequence of the feed that holds
   * every high-impact item and nothing else.
   */
  lemma SelectionIsFilter(items: seq<NewsItem>)
    ensures SelectsPositions(items, IsHighImpact, 0, SelectHighImpact(items), PositionsFrom(items, IsHighImpact, 0))
    ensures forall x :: x in SelectHighImpact(items) <==> x in items && IsHighImpact(x)
  {
    FilterFromPositions(items, IsHighImpact, 0);
    FilterMembers(items, IsHighImpact);
  }

  /** A keyword with a character the content lacks does not occur in it. */
  lemma AbsentCharRulesOut(content: string, keyword: string, c: char)
    requires c in keyword && c !in content
    ensures !Contains(content, keyword)
  {
  }
}

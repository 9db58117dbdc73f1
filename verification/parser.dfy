/**
 * `parseNewsXML` after the XML library has run: each item of
 * `rss.channel[0]` becomes a `NewsItem`. Title, creator, category and
 * description lose the first `<![CDATA[` and then the first `]]>` (two
 * `String.replace` calls with string patterns); link and pubDate are copied.
 * A library error rejects the whole parse.
 */
module FeedParser {
  import opened Outcomes
  import opened Text
  import opened News

  /** The first text of each child element of one `item`, as the XML library delivers it. */
  datatype RawItem = RawItem(
    title: string,
    link: string,
    pubDate: string,
    creator: string,
    category: string,
    description: string)

  /** What the XML library passes to its callback: an error, or the raw items of the first channel. */
  datatype XmlResult = XmlError(message: string) | XmlItems(items: seq<RawItem>)

  /** The rejection of the parse promise. */
  datatype ParseError = ParseError(message: string)

  const CdataOpen: string := "<![CDATA["
  const CdataClose: string := "]]>"

  /**
   * Removes the first `<![CDATA[`, then the first `]]>` of what is left. A
   * field with neither marker is unchanged; otherwise it is exactly 9 and/or
   * 3 characters shorter.
   */
  function StripCdata(field: string): (r: string)
    ensures !Contains(field, CdataOpen) && !Contains(field, CdataClose) ==> r == field
    ensures |r| == |field|
      - (if Contains(field, CdataOpen) then |CdataOpen| else 0)
      - (if Contains(ReplaceFirst(field, CdataOpen, ""), CdataClose) then |CdataClose| else 0)
  {
    ReplaceFirst(ReplaceFirst(field, CdataOpen, ""), CdataClose, "")
  }

  /** The mapping of one raw item. */
  function ToNewsItem(raw: RawItem): (item: NewsItem)
    ensures item.link == raw.link && item.pubDate == raw.pubDate
  {
    NewsItem(
      StripCdata(raw.title),
      raw.link,
      raw.pubDate,
      StripCdata(raw.creator),
      StripCdata(raw.category),
      StripCdata(raw.description))
  }

  /**
   * `parseNewsXML`: a library error rejects with no items; otherwise the
   * items map one to one, in document order.
   */
  function ParseNewsXml(doc: XmlResult): (r: Result<seq<NewsItem>, ParseError>)
    ensures doc.XmlError? <==> r.Failure?
    ensures doc.XmlError? ==> r == Failure(ParseError(doc.message))
    ensures doc.XmlItems? ==> |r.value| == |doc.items|
    ensures doc.XmlItems? ==> forall i | 0 <= i < |doc.items| ::
      r.value[i].link == doc.items[i].link && r.value[i].pubDate == doc.items[i].pubDate
  {
    match doc
    case XmlError(message) => Failure(ParseError(message))
    case XmlItems(raws) => Success(seq(|raws|, i requires 0 <= i < |raws| => ToNewsItem(raws[i])))
  }

  /** `x` between literal `<![CDATA[` and `]]>` markers. */
  function Wrap(x: string): string {
    CdataOpen + x + CdataClose
  }

  /** In `x + "]]>" + rest`, the first `]]>` is the one after `x` when `x` has none. */
  lemma FirstCloseAfter(x: string, rest: string)
    requires !Contains(x, CdataClose)
    ensures IsFirstOccurrence(x + CdataClose + rest, CdataClose, |x|)
  {
    var s := x + CdataClose + rest;
    assert s[|x|..|x| + 3] == CdataClose;
    forall j: nat | j < |x|
      ensures !OccursAt(s, CdataClose, j)
    {
      if j + 3 <= |x| {
        assert s[j..j + 3] == x[j..j + 3];
        assert !OccursAt(x, CdataClose, j);
      } else {
        assert s[j + 2] == ']';
      }
    }
  }

  /** The first `<![CDATA[` of a field that starts with a section is the section's own. */
  lemma OpenMarkerRemoved(x: string, rest: string)
    ensures ReplaceFirst(Wrap(x) + rest, CdataOpen, "") == x + CdataClose + rest
  {
    var s := Wrap(x) + rest;
    assert s == CdataOpen + (x + CdataClose + rest);
    assert IsFirstOccurrence(s, CdataOpen, 0) by { assert s[..9] == CdataOpen; }
    ReplaceAt(s, CdataOpen, "", 0);
  }

  /** The first `]]>` after a text without one is the one that closes it. */
  lemma CloseMarkerRemoved(x: string, rest: string)
    requires !Contains(x, CdataClose)
    ensures ReplaceFirst(x + CdataClose + rest, CdataClose, "") == x + rest
  {
    var mid := x + CdataClose + rest;
    FirstCloseAfter(x, rest);
    ReplaceAt(mid, CdataClose, "", |x|);
    assert mid[..|x|] == x;
    assert mid[|x| + 3..] == rest;
  }

  /**
   * A raw field that starts with literal CDATA markers around `x` loses
   * exactly those markers; anything after them, later markers included,
   * survives. `x` must hold no `]]>`, or its own `]]>` would be the first one
   * removed.
   */
  lemma StripLeadingSection(x: string, rest: string)
    requires !Contains(x, CdataClose)
    ensures StripCdata(Wrap(x) + rest) == x + rest
  {
    OpenMarkerRemoved(x, rest);
    CloseMarkerRemoved(x, rest);
  }

  /** Stripping undoes wrapping a text that contains no `]]>`. */
  lemma StripWrap(x: string)
    requires !Contains(x, CdataClose)
    ensures StripCdata(Wrap(x)) == x
  {
    StripLeadingSection(x, "");
    assert Wrap(x) + "" == Wrap(x);
    assert x + "" == x;
  }

  /** Only the first section is unwrapped: a second section keeps its markers. */
  lemma SecondSectionSurvives(x: string, y: string)
    requires !Contains(x, CdataClose)
    ensures StripCdata(Wrap(x) + Wrap(y)) == x + Wrap(y)
  {
    StripLeadingSection(x, Wrap(y));
  }

  /** The raw form of an item whose text fields arrive CDATA-wrapped, markers included. */
  function ToRaw(item: NewsItem): RawItem {
    RawItem(Wrap(item.title), item.link, item.pubDate, Wrap(item.creator), Wrap(item.category), Wrap(item.description))
  }

  /** The raw items of a feed listing `items` in order. */
  function FeedOf(items: seq<NewsItem>): (raws: seq<RawItem>)
    ensures |raws| == |items| && forall i | 0 <= i < |items| :: raws[i] == ToRaw(items[i])
  {
    seq(|items|, i requires 0 <= i < |items| => ToRaw(items[i]))
  }

  /** None of the four text fields contains `]]>`, so wrapping each can be undone. */
  predicate Wrappable(item: NewsItem) {
    && !Contains(item.title, CdataClose)
    && !Contains(item.creator, CdataClose)
    && !Contains(item.category, CdataClose)
    && !Contains(item.description, CdataClose)
  }

  /** Round trip: raw items whose text fields arrive CDATA-wrapped parse back to those items. */
  lemma ParseRoundTrip(items: seq<NewsItem>)
    requires forall i | 0 <= i < |items| :: Wrappable(items[i])
    ensures ParseNewsXml(XmlItems(FeedOf(items))) == Success(items)
  {
    var r := ParseNewsXml(XmlItems(FeedOf(items)));
    forall i | 0 <= i < |items|
      ensures r.value[i] == items[i]
    {
      StripWrap(items[i].title);
      StripWrap(items[i].creator);
      StripWrap(items[i].category);
      StripWrap(items[i].description);
    }
    assert r.value == items;
  }
}

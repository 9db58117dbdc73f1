/**
 * Prompt construction: `getPromptByLanguage` renders one of two fixed
 * templates around the item's title and description and the extracted
 * numbers and comparisons, each list joined with ", ".
 */
module Prompt {
  import opened Text
  import opened News
  import opened GlobalMatch
  import opened Extraction

  /** A template: fixed text around the four interpolated values. */
  datatype Template = Template(
    intro: string,
    afterTitle: string,
    afterDescription: string,
    afterNumbers: string,
    outro: string)

  /** The first word of each template, which tells the two apart. */
  const EnglishOpening: string := "Analyze "
  const FrenchOpening: string := "Analysez"

  const EnglishIntro: string := EnglishOpening + "this financial news with the following details:\n\nTitle: "
  const FrenchIntro: string := FrenchOpening + " cette actualité financière avec les détails suivants:\n\nTitre: "

  const English: Template := Template(
    EnglishIntro,
    "\n\nKey Data Points:\n",
    "\n\nConsider:\n1. Numerical Changes: ",
    "\n2. Comparisons to Estimates: ",
    "\n\nProvide a concise trading analysis focusing on:\n"
    + "1. Market Impact: What's the immediate effect on relevant markets?\n"
    + "2. Trading Direction: Clear buy/sell bias based on the data\n"
    + "3. Key Reasoning: Most important data point supporting this view\n"
    + "4. Timeframe: Immediate (hours), Short (days), or Medium (weeks)\n\n"
    + "Keep it brief and actionable.")

  const French: Template := Template(
    FrenchIntro,
    "\n\nPoints clés:\n",
    "\n\nConsidérez:\n1. Changements numériques: ",
    "\n2. Comparaisons avec les estimations: ",
    "\n\nFournissez une analyse de trading concise en vous concentrant sur:\n"
    + "1. Impact sur le marché: Quel est l'effet immédiat sur les marchés concernés?\n"
    + "2. Direction du trading: Biais clair d'achat/vente basé sur les données\n"
    + "3. Raisonnement clé: Point de données le plus important soutenant cette vue\n"
    + "4. Horizon temporel: Immédiat (heures), Court (jours) ou Moyen (semaines)\n\n"
    + "Gardez l'analyse brève et exploitable.")

  /** `lang === 'fr'` selects the French template; every other language the English one. */
  function TemplateFor(lang: Language): Template {
    if lang == Fr then French else English
  }

  /** Interpolates the four values into a template. */
  function Render(t: Template, title: string, description: string, numbers: string, comparisons: string): string {
    t.intro + title + t.afterTitle + description + t.afterDescription
      + numbers + t.afterNumbers + comparisons + t.outro
  }

  /** `s[k..k + |w|] == w`, so `s` contains `w`. */
  lemma ContainsAt(s: string, w: string, k: nat)
    requires k + |w| <= |s| && s[k..k + |w|] == w
    ensures Contains(s, w)
  {
    assert OccursAt(s, w, k);
  }

  /** A rendered template holds each interpolated value verbatim, between its heading and its closing text. */
  lemma RenderEmbeds(t: Template, title: string, description: string, numbers: string, comparisons: string)
    ensures var r := Render(t, title, description, numbers, comparisons);
      && |t.intro| <= |r| && r[..|t.intro|] == t.intro
      && |t.outro| <= |r| && r[|r| - |t.outro|..] == t.outro
      && Contains(r, title) && Contains(r, description)
      && Contains(r, numbers) && Contains(r, comparisons)
  {
    var r := Render(t, title, description, numbers, comparisons);
    var k1 := |t.intro|;
    var k2 := k1 + |title| + |t.afterTitle|;
    var k3 := k2 + |description| + |t.afterDescription|;
    var k4 := k3 + |numbers| + |t.afterNumbers|;
    assert r[k1..k1 + |title|] == title;
    assert r[k2..k2 + |description|] == description;
    assert r[k3..k3 + |numbers|] == numbers;
    assert r[k4..k4 + |comparisons|] == comparisons;
    ContainsAt(r, title, k1);
    ContainsAt(r, description, k2);
    ContainsAt(r, numbers, k3);
    ContainsAt(r, comparisons, k4);
  }

  /** `getPromptByLanguage`: the chosen template rendered around the item and the two joined lists. */
  function PromptFor(lang: Language, item: NewsItem, numbers: seq<string>, comparisons: seq<string>): string {
    Render(TemplateFor(lang), item.title, item.description, Join(numbers), Join(comparisons))
  }

  /**
   * The prompt opens with the chosen template's heading, closes with its
   * instructions, and contains the title, the description and both joined
   * lists verbatim.
   */
  lemma PromptEmbeds(lang: Language, item: NewsItem, numbers: seq<string>, comparisons: seq<string>)
    ensures var r := PromptFor(lang, item, numbers, comparisons);
      var t := TemplateFor(lang);
      && |t.intro| <= |r| && r[..|t.intro|] == t.intro
      && |t.outro| <= |r| && r[|r| - |t.outro|..] == t.outro
      && Contains(r, item.title) && Contains(r, item.description)
      && Contains(r, Join(numbers)) && Contains(r, Join(comparisons))
  {
    RenderEmbeds(TemplateFor(lang), item.title, item.description, Join(numbers), Join(comparisons));
  }

  /** `analyzeNewsItem` up to the network call: extract both lists from the description, then render. */
  function BuildPrompt(lang: Language, item: NewsItem): string {
    PromptFor(lang, item, Numbers(item.description), Comparisons(item.description))
  }

  /** Reads the language back from a rendered prompt by its heading. */
  function LanguageOf(prompt: string): Language {
    if |FrenchOpening| <= |prompt| && prompt[..|FrenchOpening|] == FrenchOpening then Fr else En
  }

  /** A rendered template begins with any prefix of the template's heading. */
  lemma RenderOpening(t: Template, title: string, description: string, numbers: string, comparisons: string, o: string)
    requires |o| <= |t.intro| && t.intro[..|o|] == o
    ensures var r := Render(t, title, description, numbers, comparisons);
      |o| <= |r| && r[..|o|] == o
  {
  }

  /** Each template's heading starts with its own opening word. */
  lemma TemplateOpenings()
    ensures |EnglishOpening| == |FrenchOpening| == 8
    ensures English.intro[..8] == EnglishOpening && French.intro[..8] == FrenchOpening
    ensures EnglishOpening != FrenchOpening
  {
    assert EnglishOpening[5] != FrenchOpening[5];
  }

  /** Round trip: the prompt's heading identifies the language that selected its template. */
  lemma LanguageOfPrompt(lang: Language, item: NewsItem, numbers: seq<string>, comparisons: seq<string>)
    ensures LanguageOf(PromptFor(lang, item, numbers, comparisons)) == lang
  {
    TemplateOpenings();
    var t := TemplateFor(lang);
    var o := if lang == Fr then FrenchOpening else EnglishOpening;
    RenderOpening(t, item.title, item.description, Join(numbers), Join(comparisons), o);
  }

  /** A number token consists of digits and dots only. */
  lemma NumberTokenChars(t: string)
    requires IsNumberToken(t)
    ensures forall i | 0 <= i < |t| :: IsDigit(t[i]) || t[i] == '.'
  {
    if !(|t| > 0 && All(t, IsDigit)) {
      var k :| 0 < k < |t| - 1 && t[k] == '.' && All(t[..k], IsDigit) && All(t[k + 1..], IsDigit);
      assert forall i | 0 <= i < k :: t[..k][i] == t[i];
      assert forall i | k < i < |t| :: t[k + 1..][i - k - 1] == t[i];
    }
  }

  /** A string none of whose characters is a comma does not contain ",". */
  lemma NoCommaChar(t: string)
    requires forall i | 0 <= i < |t| :: t[i] != ','
    ensures !Contains(t, ",")
  {
    forall i: nat | i <= |t|
      ensures !OccursAt(t, ",", i)
    {
      if i < |t| {
        assert t[i..i + 1][0] == t[i];
      }
    }
  }

  /** No number token contains a comma. */
  lemma NumberTokenCommaFree(t: string)
    requires IsNumberToken(t)
    ensures |t| > 0 && !Contains(t, ",")
  {
    NumberTokenStartsWithDigit(t);
    NumberTokenChars(t);
    NoCommaChar(t);
  }

  /** A comparison keyword has no comma. */
  lemma KeywordCommaFree(w: string, i: nat)
    requires IsComparisonKeyword(w) && i < |w|
    ensures w[i] != ','
  {
    if w == "vs" {
      assert w[i] in "vs";
    } else {
      assert w[i] in "versus";
    }
  }

  /** No comparison token contains a comma. */
  lemma ComparisonTokenCommaFree(t: string)
    requires IsComparisonToken(t)
    ensures |t| > 0 && !Contains(t, ",")
  {
    var a, b :| 0 < a < b < |t| && IsComparisonKeyword(t[..a]) && All(t[a..b], IsJsSpace) && All(t[b..], IsRangeChar);
    forall i | 0 <= i < |t|
      ensures t[i] != ','
    {
      if i < a {
        KeywordCommaFree(t[..a], i);
        assert t[..a][i] == t[i];
      } else if i < b {
        assert t[a..b][i - a] == t[i];
      } else {
        assert t[b..][i - b] == t[i];
      }
    }
    NoCommaChar(t);
  }

  /**
   * The lists embedded in a prompt are unambiguous: splitting the joined
   * text at its commas gives back exactly the extracted numbers and
   * comparisons, in order.
   */
  lemma EmbeddedListsRecoverable(description: string)
    ensures Split(Join(Numbers(description))) == Numbers(description)
    ensures Split(Join(Comparisons(description))) == Comparisons(description)
  {
    NumbersAreGlobalMatch(description);
    ComparisonsAreGlobalMatch(description);
    var ns := Numbers(description);
    var cs := Comparisons(description);
    forall i | 0 <= i < |ns|
      ensures |ns[i]| > 0 && !Contains(ns[i], ",")
    {
      NumberTokenCommaFree(ns[i]);
    }
    forall i | 0 <= i < |cs|
      ensures |cs[i]| > 0 && !Contains(cs[i], ",")
    {
      ComparisonTokenCommaFree(cs[i]);
    }
    SplitJoin(ns);
    SplitJoin(cs);
  }

  /**
   * The extraction does not look at the language: the English and the
   * French prompt for an item embed the same joined lists.
   */
  lemma BothLanguagesEmbedSameLists(item: NewsItem)
    ensures var numbers := Join(Numbers(item.description));
      Contains(BuildPrompt(En, item), numbers) && Contains(BuildPrompt(Fr, item), numbers)
    ensures var comparisons := Join(Comparisons(item.description));
      Contains(BuildPrompt(En, item), comparisons) && Contains(BuildPrompt(Fr, item), comparisons)
  {
    PromptEmbeds(En, item, Numbers(item.description), Comparisons(item.description));
    PromptEmbeds(Fr, item, Numbers(item.description), Comparisons(item.description));
  }
}

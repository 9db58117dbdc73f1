# analyse-forex: a Dafny model of the dashboard's analysis core

The dashboard reads a forex news feed, selects the high-impact headlines and
asks a completion service for a short trading analysis of each one. This
project models the three pure pieces of that program and proves what they
promise:

- **Extraction and prompt** (`src/utils/openai.ts`). Two global regular
  expression scans run over an item's description:
  - `/\d+(\.\d+)?/g` collects the numbers;
  - `/(?:vs|versus)\s+[-\d.]+/g` collects the comparisons.

  `getPromptByLanguage` then renders one of two templates, French or
  English, around the title, the description and the two lists, each joined
  with `", "`.
- **Dashboard actions** (`src/App.tsx`):
  - the high-impact keyword filter;
  - `handleAnalyze`, which analyses one item and stores the text under the
    item's link;
  - `handleScanAll`, which analyses every selected item in order. It records
    progress after each answer, stops at the first failure and always ends
    with scanning off and progress 0.
- **Feed mapping** (`src/utils/parser.ts`). Each raw item becomes a
  `NewsItem`. The four text fields lose the first `<![CDATA[` and then the
  first `]]>`. A library error rejects the whole parse.

The modules are:

| file | module | what it holds |
|---|---|---|
| `outcomes.dfy` | `Outcomes` | `Option` and `Result` |
| `news.dfy` | `News` | `NewsItem`, `Language`, `ApiKeyConfig` |
| `text.dfy` | `Text` | occurrence search (`indexOf`/`includes`), first-occurrence `replace`, ASCII lower-casing, `join(", ")` and its inverse |
| `globalmatch.dfy` | `GlobalMatch` | `String.prototype.match` with a global expression |
| `extraction.dfy` | `Extraction` | the number and comparison expressions |
| `prompt.dfy` | `Prompt` | the templates and their rendering |
| `highimpact.dfy` | `HighImpact` | the keyword filter |
| `parser.dfy` | `FeedParser` | the item mapping of `parseNewsXML` |
| `dashboard.dfy` | `Dashboard` | `handleAnalyze` and `handleScanAll` |
| `scenarios.dfy` | `Scenarios` | worked cases on concrete inputs |

In `GlobalMatch`, a regular expression appears twice:
- as a declarative token predicate, which says which strings it matches;
- as a matcher, which computes where the greedy match at a position ends.

`Sound` ties the two together. The search loop `ScanFrom` is proved to
produce the only span list that is ordered, non-overlapping and
longest-at-each-start, and that covers every position where the expression
matches.

The completion service is an oracle `(call index, request) -> Answer(text) |
ApiFailure`, so every sequence of answers and failures can be expressed. Each
`setX` call of the component is a sequential state update. The values given to
`setProgress` are returned as a trail.

Three behaviours of the two expressions are worth knowing:
- The comparison expression has no `i` flag. Matching is case-sensitive,
  so `VS 3` and `Versus 3` are not matched.
- After the white space, the comparison expression takes any run of `-`,
  digits and `.` (`vs -.`, for instance). It does not require a signed
  decimal number.
- A number with a fraction can be directly followed by `.` and a digit.
  `1.2.3` yields `1.2` and `3`; `Scenarios.TripleNumbers` proves this. The
  maximality that does hold is in `Extraction.NumbersMaximal`:
  - no number is followed by a digit;
  - a number without a dot is not followed by `.` and a digit.

## Model

| member | source | states |
|---|---|---|
| Text.ReplaceFirst | src/utils/parser.ts:13 | `replace` with a string pattern and a `$`-free replacement (the source passes `''`) splices the replacement in at the leftmost occurrence only; without an occurrence the string is unchanged; the length changes by the replacement's length minus the pattern's exactly when the pattern occurs |
| Text.ReplaceFirstUndo | src/utils/parser.ts:13 | putting the pattern back where the first occurrence was replaced restores the original string |
| Text.SplitJoin | src/utils/openai.ts:14-15 | splitting a `join(', ')` of non-empty, comma-free items at its commas gives the items back, in order |
| GlobalMatch.ScanFromCorrect | src/utils/openai.ts:50-51 | the global `match` loop yields spans that are ordered, non-overlapping and each the longest token at its start, and every position where the expression matches lies inside one of them |
| GlobalMatch.ScanFromUnique | src/utils/openai.ts:50-51 | any span list with those properties is the one the loop computes |
| GlobalMatch.MatchAllEmpty | src/utils/openai.ts:50-51 | `match(...) \|\| []` is empty exactly when the expression matches at no position |
| GlobalMatch.MatchAllTokens | src/utils/openai.ts:50-51 | every matched substring is a token, and is the longest token at its start |
| Extraction.NumberMatchSound | src/utils/openai.ts:50 | the greedy matcher finds a match exactly where a `\d+(\.\d+)?` token starts, and its match is the longest such token |
| Extraction.NumbersAreGlobalMatch | src/utils/openai.ts:50 | every extracted number is digits, optionally `.` and digits; the numbers are the ordered, non-overlapping longest matches; every digit of the description lies inside one of them |
| Extraction.NumbersMaximal | src/utils/openai.ts:50 | no number is directly followed by a digit, and a number without a dot is not followed by `.` and a digit |
| Extraction.NumbersEmptyIffNoDigit | src/utils/openai.ts:50 | the number list is empty exactly when the description has no ASCII digit |
| Extraction.ComparisonMatchSound | src/utils/openai.ts:51 | the greedy matcher finds a match exactly where a `(?:vs\|versus)\s+[-\d.]+` token starts, and its match is the longest such token |
| Extraction.ComparisonsAreGlobalMatch | src/utils/openai.ts:51 | every comparison is `vs` or `versus` (case-sensitive), at least one JavaScript white-space character, then at least one of `-`, digit or `.`; the comparisons are the ordered, non-overlapping longest matches |
| Extraction.ComparisonsEmptyIffNoMatch | src/utils/openai.ts:51 | the comparison list is empty exactly when the expression matches at no position |
| Prompt.PromptEmbeds | src/utils/openai.ts:4-44 | the prompt opens with the chosen template's heading and ends with its instructions, and it contains the title, the description and both joined lists verbatim |
| Prompt.LanguageOfPrompt | src/utils/openai.ts:5-26 | reading the heading back gives the language: `fr` selects the French template and any other language the English one |
| Prompt.NumberTokenCommaFree | src/utils/openai.ts:50 | an extracted number is non-empty and has no comma |
| Prompt.ComparisonTokenCommaFree | src/utils/openai.ts:51 | an extracted comparison is non-empty and has no comma |
| Prompt.EmbeddedListsRecoverable | src/utils/openai.ts:14-15 | splitting the joined list in the prompt at its commas gives back exactly the extracted numbers and comparisons |
| Prompt.BothLanguagesEmbedSameLists | src/utils/openai.ts:50-53 | the English and the French prompt of an item embed the same joined lists |
| HighImpact.MentionsAnyIff | src/App.tsx:90-100 | the `\|\|` chain of `includes` tests holds exactly when some keyword of the list occurs in the content |
| HighImpact.HighImpactIff | src/App.tsx:88-101 | an item is selected exactly when the lower-cased `title + " " + description` contains one of the eleven keywords |
| HighImpact.SelectionIgnoresCase | src/App.tsx:89 | two items whose titles and descriptions agree up to the case of A-Z are both selected or both not |
| HighImpact.FilterFromPositions | src/App.tsx:88 | `filter` returns the accepted items at strictly increasing positions, and exactly the accepted positions |
| HighImpact.FilterMembers | src/App.tsx:88 | an element is in the filtered list exactly when it is in the list and accepted |
| HighImpact.SelectionIsFilter | src/App.tsx:88-101 | the selection is an order-preserving subsequence of the feed that holds every high-impact item and nothing else |
| FeedParser.StripCdata | src/utils/parser.ts:13 | a field with neither marker is unchanged; otherwise it is 9 characters shorter when `<![CDATA[` occurs, plus 3 when `]]>` occurs in what is left |
| FeedParser.ToNewsItem | src/utils/parser.ts:14-15 | `link` and `pubDate` are copied unchanged |
| FeedParser.ParseNewsXml | src/utils/parser.ts:6-21 | a library error rejects with that error and no items; otherwise the items map one to one, in order, with link and date copied |
| FeedParser.StripLeadingSection | src/utils/parser.ts:13 | a raw field that starts with literal `<![CDATA[`…`]]>` markers around a `]]>`-free text loses exactly those two markers, and everything after them survives |
| FeedParser.StripWrap | src/utils/parser.ts:13 | stripping undoes wrapping a text without `]]>` in literal CDATA markers |
| FeedParser.SecondSectionSurvives | src/utils/parser.ts:13 | only the first pair of markers is removed; a second wrapped text keeps its markers |
| FeedParser.ParseRoundTrip | src/utils/parser.ts:12-19 | items whose raw text fields arrive CDATA-wrapped (with literal `<![CDATA[` and `]]>` markers) parse back to exactly those items |
| Dashboard.HandleAnalyze | src/App.tsx:56-75 | without a key: the missing-key error, no call and nothing else changed; with a key: one call; an answer is stored under the item's link, a failure sets the analysis error; no other entry or field changes |
| Dashboard.AnalyzeAgainOverwrites | src/App.tsx:68-71 | analysing the same item again, after switching the language, replaces its analysis with the new answer; results are keyed by link only |
| Dashboard.AnalyzeKeepsKeysLinks | src/App.tsx:68-71 | analysing an item of the feed keeps every key of the analyses a link of the feed |
| Dashboard.HandleScanAll | src/App.tsx:77-128 | without a key: the missing-key error, no call and a state otherwise unchanged; with no selected item: the notice, no call, analyses unchanged and the progress trail 0, 0; in every case with a key, scanning ends off with progress 0; at most one call per selected item; feed, key and language unchanged |
| Dashboard.ScanSelected | src/App.tsx:103-127 | the scan of a selection ends with scanning off and progress 0, sends at most one request per selected item, and handles the empty selection with the notice |
| Dashboard.ScanLoopRequestAt | src/App.tsx:109-123 | the loop's `j`-th request is the one for selected item `i + j`; every completed request was answered, and the request the loop failed on was rejected |
| Dashboard.ScanLoopProgress | src/App.tsx:120 | the loop's `j`-th progress value is `(i + j + 1) / n * 100` |
| Dashboard.ScanLoopKeepsOthers | src/App.tsx:116-119 | a link that no item completed by the loop carries keeps its entry, or its absence |
| Dashboard.ScanLoopStoresAnswer | src/App.tsx:116-119 | the link of a completed item that no later completed item repeats holds that item's answer |
| Dashboard.ScanCalls | src/App.tsx:109-115 | the scan sends one request per selected item, in selection order, and every request but the last was answered |
| Dashboard.ScanOutcome | src/App.tsx:109-123 | the error is cleared exactly when every item was requested and the last request answered; otherwise it is the scan-failure message and the last request was rejected |
| Dashboard.ScanKeepsOthers | src/App.tsx:116-119 | after a scan, links that no completed item carries keep their entries, so results stored before a failure stay |
| Dashboard.ScanStoresAnswer | src/App.tsx:116-119 | after a scan, a completed item's link holds its answer unless a later completed item has the same link |
| Dashboard.ScanProgressAt | src/App.tsx:85-126 | the trail starts and ends with 0, has at most `n + 2` values, and its `j`-th value in between is `j / n * 100` |
| Dashboard.ScanProgress | src/App.tsx:120 | the progress values between the two zeros are `j / n * 100`, lie in `(0, 100]` and strictly increase |
| Dashboard.ScanProgressComplete | src/App.tsx:120 | when every item completed, the last value before the reset is 100 |
| Dashboard.PercentBounds | src/App.tsx:120 | `(i + 1) / n * 100` lies in `(0, 100]` for `i < n` |
| Dashboard.PercentIncreasing | src/App.tsx:120 | the progress after one more item is strictly larger |
| Dashboard.ScanLoopStopsAt | src/App.tsx:109-123 | with answers before item `f` and a failure at `f`, the loop sends `f - i + 1` requests and fails |
| Dashboard.ScanStopsAtFirstFailure | src/App.tsx:109-123 | with answers for the first `f` items and a failure at item `f`, exactly `f + 1` requests are sent and the scan-failure error is set, so no later item is analysed |
| Dashboard.ScanLoopKeys | src/App.tsx:116-119 | the loop adds only keys that are links of the items it visits |
| Dashboard.ScanKeys | src/App.tsx:116-119 | a scan adds only keys that are links of selected items |
| Dashboard.ScanAllKeepsKeysLinks | src/App.tsx:88-119 | a scan keeps every key of the analyses a link of the feed |
| Scenarios.ReleaseNumbers | src/utils/openai.ts:50 | `3.96M vs 3.93M` yields the numbers `3.96` and `3.93`, with decimals and without the unit |
| Scenarios.TripleNumbers | src/utils/openai.ts:50 | `1.2.3` yields `1.2` and `3`, and the first is followed by `.` and a digit |
| Scenarios.ReleaseComparisons | src/utils/openai.ts:51 | `3.96M vs 3.93M` yields the single comparison `vs 3.93` |
| Scenarios.FedHeadlineSelected | src/App.tsx:89-90 | a headline with a capitalised `Fed` is selected |
| Scenarios.OilHeadlineNotSelected | src/App.tsx:88-101 | `Oil down` mentions no keyword and is not selected |
| Scenarios.FeedAllSelected | src/App.tsx:88-101 | a feed of three central-bank headlines is selected whole, in order |
| Scenarios.ScanBreaksOffAtSecond | src/App.tsx:109-127 | when the second of three calls fails: only the first analysis is stored, the third item is never requested, the scan error is set, and the progress goes 0, one third, 0 |

## Left out

- The call to the completion service (`src/utils/openai.ts:46-67`) is not modelled: model name, temperature, token limit, the response's shape and its logging. It is the oracle. A `null` message content is folded into the answer text.
- The XML parse of `xml2js` is not modelled. Its result is taken as either an error or the list of raw items of `rss.channel[0]`. Missing elements, which would throw in the mapping lambda, are not modelled.
- React plumbing is not modelled: `useState`, `useEffect`, `async`/`await` interleavings and the rendering. `setX` calls are sequential updates, and a functional `setAnalyses(prev => …)` reads the state as the action left it.
- `loadDemo`, `handleSaveApiKey` and the UI components are not modelled. They are glue: a fixed document, a timestamp and forms.
- Progress is a Dafny `real`, an exact rational, not an IEEE double. The trail's ordering and bounds do not depend on rounding.
- Text.ReplaceFirst: replacement `$` patterns (`$&`, `$$`, `` $` ``, `$'`) are not expanded; the replacement is spliced in literally, which agrees with JavaScript for the empty replacement the parser passes.
- Strings are sequences of Dafny `char`, not UTF-16 code units. `ToLower` folds only A-Z, because JavaScript's full Unicode case mapping is not modelled. All eleven keywords are lower-case ASCII.
- A `Language` outside `en`/`fr` cannot occur: the type has two values, and `LanguageOfPrompt` covers both.

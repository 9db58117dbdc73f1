/**
 * The two analysis actions of the dashboard component, `handleAnalyze` and
 * `handleScanAll`, as functions from the component state to the next state.
 * `analyzeNewsItem` is an oracle: it receives the call's position in the
 * action and the call's arguments (key, item, language), and answers with a
 * text or fails. Every `setX` call is a sequential state update; the
 * successive values given to `setProgress` are returned as a trail.
 */
module Dashboard {
  import opened Outcomes
  import opened News
  import opened HighImpact

  const MissingKeyMessage: string := "Please configure your OpenAI API key first"
  const AnalyzeFailedMessage: string := "Failed to analyze news item. Please check your API key."
  const NoHighImpactMessage: string := "No high-impact news found in the current feed."
  const ScanFailedMessage: string := "Failed to scan news items. Please check your API key."

  /** The arguments of one `analyzeNewsItem` call. */
  datatype Request = Request(key: string, item: NewsItem, language: Language)

  /** The service's answer text, or a rejected call. */
  datatype Reply = Answer(text: string) | ApiFailure

  /** `analyzeNewsItem`: the call's index within the action and its arguments determine the reply. */
  type Oracle = (nat, Request) -> Reply

  /** The component's state; `analyses` maps an item's link to its analysis text. */
  datatype AppState = AppState(
    newsItems: seq<NewsItem>,
    analyses: map<string, string>,
    apiConfig: Option<ApiKeyConfig>,
    language: Language,
    error: Option<string>,
    isScanning: bool,
    progress: real)

  /** `apiConfig?.key` is truthy: a configuration with a non-empty key. */
  predicate HasKey(st: AppState) {
    st.apiConfig.Some? && st.apiConfig.value.key != ""
  }

  /** The `analyzeNewsItem` call for `item` with the configured key and language. */
  function RequestFor(st: AppState, item: NewsItem): Request
    requires HasKey(st)
  {
    Request(st.apiConfig.value.key, item, st.language)
  }

  /** `m` and `m'` agree on key `k`: both lack it, or both map it to the same text. */
  predicate SameAt(m: map<string, string>, m': map<string, string>, k: string) {
    (k in m <==> k in m') && (k in m ==> m[k] == m'[k])
  }

  /** The next state of an action and the requests it sent, in order. */
  datatype Step = Step(state: AppState, requests: seq<Request>)

  /**
   * `handleAnalyze`: without a key, set the missing-key error and send
   * nothing. Otherwise send one request; an answer is stored under the
   * item's link, a failure sets the analysis error. No other entry of
   * `analyses` changes and no other field is touched.
   */
  function HandleAnalyze(st: AppState, item: NewsItem, oracle: Oracle): (r: Step)
    ensures !HasKey(st) ==> r == Step(st.(error := Some(MissingKeyMessage)), [])
    ensures HasKey(st) ==> r.requests == [RequestFor(st, item)]
    ensures HasKey(st) && oracle(0, RequestFor(st, item)).Answer? ==>
      && item.link in r.state.analyses
      && r.state.analyses[item.link] == oracle(0, RequestFor(st, item)).text
      && r.state.error == st.error
    ensures HasKey(st) && oracle(0, RequestFor(st, item)).ApiFailure? ==>
      r.state == st.(error := Some(AnalyzeFailedMessage))
    ensures forall k | k != item.link :: SameAt(st.analyses, r.state.analyses, k)
    ensures r.state.(analyses := st.analyses, error := st.error) == st
  {
    if !HasKey(st) then
      Step(st.(error := Some(MissingKeyMessage)), [])
    else
      var request := RequestFor(st, item);
      match oracle(0, request)
      case Answer(text) => Step(st.(analyses := st.analyses[item.link := text]), [request])
      case ApiFailure => Step(st.(error := Some(AnalyzeFailedMessage)), [request])
  }

  /** `((i + 1) / n) * 100`: the progress after the `done`-th of `total` analyses. */
  function Percent(done: nat, total: nat): real
    requires total > 0
  {
    (done as real / total as real) * 100.0
  }

  /** How the scan loop ended: the analyses, the requests sent, the progress values set, and whether a call failed. */
  datatype LoopEnd = LoopEnd(analyses: map<string, string>, requests: seq<Request>, progress: seq<real>, failed: bool)

  /** Number of items whose analysis completed. */
  function Completed(r: LoopEnd): nat {
    if r.failed && |r.requests| > 0 then |r.requests| - 1 else |r.requests|
  }

  /** The request the scan sends for the `j`-th selected item. */
  function ScanRequest(key: string, lang: Language, selected: seq<NewsItem>, j: nat): Request
    requires j < |selected|
  {
    Request(key, selected[j], lang)
  }

  /**
   * The `for` loop of `handleScanAll` from index `i`: one request per item,
   * in selection order; an answer is stored under the item's link and the
   * progress is set; the first failure ends the loop, keeping what was stored.
   */
  function ScanLoop(key: string, lang: Language, selected: seq<NewsItem>, oracle: Oracle, i: nat, analyses: map<string, string>): (r: LoopEnd)
    requires i <= |selected|
    decreases |selected| - i
    ensures |r.requests| <= |selected| - i
    ensures r.failed ==> |r.requests| > 0
    ensures !r.failed ==> |r.requests| == |selected| - i
    ensures |r.progress| == Completed(r)
  {
    if i == |selected| then LoopEnd(analyses, [], [], false)
    else
      var request := ScanRequest(key, lang, selected, i);
      match oracle(i, request)
      case ApiFailure => LoopEnd(analyses, [request], [], true)
      case Answer(text) =>
        var rest := ScanLoop(key, lang, selected, oracle, i + 1, analyses[selected[i].link := text]);
        LoopEnd(rest.analyses, [request] + rest.requests, [Percent(i + 1, |selected|)] + rest.progress, rest.failed)
  }

  /** The outcome of `handleScanAll`: next state, requests sent, and every value given to `setProgress`, in order. */
  datatype ScanRun = ScanRun(state: AppState, requests: seq<Request>, progress: seq<real>)

  /**
   * The body of `handleScanAll` once it has a key and has computed the
   * selection: with no selected item, the notice; otherwise the loop, with
   * the scan error set if it failed. Both paths end as the `finally` block
   * does, with scanning off and progress 0.
   */
  function ScanSelected(st: AppState, oracle: Oracle, selected: seq<NewsItem>): (r: ScanRun)
    requires HasKey(st)
    ensures !r.state.isScanning && r.state.progress == 0.0
    ensures |selected| == 0 ==>
      r == ScanRun(st.(error := Some(NoHighImpactMessage), isScanning := false, progress := 0.0), [], [0.0, 0.0])
    ensures |r.requests| <= |selected|
    ensures r.state.newsItems == st.newsItems && r.state.apiConfig == st.apiConfig && r.state.language == st.language
  {
    if |selected| == 0 then
      ScanRun(st.(error := Some(NoHighImpactMessage), isScanning := false, progress := 0.0), [], [0.0, 0.0])
    else
      var loop := ScanLoop(st.apiConfig.value.key, st.language, selected, oracle, 0, st.analyses);
      var error := if loop.failed then Some(ScanFailedMessage) else None;
      ScanRun(
        st.(analyses := loop.analyses, error := error, isScanning := false, progress := 0.0),
        loop.requests,
        [0.0] + loop.progress + [0.0])
  }

  /**
   * `handleScanAll`. Without a key: set the missing-key error, send nothing.
   * Otherwise start scanning (error cleared, progress 0), select the
   * high-impact items and scan them.
   */
  function HandleScanAll(st: AppState, oracle: Oracle): (r: ScanRun)
    ensures !HasKey(st) ==> r == ScanRun(st.(error := Some(MissingKeyMessage)), [], [])
    ensures HasKey(st) ==> r == ScanSelected(st, oracle, SelectHighImpact(st.newsItems))
    ensures HasKey(st) ==> !r.state.isScanning && r.state.progress == 0.0
    ensures HasKey(st) && SelectHighImpact(st.newsItems) == [] ==>
      r == ScanRun(st.(error := Some(NoHighImpactMessage), isScanning := false, progress := 0.0), [], [0.0, 0.0])
    ensures |r.requests| <= |SelectHighImpact(st.newsItems)|
    ensures r.state.newsItems == st.newsItems && r.state.apiConfig == st.apiConfig && r.state.language == st.language
  {
    if !HasKey(st) then
      ScanRun(st.(error := Some(MissingKeyMessage)), [], [])
    else
      var started := st.(error := None, isScanning := true, progress := 0.0);
      ScanSelected(started, oracle, SelectHighImpact(st.newsItems))
  }

  // ------------------------------------------------------------ the scan loop

  /**
   * The `j`-th request of the loop from `i` is the one for selected item
   * `i + j`; every request before the last completed answered, and where the
   * loop failed the last one was rejected.
   */
  lemma {:induction false} ScanLoopRequestAt(key: string, lang: Language, selected: seq<NewsItem>, oracle: Oracle, i: nat, analyses: map<string, string>, j: nat)
    requires i <= |selected|
    ensures var r := ScanLoop(key, lang, selected, oracle, i, analyses);
      j < |r.requests| ==>
        && i + j < |selected|
        && r.requests[j] == ScanRequest(key, lang, selected, i + j)
        && (j < Completed(r) ==> oracle(i + j, r.requests[j]).Answer?)
        && (j == Completed(r) ==> oracle(i + j, r.requests[j]).ApiFailure?)
    decreases |selected| - i
  {
    var r := ScanLoop(key, lang, selected, oracle, i, analyses);
    if i < |selected| && j < |r.requests| {
      var request := ScanRequest(key, lang, selected, i);
      if oracle(i, request).Answer? {
        var m := analyses[selected[i].link := oracle(i, request).text];
        var rest := ScanLoop(key, lang, selected, oracle, i + 1, m);
        assert r.requests == [request] + rest.requests;
        assert Completed(r) == Completed(rest) + 1;
        if j > 0 {
          ScanLoopRequestAt(key, lang, selected, oracle, i + 1, m, j - 1);
          assert r.requests[j] == rest.requests[j - 1];
        }
      }
    }
  }

  /** After the `j`-th completed analysis of the loop the progress is `(i + j + 1) / n * 100`. */
  lemma {:induction false} ScanLoopProgress(key: string, lang: Language, selected: seq<NewsItem>, oracle: Oracle, i: nat, analyses: map<string, string>, j: nat)
    requires i <= |selected|
    ensures var r := ScanLoop(key, lang, selected, oracle, i, analyses);
      j < |r.progress| ==> i + j < |selected| && r.progress[j] == Percent(i + j + 1, |selected|)
    decreases |selected| - i
  {
    var r := ScanLoop(key, lang, selected, oracle, i, analyses);
    if i < |selected| && j < |r.progress| {
      var request := ScanRequest(key, lang, selected, i);
      if oracle(i, request).Answer? {
        var m := analyses[selected[i].link := oracle(i, request).text];
        var rest := ScanLoop(key, lang, selected, oracle, i + 1, m);
        assert r.progress == [Percent(i + 1, |selected|)] + rest.progress;
        if j > 0 {
          ScanLoopProgress(key, lang, selected, oracle, i + 1, m, j - 1);
          assert r.progress[j] == rest.progress[j - 1];
        }
      }
    }
  }

  /** No selected item with index in `[lo, hi)` has link `k`. */
  predicate LinkAbsent(selected: seq<NewsItem>, lo: nat, hi: nat, k: string) {
    forall j | lo <= j < hi && j < |selected| :: selected[j].link != k
  }

  /** A link that none of the items completed by the loop carries keeps its entry, or its absence. */
  lemma {:induction false} ScanLoopKeepsOthers(key: string, lang: Language, selected: seq<NewsItem>, oracle: Oracle, i: nat, analyses: map<string, string>, k: string)
    requires i <= |selected|
    ensures var r := ScanLoop(key, lang, selected, oracle, i, analyses);
      i + Completed(r) <= |selected| &&
      (LinkAbsent(selected, i, i + Completed(r), k) ==> SameAt(analyses, r.analyses, k))
    decreases |selected| - i
  {
    var r := ScanLoop(key, lang, selected, oracle, i, analyses);
    if i < |selected| {
      var request := ScanRequest(key, lang, selected, i);
      if oracle(i, request).Answer? {
        var m := analyses[selected[i].link := oracle(i, request).text];
        var rest := ScanLoop(key, lang, selected, oracle, i + 1, m);
        ScanLoopKeepsOthers(key, lang, selected, oracle, i + 1, m, k);
        assert r.analyses == rest.analyses;
        assert i + Completed(r) == (i + 1) + Completed(rest);
        if LinkAbsent(selected, i, i + Completed(r), k) {
          assert selected[i].link != k;
          assert LinkAbsent(selected, i + 1, i + Completed(r), k);
        }
      }
    }
  }

  /** The link of the `j`-th item, completed by the loop and not repeated by a later completed item, holds that item's answer. */
  lemma {:induction false} ScanLoopStoresAnswer(key: string, lang: Language, selected: seq<NewsItem>, oracle: Oracle, i: nat, analyses: map<string, string>, j: nat)
    requires i <= j < |selected|
    ensures var r := ScanLoop(key, lang, selected, oracle, i, analyses);
      i + Completed(r) <= |selected| &&
      (j < i + Completed(r) && LinkAbsent(selected, j + 1, i + Completed(r), selected[j].link) ==>
        && selected[j].link in r.analyses
        && oracle(j, ScanRequest(key, lang, selected, j)) == Answer(r.analyses[selected[j].link]))
    decreases |selected| - i
  {
    var r := ScanLoop(key, lang, selected, oracle, i, analyses);
    var request := ScanRequest(key, lang, selected, i);
    if oracle(i, request).Answer? {
      var m := analyses[selected[i].link := oracle(i, request).text];
      var rest := ScanLoop(key, lang, selected, oracle, i + 1, m);
      assert r.analyses == rest.analyses;
      assert i + Completed(r) == (i + 1) + Completed(rest);
      if j == i {
        ScanLoopKeepsOthers(key, lang, selected, oracle, i + 1, m, selected[i].link);
      } else {
        ScanLoopStoresAnswer(key, lang, selected, oracle, i + 1, m, j);
      }
    }
  }

  // ------------------------------------------------------------ progress

  /** Every progress value set during a scan lies in `(0, 100]`. */
  lemma PercentBounds(done: nat, total: nat)
    requires 0 < done <= total
    ensures 0.0 < Percent(done, total) <= 100.0
  {
    var q := done as real / total as real;
    assert q * total as real == done as real;
    assert q <= 1.0;
  }

  /** Progress strictly increases from one completed item to the next. */
  lemma PercentIncreasing(done: nat, total: nat)
    requires 0 < total
    ensures Percent(done, total) < Percent(done + 1, total)
  {
    var q := done as real / total as real;
    var q' := (done + 1) as real / total as real;
    assert q * total as real == done as real;
    assert q' * total as real == (done + 1) as real;
  }

  /** The last item of a complete scan brings progress to 100. */
  lemma PercentComplete(total: nat)
    requires 0 < total
    ensures Percent(total, total) == 100.0
  {
  }

  // ------------------------------------------------------------ the scan of a selection

  /** The loop the scan of a non-empty selection runs. */
  function LoopOf(st: AppState, oracle: Oracle, sel: seq<NewsItem>): LoopEnd
    requires HasKey(st)
  {
    ScanLoop(st.apiConfig.value.key, st.language, sel, oracle, 0, st.analyses)
  }

  /** The number of selected items whose analysis completed in a scan: all requests but a failed last one. */
  function Done(r: ScanRun): int {
    if r.state.error == None then |r.requests| else |r.requests| - 1
  }

  /** The scan of a non-empty selection reports the outcome of its loop. */
  lemma ScanRunsLoop(st: AppState, oracle: Oracle, sel: seq<NewsItem>)
    requires HasKey(st) && |sel| > 0
    ensures var r := ScanSelected(st, oracle, sel);
      var loop := LoopOf(st, oracle, sel);
      && r.state.analyses == loop.analyses
      && r.requests == loop.requests
      && r.progress == [0.0] + loop.progress + [0.0]
      && (r.state.error == None <==> !loop.failed)
      && Done(r) == Completed(loop)
  {
  }

  /**
   * The scan of a non-empty selection sends one request per selected item,
   * in selection order, each but the last answered.
   */
  lemma ScanCalls(st: AppState, oracle: Oracle, sel: seq<NewsItem>)
    requires HasKey(st) && |sel| > 0
    ensures var r := ScanSelected(st, oracle, sel);
      && 0 < |r.requests| <= |sel|
      && (forall j | 0 <= j < |r.requests| :: r.requests[j] == RequestFor(st, sel[j]))
      && (forall j | 0 <= j < |r.requests| - 1 :: oracle(j, r.requests[j]).Answer?)
  {
    var r := ScanSelected(st, oracle, sel);
    ScanRunsLoop(st, oracle, sel);
    forall j | 0 <= j < |r.requests|
      ensures r.requests[j] == RequestFor(st, sel[j])
      ensures j < |r.requests| - 1 ==> oracle(j, r.requests[j]).Answer?
    {
      ScanLoopRequestAt(st.apiConfig.value.key, st.language, sel, oracle, 0, st.analyses, j);
    }
  }

  /**
   * The scan error is cleared exactly when every selected item was requested
   * and the last request answered; otherwise it is the scan failure message
   * and the last request was rejected: the scan stops right after the first
   * failure.
   */
  lemma ScanOutcome(st: AppState, oracle: Oracle, sel: seq<NewsItem>)
    requires HasKey(st) && |sel| > 0
    ensures var r := ScanSelected(st, oracle, sel);
      var last := |r.requests| - 1;
      && 0 <= last
      && (r.state.error == None <==> |r.requests| == |sel| && oracle(last, r.requests[last]).Answer?)
      && (r.state.error != None ==> r.state.error == Some(ScanFailedMessage) && oracle(last, r.requests[last]).ApiFailure?)
  {
    var loop := LoopOf(st, oracle, sel);
    ScanRunsLoop(st, oracle, sel);
    ScanLoopRequestAt(st.apiConfig.value.key, st.language, sel, oracle, 0, st.analyses, |loop.requests| - 1);
  }

  /** After a scan, links that none of the completed items carries keep their entries, or their absence. */
  lemma ScanKeepsOthers(st: AppState, oracle: Oracle, sel: seq<NewsItem>, k: string)
    requires HasKey(st) && |sel| > 0
    ensures var r := ScanSelected(st, oracle, sel);
      LinkAbsent(sel, 0, Done(r), k) ==> SameAt(st.analyses, r.state.analyses, k)
  {
    ScanRunsLoop(st, oracle, sel);
    ScanLoopKeepsOthers(st.apiConfig.value.key, st.language, sel, oracle, 0, st.analyses, k);
  }

  /**
   * After a scan, the link of the `j`-th selected item, if that item
   * completed, holds its answer, unless a later completed item carries the
   * same link (the last one wins).
   */
  lemma ScanStoresAnswer(st: AppState, oracle: Oracle, sel: seq<NewsItem>, j: nat)
    requires HasKey(st) && j < |sel|
    ensures var r := ScanSelected(st, oracle, sel);
      j < Done(r) && LinkAbsent(sel, j + 1, Done(r), sel[j].link) ==>
        sel[j].link in r.state.analyses && oracle(j, RequestFor(st, sel[j])) == Answer(r.state.analyses[sel[j].link])
  {
    ScanRunsLoop(st, oracle, sel);
    ScanLoopStoresAnswer(st.apiConfig.value.key, st.language, sel, oracle, 0, st.analyses, j);
  }

  /** The `j`-th value given to `setProgress` between the initial and the final 0 is `j / n * 100`. */
  lemma ScanProgressAt(st: AppState, oracle: Oracle, sel: seq<NewsItem>, j: nat)
    requires HasKey(st) && |sel| > 0
    ensures var r := ScanSelected(st, oracle, sel);
      && 2 <= |r.progress| <= |sel| + 2
      && r.progress[0] == 0.0 && r.progress[|r.progress| - 1] == 0.0
      && (1 <= j < |r.progress| - 1 ==> j <= |sel| && r.progress[j] == Percent(j, |sel|))
  {
    var loop := LoopOf(st, oracle, sel);
    var r := ScanSelected(st, oracle, sel);
    ScanRunsLoop(st, oracle, sel);
    if 1 <= j < |r.progress| - 1 {
      ScanLoopProgress(st.apiConfig.value.key, st.language, sel, oracle, 0, st.analyses, j - 1);
      assert r.progress[j] == loop.progress[j - 1];
    }
  }

  /**
   * The values given to `setProgress`: 0 at the start, `j / n * 100` after
   * the `j`-th completed item, 0 in `finally`. In between they strictly
   * increase within `(0, 100]`.
   */
  lemma ScanProgress(st: AppState, oracle: Oracle, sel: seq<NewsItem>)
    requires HasKey(st) && |sel| > 0
    ensures var r := ScanSelected(st, oracle, sel);
      && 2 <= |r.progress| <= |sel| + 2
      && r.progress[0] == 0.0 && r.progress[|r.progress| - 1] == 0.0
      && (forall j | 1 <= j < |r.progress| - 1 :: r.progress[j] == Percent(j, |sel|) && 0.0 < r.progress[j] <= 100.0)
      && (forall j | 1 <= j < |r.progress| - 2 :: r.progress[j] < r.progress[j + 1])
  {
    var r := ScanSelected(st, oracle, sel);
    ScanProgressAt(st, oracle, sel, 0);
    forall j | 1 <= j < |r.progress| - 1
      ensures r.progress[j] == Percent(j, |sel|) && 0.0 < r.progress[j] <= 100.0
    {
      ScanProgressAt(st, oracle, sel, j);
      PercentBounds(j, |sel|);
    }
    forall j | 1 <= j < |r.progress| - 2
      ensures r.progress[j] < r.progress[j + 1]
    {
      ScanProgressAt(st, oracle, sel, j);
      ScanProgressAt(st, oracle, sel, j + 1);
      PercentIncreasing(j, |sel|);
    }
  }

  /** A scan in which every selected item completed ends its progress trail at 100 before the final reset. */
  lemma ScanProgressComplete(st: AppState, oracle: Oracle, sel: seq<NewsItem>)
    requires HasKey(st) && |sel| > 0
    ensures var r := ScanSelected(st, oracle, sel);
      r.state.error == None ==> |r.progress| == |sel| + 2 && r.progress[|r.progress| - 2] == 100.0
  {
    var r := ScanSelected(st, oracle, sel);
    ScanRunsLoop(st, oracle, sel);
    if r.state.error == None {
      ScanProgressAt(st, oracle, sel, |sel|);
      PercentComplete(|sel|);
    }
  }

  /** Answers up to item `f` and a failure at `f`: the loop from `i` sends `f - i + 1` requests and fails. */
  lemma {:induction false} ScanLoopStopsAt(key: string, lang: Language, selected: seq<NewsItem>, oracle: Oracle, i: nat, analyses: map<string, string>, f: nat)
    requires i <= f < |selected|
    requires forall j | i <= j < f :: oracle(j, ScanRequest(key, lang, selected, j)).Answer?
    requires oracle(f, ScanRequest(key, lang, selected, f)).ApiFailure?
    ensures var r := ScanLoop(key, lang, selected, oracle, i, analyses);
      |r.requests| == f - i + 1 && r.failed
    decreases f - i
  {
    if i < f {
      var request := ScanRequest(key, lang, selected, i);
      assert oracle(i, request).Answer?;
      var m := analyses[selected[i].link := oracle(i, request).text];
      ScanLoopStopsAt(key, lang, selected, oracle, i + 1, m, f);
    }
  }

  /**
   * The scan stops exactly at the first failing call: when the answers for
   * the first `f` selected items arrive and the call for item `f` fails,
   * `f + 1` requests were sent and the scan error is set.
   */
  lemma ScanStopsAtFirstFailure(st: AppState, oracle: Oracle, sel: seq<NewsItem>, f: nat)
    requires HasKey(st) && f < |sel|
    requires forall j | 0 <= j < f :: oracle(j, RequestFor(st, sel[j])).Answer?
    requires oracle(f, RequestFor(st, sel[f])).ApiFailure?
    ensures var r := ScanSelected(st, oracle, sel);
      |r.requests| == f + 1 && r.state.error == Some(ScanFailedMessage)
  {
    ScanLoopStopsAt(st.apiConfig.value.key, st.language, sel, oracle, 0, st.analyses, f);
  }

  /** Every key of the analyses is the link of an item of the feed. */
  predicate KeysAreLinks(analyses: map<string, string>, items: seq<NewsItem>) {
    forall k | k in analyses :: exists x | x in items :: x.link == k
  }

  /** The loop only adds keys that are links of the selected items it visits. */
  lemma {:induction false} ScanLoopKeys(key: string, lang: Language, selected: seq<NewsItem>, oracle: Oracle, i: nat, analyses: map<string, string>)
    requires i <= |selected|
    ensures var r := ScanLoop(key, lang, selected, oracle, i, analyses);
      forall k | k in r.analyses :: k in analyses || exists j | i <= j < |selected| :: selected[j].link == k
    decreases |selected| - i
  {
    var r := ScanLoop(key, lang, selected, oracle, i, analyses);
    if i < |selected| {
      var request := ScanRequest(key, lang, selected, i);
      if oracle(i, request).Answer? {
        var m := analyses[selected[i].link := oracle(i, request).text];
        var rest := ScanLoop(key, lang, selected, oracle, i + 1, m);
        ScanLoopKeys(key, lang, selected, oracle, i + 1, m);
        forall k | k in r.analyses
          ensures k in analyses || exists j | i <= j < |selected| :: selected[j].link == k
        {
          if k !in analyses {
            if k == selected[i].link {
              assert selected[i].link == k;
            } else {
              assert k !in m;
              var j :| i + 1 <= j < |selected| && selected[j].link == k;
              assert selected[j].link == k;
            }
          }
        }
      }
    }
  }

  /** A scan adds only keys that are links of selected items. */
  lemma ScanKeys(st: AppState, oracle: Oracle, sel: seq<NewsItem>)
    requires HasKey(st)
    ensures var r := ScanSelected(st, oracle, sel);
      forall k | k in r.state.analyses :: k in st.analyses || exists x | x in sel :: x.link == k
  {
    var r := ScanSelected(st, oracle, sel);
    if |sel| > 0 {
      ScanRunsLoop(st, oracle, sel);
      ScanLoopKeys(st.apiConfig.value.key, st.language, sel, oracle, 0, st.analyses);
      forall k | k in r.state.analyses && k !in st.analyses
        ensures exists x | x in sel :: x.link == k
      {
        var j :| 0 <= j < |sel| && sel[j].link == k;
        assert sel[j] in sel;
      }
    }
  }

  // ------------------------------------------------------------ handleScanAll

  /** The high-impact selection of the current feed. */
  function Selection(st: AppState): seq<NewsItem> {
    SelectHighImpact(st.newsItems)
  }

  /** A scan keeps every key of the analyses a link of the feed. */
  lemma ScanAllKeepsKeysLinks(st: AppState, oracle: Oracle)
    requires KeysAreLinks(st.analyses, st.newsItems)
    ensures var r := HandleScanAll(st, oracle);
      KeysAreLinks(r.state.analyses, r.state.newsItems)
  {
    var r := HandleScanAll(st, oracle);
    if HasKey(st) {
      var sel := Selection(st);
      ScanKeys(st, oracle, sel);
      SelectionIsFilter(st.newsItems);
      forall k | k in r.state.analyses && k !in st.analyses
        ensures exists x | x in st.newsItems :: x.link == k
      {
        var x :| x in sel && x.link == k;
        assert x in st.newsItems;
      }
    }
  }

  /** Analysing an item of the feed keeps every key of the analyses a link of the feed. */
  lemma AnalyzeKeepsKeysLinks(st: AppState, item: NewsItem, oracle: Oracle)
    requires KeysAreLinks(st.analyses, st.newsItems) && item in st.newsItems
    ensures KeysAreLinks(HandleAnalyze(st, item, oracle).state.analyses, st.newsItems)
  {
    var r := HandleAnalyze(st, item, oracle);
    forall k | k in r.state.analyses
      ensures exists x | x in st.newsItems :: x.link == k
    {
      if k == item.link {
        assert item.link == k;
      } else {
        assert SameAt(st.analyses, r.state.analyses, k);
      }
    }
  }

  /**
   * Analysing the same item again, after switching the language to `lang`,
   * replaces its analysis with the new answer: results are keyed by link
   * only. Every other entry stays as it was before both calls.
   */
  lemma AnalyzeAgainOverwrites(st: AppState, item: NewsItem, lang: Language, first: Oracle, second: Oracle)
    requires HasKey(st) && second(0, RequestFor(st.(language := lang), item)).Answer?
    ensures var once := HandleAnalyze(st, item, first).state;
      var twice := HandleAnalyze(once.(language := lang), item, second).state;
      && twice.analyses == st.analyses[item.link := second(0, RequestFor(st.(language := lang), item)).text]
      && twice.error == once.error
  {
    var once := HandleAnalyze(st, item, first).state;
    var switched := once.(language := lang);
    var twice := HandleAnalyze(switched, item, second).state;
    assert HasKey(switched) && RequestFor(switched, item) == RequestFor(st.(language := lang), item);
    var m := st.analyses[item.link := second(0, RequestFor(st.(language := lang), item)).text];
    forall k | k != item.link
      ensures SameAt(st.analyses, once.analyses, k) && SameAt(switched.analyses, twice.analyses, k)
    {
    }
    assert twice.analyses.Keys == m.Keys;
  }
}

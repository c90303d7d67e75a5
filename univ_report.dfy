/**
 * The university report page: the print-mode and search gate, the
 * institution name, the cumulative metrics and monthly table for the three
 * fixed service categories, the word counts of the sample questions and
 * the link to the print view.
 */
module UnivReport {
  import opened Wrappers
  import opened PyStr
  import opened PySorted
  import opened Calendar
  import opened Frames
  import opened Pivot

  // ---------------------------------------------------------------------
  // Query parameters and the report gate

  /** The URL query parameters the page reads; `None` when a parameter is absent. */
  datatype QueryParams = QueryParams(printMode: Option<string>, b2bId: Option<string>)

  /** `query_params.get("print_mode", "0") == "1"`: on only for the value `"1"`. */
  function IsPrintMode(p: QueryParams): (r: bool)
    ensures r <==> p.printMode == Some("1")
  {
    p.printMode.GetOr("0") == "1"
  }

  /** Python truthiness of an optional string: present and non-empty. */
  predicate Truthy(s: Option<string>) {
    s.Some? && s.value != ""
  }

  /**
   * The ID the report is shown for, or `None` when no report is shown. In
   * print mode the ID comes from the URL and the search box is not shown;
   * otherwise it is the typed text and the search button must be clicked.
   * The report appears exactly when that ID is non-empty and, outside print
   * mode, the button was clicked.
   */
  function ReportId(p: QueryParams, textInput: string, searchClicked: bool): (r: Option<string>)
    ensures r.Some? <==>
      if IsPrintMode(p) then Truthy(p.b2bId) else searchClicked && textInput != ""
    ensures r.Some? ==> r.value != "" && r.value == (if IsPrintMode(p) then p.b2bId.value else textInput)
  {
    var printMode := IsPrintMode(p);
    var id := if printMode then p.b2bId else Some(textInput);
    var clicked := if printMode then false else searchClicked;
    if (clicked && Truthy(id)) || (printMode && Truthy(id)) then id else None
  }

  /**
   * The title name: the `b2b_nm` of the first row the lookup returns, or the
   * ID when it returns no row. A first row whose `b2b_nm` is `NULL` gives no
   * name (`None`): the ID stands in only for a missing row, not a missing name.
   */
  function InstitutionName(names: seq<Option<string>>, b2bId: string): (r: Option<string>)
    ensures names != [] ==> r == names[0]
    ensures names == [] ==> r == Some(b2bId)
    ensures r.None? <==> names != [] && names[0].None?
  {
    if names != [] then names[0] else Some(b2bId)
  }

  // ---------------------------------------------------------------------
  // The print link

  const BaseUrl := "https://dbpia-report.streamlit.app"

  /** A `key=value` query parameter. */
  function Param(key: string, value: string): string {
    key + "=" + value
  }

  /** The query of the print link: `print_mode=1&b2b_id={b2bId}`. */
  function PrintQuery(b2bId: string): string {
    Param("print_mode", "1") + "&" + Param("b2b_id", b2bId)
  }

  /**
   * The link to the print view of the report for `b2bId`:
   * `{base}?print_mode=1&b2b_id={b2bId}`, the ID inserted as it is. Read
   * back, everything before its first `?` is the page's address and
   * everything after it is the print query.
   */
  function PrintUrl(b2bId: string): (r: string)
    ensures SplitFirst(r, '?') == BaseUrl
    ensures QueryPart(r) == PrintQuery(b2bId)
  {
    var query := PrintQuery(b2bId);
    BaseUrlHasNoQuery();
    SplitFirstPrefix(BaseUrl, '?', ['?'] + query);
    BaseUrl + (['?'] + query)
  }

  /** What follows the first `?` of a URL, or nothing when it has none. */
  function QueryPart(url: string): string {
    var head := SplitFirst(url, '?');
    if |head| < |url| then url[|head| + 1..] else ""
  }

  /** The value of the first `key=value` pair for `key`, or `None`. */
  function ParamValue(pairs: seq<string>, key: string): Option<string> {
    if pairs == [] then None
    else
      var k := SplitFirst(pairs[0], '=');
      if k == key && |k| < |pairs[0]| then Some(pairs[0][|k| + 1..]) else ParamValue(pairs[1..], key)
  }

  /** The two query parameters the page reads, taken from a URL without decoding. */
  function ParseQuery(url: string): QueryParams {
    var pairs := SplitOn(QueryPart(url), '&');
    QueryParams(ParamValue(pairs, "print_mode"), ParamValue(pairs, "b2b_id"))
  }

  lemma SplitOnNone(s: string, sep: char)
    requires sep !in s
    ensures SplitOn(s, sep) == [s]
  {
    SplitFirstPrefix(s, sep, []);
    assert s + [] == s;
  }

  /** The first pair for `key` gives its value. */
  lemma ParamValueHere(key: string, value: string, rest: seq<string>)
    requires '=' !in key
    ensures ParamValue([Param(key, value)] + rest, key) == Some(value)
  {
    assert Param(key, value) == key + ("=" + value);
    SplitFirstPrefix(key, '=', "=" + value);
  }

  /** A pair for another key is passed over. */
  lemma ParamValueSkip(key: string, value: string, rest: seq<string>, other: string)
    requires '=' !in key && key != other
    ensures ParamValue([Param(key, value)] + rest, other) == ParamValue(rest, other)
  {
    assert Param(key, value) == key + ("=" + value);
    SplitFirstPrefix(key, '=', "=" + value);
    assert ([Param(key, value)] + rest)[1..] == rest;
  }

  lemma BaseUrlHasNoQuery()
    ensures '?' !in BaseUrl
  {
  }

  lemma PrintQueryPairs(b2bId: string)
    requires '&' !in b2bId
    ensures SplitOn(PrintQuery(b2bId), '&') == [Param("print_mode", "1"), Param("b2b_id", b2bId)]
  {
    var first, second := Param("print_mode", "1"), Param("b2b_id", b2bId);
    assert '&' !in first;
    assert '&' !in second by {
      assert '&' !in "b2b_id" + "=";
      assert second == ("b2b_id" + "=") + b2bId;
    }
    SplitOnAt(first, '&', second);
    SplitOnNone(second, '&');
  }

  /**
   * The print link carries the report's parameters: read back, it turns
   * print mode on and gives back the same ID (for IDs without `&`, which
   * would end the parameter early).
   */
  lemma PrintUrlRoundTrip(b2bId: string)
    requires '&' !in b2bId
    ensures ParseQuery(PrintUrl(b2bId)) == QueryParams(Some("1"), Some(b2bId))
  {
    PrintQueryPairs(b2bId);
    var second := [Param("b2b_id", b2bId)];
    assert '=' !in "print_mode" && '=' !in "b2b_id" && "print_mode" != "b2b_id";
    ParamValueHere("print_mode", "1", second);
    ParamValueSkip("print_mode", "1", second, "b2b_id");
    ParamValueHere("b2b_id", b2bId, []);
    assert second == [Param("b2b_id", b2bId)] + [];
  }

  /**
   * Opening the print link of a report shows the report for the same ID in
   * print mode, whatever the search box holds.
   */
  lemma PrintLinkOpensSameReport(b2bId: string, textInput: string, searchClicked: bool)
    requires b2bId != "" && '&' !in b2bId
    ensures IsPrintMode(ParseQuery(PrintUrl(b2bId)))
    ensures ReportId(ParseQuery(PrintUrl(b2bId)), textInput, searchClicked) == Some(b2bId)
  {
    PrintUrlRoundTrip(b2bId);
  }

  /** The print link offered under a report: only outside print mode, for the report's ID. */
  function PrintLink(p: QueryParams, textInput: string, searchClicked: bool): (r: Option<string>)
    ensures r.Some? <==> ReportId(p, textInput, searchClicked).Some? && !IsPrintMode(p)
    ensures r.Some? ==> r.value == PrintUrl(textInput)
  {
    var id := ReportId(p, textInput, searchClicked);
    if id.None? || IsPrintMode(p) then None else Some(PrintUrl(id.value))
  }

  // ---------------------------------------------------------------------
  // The three fixed categories

  /** The service categories the report shows, in this order. */
  const Categories: seq<string> := ["AI IDEA", "AI Viewer", "AI Search"]

  /** One row of the cumulative query: a service and its summed use (`None` for `NULL`). */
  datatype ServiceTotal = ServiceTotal(service: string, total: Option<nat>)

  /** At most one row per service, as `GROUP BY service_type` guarantees and `reindex` demands. */
  predicate UniqueServices(rows: seq<ServiceTotal>) {
    forall i, j :: 0 <= i < j < |rows| ==> rows[i].service != rows[j].service
  }

  /** The total of `category`, 0 when the data has no row for it or its total is `NULL`. */
  function TotalOf(rows: seq<ServiceTotal>, category: string): (r: nat)
    ensures (forall i :: 0 <= i < |rows| ==> rows[i].service != category) ==> r == 0
    ensures UniqueServices(rows) ==>
      forall i :: 0 <= i < |rows| && rows[i].service == category ==> r == rows[i].total.GetOr(0)
  {
    if rows == [] then 0
    else if rows[0].service == category then rows[0].total.GetOr(0)
    else TotalOf(rows[1..], category)
  }

  /**
   * The three metrics: `None` (a warning) when the query returned nothing;
   * otherwise exactly one value per category, in category order, that
   * category's total, or 0 when it is missing. Other services are dropped.
   */
  function CumulativeMetrics(rows: seq<ServiceTotal>): (r: Option<seq<nat>>)
    requires UniqueServices(rows)
    ensures r.None? <==> rows == []
    ensures r.Some? ==> |r.value| == |Categories| == 3
    ensures r.Some? ==> forall k, i :: 0 <= k < 3 && 0 <= i < |rows| && rows[i].service == Categories[k] ==>
      r.value[k] == rows[i].total.GetOr(0)
    ensures r.Some? ==> forall k :: 0 <= k < 3 && (forall i :: 0 <= i < |rows| ==> rows[i].service != Categories[k]) ==>
      r.value[k] == 0
  {
    if rows == [] then None
    else Some(seq(3, k requires 0 <= k < 3 => TotalOf(rows, Categories[k])))
  }

  /**
   * The monthly table: `None` (a warning) when the query returned nothing;
   * otherwise the pivot reindexed to the three categories. Its rows are
   * exactly the categories, its columns the months of the data in
   * ascending order; a category with data shows that month's value, or 0
   * for a month it lacks; a category without any data has only empty
   * cells; other services are dropped.
   */
  function MonthlyPivot(recs: seq<Record>): (r: Option<Table>)
    requires UniqueKeys(recs)
    ensures r.None? <==> recs == []
    ensures r.Some? ==> r.value.index == Categories && r.value.columns == SortedSet(MonthKeys(recs))
    ensures r.Some? ==> forall s, m :: (r.value.At(s, m) ==
      if s in Categories && s in ServiceKeys(recs) && m in MonthKeys(recs) then Count(PivotCell(recs, s, m)) else Empty)
  {
    if recs == [] then None else Some(PivotTable(recs).ReindexRows(Categories))
  }

  // ---------------------------------------------------------------------
  // Word counts

  /** The sample questions the word cloud is drawn from. */
  const SampleQuestions: seq<string> := [
    "논문 요약 알려줘", "연구 목적이 무엇이야?", "참고문헌 자동으로 생성돼?",
    "자연어처리 최신 연구 알려줘", "논문 구조 설명해줘", "요약 정리해줘",
    "AI 활용 사례는?", "결론은 무엇인가요?", "논문 키워드 추천해줘",
    "서론 요약", "학술적 의의는?", "연구 방법론 설명해줘",
    "검색어 관련 논문 있어?", "연구 배경 요약해줘", "요약해줘"
  ]

  /** The whitespace-split tokens of every question, question after question. */
  function Tokens(questions: seq<string>): seq<string> {
    if questions == [] then []
    else Tokens(questions[..|questions| - 1]) + Split(questions[|questions| - 1])
  }

  /** The token loop: for each question, extend the list with its `split()`. */
  method CollectTokens(questions: seq<string>) returns (tokens: seq<string>)
    ensures tokens == Tokens(questions)
  {
    tokens := [];
    var i := 0;
    while i < |questions|
      invariant 0 <= i <= |questions|
      invariant tokens == Tokens(questions[..i])
    {
      assert questions[..i + 1][..i] == questions[..i];
      tokens := tokens + Split(questions[i]);
      i := i + 1;
    }
    assert questions[..|questions|] == questions;
  }

  /** Every token is a non-empty run of non-whitespace characters. */
  lemma {:induction false} TokensAreWords(questions: seq<string>)
    ensures forall t :: t in Tokens(questions) ==> t != [] && NoSpace(t)
  {
    if questions != [] {
      var init, last := questions[..|questions| - 1], questions[|questions| - 1];
      TokensAreWords(init);
      SplitTokensAreWords(last);
      forall t | t in Split(last) ensures t != [] && NoSpace(t) {
        var i :| 0 <= i < |Split(last)| && Split(last)[i] == t;
      }
    }
  }

  /** Put together, the tokens are exactly the non-whitespace characters of the questions, in order. */
  lemma {:induction false} TokensKeepText(questions: seq<string>)
    ensures Concat(Tokens(questions)) == NonSpace(Concat(questions))
  {
    if questions != [] {
      var init, last := questions[..|questions| - 1], questions[|questions| - 1];
      TokensKeepText(init);
      SplitKeepsText(last);
      ConcatAppend(Tokens(init), Split(last));
      assert Tokens(questions) == Tokens(init) + Split(last);
      assert questions == init + [last];
      ConcatAppend(init, [last]);
      assert Concat([last]) == last + Concat([]);
      assert Concat(questions) == Concat(init) + last;
      NonSpaceAppend(Concat(init), last);
    }
  }

  /** How many times `t` occurs in `tokens`. */
  function Occurrences(tokens: seq<string>, t: string): nat {
    if tokens == [] then 0 else (if tokens[0] == t then 1 else 0) + Occurrences(tokens[1..], t)
  }

  lemma {:induction false} OccurrencesIsMultiplicity(tokens: seq<string>, t: string)
    ensures Occurrences(tokens, t) == multiset(tokens)[t]
  {
    if tokens != [] {
      OccurrencesIsMultiplicity(tokens[1..], t);
      assert tokens == [tokens[0]] + tokens[1..];
    }
  }

  /**
   * `Counter(tokens)`: a key for each distinct token, mapped to the number
   * of times it occurs.
   */
  function TokenCounts(tokens: seq<string>): (r: map<string, nat>)
    ensures forall t :: t in r <==> t in tokens
    ensures forall t :: t in r ==> r[t] == multiset(tokens)[t] && r[t] >= 1
  {
    var r := map t | t in tokens :: Occurrences(tokens, t);
    forall t | t in r ensures r[t] == multiset(tokens)[t] {
      OccurrencesIsMultiplicity(tokens, t);
    }
    r
  }

  /** The sum of the occurrence counts of `keys`. */
  function CountSum(tokens: seq<string>, keys: seq<string>): nat {
    if keys == [] then 0 else Occurrences(tokens, keys[0]) + CountSum(tokens, keys[1..])
  }

  lemma {:induction false} CountSumOfRest(tokens: seq<string>, keys: seq<string>)
    requires tokens != [] && NoDups(keys)
    ensures CountSum(tokens, keys) == (if tokens[0] in keys then 1 else 0) + CountSum(tokens[1..], keys)
  {
    if keys != [] {
      CountSumOfRest(tokens, keys[1..]);
      assert keys == [keys[0]] + keys[1..];
    }
  }

  lemma {:induction false} CountSumIsLength(tokens: seq<string>, keys: seq<string>)
    requires NoDups(keys) && forall t :: t in tokens ==> t in keys
    ensures CountSum(tokens, keys) == |tokens|
  {
    if keys != [] && tokens == [] {
      CountSumZero(keys);
    }
    if tokens != [] {
      CountSumOfRest(tokens, keys);
      assert tokens[0] in tokens;
      CountSumIsLength(tokens[1..], keys);
    }
  }

  lemma {:induction false} CountSumZero(keys: seq<string>)
    ensures CountSum([], keys) == 0
  {
    if keys != [] {
      CountSumZero(keys[1..]);
    }
  }

  /** The counts of the distinct tokens add up to the number of tokens. */
  lemma CountsAddUp(tokens: seq<string>)
    ensures var counts := TokenCounts(tokens);
      var keys := Distinct(tokens);
      (forall t :: t in keys ==> counts[t] == Occurrences(tokens, t)) && CountSum(tokens, keys) == |tokens|
  {
    var keys := Distinct(tokens);
    forall t | t in keys ensures TokenCounts(tokens)[t] == Occurrences(tokens, t) {
      OccurrencesIsMultiplicity(tokens, t);
    }
    CountSumIsLength(tokens, keys);
  }

  // ---------------------------------------------------------------------
  // The page

  /** Everything the report section shows. */
  datatype Report = Report(
    b2bId: string,
    name: Option<string>,
    months: seq<string>,
    metrics: Option<seq<nat>>,
    monthly: Option<Table>,
    wordCounts: map<string, nat>,
    printLink: Option<string>)

  /**
   * One run of the report page. The query parameters, the search box and
   * button are the inputs; `today` is the clock reading; `names`,
   * `cumulative` and `monthly` are what the three queries return for the
   * report's ID and months. No report is shown unless the gate opens; the
   * months queried run from January 2025 through today's month.
   */
  method UnivPage(p: QueryParams, textInput: string, searchClicked: bool, today: Today,
                  names: seq<Option<string>>, cumulative: seq<ServiceTotal>, monthly: seq<Record>)
    returns (report: Option<Report>)
    requires ValidToday(today) && UniqueServices(cumulative) && UniqueKeys(monthly)
    ensures report.Some? <==> ReportId(p, textInput, searchClicked).Some?
    ensures report.Some? ==> var id := ReportId(p, textInput, searchClicked).value;
      && report.value.b2bId == id
      && report.value.name == InstitutionName(names, id)
      && report.value.months == MonthLabels(ReportStartYear, today)
      && report.value.metrics == CumulativeMetrics(cumulative)
      && report.value.monthly == MonthlyPivot(monthly)
      && report.value.wordCounts == TokenCounts(Tokens(SampleQuestions))
      && report.value.printLink == PrintLink(p, textInput, searchClicked)
  {
    var id := ReportId(p, textInput, searchClicked);
    if id.None? {
      return None;
    }
    var b2bId := id.value;
    var months := UnivMonthLabels(today);
    var tokens := CollectTokens(SampleQuestions);
    var link := if IsPrintMode(p) then None else Some(PrintUrl(b2bId));
    report := Some(Report(b2bId, InstitutionName(names, b2bId), months, CumulativeMetrics(cumulative),
                          MonthlyPivot(monthly), TokenCounts(tokens), link));
  }
}

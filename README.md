# Usage dashboards: the report-shaping core, in Dafny

Two Streamlit pages report how an institution (a B2B customer, by its ID) uses
three AI services:

- The **usage dashboard** (`automation_streamlit.py`) offers every month from
  January 2024 through the current month as `YYYY-MM` labels. It also offers
  the years found in those labels as a filter. For a typed institution ID and
  a pressed search button, it queries per-service, per-month usage together
  with last year's usage. It then shows a table: one row per service, a total
  row (`서비스 전체`), a year-over-year rate row (`전년대비`), and one column
  per selected month in ascending order.
- The **university report** (`univ_report.py`) shows one institution's report
  in two modes. In search mode, the user types the ID and clicks a button. In
  print mode, the URL carries `print_mode=1&b2b_id=…`. The report holds the
  institution's name, the cumulative use of the three categories `AI IDEA`,
  `AI Viewer` and `AI Search` since January 2025, a monthly table for those
  categories, word counts over sample questions and, outside print mode, a
  link to the print view.

The model covers the deterministic data shaping between the widgets and the
queries. Clock readings, widget values and query results are parameters:
`today` is a `Today(year, month)` value and each query result is a sequence
of rows. A pandas `DataFrame` is a `Frames.Table`: row labels, column labels
and a map of cells, where `Empty` stands for `NaN`. The usage dashboard's
`pivot_used` is updated in place, so it is the class `Frames.Frame`, and its
methods are proved against the `Table` functions. Python string order, which
`sorted` uses, is the lexicographic `PyStr.Less`. For four-digit years it is
proved to agree with chronological order of the labels.

Modules, file by file:

- `wrappers.dfy` holds `Option`.
- `pystr.dfy` holds `str(n)`, `{n:02}`, `split`, `split(sep)` and string order.
- `pysorted.dfy` holds `sorted` and `set`.
- `month_labels.dfy` (module `Calendar`) holds both month-label generators.
- `filters.dfy` holds the year and month filters.
- `frames.dfy` holds the tables.
- `pivot.dfy` holds `pivot` with `fillna(0)` and its totals.
- `usage_report.dfy` holds the usage dashboard.
- `univ_report.dfy` holds the university report.

Three behaviours of the code shape the model:

- pandas `pivot` rejects a second row for the same (service, month); it does
  not sum them. The model requires unique keys, which the queries' `GROUP BY`
  guarantees.
- In the university report's monthly table, `fillna(0)` runs before the
  reindex to the three categories. A category with no data at all therefore
  gets an all-empty row, not zeros.
- In the usage dashboard, the column reindex runs after the fill. A selected
  month without any data therefore gets empty cells, in the total and rate
  rows too.

## Model

| member | source | states |
|---|---|---|
| Calendar.Label | automation_streamlit.py:34 | `split("-")` of a label of a non-negative year gives back exactly the decimal year and the zero-padded month |
| Calendar.GenerateMonthLabels | automation_streamlit.py:28-35 | the nested year/month loop yields exactly the labels of the months counted from January of the start year through today's month |
| Calendar.MonthsRange | automation_streamlit.py:31-34 | there are `12*(Y-start)+M` months when the start year is not after today's year and none otherwise; the first is January of the start year, the last is today's month, and each is a real month not after today's |
| Calendar.MonthAtClosedForm | automation_streamlit.py:31-34 | the k-th month counted from January of `start` is month `k%12+1` of year `start+k/12`: the months are contiguous |
| Calendar.MonthAtOrder | automation_streamlit.py:31-34 | later positions hold strictly later months |
| Calendar.LabelShape | automation_streamlit.py:34 | a label of a four-digit year is four digits, `-`, then two digits (month zero-padded) |
| Calendar.LabelOrder | automation_streamlit.py:34 | for four-digit years, string order of labels is chronological order, and equal labels mean equal months |
| Calendar.MonthLabelsIncreasing | automation_streamlit.py:28-35 | from a four-digit start year the labels are strictly ascending as strings |
| Calendar.YearPart | univ_report.py:78-80 | every month the inner loop keeps for year `y` from month `m` on lies in year `y`, between `m` and December, and not after today's month |
| Calendar.ComprehensionFrom | univ_report.py:78-80 | every month the comprehension keeps is a real month from year `y` through today's year, not after today's month |
| Calendar.YearPartIs | univ_report.py:78-80 | the comprehension keeps, within a year, the months from `m` through December, or through today's month in today's year |
| Calendar.ComprehensionIsLoop | univ_report.py:78-80 | the comprehension from year `y` lists the same months as the loop from `y` |
| Calendar.UnivMonthLabels | univ_report.py:78-80 | the university report's month labels equal the usage dashboard's generator started at 2025, for every today |
| PyStr.SplitOn | automation_streamlit.py:38 | `split("-")` gives at least one piece, the first being everything before the first `-`, and no piece contains `-` |
| PyStr.SplitTokensAreWords | univ_report.py:137 | every token of `split()` is non-empty and free of whitespace |
| PyStr.SplitKeepsText | univ_report.py:137 | the tokens of `split()` put together are exactly the non-whitespace characters of the text |
| PyStr.SplitWord | univ_report.py:137 | a non-empty run without whitespace is a single token |
| PyStr.SplitAtSpace | univ_report.py:137 | a whitespace character separates: the tokens of `a + c + b` are those of `a` then those of `b`; with the two rows above this fixes the tokens as the maximal runs |
| PySorted.Sort | automation_streamlit.py:85 | `sorted` returns an ascending permutation of its input |
| PySorted.SortedSet | automation_streamlit.py:38 | `sorted(set(...))` is strictly ascending and holds exactly the input's elements |
| Filters.YearOf | automation_streamlit.py:38 | the year part is a prefix of the label without `-`, and ends at the label's first `-` or at its end |
| Filters.YearLabels | automation_streamlit.py:38 | the year options are strictly ascending (so duplicate-free) and are exactly the year prefixes of the labels |
| Filters.YearOfLabel | automation_streamlit.py:38 | the year prefix of a label is the decimal year it was built from |
| Filters.YearOptions | automation_streamlit.py:37-38 | the year options are the years from the start year through today's, ascending, each once |
| Filters.KeepYears | automation_streamlit.py:44 | the kept labels are a subsequence of the labels holding every occurrence of each label whose year is chosen and nothing else |
| Filters.FilteredMonths | automation_streamlit.py:44 | with no year chosen all labels are offered; otherwise every occurrence of each label of a chosen year and nothing else; either way in the labels' order |
| Filters.SubsequenceIncreasing | automation_streamlit.py:44 | filtering a strictly ascending list keeps it strictly ascending |
| Filters.EffectiveMonths | automation_streamlit.py:48-49 | the chosen months if any, else all offered months; a choice among the offered months asks for nothing else |
| Filters.DefaultColumnsInOrder | automation_streamlit.py:44-49 | `sorted` leaves the offered months as they are, so with no month chosen the columns are the offered months in order |
| Frames.Table.WithRow | automation_streamlit.py:94-95 | `.loc[label] = series` replaces the row or appends it last, aligns values on the columns (`NaN` where missing), and changes no other row |
| Frames.Table.ReindexColumns | automation_streamlit.py:99 | the columns become exactly the given ones; kept columns keep their cells, new ones are `NaN` |
| Frames.Table.ReindexRows | univ_report.py:123 | the rows become exactly the given ones; kept rows keep their cells, new ones are `NaN` |
| Frames.Table.ColumnTotals | automation_streamlit.py:88-89 | `sum(axis=0)` has one total per column, the sum of that column over all rows |
| Frames.SumOverEmpty | automation_streamlit.py:88-89 | a column of `NaN` cells sums to 0 |
| Frames.Frame.SetRow | automation_streamlit.py:94-95 | the in-place row assignment leaves the frame equal to `WithRow` of its old value |
| Frames.Frame.ReindexColumns | automation_streamlit.py:99 | rebinding to the column reindex leaves the frame equal to `ReindexColumns` of its old value |
| Pivot.PivotCell | automation_streamlit.py:81-82 | a (service, month) pair with a row gets that row's value (`NULL` read as 0); a pair without one gets 0 |
| Pivot.PivotTable | automation_streamlit.py:81-82 | rows are the distinct services and columns the distinct months, each ascending; every cell of a service and month of the data holds the pivoted value |
| Pivot.SumWhereSingle | automation_streamlit.py:81-82 | with unique keys the data rows of one service and month sum to its pivoted cell |
| Pivot.PivotColumnTotal | automation_streamlit.py:88-89 | the total of a month over the pivoted rows equals the sum of that month's values over all data rows |
| UsageReport.ChangeRate | automation_streamlit.py:90-91 | `"-"` exactly when last year's total is 0; otherwise `p` with `p*prev = 100*(used-prev)`, negative iff usage fell, zero iff unchanged |
| UsageReport.RateRow | automation_streamlit.py:90-91 | one rate per month of the totals, each the `ChangeRate` of that month's totals |
| UsageReport.ReportRowsInOrder | automation_streamlit.py:94-95 | without name clashes the rows are the services ascending, then the total row, then the rate row |
| UsageReport.AppendedRowsCell | automation_streamlit.py:94-99 | after appending both rows and reindexing, a cell is the month's rate, its total, or the pivot's cell in a kept month with data, and `NaN` otherwise |
| UsageReport.ReportCellAt | automation_streamlit.py:78-99 | the pandas steps give, for every cell, what `ReportCell` states in terms of the query rows |
| UsageReport.BuildUsageReport | automation_streamlit.py:78-99 | the report's rows are `ReportIndex`, its columns the sorted selected months, and every cell is `ReportCell`: per-service value, 0 for a missing pair, month total, rate, `NaN` for a month without data |
| UsageReport.ServiceRowsSum | automation_streamlit.py:88-89 | the service rows of a report column add up to the data's values of that month over those services |
| UsageReport.TotalRowAddsUp | automation_streamlit.py:88-95 | the total row is computed before the synthetic rows exist: it equals the sum of the service rows above it |
| UsageReport.UsagePage | automation_streamlit.py:37-99 | year options drawn from the generated labels: the years from 2024 through today's, or none (and no months) when today's year is before 2024; month options as above; a query only for a non-empty ID with the button pressed, with the effective months; a warning and no table for an empty result; otherwise the report table |
| UnivReport.IsPrintMode | univ_report.py:14 | print mode holds iff the `print_mode` parameter is present and equals `"1"` |
| UnivReport.ReportId | univ_report.py:44-60 | a report is shown iff the ID (from the URL in print mode, from the search box otherwise) is non-empty and, outside print mode, the button was clicked |
| UnivReport.InstitutionName | univ_report.py:72 | the first row's name, or the ID when no row is returned; a `NULL` first name stays `None` and is not replaced by the ID |
| UnivReport.PrintUrl | univ_report.py:154-155 | before the link's first `?` stands the page's address, after it exactly the query `print_mode=1&b2b_id={id}` |
| UnivReport.PrintUrlRoundTrip | univ_report.py:154-155 | reading the print link's query back gives `print_mode` `"1"` and the same ID |
| UnivReport.PrintLinkOpensSameReport | univ_report.py:14-15 | opening the print link shows the report for the same ID, in print mode, whatever the search box holds |
| UnivReport.PrintLink | univ_report.py:151-155 | a print link is offered iff a report is shown outside print mode, and it is the link for the typed ID |
| UnivReport.TotalOf | univ_report.py:97-98 | a category's total is its row's value, 0 when it has no row or a `NULL` total |
| UnivReport.CumulativeMetrics | univ_report.py:94-98 | a warning for no rows; otherwise exactly three values in category order, each the category's total or 0; other services dropped |
| UnivReport.MonthlyPivot | univ_report.py:118-123 | a warning for no rows; otherwise rows are exactly the three categories, columns the data's months ascending, a category with data shows its value or 0, one without data shows `NaN` |
| UnivReport.CollectTokens | univ_report.py:135-137 | the loop's token list is the concatenation, question by question, of each question's `split()` |
| UnivReport.TokensAreWords | univ_report.py:135-137 | every token is non-empty and free of whitespace |
| UnivReport.TokensKeepText | univ_report.py:135-137 | the tokens put together are exactly the non-whitespace characters of the questions, in order |
| UnivReport.TokenCounts | univ_report.py:139 | `Counter`: a key per distinct token, mapped to its number of occurrences |
| UnivReport.CountsAddUp | univ_report.py:139 | the counts of the distinct tokens sum to the number of tokens |
| UnivReport.UnivPage | univ_report.py:59-155 | a report exactly when the gate opens, holding the name, the months from January 2025 through today's, the metrics, the monthly table, the word counts and the print link as stated above |

## Left out

- Credentials, the BigQuery client and the SQL text are left out. Query results are parameters of `UsagePage` and `UnivPage`.
- The `GROUP BY` and `IN UNNEST(@months)` filtering run inside the warehouse, so they are left out. Unique keys are a precondition.
- Streamlit widgets, layout, CSS, HTML, titles, headers and notices are left out. Only the decisions behind them are modelled: options, gate, warning or table, link.
- `st.query_params` reading is left out. The parameters arrive as a `QueryParams` value.
- The Excel export and the download button are output sinks, so they are left out.
- WordCloud and matplotlib rendering are graphics, so they are left out. The word counts they receive are modelled.
- `datetime.today()` is left out. `today` is a parameter limited to what a `datetime` can hold.
- UsageReport.ChangeRate: the rate is the exact real number, not a rounded float. The float division, `round(x, 1)` and the `"x.y%"` rendering are not modelled.
- UnivReport.MonthlyPivot: `round(0)` and `astype(int)` are not modelled. Query values are whole numbers (`nat`).
- The `astype(int)` casts in the usage dashboard are not modelled, because counts are already whole numbers. The column dtype change when the rate row is stored is not modelled either.
- pandas raises on duplicate pivot or reindex keys. This error is not modelled; unique keys are a precondition of `BuildUsageReport`, `MonthlyPivot` and `CumulativeMetrics`.
- `pivot_used.index.name` only renames the index, so it is not modelled.
- UnivReport.PrintUrlRoundTrip: the query parser splits on `&` and `=` without percent-decoding. IDs containing `&` are excluded, and decoding of `%`, `+` and `#` is not modelled. The page inserts the ID into the link without URL-encoding it (univ_report.py:155), so a browser would read such an ID back differently: on a real page the round trip holds only for IDs free of these characters.
- The title's rendering of a `NULL` institution name as the text `None` is not modelled: titles are left out, and the name is kept as an `Option`.
- Python string order is modelled by code point, which matches Python's `str` comparison. Labels, years and IDs in the model are plain strings of code points.

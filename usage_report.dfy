/**
 * The usage dashboard: month options, the query request, and the report
 * table of used counts per service and month with a total row and a
 * year-over-year rate row.
 */
module UsageReport {
  import opened Wrappers
  import opened PySorted
  import opened Calendar
  import opened Filters
  import opened Frames
  import opened Pivot

  /** The first year the dashboard offers. */
  const DashboardStartYear := 2024

  /** The label of the appended total row. */
  const TotalLabel := "서비스 전체"

  /** The label of the appended year-over-year row. */
  const RateLabel := "전년대비"

  /** One row of the usage query: service, month label, used count and last year's count (`None` for `NULL`). */
  datatype UsageRow = UsageRow(service: string, month: string, used: Option<nat>, prevUsed: Option<nat>)

  /** At most one row per (service, month), as `GROUP BY service_type, month_label` guarantees. */
  predicate UniqueRows(rows: seq<UsageRow>) {
    forall i, j :: 0 <= i < j < |rows| ==> rows[i].service != rows[j].service || rows[i].month != rows[j].month
  }

  /** The `used` column with its keys. */
  function UsedRecords(rows: seq<UsageRow>): (r: seq<Record>)
    ensures |r| == |rows|
    ensures forall i :: 0 <= i < |rows| ==> r[i] == Record(rows[i].service, rows[i].month, rows[i].used)
  {
    seq(|rows|, i requires 0 <= i < |rows| => Record(rows[i].service, rows[i].month, rows[i].used))
  }

  /** The `prev_used` column with its keys. */
  function PrevRecords(rows: seq<UsageRow>): (r: seq<Record>)
    ensures |r| == |rows|
    ensures forall i :: 0 <= i < |rows| ==> r[i] == Record(rows[i].service, rows[i].month, rows[i].prevUsed)
  {
    seq(|rows|, i requires 0 <= i < |rows| => Record(rows[i].service, rows[i].month, rows[i].prevUsed))
  }

  /**
   * The year-over-year change of a month's total, `(used / prev - 1) * 100`
   * as an exact number: `"-"` exactly when last year's total is 0 (no
   * division happens), otherwise a percentage `p` with `p * prev = 100 *
   * (used - prev)`, negative exactly when usage fell and zero exactly when
   * it stayed the same.
   */
  function ChangeRate(used: nat, prev: nat): (r: Rate)
    ensures r == Dash <==> prev == 0
    ensures r.Percent? ==> r.value * prev as real == 100.0 * (used as real - prev as real)
    ensures r.Percent? ==> (r.value < 0.0 <==> used < prev) && (r.value == 0.0 <==> used == prev)
  {
    if prev == 0 then Dash
    else
      var p := (used as real / prev as real - 1.0) * 100.0;
      assert p * prev as real == 100.0 * (used as real - prev as real);
      Percent(p)
  }

  /** A row of counts, keyed by column. */
  function CountRow(totals: map<string, nat>): (r: map<string, Cell>)
    ensures forall c :: c in r <==> c in totals
    ensures forall c :: c in r ==> r[c] == Count(totals[c])
  {
    map c | c in totals :: Count(totals[c])
  }

  /** `change_rate`: the rate of each month of `used` against `prev` (0 where `prev` lacks the month). */
  function RateRow(used: map<string, nat>, prev: map<string, nat>): (r: map<string, Cell>)
    ensures forall c :: c in r <==> c in used
    ensures forall c :: c in r ==> r[c] == RateCell(ChangeRate(used[c], if c in prev then prev[c] else 0))
  {
    map c | c in used :: RateCell(ChangeRate(used[c], if c in prev then prev[c] else 0))
  }

  /**
   * The rows of the finished report: the services in ascending order, then
   * the total row, then the rate row. A service that already bears one of
   * those two names is overwritten in place rather than appended.
   */
  function ReportIndex(rows: seq<UsageRow>): seq<string> {
    var services := SortedSet(ServiceKeys(UsedRecords(rows)));
    var withTotal := if TotalLabel in services then services else services + [TotalLabel];
    if RateLabel in withTotal then withTotal else withTotal + [RateLabel]
  }

  /** When no service bears the name of a synthetic row, those two rows come last, total first. */
  lemma ReportRowsInOrder(rows: seq<UsageRow>)
    requires TotalLabel !in ServiceKeys(UsedRecords(rows)) && RateLabel !in ServiceKeys(UsedRecords(rows))
    ensures ReportIndex(rows) == SortedSet(ServiceKeys(UsedRecords(rows))) + [TotalLabel, RateLabel]
  {
    var services := SortedSet(ServiceKeys(UsedRecords(rows)));
    assert RateLabel !in services + [TotalLabel];
  }

  /**
   * What the finished report shows in row `r`, column `c`, stated on the
   * query rows: nothing for a column that was not selected or has no data
   * at all; in the rate row the change between the month's used and
   * last-year totals; in the total row the sum of the month's used counts
   * over every service; in a service's row its used count for the month,
   * 0 when it has none.
   */
  function ReportCell(rows: seq<UsageRow>, months: seq<string>, r: string, c: string): Cell {
    var used := UsedRecords(rows);
    if c !in months || c !in MonthKeys(used) then Empty
    else if r == RateLabel then RateCell(ChangeRate(MonthSum(used, c), MonthSum(PrevRecords(rows), c)))
    else if r == TotalLabel then Count(MonthSum(used, c))
    else if r in ServiceKeys(used) then Count(PivotCell(used, r, c))
    else Empty
  }

  lemma SameKeys(rows: seq<UsageRow>)
    requires UniqueRows(rows)
    ensures MonthKeys(PrevRecords(rows)) == MonthKeys(UsedRecords(rows))
    ensures ServiceKeys(PrevRecords(rows)) == ServiceKeys(UsedRecords(rows))
    ensures UniqueKeys(UsedRecords(rows)) && UniqueKeys(PrevRecords(rows))
  {
  }

  /**
   * Builds the report table: pivot the used counts, take both pivots'
   * column totals, append the total row and the rate row, and reindex the
   * columns to the selected months in ascending order. Every cell is what
   * `ReportCell` says.
   */
  method BuildUsageReport(rows: seq<UsageRow>, selectedMonths: seq<string>) returns (report: Table)
    requires UniqueRows(rows)
    ensures report.index == ReportIndex(rows)
    ensures report.columns == Sort(selectedMonths)
    ensures forall r, c :: report.At(r, c) == ReportCell(rows, selectedMonths, r, c)
  {
    SameKeys(rows);
    var pivotUsed := new Frame(PivotTable(UsedRecords(rows)));
    var pivotPrev := PivotTable(PrevRecords(rows));
    var totalUsed := pivotUsed.Snapshot().ColumnTotals();
    var totalPrev := pivotPrev.ColumnTotals();
    var changeRate := RateRow(totalUsed, totalPrev);
    pivotUsed.SetRow(TotalLabel, CountRow(totalUsed));
    pivotUsed.SetRow(RateLabel, changeRate);
    pivotUsed.ReindexColumns(Sort(selectedMonths));
    report := pivotUsed.Snapshot();
    forall r, c ensures report.At(r, c) == ReportCell(rows, selectedMonths, r, c) {
      ReportCellAt(rows, selectedMonths, r, c);
    }
  }

  /**
   * Appending the total and rate rows to any table and then reindexing its
   * columns: a cell of a kept column is the month's rate, the month's
   * total, or the table's own cell; any other cell is `Empty`.
   */
  lemma AppendedRowsCell(t: Table, totalUsed: map<string, nat>, totalPrev: map<string, nat>, months: seq<string>, r: string, c: string)
    requires forall m :: m in totalUsed <==> m in t.columns
    ensures var t' := t.WithRow(TotalLabel, CountRow(totalUsed)).WithRow(RateLabel, RateRow(totalUsed, totalPrev));
      t'.ReindexColumns(Sort(months)).At(r, c) ==
        if c !in months || c !in t.columns then Empty
        else if r == RateLabel then RateCell(ChangeRate(totalUsed[c], if c in totalPrev then totalPrev[c] else 0))
        else if r == TotalLabel then Count(totalUsed[c])
        else t.At(r, c)
  {
  }

  /** The pandas steps of `BuildUsageReport`, followed for one cell, give what `ReportCell` says. */
  lemma ReportCellAt(rows: seq<UsageRow>, months: seq<string>, r: string, c: string)
    requires UniqueRows(rows)
    ensures var pivotUsed := PivotTable(UsedRecords(rows));
      var totalUsed := pivotUsed.ColumnTotals();
      var totalPrev := PivotTable(PrevRecords(rows)).ColumnTotals();
      var t := pivotUsed.WithRow(TotalLabel, CountRow(totalUsed)).WithRow(RateLabel, RateRow(totalUsed, totalPrev));
      t.ReindexColumns(Sort(months)).At(r, c) == ReportCell(rows, months, r, c)
  {
    SameKeys(rows);
    var used, prev := UsedRecords(rows), PrevRecords(rows);
    var pivotUsed := PivotTable(used);
    var totalUsed := pivotUsed.ColumnTotals();
    var totalPrev := PivotTable(prev).ColumnTotals();
    AppendedRowsCell(pivotUsed, totalUsed, totalPrev, months, r, c);
    if c in months && c in MonthKeys(used) {
      PivotColumnTotal(used, c);
      PivotColumnTotal(prev, c);
    }
  }

  /**
   * In any table holding the report's cells, the summed service rows of a
   * column agree with the `SumWhere` of the data over those services.
   */
  lemma {:induction false} ServiceRowsSum(rows: seq<UsageRow>, months: seq<string>, t: Table, keys: seq<string>, c: string)
    requires UniqueRows(rows) && NoDups(keys)
    requires forall r, m :: t.At(r, m) == ReportCell(rows, months, r, m)
    requires forall k :: k in keys ==> k in ServiceKeys(UsedRecords(rows)) && k != TotalLabel && k != RateLabel
    ensures t.SumOver(keys, c) ==
      if c in months && c in MonthKeys(UsedRecords(rows)) then SumWhere(UsedRecords(rows), c, keys) else 0
  {
    var used := UsedRecords(rows);
    SameKeys(rows);
    if keys == [] {
      SumWhereEmpty(used, c);
    } else {
      var k := keys[0];
      assert k in keys;
      assert forall x :: x in keys[1..] ==> x in keys;
      assert NoDups(keys[1..]);
      ServiceRowsSum(rows, months, t, keys[1..], c);
      SumWhereSingle(used, c, k);
      SumWhereSplit(used, c, k, keys[1..]);
      assert keys == [k] + keys[1..];
    }
  }

  /**
   * The synthetic rows never count themselves: when no service bears their
   * names, the total row of the report is, column by column, the sum of the
   * service rows above it.
   */
  lemma TotalRowAddsUp(rows: seq<UsageRow>, months: seq<string>, t: Table, c: string)
    requires UniqueRows(rows)
    requires TotalLabel !in ServiceKeys(UsedRecords(rows)) && RateLabel !in ServiceKeys(UsedRecords(rows))
    requires forall r, m :: t.At(r, m) == ReportCell(rows, months, r, m)
    ensures t.SumOver(SortedSet(ServiceKeys(UsedRecords(rows))), c) == CountOf(t.At(TotalLabel, c))
  {
    var used := UsedRecords(rows);
    var services := SortedSet(ServiceKeys(used));
    IncreasingNoDups(services);
    ServiceRowsSum(rows, months, t, services, c);
    SumWhereAll(used, c, services);
  }

  /** What the page shows below the filters. */
  datatype Screen = Idle | NoDataWarning | Shown(table: Table)

  /** The parameters the usage query is sent with. */
  datatype Request = Request(b2bId: string, months: seq<string>)

  /**
   * One run of the usage dashboard. `today` is the clock reading; the
   * chosen years and months, the typed ID and the button are the widget
   * values; `rows` is what the query returns for the request. The year and
   * month options, the request (if any) and the screen are its outcome:
   * the query runs only for a non-empty ID with the button pressed, an
   * empty result shows a warning and no table, and otherwise the report
   * table is shown.
   */
  method UsagePage(today: Today, selectedYears: seq<string>, pickedMonths: seq<string>,
                   b2bId: string, searchPressed: bool, rows: seq<UsageRow>)
    returns (yearOptions: seq<string>, monthOptions: seq<string>, request: Option<Request>, screen: Screen)
    requires ValidToday(today) && UniqueRows(rows)
    ensures yearOptions == YearLabels(MonthLabels(DashboardStartYear, today))
    ensures DashboardStartYear <= today.year ==> yearOptions == YearRange(DashboardStartYear, today.year)
    ensures today.year < DashboardStartYear ==> yearOptions == [] && monthOptions == []
    ensures monthOptions == FilteredMonths(MonthLabels(DashboardStartYear, today), selectedYears)
    ensures request.Some? <==> b2bId != "" && searchPressed
    ensures request.Some? ==> request.value == Request(b2bId, EffectiveMonths(pickedMonths, monthOptions))
    ensures request.None? ==> screen == Idle
    ensures request.Some? ==> (screen == NoDataWarning <==> rows == [])
    ensures request.Some? && rows != [] ==> screen.Shown?
    ensures screen.Shown? ==> request.Some? && var months := request.value.months;
      && screen.table.index == ReportIndex(rows)
      && screen.table.columns == Sort(months)
      && (forall r, c :: screen.table.At(r, c) == ReportCell(rows, months, r, c))
    ensures screen.Shown? && pickedMonths == [] ==> screen.table.columns == monthOptions
  {
    var monthLabels := GenerateMonthLabels(DashboardStartYear, today);
    yearOptions := YearLabels(monthLabels);
    monthOptions := FilteredMonths(monthLabels, selectedYears);
    if DashboardStartYear <= today.year {
      YearOptions(DashboardStartYear, today);
    } else {
      MonthsRange(DashboardStartYear, today);
      FirstIsMember(yearOptions);
      FirstIsMember(monthOptions);
    }
    var selectedMonths := EffectiveMonths(pickedMonths, monthOptions);
    if b2bId != "" && searchPressed {
      request := Some(Request(b2bId, selectedMonths));
      if rows == [] {
        screen := NoDataWarning;
      } else {
        var table := BuildUsageReport(rows, selectedMonths);
        screen := Shown(table);
        DefaultColumnsInOrder(DashboardStartYear, today, selectedYears);
      }
    } else {
      request := None;
      screen := Idle;
    }
  }
}

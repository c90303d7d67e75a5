/**
 * The ordered `YYYY-MM` month labels offered as report columns: the loop of
 * `generate_month_labels` in the usage dashboard and the list comprehension
 * of the university report, with the clock reading injected as `Today`.
 */
module Calendar {
  import opened PyStr
  import opened PySorted

  /** The year and month that `datetime.today()` returned. */
  datatype Today = Today(year: int, month: int)

  /** What a `datetime` guarantees: a year in 1..9999 and a month in 1..12. */
  predicate ValidToday(t: Today) {
    1 <= t.year <= 9999 && 1 <= t.month <= 12
  }

  datatype YearMonth = YM(year: int, month: nat)

  /** `f"{year}-{month:02}"` */
  function Label(ym: YearMonth): (r: string)
    ensures 0 <= ym.year ==> SplitOn(r, '-') == [Decimal(ym.year), ZeroPad2(ym.month)]
  {
    var year, month := IntStr(ym.year), ZeroPad2(ym.month);
    if 0 <= ym.year then
      assert '-' !in year;
      assert '-' !in month;
      SplitOnAt(year, '-', month);
      SplitFirstPrefix(month, '-', []);
      assert month + [] == month;
      year + "-" + month
    else year + "-" + month
  }

  /** The labels of a list of months, in the same order. */
  function Labels(ms: seq<YearMonth>): (r: seq<string>)
    ensures |r| == |ms|
  {
    seq(|ms|, i requires 0 <= i < |ms| => Label(ms[i]))
  }

  lemma LabelsAppend(a: seq<YearMonth>, b: seq<YearMonth>)
    ensures Labels(a + b) == Labels(a) + Labels(b)
  {
    var l, r := Labels(a + b), Labels(a) + Labels(b);
    forall i | 0 <= i < |l| ensures l[i] == r[i] {
      if i < |a| {
        assert l[i] == Label(a[i]) == r[i];
      } else {
        assert l[i] == Label(b[i - |a|]) == r[i];
      }
    }
  }

  /** The calendar month after `ym`. */
  function Next(ym: YearMonth): YearMonth {
    if ym.month == 12 then YM(ym.year + 1, 1) else YM(ym.year, ym.month + 1)
  }

  /** Chronological order of months. */
  predicate Before(a: YearMonth, b: YearMonth) {
    a.year < b.year || (a.year == b.year && a.month < b.month)
  }

  /** The `k`-th month counted from January of `start`: January, then one `Next` after another. */
  function MonthAt(start: int, k: nat): YearMonth {
    if k == 0 then YM(start, 1) else Next(MonthAt(start, k - 1))
  }

  /** The first `n` months counted from January of `start`. */
  function MonthsFrom(start: int, n: nat): (r: seq<YearMonth>)
    ensures |r| == n
  {
    seq(n, k requires 0 <= k => MonthAt(start, k))
  }

  /** The number of months from January of `start` through today's month. */
  function MonthCount(start: int, today: Today): nat
    requires ValidToday(today)
  {
    if start <= today.year then 12 * (today.year - start) + today.month else 0
  }

  /** The labels of the months from January of `start` through today's month, in order. */
  function MonthLabels(start: int, today: Today): seq<string>
    requires ValidToday(today)
  {
    Labels(MonthsFrom(start, MonthCount(start, today)))
  }

  /** Counting `k` months on from January of `start` lands in year `start + k / 12`, month `k % 12 + 1`. */
  lemma {:induction false} MonthAtClosedForm(start: int, k: nat)
    ensures MonthAt(start, k) == YM(start + k / 12, k % 12 + 1)
  {
    if k > 0 {
      MonthAtClosedForm(start, k - 1);
      var q, r := (k - 1) / 12, (k - 1) % 12;
      assert k == 12 * q + r + 1;
      if r == 11 {
        assert k / 12 == q + 1 && k % 12 == 0;
      } else {
        assert k / 12 == q && k % 12 == r + 1;
      }
    }
  }

  lemma DivMod12(q: int, r: int)
    requires 0 <= r < 12
    ensures (12 * q + r) / 12 == q && (12 * q + r) % 12 == r
  {
  }

  /** Month `month` of year `year` is the `12 * (year - start) + month - 1`-th month counted from `start`. */
  lemma MonthAtStep(start: int, year: int, month: int)
    requires start <= year && 1 <= month <= 12
    ensures MonthAt(start, 12 * (year - start) + month - 1) == YM(year, month)
  {
    MonthAtClosedForm(start, 12 * (year - start) + month - 1);
    DivMod12(year - start, month - 1);
  }

  /** Appending month `month` of `year` extends the labels counted from `start` by one. */
  lemma LabelsStep(start: int, year: int, month: int, labels: seq<string>)
    requires start <= year && 1 <= month <= 12
    requires |labels| == 12 * (year - start) + month - 1 && labels == Labels(MonthsFrom(start, |labels|))
    ensures labels + [Label(YM(year, month))] == Labels(MonthsFrom(start, |labels| + 1))
  {
    var n := |labels|;
    MonthAtStep(start, year, month);
    assert MonthsFrom(start, n + 1) == MonthsFrom(start, n) + [YM(year, month)];
    LabelsAppend(MonthsFrom(start, n), [YM(year, month)]);
  }

  /**
   * `generate_month_labels(start_year)`: for each year from `start` through
   * today's year, the months 1..12 (1..today's month in the current year).
   */
  method GenerateMonthLabels(startYear: int, today: Today) returns (labels: seq<string>)
    requires ValidToday(today)
    ensures labels == MonthLabels(startYear, today)
  {
    labels := [];
    var year := startYear;
    while year < today.year + 1
      invariant year == startYear || startYear < year <= today.year + 1
      invariant year <= today.year ==> |labels| == 12 * (year - startYear)
      invariant year > today.year ==> |labels| == MonthCount(startYear, today)
      invariant labels == Labels(MonthsFrom(startYear, |labels|))
    {
      var endMonth := if year < today.year then 12 else today.month;
      var month := 1;
      while month < endMonth + 1
        invariant 1 <= month <= endMonth + 1
        invariant |labels| == 12 * (year - startYear) + month - 1
        invariant labels == Labels(MonthsFrom(startYear, |labels|))
      {
        LabelsStep(startYear, year, month, labels);
        labels := labels + [Label(YM(year, month))];
        month := month + 1;
      }
      year := year + 1;
    }
  }

  /** Months further along the count are strictly later. */
  lemma {:induction false} MonthAtOrder(start: int, i: nat, j: nat)
    requires i < j
    ensures Before(MonthAt(start, i), MonthAt(start, j))
  {
    MonthAtClosedForm(start, j - 1);
    if i < j - 1 {
      MonthAtOrder(start, i, j - 1);
    }
  }

  /** Every counted month up to today's is a real month, not before `start`, not after today. */
  lemma MonthAtNotAfterToday(start: int, today: Today, k: nat)
    requires ValidToday(today) && k < MonthCount(start, today)
    ensures var ym := MonthAt(start, k);
      1 <= ym.month <= 12 && start <= ym.year && !Before(YM(today.year, today.month), ym)
  {
    MonthAtClosedForm(start, k);
    DivMod12(today.year - start, today.month - 1);
  }

  /**
   * The months run from January of `start` to today's month: there are
   * `12 * (today.year - start) + today.month` of them when `start` is not
   * after today's year and none otherwise, and each is a real month, not
   * before `start` and not after today's.
   */
  lemma MonthsRange(start: int, today: Today)
    requires ValidToday(today)
    ensures var ms := MonthsFrom(start, MonthCount(start, today));
      && (start <= today.year ==> |ms| == 12 * (today.year - start) + today.month)
      && (start > today.year ==> ms == [])
      && (start <= today.year ==> ms[0] == YM(start, 1) && ms[|ms| - 1] == YM(today.year, today.month))
      && (forall k :: 0 <= k < |ms| ==>
            1 <= ms[k].month <= 12 && start <= ms[k].year && !Before(YM(today.year, today.month), ms[k]))
  {
    var ms := MonthsFrom(start, MonthCount(start, today));
    if start <= today.year {
      MonthAtStep(start, today.year, today.month);
    }
    forall k | 0 <= k < |ms|
      ensures 1 <= ms[k].month <= 12 && start <= ms[k].year && !Before(YM(today.year, today.month), ms[k])
    {
      MonthAtNotAfterToday(start, today, k);
    }
  }

  /** A label of a four-digit year has the shape `DDDD-DD`. */
  lemma LabelShape(ym: YearMonth)
    requires 1000 <= ym.year <= 9999 && 1 <= ym.month <= 12
    ensures Label(ym) == Digits(ym.year, 4) + "-" + Digits(ym.month, 2)
    ensures |Label(ym)| == 7 && Label(ym)[4] == '-'
    ensures forall i :: 0 <= i < 7 && i != 4 ==> IsDigit(Label(ym)[i])
  {
    Pow10Small();
    DecimalIsFixedWidth(ym.year, 4);
    ZeroPad2IsTwoDigits(ym.month);
    var l := Label(ym);
    forall i | 0 <= i < 7 && i != 4 ensures IsDigit(l[i]) {
      if i < 4 {
        assert l[i] == Digits(ym.year, 4)[i];
      } else {
        assert l[i] == Digits(ym.month, 2)[i - 5];
      }
    }
  }

  /** For four-digit years, string order of labels is chronological order, and labels are distinct. */
  lemma LabelOrder(a: YearMonth, b: YearMonth)
    requires 1000 <= a.year <= 9999 && 1 <= a.month <= 12
    requires 1000 <= b.year <= 9999 && 1 <= b.month <= 12
    ensures Less(Label(a), Label(b)) <==> Before(a, b)
    ensures Label(a) == Label(b) <==> a == b
  {
    Pow10Small();
    LabelShape(a);
    LabelShape(b);
    var ya, yb := Digits(a.year, 4), Digits(b.year, 4);
    var ma, mb := Digits(a.month, 2), Digits(b.month, 2);
    DigitsOrder(a.year, b.year, 4);
    DigitsOrder(a.month, b.month, 2);
    LessAppend(ya + "-", ma, yb + "-", mb);
    LessAppend(ya, "-", yb, "-");
    LessIrreflexive("-");
    if ya + "-" == yb + "-" {
      assert ya == (ya + "-")[..4] && yb == (yb + "-")[..4];
    }
    if Label(a) == Label(b) {
      assert ya == Label(a)[..4] && yb == Label(b)[..4];
      assert ma == Label(a)[5..] && mb == Label(b)[5..];
    }
  }

  /**
   * From a four-digit start year, the labels are strictly ascending as
   * strings, so `sorted` keeps them in chronological order.
   */
  lemma MonthLabelsIncreasing(start: int, today: Today)
    requires ValidToday(today) && 1000 <= start
    ensures Increasing(MonthLabels(start, today))
  {
    var ms := MonthsFrom(start, MonthCount(start, today));
    var l := MonthLabels(start, today);
    MonthsRange(start, today);
    forall i, j | 0 <= i < j < |l| ensures Less(l[i], l[j]) {
      MonthAtOrder(start, i, j);
      LabelOrder(ms[i], ms[j]);
    }
  }

  // ---------------------------------------------------------------------
  // The university report's comprehension

  /** The first year of the university report. */
  const ReportStartYear := 2025

  /**
   * The months `(y, m)` for `m in range(m, 13)` that the comprehension keeps:
   * those not after today's month.
   */
  function YearPart(y: int, m: nat, today: Today): (r: seq<YearMonth>)
    ensures forall i :: 0 <= i < |r| ==>
      r[i].year == y && m <= r[i].month <= 12 && !(y == today.year && r[i].month > today.month)
    decreases 13 - m
  {
    if m > 12 then []
    else (if y == today.year && m > today.month then [] else [YM(y, m)]) + YearPart(y, m + 1, today)
  }

  /** The months of the comprehension over `range(y, today.year + 1)`. */
  function ComprehensionFrom(y: int, today: Today): (r: seq<YearMonth>)
    ensures forall i :: 0 <= i < |r| ==>
      y <= r[i].year <= today.year && 1 <= r[i].month <= 12 && !(r[i].year == today.year && r[i].month > today.month)
    decreases today.year + 1 - y
  {
    if y > today.year then []
    else
      YearPart(y, 1, today) + ComprehensionFrom(y + 1, today)
  }

  /**
   * The month labels of the university report: `f"{y}-{m:02}"` of each kept
   * month. They are exactly what `generate_month_labels(2025)` of the usage
   * dashboard yields, for every today.
   */
  function UnivMonthLabels(today: Today): (r: seq<string>)
    requires ValidToday(today)
    ensures r == MonthLabels(ReportStartYear, today)
  {
    ComprehensionIsLoop(ReportStartYear, today);
    Labels(ComprehensionFrom(ReportStartYear, today))
  }

  /** The last month of year `y` that the labels reach. */
  function LastMonth(y: int, today: Today): nat
    requires ValidToday(today)
  {
    if y == today.year then today.month else 12
  }

  /** Months `m`, `m + 1`, ... of year `y`, `n` of them. */
  function MonthRun(y: int, m: nat, n: nat): (r: seq<YearMonth>)
    ensures |r| == n
  {
    seq(n, i requires 0 <= i => YM(y, m + i))
  }

  /** The comprehension's part for year `y` from month `m` on: months `m..last`. */
  lemma {:induction false} YearPartIs(y: int, m: nat, today: Today)
    requires ValidToday(today) && y <= today.year && 1 <= m
    ensures YearPart(y, m, today) == MonthRun(y, m, if m <= LastMonth(y, today) then LastMonth(y, today) - m + 1 else 0)
    decreases 13 - m
  {
    var last := LastMonth(y, today);
    if m <= 12 {
      YearPartIs(y, m + 1, today);
      if m <= last {
        var n := last - m + 1;
        assert MonthRun(y, m, n) == [YM(y, m)] + MonthRun(y, m + 1, n - 1);
      }
    }
  }

  /** Within the first year counted from `y`, the `i`-th month is month `i + 1` of `y`. */
  lemma MonthAtFirstYear(y: int, i: nat)
    requires i < 12
    ensures MonthAt(y, i) == YM(y, i + 1)
  {
    MonthAtClosedForm(y, i);
  }

  /** Twelve months on from January of `y` is January of `y + 1`. */
  lemma MonthAtNextYear(y: int, j: nat)
    ensures MonthAt(y, 12 + j) == MonthAt(y + 1, j)
  {
    MonthAtClosedForm(y, 12 + j);
    MonthAtClosedForm(y + 1, j);
    DivMod12(1 + j / 12, j % 12);
    assert 12 + j == 12 * (1 + j / 12) + j % 12;
  }

  /** The months from `y` are the months of year `y` followed by the months from `y + 1`. */
  lemma MonthsUnfold(y: int, today: Today)
    requires ValidToday(today) && y <= today.year
    ensures MonthsFrom(y, MonthCount(y, today)) == MonthRun(y, 1, LastMonth(y, today)) + MonthsFrom(y + 1, MonthCount(y + 1, today))
  {
    var e := LastMonth(y, today);
    var whole := MonthsFrom(y, MonthCount(y, today));
    var head := MonthRun(y, 1, e);
    var tail := MonthsFrom(y + 1, MonthCount(y + 1, today));
    assert |whole| == e + |tail|;
    forall i | 0 <= i < |whole| ensures whole[i] == (head + tail)[i] {
      if i < e {
        MonthAtFirstYear(y, i);
      } else {
        MonthAtNextYear(y, i - 12);
      }
    }
  }

  /** The comprehension from year `y` lists the same months as the loop from `y`. */
  lemma {:induction false} ComprehensionIsLoop(y: int, today: Today)
    requires ValidToday(today)
    ensures ComprehensionFrom(y, today) == MonthsFrom(y, MonthCount(y, today))
    decreases today.year + 1 - y
  {
    if y <= today.year {
      ComprehensionIsLoop(y + 1, today);
      ComprehensionStep(y, today);
    } else {
      ComprehensionPast(y, today);
    }
  }

  /** Past today's year both lists are empty. */
  lemma ComprehensionPast(y: int, today: Today)
    requires ValidToday(today) && today.year < y
    ensures ComprehensionFrom(y, today) == MonthsFrom(y, MonthCount(y, today))
  {
    assert MonthCount(y, today) == 0;
  }

  /** One year of the comprehension matches one year of the loop. */
  lemma ComprehensionStep(y: int, today: Today)
    requires ValidToday(today) && y <= today.year
    requires ComprehensionFrom(y + 1, today) == MonthsFrom(y + 1, MonthCount(y + 1, today))
    ensures ComprehensionFrom(y, today) == MonthsFrom(y, MonthCount(y, today))
  {
    YearPartIs(y, 1, today);
    MonthsUnfold(y, today);
  }
}

/**
 * The year and month filters of the usage dashboard: the year options drawn
 * from the month labels, the months kept by the chosen years, and the
 * fallback to all of them when no month is chosen.
 */
module Filters {
  import opened PyStr
  import opened PySorted
  import opened Calendar

  /** `label.split("-")[0]` */
  function YearOf(monthLabel: string): (r: string)
    ensures r <= monthLabel && '-' !in r
    ensures |r| < |monthLabel| ==> monthLabel[|r|] == '-'
  {
    SplitOn(monthLabel, '-')[0]
  }

  /** The year prefix of each label, in order. */
  function YearsOf(labels: seq<string>): (r: seq<string>)
    ensures |r| == |labels|
  {
    seq(|labels|, i requires 0 <= i < |labels| => YearOf(labels[i]))
  }

  /**
   * `sorted(set(label.split("-")[0] for label in labels))`: strictly
   * ascending, so without duplicates, and holding exactly the year prefixes
   * that occur in `labels`.
   */
  function YearLabels(labels: seq<string>): (r: seq<string>)
    ensures Increasing(r) && NoDups(r)
    ensures forall y :: y in r <==> exists l :: l in labels && YearOf(l) == y
  {
    var years := YearsOf(labels);
    var r := SortedSet(years);
    IncreasingNoDups(r);
    forall y ensures y in years <==> exists l :: l in labels && YearOf(l) == y {
      if y in years {
        var i :| 0 <= i < |years| && years[i] == y;
        assert labels[i] in labels;
      }
      if l :| l in labels && YearOf(l) == y {
        var i :| 0 <= i < |labels| && labels[i] == l;
        assert years[i] == y;
      }
    }
    r
  }

  /** `a` is `b` with some elements left out and the others kept in their order. */
  predicate IsSubsequence(a: seq<string>, b: seq<string>)
    decreases |b|
  {
    if a == [] then true
    else if b == [] then false
    else if a[0] == b[0] then IsSubsequence(a[1..], b[1..])
    else IsSubsequence(a, b[1..])
  }

  lemma {:induction false} SubsequenceOfItself(a: seq<string>)
    ensures IsSubsequence(a, a)
  {
    if a != [] {
      SubsequenceOfItself(a[1..]);
    }
  }

  lemma {:induction false} SubsequenceMembers(a: seq<string>, b: seq<string>)
    requires IsSubsequence(a, b)
    ensures forall x :: x in a ==> x in b
    decreases |b|
  {
    if a != [] {
      if a[0] == b[0] {
        SubsequenceMembers(a[1..], b[1..]);
        assert a == [a[0]] + a[1..];
      } else {
        SubsequenceMembers(a, b[1..]);
      }
    }
  }

  /** Leaving elements out of a strictly ascending list keeps it strictly ascending. */
  lemma {:induction false} SubsequenceIncreasing(a: seq<string>, b: seq<string>)
    requires IsSubsequence(a, b) && Increasing(b)
    ensures Increasing(a)
    decreases |b|
  {
    if a != [] {
      if a[0] == b[0] {
        SubsequenceIncreasing(a[1..], b[1..]);
        SubsequenceMembers(a[1..], b[1..]);
        forall j | 1 <= j < |a| ensures Less(a[0], a[j]) {
          assert a[j] in a[1..];
          var k :| 0 <= k < |b[1..]| && b[1..][k] == a[j];
          assert b[k + 1] == a[j];
        }
      } else {
        SubsequenceIncreasing(a, b[1..]);
      }
    }
  }

  /** The labels whose year prefix is one of `years`, in their original order. */
  function KeepYears(labels: seq<string>, years: seq<string>): (r: seq<string>)
    ensures forall m :: m in r <==> m in labels && YearOf(m) in years
    ensures forall m :: multiset(r)[m] == if YearOf(m) in years then multiset(labels)[m] else 0
    ensures IsSubsequence(r, labels)
  {
    if labels == [] then []
    else
      var rest := KeepYears(labels[1..], years);
      assert labels == [labels[0]] + labels[1..];
      assert multiset(labels) == multiset{labels[0]} + multiset(labels[1..]);
      if YearOf(labels[0]) in years then [labels[0]] + rest
      else rest
  }

  /**
   * `[m for m in labels if m.split("-")[0] in years] if years else labels`:
   * all labels when no year is chosen, otherwise exactly those whose year is
   * chosen, in both cases keeping the order of `labels`.
   */
  function FilteredMonths(labels: seq<string>, years: seq<string>): (r: seq<string>)
    ensures years == [] ==> r == labels
    ensures years != [] ==> forall m :: m in r <==> m in labels && YearOf(m) in years
    ensures years != [] ==> forall m :: multiset(r)[m] == if YearOf(m) in years then multiset(labels)[m] else 0
    ensures IsSubsequence(r, labels)
  {
    if years == [] then
      SubsequenceOfItself(labels);
      labels
    else KeepYears(labels, years)
  }

  /**
   * The months the query asks for: the user's choice, or all the offered
   * months when nothing is chosen. A choice made among the offered months
   * never asks for more than they hold.
   */
  function EffectiveMonths(selected: seq<string>, filtered: seq<string>): (r: seq<string>)
    ensures selected != [] ==> r == selected
    ensures selected == [] ==> r == filtered
    ensures (forall m :: m in selected ==> m in filtered) ==> forall m :: m in r ==> m in filtered
  {
    if selected == [] then filtered else selected
  }

  /** The year prefix of a label is the year it was made from. */
  lemma YearOfLabel(ym: YearMonth)
    requires 0 <= ym.year
    ensures YearOf(Label(ym)) == Decimal(ym.year)
  {
    assert Label(ym) == Decimal(ym.year) + ['-'] + ZeroPad2(ym.month);
    SplitOnAt(Decimal(ym.year), '-', ZeroPad2(ym.month));
  }

  /** `str(y)` for each year `y` from `first` through `last`. */
  function YearRange(first: nat, last: nat): (r: seq<string>)
    ensures |r| == if first <= last then last - first + 1 else 0
  {
    if first <= last then seq(last - first + 1, i requires 0 <= i => Decimal(first + i)) else []
  }

  lemma YearRangeIncreasing(first: nat, last: nat)
    requires 1000 <= first && last <= 9999
    ensures Increasing(YearRange(first, last))
  {
    var r := YearRange(first, last);
    Pow10Small();
    forall i, j | 0 <= i < j < |r| ensures Less(r[i], r[j]) {
      DecimalIsFixedWidth(first + i, 4);
      DecimalIsFixedWidth(first + j, 4);
      DigitsOrder(first + i, first + j, 4);
    }
  }

  /** The year prefix of each month label is a year from `start` through today's. */
  lemma YearOfMonthLabel(start: int, today: Today, k: nat)
    requires ValidToday(today) && 0 <= start && k < MonthCount(start, today)
    ensures var ym := MonthAt(start, k);
      && start <= ym.year <= today.year
      && YearOf(MonthLabels(start, today)[k]) == Decimal(ym.year)
  {
    var ms := MonthsFrom(start, MonthCount(start, today));
    MonthsRange(start, today);
    assert ms[k] == MonthAt(start, k);
    YearOfLabel(ms[k]);
  }

  /** The year of the `k`-th month counted from January of `start`, spelled out. */
  function MonthYears(start: nat, n: nat): (r: seq<string>)
    ensures |r| == n
  {
    seq(n, k requires 0 <= k => Decimal(start + k / 12))
  }

  lemma YearsOfMonthLabels(start: nat, today: Today)
    requires ValidToday(today)
    ensures YearsOf(MonthLabels(start, today)) == MonthYears(start, MonthCount(start, today))
  {
    var n := MonthCount(start, today);
    forall k | 0 <= k < n ensures YearsOf(MonthLabels(start, today))[k] == MonthYears(start, n)[k] {
      YearOfMonthLabel(start, today, k);
      MonthAtClosedForm(start, k);
    }
  }

  /** The distinct years of the months from `start` through today's are the years in between. */
  lemma MonthYearsSet(start: nat, today: Today)
    requires ValidToday(today) && 1000 <= start <= today.year
    ensures SortedSet(MonthYears(start, MonthCount(start, today))) == YearRange(start, today.year)
  {
    var n := MonthCount(start, today);
    var ys := MonthYears(start, n);
    var years := YearRange(start, today.year);
    forall y ensures y in ys <==> y in years {
      if y in ys {
        var k :| 0 <= k < n && ys[k] == y;
        DivMod12(today.year - start, today.month - 1);
        assert years[k / 12] == y;
      }
      if y in years {
        var i :| 0 <= i < |years| && years[i] == y;
        DivMod12(i, 0);
        assert ys[12 * i] == y;
      }
    }
    YearRangeIncreasing(start, today.year);
    IncreasingUnique(SortedSet(ys), years);
  }

  /**
   * The year options of the dashboard are the years from `start` through
   * today's year, each once, in ascending order.
   */
  lemma YearOptions(start: int, today: Today)
    requires ValidToday(today) && 1000 <= start <= today.year
    ensures YearLabels(MonthLabels(start, today)) == YearRange(start, today.year)
  {
    YearsOfMonthLabels(start, today);
    MonthYearsSet(start, today);
  }

  /**
   * When no month is chosen, `sorted` of the offered months is the offered
   * months themselves: the columns come out in chronological order.
   */
  lemma DefaultColumnsInOrder(start: int, today: Today, years: seq<string>)
    requires ValidToday(today) && 1000 <= start
    ensures Sort(FilteredMonths(MonthLabels(start, today), years)) == FilteredMonths(MonthLabels(start, today), years)
  {
    var labels := MonthLabels(start, today);
    MonthLabelsIncreasing(start, today);
    SubsequenceIncreasing(FilteredMonths(labels, years), labels);
    SortOfIncreasing(FilteredMonths(labels, years));
  }
}

/**
 * `DataFrame.pivot(index="service_type", columns=<month>, values=<value>)`
 * followed by `fillna(0)`, on the flat rows a grouped query returns, and
 * the column totals of the result.
 */
module Pivot {
  import opened Wrappers
  import opened PySorted
  import opened Frames

  /** One row of a grouped query result: a service, a month label and a summed value (`None` for SQL `NULL`). */
  datatype Record = Record(service: string, month: string, value: Option<nat>)

  /** The value with `NULL` read as 0 (`fillna(0)`). */
  function Amount(rec: Record): nat {
    rec.value.GetOr(0)
  }

  /** At most one row per (service, month): what `GROUP BY service_type, month` guarantees and `pivot` demands. */
  predicate UniqueKeys(recs: seq<Record>) {
    forall i, j :: 0 <= i < j < |recs| ==> recs[i].service != recs[j].service || recs[i].month != recs[j].month
  }

  /** The `service_type` column. */
  function ServiceKeys(recs: seq<Record>): (r: seq<string>)
    ensures |r| == |recs|
    ensures forall i :: 0 <= i < |recs| ==> r[i] == recs[i].service
  {
    seq(|recs|, i requires 0 <= i < |recs| => recs[i].service)
  }

  /** The month column. */
  function MonthKeys(recs: seq<Record>): (r: seq<string>)
    ensures |r| == |recs|
    ensures forall i :: 0 <= i < |recs| ==> r[i] == recs[i].month
  {
    seq(|recs|, i requires 0 <= i < |recs| => recs[i].month)
  }

  /**
   * The pivoted value for service `s` and month `m`: the value of the row
   * with that key, 0 when the data has no such row.
   */
  function PivotCell(recs: seq<Record>, s: string, m: string): (r: nat)
    ensures (forall i :: 0 <= i < |recs| ==> recs[i].service != s || recs[i].month != m) ==> r == 0
    ensures UniqueKeys(recs) ==>
      forall i :: 0 <= i < |recs| && recs[i].service == s && recs[i].month == m ==> r == Amount(recs[i])
  {
    if recs == [] then 0
    else if recs[0].service == s && recs[0].month == m then Amount(recs[0])
    else PivotCell(recs[1..], s, m)
  }

  /**
   * The pivoted table: its rows are the distinct services and its columns
   * the distinct months, each in ascending order; every cell of a service
   * and a month of the data holds that pair's value, or 0 when the pair is
   * missing; there is nothing outside those rows and columns.
   */
  function PivotTable(recs: seq<Record>): (t: Table)
    ensures t.index == SortedSet(ServiceKeys(recs)) && t.columns == SortedSet(MonthKeys(recs))
    ensures forall s, m :: (t.At(s, m) ==
      if s in ServiceKeys(recs) && m in MonthKeys(recs) then Count(PivotCell(recs, s, m)) else Empty)
  {
    var rows := SortedSet(ServiceKeys(recs));
    var cols := SortedSet(MonthKeys(recs));
    Table(rows, cols, map s, m | s in rows && m in cols :: (s, m) := Count(PivotCell(recs, s, m)))
  }

  /** The sum of the values of month `m` over all rows of the data. */
  function MonthSum(recs: seq<Record>, m: string): nat {
    if recs == [] then 0
    else (if recs[0].month == m then Amount(recs[0]) else 0) + MonthSum(recs[1..], m)
  }

  /** The sum of the values of month `m` over the rows whose service is one of `keys`. */
  function SumWhere(recs: seq<Record>, m: string, keys: seq<string>): nat {
    if recs == [] then 0
    else (if recs[0].month == m && recs[0].service in keys then Amount(recs[0]) else 0) + SumWhere(recs[1..], m, keys)
  }

  lemma {:induction false} SumWhereSplit(recs: seq<Record>, m: string, k: string, rest: seq<string>)
    requires k !in rest
    ensures SumWhere(recs, m, [k] + rest) == SumWhere(recs, m, [k]) + SumWhere(recs, m, rest)
  {
    if recs != [] {
      SumWhereSplit(recs[1..], m, k, rest);
    }
  }

  lemma {:induction false} SumWhereNoMatch(recs: seq<Record>, m: string, k: string)
    requires forall i :: 0 <= i < |recs| ==> recs[i].service != k || recs[i].month != m
    ensures SumWhere(recs, m, [k]) == 0
  {
    if recs != [] {
      SumWhereNoMatch(recs[1..], m, k);
    }
  }

  /** With unique keys, the sum over the rows of one service is that service's pivoted cell. */
  lemma {:induction false} SumWhereSingle(recs: seq<Record>, m: string, k: string)
    requires UniqueKeys(recs)
    ensures SumWhere(recs, m, [k]) == PivotCell(recs, k, m)
  {
    if recs != [] {
      assert UniqueKeys(recs[1..]);
      if recs[0].service == k && recs[0].month == m {
        SumWhereNoMatch(recs[1..], m, k);
      } else {
        SumWhereSingle(recs[1..], m, k);
      }
    }
  }

  lemma {:induction false} SumWhereAll(recs: seq<Record>, m: string, keys: seq<string>)
    requires forall i :: 0 <= i < |recs| ==> recs[i].service in keys
    ensures SumWhere(recs, m, keys) == MonthSum(recs, m)
  {
    if recs != [] {
      SumWhereAll(recs[1..], m, keys);
    }
  }

  lemma {:induction false} MonthSumAbsent(recs: seq<Record>, m: string)
    requires m !in MonthKeys(recs)
    ensures MonthSum(recs, m) == 0
  {
    if recs != [] {
      assert MonthKeys(recs[1..]) == MonthKeys(recs)[1..];
      MonthSumAbsent(recs[1..], m);
    }
  }

  /** Summing the pivoted column `m` over distinct service rows adds up the data rows of those services. */
  lemma {:induction false} PivotSumOver(recs: seq<Record>, m: string, rows: seq<string>)
    requires UniqueKeys(recs) && NoDups(rows) && m in MonthKeys(recs)
    requires forall r :: r in rows ==> r in ServiceKeys(recs)
    ensures PivotTable(recs).SumOver(rows, m) == SumWhere(recs, m, rows)
  {
    if rows == [] {
      SumWhereEmpty(recs, m);
    } else {
      var k := rows[0];
      assert k in rows;
      PivotSumOver(recs, m, rows[1..]);
      SumWhereSingle(recs, m, k);
      SumWhereSplit(recs, m, k, rows[1..]);
      assert rows == [k] + rows[1..];
    }
  }

  lemma {:induction false} SumWhereEmpty(recs: seq<Record>, m: string)
    ensures SumWhere(recs, m, []) == 0
  {
    if recs != [] {
      SumWhereEmpty(recs[1..], m);
    }
  }

  /**
   * `pivot.sum(axis=0)` loses nothing: with unique keys, the total of
   * month `m` over the pivoted rows is the sum of the values of `m` over all
   * rows of the data (0 for a month the data lacks).
   */
  lemma PivotColumnTotal(recs: seq<Record>, m: string)
    requires UniqueKeys(recs)
    ensures PivotTable(recs).ColumnTotal(m) == MonthSum(recs, m)
  {
    var t := PivotTable(recs);
    if m in MonthKeys(recs) {
      IncreasingNoDups(t.index);
      PivotSumOver(recs, m, t.index);
      SumWhereAll(recs, m, t.index);
    } else {
      SumOverEmpty(t, t.index, m);
      MonthSumAbsent(recs, m);
    }
  }
}

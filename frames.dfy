/**
 * The small part of a pandas `DataFrame` the reports use: string row labels
 * (the index), string column labels, and a cell for each pair. A cell that
 * holds nothing (`NaN`) is `Empty`.
 */
module Frames {

  /** The year-over-year rate: `"-"` when there is nothing to compare with, else a percentage. */
  datatype Rate = Dash | Percent(value: real)

  datatype Cell = Count(n: nat) | RateCell(rate: Rate) | Empty

  /** The number a cell adds to a column sum: `sum` skips `NaN`. */
  function CountOf(c: Cell): nat {
    if c.Count? then c.n else 0
  }

  datatype Table = Table(index: seq<string>, columns: seq<string>, cells: map<(string, string), Cell>) {

    /** `table.loc[r, c]` for labels on the axes, `Empty` for a stored `NaN` or a label off the axes. */
    function At(r: string, c: string): Cell {
      if r in index && c in columns && (r, c) in cells then cells[(r, c)] else Empty
    }

    /**
     * `table.loc[row] = values`: the row labelled `row` is replaced, or appended
     * after the last row when the index lacks it; the values are aligned on
     * the columns, a column without a value getting `Empty`. No other row
     * changes.
     */
    function WithRow(row: string, values: map<string, Cell>): (t: Table)
      ensures t.index == if row in index then index else index + [row]
      ensures t.columns == columns
      ensures forall r, c :: (t.At(r, c) ==
        if r == row && c in columns then (if c in values then values[c] else Empty) else At(r, c))
    {
      Table(if row in index then index else index + [row], columns,
            cells + RowCells(row, columns, values))
    }

    /**
     * `table.reindex(columns=cols)`: exactly the columns `cols`, in that
     * order; a column the table had keeps its cells, a new one is all `Empty`.
     */
    function ReindexColumns(cols: seq<string>): (t: Table)
      ensures t.index == index && t.columns == cols
      ensures forall r, c :: t.At(r, c) == if c in cols && c in columns then At(r, c) else Empty
    {
      Table(index, cols, map k | k in cells && k.1 in columns :: cells[k])
    }

    /**
     * `table.reindex(rows)`: exactly the rows `rows`, in that order; a row
     * the table had keeps its cells, a new one is all `Empty`.
     */
    function ReindexRows(rows: seq<string>): (t: Table)
      ensures t.index == rows && t.columns == columns
      ensures forall r, c :: t.At(r, c) == if r in rows && r in index then At(r, c) else Empty
    {
      Table(rows, columns, map k | k in cells && k.0 in index :: cells[k])
    }

    /** The sum of the counts in column `c` over the rows `rows`. */
    function SumOver(rows: seq<string>, c: string): nat {
      if rows == [] then 0 else CountOf(At(rows[0], c)) + SumOver(rows[1..], c)
    }

    /** `table.sum(axis=0)[c]`: the sum of column `c` over all rows. */
    function ColumnTotal(c: string): nat {
      SumOver(index, c)
    }

    /** `table.sum(axis=0)`: each column's total, keyed by column. */
    function ColumnTotals(): (r: map<string, nat>)
      ensures forall c :: c in r <==> c in columns
      ensures forall c :: c in r ==> r[c] == ColumnTotal(c)
    {
      map c | c in columns :: ColumnTotal(c)
    }
  }

  /** The cells of row `row` holding `values` aligned on the columns `cols`. */
  function RowCells(row: string, cols: seq<string>, values: map<string, Cell>): map<(string, string), Cell> {
    map c | c in cols :: (row, c) := if c in values then values[c] else Empty
  }

  /** A column sum counts only the rows that are summed: a column of `Empty` cells sums to 0. */
  lemma {:induction false} SumOverEmpty(t: Table, rows: seq<string>, c: string)
    requires forall r :: r in rows ==> t.At(r, c) == Empty
    ensures t.SumOver(rows, c) == 0
  {
    if rows != [] {
      assert rows[0] in rows;
      SumOverEmpty(t, rows[1..], c);
    }
  }

  /**
   * A table whose cells are updated in place: `pivot_used` of the usage
   * dashboard. `Snapshot` is its current value as a `Table`.
   */
  class Frame {
    var index: seq<string>
    var columns: seq<string>
    var cells: map<(string, string), Cell>

    function Snapshot(): Table
      reads this
    {
      Table(index, columns, cells)
    }

    constructor (t: Table)
      ensures Snapshot() == t
    {
      index := t.index;
      columns := t.columns;
      cells := t.cells;
    }

    /** `frame.loc[row] = values` */
    method SetRow(row: string, values: map<string, Cell>)
      modifies this
      ensures Snapshot() == old(Snapshot()).WithRow(row, values)
    {
      if row !in index {
        index := index + [row];
      }
      cells := cells + RowCells(row, columns, values);
    }

    /** `frame = frame.reindex(columns=cols)` */
    method ReindexColumns(cols: seq<string>)
      modifies this
      ensures Snapshot() == old(Snapshot()).ReindexColumns(cols)
    {
      cells := map k | k in cells && k.1 in columns :: cells[k];
      columns := cols;
    }
  }
}

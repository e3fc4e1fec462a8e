/**
 * The record table: an ordered list of rows, each mapping a column name to a
 * cell, together with the ordered list of column names (a data frame).
 */
module Frames {
  import opened Seqs

  /** A parsed publication time; only `year` is ever read by the pipeline. */
  datatype Timestamp = Timestamp(year: int, month: int, day: int, nanosOfDay: int)

  /** One cell. `Missing` is a NaN/NaT value. */
  datatype Cell = Missing | Text(s: string) | Int(n: int) | DateTime(ts: Timestamp)

  type Row = map<string, Cell>

  datatype Table = Table(columns: seq<string>, rows: seq<Row>)

  // The columns of the metadata table that the pipeline reads or writes.
  const Abstract: string := "abstract"
  const Title: string := "title"
  const PublishTime: string := "publish_time"
  const Journal: string := "journal"
  const Authors: string := "authors"
  const Year: string := "year"
  const WordCountColumn: string := "abstract_word_count"

  /** The table built by `pd.DataFrame()`: no columns and no rows. */
  const EmptyTable := Table([], [])

  /** The cell of `r` in column `col`; a row without that key reads as missing. */
  function Get(r: Row, col: string): Cell {
    if col in r then r[col] else Missing
  }

  function ColumnSet(cols: seq<string>): set<string> {
    set c | c in cols
  }

  /** Column names are distinct and every row has exactly the table's columns. */
  predicate WellFormed(t: Table) {
    && NoDup(t.columns)
    && forall i :: 0 <= i < |t.rows| ==> t.rows[i].Keys == ColumnSet(t.columns)
  }

  /** `DataFrame.empty`: true when either axis has length zero. */
  predicate IsEmpty(t: Table) {
    |t.rows| == 0 || |t.columns| == 0
  }

  /** The column list after `df[col] = ...`: an existing column keeps its place, a new one goes last. */
  function AddColumn(cols: seq<string>, col: string): (r: seq<string>)
    ensures col in r
    ensures forall c :: c in r <==> c in cols || c == col
    ensures NoDup(cols) ==> NoDup(r)
    ensures col in cols ==> r == cols
    ensures col !in cols ==> r == cols + [col]
  {
    if col in cols then cols else cols + [col]
  }

  /** A table whose rows each gained the key `col` is well formed once `col` is added to its columns. */
  lemma AddedColumnWellFormed(t: Table, col: string, rows: seq<Row>)
    requires WellFormed(t) && |rows| == |t.rows|
    requires forall i :: 0 <= i < |rows| ==> rows[i].Keys == t.rows[i].Keys + {col}
    ensures WellFormed(Table(AddColumn(t.columns, col), rows))
  {
    assert ColumnSet(AddColumn(t.columns, col)) == ColumnSet(t.columns) + {col};
  }

  /** Two tables with the same columns, the same key sets and the same cells are the same table. */
  lemma SameTable(a: Table, b: Table)
    requires a.columns == b.columns && |a.rows| == |b.rows|
    requires forall i :: 0 <= i < |a.rows| ==> a.rows[i].Keys == b.rows[i].Keys
    requires forall i, c :: 0 <= i < |a.rows| ==> Get(a.rows[i], c) == Get(b.rows[i], c)
    ensures a == b
  {
    forall i | 0 <= i < |a.rows|
      ensures a.rows[i] == b.rows[i]
    {
      forall c | c in a.rows[i]
        ensures a.rows[i][c] == b.rows[i][c]
      {
        assert Get(a.rows[i], c) == Get(b.rows[i], c);
      }
    }
  }

  /** The integer `year` values of the rows, in row order; other cells are skipped, as `value_counts` skips NaN. */
  function YearColumn(rows: seq<Row>): (ys: seq<int>)
    ensures |ys| <= |rows|
    ensures (forall i :: 0 <= i < |rows| ==> Get(rows[i], Year).Int?) ==> |ys| == |rows|
    decreases |rows|
  {
    if |rows| == 0 then []
    else
      var rest := YearColumn(rows[1..]);
      match Get(rows[0], Year)
      case Int(y) => [y] + rest
      case _ => rest
  }

  /** The non-missing cells of column `col`, in row order. */
  function NonMissing(rows: seq<Row>, col: string): (cs: seq<Cell>)
    ensures |cs| <= |rows|
    ensures Missing !in cs
    decreases |rows|
  {
    if |rows| == 0 then []
    else if Get(rows[0], col) == Missing then NonMissing(rows[1..], col)
    else [Get(rows[0], col)] + NonMissing(rows[1..], col)
  }

  /** The number of rows whose `col` cell is `v`. */
  function RowsWith(rows: seq<Row>, col: string, v: Cell): nat {
    |Filter(rows, (r: Row) => Get(r, col) == v)|
  }

  /** A non-missing value occurs in the non-missing cells of a column once per row holding it. */
  lemma {:induction false} NonMissingCountsRows(rows: seq<Row>, col: string, v: Cell)
    requires v != Missing
    ensures multiset(NonMissing(rows, col))[v] == RowsWith(rows, col, v)
    decreases |rows|
  {
    if |rows| > 0 {
      NonMissingCountsRows(rows[1..], col, v);
    }
  }

  /** A year occurs in the year column once per row whose year cell holds it. */
  lemma {:induction false} YearColumnCountsRows(rows: seq<Row>, y: int)
    ensures multiset(YearColumn(rows))[y] == RowsWith(rows, Year, Int(y))
    decreases |rows|
  {
    if |rows| > 0 {
      YearColumnCountsRows(rows[1..], y);
    }
  }
}

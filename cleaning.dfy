/**
 * The cleaner: drop a fixed list of columns, fill missing `abstract` and
 * `title` with the empty string, parse `publish_time`, drop the rows whose
 * date did not parse, derive `year` and, in the batch script only,
 * `abstract_word_count`.
 *
 * Each step is a function on tables (what the new table is) and a method of
 * `Frame` (the data frame object the scripts update in place, proved to
 * perform that step).
 */
module Cleaning {
  import opened Seqs
  import opened Frames
  import Text

  /** How a cleaning run fails: a column it reads is absent (KeyError), or an abstract is not text (AttributeError). */
  datatype CleanError = MissingColumn(name: string) | NotText(name: string)

  /** The columns dropped before anything else. */
  const DropList: set<string> := {"sha", "pmcid", "pubmed_id", "full_text_file", "s2_id", "source_x"}

  /** `pd.to_datetime(..., errors='coerce')` on one cell: a timestamp, or `None` for NaT. */
  type Parser = Cell -> Option<Timestamp>

  /** A parser that maps NaN to NaT and leaves a value that is already a timestamp as it is. */
  ghost predicate CoherentParser(parse: Parser) {
    parse(Missing) == None && forall ts :: parse(DateTime(ts)) == Some(ts)
  }

  // ---- The steps, one row at a time ----

  /** `fillna(value)` on one cell. */
  function FilledCell(c: Cell, value: string): Cell {
    if c == Missing then Text(value) else c
  }

  /** A parse result as a cell: NaT is a missing value. */
  function ParsedCell(o: Option<Timestamp>): Cell {
    match o
    case None => Missing
    case Some(ts) => DateTime(ts)
  }

  /** `.dt.year` on one cell; only ever applied to timestamps. */
  function YearCell(c: Cell): Cell {
    match c
    case DateTime(ts) => Int(ts.year)
    case _ => Missing
  }

  /** `len(x.split())` on one cell; only ever applied to text. */
  function WordCountCell(c: Cell): Cell {
    match c
    case Text(s) => Int(Text.WordCount(s))
    case _ => Missing
  }

  /** One row once the listed columns are dropped. */
  function DropRow(r: Row, names: set<string>): Row {
    r - names
  }

  /** One row once its `col` cell is filled. */
  function FillRow(r: Row, col: string, value: string): (p: Row)
    ensures p.Keys == r.Keys + {col}
  {
    r[col := FilledCell(Get(r, col), value)]
  }

  /** One row once its `col` cell is parsed as a date. */
  function ParseRow(r: Row, col: string, parse: Parser): (p: Row)
    ensures p.Keys == r.Keys + {col}
  {
    r[col := ParsedCell(parse(Get(r, col)))]
  }

  /** One row once its `year` is derived from `publish_time`. */
  function YearRow(r: Row): (p: Row)
    ensures p.Keys == r.Keys + {Year}
  {
    r[Year := YearCell(Get(r, PublishTime))]
  }

  /** One row once its `abstract_word_count` is derived from `abstract`. */
  function WordCountRow(r: Row): (p: Row)
    ensures p.Keys == r.Keys + {WordCountColumn}
  {
    r[WordCountColumn := WordCountCell(Get(r, Abstract))]
  }

  // ---- The steps, on whole tables ----
  //
  // Each step function states its columns and row count; the lemma after it
  // states what happens to every cell.

  /** `df.drop(columns=names, errors='ignore')`: a listed column that is absent is simply not there to drop. */
  function Dropped(t: Table, names: set<string>): (r: Table)
    ensures forall c :: c in r.columns <==> c in t.columns && c !in names
    ensures |r.rows| == |t.rows|
  {
    var r := Table(Filter(t.columns, (c: string) => c !in names), Map(t.rows, (row: Row) => DropRow(row, names)));
    forall c
      ensures c in r.columns <==> c in t.columns && c !in names
    {
      FilterMembership(t.columns, (c: string) => c !in names, c);
    }
    r
  }

  /** Dropping keeps a table well formed. */
  lemma DroppedWellFormed(t: Table, names: set<string>)
    requires WellFormed(t)
    ensures WellFormed(Dropped(t, names))
  {
    var r := Dropped(t, names);
    FilterNoDup(t.columns, (c: string) => c !in names);
    assert ColumnSet(r.columns) == ColumnSet(t.columns) - names;
  }

  /** Dropping removes exactly the listed keys from every row, keeps the other columns in order, and touches no other cell. */
  lemma DroppedCells(t: Table, names: set<string>)
    ensures var r := Dropped(t, names);
      && r.columns == Filter(t.columns, (c: string) => c !in names)
      && (forall i :: 0 <= i < |t.rows| ==> r.rows[i].Keys == t.rows[i].Keys - names)
      && (forall i, c :: 0 <= i < |t.rows| && c !in names ==> Get(r.rows[i], c) == Get(t.rows[i], c))
      && (forall i, c :: 0 <= i < |t.rows| && c in names ==> Get(r.rows[i], c) == Missing)
  {
  }

  /** A drop whose listed columns are all absent returns the table unchanged. */
  lemma DropAbsentIsIdentity(t: Table, names: set<string>)
    requires WellFormed(t)
    requires forall c :: c in names ==> c !in t.columns
    ensures Dropped(t, names) == t
  {
    var r := Dropped(t, names);
    FilterKeepsAll(t.columns, (c: string) => c !in names);
    forall i | 0 <= i < |t.rows|
      ensures r.rows[i] == t.rows[i]
    {
      assert t.rows[i] - names == t.rows[i];
    }
  }

  /** `df[col] = df[col].fillna(value)`. */
  function Filled(t: Table, col: string, value: string): (r: Table)
    requires col in t.columns
    ensures r.columns == t.columns && |r.rows| == |t.rows|
  {
    Table(t.columns, Map(t.rows, (row: Row) => FillRow(row, col, value)))
  }

  /** `Filled` keeps a table well formed. */
  lemma FilledWellFormed(t: Table, col: string, value: string)
    requires col in t.columns && WellFormed(t)
    ensures WellFormed(Filled(t, col, value))
  {
    AddedColumnWellFormed(t, col, Filled(t, col, value).rows);
  }

  /** After filling, no `col` cell is missing: missing cells become `value`, present ones and every other column stay as they were. */
  lemma FilledCells(t: Table, col: string, value: string)
    requires col in t.columns
    ensures var r := Filled(t, col, value);
      && (forall i :: 0 <= i < |t.rows| ==> Get(r.rows[i], col) != Missing)
      && (forall i :: 0 <= i < |t.rows| && Get(t.rows[i], col) == Missing ==> Get(r.rows[i], col) == Text(value))
      && (forall i :: 0 <= i < |t.rows| && Get(t.rows[i], col) != Missing ==> Get(r.rows[i], col) == Get(t.rows[i], col))
      && (forall i, c :: 0 <= i < |t.rows| && c != col ==> Get(r.rows[i], c) == Get(t.rows[i], c))
      && (forall i :: 0 <= i < |t.rows| ==> r.rows[i].Keys == t.rows[i].Keys + {col})
  {
  }

  /** `df[col] = pd.to_datetime(df[col], errors='coerce')`. */
  function DatesCoerced(t: Table, col: string, parse: Parser): (r: Table)
    requires col in t.columns
    ensures r.columns == t.columns && |r.rows| == |t.rows|
  {
    Table(t.columns, Map(t.rows, (row: Row) => ParseRow(row, col, parse)))
  }

  /** `DatesCoerced` keeps a table well formed. */
  lemma DatesCoercedWellFormed(t: Table, col: string, parse: Parser)
    requires col in t.columns && WellFormed(t)
    ensures WellFormed(DatesCoerced(t, col, parse))
  {
    AddedColumnWellFormed(t, col, DatesCoerced(t, col, parse).rows);
  }

  /** A `col` cell becomes its timestamp, or missing exactly when it does not parse; every other column stays as it was. */
  lemma DatesCoercedCells(t: Table, col: string, parse: Parser)
    requires col in t.columns
    ensures var r := DatesCoerced(t, col, parse);
      && (forall i :: 0 <= i < |t.rows| ==> (Get(r.rows[i], col) == Missing <==> parse(Get(t.rows[i], col)).None?))
      && (forall i :: 0 <= i < |t.rows| && parse(Get(t.rows[i], col)).Some? ==>
           Get(r.rows[i], col) == DateTime(parse(Get(t.rows[i], col)).value))
      && (forall i, c :: 0 <= i < |t.rows| && c != col ==> Get(r.rows[i], c) == Get(t.rows[i], c))
      && (forall i :: 0 <= i < |t.rows| ==> r.rows[i].Keys == t.rows[i].Keys + {col})
  {
  }

  /** `df.dropna(subset=[col])`. */
  function NaDropped(t: Table, col: string): (r: Table)
    ensures r.columns == t.columns && |r.rows| <= |t.rows|
  {
    Table(t.columns, Filter(t.rows, (row: Row) => Get(row, col) != Missing))
  }

  /** `dropna` keeps a table well formed. */
  lemma NaDroppedWellFormed(t: Table, col: string)
    requires WellFormed(t)
    ensures WellFormed(NaDropped(t, col))
  {
  }

  /** Exactly the rows whose `col` cell is present survive, unchanged and in their original order. */
  lemma NaDroppedRows(t: Table, col: string)
    ensures var r := NaDropped(t, col);
      && r.rows == Filter(t.rows, (row: Row) => Get(row, col) != Missing)
      && (forall i :: 0 <= i < |r.rows| ==> Get(r.rows[i], col) != Missing && r.rows[i] in t.rows)
      && (forall i :: 0 <= i < |t.rows| && Get(t.rows[i], col) != Missing ==> t.rows[i] in r.rows)
      && ((forall i :: 0 <= i < |t.rows| ==> Get(t.rows[i], col) != Missing) ==> r == t)
  {
    if forall i :: 0 <= i < |t.rows| ==> Get(t.rows[i], col) != Missing {
      FilterKeepsAll(t.rows, (row: Row) => Get(row, col) != Missing);
    }
  }

  /** Every `publish_time` cell holds a timestamp. */
  predicate AllDated(t: Table) {
    forall i :: 0 <= i < |t.rows| ==> Get(t.rows[i], PublishTime).DateTime?
  }

  /** Parsing the dates and then dropping the missing ones leaves a timestamp in every row. */
  lemma CoercedThenDroppedIsDated(t: Table, parse: Parser)
    requires PublishTime in t.columns
    ensures AllDated(NaDropped(DatesCoerced(t, PublishTime, parse), PublishTime))
  {
    var d := DatesCoerced(t, PublishTime, parse);
    var r := NaDropped(d, PublishTime);
    NaDroppedRows(d, PublishTime);
    forall i | 0 <= i < |r.rows|
      ensures Get(r.rows[i], PublishTime).DateTime?
    {
      var j :| 0 <= j < |d.rows| && d.rows[j] == r.rows[i];
      assert d.rows[j] == ParseRow(t.rows[j], PublishTime, parse);
    }
  }

  /** `df['year'] = df['publish_time'].dt.year.astype(int)`; the cast fails on NaT, so every date must be present. */
  function YearAssigned(t: Table): (r: Table)
    requires AllDated(t)
    ensures r.columns == AddColumn(t.columns, Year) && |r.rows| == |t.rows|
  {
    Table(AddColumn(t.columns, Year), Map(t.rows, YearRow))
  }

  /** `YearAssigned` keeps a table well formed. */
  lemma YearAssignedWellFormed(t: Table)
    requires AllDated(t) && WellFormed(t)
    ensures WellFormed(YearAssigned(t))
  {
    AddedColumnWellFormed(t, Year, YearAssigned(t).rows);
  }

  /** Every row's `year` is the year of its timestamp; no other cell changes. */
  lemma YearAssignedCells(t: Table)
    requires AllDated(t)
    ensures var r := YearAssigned(t);
      && (forall i :: 0 <= i < |t.rows| ==> Get(r.rows[i], Year) == Int(Get(t.rows[i], PublishTime).ts.year))
      && (forall i, c :: 0 <= i < |t.rows| && c != Year ==> Get(r.rows[i], c) == Get(t.rows[i], c))
      && (forall i :: 0 <= i < |t.rows| ==> r.rows[i].Keys == t.rows[i].Keys + {Year})
  {
  }

  /** Every `abstract` cell holds text. */
  predicate AbstractsAreText(t: Table) {
    forall i :: 0 <= i < |t.rows| ==> Get(t.rows[i], Abstract).Text?
  }

  /** `df['abstract_word_count'] = df['abstract'].apply(lambda x: len(x.split()))`; `split` needs text. */
  function WordCountAssigned(t: Table): (r: Table)
    requires AbstractsAreText(t)
    ensures r.columns == AddColumn(t.columns, WordCountColumn) && |r.rows| == |t.rows|
  {
    Table(AddColumn(t.columns, WordCountColumn), Map(t.rows, WordCountRow))
  }

  /** `WordCountAssigned` keeps a table well formed. */
  lemma WordCountAssignedWellFormed(t: Table)
    requires AbstractsAreText(t) && WellFormed(t)
    ensures WellFormed(WordCountAssigned(t))
  {
    AddedColumnWellFormed(t, WordCountColumn, WordCountAssigned(t).rows);
  }

  /** Every row's `abstract_word_count` is the number of whitespace-separated words of its abstract; no other cell changes. */
  lemma WordCountAssignedCells(t: Table)
    requires AbstractsAreText(t)
    ensures var r := WordCountAssigned(t);
      && (forall i :: 0 <= i < |t.rows| ==>
           Get(r.rows[i], WordCountColumn) == Int(Text.WordCount(Get(t.rows[i], Abstract).s)))
      && (forall i, c :: 0 <= i < |t.rows| && c != WordCountColumn ==> Get(r.rows[i], c) == Get(t.rows[i], c))
      && (forall i :: 0 <= i < |t.rows| ==> r.rows[i].Keys == t.rows[i].Keys + {WordCountColumn})
  {
  }

  // ---- The two cleaning sequences ----

  /** The columns the shared steps read; without one of them the run stops with a KeyError. */
  predicate HasInputColumns(raw: Table) {
    Abstract in raw.columns && Title in raw.columns && PublishTime in raw.columns
  }

  /** Drop, fill, parse, drop unparsed rows, derive `year`: the steps the batch cleaner and the dashboard share. */
  function Prepare(raw: Table, parse: Parser): (r: Table)
    requires HasInputColumns(raw)
    ensures forall c :: c in r.columns <==> (c in raw.columns && c !in DropList) || c == Year
    ensures |r.rows| <= |raw.rows|
  {
    var dropped := Dropped(raw, DropList);
    var filled := Filled(Filled(dropped, Abstract, ""), Title, "");
    var dated := NaDropped(DatesCoerced(filled, PublishTime, parse), PublishTime);
    CoercedThenDroppedIsDated(filled, parse);
    YearAssigned(dated)
  }

  /** The shared steps keep a table well formed. */
  lemma PrepareWellFormed(raw: Table, parse: Parser)
    requires HasInputColumns(raw) && WellFormed(raw)
    ensures WellFormed(Prepare(raw, parse))
  {
    var dropped := Dropped(raw, DropList);
    NamesNotDropped();
    DroppedWellFormed(raw, DropList);
    var withAbstract := Filled(dropped, Abstract, "");
    FilledWellFormed(dropped, Abstract, "");
    var filled := Filled(withAbstract, Title, "");
    FilledWellFormed(withAbstract, Title, "");
    var coerced := DatesCoerced(filled, PublishTime, parse);
    DatesCoercedWellFormed(filled, PublishTime, parse);
    NaDroppedWellFormed(coerced, PublishTime);
    CoercedThenDroppedIsDated(filled, parse);
    YearAssignedWellFormed(NaDropped(coerced, PublishTime));
  }

  /** The shared steps, with the KeyError of a missing input column; columns are checked in the order the steps read them. */
  function CleanCommon(raw: Table, parse: Parser): (r: Result<Table, CleanError>)
    ensures Abstract !in raw.columns ==> r == Err(MissingColumn(Abstract))
    ensures Abstract in raw.columns && Title !in raw.columns ==> r == Err(MissingColumn(Title))
    ensures Abstract in raw.columns && Title in raw.columns && PublishTime !in raw.columns ==>
      r == Err(MissingColumn(PublishTime))
    ensures r.Ok? <==> HasInputColumns(raw)
  {
    if Abstract !in raw.columns then Err(MissingColumn(Abstract))
    else if Title !in raw.columns then Err(MissingColumn(Title))
    else if PublishTime !in raw.columns then Err(MissingColumn(PublishTime))
    else Ok(Prepare(raw, parse))
  }

  /** The batch cleaner: the shared steps, then `abstract_word_count`. */
  function CleanBatch(raw: Table, parse: Parser): Result<Table, CleanError> {
    match CleanCommon(raw, parse)
    case Err(e) => Err(e)
    case Ok(t) => WordCountStep(t)
  }

  /** The batch cleaner's last step: `abstract_word_count`, or the AttributeError of an abstract that is not text. */
  function WordCountStep(t: Table): Result<Table, CleanError> {
    if AbstractsAreText(t) then Ok(WordCountAssigned(t)) else Err(NotText(Abstract))
  }

  /** A data frame that the cleaning scripts update column by column. */
  class Frame {
    var columns: seq<string>
    var rows: seq<Row>

    function Contents(): Table
      reads this
    {
      Table(columns, rows)
    }

    ghost predicate Valid()
      reads this
    {
      WellFormed(Contents())
    }

    constructor (t: Table)
      requires WellFormed(t)
      ensures Valid() && Contents() == t
    {
      columns, rows := t.columns, t.rows;
    }

    method FillNa(col: string, value: string)
      requires Valid() && col in columns
      modifies this
      ensures Valid() && Contents() == Filled(old(Contents()), col, value)
    {
      FilledWellFormed(Contents(), col, value);
      rows := Filled(Contents(), col, value).rows;
    }

    method ToDatetime(col: string, parse: Parser)
      requires Valid() && col in columns
      modifies this
      ensures Valid() && Contents() == DatesCoerced(old(Contents()), col, parse)
    {
      DatesCoercedWellFormed(Contents(), col, parse);
      rows := DatesCoerced(Contents(), col, parse).rows;
    }

    method DropNa(col: string)
      requires Valid()
      modifies this
      ensures Valid() && Contents() == NaDropped(old(Contents()), col)
    {
      NaDroppedWellFormed(Contents(), col);
      rows := NaDropped(Contents(), col).rows;
    }

    method AssignYear()
      requires Valid() && AllDated(Contents())
      modifies this
      ensures Valid() && Contents() == YearAssigned(old(Contents()))
    {
      YearAssignedWellFormed(Contents());
      var t := YearAssigned(Contents());
      columns, rows := t.columns, t.rows;
    }

    method AssignWordCount()
      requires Valid() && AbstractsAreText(Contents())
      modifies this
      ensures Valid() && Contents() == WordCountAssigned(old(Contents()))
    {
      WordCountAssignedWellFormed(Contents());
      var t := WordCountAssigned(Contents());
      columns, rows := t.columns, t.rows;
    }
  }

  /** The batch cleaning script, run on the loaded table; it returns the table it would write out. */
  method CleanMetadata(raw: Table, parse: Parser) returns (result: Result<Table, CleanError>)
    requires WellFormed(raw)
    ensures result == CleanBatch(raw, parse)
  {
    NamesNotDropped();
    DroppedWellFormed(raw, DropList);
    var df := new Frame(Dropped(raw, DropList));
    if Abstract !in df.columns {
      return Err(MissingColumn(Abstract));
    }
    df.FillNa(Abstract, "");
    if Title !in df.columns {
      return Err(MissingColumn(Title));
    }
    df.FillNa(Title, "");
    if PublishTime !in df.columns {
      return Err(MissingColumn(PublishTime));
    }
    ghost var filled := df.Contents();
    df.ToDatetime(PublishTime, parse);
    df.DropNa(PublishTime);
    CoercedThenDroppedIsDated(filled, parse);
    df.AssignYear();
    assert df.Contents() == Prepare(raw, parse);
    if !AbstractsAreText(df.Contents()) {
      return Err(NotText(Abstract));
    }
    df.AssignWordCount();
    return Ok(df.Contents());
  }

  // ---- What the cleaning does to each row ----
  //
  // The row functions below say how one input row is transformed; the
  // predicates `PreparedPair` and `BatchPair` say, cell by cell, what the
  // transformed row holds, and the lemmas connect the two.

  /** A row survives the date steps exactly when its `publish_time` parses. */
  predicate Survives(r: Row, parse: Parser) {
    parse(Get(r, PublishTime)).Some?
  }

  /** The row after the drop, fill and parse steps. */
  function CoercedRow(r: Row, parse: Parser): Row {
    ParseRow(FillRow(FillRow(DropRow(r, DropList), Abstract, ""), Title, ""), PublishTime, parse)
  }

  /** The row after the shared steps. */
  function PreparedRow(r: Row, parse: Parser): Row {
    YearRow(CoercedRow(r, parse))
  }

  /** The row after the batch cleaner. */
  function BatchRow(r: Row, parse: Parser): Row {
    WordCountRow(PreparedRow(r, parse))
  }

  /**
   * `p` is what the shared steps make of the surviving row `r`: missing text
   * is filled with the empty string, and the date is parsed and its year
   * recorded.
   */
  predicate PreparedPair(p: Row, r: Row, parse: Parser) {
    && Get(p, Abstract) == FilledCell(Get(r, Abstract), "")
    && Get(p, Title) == FilledCell(Get(r, Title), "")
    && (Survives(r, parse) ==> Get(p, PublishTime) == DateTime(parse(Get(r, PublishTime)).value))
    && (Survives(r, parse) ==> Get(p, Year) == Int(parse(Get(r, PublishTime)).value.year))
  }

  /** `p` is what the batch cleaner makes of `r`: the shared steps, and the word count of the abstract, zero when it was missing. */
  predicate BatchPair(p: Row, r: Row, parse: Parser) {
    && PreparedPair(p, r, parse)
    && (Get(r, Abstract).Text? ==> Get(p, WordCountColumn) == Int(Text.WordCount(Get(r, Abstract).s)))
    && (Get(r, Abstract) == Missing ==> Get(p, WordCountColumn) == Int(0))
  }

  /** The listed columns and the columns the cleaner and the dashboard read or write are different names. */
  lemma NamesNotDropped()
    ensures Abstract !in DropList && Title !in DropList && PublishTime !in DropList
    ensures Year !in DropList && WordCountColumn !in DropList && Journal !in DropList && Authors !in DropList
  {
  }

  /** A parsed date is missing exactly when the input date does not parse. */
  lemma CoercedRowDate(r: Row, parse: Parser)
    ensures Get(CoercedRow(r, parse), PublishTime) != Missing <==> Survives(r, parse)
  {
  }

  /** The shared steps turn a row into one with the listed columns gone and the four written columns present. */
  lemma PreparedRowKeys(r: Row, parse: Parser)
    ensures PreparedRow(r, parse).Keys == (r.Keys - DropList) + {Abstract, Title, PublishTime, Year}
    ensures BatchRow(r, parse).Keys == PreparedRow(r, parse).Keys + {WordCountColumn}
  {
  }

  /** `PreparedRow` does what `PreparedPair` describes. */
  lemma PreparedRowIsPair(r: Row, parse: Parser)
    ensures PreparedPair(PreparedRow(r, parse), r, parse)
  {
  }

  /** `BatchRow` does what `BatchPair` describes. */
  lemma BatchRowIsPair(r: Row, parse: Parser)
    ensures BatchPair(BatchRow(r, parse), r, parse)
  {
    var p := PreparedRow(r, parse);
    PreparedRowIsPair(r, parse);
    assert Get(BatchRow(r, parse), Abstract) == Get(p, Abstract);
    assert Get(BatchRow(r, parse), Title) == Get(p, Title);
    assert Get(BatchRow(r, parse), PublishTime) == Get(p, PublishTime);
    assert Get(BatchRow(r, parse), Year) == Get(p, Year);
  }

  /** A column the cleaner neither drops nor writes passes through unchanged, in both cleaners. */
  lemma OtherCellsUnchanged(r: Row, parse: Parser, c: string)
    requires c !in DropList && c != Abstract && c != Title && c != PublishTime && c != Year
    ensures Get(PreparedRow(r, parse), c) == Get(r, c)
    ensures c != WordCountColumn ==> Get(BatchRow(r, parse), c) == Get(r, c)
  {
  }

  /** Every element of `rows` is what the shared steps make of the element of `kept` at the same position. */
  predicate PreparedFrom(rows: seq<Row>, kept: seq<Row>, parse: Parser) {
    |rows| == |kept| && forall i :: 0 <= i < |kept| ==> PreparedPair(rows[i], kept[i], parse)
  }

  /** Every element of `rows` is what the batch cleaner makes of the element of `kept` at the same position. */
  predicate BatchFrom(rows: seq<Row>, kept: seq<Row>, parse: Parser) {
    |rows| == |kept| && forall i :: 0 <= i < |kept| ==> BatchPair(rows[i], kept[i], parse)
  }

  lemma MappedArePrepared(rows: seq<Row>, kept: seq<Row>, parse: Parser)
    requires rows == Map(kept, (r: Row) => PreparedRow(r, parse))
    ensures PreparedFrom(rows, kept, parse)
  {
    forall i | 0 <= i < |kept|
      ensures PreparedPair(rows[i], kept[i], parse)
    {
      PreparedRowIsPair(kept[i], parse);
    }
  }

  lemma MappedAreBatch(rows: seq<Row>, kept: seq<Row>, parse: Parser)
    requires rows == Map(kept, (r: Row) => BatchRow(r, parse))
    ensures BatchFrom(rows, kept, parse)
  {
    forall i | 0 <= i < |kept|
      ensures BatchPair(rows[i], kept[i], parse)
    {
      BatchRowIsPair(kept[i], parse);
    }
  }

  /** The drop, fill and parse steps act on each row on its own. */
  lemma CoercedRows(raw: Table, parse: Parser)
    requires HasInputColumns(raw)
    ensures var filled := Filled(Filled(Dropped(raw, DropList), Abstract, ""), Title, "");
      DatesCoerced(filled, PublishTime, parse).rows == Map(raw.rows, (r: Row) => CoercedRow(r, parse))
  {
  }

  /** Dropping the rows whose parsed date is missing keeps exactly the rows whose date parses, in order. */
  lemma DatedRows(raw: Table, parse: Parser)
    requires HasInputColumns(raw)
    ensures var filled := Filled(Filled(Dropped(raw, DropList), Abstract, ""), Title, "");
      NaDropped(DatesCoerced(filled, PublishTime, parse), PublishTime).rows ==
      Map(Filter(raw.rows, (r: Row) => Survives(r, parse)), (r: Row) => CoercedRow(r, parse))
  {
    var filled := Filled(Filled(Dropped(raw, DropList), Abstract, ""), Title, "");
    var coerced := DatesCoerced(filled, PublishTime, parse);
    CoercedRows(raw, parse);
    NaDroppedRows(coerced, PublishTime);
    forall x: Row
      ensures Get(CoercedRow(x, parse), PublishTime) != Missing <==> Survives(x, parse)
    {
      CoercedRowDate(x, parse);
    }
    FilterMapCommute(raw.rows, (r: Row) => CoercedRow(r, parse), (row: Row) => Get(row, PublishTime) != Missing,
      (r: Row) => Survives(r, parse));
  }

  /** Deriving `year` from rows that went through the earlier steps gives their prepared rows. */
  lemma YearRows(dated: Table, kept: seq<Row>, parse: Parser)
    requires AllDated(dated) && dated.rows == Map(kept, (r: Row) => CoercedRow(r, parse))
    ensures YearAssigned(dated).rows == Map(kept, (r: Row) => PreparedRow(r, parse))
  {
  }

  /**
   * The shared steps keep exactly the rows whose date parses, in their
   * original order, and turn each of them into its prepared row.
   */
  lemma PrepareRows(raw: Table, parse: Parser)
    requires HasInputColumns(raw)
    ensures Prepare(raw, parse).rows ==
      Map(Filter(raw.rows, (r: Row) => Survives(r, parse)), (r: Row) => PreparedRow(r, parse))
  {
    var filled := Filled(Filled(Dropped(raw, DropList), Abstract, ""), Title, "");
    var dated := NaDropped(DatesCoerced(filled, PublishTime, parse), PublishTime);
    DatedRows(raw, parse);
    CoercedThenDroppedIsDated(filled, parse);
    YearRows(dated, Filter(raw.rows, (r: Row) => Survives(r, parse)), parse);
  }

  /** The shared steps' output, row by row, in terms of the input rows. */
  lemma CleanCommonRows(raw: Table, parse: Parser)
    requires CleanCommon(raw, parse).Ok?
    ensures CleanCommon(raw, parse).value.rows ==
      Map(Filter(raw.rows, (r: Row) => Survives(r, parse)), (r: Row) => PreparedRow(r, parse))
  {
    PrepareRows(raw, parse);
  }

  /** Adding the word count to prepared rows gives the batch rows of the same input rows. */
  lemma WordCountRows(t: Table, kept: seq<Row>, parse: Parser)
    requires AbstractsAreText(t) && t.rows == Map(kept, (r: Row) => PreparedRow(r, parse))
    ensures WordCountAssigned(t).rows == Map(kept, (r: Row) => BatchRow(r, parse))
  {
  }

  /** The batch cleaner keeps the same rows and adds the word count to each. */
  lemma CleanBatchRows(raw: Table, parse: Parser)
    requires CleanBatch(raw, parse).Ok?
    ensures CleanBatch(raw, parse).value.rows ==
      Map(Filter(raw.rows, (r: Row) => Survives(r, parse)), (r: Row) => BatchRow(r, parse))
  {
    CleanCommonRows(raw, parse);
    WordCountRows(CleanCommon(raw, parse).value, Filter(raw.rows, (r: Row) => Survives(r, parse)), parse);
  }

  /** The rows that the date steps keep all have a date that parses. */
  lemma KeptSurvive(rows: seq<Row>, parse: Parser)
    ensures var kept := Filter(rows, (r: Row) => Survives(r, parse));
      forall i :: 0 <= i < |kept| ==> Survives(kept[i], parse)
  {
  }

  /** An abstract the batch step can count: text, or missing (then filled with the empty string). */
  predicate CountableAbstract(r: Row) {
    Get(r, Abstract).Text? || Get(r, Abstract) == Missing
  }

  /** Prepared rows all have text abstracts exactly when every row they come from has a countable abstract. */
  lemma PreparedAbstractsIff(t: Table, kept: seq<Row>, parse: Parser)
    requires PreparedFrom(t.rows, kept, parse)
    ensures AbstractsAreText(t) <==> forall i :: 0 <= i < |kept| ==> CountableAbstract(kept[i])
  {
    if !AbstractsAreText(t) {
      var i :| 0 <= i < |t.rows| && !Get(t.rows[i], Abstract).Text?;
      assert PreparedPair(t.rows[i], kept[i], parse);
    }
  }

  /** All kept rows have a countable abstract exactly when every row whose date parses has one. */
  lemma SurvivorsCountableIff(rows: seq<Row>, parse: Parser)
    ensures var kept := Filter(rows, (r: Row) => Survives(r, parse));
      (forall i :: 0 <= i < |kept| ==> CountableAbstract(kept[i])) <==>
      (forall i :: 0 <= i < |rows| && Survives(rows[i], parse) ==> CountableAbstract(rows[i]))
  {
    var kept := Filter(rows, (r: Row) => Survives(r, parse));
    if forall i :: 0 <= i < |kept| ==> CountableAbstract(kept[i]) {
      SurvivorsCountable(rows, kept, parse);
    }
    if forall i :: 0 <= i < |rows| && Survives(rows[i], parse) ==> CountableAbstract(rows[i]) {
      KeptCountable(rows, kept, parse);
    }
  }

  lemma SurvivorsCountable(rows: seq<Row>, kept: seq<Row>, parse: Parser)
    requires kept == Filter(rows, (r: Row) => Survives(r, parse))
    requires forall i :: 0 <= i < |kept| ==> CountableAbstract(kept[i])
    ensures forall i :: 0 <= i < |rows| && Survives(rows[i], parse) ==> CountableAbstract(rows[i])
  {
    forall i | 0 <= i < |rows| && Survives(rows[i], parse)
      ensures CountableAbstract(rows[i])
    {
      assert rows[i] in kept;
      var k :| 0 <= k < |kept| && kept[k] == rows[i];
    }
  }

  lemma KeptCountable(rows: seq<Row>, kept: seq<Row>, parse: Parser)
    requires kept == Filter(rows, (r: Row) => Survives(r, parse))
    requires forall i :: 0 <= i < |rows| && Survives(rows[i], parse) ==> CountableAbstract(rows[i])
    ensures forall i :: 0 <= i < |kept| ==> CountableAbstract(kept[i])
  {
    forall i | 0 <= i < |kept|
      ensures CountableAbstract(kept[i])
    {
      var j :| 0 <= j < |rows| && rows[j] == kept[i];
      assert Survives(rows[j], parse);
    }
  }

  /** The batch cleaner fails on the abstracts exactly when some surviving row has an abstract that is neither text nor missing. */
  lemma CleanBatchSucceedsIff(raw: Table, parse: Parser)
    requires CleanCommon(raw, parse).Ok?
    ensures CleanBatch(raw, parse).Ok? <==>
      forall i :: 0 <= i < |raw.rows| && Survives(raw.rows[i], parse) ==> CountableAbstract(raw.rows[i])
    ensures CleanBatch(raw, parse).Err? ==> CleanBatch(raw, parse).error == NotText(Abstract)
  {
    var t := CleanCommon(raw, parse).value;
    var kept := Filter(raw.rows, (r: Row) => Survives(r, parse));
    CleanCommonRows(raw, parse);
    MappedArePrepared(t.rows, kept, parse);
    PreparedAbstractsIff(t, kept, parse);
    SurvivorsCountableIff(raw.rows, parse);
  }

  /** The number of rows whose date does not parse. */
  function Unparsed(rows: seq<Row>, parse: Parser): nat {
    |Filter(rows, (r: Row) => !Survives(r, parse))|
  }

  /** The cleaned table has as many rows as the input less the ones whose date does not parse. */
  lemma CleanedRowCount(raw: Table, parse: Parser)
    requires CleanCommon(raw, parse).Ok?
    ensures |CleanCommon(raw, parse).value.rows| == |raw.rows| - Unparsed(raw.rows, parse)
    ensures CleanBatch(raw, parse).Ok? ==> |CleanBatch(raw, parse).value.rows| == |raw.rows| - Unparsed(raw.rows, parse)
  {
    PrepareRows(raw, parse);
    FilterSplitsLength(raw.rows, (r: Row) => Survives(r, parse), (r: Row) => !Survives(r, parse));
  }

  /** What the shared steps guarantee of their output. */
  predicate Prepared(t: Table) {
    && WellFormed(t)
    && (forall c :: c in DropList ==> c !in t.columns)
    && Abstract in t.columns && Title in t.columns && PublishTime in t.columns && Year in t.columns
    && (forall i :: 0 <= i < |t.rows| ==> Get(t.rows[i], Abstract) != Missing && Get(t.rows[i], Title) != Missing)
    && AllDated(t)
    && (forall i :: 0 <= i < |t.rows| ==> Get(t.rows[i], Year) == Int(Get(t.rows[i], PublishTime).ts.year))
  }

  /** What the batch cleaner guarantees of its output. */
  predicate BatchPrepared(t: Table) {
    && Prepared(t)
    && WordCountColumn in t.columns
    && AbstractsAreText(t)
    && (forall i :: 0 <= i < |t.rows| ==>
         Get(t.rows[i], WordCountColumn) == Int(Text.WordCount(Get(t.rows[i], Abstract).s)))
  }

  /** Rows made by the shared steps from rows whose date parses have no missing text, a timestamp and its year. */
  lemma PreparedRowsComplete(rows: seq<Row>, kept: seq<Row>, parse: Parser)
    requires PreparedFrom(rows, kept, parse)
    requires forall i :: 0 <= i < |kept| ==> Survives(kept[i], parse)
    ensures forall i :: 0 <= i < |rows| ==> Get(rows[i], Abstract) != Missing && Get(rows[i], Title) != Missing
    ensures forall i :: 0 <= i < |rows| ==> Get(rows[i], PublishTime).DateTime?
    ensures forall i :: 0 <= i < |rows| ==> Get(rows[i], Year) == Int(Get(rows[i], PublishTime).ts.year)
  {
    forall i | 0 <= i < |rows|
      ensures Get(rows[i], Abstract) != Missing && Get(rows[i], Title) != Missing
      ensures Get(rows[i], PublishTime).DateTime?
      ensures Get(rows[i], Year) == Int(Get(rows[i], PublishTime).ts.year)
    {
      assert PreparedPair(rows[i], kept[i], parse) && Survives(kept[i], parse);
    }
  }

  /** The shared steps' output has their columns, no missing text, a timestamp and its year in every row. */
  lemma CleanCommonPrepared(raw: Table, parse: Parser)
    requires WellFormed(raw) && CleanCommon(raw, parse).Ok?
    ensures Prepared(CleanCommon(raw, parse).value)
  {
    var t := CleanCommon(raw, parse).value;
    var kept := Filter(raw.rows, (r: Row) => Survives(r, parse));
    PrepareWellFormed(raw, parse);
    PrepareRows(raw, parse);
    MappedArePrepared(t.rows, kept, parse);
    KeptSurvive(raw.rows, parse);
    PreparedRowsComplete(t.rows, kept, parse);
    NamesNotDropped();
  }

  /** The word-count step on a prepared table gives a table the batch cleaner could have produced. */
  lemma WordCountStepPrepared(t: Table)
    requires Prepared(t) && AbstractsAreText(t)
    ensures BatchPrepared(WordCountAssigned(t))
  {
    var w := WordCountAssigned(t);
    WordCountAssignedCells(t);
    WordCountAssignedWellFormed(t);
    assert AllDated(w) by {
      assert forall i :: 0 <= i < |t.rows| ==> Get(w.rows[i], PublishTime) == Get(t.rows[i], PublishTime);
    }
  }

  /** The batch cleaner's output additionally has a text abstract and its word count in every row. */
  lemma CleanBatchPrepared(raw: Table, parse: Parser)
    requires WellFormed(raw) && CleanBatch(raw, parse).Ok?
    ensures BatchPrepared(CleanBatch(raw, parse).value)
  {
    CleanCommonPrepared(raw, parse);
    WordCountStepPrepared(CleanCommon(raw, parse).value);
  }

  /** Filling a column that has no missing cell changes nothing. */
  lemma FillWithoutMissingIsIdentity(t: Table, col: string, value: string)
    requires WellFormed(t) && col in t.columns
    requires forall i :: 0 <= i < |t.rows| ==> Get(t.rows[i], col) != Missing
    ensures Filled(t, col, value) == t
  {
    FilledCells(t, col, value);
    SameTable(Filled(t, col, value), t);
  }

  /** Parsing dates that are already timestamps changes nothing. */
  lemma CoerceDatedIsIdentity(t: Table, parse: Parser)
    requires WellFormed(t) && PublishTime in t.columns && AllDated(t) && CoherentParser(parse)
    ensures DatesCoerced(t, PublishTime, parse) == t
  {
    var d := DatesCoerced(t, PublishTime, parse);
    DatesCoercedCells(t, PublishTime, parse);
    forall i | 0 <= i < |t.rows|
      ensures Get(d.rows[i], PublishTime) == Get(t.rows[i], PublishTime)
    {
      assert parse(Get(t.rows[i], PublishTime)) == Some(Get(t.rows[i], PublishTime).ts);
    }
    SameTable(d, t);
  }

  /** Deriving `year` again where every row already holds the year of its date changes nothing. */
  lemma YearAgainIsIdentity(t: Table)
    requires WellFormed(t) && Year in t.columns && AllDated(t)
    requires forall i :: 0 <= i < |t.rows| ==> Get(t.rows[i], Year) == Int(Get(t.rows[i], PublishTime).ts.year)
    ensures YearAssigned(t) == t
  {
    YearAssignedCells(t);
    SameTable(YearAssigned(t), t);
  }

  /** Counting the words again where every row already holds the count of its abstract changes nothing. */
  lemma WordCountAgainIsIdentity(t: Table)
    requires WellFormed(t) && WordCountColumn in t.columns && AbstractsAreText(t)
    requires forall i :: 0 <= i < |t.rows| ==>
      Get(t.rows[i], WordCountColumn) == Int(Text.WordCount(Get(t.rows[i], Abstract).s))
    ensures WordCountAssigned(t) == t
  {
    WordCountAssignedCells(t);
    SameTable(WordCountAssigned(t), t);
  }

  /** On a table the shared steps already produced, each of them changes nothing. */
  lemma CommonStepsFixPrepared(t: Table, parse: Parser)
    requires Prepared(t) && CoherentParser(parse)
    ensures CleanCommon(t, parse) == Ok(t)
  {
    DropAbsentIsIdentity(t, DropList);
    FillWithoutMissingIsIdentity(t, Abstract, "");
    FillWithoutMissingIsIdentity(t, Title, "");
    CoerceDatedIsIdentity(t, parse);
    NaDroppedRows(t, PublishTime);
    YearAgainIsIdentity(t);
  }

  /** Running the batch cleaner again on its own output drops no row and recomputes the same `year` and word counts. */
  lemma CleanBatchIdempotent(raw: Table, parse: Parser)
    requires WellFormed(raw) && CoherentParser(parse) && CleanBatch(raw, parse).Ok?
    ensures CleanBatch(CleanBatch(raw, parse).value, parse) == CleanBatch(raw, parse)
  {
    var t := CleanBatch(raw, parse).value;
    CleanBatchPrepared(raw, parse);
    CommonStepsFixPrepared(t, parse);
    WordCountAgainIsIdentity(t);
  }

  /** Running the shared steps again on their own output changes nothing. */
  lemma CleanCommonIdempotent(raw: Table, parse: Parser)
    requires WellFormed(raw) && CoherentParser(parse) && CleanCommon(raw, parse).Ok?
    ensures CleanCommon(CleanCommon(raw, parse).value, parse) == CleanCommon(raw, parse)
  {
    CleanCommonPrepared(raw, parse);
    CommonStepsFixPrepared(CleanCommon(raw, parse).value, parse);
  }
}

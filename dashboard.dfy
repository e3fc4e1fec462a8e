/**
 * The dashboard: it loads and prepares the metadata table, offers a year
 * range (by default from the earliest to the latest year), filters the table
 * to that range, computes the two chart aggregates on the filtered table,
 * and either passes the joined title text to the word cloud or reports that
 * no titles were found.
 */
module Dashboard {
  import opened Seqs
  import opened Frames
  import opened Counting
  import opened Cleaning
  import opened Analysis

  // ---- Loading ----

  /**
   * `load_and_prepare_data`: `None` is a file that does not exist, which
   * gives the empty table; otherwise the cleaner's shared steps, without the
   * word count.
   */
  function Load(file: Option<Table>, parse: Parser): Result<Table, CleanError> {
    match file
    case None => Ok(EmptyTable)
    case Some(raw) => CleanCommon(raw, parse)
  }

  /** `load_and_prepare_data`, updating one data frame step by step. */
  method LoadAndPrepareData(file: Option<Table>, parse: Parser) returns (result: Result<Table, CleanError>)
    requires file.Some? ==> WellFormed(file.value)
    ensures result == Load(file, parse)
  {
    if file.None? {
      return Ok(EmptyTable);
    }
    var raw := file.value;
    NamesNotDropped();
    DroppedWellFormed(raw, DropList);
    var df := new Frame(Dropped(raw, DropList));
    if Abstract !in df.columns {
      return Err(MissingColumn(Abstract));
    }
    df.FillNa(Abstract, "");
    if Title !in df.columns {
      return Err(MissingColumn(Title));
    }
    df.FillNa(Title, "");
    if PublishTime !in df.columns {
      return Err(MissingColumn(PublishTime));
    }
    ghost var filled := df.Contents();
    df.ToDatetime(PublishTime, parse);
    df.DropNa(PublishTime);
    CoercedThenDroppedIsDated(filled, parse);
    df.AssignYear();
    assert df.Contents() == Prepare(raw, parse);
    return Ok(df.Contents());
  }

  /** A missing file is loaded as a table with no rows and no columns. */
  lemma MissingFileLoadsEmpty(parse: Parser)
    ensures Load(None, parse).Ok? && IsEmpty(Load(None, parse).value)
    ensures Load(None, parse).value.columns == [] && Load(None, parse).value.rows == []
  {
  }

  /**
   * The dashboard's table is the batch cleaner's table without the word
   * count: the batch cleaner is the loading steps followed by the word
   * count, the loaded table gains no `abstract_word_count` column, and the
   * two tables hold the same rows in every other column.
   */
  lemma LoadIsBatchWithoutWordCount(raw: Table, parse: Parser)
    ensures CleanBatch(raw, parse) == match Load(Some(raw), parse)
      case Err(e) => Err(e)
      case Ok(t) => WordCountStep(t)
    ensures Load(Some(raw), parse).Ok? && WordCountColumn !in raw.columns ==>
      WordCountColumn !in Load(Some(raw), parse).value.columns
    ensures CleanBatch(raw, parse).Ok? ==>
      var b, l := CleanBatch(raw, parse).value, Load(Some(raw), parse).value;
      && WordCountColumn in b.columns
      && |b.rows| == |l.rows|
      && forall i, c :: 0 <= i < |l.rows| && c != WordCountColumn ==> Get(b.rows[i], c) == Get(l.rows[i], c)
  {
    if CleanBatch(raw, parse).Ok? {
      WordCountAssignedCells(Load(Some(raw), parse).value);
    }
  }

  /** A loaded table has what the cleaner's shared steps guarantee. */
  lemma LoadedIsPrepared(raw: Table, parse: Parser)
    requires WellFormed(raw) && Load(Some(raw), parse).Ok?
    ensures Prepared(Load(Some(raw), parse).value)
  {
    CleanCommonPrepared(raw, parse);
  }

  // ---- The year range ----

  /** Every row holds an integer `year`, as every row of a loaded table does. */
  predicate YearsKnown(rows: seq<Row>) {
    forall i :: 0 <= i < |rows| ==> Get(rows[i], Year).Int?
  }

  /** `df['year'].min()`: a year some row holds and no row is below. */
  function MinYear(rows: seq<Row>): (m: int)
    requires |rows| > 0 && YearsKnown(rows)
    ensures exists i :: 0 <= i < |rows| && Get(rows[i], Year) == Int(m)
    ensures forall i :: 0 <= i < |rows| ==> m <= Get(rows[i], Year).n
    decreases |rows|
  {
    var y := Get(rows[0], Year).n;
    if |rows| == 1 then y
    else
      var rest := MinYear(rows[1..]);
      assert forall i :: 1 <= i < |rows| ==> rows[i] == rows[1..][i - 1];
      if y <= rest then y else rest
  }

  /** `df['year'].max()`: a year some row holds and no row is above. */
  function MaxYear(rows: seq<Row>): (m: int)
    requires |rows| > 0 && YearsKnown(rows)
    ensures exists i :: 0 <= i < |rows| && Get(rows[i], Year) == Int(m)
    ensures forall i :: 0 <= i < |rows| ==> Get(rows[i], Year).n <= m
    decreases |rows|
  {
    var y := Get(rows[0], Year).n;
    if |rows| == 1 then y
    else
      var rest := MaxYear(rows[1..]);
      assert forall i :: 1 <= i < |rows| ==> rows[i] == rows[1..][i - 1];
      if y >= rest then y else rest
  }

  /** `(df['year'] >= lo) & (df['year'] <= hi)` on one row; a row without an integer year is never selected. */
  predicate InYearRange(r: Row, lo: int, hi: int) {
    Get(r, Year).Int? && lo <= Get(r, Year).n <= hi
  }

  /** `df[(df['year'] >= lo) & (df['year'] <= hi)]`. */
  function YearFilter(t: Table, lo: int, hi: int): Table {
    Table(t.columns, Filter(t.rows, (r: Row) => InYearRange(r, lo, hi)))
  }

  /**
   * The filter keeps the columns and exactly the rows whose year lies in the
   * range, in their original order.
   */
  lemma YearFilterSelects(t: Table, lo: int, hi: int)
    ensures var f := YearFilter(t, lo, hi);
      && f.columns == t.columns
      && IsSubsequence(f.rows, t.rows)
      && (forall r :: r in f.rows <==> r in t.rows && InYearRange(r, lo, hi))
      && (WellFormed(t) ==> WellFormed(f))
  {
    var p := (r: Row) => InYearRange(r, lo, hi);
    FilterIsSubsequence(t.rows, p);
    forall r
      ensures r in YearFilter(t, lo, hi).rows <==> r in t.rows && InYearRange(r, lo, hi)
    {
      FilterMembership(t.rows, p, r);
    }
  }

  /** The full range from the earliest to the latest year keeps the whole table. */
  lemma DefaultRangeKeepsAll(t: Table)
    requires |t.rows| > 0 && YearsKnown(t.rows)
    ensures YearFilter(t, MinYear(t.rows), MaxYear(t.rows)) == t
  {
    var lo, hi := MinYear(t.rows), MaxYear(t.rows);
    FilterKeepsAll(t.rows, (r: Row) => InYearRange(r, lo, hi));
  }

  /** No value occurs in more rows of the filtered table than of the whole table. */
  lemma FilteredRowsWithBounded(t: Table, lo: int, hi: int, col: string, v: Cell)
    ensures RowsWith(YearFilter(t, lo, hi).rows, col, v) <= RowsWith(t.rows, col, v)
  {
    FilterOfFilterShorter(t.rows, (r: Row) => InYearRange(r, lo, hi), (r: Row) => Get(r, col) == v);
  }

  /** A year in the range occurs in as many rows of the filtered table as of the whole table. */
  lemma FilteredYearKeepsCount(t: Table, lo: int, hi: int, y: int)
    requires lo <= y <= hi
    ensures RowsWith(YearFilter(t, lo, hi).rows, Year, Int(y)) == RowsWith(t.rows, Year, Int(y))
  {
    FilterOfImplied(t.rows, (r: Row) => InYearRange(r, lo, hi), (r: Row) => Get(r, Year) == Int(y));
  }

  /** A year held by some row of the filtered table lies in the range. */
  lemma FilteredYearInRange(t: Table, lo: int, hi: int, y: int)
    requires RowsWith(YearFilter(t, lo, hi).rows, Year, Int(y)) > 0
    ensures lo <= y <= hi
  {
    var rows := YearFilter(t, lo, hi).rows;
    var hits := Filter(rows, (r: Row) => Get(r, Year) == Int(y));
    assert hits[0] in rows && Get(hits[0], Year) == Int(y);
    FilterMembership(t.rows, (r: Row) => InYearRange(r, lo, hi), hits[0]);
  }

  /**
   * Papers per year on the filtered table: ascending years, each in the
   * range and with as many papers as in the whole table.
   */
  lemma FilteredPapersByYear(t: Table, lo: int, hi: int)
    requires Year in t.columns
    ensures var r := PapersByYear(YearFilter(t, lo, hi));
      && StrictlyAscending(r)
      && forall i :: 0 <= i < |r| ==> lo <= r[i].0 <= hi && r[i].1 == RowsWith(t.rows, Year, Int(r[i].0))
  {
    var f := YearFilter(t, lo, hi);
    var r := PapersByYear(f);
    PapersByYearCounts(f);
    forall i | 0 <= i < |r|
      ensures lo <= r[i].0 <= hi && r[i].1 == RowsWith(t.rows, Year, Int(r[i].0))
    {
      FilteredYearInRange(t, lo, hi, r[i].0);
      FilteredYearKeepsCount(t, lo, hi, r[i].0);
    }
  }

  /**
   * Top journals on the filtered table: at most ten, by non-increasing count,
   * each count that of the filtered rows and no more than that of the whole
   * table.
   */
  lemma FilteredTopJournals(t: Table, lo: int, hi: int)
    requires Journal in t.columns
    ensures var f := YearFilter(t, lo, hi);
      var r := TopJournals(f);
      && |r| <= TopJournalCount
      && NonIncreasing(r)
      && forall i :: 0 <= i < |r| ==>
           r[i].1 == RowsWith(f.rows, Journal, r[i].0) && r[i].1 <= RowsWith(t.rows, Journal, r[i].0)
  {
    var f := YearFilter(t, lo, hi);
    var r := TopJournals(f);
    TopJournalsCounts(f);
    forall i | 0 <= i < |r|
      ensures r[i].1 <= RowsWith(t.rows, Journal, r[i].0)
    {
      FilteredRowsWithBounded(t, lo, hi, Journal, r[i].0);
    }
  }

  // ---- The title panel ----

  /** Which branch the third panel takes: the word-cloud branch, handing the text to the word-cloud generator, or the "no titles" message. */
  datatype TitlePanel = WordCloud(text: string) | NoTitles

  /** `if title_text:` on the joined, lower-cased titles. */
  function TitlePanelOf(rows: seq<Row>): TitlePanel
    requires TitlesJoinable(rows)
  {
    var text := TitleText(rows);
    if text != "" then WordCloud(text) else NoTitles
  }

  /**
   * The message appears exactly when there is no title, or a single empty
   * one: between two titles the joining space alone makes the text non-empty.
   */
  lemma NoTitlesIff(rows: seq<Row>)
    requires TitlesJoinable(rows)
    ensures TitlePanelOf(rows) == NoTitles <==>
      |Titles(rows)| == 0 || (|Titles(rows)| == 1 && Titles(rows)[0] == "")
  {
    Text.JoinEmptyIff(Titles(rows));
  }

  /** With a text title in every row (as after filling), the message appears only for no rows or one row with an empty title. */
  lemma FilledNoTitlesIff(rows: seq<Row>)
    requires forall i :: 0 <= i < |rows| ==> Get(rows[i], Title).Text?
    ensures TitlePanelOf(rows) == NoTitles <==> |rows| == 0 || (|rows| == 1 && Get(rows[0], Title) == Text(""))
  {
    TitlesOfFilledRows(rows);
    NoTitlesIff(rows);
  }

  /**
   * With two or more rows the word-cloud branch is taken even when every
   * title is empty: the text is then only the joining spaces.
   */
  lemma EmptyTitlesTakeCloudBranch(rows: seq<Row>)
    requires |rows| >= 2
    requires forall i :: 0 <= i < |rows| ==> Get(rows[i], Title) == Text("")
    ensures TitlePanelOf(rows).WordCloud?
  {
    FilledNoTitlesIff(rows);
  }

  // ---- The page ----

  /** What the dashboard shows below the data filters. */
  datatype Panels = Panels(
    yearRange: (int, int),
    filtered: Table,
    papersByYear: seq<(int, nat)>,
    topJournals: seq<(Cell, nat)>,
    titles: TitlePanel)

  /**
   * The columns and cells the page reads: the sample table's columns
   * (`title`, `authors`, `journal`, `publish_time`, `abstract`) and `year`
   * exist, every year is an integer and every title is text or missing.
   * Without one of these columns the page stops with a KeyError.
   */
  predicate Displayable(t: Table) {
    && Title in t.columns && Authors in t.columns && Journal in t.columns
    && PublishTime in t.columns && Abstract in t.columns && Year in t.columns
    && YearsKnown(t.rows) && TitlesJoinable(t.rows)
  }

  /** Filtering keeps a table displayable. */
  lemma FilteredDisplayable(t: Table, lo: int, hi: int)
    requires Displayable(t)
    ensures Displayable(YearFilter(t, lo, hi))
  {
    var f := YearFilter(t, lo, hi);
    forall i | 0 <= i < |f.rows|
      ensures Get(f.rows[i], Year).Int?
      ensures Get(f.rows[i], Title).Text? || Get(f.rows[i], Title) == Missing
    {
      var j :| 0 <= j < |t.rows| && t.rows[j] == f.rows[i];
    }
  }

  /**
   * The page below the title: nothing for an empty table; otherwise the
   * chosen year range (`None` is the slider left at its default, the whole
   * range of years), the filtered table and the three panels computed from it.
   */
  function Render(t: Table, choice: Option<(int, int)>): Option<Panels>
    requires !IsEmpty(t) ==> Displayable(t)
  {
    if IsEmpty(t) then None
    else
      var range := match choice
        case None => (MinYear(t.rows), MaxYear(t.rows))
        case Some(r) => r;
      var f := YearFilter(t, range.0, range.1);
      FilteredDisplayable(t, range.0, range.1);
      Some(Panels(range, f, PapersByYear(f), TopJournals(f), TitlePanelOf(f.rows)))
  }

  /** A missing file shows no filter, chart or word cloud. */
  lemma MissingFileRendersNothing(parse: Parser, choice: Option<(int, int)>)
    ensures Load(None, parse).Ok? && Render(Load(None, parse).value, choice) == None
  {
  }

  /** A table with rows and columns is rendered, and an empty one is not. */
  lemma RenderedIffNotEmpty(t: Table, choice: Option<(int, int)>)
    requires !IsEmpty(t) ==> Displayable(t)
    ensures Render(t, choice).Some? <==> |t.rows| > 0 && |t.columns| > 0
  {
  }

  /** At the default range the panels are computed from the whole table. */
  lemma DefaultRangeShowsAll(t: Table)
    requires !IsEmpty(t) && Displayable(t)
    ensures var p := Render(t, None).value;
      && p.yearRange == (MinYear(t.rows), MaxYear(t.rows))
      && p.filtered == t
      && p.papersByYear == PapersByYear(t)
      && p.topJournals == TopJournals(t)
      && p.titles == TitlePanelOf(t.rows)
  {
    DefaultRangeKeepsAll(t);
  }

  /**
   * What the panels show for any chosen range: the rows of the range, their
   * papers per year with the whole table's counts, at most ten journals by
   * non-increasing count, and the word cloud unless no title text remains.
   */
  lemma RenderedPanels(t: Table, choice: Option<(int, int)>)
    requires !IsEmpty(t) && Displayable(t)
    ensures var p := Render(t, choice).value;
      var lo, hi := p.yearRange.0, p.yearRange.1;
      && (forall r :: r in p.filtered.rows <==> r in t.rows && InYearRange(r, lo, hi))
      && IsSubsequence(p.filtered.rows, t.rows)
      && StrictlyAscending(p.papersByYear)
      && (forall i :: 0 <= i < |p.papersByYear| ==>
           lo <= p.papersByYear[i].0 <= hi && p.papersByYear[i].1 == RowsWith(t.rows, Year, Int(p.papersByYear[i].0)))
      && |p.topJournals| <= TopJournalCount
      && NonIncreasing(p.topJournals)
      && (forall i :: 0 <= i < |p.topJournals| ==> p.topJournals[i].1 <= RowsWith(t.rows, Journal, p.topJournals[i].0))
      && TitlesJoinable(p.filtered.rows)
      && (p.titles == NoTitles <==>
           |Titles(p.filtered.rows)| == 0 || (|Titles(p.filtered.rows)| == 1 && Titles(p.filtered.rows)[0] == ""))
  {
    var p := Render(t, choice).value;
    var lo, hi := p.yearRange.0, p.yearRange.1;
    assert p.filtered == YearFilter(t, lo, hi);
    YearFilterSelects(t, lo, hi);
    FilteredPapersByYear(t, lo, hi);
    FilteredTopJournals(t, lo, hi);
    FilteredDisplayable(t, lo, hi);
    NoTitlesIff(p.filtered.rows);
  }

  /**
   * A loaded table whose `journal` and `authors` columns survive the drop and
   * whose titles were text or missing can be rendered: its years are integers
   * and its titles, filled with the empty string, are all text.
   */
  lemma LoadedDisplayable(raw: Table, parse: Parser)
    requires WellFormed(raw) && Load(Some(raw), parse).Ok? && Journal in raw.columns && Authors in raw.columns
    requires TitlesJoinable(raw.rows)
    ensures Displayable(Load(Some(raw), parse).value)
    ensures forall i :: 0 <= i < |Load(Some(raw), parse).value.rows| ==>
      Get(Load(Some(raw), parse).value.rows[i], Title).Text?
  {
    LoadedKeepsColumns(raw, parse);
    LoadedIsPrepared(raw, parse);
    LoadedTitlesAreText(raw, parse);
  }

  /** The `journal` and `authors` columns are not dropped, so a loaded table keeps them. */
  lemma LoadedKeepsColumns(raw: Table, parse: Parser)
    requires Load(Some(raw), parse).Ok? && Journal in raw.columns && Authors in raw.columns
    ensures Journal in Load(Some(raw), parse).value.columns && Authors in Load(Some(raw), parse).value.columns
  {
    NamesNotDropped();
    var t := Prepare(raw, parse);
    assert Load(Some(raw), parse).value == t;
  }

  /** Filling turns every title that was text or missing into text. */
  lemma LoadedTitlesAreText(raw: Table, parse: Parser)
    requires Load(Some(raw), parse).Ok? && TitlesJoinable(raw.rows)
    ensures forall i :: 0 <= i < |Load(Some(raw), parse).value.rows| ==>
      Get(Load(Some(raw), parse).value.rows[i], Title).Text?
  {
    var rows := CleanCommon(raw, parse).value.rows;
    var kept := Filter(raw.rows, (r: Row) => Survives(r, parse));
    CleanCommonRows(raw, parse);
    MappedArePrepared(rows, kept, parse);
    KeptTitlesJoinable(raw.rows, parse);
    FilledTitlesAreText(rows, kept, parse);
  }

  /** The rows kept by the date filter have text or missing titles when all input rows do. */
  lemma KeptTitlesJoinable(rows: seq<Row>, parse: Parser)
    requires TitlesJoinable(rows)
    ensures TitlesJoinable(Filter(rows, (r: Row) => Survives(r, parse)))
  {
    var kept := Filter(rows, (r: Row) => Survives(r, parse));
    forall i | 0 <= i < |kept|
      ensures Get(kept[i], Title).Text? || Get(kept[i], Title) == Missing
    {
      var j :| 0 <= j < |rows| && rows[j] == kept[i];
    }
  }

  /** Prepared rows of rows with text or missing titles all have text titles. */
  lemma FilledTitlesAreText(rows: seq<Row>, kept: seq<Row>, parse: Parser)
    requires PreparedFrom(rows, kept, parse) && TitlesJoinable(kept)
    ensures forall i :: 0 <= i < |rows| ==> Get(rows[i], Title).Text?
  {
    forall i | 0 <= i < |rows|
      ensures Get(rows[i], Title).Text?
    {
      assert PreparedPair(rows[i], kept[i], parse);
    }
  }
}

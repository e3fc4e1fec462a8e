/**
 * The aggregates the analysis script and the dashboard compute from a cleaned
 * table: papers per year in ascending year order, the ten most frequent
 * journals, and the fifteen most frequent title words once stop words are
 * removed.
 */
module Analysis {
  import opened Seqs
  import opened Frames
  import opened Counting
  import opened Text

  /** The words left out of the title word count. */
  const StopWords: set<string> := {
    "the", "a", "an", "in", "of", "to", "and", "with", "for", "on", "by", "is", "are", "as", "at",
    "from", "but", "or", "it", "its", "covid-19", "coronavirus", "sar", "sars", "cov", "ncov", "sars-cov-2"
  }

  /** The number of journals and of words the two charts list. */
  const TopJournalCount: nat := 10
  const TopWordCount: nat := 15

  // ---- Papers per year ----

  /** `df['year'].value_counts().sort_index()`: each year with its number of rows, years ascending. */
  function PapersByYear(t: Table): seq<(int, nat)>
    requires Year in t.columns
  {
    SortByKey(Tally(YearColumn(t.rows)))
  }

  /** Inserting an entry adds its count to the total. */
  lemma {:induction false} InsertByKeySum(p: (int, nat), s: seq<(int, nat)>)
    ensures Sum(InsertByKey(p, s)) == p.1 + Sum(s)
    decreases |s|
  {
    if |s| > 0 && p.0 >= s[0].0 {
      InsertByKeySum(p, s[1..]);
      assert InsertByKey(p, s)[1..] == InsertByKey(p, s[1..]);
    }
  }

  /** Sorting by key keeps the total. */
  lemma {:induction false} SortByKeySum(e: seq<(int, nat)>)
    ensures Sum(SortByKey(e)) == Sum(e)
    decreases |e|
  {
    if |e| > 0 {
      SortByKeySum(e[1..]);
      InsertByKeySum(e[0], SortByKey(e[1..]));
    }
  }

  /**
   * One entry per distinct year, in strictly ascending year order; each count
   * is the number of rows holding that year, and every row's year is listed.
   */
  lemma PapersByYearCounts(t: Table)
    requires Year in t.columns
    ensures var r := PapersByYear(t);
      && StrictlyAscending(r)
      && (forall i :: 0 <= i < |r| ==> r[i].1 == RowsWith(t.rows, Year, Int(r[i].0)) && r[i].1 > 0)
      && (forall i :: 0 <= i < |t.rows| && Get(t.rows[i], Year).Int? ==> HasKey(r, Get(t.rows[i], Year).n))
  {
    SortByKeyOrdered(Tally(YearColumn(t.rows)));
    PapersByYearCountRows(t);
    forall i | 0 <= i < |t.rows| && Get(t.rows[i], Year).Int?
      ensures HasKey(PapersByYear(t), Get(t.rows[i], Year).n)
    {
      PapersByYearListsRow(t, i);
    }
  }

  /** Each listed year is counted once per row holding it. */
  lemma PapersByYearCountRows(t: Table)
    requires Year in t.columns
    ensures var r := PapersByYear(t);
      forall i :: 0 <= i < |r| ==> r[i].1 == RowsWith(t.rows, Year, Int(r[i].0)) && r[i].1 > 0
  {
    var tally := Tally(YearColumn(t.rows));
    var r := SortByKey(tally);
    forall i | 0 <= i < |r|
      ensures r[i].1 == RowsWith(t.rows, Year, Int(r[i].0)) && r[i].1 > 0
    {
      assert r[i] in tally;
      YearColumnCountsRows(t.rows, r[i].0);
    }
  }

  /** The year of a row with an integer year is listed. */
  lemma PapersByYearListsRow(t: Table, i: nat)
    requires Year in t.columns
    requires i < |t.rows| && Get(t.rows[i], Year).Int?
    ensures HasKey(PapersByYear(t), Get(t.rows[i], Year).n)
  {
    var ys := YearColumn(t.rows);
    var y := Get(t.rows[i], Year).n;
    YearInColumn(t.rows, i);
    var k :| 0 <= k < |ys| && ys[k] == y;
    SortKeepsKey(Tally(ys), y);
  }

  /** Sorting by key loses no key. */
  lemma SortKeepsKey(e: seq<(int, nat)>, k: int)
    requires HasKey(e, k)
    ensures HasKey(SortByKey(e), k)
  {
    var r := SortByKey(e);
    var j :| 0 <= j < |e| && e[j].0 == k;
    assert e[j] in multiset(r);
    var m :| 0 <= m < |r| && r[m] == e[j];
  }

  /** The integer year of a row occurs in the year column. */
  lemma {:induction false} YearInColumn(rows: seq<Row>, i: nat)
    requires i < |rows| && Get(rows[i], Year).Int?
    ensures Get(rows[i], Year).n in YearColumn(rows)
    decreases |rows|
  {
    if i > 0 {
      YearInColumn(rows[1..], i - 1);
    }
  }

  /** When every row has an integer year (as after cleaning), the counts add up to the number of rows. */
  lemma PapersByYearSum(t: Table)
    requires Year in t.columns
    requires forall i :: 0 <= i < |t.rows| ==> Get(t.rows[i], Year).Int?
    ensures Sum(PapersByYear(t)) == |t.rows|
  {
    SortByKeySum(Tally(YearColumn(t.rows)));
  }

  // ---- Top journals ----

  /** `df['journal'].value_counts().head(10)`. */
  function TopJournals(t: Table): seq<(Cell, nat)>
    requires Journal in t.columns
  {
    TopN(NonMissing(t.rows, Journal), TopJournalCount)
  }

  /**
   * At most ten journals, by non-increasing count, each with its number of
   * rows; a journal left out is held by no more rows than any journal listed.
   */
  lemma TopJournalsCounts(t: Table)
    requires Journal in t.columns
    ensures var r := TopJournals(t);
      && |r| <= TopJournalCount
      && NonIncreasing(r)
      && DistinctKeys(r)
      && (forall i :: 0 <= i < |r| ==> r[i].0 != Missing && r[i].1 == RowsWith(t.rows, Journal, r[i].0))
      && (forall i :: 0 <= i < |t.rows| && Get(t.rows[i], Journal) != Missing && !HasKey(r, Get(t.rows[i], Journal)) ==>
           |r| == TopJournalCount &&
           forall j :: 0 <= j < |r| ==> RowsWith(t.rows, Journal, Get(t.rows[i], Journal)) <= r[j].1)
  {
    ListedJournals(t);
    UnlistedJournals(t);
  }

  /** Each listed journal is present and counted once per row holding it. */
  lemma ListedJournals(t: Table)
    requires Journal in t.columns
    ensures var r := TopJournals(t);
      forall i :: 0 <= i < |r| ==> r[i].0 != Missing && r[i].1 == RowsWith(t.rows, Journal, r[i].0)
  {
    var r := TopJournals(t);
    forall i | 0 <= i < |r|
      ensures r[i].0 != Missing && r[i].1 == RowsWith(t.rows, Journal, r[i].0)
    {
      NonMissingCountsRows(t.rows, Journal, r[i].0);
    }
  }

  /** Every journal left out is held by no more rows than any listed journal, and only a full list leaves one out. */
  lemma UnlistedJournals(t: Table)
    requires Journal in t.columns
    ensures var r := TopJournals(t);
      forall i :: 0 <= i < |t.rows| && Get(t.rows[i], Journal) != Missing && !HasKey(r, Get(t.rows[i], Journal)) ==>
        |r| == TopJournalCount &&
        forall j :: 0 <= j < |r| ==> RowsWith(t.rows, Journal, Get(t.rows[i], Journal)) <= r[j].1
  {
    forall i | 0 <= i < |t.rows| && Get(t.rows[i], Journal) != Missing && !HasKey(TopJournals(t), Get(t.rows[i], Journal))
      ensures |TopJournals(t)| == TopJournalCount
      ensures forall j :: 0 <= j < |TopJournals(t)| ==> RowsWith(t.rows, Journal, Get(t.rows[i], Journal)) <= TopJournals(t)[j].1
    {
      UnlistedJournal(t, i);
    }
  }

  /** A journal of some row that is not listed is held by no more rows than any listed journal. */
  lemma UnlistedJournal(t: Table, i: nat)
    requires Journal in t.columns
    requires i < |t.rows| && Get(t.rows[i], Journal) != Missing && !HasKey(TopJournals(t), Get(t.rows[i], Journal))
    ensures |TopJournals(t)| == TopJournalCount
    ensures forall j :: 0 <= j < |TopJournals(t)| ==> RowsWith(t.rows, Journal, Get(t.rows[i], Journal)) <= TopJournals(t)[j].1
  {
    var js := NonMissing(t.rows, Journal);
    var v := Get(t.rows[i], Journal);
    NonMissingHolds(t.rows, Journal, i);
    var k :| 0 <= k < |js| && js[k] == v;
    NonMissingCountsRows(t.rows, Journal, v);
    UnlistedInTopN(js, TopJournalCount, k);
  }

  /** A present cell occurs among the non-missing cells of its column. */
  lemma {:induction false} NonMissingHolds(rows: seq<Row>, col: string, i: nat)
    requires i < |rows| && Get(rows[i], col) != Missing
    ensures Get(rows[i], col) in NonMissing(rows, col)
    decreases |rows|
  {
    if i > 0 {
      NonMissingHolds(rows[1..], col, i - 1);
    }
  }

  // ---- Title words ----

  /** Every present title is text, so that `" ".join` accepts the titles. */
  predicate TitlesJoinable(rows: seq<Row>) {
    forall i :: 0 <= i < |rows| ==> Get(rows[i], Title).Text? || Get(rows[i], Title) == Missing
  }

  /**
   * `df['title'].dropna()`: the present titles, in row order. The lemma
   * TitlesArePresentTitles states this exactly:
   * `Titles(rows) == Map(Filter(rows, HasTitle), TitleOf)`.
   */
  function Titles(rows: seq<Row>): (ts: seq<string>)
    requires TitlesJoinable(rows)
    ensures |ts| <= |rows|
    decreases |rows|
  {
    if |rows| == 0 then []
    else
      var rest := Titles(rows[1..]);
      match Get(rows[0], Title)
      case Text(s) => [s] + rest
      case _ => rest
  }

  /** `" ".join(df['title'].dropna()).lower()`. */
  function TitleText(rows: seq<Row>): string
    requires TitlesJoinable(rows)
  {
    Lower(Join(Titles(rows), " "))
  }

  /** `re.findall(r'\b\w+\b', title_text)`. */
  function TitleWords(rows: seq<Row>): seq<string>
    requires TitlesJoinable(rows)
  {
    Words(TitleText(rows))
  }

  /** A word the comprehension keeps. */
  predicate NotStopWord(w: string) {
    w !in StopWords
  }

  /** `[word for word in words if word not in stop_words]`. */
  function FilteredWords(rows: seq<Row>): seq<string>
    requires TitlesJoinable(rows)
  {
    Filter(TitleWords(rows), NotStopWord)
  }

  /** `pd.Series(filtered_words).value_counts().head(15)`. */
  function WordFreq(rows: seq<Row>): seq<(string, nat)>
    requires TitlesJoinable(rows)
  {
    TopN(FilteredWords(rows), TopWordCount)
  }

  /** A row whose title `dropna` keeps. */
  predicate HasTitle(r: Row) {
    Get(r, Title) != Missing
  }

  /** The text of a kept title. */
  function TitleOf(r: Row): string {
    if Get(r, Title).Text? then Get(r, Title).s else ""
  }

  /** The titles are the texts of exactly the rows with a title, in row order. */
  lemma {:induction false} TitlesArePresentTitles(rows: seq<Row>)
    requires TitlesJoinable(rows)
    ensures Titles(rows) == Map(Filter(rows, HasTitle), TitleOf)
    decreases |rows|
  {
    if |rows| > 0 {
      TitlesArePresentTitles(rows[1..]);
    }
  }

  /** The title text is the space join of the lower-cased present titles, in row order. */
  lemma TitleTextOfPresentTitles(rows: seq<Row>)
    requires TitlesJoinable(rows)
    ensures TitleText(rows) == Join(Map(Map(Filter(rows, HasTitle), TitleOf), Lower), " ")
  {
    TitlesArePresentTitles(rows);
    LowerJoin(Titles(rows));
  }

  /** The title words are the words of each lower-cased present title, title after title. */
  lemma TitleWordsOfPresentTitles(rows: seq<Row>)
    requires TitlesJoinable(rows)
    ensures TitleWords(rows) == Flatten(Map(Map(Map(Filter(rows, HasTitle), TitleOf), Lower), Words))
  {
    TitlesArePresentTitles(rows);
    TitleWordsPerTitle(rows);
  }

  /** With no missing title, there is one title per row, in row order. */
  lemma {:induction false} TitlesOfFilledRows(rows: seq<Row>)
    requires forall i :: 0 <= i < |rows| ==> Get(rows[i], Title).Text?
    ensures |Titles(rows)| == |rows|
    ensures forall i :: 0 <= i < |rows| ==> Titles(rows)[i] == Get(rows[i], Title).s
    decreases |rows|
  {
    if |rows| > 0 {
      TitlesOfFilledRows(rows[1..]);
    }
  }

  /**
   * The title words are the words of each lower-cased title, title after
   * title: the space joining two titles is not a word character, so no word
   * spans two titles. Each word is a non-empty run of word characters.
   */
  lemma TitleWordsPerTitle(rows: seq<Row>)
    requires TitlesJoinable(rows)
    ensures TitleWords(rows) == Flatten(Map(Map(Titles(rows), Lower), Words))
    ensures forall i :: 0 <= i < |TitleWords(rows)| ==>
      |TitleWords(rows)[i]| > 0 && AllInClass(TitleWords(rows)[i], WordChars)
  {
    var ts := Titles(rows);
    LowerJoin(ts);
    RunsOfJoin(Map(ts, Lower), ' ', WordChars);
    assert Map(Map(ts, Lower), Words) == Map(Map(ts, Lower), (s: string) => Runs(s, WordChars));
    RunsAreTokens(TitleText(rows), WordChars);
  }

  /** The stop words are removed title by title: the kept words are each lower-cased title's kept words, title after title. */
  lemma FilteredWordsPerTitle(rows: seq<Row>)
    requires TitlesJoinable(rows)
    ensures FilteredWords(rows) == Flatten(FilterEach(Map(Map(Titles(rows), Lower), Words), NotStopWord))
  {
    TitleWordsPerTitle(rows);
    FilterFlatten(Map(Map(Titles(rows), Lower), Words), NotStopWord);
  }

  /** Exactly the title words outside the stop set remain, in order, each as often as it occurs. */
  lemma FilteredWordsSpec(rows: seq<Row>)
    requires TitlesJoinable(rows)
    ensures var ws, fs := TitleWords(rows), FilteredWords(rows);
      && (forall i :: 0 <= i < |fs| ==> fs[i] !in StopWords && fs[i] in ws)
      && (forall i :: 0 <= i < |ws| && ws[i] !in StopWords ==> ws[i] in fs)
      && (forall w :: multiset(fs)[w] == if w in StopWords then 0 else multiset(ws)[w])
  {
    var ws := TitleWords(rows);
    forall w
      ensures multiset(FilteredWords(rows))[w] == if w in StopWords then 0 else multiset(ws)[w]
    {
      FilterCount(ws, NotStopWord, w);
    }
  }

  /** A string with a character that is not a word character is never a word. */
  lemma NotAWord(rows: seq<Row>, w: string, k: nat)
    requires TitlesJoinable(rows)
    requires k < |w| && !IsWordChar(w[k])
    ensures w !in TitleWords(rows)
  {
    var ws := TitleWords(rows);
    TitleWordsPerTitle(rows);
    forall i | 0 <= i < |ws|
      ensures ws[i] != w
    {
      if k < |ws[i]| {
        assert InClass(ws[i][k], WordChars);
      }
    }
  }

  /** Which of the words in question are stop words. */
  lemma StopWordFacts()
    ensures "covid-19" in StopWords && "sars-cov-2" in StopWords
    ensures "covid" !in StopWords && "19" !in StopWords && "2" !in StopWords
  {
  }

  /**
   * The stop words `covid-19` and `sars-cov-2` hold a hyphen, which is not a
   * word character, so no title word ever equals them; the words `covid`,
   * `19` and `2` that titles like "COVID-19" and "SARS-CoV-2" yield are not
   * stop words.
   */
  lemma HyphenatedStopWordsNeverMatch(rows: seq<Row>)
    requires TitlesJoinable(rows)
    ensures "covid-19" in StopWords && "covid-19" !in TitleWords(rows)
    ensures "sars-cov-2" in StopWords && "sars-cov-2" !in TitleWords(rows)
    ensures "covid" !in StopWords && "19" !in StopWords && "2" !in StopWords
  {
    StopWordFacts();
    NotAWord(rows, "covid-19", 5);
    NotAWord(rows, "sars-cov-2", 4);
  }

  /** A single row's title text is its lower-cased title. */
  lemma OneTitleText(rows: seq<Row>, x: string)
    requires |rows| == 1 && Get(rows[0], Title) == Text(x)
    ensures TitlesJoinable(rows) && TitleText(rows) == Lower(x)
  {
    assert Titles(rows[1..]) == [];
    assert Titles(rows) == [x];
  }

  lemma CovidSurvives()
    ensures Filter(["covid", "19"], NotStopWord) == ["covid", "19"]
  {
    StopWordFacts();
    FilterKeepsAll(["covid", "19"], NotStopWord);
  }

  lemma LowerCovid()
    ensures Lower("COVID-19") == "covid-19"
  {
    var low := Lower("COVID-19");
    assert forall i :: 0 <= i < 8 ==> low[i] == "covid-19"[i];
  }

  /** `re.findall(r'\b\w+\b', "covid-19")` is `["covid", "19"]`. */
  lemma CovidWords()
    ensures Words("covid-19") == ["covid", "19"]
  {
    CovidPieces();
    TwoRuns("covid", '-', "19", WordChars);
  }

  lemma CovidPieces()
    ensures "covid-19" == "covid" + ['-'] + "19"
    ensures AllInClass("covid", WordChars) && AllInClass("19", WordChars) && !InClass('-', WordChars)
  {
  }

  /** A single title "COVID-19" yields the words `covid` and `19`, and both survive the stop-word filter. */
  lemma CovidTitleWords(rows: seq<Row>)
    requires |rows| == 1 && Get(rows[0], Title) == Text("COVID-19")
    ensures TitlesJoinable(rows)
    ensures TitleWords(rows) == ["covid", "19"] && FilteredWords(rows) == ["covid", "19"]
  {
    OneTitleText(rows, "COVID-19");
    LowerCovid();
    CovidWords();
    assert TitleWords(rows) == ["covid", "19"];
    CovidSurvives();
  }

  /**
   * At most fifteen words, by non-increasing count, none a stop word, each
   * with its number of occurrences among the filtered words; a word left out
   * occurs no more often than any word listed.
   */
  lemma WordFreqCounts(rows: seq<Row>)
    requires TitlesJoinable(rows)
    ensures var r, fs := WordFreq(rows), FilteredWords(rows);
      && |r| <= TopWordCount
      && NonIncreasing(r)
      && DistinctKeys(r)
      && (forall i :: 0 <= i < |r| ==> r[i].0 !in StopWords && r[i].1 == multiset(fs)[r[i].0])
      && (forall i :: 0 <= i < |fs| && !HasKey(r, fs[i]) ==>
           |r| == TopWordCount && forall j :: 0 <= j < |r| ==> multiset(fs)[fs[i]] <= r[j].1)
  {
    var fs := FilteredWords(rows);
    assert forall i :: 0 <= i < |fs| ==> fs[i] !in StopWords;
    TopNAvoids(fs, TopWordCount, StopWords);
  }

  /** Values that never occur in the input are never listed. */
  lemma TopNAvoids(xs: seq<string>, n: nat, excluded: set<string>)
    requires forall i :: 0 <= i < |xs| ==> xs[i] !in excluded
    ensures forall i :: 0 <= i < |TopN(xs, n)| ==> TopN(xs, n)[i].0 !in excluded
  {
    var r := TopN(xs, n);
    forall i | 0 <= i < |r|
      ensures r[i].0 !in excluded
    {
      var k :| 0 <= k < |xs| && xs[k] == r[i].0;
    }
  }

  // ---- Empty input ----

  /** A table without rows gives no year, no journal and no word. */
  lemma EmptyTableAggregates(t: Table)
    requires Year in t.columns && Journal in t.columns && |t.rows| == 0
    ensures PapersByYear(t) == [] && TopJournals(t) == [] && WordFreq(t.rows) == []
  {
    assert Titles(t.rows) == [];
    assert TitleText(t.rows) == "";
    RunsOfSeparators("", WordChars);
  }
}

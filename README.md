# CORD-19 metadata cleaning, analysis and dashboard — a Dafny model

This project models the data path of a small CORD-19 analysis assignment:

- **Batch cleaner** (`part2_cleaning.py`). It drops six sparse columns and fills missing `abstract` and `title` cells with
  the empty string. It parses `publish_time` and removes the rows whose date does not parse. Then it derives `year`
  and `abstract_word_count`.
- **Analysis script** (`part3_analysis.py`). It counts papers per year in year order and finds the ten journals with
  the most rows. It also builds the fifteen most frequent title words: titles are joined with spaces and lower-cased,
  split into `\b\w+\b` words, and twenty-seven stop words are removed.
- **Dashboard** (`app.py`). `load_and_prepare_data` repeats the cleaner without the word count; a missing file gives
  an empty table, and an empty table shows nothing. A year-range filter feeds the same aggregates. The word cloud is
  guarded by a test on the joined title text.

The table is a value `Table(columns, rows)`: each row maps column names to cells. A cell is missing, text, an integer
or a timestamp. Each cleaning step is a function on tables. The drop builds a new `Cleaning.Frame`, the data frame the
scripts update in place, and every later step is a method of that class. The methods are proved to compute their
step's function. The scripts themselves,
`Cleaning.CleanMetadata` and `Dashboard.LoadAndPrepareData`, are methods proved equal to the functions
`Cleaning.CleanBatch` and `Dashboard.Load`. The analysis and the dashboard aggregates are pure functions.

`pd.to_datetime(..., errors='coerce')` on one cell is a parameter `parse: Cell -> Option<Timestamp>`. The model
depends only on whether a cell parses and on the year of the result. Re-running the cleaner is shown to change nothing
when the parser maps NaN to NaT and leaves timestamps as they are (`CoherentParser`).

Modules: `Seqs` (Option and Result, `Filter`, `Map`), `Frames` (cells, rows, tables), `Text` (tokenisers, `lower`,
`join`), `Counting` (`value_counts`, `sort_index`, `head`), `Cleaning`, `Analysis`, `Dashboard`.

## Model

| member | source | states |
|---|---|---|
| Seqs.Filter | part2_cleaning.py:40 | the survivors are input elements satisfying the predicate, and every input element satisfying it survives |
| Seqs.Map | part2_cleaning.py:47 | `apply` keeps the length and transforms each position |
| Seqs.FilterConcat | part3_analysis.py:43 | filtering a concatenation filters each part: survivors keep their order |
| Seqs.FilterCount | part3_analysis.py:43 | each kept value keeps all its occurrences; each rejected value loses all of them |
| Seqs.FilterKeepsAll | app.py:68 | a filter whose predicate holds everywhere returns its input |
| Seqs.FilterSplitsLength | part2_cleaning.py:40 | kept and rejected elements add up to the input length |
| Seqs.FilterMapCommute | part2_cleaning.py:37-40 | filtering the transformed rows equals transforming the rows that pass the equivalent test |
| Seqs.FilterMembership | part3_analysis.py:43 | an element is in the result iff it is in the input and passes |
| Seqs.FilterNoDup | part2_cleaning.py:22 | filtering a list of distinct names keeps them distinct |
| Seqs.FilterIsSubsequence | app.py:68 | a filter's result is a subsequence of its input |
| Seqs.FilterOfImplied | app.py:68 | a second filter implied by the first gives the same rows as that filter alone |
| Seqs.FilterOfFilterShorter | app.py:68 | pre-filtering never selects more rows for a second predicate |
| Frames.AddColumn | part2_cleaning.py:44-47 | assigning a column keeps an existing column list as it is, appends a new column last, and keeps names distinct |
| Frames.AddedColumnWellFormed | part2_cleaning.py:44-47 | a table whose rows all gained a key is well formed once the column is added |
| Frames.YearColumn | part3_analysis.py:24 | the integer years, at most one per row and exactly one per row when every year is an integer |
| Frames.NonMissing | part3_analysis.py:29 | the column's cells without NaN: none of them missing, never more than the rows |
| Frames.NonMissingCountsRows | part3_analysis.py:29 | a present value occurs among the non-missing cells once per row holding it |
| Frames.YearColumnCountsRows | part3_analysis.py:24 | a year occurs in the year column once per row holding it |
| Text.RunLength | part3_analysis.py:41 | the leading run is non-empty, all class characters, and ends at a non-class character or the end |
| Text.Runs | part3_analysis.py:41 | the maximal runs of a character class, left to right, as `re.findall(r'\b\w+\b')` and `str.split()` find them; stated by RunsAreTokens, RunLengthUnique, RunsSplitAtSeparator and RunsOfJoin |
| Text.Words | part3_analysis.py:41 | `re.findall(r'\b\w+\b', s)`: the maximal runs of ASCII word characters; stated by RunsAreTokens, TwoRuns and Analysis.NotAWord |
| Text.WordCount | part2_cleaning.py:47 | `len(s.split())`: the number of maximal runs of non-whitespace characters; stated by RunsOfSeparators and Cleaning.WordCountAssignedCells |
| Text.RunsAreTokens | part3_analysis.py:41 | every token is a non-empty run of class characters |
| Text.RunLengthStopsAtBoundary | part3_analysis.py:41 | a leading run does not extend past a class boundary |
| Text.RunLengthUnique | part3_analysis.py:41 | the run length is the only prefix length of class characters followed by a boundary |
| Text.RunsSplitAtSeparator | part3_analysis.py:40-41 | tokenising across a separator tokenises both sides apart |
| Text.RunsOfRun | part3_analysis.py:41 | a non-empty run of class characters is a single token |
| Text.TwoRuns | part3_analysis.py:41 | two runs around one separator character are exactly two tokens |
| Text.RunsOfSeparators | part2_cleaning.py:47 | a string with no class character has no token, so `''.split()` is empty |
| Text.Lower | part3_analysis.py:40 | `lower` keeps the length and lower-cases each character |
| Text.LowerConcat | part3_analysis.py:40 | lower-casing distributes over concatenation |
| Text.LowerJoin | part3_analysis.py:40 | lower-casing a space join equals joining the lower-cased titles |
| Text.Join | part3_analysis.py:40 | `sep.join(parts)`: the parts in order, one separator between neighbours; stated by JoinEmptyIff, LowerJoin and RunsOfJoin |
| Text.JoinEmptyIff | app.py:105-107 | a space join is empty iff there is no part, or a single empty part |
| Text.FilterEach | part3_analysis.py:43 | one filtered part per part, each the filter of that part |
| Text.FilterFlatten | part3_analysis.py:43 | filtering concatenated parts equals concatenating the filtered parts |
| Text.RunsOfJoin | part3_analysis.py:40-41 | tokenising a join over a separator is the concatenation of each part's tokens |
| Counting.Bump | part3_analysis.py:24 | counting one more occurrence raises its entry by one or appends `(x, 1)`; the total rises by one |
| Counting.BumpTallies | part3_analysis.py:24 | one more occurrence keeps a tally exact: distinct keys, each with its multiplicity |
| Counting.Tally | part3_analysis.py:24-46 | keys distinct, every value listed, each count its multiplicity, total equal to the input length |
| Counting.InsertByCount | part3_analysis.py:29 | insertion adds exactly one entry, as a permutation |
| Counting.InsertByCountOrdered | part3_analysis.py:29 | insertion keeps counts non-increasing |
| Counting.InsertByCountDistinct | part3_analysis.py:29 | inserting a new key keeps keys distinct |
| Counting.SortByCount | part3_analysis.py:29 | sorting by count is a permutation of the tally |
| Counting.SortByCountOrdered | part3_analysis.py:29 | the sorted tally has non-increasing counts and keeps distinct keys distinct |
| Counting.InsertByKey | part3_analysis.py:24 | insertion by key adds exactly one entry, as a permutation |
| Counting.InsertByKeyOrdered | part3_analysis.py:24 | inserting a new key keeps keys strictly ascending |
| Counting.SortByKey | part3_analysis.py:24 | `sort_index` is a permutation |
| Counting.SortByKeyOrdered | part3_analysis.py:24 | `sort_index` over distinct keys gives strictly ascending keys |
| Counting.Take | part3_analysis.py:29 | `head(n)` returns the first `min(n, len)` entries |
| Counting.TopN | part3_analysis.py:29-46 | at most n distinct values, non-increasing counts, each count its multiplicity; an unlisted value means a full list whose every count is at least its own; no input, no entry |
| Counting.TakeOfSorted | part3_analysis.py:29 | the head of the sorted tally is ordered, distinct and exact |
| Counting.UnlistedIsSmaller | part3_analysis.py:29 | a value `head` cuts off occurs no more often than any listed value, and the list is full |
| Counting.UnlistedAreSmaller | part3_analysis.py:29 | the same for every value of the input at once |
| Counting.UnlistedInTopN | part3_analysis.py:29 | the same, read off the result of `TopN` for one position |
| Counting.OmittedEntryIsSmaller | part3_analysis.py:29 | an entry of a non-increasing list that `head` leaves out is no larger than any kept entry |
| Analysis.PapersByYear | part3_analysis.py:24 | `value_counts().sort_index()` of the integer years; stated by PapersByYearCounts, PapersByYearListsRow and PapersByYearSum |
| Analysis.PapersByYearCounts | part3_analysis.py:24 | years strictly ascending, each count the number of rows with that year and positive, every row's year listed |
| Analysis.PapersByYearCountRows | part3_analysis.py:24 | each listed count is the number of rows with that year |
| Analysis.PapersByYearListsRow | part3_analysis.py:24 | every row's integer year is listed |
| Analysis.SortByKeySum | part3_analysis.py:24 | `sort_index` keeps the total count |
| Analysis.PapersByYearSum | part3_analysis.py:24 | with an integer year in every row, the counts add up to the number of rows |
| Analysis.TopJournals | part3_analysis.py:29 | `value_counts().head(10)` of the non-missing journals; stated by TopJournalsCounts, ListedJournals and UnlistedJournals |
| Analysis.TopJournalsCounts | part3_analysis.py:29 | at most ten journals, non-increasing counts, distinct, each count its number of rows; an unlisted journal has no more rows than any listed one |
| Analysis.ListedJournals | part3_analysis.py:29 | each listed journal is present and counted once per row |
| Analysis.UnlistedJournals | part3_analysis.py:29 | every unlisted journal of some row has no more rows than any listed journal |
| Analysis.UnlistedJournal | part3_analysis.py:29 | the same for one row |
| Analysis.Titles | part3_analysis.py:40 | `dropna` on titles never yields more titles than rows |
| Analysis.TitlesArePresentTitles | part3_analysis.py:40 | `dropna` on titles yields the text of exactly the rows with a title, in row order |
| Analysis.TitleTextOfPresentTitles | part3_analysis.py:40 | the title text is the space join of the lower-cased present titles, in row order |
| Analysis.TitleWordsOfPresentTitles | part3_analysis.py:40-41 | the title words are the words of each lower-cased present title, title after title |
| Analysis.TitleText | part3_analysis.py:40 | the present titles joined with single spaces and lower-cased; stated by TitleTextOfPresentTitles and OneTitleText |
| Analysis.TitleWords | part3_analysis.py:41 | the `\b\w+\b` words of the title text, in order; stated by TitleWordsOfPresentTitles and TitleWordsPerTitle |
| Analysis.FilteredWords | part3_analysis.py:43 | the title words that are not stop words, in order; stated by FilteredWordsSpec and FilteredWordsPerTitle |
| Analysis.TitlesOfFilledRows | part3_analysis.py:40 | without missing titles there is one title per row, in row order |
| Analysis.TitleWordsPerTitle | part3_analysis.py:40-41 | the words are each lower-cased title's words, title after title; each word is a non-empty run of word characters |
| Analysis.FilteredWordsPerTitle | part3_analysis.py:40-43 | the kept words are each lower-cased title's words without stop words, title after title |
| Analysis.FilteredWordsSpec | part3_analysis.py:43 | no stop word remains, every other word stays, each as often as it occurs |
| Analysis.NotAWord | part3_analysis.py:41 | a string holding a non-word character never occurs among the words |
| Analysis.StopWordFacts | part3_analysis.py:35-37 | the `StopWords` constant is the set built at these lines: `covid-19` and `sars-cov-2` are stop words; `covid`, `19` and `2` are not |
| Analysis.HyphenatedStopWordsNeverMatch | part3_analysis.py:36-43 | the two hyphenated stop words can never match a word, while `covid`, `19` and `2` survive the filter |
| Analysis.OneTitleText | part3_analysis.py:40 | a single title's text is that title lower-cased |
| Analysis.LowerCovid | part3_analysis.py:40 | `"COVID-19".lower()` is `"covid-19"` |
| Analysis.CovidWords | part3_analysis.py:41 | `re.findall(r'\b\w+\b', "covid-19")` is `["covid", "19"]` |
| Analysis.CovidSurvives | part3_analysis.py:43 | neither `covid` nor `19` is filtered out |
| Analysis.CovidTitleWords | part3_analysis.py:40-43 | a single title "COVID-19" yields the words `covid` and `19`, and both survive the filter |
| Analysis.WordFreq | part3_analysis.py:46 | `value_counts().head(15)` of the filtered words; stated by WordFreqCounts and TopNAvoids |
| Analysis.WordFreqCounts | part3_analysis.py:46 | at most fifteen words, non-increasing counts, distinct, no stop word, each count its occurrences; an unlisted word occurs no more often than any listed one |
| Analysis.TopNAvoids | part3_analysis.py:43-46 | a value absent from the input is never listed |
| Analysis.EmptyTableAggregates | part3_analysis.py:24-46 | a table without rows gives no year, no journal and no word |
| Cleaning.FillRow | part2_cleaning.py:26-27 | filling a row's cell adds its key and keeps the others |
| Cleaning.ParseRow | part2_cleaning.py:37 | parsing a row's date adds its key and keeps the others |
| Cleaning.YearRow | part2_cleaning.py:44 | deriving the year adds the `year` key and keeps the others |
| Cleaning.WordCountRow | part2_cleaning.py:47 | deriving the word count adds its key and keeps the others |
| Cleaning.Dropped | part2_cleaning.py:19-22 | exactly the columns outside the list remain; no row is lost |
| Cleaning.DroppedWellFormed | part2_cleaning.py:22 | dropping keeps a table well formed |
| Cleaning.DroppedCells | part2_cleaning.py:19-22 | the other columns stay in order, every row loses exactly the listed keys, and no other cell changes |
| Cleaning.DropAbsentIsIdentity | part2_cleaning.py:22 | dropping absent columns is no error and changes nothing |
| Cleaning.Filled | part2_cleaning.py:26-27 | filling keeps the columns and the number of rows |
| Cleaning.FilledWellFormed | part2_cleaning.py:26-27 | filling keeps a table well formed |
| Cleaning.FilledCells | part2_cleaning.py:26-27 | no filled cell is missing; missing ones become `''`; present ones and other columns are unchanged |
| Cleaning.DatesCoerced | part2_cleaning.py:37 | date coercion keeps the columns and the number of rows |
| Cleaning.DatesCoercedWellFormed | part2_cleaning.py:37 | date coercion keeps a table well formed |
| Cleaning.DatesCoercedCells | part2_cleaning.py:37 | a date becomes its timestamp, or NaT exactly when it does not parse; other cells unchanged |
| Cleaning.NaDropped | part2_cleaning.py:40 | `dropna` keeps the columns and never adds rows |
| Cleaning.NaDroppedWellFormed | part2_cleaning.py:40 | `dropna` keeps a table well formed |
| Cleaning.NaDroppedRows | part2_cleaning.py:40 | exactly the rows with a date survive, unchanged and in order; with no NaT the table is unchanged |
| Cleaning.CoercedThenDroppedIsDated | part2_cleaning.py:37-40 | after coercion and `dropna` every row holds a timestamp |
| Cleaning.YearAssigned | part2_cleaning.py:44 | the year column is added and no row is lost |
| Cleaning.YearAssignedWellFormed | part2_cleaning.py:44 | deriving the year keeps a table well formed |
| Cleaning.YearAssignedCells | part2_cleaning.py:44 | every row's `year` is its timestamp's year; no other cell changes |
| Cleaning.WordCountAssigned | part2_cleaning.py:47 | the word-count column is added and no row is lost |
| Cleaning.WordCountAssignedWellFormed | part2_cleaning.py:47 | deriving the word count keeps a table well formed |
| Cleaning.WordCountAssignedCells | part2_cleaning.py:47 | every row's word count is the number of whitespace-separated words of its abstract; nothing else changes |
| Cleaning.Prepare | part2_cleaning.py:19-44 | the columns are those of the input not dropped, plus `year`; never more rows than the input |
| Cleaning.PrepareWellFormed | part2_cleaning.py:19-44 | the shared steps keep a table well formed |
| Cleaning.CleanCommon | part2_cleaning.py:26-37 | a missing `abstract`, then `title`, then `publish_time` column is the KeyError; it succeeds iff all three exist |
| Cleaning.Frame.constructor | part2_cleaning.py:22 | the frame holds the given well-formed table |
| Cleaning.Frame.FillNa | part2_cleaning.py:26-27 | in place, the frame becomes the filled table and stays well formed |
| Cleaning.Frame.ToDatetime | part2_cleaning.py:37 | in place, the frame becomes the coerced table and stays well formed |
| Cleaning.Frame.DropNa | part2_cleaning.py:40 | in place, the frame becomes the table without the rows whose date is NaT and stays well formed |
| Cleaning.Frame.AssignYear | part2_cleaning.py:44 | in place, the frame gains the year column and stays well formed |
| Cleaning.Frame.AssignWordCount | part2_cleaning.py:47 | in place, the frame gains the word-count column and stays well formed |
| Cleaning.CleanBatch | part2_cleaning.py:19-47 | the batch cleaner: the shared steps, then the word count, failing with the first KeyError or the AttributeError; computed by CleanMetadata and stated by CleanBatchRows, CleanBatchSucceedsIff, CleanBatchPrepared and CleanBatchIdempotent |
| Cleaning.WordCountStep | part2_cleaning.py:47 | the `abstract_word_count` column, or the AttributeError when an abstract is not text; stated by WordCountStepPrepared and WordCountRows |
| Cleaning.CleanMetadata | part2_cleaning.py:19-47 | the step-by-step script returns exactly the batch cleaner's result, errors included |
| Cleaning.NamesNotDropped | part2_cleaning.py:19-21 | the drop list holds none of the columns the pipeline reads or writes |
| Cleaning.CoercedRowDate | part2_cleaning.py:37-40 | a row's parsed date is missing exactly when its date does not parse |
| Cleaning.PreparedRowKeys | part2_cleaning.py:19-47 | a cleaned row has the input's keys minus the drop list, plus the written columns |
| Cleaning.PreparedRowIsPair | part2_cleaning.py:26-44 | a prepared row has filled text, the parsed timestamp and its year |
| Cleaning.BatchRowIsPair | part2_cleaning.py:26-47 | a batch row also holds its abstract's word count, 0 for a missing abstract |
| Cleaning.OtherCellsUnchanged | part2_cleaning.py:22-47 | a column neither dropped nor written passes through unchanged |
| Cleaning.MappedArePrepared | part2_cleaning.py:26-44 | each output row is the prepared form of the input row at its position |
| Cleaning.MappedAreBatch | part2_cleaning.py:26-47 | each output row is the batch form of the input row at its position |
| Cleaning.CoercedRows | part2_cleaning.py:22-37 | the drop, fill and parse steps act on each row on its own |
| Cleaning.DatedRows | part2_cleaning.py:37-40 | the rows after `dropna` are the transformed rows whose dates parse, in order |
| Cleaning.YearRows | part2_cleaning.py:44 | deriving the year transforms each surviving row on its own |
| Cleaning.PrepareRows | part2_cleaning.py:22-44 | the shared steps keep exactly the rows whose date parses, in order, each transformed |
| Cleaning.CleanCommonRows | part2_cleaning.py:22-44 | the same for a successful run of the shared steps |
| Cleaning.WordCountRows | part2_cleaning.py:47 | adding the word count to prepared rows gives the batch rows |
| Cleaning.CleanBatchRows | part2_cleaning.py:22-47 | the batch cleaner keeps exactly the rows whose date parses, in order, each transformed |
| Cleaning.KeptSurvive | part2_cleaning.py:40 | every kept row's date parses |
| Cleaning.PreparedAbstractsIff | part2_cleaning.py:26-47 | prepared abstracts are all text iff every source abstract was text or missing |
| Cleaning.SurvivorsCountableIff | part2_cleaning.py:40-47 | the kept rows all have countable abstracts iff every row whose date parses has one |
| Cleaning.SurvivorsCountable | part2_cleaning.py:40-47 | one direction of the above |
| Cleaning.KeptCountable | part2_cleaning.py:40-47 | the other direction of the above |
| Cleaning.CleanBatchSucceedsIff | part2_cleaning.py:26-47 | with the input columns present, the batch cleaner fails only with the abstract error, exactly when a surviving abstract is neither text nor missing |
| Cleaning.CleanedRowCount | part2_cleaning.py:40 | output rows = input rows minus rows whose date does not parse |
| Cleaning.PreparedRowsComplete | part2_cleaning.py:26-44 | rows prepared from parsing rows have no missing text, a timestamp and its year |
| Cleaning.CleanCommonPrepared | part2_cleaning.py:19-44 | the shared steps' output is well formed, lacks the dropped columns, and has filled text, a timestamp and its year in every row |
| Cleaning.WordCountStepPrepared | part2_cleaning.py:47 | the word-count step on a prepared table gives a batch-cleaned table |
| Cleaning.CleanBatchPrepared | part2_cleaning.py:19-47 | the batch output also has text abstracts and their word counts in every row |
| Cleaning.FillWithoutMissingIsIdentity | part2_cleaning.py:26-27 | filling a column without missing cells changes nothing |
| Cleaning.CoerceDatedIsIdentity | part2_cleaning.py:37 | coercing timestamps again changes nothing |
| Cleaning.YearAgainIsIdentity | part2_cleaning.py:44 | deriving the year again changes nothing |
| Cleaning.WordCountAgainIsIdentity | part2_cleaning.py:47 | counting the words again changes nothing |
| Cleaning.CommonStepsFixPrepared | part2_cleaning.py:22-44 | the shared steps leave an already-prepared table unchanged |
| Cleaning.CleanBatchIdempotent | part2_cleaning.py:26-47 | re-cleaning the batch output gives the same result |
| Cleaning.CleanCommonIdempotent | part2_cleaning.py:26-44 | re-running the shared steps on their output changes nothing |
| Dashboard.Load | app.py:13-39 | the empty table for a missing file, else the shared cleaning steps with their KeyError; computed by LoadAndPrepareData and stated by MissingFileLoadsEmpty, LoadIsBatchWithoutWordCount and LoadedIsPrepared |
| Dashboard.LoadAndPrepareData | app.py:13-39 | the step-by-step loader returns exactly `Load`: the empty table for a missing file, else the shared cleaning steps |
| Dashboard.MissingFileLoadsEmpty | app.py:18-22 | a missing file loads as a table with no rows and no columns |
| Dashboard.LoadIsBatchWithoutWordCount | app.py:25-37 | the batch cleaner is the loader followed by the word count; the loader adds no word-count column; all other cells agree |
| Dashboard.LoadedIsPrepared | app.py:25-37 | a loaded table has what the shared cleaning steps guarantee |
| Dashboard.MinYear | app.py:58 | the minimum is some row's year and no row's year is smaller |
| Dashboard.MaxYear | app.py:59 | the maximum is some row's year and no row's year is larger |
| Dashboard.YearFilter | app.py:68 | the table with its columns and the rows whose year lies in `lo..hi`; stated by YearFilterSelects and DefaultRangeKeepsAll |
| Dashboard.YearFilterSelects | app.py:68 | the filter keeps the columns and exactly the rows with `lo <= year <= hi`, as a subsequence; well-formedness is kept |
| Dashboard.DefaultRangeKeepsAll | app.py:58-68 | the default range from the minimum to the maximum year keeps the whole table |
| Dashboard.FilteredRowsWithBounded | app.py:68-89 | no value occurs in more filtered rows than rows |
| Dashboard.FilteredYearKeepsCount | app.py:68-79 | an in-range year has the same count filtered and unfiltered |
| Dashboard.FilteredYearInRange | app.py:68-79 | a year held by a filtered row is in the range |
| Dashboard.FilteredPapersByYear | app.py:68-79 | the filtered per-year chart has ascending in-range years with their full-table counts |
| Dashboard.FilteredTopJournals | app.py:68-89 | the filtered journal chart has at most ten journals, non-increasing, each count at most the full-table count |
| Dashboard.TitlePanelOf | app.py:105-122 | the word-cloud branch with the lower-cased joined titles when that text is non-empty, else the "No titles found" message; stated by NoTitlesIff, FilledNoTitlesIff and EmptyTitlesTakeCloudBranch |
| Dashboard.NoTitlesIff | app.py:105-122 | the "no titles" message appears iff there is no title or a single empty one |
| Dashboard.FilledNoTitlesIff | app.py:105-122 | with text titles, the message appears iff there are no rows, or one row with an empty title |
| Dashboard.EmptyTitlesTakeCloudBranch | app.py:105-107 | with two or more rows the word-cloud branch is taken even when every title is empty |
| Dashboard.FilteredDisplayable | app.py:68 | filtering keeps the columns and cells the panels read |
| Dashboard.Render | app.py:53-122 | no panel for an empty table, else the year chart, journal chart and title panel of the rows in the chosen range, by default the minimum to the maximum year; stated by RenderedIffNotEmpty, RenderedPanels, DefaultRangeShowsAll and MissingFileRendersNothing |
| Dashboard.MissingFileRendersNothing | app.py:18-53 | a missing file shows no filter, chart or word cloud |
| Dashboard.RenderedIffNotEmpty | app.py:53 | the panels appear iff the table has both rows and columns |
| Dashboard.DefaultRangeShowsAll | app.py:58-89 | at the default range every panel is computed from the whole table |
| Dashboard.RenderedPanels | app.py:58-122 | for any range: the filtered rows, ascending years with full counts, at most ten journals by non-increasing count, and the word-cloud guard |
| Dashboard.LoadedDisplayable | app.py:25-37 | a loaded table whose input had `journal` and `authors` columns and text-or-missing titles can be rendered, with every title text |
| Dashboard.LoadedKeepsColumns | app.py:25-26 | dropping keeps the `journal` and `authors` columns the page reads |
| Dashboard.LoadedTitlesAreText | app.py:30 | when the raw titles are text or missing, filling makes every loaded title text |
| Dashboard.KeptTitlesJoinable | app.py:34 | the rows kept by the date filter have text or missing titles |
| Dashboard.FilledTitlesAreText | app.py:30 | prepared rows of text-or-missing titles have text titles |

## Left out

- Plots and rendering are left out, as graphics and foreign calls: seaborn, matplotlib and `WordCloud(...).generate`.
  The word cloud's own tokenisation, stop-word handling and 200-word cap are library behaviour. The model stops at
  the text passed to it (`Dashboard.TitlePanel`).
- Dashboard.TitlePanelOf: `WordCloud(...).generate` (app.py:114) tokenises the text and drops its own stop words and
  numbers, and raises an error when no word is left: for example when two or more rows remain and every title is
  empty, or when the only title is "The". That failure happens inside the wordcloud library, which the model does not
  cover; the model records only that the branch at app.py:107 is taken.
- Streamlit is left out as UI framework state: the layout, the `@st.cache_data` cache, `st.error`, and the slider
  widget. The slider's value is a parameter of `Dashboard.Render`; `None` means the default range. Any pair of years
  is accepted, not only one inside the slider's bounds.
- The 10-row sample table (app.py:72) is display only and is left out. Its column selection is kept: `Dashboard.Displayable`
  requires `title`, `authors`, `journal`, `publish_time` and `abstract`, whose absence is a KeyError there.
- CSV reading and writing are I/O and are left out. Reading is replaced by the `Option<Table>` argument, and a missing
  file is `None`. Dtype inference on re-reading the cleaned file is left out too. For that reason the analysis
  functions accept missing titles: an empty title reads back as NaN.
- The internals of `pd.to_datetime` are left out. Each cell goes through the `parse` oracle. pandas' column-wide
  format inference, which can make one cell's result depend on the others, is not modelled.
- `print`, `info()`, `shape`, `exit()` and warning suppression are output only and are left out. `data_exploration.py`
  is not part of this model: it only prints summaries, including floating-point `describe` statistics.
- Text: `\w` and `str.lower()` are modelled on ASCII only. Python's Unicode word characters and case mappings are not
  modelled. `str.split()` uses Python's full `isspace` set.
- Counting.TopN: among equal counts, the order `value_counts` produces is library-defined. The model breaks ties by
  first appearance. The contracts state only non-increasing counts, so they do not depend on this choice.
- Crashes of the aggregates and of the page are preconditions, not error results. These are: a missing `year` or
  `journal` column (KeyError), a missing column of the sample table (KeyError at app.py:72), and a title that is
  neither text nor missing (TypeError in `str.join`). For min/max, the empty table is excluded by the source's own
  `df.empty` guard.
- Analysis.TitleText: the title functions take the rows, not the table. A table without a `title` column, which is a
  KeyError at part3_analysis.py:40, reads as all titles missing: no title text and no words. On the dashboard
  `Dashboard.Displayable` requires the column.
- Frames.YearColumn: a `year` cell that is present but not an integer is skipped, while `value_counts` would count it.
  The cleaner writes an integer year in every row (`Cleaning.CleanBatchPrepared`), and the dashboard requires one
  (`Dashboard.YearsKnown`).
- Cleaning.CleanCommon reports only the first missing column, in the order the source reads them: abstract, title,
  then publish_time.
- `.astype(int)` on the year has no width: years are unbounded integers.

## Notes

- `app.py` defines a stop-word set but hands the raw lower-cased title text to the word-cloud library with that set.
  The dashboard computes no word-frequency list of its own. The model therefore covers the guard on the joined text;
  the filtered word list is modelled for the analysis script only.
- The dashboard's "No titles found" branch is reached for no rows, or for one row with an empty title. With two or
  more rows whose titles are all empty, the joining spaces make the text non-empty.
- `part3_analysis.py` lists `covid-19` and `sars-cov-2` as stop words. The `\b\w+\b` tokeniser never yields a word
  with a hyphen, so these two entries never match: a title "COVID-19" contributes `covid` and `19` to the word
  counts (`Analysis.HyphenatedStopWordsNeverMatch`, `Analysis.CovidTitleWords`). The model keeps the filter as
  written.

# Netflix catalog dashboard — a Dafny model of its data core

This project models the data core of a small Netflix-catalog dashboard
written in Python with pandas and Dash, and proves properties of that model.
The modelled parts are:

- **Cleaning** (`clean_data`): the offline step that drops duplicate rows,
  casts `release_year` to an integer and splits `listed_in` on commas.
- **Normalisation.** When the dashboard module loads, it coerces
  `release_year` to an integer, with `-1` standing for unknown. It parses
  `listed_in` into a list of genre tags with `safe_list`. It creates any of
  `type`, `title` and `country` that are missing, filled with "Unknown".
- **Indexing.** It builds the sorted genre and type dropdown options, the
  year bounds of the slider and the slider's tick labels (`make_marks`).
- **Filtering** (`filter_data`) by the genre, type and year controls.
- **Aggregation** behind each callback. `update_kpis` gives the headline
  counts. `update_graph_year` gives the years passed to the histogram.
  `update_genre_distribution` and `update_pie` give the per-genre and
  per-type counts. `update_insights` gives the most frequent country and
  year.

## How the code is modelled

**Cells and rows.**
- A pandas cell becomes a small datatype: missing (NaN), a string, or, for
  the year and genre columns, the other shapes pandas can hand over.
- A frame is a set of present columns plus a sequence of rows.
- The canonical title record after normalisation is `Table.Record`.

**Pure versus stateful code.**
- Pure pandas expressions become functions over sequences:
  - `Seqs.Where` is a boolean mask;
  - `Seqs.Flatten` is `explode`;
  - `Seqs.Tally` is `value_counts`;
  - `Seqs.Mode` is `mode()[0]`;
  - `Seqs.DropDuplicates` is `drop_duplicates`.
- Code that changes things step by step becomes methods:
  - `Domain.MakeMarks` and its loop;
  - `Filter.FilterData`, with its three guarded narrowings;
  - `Normalise.FillTextColumns`, the loop over the text columns;
  - `Normalise.Normalise`;
  - `Cleaning.CleanData`.

  Each is proved against a specification function.
- The module-level state the callbacks share is the class
  `Dashboard.Dashboard`. Its fields hold the normalised frame, the dropdown
  options and the slider. They are set once by its constructor, and each
  callback method reads them.

**Python builtins** that the core relies on become functions in `Text`, each
with the property the code uses:
- `str.strip`, `str.split(",")` and `",".join`;
- `str(int)` and `int(str)`;
- code-point string order.

`ast.literal_eval` becomes the narrow parser in `Literal`.

## Behaviour worth knowing

- **`safe_list` can return an empty list.** Only a missing value gets
  `["Unknown"]`. A cell already holding `[]`, the text `"[]"`, and text made
  only of commas and whitespace (including `""`) all give `[]`. The inner
  `except` that would also give `["Unknown"]` cannot be reached. See
  `Normalise.SplitTagsBlank` and `Scenario.ThirdTitleNormalised`.
- **A title with no genres has no genre bar.** `explode` turns an empty
  list into NaN, and `value_counts` drops NaN. No "Unknown" bar appears.
  See `Scenario.ThreeTitlesGenres`.
- **`mode()` breaks ties by the smallest value.** pandas returns the modes
  sorted and the code takes the first. For strings the smallest value is in
  code-point order; for years it is the earliest year.
- **Missing values are not counted.** `value_counts()` and `mode()` drop
  them. So a title with a missing `type` is in no pie slice, and a missing
  `country` never wins the insight.
- **`clean_data` can output repeated rows.** It removes duplicates before
  converting, so two raw rows that differ only in how the year is written
  (`"2020"` against `2020`) both survive and become equal afterwards. See
  `Cleaning.ConversionCanRepeatRows`.
- **`clean_data` fails on a list cell in `listed_in`.** `drop_duplicates`
  hashes every cell, and a Python list cannot be hashed, so this error comes
  before any other.

## Model

| member | source | states |
|---|---|---|
| Normalise.Normalise | src/dashboard.py:20-56 | one record per raw row, in order; each is the row with its year coerced (or -1 when the column is absent), its genres from `safe_list` (or `["Unknown"]` when the column is absent), and "Unknown" in every absent text column |
| Normalise.FillTextColumns | src/dashboard.py:53-56 | afterwards type, title and country each exist with one cell per row; a present column keeps its own cells and an absent one holds "Unknown" in every row |
| Normalise.CoerceYear | src/dashboard.py:22-23 | a missing year becomes -1 and a number stays; text that reads as an integer becomes that integer unless it holds whitespace beyond ASCII, which the numeric parser does not skip; any other text becomes -1 |
| Normalise.CoerceYearDecimal | src/dashboard.py:22-23 | a year written in decimal (sign included) is coerced back to that same integer |
| Normalise.CoerceYearRejects | src/dashboard.py:22-23 | text holding a character that is neither digit, sign nor ASCII whitespace (a no-break space, say) is coerced to the sentinel -1 |
| Scenario.WideSpaceYear | src/dashboard.py:22-23 | a year written after a no-break space becomes -1, while one after an ASCII space is read as 2020 |
| Normalise.SafeListDirect | src/dashboard.py:29-32 | a cell that is already a list is returned unchanged; a missing cell becomes `["Unknown"]` |
| Normalise.SafeList | src/dashboard.py:28-45 | a list cell is returned unchanged, a missing one becomes `["Unknown"]`, and every tag derived from text is already stripped |
| Normalise.SafeListParsed | src/dashboard.py:33-39 | text that reads as a list literal gives one stripped `str()` per element, in order and of the same length; a scalar literal gives a one-element list of its stripped `str()` |
| Normalise.SafeListUnparsed | src/dashboard.py:40-43 | text that is not a literal takes the comma-split fallback |
| Normalise.SafeListFreeText | src/dashboard.py:33-43 | text whose first non-blank character cannot open a literal (a letter, say) always takes the comma-split fallback |
| Normalise.SafeListOfRepr | src/dashboard.py:34-37 | a genre list written out as Python's `str(list)` of plain strings is read back as the list of its stripped elements |
| Normalise.SplitTags | src/dashboard.py:43 | every tag of the comma-split fallback is non-empty, already stripped and free of commas |
| Normalise.SplitTagsFragments | src/dashboard.py:43 | every fallback tag is non-empty, already stripped and comma-free; the tags are a subsequence of the stripped comma fragments, and each non-empty fragment occurs as often among the tags as among the fragments |
| Normalise.SplitTagsCons | src/dashboard.py:43 | a comma-free fragment followed by a comma contributes its strip first (nothing if that is empty), then the tags of the rest |
| Normalise.SplitTagsJoin | src/dashboard.py:43 | comma-free fragments joined with commas are read back as their non-empty strips, in order |
| Normalise.SplitTagsBlank | src/dashboard.py:43 | text of only whitespace and commas yields no tag at all, with no "Unknown" default |
| Normalise.StripIdempotent | src/dashboard.py:43 | stripping a stripped string changes nothing, so the `!= ""` test sees the final tag |
| Literal.ParseLiteralRepr | src/dashboard.py:34 | `literal_eval` of `str(fs)` for a list of plain strings gives back exactly those strings |
| Literal.ParseLiteral | src/dashboard.py:34 | text holding a NUL character raises, as does text whose first token is left indented after a form feed; blank text raises; a list comes back only from text whose first non-blank character is `[` |
| Normalise.SafeListUncompilable | src/dashboard.py:33-43 | text Python refuses to compile as a literal (a NUL character, or an indented first token) takes the comma-split fallback |
| Scenario.FormFeedAccepted | src/dashboard.py:34 | blanks ending with a form feed leave the first token unindented |
| Scenario.FormFeedIndented | src/dashboard.py:34-43 | a space after a form feed leaves the first token indented, so the text takes the comma-split fallback |
| Literal.ParseLiteralRejects | src/dashboard.py:34 | text whose first non-blank character is not a bracket, quote, sign or digit raises |
| Text.Strip | src/dashboard.py:37 | the result neither starts nor ends with whitespace, is the slice of the input after its leading whitespace, and only whitespace was cut from either end |
| Text.StripUntrimmed | src/dashboard.py:37 | a string without outer whitespace is its own strip |
| Text.Split | src/dashboard.py:43 | there is one more fragment than separators, and no fragment contains the separator |
| Text.SplitJoin | src/dashboard.py:43 | splitting a join of separator-free fragments gives the fragments back |
| Text.JoinSplit | src/cleaning.py:6 | joining the fragments of a split gives the original text back |
| Text.ParseDecimal | src/dashboard.py:22 | `int(str(n)) == n` for every integer |
| Text.ParseInt | src/cleaning.py:5 | a parsed text strips to an optional sign followed by ASCII digits, and a negative result was written with a minus sign |
| Text.ParseIntRejects | src/cleaning.py:5 | a character that is neither digit, sign nor whitespace makes `int()` fail |
| Text.SortedSet | src/dashboard.py:59-60 | `sorted(set(xs))`: strictly increasing in code-point order, with exactly the elements of xs |
| Text.StrLessTotal | src/dashboard.py:59-60 | two distinct strings are always ordered one way or the other |
| Text.StrLessTransitive | src/dashboard.py:59-60 | the string order is transitive |
| Text.StrLessIrreflexive | src/dashboard.py:59-60 | no string is below itself |
| Seqs.Where | src/dashboard.py:174 | a boolean mask keeps at most the rows it had, and only rows that satisfy it |
| Seqs.WhereMultiplicity | src/dashboard.py:174-185 | a mask keeps each satisfying row as often as it occurs and drops every other |
| Seqs.WhereIsSubsequence | src/dashboard.py:174-185 | a mask keeps rows in their original order |
| Seqs.WhereWhere | src/dashboard.py:173-185 | masking twice in a row is masking once by the conjunction |
| Seqs.Flatten | src/dashboard.py:265 | `explode` yields one entry per element of every list |
| Seqs.FlattenOccurrences | src/dashboard.py:265 | `explode` keeps every occurrence of every element of every list |
| Seqs.FlattenMembers | src/dashboard.py:59 | an element is in the flattening exactly when some list holds it |
| Seqs.Tally | src/dashboard.py:270 | `value_counts`: one key per distinct value, mapped to the number of times it occurs |
| Seqs.Mode | src/dashboard.py:353-354 | `mode()[0]`: None only for an empty input; otherwise a value of the input occurring at least as often as any other, and below every other value with as many occurrences |
| Seqs.DropDuplicates | src/cleaning.py:4 | no two rows of the result are equal, and it holds exactly the rows of the input |
| Seqs.DropDuplicatesFirstOrder | src/cleaning.py:4 | the kept rows come in the order of their first occurrences |
| Seqs.DropDuplicatesSubsequence | src/cleaning.py:4 | the kept rows are a subsequence of the input |
| Domain.GenreOptions | src/dashboard.py:59 | the genre options are strictly sorted and are exactly the genres some record carries |
| Domain.TypeOptions | src/dashboard.py:60 | the type options are strictly sorted and are exactly the types of the records, a missing type reading as "Unknown" |
| Domain.ValidYears | src/dashboard.py:63 | no more valid years than rows, and each of them is non-negative |
| Domain.ValidYearsMembers | src/dashboard.py:63 | a year is valid exactly when it is non-negative and some record has it |
| Domain.YearBounds | src/dashboard.py:62-68 | lo <= hi; with no valid year the bounds are (1900, 2025); otherwise both are valid years and bound every valid year |
| Domain.MarkStep | src/dashboard.py:79 | the tick step is 5 exactly when the range spans more than 20 years, and 1 otherwise |
| Domain.Range | src/dashboard.py:73 | every year of `range(a, b, step)` lies in `[a, b)` |
| Domain.RangeShape | src/dashboard.py:73 | `range(a, b, step)` is empty exactly when a >= b; otherwise it starts at a, climbs by step, stays in [a, b), and stops once one more step would reach b |
| Domain.RangeGrid | src/dashboard.py:73 | the i-th element of `range(a, b, step)` is a + i * step |
| Domain.RangeMarks | src/dashboard.py:73-74 | the loop labels exactly the years of `range(a, b, step)`, each with its decimal text |
| Domain.MakeMarks | src/dashboard.py:71-77 | the marks label exactly the years of `range(start, end + 1, step)` plus start and end, each with its decimal text |
| Domain.MarksWithin | src/dashboard.py:71-79 | when start <= end, every marked year lies between start and end |
| Domain.YearSlider | src/dashboard.py:62-79 | the slider's bounds are the year bounds; its marks are every step-th year from lo, plus lo and hi, all within [lo, hi] and labelled with their decimal text |
| Filter.FilterData | src/dashboard.py:169-187 | the three guarded narrowings leave exactly the rows that pass every active filter, in order |
| Filter.Filtered | src/dashboard.py:169-187 | the filtered frame is no longer than the frame and holds only rows of the frame that pass every active filter |
| Filter.FilteredMembers | src/dashboard.py:172-185 | a row is in the result exactly when it is in the frame and passes the genre, type and year tests |
| Filter.FilteredSubsequence | src/dashboard.py:169-187 | the result keeps frame order, and keeps every passing row as often as the frame has it |
| Filter.FilteredIdempotent | src/dashboard.py:169-187 | filtering the filtered frame again by the same controls changes nothing |
| Filter.FilteredNoSelection | src/dashboard.py:173-181 | with no genre, no type and no two-element range, the whole frame is returned |
| Filter.FilteredDropsUnknownYear | src/dashboard.py:180-185 | a range whose lower end is at least 0 excludes every title of unknown year |
| Filter.FilteredInvertedRange | src/dashboard.py:181-185 | a range whose lower end exceeds its upper end selects nothing |
| Aggregate.WhereKindCount | src/dashboard.py:205-206 | the rows of type t are as many as the occurrences of t in the type column |
| Aggregate.KpiCounts | src/dashboard.py:204-206 | total is the row count, movies and tvshows are the numbers of exact "Movie" and "TV Show" types, and these two never exceed the total |
| Aggregate.YearChart | src/dashboard.py:227-234 | the "no data" placeholder exactly for an empty selection, the "no valid data" one exactly when every year is unknown; otherwise the histogram receives each known year as often as it occurs, and no other value |
| Aggregate.NoValidYears | src/dashboard.py:231-233 | no known year is left exactly when every row's year is negative |
| Aggregate.GenreChart | src/dashboard.py:260-274 | the empty-frame placeholder exactly for an empty selection, the "no genre" one exactly when every list is empty; otherwise one bar per genre some row carries, counting its occurrences over all lists |
| Aggregate.NoGenresFound | src/dashboard.py:270-273 | exploding gives no genre exactly when every row's list is empty |
| Aggregate.StrTexts | src/dashboard.py:309 | dropping missing values leaves no more strings than cells |
| Aggregate.StrTextsCount | src/dashboard.py:309 | dropping missing values keeps each string as often as it occurs |
| Aggregate.TypeChart | src/dashboard.py:305-313 | the empty-frame placeholder exactly for an empty selection, the "no data" one exactly when every type is missing; otherwise one slice per present type with its count |
| Aggregate.NoTypesFound | src/dashboard.py:309-312 | no type is counted exactly when every row's type is missing |
| Aggregate.KpisMatchPie | src/dashboard.py:309 | the pie's "Movie" and "TV Show" slices agree with the KPI cards |
| Aggregate.TopCountry | src/dashboard.py:353 | no country exactly when every country is missing; otherwise a most frequent country, the smallest in code-point order among equally frequent ones |
| Aggregate.NoCountries | src/dashboard.py:353 | dropping missing values leaves no country exactly when every country is missing |
| Aggregate.TopYear | src/dashboard.py:354 | no year exactly when every year is unknown; otherwise a most frequent known year, the earliest among equally frequent ones |
| Aggregate.InsightsOf | src/dashboard.py:350-360 | the empty-result message exactly for an empty selection; otherwise the top country, top year and row count |
| Dashboard.Dashboard.constructor | src/dashboard.py:18-79 | the stored frame is the normalised input; the options and year bounds are those the index derives from it; the marks are every step-th year from the lower bound plus both bounds, all within the bounds and each labelled with its decimal text |
| Dashboard.Dashboard.UpdateKpis | src/dashboard.py:201-206 | the cards are the KPI counts of the filtered frame |
| Dashboard.Dashboard.UpdateGraphYear | src/dashboard.py:224-234 | the figure input is the year chart of the filtered frame |
| Dashboard.Dashboard.UpdateGenreDistribution | src/dashboard.py:256-274 | the figure input is the genre chart of the filtered frame |
| Dashboard.Dashboard.UpdatePie | src/dashboard.py:302-313 | the figure input is the type chart of the filtered frame |
| Dashboard.Dashboard.UpdateInsights | src/dashboard.py:347-360 | the box is the insights of the filtered frame |
| Dashboard.SelectedGenreBar | src/dashboard.py:173-174 | with a genre selected and a non-empty result, that genre has a bar, and its count is at least the number of filtered titles |
| Dashboard.SelectedTypeKpis | src/dashboard.py:177-178 | with a type selected, the card of that type counts every filtered title and the other named card counts none |
| Cleaning.CleanData | src/cleaning.py:3-7 | errors in the order pandas raises them: a list cell in `listed_in` (unhashable in `drop_duplicates`), missing release_year, a year that is not a 64-bit integer, missing listed_in, a genre cell that is not text; it succeeds exactly when none of these holds, and the rows are then the deduplicated rows, each with its year cast and its genre text split |
| Cleaning.DedupedOrigin | src/cleaning.py:4 | every kept row is one of the raw rows |
| Cleaning.DedupedKeeps | src/cleaning.py:4 | every raw row is among the kept rows |
| Cleaning.DedupedRows | src/cleaning.py:4 | the kept rows are pairwise distinct, include every raw row, and follow the order of first occurrence |
| Cleaning.GenreSplitRoundTrip | src/cleaning.py:6 | the split keeps the genre text whole: joined back with commas it is the original, with one more fragment than commas |
| Cleaning.IntCast | src/cleaning.py:5 | `astype(int)` on one cell: a missing value fails, a number stays, and text succeeds exactly when it reads as an integer within 64 bits, giving that integer |
| Cleaning.IntCastDecimal | src/cleaning.py:5 | `astype(int)` of the decimal text of a 64-bit year is that year |
| Cleaning.IntCastOverflow | src/cleaning.py:5 | decimal text of an integer outside 64 bits makes `astype(int)` fail |
| Cleaning.ConversionCanRepeatRows | src/cleaning.py:4-5 | two distinct raw rows differing only in how the year is written clean to the same row |
| Scenario.ThirdTitleNormalised | src/dashboard.py:20-51 | a title whose year is text like "bad" and whose genres arrive as an empty list normalises to year -1 and an empty genre list |
| Scenario.ThreeTitlesFilter | src/dashboard.py:180-185 | over the three-title frame, the 2020-2020 range keeps the two 2020 titles, in order |
| Scenario.ThreeTitlesKpis | src/dashboard.py:204-206 | over the three-title frame, the cards read 3 titles, 2 films, 1 series |
| Scenario.ThreeTitlesGenres | src/dashboard.py:265-270 | over the three-title frame, Drama counts 2, Comedy counts 1, and there is no "Unknown" bar |

## Left out

- The Dash layout, the Plotly figures and `update_table`. The figure
  callbacks are modelled up to the data handed to Plotly, not the figure
  itself.
- Reading the CSV files, the hard-coded paths and `app.py`.
- Aggregate.YearChart: the 40-bin histogram itself (bin edges and per-bin
  counts) is not modelled. Binning is floating-point work inside Plotly.
- Seqs.Tally: the descending-count order of `value_counts` is not modelled,
  only the keys and counts. Plotly draws the bars in that order.
- Literal.ParseLiteral: `ast.literal_eval` is modelled only for quoted
  strings without escapes or prefixes, decimal integers with the sign
  attached, and lists of those. Text of any other kind counts as a parse
  failure in the model, even where Python accepts it:
  - tuples, sets, floats and nested lists;
  - `True`, `False` and `None`;
  - escape sequences and `u''`/`r''` prefixes;
  - a sign separated from its digits (`- 5`), `0x1F` and `1_000`;
  - a leading or trailing newline, a line break between list items, and
    multi-line strings.

  In the other direction, the model reads an integer literal of any
  length. Python 3.11 and later reject one longer than 4300 digits, so for
  such text the model keeps the integer where the source takes the
  comma-split fallback.
- Text.ParseInt: floats that `pd.to_numeric` accepts, such as `"2020.0"`,
  and underscores inside digits are not modelled. Only an optional sign
  followed by ASCII digits, with outer whitespace, is parsed.
- Text.IsSpace and Text.IsDigit cover ASCII digits and the whitespace code
  points of `str.isspace()`. Non-ASCII decimal digits are not modelled.
  `Normalise.CoerceYear` uses only the ASCII part of that whitespace
  (`Text.IsAsciiSpace`), as pandas' numeric parser does.
- Literal.ParseLiteralRejects: Python evaluates some of the text this lemma
  says raises, for example `"(1,)"`, `"{1}"`, `".5"` and `"u'x'"`; these
  are forms the Literal.ParseLiteral line leaves out.
- Normalise.SafeListFreeText: the comma-split fallback it states is taken
  for text that Python reads as one of those literals too, so it holds in
  the source only for text outside them.
- Normalise.CoerceYearRejects: `pd.to_numeric` also reads float text such
  as `"2020.0"` and `"1e3"`, which the lemma counts as unknown years; the
  Text.ParseInt line leaves these out.
- Text.ParseIntRejects: `int()` also accepts underscores between digits
  (`"1_000"`) and non-ASCII digits, which the lemma counts as failures;
  see the Text.ParseInt and Text.IsSpace lines.
- Cleaning.IntCast: for the same reason it fails on `"1_000"` and on
  non-ASCII digits, where `astype(int)` gives an integer.
- Normalise.SafeList: a raw cell holding a non-string, non-list object such
  as a tuple is not modelled. CSV input only yields strings or NaN. The
  flattening `str(i)` of a nested list element is also not modelled.
- Normalise.SafeList: the inner `except` returning `["Unknown"]` is not
  modelled, because the comma split of a string cannot raise.
- Aggregate.GenreChart: the `try`/`except` around `explode` is not modelled,
  because `explode` does not raise on the list column.
- Domain.MakeMarks: requires a positive step. The only call passes 1 or 5.
  `range` with step 0 raises and a negative step counts down; neither is
  modelled.
- Normalise.CoerceYear: year text outside the 64-bit range is not
  modelled. pandas reads such text as a float, and casting that float to a
  64-bit integer does not give the integer back (on common platforms it gives
  the most negative 64-bit value, which counts as an unknown year). The
  model keeps the integer.
- Normalise.CoerceYearDecimal: holds in the source only for years within
  64 bits, for the reason above. If any cell of the column is missing or
  not a number, `pd.to_numeric` returns a float column, and then the lemma
  holds only for years of magnitude up to 2^53: `"9007199254740993"` is
  read as 9007199254740992. `Normalise.CoerceYear` works one cell at a time
  and always keeps the exact integer.
- Normalise.Normalise: text that `pd.to_numeric` reads as infinity (`"inf"`)
  makes the integer cast raise when the module loads. This crash is not
  modelled; the model reads such text as an unknown year.
- Cleaning.CleanData: only `release_year` and `listed_in` are inspected.
  The other columns stand for themselves and take part only in duplicate
  detection. Float years that `astype(int)` truncates are not modelled.
- pandas' dtype inference (object against numeric columns) is reflected
  only in the cell shapes the model allows.

# Movie ratings exploration, modelled in Dafny

`MovieProject.py` explores the MovieLens 1M ratings with pandas. This project models the table logic under its library calls:

- **Loading movies.** Each line of the movie file (`id::Title (yyyy)::Genre|Genre`) becomes one movie row. The row holds the id, the title with and without its year, the genre text and the year. The year is read from the last six characters of the title. A year or id that is not a number stops the load, as `pd.to_numeric` does by default.
- **Genre columns.** Each of the 18 genre names becomes a 0/1 column, set by substring containment in the genre text.
- **Inner join.** The movie table is joined with the ratings on `MovieID`.
- **Summary figures.** The row count and mean rating of the joined table. Per genre: its mean rating and its share of the joined rows. The five largest shares are selected.
- **Year table.** For those five genres, the mean rating per year. The five per-year frames are outer-merged on `year`, their columns are selected, and the rows from 1950 on are kept.

Modules follow the steps of the script:

- `Wrappers`: Option and Result.
- `Text`: splitting on `::`, slicing, stripping, containment and number text.
- `MovieLoad`: lines 22-37.
- `GenreFlags`: lines 39-46.
- `RatingJoin`: line 54.
- `GenreStats`: lines 56-77 and 136-143.
- `YearTable`: lines 155-192.
- `Exploration`: the script end to end.

Values that pandas keeps as NaN are `None`. Small-integer floating point is replaced by exact values:

- A mean is the fraction `Ratio(total, count)`.
- A percentage is a `real`.

The rating file and the movie file are inputs. The movie file is given as its lines, and the rating file as a sequence of `Rating` rows.

Where the code and its comments differ, the model follows the code:

- **Line 28.** The comment says the years are made numeric. Using `pd.to_numeric`'s default mode, a year text that is not a number raises and ends the run; it does not become NaN. The model returns `Err` (`MovieLoad.LoadMovies`).
- **Line 46.** A line with fewer than three fields has no genre text, and its flags are NaN rather than 0. The model gives them as `None`, and `== 1` (lines 65, 137 and 157) treats them as not set.
- **Line 137.** `np.sum(...) / n` on an empty merged table is 0/0, which numpy evaluates to NaN rather than raising. The model returns `None`.

## Model

| member | source | states |
|---|---|---|
| Text.Split | MovieProject.py:24 | `str.split("::")` gives at least one field, and joining the fields with `::` gives back the line |
| Text.SplitJoin | MovieProject.py:24 | splitting a `::`-join of clean fields gives back exactly those fields |
| Text.SplitFieldsClean | MovieProject.py:24 | every field but the last is free of `::` and does not end in `:`; the last has no `::` |
| Text.SplitAfterField | MovieProject.py:24 | a clean first field is split off whole, so the fields of `a::b` are `a` followed by the fields of `b` |
| Text.SplitNoSep | MovieProject.py:24 | a text without `::` is one field |
| Text.LastChars | MovieProject.py:25 | `s[-6:]` has length min(6, len s) and is the end of `s` |
| Text.DropLastChars | MovieProject.py:30 | `s[:-6]` followed by `s[-6:]` is `s`; it is empty for a short text |
| Text.StripLeft | MovieProject.py:26 | what is removed is a run of `c` at the front, and the rest does not start with `c` |
| Text.StripRight | MovieProject.py:27 | what is removed is a run of `c` at the back, and the rest does not end with `c` |
| Text.Strip | MovieProject.py:26-27 | the result is the text with a run of the stripped character removed at each end, and neither starts nor ends with that character |
| Text.StripsToStrip | MovieProject.py:26-27 | any text with that shape is the strip, so the shape fixes the result |
| Text.StripRuns | MovieProject.py:26-27 | stripping `c` from `c…c + t + c…c` gives exactly `t` when `t` has no `c` at its ends |
| Text.StripKeeps | MovieProject.py:26-27 | any other character survives the strip |
| Text.Occurs | MovieProject.py:46 | the containment test is true exactly when the pattern occurs at some position of the text |
| Text.ContainsStep | MovieProject.py:46 | when the pattern does not start the text, it occurs in the text iff it occurs after the first character |
| Text.NotIntText | MovieProject.py:28 | a text holding a character that is neither a digit nor a sign is not a number |
| Text.NumberRoundTrip | MovieProject.py:28-29 | converting the decimal text of any integer gives that integer |
| MovieLoad.IdText | MovieProject.py:29 | the id text starts the line; it is the whole line when there is no `::`, and otherwise a clean field followed by `::` |
| MovieLoad.OrigName | MovieProject.py:24 | the title exists iff the line has a second field, and is that field; it holds no `::`; the id text, `::` and the title start the line, followed by the end of the line or by `::` after a clean title |
| MovieLoad.YearText | MovieProject.py:25-27 | the year text exists iff the title does; it is the title's last six characters with the runs of `(` at both ends removed and then the runs of `)` |
| MovieLoad.MovieOf | MovieProject.py:24-37 | MovieID is the number of the id text (missing if it is empty); Orig Names is the title; Names + the last 6 characters of the title = the title; Genres is the third field when there is one; Year is the number of the year text (missing if there is none or it is empty) |
| MovieLoad.FirstNotNumeric | MovieProject.py:28-29 | the reported position is the first failing cell, and there is none when nothing fails |
| MovieLoad.LoadMovies | MovieProject.py:22-37 | Ok iff every line's year and id convert, and then row i is line i's row; otherwise the error names the first bad year, or, when all years convert, the first bad id, and its text |
| MovieLoad.ParseLine | MovieProject.py:24-35 | `id::T::G` with clean T and G splits into exactly `[id, T, G]`; Orig Names is T and the id reads back as the number |
| MovieLoad.TitleYear | MovieProject.py:25-30 | for a title ending in `(dddd)` the last six characters are `(dddd)`, the name is the rest, and the year is the number dddd |
| MovieLoad.LoadWellFormedLine | MovieProject.py:22-37 | `id::name(dddd)::G` loads into the row (id, name, name(dddd), G, dddd) |
| MovieLoad.YearlessTitleFails | MovieProject.py:25-28 | a title whose last six characters hold a non-digit, non-sign, non-parenthesis (no year) makes the whole load fail at a year, at that line or before |
| MovieLoad.ToyStory | MovieProject.py:22-37 | the line `1::Toy Story (1995)::Animation\|Children's\|Comedy` loads into MovieID 1, Names `Toy Story `, Year 1995 and the genre text |
| GenreFlags.GenreFlag | MovieProject.py:46 | the flag is NaN iff the genre text is missing, 1 iff the name occurs in the text, 0 iff it does not |
| GenreFlags.RowFlags | MovieProject.py:44-46 | the row has exactly the 18 listed genre columns, each holding that genre's flag |
| GenreFlags.FlagColumnsSpec | MovieProject.py:44-46 | after the columns of a prefix of the genre list are added, exactly those columns exist, each with its flag |
| GenreFlags.AddGenreColumns | MovieProject.py:44-46 | every movie row is kept, in order, and receives the 18 flags of its own genre text; the result is AddedColumns of the movies |
| GenreFlags.AddedColumns | MovieProject.py:44-46 | each movie keeps its place and has exactly the 18 genre columns: 1 when its genre text contains the name, 0 when not, missing without genre text |
| GenreFlags.NotFlaggedWhenCharMissing | MovieProject.py:46 | a name with a letter the text lacks gets flag 0 |
| GenreFlags.NotFlaggedWhenPairMissing | MovieProject.py:46 | a name with two adjacent letters that never stand together in the text gets flag 0 |
| GenreFlags.ToyStoryGenres | MovieProject.py:39-46 | `Animation\|Children's\|Comedy` sets exactly Animation, Children's and Comedy to 1 and the other 15 to 0 |
| RatingJoin.Partners | MovieProject.py:54 | one movie's joined rows are exactly its pairs with the ratings carrying its id |
| RatingJoin.Join | MovieProject.py:54 | a row is in the join iff it pairs a movie row and a rating with equal MovieID; unmatched rows contribute nothing |
| RatingJoin.JoinMultiplicity | MovieProject.py:54 | each (movie, rating) pair with equal ids occurs (copies of the movie) × (copies of the rating) times; other pairs never occur |
| RatingJoin.JoinSizeByMovies | MovieProject.py:54 | the joined row count is the sum, over the movies, of each one's number of matching ratings |
| RatingJoin.JoinSizeByRatings | MovieProject.py:54 | the joined row count is also the sum, over the ratings, of the number of movies with their id |
| GenreStats.GenreSubset | MovieProject.py:65 | `movie[movie[g] == 1]` holds exactly the rows whose flag is 1 |
| GenreStats.MeanBetween | MovieProject.py:66 | a mean lies between any lower and upper bound of its values |
| GenreStats.OverallMean | MovieProject.py:57 | the overall mean is undefined iff the table is empty, otherwise the sum of all ratings over n |
| GenreStats.SubsetCounts | MovieProject.py:64-66 | the subset has as many rows as the flag count, and its ratings sum to the flagged ratings' sum |
| GenreStats.AvgRate | MovieProject.py:64-67 | the genre's mean is undefined (NaN) exactly when no row is flagged, and is otherwise the flagged ratings' sum over their count |
| GenreStats.AvgRateBetween | MovieProject.py:64-67 | when all ratings lie in [lo, hi], a defined genre mean does too |
| GenreStats.RatingByGenre | MovieProject.py:70-75 | the loop collects the 18 genre names in list order, each beside its avg_rate |
| GenreStats.Percent | MovieProject.py:137 | the percentage is undefined iff n = 0; otherwise percentage × n = 100 × flag count, and it lies in [0, 100] |
| GenreStats.FlagCountAtMost | MovieProject.py:137 | a genre's flag count is at most the row count |
| GenreStats.Percentages | MovieProject.py:136-139 | the loop yields, for each of the 18 genres in order, its percentage |
| GenreStats.SortDescending | MovieProject.py:142 | the sort keeps the same rows (a permutation) in descending order of percentage, NaN last |
| GenreStats.InsertShare | MovieProject.py:142 | inserting a row into a descending table keeps it descending and adds exactly that row |
| GenreStats.TopFive | MovieProject.py:142 | `[0:5]` takes min(5, rows) rows of the table, in descending order, each at least every row not chosen |
| GenreStats.TopGenresChoice | MovieProject.py:141-143 | genre_list2 names five distinct genres of the list, and each chosen genre's percentage is at least that of every genre not chosen |
| YearTable.YearGroup | MovieProject.py:158 | a group holds exactly the subset's rows of that year |
| YearTable.InsertYear | MovieProject.py:158 | adding a key to an ascending key list keeps it ascending and adds exactly that key |
| YearTable.GroupYears | MovieProject.py:158 | the groupby keys are the distinct years present, ascending; rows with no year form no group |
| YearTable.YearGroupCounts | MovieProject.py:158 | a year's group has as many entries as the rows of that year, repeated rows included, and the same rating sum |
| YearTable.GroupByYearLookup | MovieProject.py:158 | the grouped frame's years are exactly the years present, ascending; its value for any year is that year's rating sum over its row count (missing if none); every value is defined |
| YearTable.GenreByYearMeans | MovieProject.py:156-159 | a genre's per-year frame has exactly the years with a row flagged for the genre, ascending, and for each the mean rating of those flagged rows |
| YearTable.LookupAt | MovieProject.py:159 | looking up a year of an ascending frame gives that row's value |
| YearTable.YearFrames | MovieProject.py:155-160 | dfrmlist holds, for each genre of genre_list2 in order, its per-year frame |
| YearTable.SeriesFrame | MovieProject.py:159-176 | a per-genre frame as a one-column table: well formed, rows for exactly its years, the column holding its values |
| YearTable.MergeRows | MovieProject.py:181 | the outer merge has a row for exactly the years of either side, and no more rows than the two sides together |
| YearTable.MergeWidth | MovieProject.py:181 | every merged row has the left columns plus the right columns |
| YearTable.MergeAscending | MovieProject.py:181 | merging two ascending frames gives years in ascending, unique order (so the following sort_values keeps it) |
| YearTable.MergeCells | MovieProject.py:181 | the merged frame has a row for a year iff either side does; its cells are the left side's cells then the right side's, missing where that side has no row |
| YearTable.FrameDetermined | MovieProject.py:181-192 | two well-formed frames of equal width with rows for the same years and the same cells have the same rows |
| YearTable.OuterMerge | MovieProject.py:181-184 | one outer merge on year: well formed, labels concatenated, years the union, each cell taken from its own side or missing |
| YearTable.MergeSeries | MovieProject.py:181-184 | the merges in turn give one column per frame, a row for exactly the union of their years, ascending, and in column k frame k's value for that year or a missing cell |
| YearTable.IndexOf | MovieProject.py:187 | a column name is found iff it is a label, at a position holding that name |
| YearTable.Select | MovieProject.py:187-191 | selecting names fails iff one is not a column (KeyError); otherwise the columns come in the given order with the same rows and cells |
| YearTable.SinceRows | MovieProject.py:192 | the kept rows all have year ≥ 1950, and a year's row is kept iff it is ≥ 1950 |
| YearTable.Since | MovieProject.py:192 | the filtered frame is well formed with the same columns, every cell the same in years ≥ 1950 and none before |
| Exploration.MergedColumns | MovieProject.py:187 | the names of line 187 are all merged columns, at positions 0, 2, 1, 3, 4 |
| Exploration.FinalFrames | MovieProject.py:181-192 | merged_genres is well formed with columns action, comedy, drama, thriller, sci-fi, a row for exactly the years of any of the five frames, and in each column the per-year mean of dfrmlist[2], [0], [1], [3], [4]; merged_genres_sub has the first three columns, a row for exactly those years from 1950 on, and the same cells |
| Exploration.MergedGenresUnique | MovieProject.py:181-187 | only one frame has the properties stated of merged_genres |
| Exploration.MergedGenresSubUnique | MovieProject.py:191-192 | only one frame has the properties stated of merged_genres_sub |
| Exploration.Explore | MovieProject.py:22-192 | the run fails exactly when the load does, with its error; otherwise, over the join of the flagged movie table with the ratings, n is its row count, avg_rating its mean, the genre means and percentages those of the 18 genres in order, genre_list2 the top five of the percentages, dfrmlist those genres' per-year frames, and both final frames have every row and cell stated for FinalFrames |

## Left out

- File reading (lines 22 and 51) is left out. The movie lines and the rating rows are parameters.
- Plotting (lines 59, 106-131 and 194) is left out. The box-plot frame of lines 106-131 only feeds a plot.
- The `set_index` at line 193 is left out: the model's frames are already keyed by year.
- Tie order is not modelled. `sort_values` (line 142) does not fix the order of equal percentages, so its model `GenreStats.SortDescending` picks one descending order. The properties stated of it use only descending order and the permutation, which every admissible order has.
- Exploration.Explore: its equalities for genre_list2, and through it for dfrmlist and both final frames, hold for the order the model's sort picks. When percentages are equal, pandas may order genre_list2 differently, and then dfrmlist and the frames named by position differ as well.
- The sort at line 78 is left out. It only reorders the average-rating table for display, and its result is not used later.
- The names given by position at lines 163-176 are kept only as labels. The model attaches them to dfrmlist[0..4] by position, as the script does, whatever genres those frames belong to.
- Floating point is not modelled. Means are exact fractions and percentages exact reals, so NaN propagation, rounding and the float year column are not represented.
- Text.ToNumeric: only an optional sign followed by decimal digits counts as a number. Decimal points, exponents, surrounding spaces and the other spellings that `pd.to_numeric` accepts are treated as failures.
- GenreFlags.GenreFlag: models `str.contains` as literal substring search. That equals the regular-expression search for the 18 listed names, which contain no metacharacters. A caller-supplied pattern with metacharacters is not modelled.
- RatingJoin.Join: the join's row order follows the movie table and then the rating table. pandas' own row order for the inner merge is not claimed, and no lemma depends on it.
- YearTable.MergeRows: assumes each side's years are unique, which holds for group-by output. Merging frames with repeated keys, which pandas answers with a product of rows, is not modelled.
- YearTable.MergeSeries requires at least one frame, as the script always merges five. Its result is stated for per-genre frames with ascending years, which `YearTable.GroupByYearLookup` proves for every group-by result and `YearTable.GenreByYearMeans` for every per-genre frame.
- Columns named but absent (a `KeyError` at lines 65, 137 or 157) cannot arise: every name used is one of the 18 columns. `YearTable.Select` models the error for the selections at lines 187 and 191.

# Defensive Player of the Year data cleaning, modelled in Dafny

The script `data_cleaning.py` builds one table of NBA defensive statistics.
It joins player tables from NBA.com, Basketball-Reference and Stathead, ranks
every player within each season on ten defensive metrics, and merges in team,
roster and combine data. This project models the parts of that script that
compute or restructure values, and proves what they guarantee:

- **Player names** (`clean_player_column`). Transliterate to ASCII,
  lower-case, then delete every character that is neither a word character
  nor whitespace. Wingspan names keep only their first line.
- **Per-season ranking.** Each metric column gets a `<metric>_rank` column
  holding the pandas average rank (`method='average'`) among the rows of the
  same `Season`. For `Deflections`, `charges`, `contested_shots`, `BLK`, `STL`
  and `DBPM` a higher value ranks first; for `DFGM`, `DFG_PCT`, `DFG_pct_2pt`
  and `DFG_pct_3pt` a lower value does. Missing values and rows without a
  season get no rank.
- **`average_rank`.** The mean of a row's non-missing `_rank` cells.
- **The final sort.** Season descending, then `average_rank` ascending. The
  sort is stable and puts missing keys last.
- **Unit and label parsers.** Roster heights `"6-8"`, combine heights
  `6' 8.25''`, wingspans `7' 1.5"`, and the season label `2013 -> "2013-14"`.
- **Column edits.** The position replacements (`C-F -> C`, ...) and the
  positional `opp_` / `tm_` renames of the team tables.

## Modules

| file | module | contents |
|---|---|---|
| `wrappers.dfy` | `Wrappers` | `Option` |
| `text.dfy` | `Text` | Python's character classes (ASCII), `str.lower`, `str.split`, decimal digits, `str(n)` |
| `cells.dfy` | `Cells` | a data-frame cell: text, integer, float or missing (`NaN`) |
| `parsers.dfy` | `Parsers` | `int()`, `height_to_inches`, the season label, the two regular-expression parsers |
| `names.dfy` | `Names` | the name cleaner, the first line, the position map, the positional prefix rename |
| `ranking.dfy` | `Ranking` | the per-season average rank, the rank column, `average_rank` |
| `ordering.dfy` | `Ordering` | Python string order, the sort key, a stable insertion sort |
| `frames.dfy` | `Frames` | the data frame as columns and rows, each column operation as a function, and the class `Frame` that applies them in place |

An exception in the script (a missing column, `int()` on bad text, a tuple
unpacking of the wrong length) is a `None` result. A `Frame` method returns
`ok == false` for it. A method that performs one step then leaves the frame
unchanged; the ranking loops and `RankPlayers`, which perform several,
leave the frame as the steps before the failing one made it, as the script
does when it stops.

## Model

| member | source | states |
|---|---|---|
| Names.Unidecode | data_cleaning.py:18 | with an ASCII transliteration table the result is ASCII; ASCII text is returned unchanged |
| Names.KeepWordsAndSpaces | data_cleaning.py:19 | keeps only word and whitespace characters, and keeps every one of them as often as it occurs in the input |
| Names.KeepIsSubsequence | data_cleaning.py:19 | the punctuation removal only deletes characters: its result is a subsequence of its input |
| Names.CleanNameShape | data_cleaning.py:16-20 | a cleaned name is ASCII, has no upper-case letter, holds only word and space characters, is a subsequence of the lower-cased transliteration, and keeps every word and space character of it |
| Names.CleanNameFixpoint | data_cleaning.py:16-20 | the cleaner leaves a name unchanged exactly when it is already clean (both directions) |
| Names.CleanNameIdempotent | data_cleaning.py:16-20 | cleaning a cleaned name changes nothing |
| Names.CleanNameOfAscii | data_cleaning.py:18-19 | on ASCII input the transliteration table is never consulted: the result is lower-casing followed by punctuation removal |
| Names.FirstLineOfSplit | data_cleaning.py:44 | the first line holds no line break; it is the whole text when there is no break, and otherwise it is a proper prefix followed by the first break |
| Names.FirstLineIdempotent | data_cleaning.py:44 | taking the first line twice is taking it once |
| Names.ReplacePosition | data_cleaning.py:253-256 | a hybrid label `X-Y` becomes its first position `X`, any other value stays, and no result is itself a hybrid label |
| Names.ReplacePositionIdempotent | data_cleaning.py:253-256 | no replaced value is itself a key, so one pass of `replace` is as good as two |
| Names.PrefixRange | data_cleaning.py:135-141 | the rename fails exactly when the range reaches past the last column; otherwise every position in the range gets the prefix, and a position outside it is prefixed exactly when its name repeats a name inside it |
| Names.PrefixRangeExact | data_cleaning.py:154-158 | with distinct column names, exactly the columns at positions `lo` to `hi - 1` are prefixed |
| Names.TeamTableRenames | data_cleaning.py:135-158 | on a team table with distinct names, positions 11 to 22 get `opp_`, and on the table after the drop positions 7 to 16 get `tm_` |
| Names.AdvancedTeamTableRenames | data_cleaning.py:163-174 | on the advanced team table the two overlapping renames leave positions 13 to 16 prefixed `tm_opp_`, the rest of 7 to 17 `tm_`, and the others as they were |
| Text.SplitJoin | data_cleaning.py:240 | `sep.join(s.split(sep)) == s` |
| Text.SplitParts | data_cleaning.py:240 | `s.split(sep)` has one more part than `s` has separators, and no part holds the separator |
| Text.NatToStringValue | data_cleaning.py:236 | `str(n)` reads back as `n` |
| Parsers.PyIntOfNatToString | data_cleaning.py:236 | `int(str(n)) == n` |
| Parsers.PyIntOfDigits | data_cleaning.py:241 | `int()` of a non-empty digit string is its decimal value |
| Parsers.HeightToInchesRoundTrip | data_cleaning.py:239-241 | a height written `str(f) + "-" + str(i)` converts to `12 * f + i` |
| Parsers.HeightOfDigits | data_cleaning.py:239-241 | any two digit strings joined by one dash convert to twelve times the first value plus the second |
| Parsers.HeightToInchesNeedsOneDash | data_cleaning.py:240 | the unpacking `feet, inches = ...` fails unless the text holds exactly one dash |
| Parsers.SeasonLabelExamples | data_cleaning.py:236 | `2013` is labelled `"2013-14"` and `1999` is labelled `"1999-00"` |
| Parsers.SeasonLabelShape | data_cleaning.py:236 | from year 9 on, a label is the year, a dash, and the next year modulo 100 in exactly two digits |
| Parsers.SeasonLabelParts | data_cleaning.py:236 | a label splits on its dash into two parts that `int()` reads as the year and the next year modulo 100 |
| Parsers.SeasonLabelSplit | data_cleaning.py:236 | a label splits into `str(x)` and the last two characters of `str(x + 1)` |
| Parsers.SeasonSuffixValue | data_cleaning.py:236 | the suffix reads as the next year modulo 100 |
| Parsers.ScanComplete | data_cleaning.py:366 | every text of the pattern's shape is matched, whatever follows the closing mark, and the groups are exactly its pieces |
| Parsers.MatchComplete | data_cleaning.py:363-378 | a text of the pattern's shape converts to twelve times the feet plus the inches |
| Parsers.MatchSound | data_cleaning.py:363-378 | whenever a conversion succeeds, the text starts with a well-formed feet-and-inches reading whose value is the result |
| Parsers.MatchNoneIff | data_cleaning.py:373-375 | the conversion returns `None` exactly when no well-formed reading is a prefix of the text (both directions) |
| Parsers.ConvertHeightExample | data_cleaning.py:366 | `6' 8.25'' tall` converts to 80.25 (trailing text ignored) and `6'8''` to 80.0 |
| Cells.NumberOf | data_cleaning.py:116 | only integer and float cells carry a number; text and missing cells do not |
| Cells.FromNumber | data_cleaning.py:116 | writing a number, or a missing value, into a cell reads back as that number |
| Ranking.RankColumn | data_cleaning.py:116 | the rank column has one cell per row |
| Ranking.RankInBounds | data_cleaning.py:116 | an average rank among `n` values lies between 1 and `n` |
| Ranking.RankInOrder | data_cleaning.py:116 | a value ahead of another (higher for `ascending=False`, lower for `ascending=True`) has a strictly smaller rank and conversely; equal values share a rank and conversely |
| Ranking.RankInFirst | data_cleaning.py:116 | a value's rank is 1 exactly when it is ahead of every other value |
| Ranking.RankSum | data_cleaning.py:116 | the ranks of `n` values sum to `n(n+1)/2`, ties included |
| Ranking.RankBounds | data_cleaning.py:115-119 | a row has no rank exactly when its metric or its season is missing; otherwise its rank lies between 1 and the number of ranked rows in its season |
| Ranking.RankOrder | data_cleaning.py:115-119 | within one season, rank order is metric order in the column's direction, and ties share a rank (both directions) |
| Ranking.RankFirst | data_cleaning.py:115-119 | a row ranks 1 in its season exactly when its value is ahead of every other value of that season |
| Ranking.RankColumnSum | data_cleaning.py:115-119 | within each season, the rank cells of the rank column sum to `n(n+1)/2` for `n` ranked rows |
| Ranking.RankLocality | data_cleaning.py:116 | adding rows of other seasons, before or after, leaves a row's rank unchanged |
| Ranking.NoSeasonValues | data_cleaning.py:116 | a season no row has contributes no values |
| Ranking.SeasonValuesMembers | data_cleaning.py:116 | a value is among a season's ranked values exactly when some row of that season holds it |
| Ranking.AverageMissing | data_cleaning.py:126 | the mean is missing exactly when every rank cell of the row is missing |
| Ranking.AverageSkipsMissing | data_cleaning.py:126 | a missing rank cell anywhere leaves the mean as it is |
| Ranking.AverageAllPresent | data_cleaning.py:126 | with no missing rank, the mean is the sum divided by the count |
| Ranking.AverageBounds | data_cleaning.py:126 | the mean lies within any bounds that every present rank lies within |
| Ordering.StrLessTransitive | data_cleaning.py:128 | Python's string `<` is transitive |
| Ordering.StrLessTotal | data_cleaning.py:128 | of two different strings one is smaller |
| Ordering.BeforeTransitive | data_cleaning.py:128 | the two-key sort order is transitive |
| Ordering.BeforeStrictTotal | data_cleaning.py:128 | the two-key order is irreflexive, asymmetric and total on different keys |
| Ordering.SortBy | data_cleaning.py:128 | the sort is a permutation of its input |
| Ordering.SortBySorted | data_cleaning.py:128 | the sorted rows are in order: no row is strictly before an earlier row |
| Ordering.SortByStable | data_cleaning.py:128 | rows with equal keys keep their relative order |
| Frames.IndexOf | data_cleaning.py:17 | the position found holds the name and no earlier position does; there is none exactly when the name is absent |
| Frames.MapColumn | data_cleaning.py:18 | an `apply` raises exactly when the function raises on some cell; otherwise each row has exactly its one cell replaced |
| Frames.ApplyToColumnCells | data_cleaning.py:18 | a successful `apply` replaces each row's cell in that column by the function of it and leaves the row's other cells alone |
| Frames.ApplyToColumnFails | data_cleaning.py:18 | an `apply` raises exactly when the column is missing or repeated, or the function raises on one of its cells |
| Frames.CleanPlayers | data_cleaning.py:16-20 | a frame without a `Player` column is returned unchanged; otherwise the cleaned frame has the same columns and the same number of rows |
| Frames.CleanPlayersShape | data_cleaning.py:16-20 | after cleaning, every `Player` cell holds the clean name of its old text and every other cell is unchanged |
| Frames.CleanPlayersIdempotent | data_cleaning.py:16-20 | cleaning a cleaned frame changes nothing |
| Frames.FirstLineOfPlayers | data_cleaning.py:44 | the first-line step never raises once the column exists; each text cell keeps only its first line, which holds no line break, and a cell that is not text does not become text |
| Frames.SeasonCellOfYearText | data_cleaning.py:236 | a season stored as the text of a year gets the same label as the integer year |
| Frames.HeightMeasureCell | data_cleaning.py:363-378 | a cell is missing exactly when it is not text (`re.match` raises and the handler returns `None`) or no well-formed feet-and-inches reading starts its text; otherwise it holds the value of that reading |
| Frames.WingspanMeasureCell | data_cleaning.py:380-395 | the same for wingspans, with any number of spaces and a double quote as closing mark |
| Frames.ReplacePositions | data_cleaning.py:256 | `replace` keeps the shape of the frame |
| Frames.ReplacePositionsProperties | data_cleaning.py:253-256 | replacing twice is replacing once, and a cell changes only when it is a hybrid position label |
| Frames.PrefixColumns | data_cleaning.py:135-141 | the rename changes only the column names |
| Frames.SetColumn | data_cleaning.py:116 | `df[name] = cells` overwrites every column of that name (a repeated name gets the cells in each copy) or appends a new one, and no other cell changes |
| Frames.SetColumnColumns | data_cleaning.py:116 | after `df[name] = cells` the column `name` reads back as `cells`, and every other column reads as before |
| Frames.WithRankCells | data_cleaning.py:116 | the new `<col>_rank` cell of every row is that row's rank among the same season's metric values |
| Frames.RankCellsOf | data_cleaning.py:116 | a successful pass computes its rank cells from the `Season` column and the metric column |
| Frames.RankEachKeeps | data_cleaning.py:115-119 | a ranking loop leaves every column that is not one of its `_rank` columns as it was |
| Frames.RankEachColumns | data_cleaning.py:115-119 | after a loop in which no pass raises, every `col_rank` column holds the per-season ranks of `col` as it was before the loop |
| Frames.MetricListsFresh | data_cleaning.py:110-112 | the ten metric names are distinct, none is `Season`, and none already ends in `_rank`, so every rank column is new |
| Frames.RankBothLoopsColumns | data_cleaning.py:115-119 | after both loops, each of the ten metrics has a rank column holding its per-season ranks in its own direction, computed from the frame before the loops |
| Frames.RankPositions | data_cleaning.py:122 | the filter keeps exactly the columns whose name ends in `_rank`, also before a final line break, each once and in column order |
| Frames.WithAverageCells | data_cleaning.py:122-126 | each row's `average_rank` is the mean of exactly its non-missing rank cells: missing when they all are, and within the bounds of the ranks |
| Frames.SortedRows | data_cleaning.py:128 | the sort keeps the columns and the number of rows and returns the same rows as a multiset, and fails when `Season` or `average_rank` names more than one column, as pandas refuses a sort label that is not unique |
| Frames.SortedRowsProperties | data_cleaning.py:128 | the sorted rows are a permutation of the old ones, in the required order, and rows with equal keys keep their order |
| Frames.Frame.constructor | data_cleaning.py:23 | a frame holds the columns and rows it is given |
| Frames.Frame.CleanPlayerColumn | data_cleaning.py:16-20 | the frame becomes the cleaned frame, or stays as it was when the cleaning raises |
| Frames.Frame.KeepFirstLineOfPlayer | data_cleaning.py:44 | the `Player` column is reduced to first lines in place |
| Frames.Frame.LabelSeasons | data_cleaning.py:236 | the `Season` column is relabelled in place, or the frame stays as it was when `int()` raises |
| Frames.Frame.HeightsToInches | data_cleaning.py:244 | the `Height` column is converted in place, or the frame stays as it was when a height does not unpack |
| Frames.Frame.ReplaceHybridPositions | data_cleaning.py:256 | `replace(..., inplace=True)` turns the frame into its replaced version |
| Frames.Frame.PrefixColumnRange | data_cleaning.py:135-141 | the columns are renamed in place, or the frame stays as it was on an out-of-range position |
| Frames.Frame.AddRankColumn | data_cleaning.py:116 | one loop pass: the frame gains the rank column, or stays as it was when the pass raises |
| Frames.Frame.RankColumns | data_cleaning.py:115-119 | after the loop the frame is the one that ranking the columns in turn produces, stopping at the first pass that raises |
| Frames.Frame.RankPlayers | data_cleaning.py:110-128 | the frame and outcome are those of the whole ranking section: on success the ranked, averaged and sorted frame, and on a failure the frame the earlier steps left |

## Left out

- Reading and writing CSV files, `print`, the scrapers and the network calls
  are not modelled. The frames are parameters.
- The merges, `drop`, `fillna`, the column selections and renames by name,
  `reset_index`, the `*100` percentage columns and the ratio columns are not
  modelled. None of them is part of the modelled core.
- `unidecode`'s transliteration tables are a parameter (`Transliteration`).
  The proofs assume only that every entry is ASCII.
- Python's `\w`, `\s`, `\d`, `str.lower`, `str.strip` and `int()` are modelled
  for ASCII. Non-ASCII digits, letters and spaces are not recognised. Once a
  name has been transliterated, it holds only ASCII.
- Numbers are exact reals. Floating-point rounding in `float()`, in the arithmetic
  `feet * 12 + inches` and in the rank mean is not modelled.
- Frames.SeasonCell: a float season cell (`2013.0`) is treated as an error.
  The script would write `"2013.0-14"`.
- Frames.SortedRows: a `Season` cell holding a number is treated as an error.
  pandas sorts a column of mixed numbers and text without raising: numbers
  before text, missing values last, so with the descending season order the
  numeric seasons come after the text labels. After the season labelling
  every `Season` cell is text.
- Frames.SortedRows: a text `average_rank` cell sorts as a missing key,
  with the rows whose average is missing. pandas would place it after the
  numbers and before the missing values. `WithAverage` never writes a text
  cell there.
- Frames.WithRank: a metric column holding a text cell is treated as an error.
  pandas would rank the column as objects and raise only in some versions.
- Frames.WithAverage: a text cell in a `_rank` column is treated as an error.
  Depending on the pandas version, `mean(axis=1)` either raises on it or
  leaves the text column out of the mean.
- Frames.ApplyToColumn treats a repeated column name as an error. With a
  repeated name, `df[name]` would be a frame and not a column.
- Frames.Frame.RankColumns: once a pass fails, the remaining passes do nothing
  and the frame keeps the state after the last successful pass. The script
  stops with the same frame.
- Frames.FirstLineOfPlayers: pandas' `.str` raises on a column that holds no
  text at all (only missing values or only numbers). The model turns each
  non-text cell into a missing value instead. After the cleaning at source
  line 43 every `Player` cell is text, so the case cannot follow it.
- The drop between the two renames of the team table (source line 150) is not
  modelled. `Names.TeamTableRenames` takes the table after the drop as a
  second list of names.
- The combine-metric and wingspan `apply` calls on particular columns, after
  source line 397, are not modelled. Only the conversion of one cell is.

# Player Performance Analyzer, modelled in Dafny

The Player Performance Analyzer reads a table of basketball player statistics.
It gives each player a weighted performance score:

    Points·1.0 + Assists·1.5 + Rebounds·1.2 + Steals·2.0 − Turnovers·1.0

It then ranks the players, highest score first, and reports summary
statistics. It comes in three variants that share the formula:

- `performance.py` reads a csv file row by row. It validates every stat
  cell with `safe_float`: invalid and negative values become 0. It sorts
  with Python's stable `sorted` and numbers the players 1..n.
- `performance_advanced.py` does the same cleaning on a pandas DataFrame:
  it drops blank names and coerces, fills and clips the stats. It scores
  with a dot product, sorts with `sort_values`, inserts a Rank column and
  reports the top performer, mean, max and min.
- `app.py` is a Flask upload handler. It scores every row without any
  cleaning, takes max, min, mean and the top scorer (`idxmax`) before
  sorting, and displays (Name, Score) pairs, highest first.

The project models the parsed input: rows of cells, where a cell is a
number, a string or missing. It models each variant's pipeline on those rows
and proves what each promises.

Modules:

- `wrappers.dfy`: Option and Result.
- `seqs.dfy`: order-preserving map and filter.
- `cells.dfy`: cells, `str.strip()` and decimal parsing.
- `scoring.dfy`: the columns, the weights, the formula and `round(x, 2)`.
- `ranking.dfy`: a stable descending sort and its properties.
- `aggregates.dfy`: sum, max, min and mean.
- `performance.dfy`, `advanced.dfy` and `app.dfy`: one module per variant.
- `agreement.dfy`: lemmas that relate the three variants to each other.

Where the source mutates state, the model is imperative:

- `calculate_score`'s accumulation loop is a method with a loop invariant.
- `read_players`' row loop and inner stat loop are methods.
- `rank_players`' scoring and numbering loops are methods.

Each of these methods is proved equal to a specification function. The
pandas whole-column transforms and the aggregates are functions.

Arithmetic is exact (`real`). `round(x, 2)` is modelled as rounding the
exact value to the nearest cent, ties to even.

## Model

| member | source | states |
|---|---|---|
| Scoring.StatColumnCases | performance.py:23-29 | the stat columns are exactly Points, Assists, Rebounds, Steals and Turnovers |
| Scoring.RequiredColumnsAreNameAndStats | performance.py:115 | the required columns are Name together with the keys of WEIGHTS |
| Scoring.RoundHalfEven | performance.py:87 | the integer chosen is within one half of the value |
| Scoring.Round2 | performance.py:87 | `round(x, 2)` moves a value by at most half a cent |
| Scoring.RoundHalfEvenMonotone | performance.py:87 | rounding to an integer never reverses an order |
| Scoring.Round2Monotone | performance.py:87 | rounding to cents never reverses an order, so sorting rounded scores respects the exact order |
| Scoring.RoundHalfEvenOfInt | performance.py:87 | an integer rounds to itself |
| Scoring.Round2OfCents | performance.py:87 | a value with at most two decimals is left unchanged |
| Scoring.Round2Idempotent | app.py:64-66 | rounding a score that is already rounded to two decimals gives the same value |
| Scoring.ScoreMonotone | performance.py:84-85 | raising Points, Assists, Rebounds or Steals, or lowering Turnovers, never lowers the rounded score |
| Cells.TrimLeft | performance.py:53 | the result is a suffix of the input, starts with a non-space, and only whitespace was removed |
| Cells.TrimRight | performance.py:53 | the result is a prefix of the input, ends with a non-space, and only whitespace was removed |
| Cells.Strip | performance.py:121 | `strip()` leaves no whitespace at either end |
| Cells.TrimLeftPadding | performance.py:53 | leading whitespace makes no difference to the left trim |
| Cells.TrimRightPadding | performance.py:53 | trailing whitespace makes no difference to the right trim |
| Cells.TrimLeftAppend | performance.py:53 | text after a non-blank string survives the left trim unchanged |
| Cells.StripPadding | performance.py:53 | padding a string with whitespace on both sides does not change its stripped form |
| Cells.StripIdempotent | performance_advanced.py:84 | stripping an already stripped name changes nothing |
| Cells.StripUnpadded | performance.py:53 | a string that neither starts nor ends with whitespace is unchanged by `strip()` |
| Cells.DotIndex | performance.py:53 | the index found is the first '.' of the literal, or its end |
| Cells.DotIndexAbsent | performance.py:53 | a string of digits has no '.' |
| Cells.ParseUnsigned | performance.py:53 | an accepted unsigned literal is made of digits and at most the '.' and has a non-negative value |
| Cells.ParseDecimal | performance.py:53 | the literal grammar `float()` accepts once its input is trimmed: no accepted literal holds whitespace (the trimming `float()` does itself is the `Strip` every caller applies first), and a negative value needs a leading '-' |
| Cells.ParseUnsignedDigits | performance.py:53 | a string of digits reads as the number it spells |
| Cells.ParseDigits | performance.py:53 | `float("123")` is 123 |
| Cells.ParseNegated | performance.py:55 | a leading '-' gives the negated value |
| Seqs.Filter | performance_advanced.py:65 | a row filter keeps only rows of the input that pass the test |
| Seqs.MapAppend | performance.py:153-154 | mapping a concatenation maps each part |
| Seqs.FilterAppend | performance.py:120-133 | filtering a concatenation filters each part, preserving input order |
| Seqs.FilterKeeps | performance_advanced.py:65 | every row that passes the test survives the filter |
| Seqs.FilterComplement | performance_advanced.py:66 | the kept rows and the removed rows together are all the rows |
| Seqs.FilterPartition | app.py:56 | splitting by a test and its negation loses and adds no element (as multisets) |
| Seqs.MapMultiset | performance.py:157 | reordering records and then projecting them is a reordering of the projections |
| Ranking.InsertDesc | performance.py:157 | inserting adds exactly the new record |
| Ranking.InsertDescSorted | performance.py:157 | inserting into a descending list keeps it descending |
| Ranking.SortDesc | performance.py:157 | `sorted(..., reverse=True)` returns a permutation with non-increasing keys |
| Ranking.InsertDescStable | performance.py:157 | insertion keeps records with equal keys in the order they came in |
| Ranking.SortDescStable | performance.py:157 | the sort is stable: records with equal keys keep their input order |
| Ranking.NonIncreasingUnique | performance_advanced.py:134 | two non-increasing arrangements of the same scores are equal |
| Ranking.SortedKeysUnique | performance_advanced.py:134 | every descending permutation has the same key at every position, whatever tie order it picks |
| Ranking.DescendingHeadIsMax | performance_advanced.py:176 | the first record of a descending list has the largest key |
| Aggregates.Max | performance_advanced.py:179 | `max()` is an element and bounds every element from above |
| Aggregates.Min | performance_advanced.py:180 | `min()` is an element and bounds every element from below |
| Aggregates.MeanBetween | performance_advanced.py:178-180 | min ≤ mean ≤ max for a non-empty column |
| Aggregates.MeanOfOne | performance_advanced.py:178 | the mean of a single score is that score |
| Performance.SafeFloat | performance.py:38-63 | the result is never negative; a non-negative parse is returned unchanged; a negative parse, a non-numeric string or a missing cell gives 0.0 |
| Performance.SafeFloatWarning | performance.py:55-62 | no warning exactly for a non-negative parse; the invalid-value warning exactly when parsing fails |
| Performance.SafeFloatSilentIffUnchanged | performance.py:52-63 | no warning is printed exactly when safe_float returns what `float()` parsed |
| Performance.SafeFloatPadding | performance.py:53 | whitespace around a cell changes neither safe_float's value nor its warning |
| Performance.SafeFloatWholeNumber | performance.py:52-63 | a whole-number cell gives its value with no warning; the same number after a '-' gives 0.0, with the negative-value warning unless the number is 0 |
| Performance.CalculateScore | performance.py:69-87 | the loop over WEIGHTS returns the five-term weighted sum, absent stats as 0, rounded to cents |
| Performance.PlayersAreNamedRows | performance.py:120-133 | the players read are the named rows, in file order, each cleaned |
| Performance.PlayersAppend | performance.py:120-133 | reading a file in two parts gives the players of each part, in order |
| Performance.RowNameStripped | performance.py:121 | a kept name is non-empty and already stripped |
| Performance.CleanStatsWellFormed | performance.py:129-131 | each player record has exactly the five stats, none negative |
| Performance.CleanRowWellFormed | performance.py:129-133 | every player record built from a named row has a stripped non-empty name and five non-negative stats |
| Performance.PlayersWellFormed | performance.py:120-133 | every player returned has a stripped non-empty name and five non-negative stats |
| Performance.ReadStats | performance.py:130-131 | the inner loop stores safe_float of each stat cell, "0" standing in for an absent key |
| Performance.ReadRow | performance.py:121-133 | raises (NameNotText) exactly when the row's Name cell is present but not a string; otherwise a blank name gives no player and any other row its cleaned record |
| Performance.ReadRows | performance.py:120-133 | the row loop as written: the result is exactly `PlayersAsWritten`, the named rows' players in file order, or the AttributeError of the first row whose Name cannot be stripped |
| Performance.MissingFromNamesColumns | performance.py:115-118 | a column is reported missing exactly when it is Name or a WEIGHTS key and the header lacks it |
| Performance.ReadPlayers | performance.py:115-135 | a header without all required columns fails, naming exactly the missing ones; otherwise the result is what the row loop as written gives |
| Performance.AsWrittenFailsIff | performance.py:121 | the as-written read fails exactly when some row's Name cell cannot be stripped |
| Performance.AsWrittenError | performance.py:121 | the only exception it raises is the AttributeError of `strip()` |
| Performance.AsWrittenOutcome | performance.py:120-135 | as written, the read fails exactly when some Name cannot be stripped, and when it succeeds it returns the corrected list of named rows' players |
| Performance.PlayersAsWrittenAgrees | performance.py:120-133 | where every Name cell is a string, the code as written and the corrected reading agree |
| Performance.AsWrittenFailurePersists | performance.py:120-121 | once the as-written loop has raised, further rows leave the same exception |
| Performance.MissingNameAbortsRead | performance.py:121 | as written, one row without a Name value makes the whole read fail |
| Performance.MissingNameSkipped | performance.py:96 | corrected, such a row is skipped and every other player is kept |
| Performance.Leaderboard | performance.py:141-163 | rank_players returns one record per player |
| Performance.SortedScoresExact | performance.py:153-157 | every record the sort hands back carries its own player's calculate_score |
| Performance.ScoreAll | performance.py:153-154 | the first loop gives each player its calculate_score |
| Performance.Number | performance.py:160-161 | the last loop gives the i-th record Rank i+1 and changes nothing else |
| Performance.RankPlayers | performance.py:141-163 | the result is the specified leaderboard; the i-th record has rank i+1 and score equal to calculate_score of its stats |
| Performance.LeaderboardRanked | performance.py:153-163 | the leaderboard is a permutation of the players with non-increasing scores, ranks 1..n by position and exact scores |
| Performance.LeaderboardStable | performance.py:157 | players with equal scores keep their input order |
| Performance.Analyze | performance.py:223-248 | main fails on missing columns; a short row's AttributeError escapes it; otherwise it reports no valid records when no player is left, and ranks the named rows' players |
| Advanced.LoadAndValidate | performance_advanced.py:56-86 | loading fails exactly when a required column is missing, naming the missing set; otherwise the columns are kept and the dropped count is the initial count minus the remaining one |
| Advanced.LoadKeepsNamedRows | performance_advanced.py:62-66 | the kept rows are the named rows in their order, cleaned; the dropped count is the number of blank-named rows |
| Advanced.CleanRowStat | performance_advanced.py:72-81 | every cleaned stat is a number ≥ 0; a non-negative number is kept, a negative one becomes 0, a non-numeric or empty cell becomes 0 |
| Advanced.CleanRowKeepsOtherColumns | performance_advanced.py:72-84 | cleaning keeps every column and changes no column other than Name and the stats |
| Advanced.CleanRowName | performance_advanced.py:84 | a kept string name is stripped and non-empty; a numeric name becomes NaN |
| Advanced.LoadedFrameCleaned | performance_advanced.py:38-86 | the loaded frame keeps its shape and every stat cell of every row is a number ≥ 0 |
| Advanced.RowInvalidZero | performance_advanced.py:75 | a row adds nothing to the invalid count exactly when all its stat cells are numeric |
| Advanced.InvalidCountZero | performance_advanced.py:75-78 | the invalid-value warning is silent exactly when every stat cell of every kept row is numeric |
| Advanced.CalculateScores | performance_advanced.py:106-115 | each row gains a Performance Score equal to the rounded weighted sum of its stats; no other cell changes |
| Advanced.RankPlayers | performance_advanced.py:123-137 | inserting Rank fails exactly when a Rank column already exists; otherwise the frame gains a Rank column and keeps its row count (that the rows themselves are kept, as a multiset, is `Advanced.RankedFrame`) |
| Advanced.SortedWellFormed | performance_advanced.py:134 | sorting keeps every row's columns |
| Advanced.WithRankKeeps | performance_advanced.py:135 | without the Rank column, the ranked rows are the sorted rows and their scores are unchanged |
| Advanced.MapDescending | performance_advanced.py:134-136 | rows with the same score sequence as a descending arrangement are descending too |
| Advanced.RankedFrame | performance_advanced.py:134-136 | the ranked frame holds the same rows (as a multiset), in non-increasing score order, with Rank equal to position 1..n |
| Advanced.TieOrderIrrelevant | performance_advanced.py:134 | whatever tie order `sort_values` picks, the score at every rank is the same |
| Advanced.Summarize | performance_advanced.py:176-180 | the summary exists exactly when the frame has a row, since `df.iloc[0]` fails on an empty frame |
| Advanced.SummaryOfRanked | performance_advanced.py:176-180 | on a ranked frame the top performer's score is the maximum and min ≤ mean ≤ max |
| Advanced.SummaryOfOne | performance_advanced.py:176-180 | with one player left, the top score is also the average, the highest and the lowest score |
| Advanced.AnalyzeFails | performance_advanced.py:204-223 | the run fails on missing columns, then on an existing Rank column, then on a file with no named player |
| Advanced.AnalyzeSucceeds | performance_advanced.py:206-213 | otherwise the ranked rows, without Rank, are exactly the named rows cleaned and scored (as a multiset), best first, ranked 1..n, and the summary's top performer holds the highest score, with the mean between min and max |
| App.CalculateScore | app.py:7-16 | the row raises exactly when a stat cell does not convert; the score is NaN exactly when some stat is NaN; otherwise it is the unclamped weighted sum, absent stats as 0, rounded to cents |
| App.ApplyRows | app.py:47 | `df.apply` succeeds exactly when every row does, and then holds each row's own result in row order |
| App.FiniteScores | app.py:50-52 | a value is seen by max, min and mean exactly when it is a non-NaN score of the column |
| App.FiniteScoresCount | app.py:50-52 | each non-NaN score is seen by max, min and mean exactly as many times as it occurs in the column, so the mean weighs repeated scores |
| App.FirstIndexOf | app.py:53 | `idxmax` is the first position holding the maximum |
| App.AbsentStatIsZero | app.py:9-13 | a stat column the row lacks counts as 0 |
| App.NegativeTurnoversRaiseScore | app.py:13-16 | no clamping: a row whose only stat is Turnovers = -5 scores 5 |
| App.BadCellRaises | app.py:9-13 | a stat string that `float()` rejects makes calculate_score raise |
| App.RowRaiseAborts | app.py:47 | one row that raises aborts the whole request |
| App.BadCellAborts | app.py:9-13 | a non-numeric stat in any row aborts the request before anything is stored |
| App.ProcessSucceeds | app.py:47-68 | the request succeeds exactly when every row converts, some score is a number, and a Name column exists |
| App.FiniteScoresRounded | app.py:16 | every numeric score is already rounded to cents |
| App.ScoreInFinite | app.py:50-51 | every numeric row score lies between min and max |
| App.StatsOrdered | app.py:50-68 | lowest ≤ average ≤ highest, and total_players counts every row |
| App.StatsExact | app.py:50-51 | the stored highest and lowest are the exact max and min of the numeric scores |
| App.StatsEnclose | app.py:50-51 | every numeric row score lies between the stored lowest and highest |
| App.StatsAttained | app.py:50-51 | the stored highest and lowest are each some row's score |
| App.FirstMaximum | app.py:53 | before the first position of the maximum, every score is smaller or NaN |
| App.TopScorerIsFirstMaximum | app.py:53 | top_scorer is the Name of the first row, in upload order, whose score equals the highest |
| App.SortByScoreKeeps | app.py:56 | sorting by score keeps every entry (as a multiset) |
| App.SortByScoreOrder | app.py:56 | numeric scores come first in non-increasing order, and NaN scores follow all of them |
| App.DisplayComplete | app.py:56-62 | the display holds every row's (Name, Score) pair and drops none, numbers highest first, NaN last |
| Agreement.PerformanceScore | performance.py:69-87 | on clean numeric strings performance.py scores the row by the rounded weighted sum of the parsed values |
| Agreement.AdvancedScore | performance_advanced.py:106-115 | on clean numeric strings the pandas variant scores the row by the same value |
| Agreement.AppScore | app.py:7-16 | on clean numeric strings the upload handler scores the row by the same value |
| Agreement.ScoresAgree | performance_advanced.py:23-29 | the three variants give a clean row the same score |
| Agreement.NumericScoresAgree | performance_advanced.py:71-72 | a row whose stats pandas typed as numbers gets, in both pandas variants, the score performance.py gives the same values read as strings |
| Agreement.NegativeStatDiverges | app.py:13-16 | on a row with all five stats, zeros and Turnovers = -5, the pandas variant clips and scores 0, while the upload handler scores 5 |

Definitions that model source code and whose properties are stated by the
lemmas above:

- `Performance.Parsed` (performance.py:53, `float(value.strip())` on one
  cell): `Performance.SafeFloat`, `Performance.SafeFloatWarning`,
  `Performance.SafeFloatSilentIffUnchanged`, `Performance.SafeFloatWholeNumber`.
- `Performance.Score` (performance.py:69-87, the value calculate_score returns):
  `Performance.CalculateScore`, `Performance.SortedScoresExact`,
  `Performance.LeaderboardRanked`, `Agreement.ScoresAgree`.
- `Performance.MissingFrom` (performance.py:115-118, the missing set of the
  ValueError): `Performance.MissingFromNamesColumns`,
  `Performance.ReadPlayers`, `Performance.Analyze`.
- `Performance.RowNameAsWritten` (performance.py:121, `row.get("Name",
  "").strip()` as written): `Performance.ReadRow`, `AsWrittenFailsIff`,
  `AsWrittenError`, `MissingNameAbortsRead`.
- `Performance.RowName` and `Performance.Named` (performance.py:121-126, the
  name a row contributes and the blank-name skip): `RowNameStripped`,
  `Performance.ReadRow`, `PlayersAreNamedRows`, `MissingNameSkipped`.
- `Performance.StatCell` (performance.py:131, `row.get(stat, "0")`):
  `Performance.ReadStats`, `Agreement.PerformanceScore`.
- `Performance.CleanRow` (performance.py:129-133, the player record of a named
  row): `CleanRowWellFormed`, `PlayersWellFormed`, `Performance.ReadRow`.
- `Performance.Players` (performance.py:120-135, the corrected reading of the
  row loop): `PlayersAreNamedRows`, `PlayersAppend`, `PlayersWellFormed`,
  `MissingNameSkipped`.
- `Performance.PlayersAsWritten` (performance.py:120-133, the row loop as
  written): `Performance.ReadRows`, `AsWrittenFailsIff`, `AsWrittenError`,
  `AsWrittenOutcome`, `PlayersAsWrittenAgrees`, `MissingNameAbortsRead`.
- `Seqs.Map` (performance_advanced.py:110-115, a column-wise transform):
  `Seqs.MapAppend`, `Seqs.MapMultiset`.
- `Advanced.BlankName` and `Advanced.HasName` (performance_advanced.py:64-65,
  `dropna` and the blank-name filter): `Advanced.LoadKeepsNamedRows`,
  `Advanced.CleanRowName`, `Advanced.AnalyzeFails`, `Advanced.AnalyzeSucceeds`.
- `Advanced.ToNumeric` (performance_advanced.py:72, `pd.to_numeric` with
  `errors="coerce"`): `Advanced.CleanRowStat`, `Advanced.RowInvalidZero`.
- `Advanced.CleanRow` (performance_advanced.py:71-84, coercion, fill, clip and
  name stripping of a kept row): `Advanced.CleanRowStat`,
  `Advanced.CleanRowKeepsOtherColumns`, `Advanced.CleanRowName`,
  `Advanced.LoadedFrameCleaned`.
- `Advanced.FillClip` (performance_advanced.py:81, `fillna(0).clip(lower=0)`
  on one value): `Advanced.CleanRowStat`.
- `Advanced.StripName` (performance_advanced.py:84, `Name.str.strip()` on one
  cell): `Advanced.CleanRowName`.
- `Advanced.RowInvalid` and `Advanced.InvalidCount` (performance_advanced.py:75,
  the NaN count): `Advanced.RowInvalidZero`, `Advanced.InvalidCountZero`.
- `Advanced.AddScore` (performance_advanced.py:110-115, the score of one row):
  `Advanced.CalculateScores`, `Advanced.AnalyzeSucceeds`, `Agreement.ScoresAgree`.
- `Advanced.ScoreOf` (performance_advanced.py:134, the sort key):
  `Advanced.RankedFrame`, `Advanced.TieOrderIrrelevant`,
  `Advanced.SummaryOfRanked`, `Advanced.SummaryOfOne`.
- `Advanced.WithRank` (performance_advanced.py:135, the inserted Rank
  column): `Advanced.WithRankKeeps`, `Advanced.RankedFrame`.
- `Advanced.Analyze` (performance_advanced.py:200-223, main):
  `Advanced.AnalyzeFails`, `Advanced.AnalyzeSucceeds`.
- `App.ToFloat` (app.py:9-13, `float()` on one cell): `App.CalculateScore`,
  `App.BadCellRaises`.
- `App.StatValue` (app.py:9-13, `float(row.get(column, 0))`):
  `App.CalculateScore`, `App.AbsentStatIsZero`, `App.BadCellRaises`.
- `App.ScoreColumn` (app.py:47, `df.apply(calculate_score, axis=1)`):
  `App.ApplyRows`, `App.RowRaiseAborts`, `App.StatsExact`, `App.DisplayComplete`.
- `App.Entries` (app.py:59, the (Name, Score) display records):
  `App.DisplayComplete`, `App.TopScorerIsFirstMaximum`.
- `App.SortByScore` (app.py:56, `sort_values("Score", ascending=False)`):
  `App.SortByScoreKeeps`, `App.SortByScoreOrder`, `App.DisplayComplete`.
- `App.Statistics` (app.py:50-53 and 63-69, session['stats']):
  `App.StatsOrdered`, `App.StatsExact`, `App.StatsEnclose`,
  `App.StatsAttained`, `App.TopScorerIsFirstMaximum`.
- `App.Process` (app.py:35-79, the POST branch from reading the file to the
  error response): `App.ProcessSucceeds`, `App.RowRaiseAborts`,
  `App.BadCellAborts`, `App.DisplayComplete` and the Stats lemmas.
- `Aggregates.Mean` (performance_advanced.py:178, app.py:52, `mean()`):
  `Aggregates.MeanBetween`, `Aggregates.MeanOfOne`, `App.StatsOrdered`.

Proof helpers, which need no row:

- in Performance: `CleanStatsStep`, `ParsedWholeNumber`,
  `ParsedNegatedWholeNumber`, and the one-step unfoldings `PlayersOfRow`,
  `AsWrittenStep` and `AsWrittenLast`;
- in App: `ProcessParts` (the definition of `Process` unfolded once) and
  `ConcatNumbersThenNaN`;
- in Agreement: `PerformanceStat`, `AppStat`, `AdvancedNumStat` and
  `AppNumStat`, which each state one stat cell;
- in Ranking: `InsertDescBounded`, `WithKeyCons`, `NonIncreasingTail`,
  `MultisetTail` and `HeadsEqual`;
- in Seqs: `MapWithout`;
- in Aggregates: `SumAtLeast`, `SumAtMost` and `DivBetween`;
- in Cells: `StripNegatedDigits` and `ParseNegatedDigits`, which
  `SafeFloatWholeNumber` uses.

`Advanced.Analyze` requires every row to have exactly the frame's columns.
A DataFrame always has this shape.

## Left out

- File and upload I/O is not modelled. This covers the existence checks
  (FileNotFoundError), opening files, `csv.DictReader`, `pd.read_csv`,
  `read_excel`, `export_results` and `to_csv`. The input is a header and a
  sequence of already-parsed rows.
- All terminal output is left out: `print_leaderboard`, the summary lines and
  the warning texts. The warnings are modelled as values instead:
  `SafeFloatWarning`, the dropped count and the invalid count.
- `performance.py` does not count its "no player name" warnings, and the
  model keeps no such count either.
- `describe()` in `print_summary` is a library summary table and is left out.
- Flask routing, request-file checks, the session and templates are left out.
  So is the GET branch. Every failure of `App.Process` stands for the 500
  response of the generic exception handler.
- Floating point is not modelled. Stats are exact reals.
- Scoring.Round2: rounds the exact value. Python rounds the nearest binary
  double, so `round(2.675, 2)` gives 2.67 in Python but 2.68 here.
- Cells.ParseDecimal: covers optional sign, digits and one '.'. It does not
  cover exponents, `inf`, `nan`, digit separators or non-ASCII digits, which
  `float()` and `pd.to_numeric` also accept.
- Cells.IsSpace: covers the ASCII whitespace `str.isspace()` accepts. Other
  Unicode whitespace is not treated as space.
- pandas dtype inference is not modelled. A cell is typed one at a time
  (Num, Text, Missing), not column by column. In particular,
  `.str.strip()` on a Name column pandas typed as numbers raises
  AttributeError. The model instead treats each numeric name as NaN, as pandas
  does in a mixed column.
- Advanced.Analyze: when every Name cell is missing, pandas types the Name
  column as float64, and `.str` at performance_advanced.py:65 raises
  AttributeError inside `load_and_validate`. With no Rank column the model
  reports `NoPlayers` for this case, the error it also gives for the
  IndexError that `df.iloc[0]` raises at line 176 when the Name cells are
  strings but all blank. With a Rank column it reports `RankExists`, but the
  source raises the AttributeError first. `main` (220-223) catches neither
  error. A Name column that holds only numbers is covered by the dtype line
  above: pandas raises AttributeError there too, while the model treats each
  number as NaN and succeeds.
- Column order is not modelled: `df.insert(0, "Rank", ...)` places Rank
  first, and the frame's columns here are a set. `reset_index` is not
  modelled, since index labels play no part in the results.
- `sort_values` is not stable by default. `Advanced.RankPlayers` and
  `App.SortByScore` use the stable sort as one admissible tie order.
  `Advanced.TieOrderIrrelevant` shows the score column is the same for every
  admissible order. The order of the Names within a tie is not fixed by the
  source.
- `rank_players` in `performance.py` adds the "Performance Score" and "Rank"
  keys to the caller's own dictionaries. The model builds new records. The
  aliasing, by which the input list also gains those keys, is not captured.
- App.Process: an all-NaN score column is modelled as a failure. Some pandas
  versions return NaN from `idxmax` on such a column instead of raising, and
  then `df.loc` raises. Both paths end in the error response.
- Performance tiers, per-player strengths, category leaders and a
  score-bucket histogram are in none of the source files and are not modelled.

## Findings

| source | as written | input that shows it | evidently intended | confidence | as-written member | corrected member |
|---|---|---|---|---|---|---|
| performance.py:121 | `row.get("Name", "").strip()` is called on None when a csv row has fewer fields than the header, because `csv.DictReader` fills the missing fields with None. The AttributeError is not caught by `read_players` or `main`, so the whole run aborts. | header `Points,Assists,Rebounds,Steals,Turnovers,Name` with the data row `10,5,3,1,2` | such a row is skipped, as the docstring of `read_players` says (line 96), and every other player is read | not executed | Performance.MissingNameAbortsRead | Performance.MissingNameSkipped |

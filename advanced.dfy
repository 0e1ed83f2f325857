/**
 * performance_advanced.py: the pandas variant of the analyzer. The frame is
 * cleaned by whole-column operations, the score column is a weighted row sum,
 * and `sort_values` orders the rows (pandas promises no tie order here).
 */
module Advanced {
  import opened Wrappers
  import opened Seqs
  import opened Cells
  import opened Scoring
  import opened Aggregates
  import Ranking

  /** One DataFrame row: column label to cell. */
  type Row = map<string, Cell>

  /** A DataFrame: its column labels and its rows in index order. */
  datatype Frame = Frame(columns: set<string>, rows: seq<Row>)

  /** Every row has exactly the frame's columns. */
  predicate WellFormed(f: Frame) {
    forall i :: 0 <= i < |f.rows| ==> f.rows[i].Keys == f.columns
  }

  datatype Error =
    | MissingColumns(missing: set<string>)  // ValueError raised by load_and_validate
    | RankExists                            // ValueError from df.insert(0, "Rank", ...)
    | NoPlayers                             // no named row: IndexError from df.iloc[0] in print_summary;
                                            // when every Name cell is missing, pandas raises AttributeError at
                                            // performance_advanced.py:65 instead, and the model still says NoPlayers

  /** What load_and_validate returns, with the two counts it prints as warnings. */
  datatype Loaded = Loaded(frame: Frame, dropped: nat, invalid: nat)

  /** The top-performer, mean, maximum and minimum lines of print_summary. */
  datatype Summary = Summary(topName: Cell, topScore: real, average: real, highest: real, lowest: real)

  const ScoreColumn: string := "Performance Score"
  const RankColumn: string := "Rank"

  function CellAt(r: Row, c: string): Cell {
    if c in r then r[c] else Missing
  }

  // ----- load_and_validate -----

  /**
   * The row is removed by `dropna(subset=["Name"])` or by `Name.str.strip() != ""`.
   * A numeric Name gives NaN under `.str.strip()`, and NaN != "" keeps the row.
   */
  predicate BlankName(r: Row) {
    match CellAt(r, NameColumn)
    case Missing => true
    case Text(s) => Strip(s) == ""
    case Num(_) => false
  }

  predicate HasName(r: Row) {
    !BlankName(r)
  }

  /** `pd.to_numeric(errors="coerce")` on one cell; None stands for NaN. */
  function ToNumeric(c: Cell): Option<real> {
    match c
    case Num(v) => Some(v)
    case Text(s) => ParseDecimal(Strip(s))
    case Missing => None
  }

  /** `.fillna(0).clip(lower=0)` on one value. */
  function FillClip(v: Option<real>): real {
    match v
    case None => 0.0
    case Some(x) => if x < 0.0 then 0.0 else x
  }

  /** `Name.str.strip()` on one cell: non-strings become NaN. */
  function StripName(c: Cell): Cell {
    match c
    case Text(s) => Text(Strip(s))
    case _ => Missing
  }

  /** The coerced, filled and clipped stat columns and the stripped name of a kept row. */
  function CleanRow(r: Row): Row {
    var stats := map c | c in StatColumns :: Num(FillClip(ToNumeric(CellAt(r, c))));
    (r + stats)[NameColumn := StripName(CellAt(r, NameColumn))]
  }

  /** The number of stat cells of one row that to_numeric turns into NaN. */
  function RowInvalid(r: Row, cols: seq<string>): nat {
    if cols == [] then 0
    else (if ToNumeric(CellAt(r, cols[0])).None? then 1 else 0) + RowInvalid(r, cols[1..])
  }

  /** `df[stat_cols].isna().sum().sum()` after the coercion. */
  function InvalidCount(rows: seq<Row>): nat {
    if rows == [] then 0 else InvalidCount(rows[..|rows| - 1]) + RowInvalid(rows[|rows| - 1], StatColumns)
  }

  /** load_and_validate, without reading the file. */
  function LoadAndValidate(f: Frame): (r: Result<Loaded, Error>)
    ensures r.Failure? <==> RequiredColumns - f.columns != {}
    ensures r.Failure? ==> r.error == MissingColumns(RequiredColumns - f.columns)
    ensures r.Success? ==> r.value.frame.columns == f.columns
    ensures r.Success? ==> r.value.dropped == |f.rows| - |r.value.frame.rows|
  {
    if RequiredColumns - f.columns != {} then Failure(MissingColumns(RequiredColumns - f.columns))
    else
      var kept := Filter(f.rows, HasName);
      Success(Loaded(Frame(f.columns, Map(kept, CleanRow)), |f.rows| - |kept|, InvalidCount(kept)))
  }

  /** The kept rows are the named ones in their order, and the dropped count is the number of blank-named rows. */
  lemma LoadKeepsNamedRows(f: Frame)
    requires RequiredColumns <= f.columns
    ensures var l := LoadAndValidate(f).value;
      && l.frame.rows == Map(Filter(f.rows, HasName), CleanRow)
      && l.dropped == |Filter(f.rows, BlankName)|
  {
    FilterComplement(f.rows, HasName, BlankName);
  }

  /**
   * Each stat of a cleaned row is a number and never negative: a non-negative
   * number is kept, a negative one becomes 0, a non-numeric or empty cell becomes 0.
   */
  lemma CleanRowStat(r: Row, c: string)
    requires c in StatColumns
    ensures c in CleanRow(r) && CleanRow(r)[c].Num? && CleanRow(r)[c].value >= 0.0
    ensures (ToNumeric(CellAt(r, c)).Some? && ToNumeric(CellAt(r, c)).value >= 0.0)
            ==> CleanRow(r)[c].value == ToNumeric(CellAt(r, c)).value
    ensures (ToNumeric(CellAt(r, c)).Some? && ToNumeric(CellAt(r, c)).value < 0.0)
            ==> CleanRow(r)[c].value == 0.0
    ensures ToNumeric(CellAt(r, c)).None? ==> CleanRow(r)[c].value == 0.0
  {
    assert c != NameColumn;
  }

  /** Cleaning touches only Name and the stats. */
  lemma CleanRowKeepsOtherColumns(r: Row)
    ensures CleanRow(r).Keys == r.Keys + RequiredColumns
    ensures forall k :: k in r && k !in RequiredColumns ==> CleanRow(r)[k] == r[k]
  {
  }

  /** A kept row's Name is stripped and non-empty text, or NaN when it was a number. */
  lemma CleanRowName(r: Row)
    requires HasName(r)
    ensures var n := CleanRow(r)[NameColumn];
      && (CellAt(r, NameColumn).Text? ==> n.Text? && n.text != "" && Strip(n.text) == n.text)
      && (CellAt(r, NameColumn).Num? ==> n == Missing)
  {
    if CellAt(r, NameColumn).Text? {
      StripIdempotent(CellAt(r, NameColumn).text);
    }
  }

  /** The stat `c` of row `r` is a number, not negative. */
  predicate CleanStat(r: Row, c: string) {
    c in r && r[c].Num? && r[c].value >= 0.0
  }

  predicate CleanStats(r: Row) {
    && CleanStat(r, "Points") && CleanStat(r, "Assists") && CleanStat(r, "Rebounds")
    && CleanStat(r, "Steals") && CleanStat(r, "Turnovers")
  }

  predicate Cleaned(f: Frame) {
    forall i :: 0 <= i < |f.rows| ==> CleanStats(f.rows[i])
  }

  /** The loaded frame is well formed and cleaned whenever the input frame was well formed. */
  lemma LoadedFrameCleaned(f: Frame)
    requires WellFormed(f) && RequiredColumns <= f.columns
    ensures WellFormed(LoadAndValidate(f).value.frame)
    ensures Cleaned(LoadAndValidate(f).value.frame)
  {
    var kept := Filter(f.rows, HasName);
    var rows := Map(kept, CleanRow);
    forall i | 0 <= i < |rows|
      ensures rows[i].Keys == f.columns
      ensures CleanStats(rows[i])
    {
      assert kept[i] in f.rows;
      CleanRowKeepsOtherColumns(kept[i]);
      CleanRowStat(kept[i], "Points");
      CleanRowStat(kept[i], "Assists");
      CleanRowStat(kept[i], "Rebounds");
      CleanRowStat(kept[i], "Steals");
      CleanRowStat(kept[i], "Turnovers");
    }
  }

  /** No invalid-value warning is printed exactly when every stat cell of the kept rows is numeric. */
  lemma {:induction false} RowInvalidZero(r: Row, cols: seq<string>)
    ensures RowInvalid(r, cols) == 0 <==> forall k :: 0 <= k < |cols| ==> ToNumeric(CellAt(r, cols[k])).Some?
    decreases |cols|
  {
    if cols != [] {
      RowInvalidZero(r, cols[1..]);
      assert forall k :: 1 <= k < |cols| ==> cols[k] == cols[1..][k - 1];
    }
  }

  /** Every stat cell of the row is numeric to to_numeric. */
  predicate RowParses(r: Row) {
    forall k :: 0 <= k < |StatColumns| ==> ToNumeric(CellAt(r, StatColumns[k])).Some?
  }

  lemma {:induction false} InvalidCountZero(rows: seq<Row>)
    ensures InvalidCount(rows) == 0 <==> forall i :: 0 <= i < |rows| ==> RowParses(rows[i])
    decreases |rows|
  {
    if rows != [] {
      var init := rows[..|rows| - 1];
      var last := rows[|rows| - 1];
      InvalidCountZero(init);
      RowInvalidZero(last, StatColumns);
      assert InvalidCount(rows) == InvalidCount(init) + RowInvalid(last, StatColumns);
      if InvalidCount(rows) == 0 {
        forall i | 0 <= i < |rows|
          ensures RowParses(rows[i])
        {
          if i < |init| {
            assert rows[i] == init[i];
          }
        }
      } else if InvalidCount(init) != 0 {
        var i :| 0 <= i < |init| && !RowParses(init[i]);
        assert rows[i] == init[i];
      }
    }
  }

  // ----- calculate_scores -----

  /** The stat values of a cleaned row. */
  function RowStats(r: Row): map<string, real> {
    map c | c in StatColumns :: if CellAt(r, c).Num? then CellAt(r, c).value else 0.0
  }

  function AddScore(r: Row): Row {
    r[ScoreColumn := Num(Round2(StatsSum(RowStats(r))))]
  }

  /** calculate_scores: a "Performance Score" column holding each row's weighted sum, rounded. */
  function CalculateScores(f: Frame): (g: Frame)
    requires Cleaned(f)
    ensures g.columns == f.columns + {ScoreColumn} && |g.rows| == |f.rows|
    ensures forall i :: 0 <= i < |g.rows| ==>
      && g.rows[i].Keys == f.rows[i].Keys + {ScoreColumn}
      && g.rows[i][ScoreColumn] == Num(Round2(WeightedSum(
           f.rows[i]["Points"].value, f.rows[i]["Assists"].value, f.rows[i]["Rebounds"].value,
           f.rows[i]["Steals"].value, f.rows[i]["Turnovers"].value)))
      && forall k :: k in f.rows[i] && k != ScoreColumn ==> g.rows[i][k] == f.rows[i][k]
  {
    Frame(f.columns + {ScoreColumn}, Map(f.rows, AddScore))
  }

  // ----- rank_players -----

  /** The score a row is sorted by. */
  function ScoreOf(r: Row): real {
    if CellAt(r, ScoreColumn).Num? then CellAt(r, ScoreColumn).value else 0.0
  }

  function WithRank(rows: seq<Row>): (out: seq<Row>)
    ensures |out| == |rows|
    ensures forall i :: 0 <= i < |rows| ==> out[i] == rows[i][RankColumn := Num((i + 1) as real)]
  {
    seq(|rows|, i requires 0 <= i < |rows| => rows[i][RankColumn := Num((i + 1) as real)])
  }

  /** rank_players: sort by score, highest first, and insert the positional Rank column. */
  function RankPlayers(f: Frame): (r: Result<Frame, Error>)
    ensures r.Failure? <==> RankColumn in f.columns
    ensures r.Failure? ==> r.error == RankExists
    ensures r.Success? ==> r.value.columns == f.columns + {RankColumn} && |r.value.rows| == |f.rows|
  {
    if RankColumn in f.columns then Failure(RankExists)
    else Success(Frame(f.columns + {RankColumn}, WithRank(Ranking.SortDesc(f.rows, ScoreOf))))
  }

  function DropRank(r: Row): Row {
    r - {RankColumn}
  }

  /** Sorting keeps every row's columns. */
  lemma SortedWellFormed(f: Frame)
    requires WellFormed(f)
    ensures WellFormed(Frame(f.columns, Ranking.SortDesc(f.rows, ScoreOf)))
  {
    var sorted := Ranking.SortDesc(f.rows, ScoreOf);
    forall i | 0 <= i < |sorted|
      ensures sorted[i].Keys == f.columns
    {
      assert sorted[i] in multiset(f.rows);
      var j :| 0 <= j < |f.rows| && f.rows[j] == sorted[i];
    }
  }

  /** Adding the Rank column neither changes a row's score nor anything else. */
  lemma WithRankKeeps(rows: seq<Row>, columns: set<string>)
    requires forall i :: 0 <= i < |rows| ==> rows[i].Keys == columns
    requires RankColumn !in columns
    ensures Map(WithRank(rows), DropRank) == rows
    ensures Map(WithRank(rows), ScoreOf) == Map(rows, ScoreOf)
  {
    var out := WithRank(rows);
    forall i | 0 <= i < |rows|
      ensures DropRank(out[i]) == rows[i] && ScoreOf(out[i]) == ScoreOf(rows[i])
    {
      assert RankColumn !in rows[i];
      assert CellAt(out[i], ScoreColumn) == CellAt(rows[i], ScoreColumn);
    }
  }

  lemma MapDescending(a: seq<Row>, b: seq<Row>)
    requires Map(a, ScoreOf) == Map(b, ScoreOf) && Ranking.Descending(b, ScoreOf)
    ensures Ranking.Descending(a, ScoreOf)
  {
    assert forall i :: 0 <= i < |a| ==> ScoreOf(a[i]) == Map(a, ScoreOf)[i];
    assert forall i :: 0 <= i < |b| ==> ScoreOf(b[i]) == Map(b, ScoreOf)[i];
  }

  /**
   * The ranked frame holds the same rows, in non-increasing score order, with
   * Rank equal to the position 1..n.
   */
  lemma RankedFrame(f: Frame)
    requires WellFormed(f) && RankColumn !in f.columns
    ensures var g := RankPlayers(f).value;
      && WellFormed(g)
      && multiset(Map(g.rows, DropRank)) == multiset(f.rows)
      && Ranking.Descending(g.rows, ScoreOf)
      && forall i :: 0 <= i < |g.rows| ==> CellAt(g.rows[i], RankColumn) == Num((i + 1) as real)
  {
    var sorted := Ranking.SortDesc(f.rows, ScoreOf);
    var g := RankPlayers(f).value;
    SortedWellFormed(f);
    WithRankKeeps(sorted, f.columns);
    MapDescending(g.rows, sorted);
  }

  /**
   * Whatever tie order sort_values picks, every admissible result has the same
   * score at every rank.
   */
  lemma TieOrderIrrelevant(f: Frame, other: seq<Row>)
    requires multiset(other) == multiset(f.rows) && Ranking.Descending(other, ScoreOf)
    ensures Map(other, ScoreOf) == Map(Ranking.SortDesc(f.rows, ScoreOf), ScoreOf)
  {
    Ranking.SortedKeysUnique(other, Ranking.SortDesc(f.rows, ScoreOf), ScoreOf);
  }

  // ----- print_summary -----

  /** The values print_summary reports; `df.iloc[0]` fails on an empty frame. */
  function Summarize(f: Frame): (r: Result<Summary, Error>)
    ensures r.Failure? <==> f.rows == []
  {
    if f.rows == [] then Failure(NoPlayers)
    else
      var scores := Map(f.rows, ScoreOf);
      Success(Summary(CellAt(f.rows[0], NameColumn), ScoreOf(f.rows[0]), Mean(scores), Max(scores), Min(scores)))
  }

  /**
   * On a ranked frame the top performer holds the highest score, and the mean
   * lies between the lowest and the highest score.
   */
  lemma SummaryOfRanked(f: Frame)
    requires f.rows != [] && Ranking.Descending(f.rows, ScoreOf)
    ensures var s := Summarize(f).value;
      && s.topScore == s.highest
      && s.lowest <= s.average <= s.highest
  {
    var scores := Map(f.rows, ScoreOf);
    MeanBetween(scores);
    Ranking.DescendingHeadIsMax(f.rows, ScoreOf);
    assert forall i :: 0 <= i < |scores| ==> f.rows[i] in f.rows;
  }

  /** With a single player left, the top score is also the mean, the highest and the lowest. */
  lemma SummaryOfOne(f: Frame)
    requires |f.rows| == 1
    ensures var s := Summarize(f).value;
      s.average == s.topScore && s.highest == s.topScore && s.lowest == s.topScore
  {
    var x := ScoreOf(f.rows[0]);
    assert Map(f.rows, ScoreOf) == [x];
    assert [x][..0] == [];
    MeanOfOne(x);
  }

  // ----- main -----

  /** The analysis main runs: load, score, rank, summarize. */
  function Analyze(f: Frame): Result<(Loaded, Frame, Summary), Error>
    requires WellFormed(f)
  {
    match LoadAndValidate(f)
    case Failure(e) => Failure(e)
    case Success(l) =>
      assert RequiredColumns <= f.columns by {
        assert forall c :: c in RequiredColumns ==> c !in RequiredColumns - f.columns;
      }
      LoadedFrameCleaned(f);
      match RankPlayers(CalculateScores(l.frame))
        case Failure(e) => Failure(e)
        case Success(g) =>
          match Summarize(g)
          case Failure(e) => Failure(e)
          case Success(s) => Success((l, g, s))
  }

  /** The run fails on missing columns, then on an existing Rank column, then on a file with no named player. */
  lemma AnalyzeFails(f: Frame)
    requires WellFormed(f)
    ensures RequiredColumns - f.columns != {} ==>
      Analyze(f) == Failure(MissingColumns(RequiredColumns - f.columns))
    ensures RequiredColumns <= f.columns && RankColumn in f.columns ==> Analyze(f) == Failure(RankExists)
    ensures RequiredColumns <= f.columns && RankColumn !in f.columns && Filter(f.rows, HasName) == [] ==>
      Analyze(f) == Failure(NoPlayers)
  {
    if RequiredColumns <= f.columns {
      assert RequiredColumns - f.columns == {};
      LoadKeepsNamedRows(f);
      LoadedFrameCleaned(f);
    } else {
      var c :| c in RequiredColumns && c !in f.columns;
      assert c in RequiredColumns - f.columns;
    }
  }

  /**
   * Otherwise the ranked frame holds exactly the named rows, cleaned and scored,
   * one row per named player, best first,
   * ranked 1..n, and the summary's top performer holds the highest score,
   * with the mean between the lowest and the highest.
   */
  lemma AnalyzeSucceeds(f: Frame)
    requires WellFormed(f) && RequiredColumns <= f.columns && RankColumn !in f.columns
    requires Filter(f.rows, HasName) != []
    ensures Analyze(f).Success?
    ensures var g := Analyze(f).value.1;
      && |g.rows| == |Filter(f.rows, HasName)|
      && multiset(Map(g.rows, DropRank)) == multiset(Map(Map(Filter(f.rows, HasName), CleanRow), AddScore))
      && Ranking.Descending(g.rows, ScoreOf)
      && (forall i :: 0 <= i < |g.rows| ==> CellAt(g.rows[i], RankColumn) == Num((i + 1) as real))
    ensures var s := Analyze(f).value.2;
      && s.topName == CellAt(Analyze(f).value.1.rows[0], NameColumn)
      && s.topScore == s.highest
      && s.lowest <= s.average <= s.highest
  {
    assert RequiredColumns - f.columns == {};
    var l := LoadAndValidate(f).value;
    LoadKeepsNamedRows(f);
    LoadedFrameCleaned(f);
    var scored := CalculateScores(l.frame);
    assert RankColumn !in scored.columns;
    assert WellFormed(scored) by {
      forall i | 0 <= i < |scored.rows|
        ensures scored.rows[i].Keys == scored.columns
      {
      }
    }
    RankedFrame(scored);
    SummaryOfRanked(RankPlayers(scored).value);
  }
}

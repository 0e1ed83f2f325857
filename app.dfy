/**
 * app.py: the web variant. An uploaded table gets a Score column computed by
 * `calculate_score` row by row, the statistics are taken before sorting, and
 * the (Name, Score) list is sorted with pandas `sort_values` (no tie order).
 * Any exception aborts the request before anything is stored.
 */
module App {
  import opened Wrappers
  import opened Seqs
  import opened Cells
  import opened Scoring
  import opened Aggregates
  import Ranking

  /** One DataFrame row: column label to cell. */
  type Row = map<string, Cell>

  datatype Frame = Frame(columns: set<string>, rows: seq<Row>)

  /** A float score: a number, or NaN (an empty cell makes `float()` return nan). */
  datatype Value = Finite(value: real) | NaN

  datatype Error =
    | NotANumber(text: string)  // ValueError from float() on a non-numeric string
    | NoScores                  // idxmax finds no score (empty table or all NaN)
    | NoNameColumn              // KeyError from df.loc[..., 'Name']

  /** One record of df_display. */
  datatype Entry = Entry(name: Cell, score: Value)

  /** session['stats']. */
  datatype Stats = Stats(highest: real, lowest: real, average: real, topScorer: Cell, totalPlayers: nat)

  /** What the request stores in the session. */
  datatype Outcome = Outcome(players: seq<Entry>, stats: Stats)

  function CellAt(r: Row, c: string): Cell {
    if c in r then r[c] else Missing
  }

  // ----- calculate_score -----

  /** Python's `float()` on one cell value. */
  function ToFloat(c: Cell): Result<Value, Error> {
    match c
    case Num(v) => Success(Finite(v))
    case Missing => Success(NaN)
    case Text(s) =>
      match ParseDecimal(Strip(s))
      case Some(v) => Success(Finite(v))
      case None => Failure(NotANumber(s))
  }

  /** `float(row.get(column, 0))`. */
  function StatValue(row: Row, column: string): Result<Value, Error> {
    if column in row then ToFloat(row[column]) else Success(Finite(0.0))
  }

  /** The stat converts without an exception. */
  predicate Converts(row: Row, column: string) {
    StatValue(row, column).Success?
  }

  /** The stat converts to a number (not NaN). */
  predicate IsFinite(row: Row, column: string) {
    StatValue(row, column).Success? && StatValue(row, column).value.Finite?
  }

  /** None of the five `float()` calls raises. */
  predicate AllConvert(row: Row) {
    Converts(row, "Points") && Converts(row, "Assists") && Converts(row, "Rebounds")
    && Converts(row, "Steals") && Converts(row, "Turnovers")
  }

  /** All five stats are numbers. */
  predicate AllFinite(row: Row) {
    IsFinite(row, "Points") && IsFinite(row, "Assists") && IsFinite(row, "Rebounds")
    && IsFinite(row, "Steals") && IsFinite(row, "Turnovers")
  }

  function StatReal(row: Row, column: string): real
    requires IsFinite(row, column)
  {
    StatValue(row, column).value.value
  }

  /** calculate_score: the unclamped weighted sum, rounded; NaN when any stat is NaN. */
  function CalculateScore(row: Row): (r: Result<Value, Error>)
    ensures r.Success? <==> AllConvert(row)
    ensures r.Success? ==> (r.value.Finite? <==> AllFinite(row))
    ensures r.Success? && r.value.Finite? ==>
      r.value.value == Round2(WeightedSum(StatReal(row, "Points"), StatReal(row, "Assists"),
                                          StatReal(row, "Rebounds"), StatReal(row, "Steals"),
                                          StatReal(row, "Turnovers")))
  {
    var points :- StatValue(row, "Points");
    var assists :- StatValue(row, "Assists");
    var rebounds :- StatValue(row, "Rebounds");
    var steals :- StatValue(row, "Steals");
    var turnovers :- StatValue(row, "Turnovers");
    if points.Finite? && assists.Finite? && rebounds.Finite? && steals.Finite? && turnovers.Finite? then
      Success(Finite(Round2(WeightedSum(points.value, assists.value, rebounds.value, steals.value, turnovers.value))))
    else
      Success(NaN)
  }

  // ----- the request body (app.py lines 47-68) -----

  /** `df.apply(f, axis=1)`: f on every row in index order, the first exception aborting. */
  function ApplyRows<T>(rows: seq<Row>, f: Row -> Result<T, Error>): (r: Result<seq<T>, Error>)
    ensures r.Success? <==> forall i :: 0 <= i < |rows| ==> f(rows[i]).Success?
    ensures r.Success? ==> |r.value| == |rows| && forall i :: 0 <= i < |rows| ==> r.value[i] == f(rows[i]).value
  {
    if rows == [] then Success([])
    else
      var front := rows[..|rows| - 1];
      var back := rows[|rows| - 1];
      assert forall i :: 0 <= i < |front| ==> front[i] == rows[i];
      match ApplyRows(front, f)
      case Failure(e) => Failure(e)
      case Success(init) =>
        match f(back)
        case Failure(e) => Failure(e)
        case Success(last) => Success(init + [last])
  }

  /** `df['Score'] = df.apply(calculate_score, axis=1)`. */
  function ScoreColumn(rows: seq<Row>): Result<seq<Value>, Error> {
    ApplyRows(rows, CalculateScore)
  }

  /** The scores pandas' max, min and mean look at: the non-NaN ones, in order. */
  function FiniteScores(scores: seq<Value>): (r: seq<real>)
    ensures forall x :: x in r <==> Finite(x) in scores
  {
    if scores == [] then []
    else
      var init := scores[..|scores| - 1];
      var last := scores[|scores| - 1];
      assert scores == init + [last];
      FiniteScores(init) + (if last.Finite? then [last.value] else [])
  }

  /** Each non-NaN score is seen by max, min and mean as many times as it occurs. */
  lemma {:induction false} FiniteScoresCount(scores: seq<Value>)
    ensures forall x :: multiset(FiniteScores(scores))[x] == multiset(scores)[Finite(x)]
    decreases |scores|
  {
    if scores != [] {
      var init := scores[..|scores| - 1];
      var last := scores[|scores| - 1];
      FiniteScoresCount(init);
      assert scores == init + [last];
    }
  }

  /** `idxmax`: the first position holding the value `m`. */
  function FirstIndexOf(scores: seq<Value>, m: real): (t: nat)
    requires Finite(m) in scores
    ensures t < |scores| && scores[t] == Finite(m)
    ensures forall j :: 0 <= j < t ==> scores[j] != Finite(m)
  {
    if scores[0] == Finite(m) then 0
    else
      assert Finite(m) in scores[1..];
      1 + FirstIndexOf(scores[1..], m)
  }

  predicate EntryFinite(e: Entry) {
    e.score.Finite?
  }

  predicate EntryNaN(e: Entry) {
    e.score.NaN?
  }

  function EntryScore(e: Entry): real {
    if e.score.Finite? then e.score.value else 0.0
  }

  /** `sort_values('Score', ascending=False)`: numbers highest first, NaN last. */
  function SortByScore(entries: seq<Entry>): seq<Entry> {
    Ranking.SortDesc(Filter(entries, EntryFinite), EntryScore) + Filter(entries, EntryNaN)
  }

  /** Each row's Name cell beside its score, in row order. */
  function Entries(rows: seq<Row>, scores: seq<Value>): (es: seq<Entry>)
    requires |scores| == |rows|
    ensures |es| == |rows|
    ensures forall i :: 0 <= i < |rows| ==> es[i] == Entry(CellAt(rows[i], NameColumn), scores[i])
  {
    seq(|rows|, i requires 0 <= i < |rows| => Entry(CellAt(rows[i], NameColumn), scores[i]))
  }

  /** The session statistics: max, min and mean over the numeric scores, and the Name at idxmax. */
  function Statistics(rows: seq<Row>, scores: seq<Value>): Stats
    requires |scores| == |rows| && FiniteScores(scores) != []
  {
    var finite := FiniteScores(scores);
    var top := FirstIndexOf(scores, Max(finite));
    Stats(Round2(Max(finite)), Round2(Min(finite)), Round2(Mean(finite)), CellAt(rows[top], NameColumn), |rows|)
  }

  /** The POST handler between reading the file and the redirect. */
  function Process(f: Frame): Result<Outcome, Error> {
    var scores :- ScoreColumn(f.rows);
    if FiniteScores(scores) == [] then Failure(NoScores)
    else if NameColumn !in f.columns then Failure(NoNameColumn)
    else Success(Outcome(SortByScore(Entries(f.rows, scores)), Statistics(f.rows, scores)))
  }

  // ----- what a request guarantees -----

  /** A stat column the row does not have counts as 0. */
  lemma AbsentStatIsZero(row: Row, c: string)
    requires c in StatColumns && c !in row
    ensures CalculateScore(row) == CalculateScore(row[c := Num(0.0)])
  {
    assert StatValue(row, c) == StatValue(row[c := Num(0.0)], c);
    forall d | d in StatColumns && d != c
      ensures StatValue(row, d) == StatValue(row[c := Num(0.0)], d)
    {
    }
  }

  /** No clamping: a row whose only stat is Turnovers = -5 scores +5. */
  lemma NegativeTurnoversRaiseScore()
    ensures CalculateScore(map["Name" := Text("Ann"), "Turnovers" := Num(-5.0)]) == Success(Finite(5.0))
  {
    Round2OfCents(500);
    assert 500 as real / 100.0 == 5.0;
    assert WeightedSum(0.0, 0.0, 0.0, 0.0, -5.0) == 5.0;
  }

  /** A stat cell holding a string float() rejects makes calculate_score raise for that row. */
  lemma BadCellRaises(row: Row, c: string)
    requires c in StatColumns && c in row
    requires row[c].Text? && ParseDecimal(Strip(row[c].text)).None?
    ensures CalculateScore(row).Failure?
  {
    assert !Converts(row, c);
    StatColumnCases(c);
    assert !AllConvert(row);
  }

  /** One row whose score raises aborts the whole request. */
  lemma RowRaiseAborts(f: Frame, i: nat)
    requires i < |f.rows| && CalculateScore(f.rows[i]).Failure?
    ensures Process(f).Failure?
  {
    assert ScoreColumn(f.rows).Failure?;
  }

  /** A non-numeric string in any stat cell of any row aborts the request. */
  lemma BadCellAborts(f: Frame, i: nat, c: string)
    requires i < |f.rows| && c in StatColumns && c in f.rows[i]
    requires f.rows[i][c].Text? && ParseDecimal(Strip(f.rows[i][c].text)).None?
    ensures Process(f).Failure?
  {
    BadCellRaises(f.rows[i], c);
    RowRaiseAborts(f, i);
  }

  /** The request succeeds exactly when every row converts, some score is a number, and there is a Name column. */
  lemma ProcessSucceeds(f: Frame)
    ensures Process(f).Success? <==>
      && AllRowsConvert(f.rows)
      && (exists i :: 0 <= i < |f.rows| && CalculateScore(f.rows[i]).value.Finite?)
      && NameColumn in f.columns
  {
    if AllRowsConvert(f.rows) {
      var scores := ScoreColumn(f.rows).value;
      if exists i :: 0 <= i < |f.rows| && CalculateScore(f.rows[i]).value.Finite? {
        var i :| 0 <= i < |f.rows| && CalculateScore(f.rows[i]).value.Finite?;
        assert Finite(scores[i].value) in scores;
      }
    }
  }

  predicate AllRowsConvert(rows: seq<Row>) {
    forall i :: 0 <= i < |rows| ==> CalculateScore(rows[i]).Success?
  }

  /** What a successful request is made of, unfolded once. */
  lemma ProcessParts(f: Frame)
    requires Process(f).Success?
    ensures ScoreColumn(f.rows).Success?
    ensures var scores := ScoreColumn(f.rows).value;
      && FiniteScores(scores) != []
      && NameColumn in f.columns
      && Process(f).value == Outcome(SortByScore(Entries(f.rows, scores)), Statistics(f.rows, scores))
  {
  }

  /** Every number calculate_score returns already has at most two decimals. */
  lemma FiniteScoresRounded(rows: seq<Row>)
    requires ScoreColumn(rows).Success?
    ensures forall x :: x in FiniteScores(ScoreColumn(rows).value) ==> Round2(x) == x
  {
    var scores := ScoreColumn(rows).value;
    forall x | x in FiniteScores(scores)
      ensures Round2(x) == x
    {
      var i :| 0 <= i < |scores| && scores[i] == Finite(x);
      var row := rows[i];
      Round2Idempotent(WeightedSum(StatReal(row, "Points"), StatReal(row, "Assists"),
                                   StatReal(row, "Rebounds"), StatReal(row, "Steals"),
                                   StatReal(row, "Turnovers")));
    }
  }

  /** A numeric score of some row is one of the values max, min and mean look at. */
  lemma ScoreInFinite(rows: seq<Row>, i: nat)
    requires ScoreColumn(rows).Success? && i < |rows| && CalculateScore(rows[i]).value.Finite?
    ensures var finite := FiniteScores(ScoreColumn(rows).value);
      && finite != []
      && Min(finite) <= CalculateScore(rows[i]).value.value <= Max(finite)
  {
    var scores := ScoreColumn(rows).value;
    var finite := FiniteScores(scores);
    var x := scores[i].value;
    assert Finite(x) in scores;
    assert x in finite;
    var k :| 0 <= k < |finite| && finite[k] == x;
  }

  /** The rounded mean lies between the stored lowest and highest score; total_players counts every row. */
  lemma StatsOrdered(f: Frame)
    requires Process(f).Success?
    ensures var st := Process(f).value.stats;
      st.lowest <= st.average <= st.highest && st.totalPlayers == |f.rows|
  {
    ProcessParts(f);
    var finite := FiniteScores(ScoreColumn(f.rows).value);
    MeanBetween(finite);
    Round2Monotone(Min(finite), Mean(finite));
    Round2Monotone(Mean(finite), Max(finite));
  }

  /** highest and lowest, as stored, are the largest and smallest numeric score (the scores are already rounded). */
  lemma StatsExact(f: Frame)
    requires Process(f).Success?
    ensures ScoreColumn(f.rows).Success?
    ensures var finite := FiniteScores(ScoreColumn(f.rows).value);
      && finite != []
      && Process(f).value.stats.highest == Max(finite)
      && Process(f).value.stats.lowest == Min(finite)
  {
    ProcessParts(f);
    FiniteScoresRounded(f.rows);
  }

  /** Every numeric row score lies between the stored lowest and highest. */
  lemma StatsEnclose(f: Frame)
    requires Process(f).Success?
    ensures var st := Process(f).value.stats;
      forall i :: 0 <= i < |f.rows| && CalculateScore(f.rows[i]).value.Finite? ==>
        st.lowest <= CalculateScore(f.rows[i]).value.value <= st.highest
  {
    StatsExact(f);
    forall i | 0 <= i < |f.rows| && CalculateScore(f.rows[i]).value.Finite?
      ensures Min(FiniteScores(ScoreColumn(f.rows).value)) <= CalculateScore(f.rows[i]).value.value
                <= Max(FiniteScores(ScoreColumn(f.rows).value))
    {
      ScoreInFinite(f.rows, i);
    }
  }

  /** The stored highest and lowest are each some row's score. */
  lemma StatsAttained(f: Frame)
    requires Process(f).Success?
    ensures var st := Process(f).value.stats;
      && (exists i :: 0 <= i < |f.rows| && CalculateScore(f.rows[i]).value == Finite(st.highest))
      && (exists i :: 0 <= i < |f.rows| && CalculateScore(f.rows[i]).value == Finite(st.lowest))
  {
    StatsExact(f);
    var scores := ScoreColumn(f.rows).value;
    var finite := FiniteScores(scores);
    assert Max(finite) in finite && Min(finite) in finite;
    var hi :| 0 <= hi < |scores| && scores[hi] == Finite(Max(finite));
    var lo :| 0 <= lo < |scores| && scores[lo] == Finite(Min(finite));
    assert CalculateScore(f.rows[hi]).value == scores[hi];
    assert CalculateScore(f.rows[lo]).value == scores[lo];
  }

  /** Before the first position of the maximum, every score is smaller or NaN. */
  lemma FirstMaximum(scores: seq<Value>)
    requires FiniteScores(scores) != []
    ensures var m := Max(FiniteScores(scores));
      forall j :: 0 <= j < FirstIndexOf(scores, m) ==> scores[j].NaN? || scores[j].value < m
  {
    var finite := FiniteScores(scores);
    var m := Max(finite);
    var t := FirstIndexOf(scores, m);
    forall j | 0 <= j < t && scores[j].Finite?
      ensures scores[j].value < m
    {
      assert Finite(scores[j].value) in scores;
      var k :| 0 <= k < |finite| && finite[k] == scores[j].value;
    }
  }

  /**
   * top_scorer is the Name of the first row, in upload order, whose score is
   * the highest: every earlier row scores less or is NaN.
   */
  lemma TopScorerIsFirstMaximum(f: Frame)
    requires Process(f).Success?
    ensures var st := Process(f).value.stats;
      exists t :: 0 <= t < |f.rows|
        && st.topScorer == CellAt(f.rows[t], NameColumn)
        && CalculateScore(f.rows[t]).value == Finite(st.highest)
        && forall j :: 0 <= j < t ==>
             CalculateScore(f.rows[j]).value.NaN? || CalculateScore(f.rows[j]).value.value < st.highest
  {
    ProcessParts(f);
    var scores := ScoreColumn(f.rows).value;
    var m := Max(FiniteScores(scores));
    FiniteScoresRounded(f.rows);
    FirstMaximum(scores);
    var st := Process(f).value.stats;
    assert st.highest == m;
    var t := FirstIndexOf(scores, m);
    assert st.topScorer == CellAt(f.rows[t], NameColumn);
    assert forall j :: 0 <= j < |f.rows| ==> CalculateScore(f.rows[j]).value == scores[j];
  }

  lemma SortByScoreKeeps(es: seq<Entry>)
    ensures multiset(SortByScore(es)) == multiset(es)
  {
    FilterPartition(es, EntryFinite, EntryNaN);
  }

  predicate NumbersThenNaN(d: seq<Entry>) {
    && (forall i, j :: 0 <= i < j < |d| && d[i].score.Finite? && d[j].score.Finite? ==> d[i].score.value >= d[j].score.value)
    && (forall i, j :: 0 <= i < j < |d| && d[i].score.NaN? ==> d[j].score.NaN?)
  }

  lemma ConcatNumbersThenNaN(a: seq<Entry>, b: seq<Entry>)
    requires forall k :: 0 <= k < |a| ==> a[k].score.Finite?
    requires Ranking.Descending(a, EntryScore)
    requires forall x :: x in b ==> x.score.NaN?
    ensures NumbersThenNaN(a + b)
  {
    var d := a + b;
    forall i, j | 0 <= i < j < |d| && d[i].score.NaN?
      ensures d[j].score.NaN?
    {
      assert d[j] == b[j - |a|];
    }
    forall i, j | 0 <= i < j < |d| && d[i].score.Finite? && d[j].score.Finite?
      ensures d[i].score.value >= d[j].score.value
    {
      assert EntryScore(a[i]) >= EntryScore(a[j]);
    }
  }

  /** Numbers come first, highest first; NaN entries follow all of them. */
  lemma SortByScoreOrder(es: seq<Entry>)
    ensures NumbersThenNaN(SortByScore(es))
  {
    var fin := Filter(es, EntryFinite);
    var sorted := Ranking.SortDesc(fin, EntryScore);
    forall k | 0 <= k < |sorted|
      ensures sorted[k].score.Finite?
    {
      assert sorted[k] in multiset(fin);
      assert sorted[k] in fin;
      assert EntryFinite(sorted[k]);
    }
    ConcatNumbersThenNaN(sorted, Filter(es, EntryNaN));
  }

  /**
   * The displayed list holds every row's (Name, Score) pair, numbers first in
   * non-increasing order, NaN scores after them; no row is dropped.
   */
  lemma DisplayComplete(f: Frame)
    requires Process(f).Success?
    ensures ScoreColumn(f.rows).Success?
    ensures var d := Process(f).value.players;
      && |d| == |f.rows|
      && multiset(d) == multiset(Entries(f.rows, ScoreColumn(f.rows).value))
      && NumbersThenNaN(d)
  {
    ProcessParts(f);
    var es := Entries(f.rows, ScoreColumn(f.rows).value);
    SortByScoreKeeps(es);
    SortByScoreOrder(es);
    assert |SortByScore(es)| == |multiset(SortByScore(es))| == |multiset(es)| == |es|;
  }
}

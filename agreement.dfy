/**
 * The three programs share one formula. On a row whose five stats are all
 * non-negative numeric strings, or numbers with those values, they compute the
 * same score; on a negative stat the command-line tools clip it to 0 and the web
 * upload does not.
 */
module Agreement {
  import opened Wrappers
  import opened Cells
  import opened Scoring
  import Performance
  import Advanced
  import App

  type Row = map<string, Cell>

  /** The parsed value of a stat cell, where it is a string that parses. */
  function TextValue(r: Row, c: string): Option<real> {
    if c in r && r[c].Text? then ParseDecimal(Strip(r[c].text)) else None
  }

  predicate GoodStat(r: Row, c: string) {
    TextValue(r, c).Some? && TextValue(r, c).value >= 0.0
  }

  predicate GoodStats(r: Row) {
    GoodStat(r, "Points") && GoodStat(r, "Assists") && GoodStat(r, "Rebounds")
    && GoodStat(r, "Steals") && GoodStat(r, "Turnovers")
  }

  function Expected(r: Row): real
    requires GoodStats(r)
  {
    Round2(WeightedSum(TextValue(r, "Points").value, TextValue(r, "Assists").value,
                       TextValue(r, "Rebounds").value, TextValue(r, "Steals").value,
                       TextValue(r, "Turnovers").value))
  }

  lemma PerformanceStat(r: Row, c: string)
    requires c in StatColumns && GoodStat(r, c)
    ensures Performance.CleanStats(r)[c] == TextValue(r, c).value
  {
    assert Performance.StatCell(r, c) == r[c];
  }

  lemma PerformanceScore(r: Row)
    requires GoodStats(r)
    ensures Performance.Score(Performance.CleanRow(r)) == Expected(r)
  {
    PerformanceStat(r, "Points");
    PerformanceStat(r, "Assists");
    PerformanceStat(r, "Rebounds");
    PerformanceStat(r, "Steals");
    PerformanceStat(r, "Turnovers");
    var st := Performance.CleanRow(r).stats;
    assert st == Performance.CleanStats(r);
  }

  lemma AdvancedScore(r: Row)
    requires GoodStats(r)
    ensures Advanced.ScoreOf(Advanced.AddScore(Advanced.CleanRow(r))) == Expected(r)
  {
    var st := Advanced.RowStats(Advanced.CleanRow(r));
    Advanced.CleanRowStat(r, "Points");
    Advanced.CleanRowStat(r, "Assists");
    Advanced.CleanRowStat(r, "Rebounds");
    Advanced.CleanRowStat(r, "Steals");
    Advanced.CleanRowStat(r, "Turnovers");
    assert st["Points"] == TextValue(r, "Points").value;
    assert st["Assists"] == TextValue(r, "Assists").value;
    assert st["Rebounds"] == TextValue(r, "Rebounds").value;
    assert st["Steals"] == TextValue(r, "Steals").value;
    assert st["Turnovers"] == TextValue(r, "Turnovers").value;
  }

  lemma AppStat(r: Row, c: string)
    requires GoodStat(r, c)
    ensures App.StatValue(r, c) == Success(App.Finite(TextValue(r, c).value))
  {
  }

  lemma AppScore(r: Row)
    requires GoodStats(r)
    ensures App.CalculateScore(r) == Success(App.Finite(Expected(r)))
  {
    AppStat(r, "Points");
    AppStat(r, "Assists");
    AppStat(r, "Rebounds");
    AppStat(r, "Steals");
    AppStat(r, "Turnovers");
    assert App.AllConvert(r) && App.AllFinite(r);
    assert App.StatReal(r, "Points") == TextValue(r, "Points").value;
    assert App.StatReal(r, "Assists") == TextValue(r, "Assists").value;
    assert App.StatReal(r, "Rebounds") == TextValue(r, "Rebounds").value;
    assert App.StatReal(r, "Steals") == TextValue(r, "Steals").value;
    assert App.StatReal(r, "Turnovers") == TextValue(r, "Turnovers").value;
  }

  /** The three variants rank a clean row by the same number. */
  lemma ScoresAgree(r: Row)
    requires GoodStats(r)
    ensures Performance.Score(Performance.CleanRow(r)) == Advanced.ScoreOf(Advanced.AddScore(Advanced.CleanRow(r)))
    ensures App.CalculateScore(r) == Success(App.Finite(Performance.Score(Performance.CleanRow(r))))
  {
    PerformanceScore(r);
    AdvancedScore(r);
    AppScore(r);
  }

  /** Stat `c` of `n` holds as a number the value that the string in `t` spells. */
  predicate NumStat(t: Row, n: Row, c: string) {
    GoodStat(t, c) && c in n && n[c] == Num(TextValue(t, c).value)
  }

  /** `n` is row `t` as pandas reads it when it types the stat columns as numbers. */
  predicate NumStats(t: Row, n: Row) {
    NumStat(t, n, "Points") && NumStat(t, n, "Assists") && NumStat(t, n, "Rebounds")
    && NumStat(t, n, "Steals") && NumStat(t, n, "Turnovers")
  }

  lemma AdvancedNumStat(t: Row, n: Row, c: string)
    requires c in StatColumns && NumStat(t, n, c)
    ensures Advanced.RowStats(Advanced.CleanRow(n))[c] == TextValue(t, c).value
  {
    Advanced.CleanRowStat(n, c);
  }

  lemma AppNumStat(t: Row, n: Row, c: string)
    requires NumStat(t, n, c)
    ensures App.StatValue(n, c) == Success(App.Finite(TextValue(t, c).value))
  {
  }

  /**
   * The csv tool reads the stats as strings, the pandas tools usually as numbers:
   * the two pandas variants score the numeric row by the value the csv tool gives the text row.
   */
  lemma NumericScoresAgree(t: Row, n: Row)
    requires NumStats(t, n)
    ensures Advanced.ScoreOf(Advanced.AddScore(Advanced.CleanRow(n))) == Performance.Score(Performance.CleanRow(t))
    ensures App.CalculateScore(n) == Success(App.Finite(Performance.Score(Performance.CleanRow(t))))
  {
    PerformanceScore(t);
    AdvancedNumStat(t, n, "Points");
    AdvancedNumStat(t, n, "Assists");
    AdvancedNumStat(t, n, "Rebounds");
    AdvancedNumStat(t, n, "Steals");
    AdvancedNumStat(t, n, "Turnovers");
    AppNumStat(t, n, "Points");
    AppNumStat(t, n, "Assists");
    AppNumStat(t, n, "Rebounds");
    AppNumStat(t, n, "Steals");
    AppNumStat(t, n, "Turnovers");
    assert App.AllConvert(n) && App.AllFinite(n);
    assert App.StatReal(n, "Points") == TextValue(t, "Points").value;
    assert App.StatReal(n, "Assists") == TextValue(t, "Assists").value;
    assert App.StatReal(n, "Rebounds") == TextValue(t, "Rebounds").value;
    assert App.StatReal(n, "Steals") == TextValue(t, "Steals").value;
    assert App.StatReal(n, "Turnovers") == TextValue(t, "Turnovers").value;
  }

  /**
   * A negative turnover count on an otherwise blank stat line: the pandas tool
   * clips it to 0 and scores the row 0, the web upload subtracts it and scores the row 5.
   */
  lemma NegativeStatDiverges(r: Row)
    requires RequiredColumns <= r.Keys
    requires r["Points"] == Num(0.0) && r["Assists"] == Num(0.0) && r["Rebounds"] == Num(0.0)
    requires r["Steals"] == Num(0.0) && r["Turnovers"] == Num(-5.0)
    ensures Advanced.ScoreOf(Advanced.AddScore(Advanced.CleanRow(r))) == 0.0
    ensures App.CalculateScore(r) == Success(App.Finite(5.0))
  {
    Round2OfCents(0);
    Round2OfCents(500);
    assert 500 as real / 100.0 == 5.0;
    var st := Advanced.RowStats(Advanced.CleanRow(r));
    Advanced.CleanRowStat(r, "Turnovers");
    Advanced.CleanRowStat(r, "Points");
    Advanced.CleanRowStat(r, "Assists");
    Advanced.CleanRowStat(r, "Rebounds");
    Advanced.CleanRowStat(r, "Steals");
    assert st["Turnovers"] == 0.0 && st["Points"] == 0.0 && st["Assists"] == 0.0;
    assert st["Rebounds"] == 0.0 && st["Steals"] == 0.0;
    assert WeightedSum(0.0, 0.0, 0.0, 0.0, -5.0) == 5.0;
  }
}

/**
 * The weighted performance formula shared by all three variants of the analyzer,
 * and the two-decimal rounding they apply to its result.
 */
module Scoring {

  const NameColumn: string := "Name"

  /** The stat columns, in the order of the WEIGHTS table. */
  const StatColumns: seq<string> := ["Points", "Assists", "Rebounds", "Steals", "Turnovers"]

  /** The weight of each stat column, position by position. */
  const Weights: seq<real> := [1.0, 1.5, 1.2, 2.0, -1.0]

  /** The columns a data file must have: Name and the five stats. */
  const RequiredColumns: set<string> := {"Name", "Points", "Assists", "Rebounds", "Steals", "Turnovers"}

  /** The five stat columns, named one by one. */
  lemma StatColumnCases(c: string)
    requires c in StatColumns
    ensures c == "Points" || c == "Assists" || c == "Rebounds" || c == "Steals" || c == "Turnovers"
  {
    var k :| 0 <= k < |StatColumns| && StatColumns[k] == c;
  }

  lemma RequiredColumnsAreNameAndStats()
    ensures RequiredColumns == {NameColumn} + set c | c in StatColumns
  {
  }

  /** Points*1.0 + Assists*1.5 + Rebounds*1.2 + Steals*2.0 - Turnovers*1.0, exactly. */
  function WeightedSum(points: real, assists: real, rebounds: real, steals: real, turnovers: real): real {
    points * 1.0 + assists * 1.5 + rebounds * 1.2 + steals * 2.0 - turnovers * 1.0
  }

  /** The value a stat takes in a record: absent stats count as 0. */
  function Stat(stats: map<string, real>, column: string): real {
    if column in stats then stats[column] else 0.0
  }

  /** The formula applied to a record of stats. */
  function StatsSum(stats: map<string, real>): real {
    WeightedSum(Stat(stats, "Points"), Stat(stats, "Assists"), Stat(stats, "Rebounds"),
                Stat(stats, "Steals"), Stat(stats, "Turnovers"))
  }

  // ----- round(x, 2) -----

  /** The integer nearest to `x`, halves going to the even neighbour. */
  function RoundHalfEven(x: real): (k: int)
    ensures (k as real) - 0.5 <= x <= (k as real) + 0.5
  {
    var f := x.Floor;
    var frac := x - f as real;
    if frac < 0.5 then f
    else if frac > 0.5 then f + 1
    else if f % 2 == 0 then f else f + 1
  }

  /** Python's `round(x, 2)` on an exact value: the nearest multiple of 0.01, ties to even. */
  function Round2(x: real): (r: real)
    ensures -0.005 <= r - x <= 0.005
  {
    RoundHalfEven(x * 100.0) as real / 100.0
  }

  lemma {:induction false} RoundHalfEvenMonotone(x: real, y: real)
    requires x <= y
    ensures RoundHalfEven(x) <= RoundHalfEven(y)
  {
    var fx, fy := x.Floor, y.Floor;
    assert fx <= fy;
    if fx == fy {
      assert x - fx as real <= y - fy as real;
    }
  }

  /** Rounding never reverses an order (it may create ties). */
  lemma Round2Monotone(x: real, y: real)
    requires x <= y
    ensures Round2(x) <= Round2(y)
  {
    RoundHalfEvenMonotone(x * 100.0, y * 100.0);
  }

  lemma RoundHalfEvenOfInt(k: int)
    ensures RoundHalfEven(k as real) == k
  {
    assert (k as real).Floor == k;
  }

  /** A value that already has at most two decimals is left unchanged. */
  lemma Round2OfCents(k: int)
    ensures Round2(k as real / 100.0) == k as real / 100.0
  {
    assert k as real / 100.0 * 100.0 == k as real;
    RoundHalfEvenOfInt(k);
  }

  /** Rounding a rounded value changes nothing. */
  lemma Round2Idempotent(x: real)
    ensures Round2(Round2(x)) == Round2(x)
  {
    Round2OfCents(RoundHalfEven(x * 100.0));
  }

  /**
   * Raising Points, Assists, Rebounds or Steals never lowers the rounded score,
   * and raising Turnovers never raises it.
   */
  lemma ScoreMonotone(a: map<string, real>, b: map<string, real>)
    requires Stat(a, "Points") <= Stat(b, "Points") && Stat(a, "Assists") <= Stat(b, "Assists")
    requires Stat(a, "Rebounds") <= Stat(b, "Rebounds") && Stat(a, "Steals") <= Stat(b, "Steals")
    requires Stat(a, "Turnovers") >= Stat(b, "Turnovers")
    ensures Round2(StatsSum(a)) <= Round2(StatsSum(b))
  {
    Round2Monotone(StatsSum(a), StatsSum(b));
  }
}

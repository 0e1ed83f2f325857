/**
 * performance.py: the csv.DictReader variant of the analyzer. Rows are read
 * one by one, stats go through `safe_float`, every player dictionary gains a
 * "Performance Score" and a "Rank", and the list is sorted with Python's
 * stable `sorted(..., reverse=True)`.
 */
module Performance {
  import opened Wrappers
  import opened Seqs
  import opened Cells
  import opened Scoring
  import Ranking

  /** One csv.DictReader row: header name to cell (Text, or Missing past the row's end). */
  type Row = map<string, Cell>

  /** The warnings `safe_float` prints. */
  datatype Anomaly = NegativeValue | InvalidValue

  datatype Error =
    | MissingColumns(missing: set<string>)  // ValueError raised by read_players
    | NameNotText                           // AttributeError from row.get("Name", "").strip()
    | NoValidRecords                        // main's "No valid player records found"

  /** A validated player: the stripped name and the five stats. */
  datatype Player = Player(name: string, stats: map<string, real>)

  /** A player dictionary after the first loop of rank_players. */
  datatype Scored = Scored(player: Player, score: real)

  /** A player dictionary after the second loop of rank_players. */
  datatype Ranked = Ranked(player: Player, score: real, rank: nat)

  // ----- safe_float -----

  /** `float(value.strip())` when it succeeds; None for a cell that has no `strip()` or does not parse. */
  function Parsed(cell: Cell): Option<real> {
    match cell
    case Text(s) => ParseDecimal(Strip(s))
    case _ => None
  }

  /** safe_float: the parsed value, with negatives and failures turned into 0.0. */
  function SafeFloat(cell: Cell): (r: real)
    ensures r >= 0.0
    ensures Parsed(cell).Some? && Parsed(cell).value >= 0.0 ==> r == Parsed(cell).value
    ensures Parsed(cell).Some? && Parsed(cell).value < 0.0 ==> r == 0.0
    ensures Parsed(cell).None? ==> r == 0.0
  {
    match Parsed(cell)
    case Some(v) => if v < 0.0 then 0.0 else v
    case None => 0.0
  }

  /** The warning safe_float prints for a cell, if any. */
  function SafeFloatWarning(cell: Cell): (w: Option<Anomaly>)
    ensures w == None <==> Parsed(cell).Some? && Parsed(cell).value >= 0.0
    ensures w == Some(InvalidValue) <==> Parsed(cell).None?
  {
    match Parsed(cell)
    case Some(v) => if v < 0.0 then Some(NegativeValue) else None
    case None => Some(InvalidValue)
  }

  /** A cell carries no warning exactly when safe_float hands back what it parsed. */
  lemma SafeFloatSilentIffUnchanged(cell: Cell)
    ensures SafeFloatWarning(cell) == None <==> Parsed(cell) == Some(SafeFloat(cell))
  {
  }

  /** Whitespace around a cell's text changes neither the value nor the warning. */
  lemma SafeFloatPadding(w1: string, s: string, w2: string)
    requires AllSpace(w1) && AllSpace(w2)
    ensures SafeFloat(Text(w1 + s + w2)) == SafeFloat(Text(s))
    ensures SafeFloatWarning(Text(w1 + s + w2)) == SafeFloatWarning(Text(s))
  {
    StripPadding(w1, s, w2);
  }

  /**
   * A cell holding a whole number reads as that number without a warning. With a
   * '-' in front it reads as 0.0, with the negative-value warning unless the number is 0.
   */
  lemma SafeFloatWholeNumber(s: string)
    requires s != [] && AllDigits(s)
    ensures SafeFloat(Text(s)) == DigitsValue(s) as real && SafeFloatWarning(Text(s)) == None
    ensures SafeFloat(Text("-" + s)) == 0.0
    ensures SafeFloatWarning(Text("-" + s)) == if DigitsValue(s) == 0 then None else Some(NegativeValue)
  {
    ParsedWholeNumber(s);
    ParsedNegatedWholeNumber(s, DigitsValue(s) as real);
  }

  lemma ParsedWholeNumber(s: string)
    requires s != [] && AllDigits(s)
    ensures Parsed(Text(s)) == Some(DigitsValue(s) as real)
  {
    assert IsDigit(s[0]) && IsDigit(s[|s| - 1]);
    StripUnpadded(s);
    ParseDigits(s);
  }

  lemma ParsedNegatedWholeNumber(s: string, v: real)
    requires s != [] && AllDigits(s) && v == DigitsValue(s) as real
    ensures Parsed(Text("-" + s)) == Some(-v)
  {
    ParseNegatedDigits(s, v);
  }

  // ----- calculate_score -----

  /** The running total of calculate_score's loop after the first `i` WEIGHTS entries. */
  function PartialSum(stats: map<string, real>, i: nat): real
    requires i <= |StatColumns|
  {
    if i == 0 then 0.0 else PartialSum(stats, i - 1) + Stat(stats, StatColumns[i - 1]) * Weights[i - 1]
  }

  /** calculate_score: the weighted sum of the stats (absent ones as 0), rounded to cents. */
  method CalculateScore(stats: map<string, real>) returns (score: real)
    ensures score == Round2(StatsSum(stats))
  {
    var total := 0.0;
    var i := 0;
    while i < |StatColumns|
      invariant 0 <= i <= |StatColumns|
      invariant total == PartialSum(stats, i)
    {
      total := total + Stat(stats, StatColumns[i]) * Weights[i];
      i := i + 1;
    }
    assert PartialSum(stats, 5) == StatsSum(stats) by {
      assert PartialSum(stats, 1) == Stat(stats, "Points") * 1.0;
      assert PartialSum(stats, 2) == PartialSum(stats, 1) + Stat(stats, "Assists") * 1.5;
      assert PartialSum(stats, 3) == PartialSum(stats, 2) + Stat(stats, "Rebounds") * 1.2;
      assert PartialSum(stats, 4) == PartialSum(stats, 3) + Stat(stats, "Steals") * 2.0;
      assert PartialSum(stats, 5) == PartialSum(stats, 4) + Stat(stats, "Turnovers") * -1.0;
    }
    score := Round2(total);
  }

  /** The score calculate_score gives a player. */
  function Score(p: Player): real {
    Round2(StatsSum(p.stats))
  }

  // ----- read_players -----

  /** The columns read_players requires that the header lacks. */
  function MissingFrom(header: seq<string>): set<string> {
    RequiredColumns - set c | c in header
  }

  /** A column is reported missing exactly when it is Name or a WEIGHTS key and the header lacks it. */
  lemma MissingFromNamesColumns(header: seq<string>, c: string)
    ensures c in MissingFrom(header) <==> (c == NameColumn || c in StatColumns) && c !in header
  {
    RequiredColumnsAreNameAndStats();
  }

  /** `row.get("Name", "").strip()` as written: a Missing cell has no strip(). */
  function RowNameAsWritten(row: Row): Result<string, Error> {
    if NameColumn !in row then Success("")
    else match row[NameColumn]
      case Text(s) => Success(Strip(s))
      case _ => Failure(NameNotText)
  }

  /** The name a row contributes, a cell that cannot be stripped counting as blank. */
  function RowName(row: Row): string {
    match RowNameAsWritten(row)
    case Success(n) => n
    case Failure(_) => ""
  }

  /** The row has a non-blank name and becomes a player. */
  predicate Named(row: Row) {
    RowName(row) != ""
  }

  /** `row.get(stat, "0")`. */
  function StatCell(row: Row, column: string): Cell {
    if column in row then row[column] else Text("0")
  }

  function CleanStats(row: Row): map<string, real> {
    map c | c in StatColumns :: SafeFloat(StatCell(row, c))
  }

  /** The player record read_players builds from a named row. */
  function CleanRow(row: Row): Player {
    Player(RowName(row), CleanStats(row))
  }

  /** The players read_players returns: row by row, each named row cleaned and appended. */
  function Players(rows: seq<Row>): seq<Player> {
    if rows == [] then []
    else Players(rows[..|rows| - 1]) + if Named(rows[|rows| - 1]) then [CleanRow(rows[|rows| - 1])] else []
  }

  /** The same list described at once: the named rows, in file order, cleaned. */
  lemma {:induction false} PlayersAreNamedRows(rows: seq<Row>)
    ensures Players(rows) == Map(Filter(rows, Named), CleanRow)
    decreases |rows|
  {
    if rows != [] {
      var init := rows[..|rows| - 1];
      var last := rows[|rows| - 1];
      PlayersAreNamedRows(init);
      MapAppend(Filter(init, Named), if Named(last) then [last] else [], CleanRow);
    }
  }

  /** Reading a file in two parts gives the players of each part, in order. */
  lemma PlayersAppend(a: seq<Row>, b: seq<Row>)
    ensures Players(a + b) == Players(a) + Players(b)
  {
    PlayersAreNamedRows(a + b);
    PlayersAreNamedRows(a);
    PlayersAreNamedRows(b);
    FilterAppend(a, b, Named);
    MapAppend(Filter(a, Named), Filter(b, Named), CleanRow);
  }

  /** A single row gives its player when its name is not blank, and nothing otherwise. */
  lemma PlayersOfRow(row: Row)
    ensures Players([row]) == if Named(row) then [CleanRow(row)] else []
  {
    assert [row][..0] == [];
  }

  predicate WellFormedPlayer(p: Player) {
    && p.name != "" && Strip(p.name) == p.name
    && p.stats.Keys == set c | c in StatColumns
    && forall c :: c in p.stats ==> p.stats[c] >= 0.0
  }

  /** A kept row's name is already stripped. */
  lemma RowNameStripped(row: Row)
    requires Named(row)
    ensures RowName(row) != "" && Strip(RowName(row)) == RowName(row)
  {
    StripIdempotent(row[NameColumn].text);
  }

  /** Every row's stats are the five stat columns, none negative. */
  lemma CleanStatsWellFormed(row: Row)
    ensures CleanStats(row).Keys == set c | c in StatColumns
    ensures forall c :: c in CleanStats(row) ==> CleanStats(row)[c] >= 0.0
  {
  }

  lemma CleanRowWellFormed(row: Row)
    requires Named(row)
    ensures WellFormedPlayer(CleanRow(row))
  {
    RowNameStripped(row);
    CleanStatsWellFormed(row);
  }

  /** Every player has a stripped, non-empty name and exactly the five stats, none negative. */
  lemma PlayersWellFormed(rows: seq<Row>)
    ensures forall p :: p in Players(rows) ==> WellFormedPlayer(p)
  {
    PlayersAreNamedRows(rows);
    var kept := Filter(rows, Named);
    var ps := Map(kept, CleanRow);
    forall k | 0 <= k < |ps|
      ensures WellFormedPlayer(ps[k])
    {
      assert kept[k] in kept;
      CleanRowWellFormed(kept[k]);
    }
  }

  lemma CleanStatsStep(row: Row, j: nat)
    requires j < |StatColumns|
    ensures (map c | c in StatColumns[..j + 1] :: SafeFloat(StatCell(row, c)))
         == (map c | c in StatColumns[..j] :: SafeFloat(StatCell(row, c)))[StatColumns[j] := SafeFloat(StatCell(row, StatColumns[j]))]
  {
    assert StatColumns[..j + 1] == StatColumns[..j] + [StatColumns[j]];
  }

  /** The inner loop of read_players: `player[stat] = safe_float(row.get(stat, "0"), ...)` for each stat. */
  method ReadStats(row: Row) returns (stats: map<string, real>)
    ensures stats == CleanStats(row)
  {
    stats := map[];
    for j := 0 to |StatColumns|
      invariant stats == map c | c in StatColumns[..j] :: SafeFloat(StatCell(row, c))
    {
      CleanStatsStep(row, j);
      stats := stats[StatColumns[j] := SafeFloat(StatCell(row, StatColumns[j]))];
    }
    assert StatColumns[..|StatColumns|] == StatColumns;
  }

  /**
   * One pass of the row loop as written: stripping a Name cell that is not a
   * string raises, a blank name is skipped, any other row becomes a player.
   */
  method ReadRow(row: Row) returns (result: Result<Option<Player>, Error>)
    ensures result.Failure? <==> NameColumn in row && !row[NameColumn].Text?
    ensures result.Failure? ==> result.error == NameNotText
    ensures result.Success? ==> result.value == if Named(row) then Some(CleanRow(row)) else None
  {
    var name :- RowNameAsWritten(row);
    if name == "" {
      return Success(None);
    }
    var stats := ReadStats(row);
    return Success(Some(Player(name, stats)));
  }

  /**
   * The row loop of read_players as written: every named row becomes a player,
   * in file order, until a row whose Name cannot be stripped raises.
   */
  method ReadRows(rows: seq<Row>) returns (result: Result<seq<Player>, Error>)
    ensures result == PlayersAsWritten(rows)
  {
    var players := [];
    for i := 0 to |rows|
      invariant PlayersAsWritten(rows[..i]) == Success(players)
    {
      AsWrittenStep(rows, i);
      var read := ReadRow(rows[i]);
      assert RowNameAsWritten(rows[i]).Failure? <==> NameColumn in rows[i] && !rows[i][NameColumn].Text?;
      if read.Failure? {
        AsWrittenFailurePersists(rows[..i + 1], rows[i + 1..]);
        assert rows[..i + 1] + rows[i + 1..] == rows;
        return Failure(read.error);
      }
      if read.value.Some? {
        players := players + [read.value.value];
      } else {
        assert players + [] == players;
      }
    }
    assert rows[..|rows|] == rows;
    return Success(players);
  }

  /** read_players, without the file: the column check, then the row loop. */
  method ReadPlayers(header: seq<string>, rows: seq<Row>) returns (result: Result<seq<Player>, Error>)
    ensures MissingFrom(header) != {} ==> result == Failure(MissingColumns(MissingFrom(header)))
    ensures MissingFrom(header) == {} ==> result == PlayersAsWritten(rows)
  {
    var missing := MissingFrom(header);
    if missing != {} {
      return Failure(MissingColumns(missing));
    }
    result := ReadRows(rows);
  }

  // ----- the finding: a short row aborts read_players -----

  /** read_players exactly as written: the first row whose Name cell is Missing aborts the whole read. */
  function PlayersAsWritten(rows: seq<Row>): Result<seq<Player>, Error> {
    if rows == [] then Success([])
    else
      match PlayersAsWritten(rows[..|rows| - 1])
      case Failure(e) => Failure(e)
      case Success(ps) =>
        var row := rows[|rows| - 1];
        match RowNameAsWritten(row)
        case Failure(e) => Failure(e)
        case Success(n) => Success(ps + if n != "" then [CleanRow(row)] else [])
  }

  /** One pass of the as-written row loop: it raises on the row, or appends the row's player if it has a name. */
  lemma AsWrittenStep(rows: seq<Row>, i: nat)
    requires i < |rows| && PlayersAsWritten(rows[..i]).Success?
    ensures PlayersAsWritten(rows[..i + 1]) ==
      if RowNameAsWritten(rows[i]).Failure? then Failure(NameNotText)
      else Success(PlayersAsWritten(rows[..i]).value + if Named(rows[i]) then [CleanRow(rows[i])] else [])
  {
    assert rows[..i + 1][..i] == rows[..i];
  }

  /** Where every Name cell is text (or the key is absent), the two readings agree. */
  lemma {:induction false} PlayersAsWrittenAgrees(rows: seq<Row>)
    requires forall i :: 0 <= i < |rows| ==> RowNameAsWritten(rows[i]).Success?
    ensures PlayersAsWritten(rows) == Success(Players(rows))
    decreases |rows|
  {
    if rows != [] {
      var init := rows[..|rows| - 1];
      var last := rows[|rows| - 1];
      PlayersAsWrittenAgrees(init);
      assert rows == init + [last];
      PlayersAppend(init, [last]);
      PlayersOfRow(last);
    }
  }

  /** The as-written read of a non-empty file fails when the earlier rows did or the last row raises. */
  lemma AsWrittenLast(rows: seq<Row>)
    requires rows != []
    ensures PlayersAsWritten(rows).Failure? <==>
      PlayersAsWritten(rows[..|rows| - 1]).Failure? || RowNameAsWritten(rows[|rows| - 1]).Failure?
  {
  }

  /** As written, the read fails exactly when some row's Name cannot be stripped. */
  lemma {:induction false} AsWrittenFailsIff(rows: seq<Row>)
    ensures PlayersAsWritten(rows).Failure? <==>
      exists i :: 0 <= i < |rows| && RowNameAsWritten(rows[i]).Failure?
    decreases |rows|
  {
    if rows != [] {
      var init := rows[..|rows| - 1];
      AsWrittenFailsIff(init);
      AsWrittenLast(rows);
      if PlayersAsWritten(init).Failure? {
        var i :| 0 <= i < |init| && RowNameAsWritten(init[i]).Failure?;
        assert rows[i] == init[i];
      } else if !RowNameAsWritten(rows[|rows| - 1]).Failure? {
        forall i | 0 <= i < |rows|
          ensures RowNameAsWritten(rows[i]).Success?
        {
          if i < |init| {
            assert rows[i] == init[i];
          }
        }
      }
    }
  }

  /** The only exception the as-written read raises is the AttributeError of `strip()`. */
  lemma {:induction false} AsWrittenError(rows: seq<Row>)
    ensures PlayersAsWritten(rows).Failure? ==> PlayersAsWritten(rows).error == NameNotText
    decreases |rows|
  {
    if rows != [] {
      AsWrittenError(rows[..|rows| - 1]);
    }
  }

  /**
   * As written, the read fails exactly when some row's Name cannot be stripped,
   * always with the AttributeError, and when it succeeds it gives the corrected list.
   */
  lemma AsWrittenOutcome(rows: seq<Row>)
    ensures PlayersAsWritten(rows).Failure? <==>
      exists i :: 0 <= i < |rows| && RowNameAsWritten(rows[i]).Failure?
    ensures PlayersAsWritten(rows).Failure? ==> PlayersAsWritten(rows).error == NameNotText
    ensures PlayersAsWritten(rows).Success? ==> PlayersAsWritten(rows).value == Players(rows)
  {
    AsWrittenFailsIff(rows);
    AsWrittenError(rows);
    if PlayersAsWritten(rows).Success? {
      PlayersAsWrittenAgrees(rows);
    }
  }

  /** Once the as-written read has failed, reading further rows cannot recover it. */
  lemma {:induction false} AsWrittenFailurePersists(rows: seq<Row>, more: seq<Row>)
    requires PlayersAsWritten(rows).Failure?
    ensures PlayersAsWritten(rows + more) == PlayersAsWritten(rows)
    decreases |more|
  {
    if more == [] {
      assert rows + more == rows;
    } else {
      var init := more[..|more| - 1];
      assert (rows + more)[..|rows + more| - 1] == rows + init;
      AsWrittenFailurePersists(rows, init);
    }
  }

  /**
   * A csv row shorter than the header gives None for the Name column when Name is
   * not the first column. As written, one such row makes the whole read fail.
   */
  lemma MissingNameAbortsRead(before: seq<Row>, short: Row, after: seq<Row>)
    requires NameColumn in short && short[NameColumn] == Missing
    ensures PlayersAsWritten(before + [short] + after).Failure?
  {
    assert (before + [short])[..|before + [short]| - 1] == before;
    assert (before + [short])[|before + [short]| - 1] == short;
    assert RowNameAsWritten(short).Failure?;
    AsWrittenFailurePersists(before + [short], after);
  }

  /** Skipping such a row, as the docstring promises, keeps every other player. */
  lemma MissingNameSkipped(before: seq<Row>, short: Row, after: seq<Row>)
    requires NameColumn in short && short[NameColumn] == Missing
    ensures Players(before + [short] + after) == Players(before) + Players(after)
  {
    PlayersAppend(before + [short], after);
    PlayersAppend(before, [short]);
    PlayersOfRow(short);
  }

  // ----- rank_players -----

  /** The player dictionary after the first loop: calculate_score stored as its score. */
  function WithScore(p: Player): Scored {
    Scored(p, Score(p))
  }

  function ScoreKey(s: Scored): real {
    s.score
  }

  function Unranked(r: Ranked): Scored {
    Scored(r.player, r.score)
  }

  function RankedPlayer(r: Ranked): Player {
    r.player
  }

  function ScoredPlayer(s: Scored): Player {
    s.player
  }

  /** What rank_players returns: the scored players sorted stably by score, numbered 1..n. */
  function Leaderboard(players: seq<Player>): (board: seq<Ranked>)
    ensures |board| == |players|
  {
    var sorted := Ranking.SortDesc(Map(players, WithScore), ScoreKey);
    seq(|sorted|, i requires 0 <= i < |sorted| => Ranked(sorted[i].player, sorted[i].score, i + 1))
  }

  /** Every record the sort hands back still carries its own player's score. */
  lemma SortedScoresExact(players: seq<Player>)
    ensures forall x :: x in Ranking.SortDesc(Map(players, WithScore), ScoreKey) ==> x.score == Score(x.player)
  {
    var all := Map(players, WithScore);
    forall x | x in Ranking.SortDesc(all, ScoreKey)
      ensures x.score == Score(x.player)
    {
      assert x in multiset(all);
    }
  }

  /** The first loop of rank_players: each player gets its calculate_score value. */
  method ScoreAll(players: seq<Player>) returns (scored: seq<Scored>)
    ensures scored == Map(players, WithScore)
  {
    scored := [];
    for i := 0 to |players|
      invariant scored == Map(players[..i], WithScore)
    {
      var s := CalculateScore(players[i].stats);
      assert players[..i + 1] == players[..i] + [players[i]];
      MapAppend(players[..i], [players[i]], WithScore);
      scored := scored + [Scored(players[i], s)];
    }
    assert players[..|players|] == players;
  }

  /** The last loop of rank_players: `enumerate(ranked, start=1)` numbers the sorted records. */
  method Number(sorted: seq<Scored>) returns (ranked: seq<Ranked>)
    ensures |ranked| == |sorted|
    ensures forall k :: 0 <= k < |sorted| ==> ranked[k] == Ranked(sorted[k].player, sorted[k].score, k + 1)
  {
    ranked := [];
    for i := 0 to |sorted|
      invariant |ranked| == i
      invariant forall k :: 0 <= k < i ==> ranked[k] == Ranked(sorted[k].player, sorted[k].score, k + 1)
    {
      ranked := ranked + [Ranked(sorted[i].player, sorted[i].score, i + 1)];
    }
  }

  /** rank_players: score every player, sort highest first, then number the positions. */
  method RankPlayers(players: seq<Player>) returns (ranked: seq<Ranked>)
    ensures ranked == Leaderboard(players)
    ensures forall i :: 0 <= i < |ranked| ==> ranked[i].rank == i + 1 && ranked[i].score == Score(ranked[i].player)
  {
    var scored := ScoreAll(players);
    var sorted := Ranking.SortDesc(scored, ScoreKey);
    ranked := Number(sorted);
    SortedScoresExact(players);
    assert forall k :: 0 <= k < |ranked| ==> sorted[k] in sorted;
  }

  /**
   * The leaderboard holds the same players, highest score first, with the stored
   * score equal to calculate_score and rank equal to position 1..n.
   */
  lemma LeaderboardRanked(players: seq<Player>)
    ensures var board := Leaderboard(players);
      && multiset(Map(board, RankedPlayer)) == multiset(players)
      && (forall i, j :: 0 <= i < j < |board| ==> board[i].score >= board[j].score)
      && (forall i :: 0 <= i < |board| ==> board[i].rank == i + 1 && board[i].score == Score(board[i].player))
  {
    var board := Leaderboard(players);
    var all := Map(players, WithScore);
    var sorted := Ranking.SortDesc(all, ScoreKey);
    assert Map(board, RankedPlayer) == Map(sorted, ScoredPlayer);
    MapMultiset(sorted, all, ScoredPlayer);
    assert Map(all, ScoredPlayer) == players;
    SortedScoresExact(players);
    assert forall i :: 0 <= i < |board| ==> sorted[i] in sorted;
  }

  /** Players with equal scores appear in the leaderboard in their input order. */
  lemma LeaderboardStable(players: seq<Player>, k: real)
    ensures Ranking.WithKey(Map(Leaderboard(players), Unranked), ScoreKey, k)
         == Ranking.WithKey(Map(players, WithScore), ScoreKey, k)
  {
    var sorted := Ranking.SortDesc(Map(players, WithScore), ScoreKey);
    assert Map(Leaderboard(players), Unranked) == sorted;
    Ranking.SortDescStable(Map(players, WithScore), ScoreKey, k);
  }

  // ----- main -----

  /**
   * main without the files: read, stop when no player is left, otherwise rank.
   * The AttributeError of a short row is not caught and ends the run.
   */
  method Analyze(header: seq<string>, rows: seq<Row>) returns (result: Result<seq<Ranked>, Error>)
    ensures MissingFrom(header) != {} ==> result == Failure(MissingColumns(MissingFrom(header)))
    ensures MissingFrom(header) == {} && PlayersAsWritten(rows).Failure? ==> result == Failure(NameNotText)
    ensures MissingFrom(header) == {} && PlayersAsWritten(rows).Success? ==>
      result == if Players(rows) == [] then Failure(NoValidRecords) else Success(Leaderboard(Players(rows)))
  {
    var read := ReadPlayers(header, rows);
    AsWrittenOutcome(rows);
    match read
    case Failure(e) =>
      return Failure(e);
    case Success(players) =>
      if players == [] {
        return Failure(NoValidRecords);
      }
      var ranked := RankPlayers(players);
      return Success(ranked);
  }
}

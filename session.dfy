/**
 * The session state of the scoresheet: the list of rounds, changed only by adding a round,
 * deleting the last one, resetting, and replacing it wholesale by an import. The table, the
 * leaderboard and the CSV text are views computed from it.
 */
module Session {
  import opened Wrappers
  import opened Scoresheet
  import Csv

  class Ledger {
    /** The four player names, fixed for the life of the ledger. */
    const players: seq<string>
    /** The rounds in the order they were entered; round number = position + 1. */
    var rounds: seq<Round>

    /** Every round holds a score for exactly the four players. */
    ghost predicate Valid()
      reads this
    {
      PlayerNames(players) && forall i :: 0 <= i < |rounds| ==> Keyed(rounds[i], players)
    }

    /** A new session starts with no rounds. */
    constructor (players: seq<string>)
      requires PlayerNames(players)
      ensures Valid() && this.players == players && rounds == []
    {
      this.players := players;
      rounds := [];
    }

    /** Appends the round `{p1: s1, p2: s2, p3: s3, p4: s4}` for the current players. */
    method AddRound(s1: int, s2: int, s3: int, s4: int)
      requires Valid()
      modifies this
      ensures Valid()
      ensures rounds == old(rounds) + [RoundOf(players, [s1, s2, s3, s4])]
      ensures |rounds| == |old(rounds)| + 1 && rounds[..|old(rounds)|] == old(rounds)
      ensures forall j :: 0 <= j < |players| ==> rounds[|rounds| - 1][players[j]] == [s1, s2, s3, s4][j]
    {
      rounds := rounds + [RoundOf(players, [s1, s2, s3, s4])];
    }

    /** Removes the most recent round; nothing happens when there is none. */
    method DeleteLastRound()
      requires Valid()
      modifies this
      ensures Valid()
      ensures old(rounds) == [] ==> rounds == []
      ensures old(rounds) != [] ==> rounds == old(rounds)[..|old(rounds)| - 1]
    {
      if rounds != [] {
        rounds := rounds[..|rounds| - 1];
      }
    }

    /** Clears all rounds. */
    method Reset()
      requires Valid()
      modifies this
      ensures Valid() && rounds == []
    {
      rounds := [];
    }

    /**
     * Imports pasted CSV text: on success the rounds are replaced by the imported ones; on any
     * failure the error is reported and the rounds are left exactly as they were.
     */
    method ImportCsv(text: string) returns (error: Option<Csv.ImportError>)
      requires Valid()
      modifies this
      ensures Valid()
      ensures Csv.DecodeCsv(text, players).Ok? ==> error == None && rounds == Csv.DecodeCsv(text, players).value
      ensures Csv.DecodeCsv(text, players).Err? ==> error == Some(Csv.DecodeCsv(text, players).error) && rounds == old(rounds)
    {
      var imported := Csv.ImportRounds(text, players);
      match imported
      case Err(e) =>
        error := Some(e);
      case Ok(rs) =>
        rounds := rs;
        error := None;
    }

    /** The score table shown for the current rounds. */
    method ScoreTable() returns (t: seq<Row>)
      requires Valid()
      ensures t == Table(rounds, players)
      ensures |t| == |rounds| && forall i :: 0 <= i < |t| ==> t[i].round == i + 1
    {
      if rounds != [] {
        assert Keyed(rounds[0], players);
        forall j | 0 <= j < |players| ensures exists i :: 0 <= i < |rounds| && players[j] in rounds[i] {
          assert players[j] in NameSet(players);
          assert players[j] in rounds[0];
        }
        assert ColumnsPresent(rounds, players);
      }
      t := Recalc(rounds, players);
    }

    /** The leaderboard and, once a round exists, the current leader. */
    method Leaderboard() returns (lb: seq<Standing>, leader: Option<string>)
      requires Valid()
      ensures lb == Standings(Table(rounds, players), players)
      ensures leader == CurrentLeader(Table(rounds, players), players)
      ensures leader.Some? <==> rounds != []
    {
      var t := ScoreTable();
      lb := Standings(t, players);
      leader := CurrentLeader(t, players);
    }

    /** The CSV text offered for download. */
    method ExportCsv() returns (text: string)
      requires Valid()
      ensures text == Csv.Export(Table(rounds, players), players)
    {
      var t := ScoreTable();
      text := Csv.Export(t, players);
    }
  }

  /** Downloading the CSV and pasting it back into the import restores the same rounds. */
  method ExportThenImport(ledger: Ledger) returns (error: Option<Csv.ImportError>)
    requires ledger.Valid()
    requires forall j :: 0 <= j < |ledger.players| ==> Csv.PlainName(ledger.players[j])
    modifies ledger
    ensures ledger.Valid() && error == None && ledger.rounds == old(ledger.rounds)
  {
    var text := ledger.ExportCsv();
    Csv.ExportImportRoundTrip(ledger.rounds, ledger.players);
    error := ledger.ImportCsv(text);
  }
}

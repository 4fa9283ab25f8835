/**
 * The scoresheet engine: a round records one score per player name, the score table numbers
 * the rounds 1..N and coerces every cell to an integer, and the leaderboard ranks the players
 * by ascending cumulative total (lowest total wins).
 */
module Scoresheet {
  import opened Wrappers

  /** The game always has four players. */
  const PlayerCount: nat := 4

  /** Header of the column the table adds in front of the player columns. */
  const RoundColumn: string := "Round"

  /** One round as the session stores it: a dictionary from player name to score. */
  type Round = map<string, int>

  /** A row of the score table: the 1-based round number and one score per player, in player order. */
  datatype Row = Row(round: int, scores: seq<int>)

  predicate DistinctNames(players: seq<string>)
  {
    forall i, j :: 0 <= i < j < |players| ==> players[i] != players[j]
  }

  /**
   * The player names the session works with: four of them, none blank, no two alike,
   * and none equal to the header of the round column.
   */
  predicate PlayerNames(players: seq<string>)
  {
    && |players| == PlayerCount
    && DistinctNames(players)
    && RoundColumn !in players
    && forall j :: 0 <= j < |players| ==> players[j] != ""
  }

  function NameSet(players: seq<string>): set<string>
  {
    set p | p in players
  }

  /** A round that has a score for exactly the given players. */
  predicate Keyed(r: Round, players: seq<string>)
  {
    r.Keys == NameSet(players)
  }

  /**
   * The dictionary literal `{players[0]: scores[0], ..., players[3]: scores[3]}`: keys are
   * entered left to right, so a later duplicate name would overwrite an earlier one.
   */
  function RoundOf(players: seq<string>, scores: seq<int>): (r: Round)
    requires |players| == |scores|
    ensures Keyed(r, players)
    ensures DistinctNames(players) ==> forall j :: 0 <= j < |players| ==> r[players[j]] == scores[j]
  {
    if |players| == 0 then map[]
    else
      var n := |players| - 1;
      assert NameSet(players) == NameSet(players[..n]) + {players[n]} by {
        assert players == players[..n] + [players[n]];
      }
      RoundOf(players[..n], scores[..n])[players[n] := scores[n]]
  }

  /** A cell of the table: the stored score, or 0 when the round has no entry for the player. */
  function ScoreOf(r: Round, p: string): int
  {
    if p in r then r[p] else 0
  }

  /** Every player has an entry in at least one round (the table lookup of a player column needs it). */
  predicate ColumnsPresent(rounds: seq<Round>, players: seq<string>)
  {
    forall j :: 0 <= j < |players| ==> exists i :: 0 <= i < |rounds| && players[j] in rounds[i]
  }

  /** The score table: row i holds round number i + 1 and the coerced score of every player. */
  function Table(rounds: seq<Round>, players: seq<string>): (t: seq<Row>)
    ensures |t| == |rounds|
    ensures forall i :: 0 <= i < |t| ==> t[i].round == i + 1 && |t[i].scores| == |players|
  {
    seq(|rounds|, i requires 0 <= i < |rounds| =>
      Row(i + 1, seq(|players|, j requires 0 <= j < |players| => ScoreOf(rounds[i], players[j]))))
  }

  /** One player's column of the table. */
  function Column(rounds: seq<Round>, p: string): (c: seq<int>)
    ensures |c| == |rounds|
  {
    seq(|rounds|, i requires 0 <= i < |rounds| => ScoreOf(rounds[i], p))
  }

  /**
   * The table computation: empty for no rounds; otherwise every player column is coerced
   * (one column at a time) and the round column is overwritten with 1..N.
   */
  method Recalc(rounds: seq<Round>, players: seq<string>) returns (t: seq<Row>)
    requires |players| == PlayerCount && RoundColumn !in players
    requires |rounds| == 0 || ColumnsPresent(rounds, players)
    ensures |t| == |rounds|
    ensures forall i :: 0 <= i < |t| ==> t[i].round == i + 1 && |t[i].scores| == |players|
    ensures forall i, j :: 0 <= i < |t| && 0 <= j < |players| ==>
              t[i].scores[j] == (if players[j] in rounds[i] then rounds[i][players[j]] else 0)
    ensures t == Table(rounds, players)
  {
    if |rounds| == 0 {
      return [];
    }
    var columns: seq<seq<int>> := [];
    for j := 0 to |players|
      invariant |columns| == j
      invariant forall k :: 0 <= k < j ==> columns[k] == Column(rounds, players[k])
    {
      columns := columns + [Column(rounds, players[j])];
    }
    var roundNumbers := seq(|rounds|, i requires 0 <= i < |rounds| => i + 1);
    t := seq(|rounds|, i requires 0 <= i < |rounds| =>
      Row(roundNumbers[i], seq(|players|, j requires 0 <= j < |players| => columns[j][i])));
    forall i | 0 <= i < |rounds| ensures t[i] == Table(rounds, players)[i] {
      assert t[i].scores == Table(rounds, players)[i].scores;
    }
  }

  /** Appending a round appends one row, numbered after the others, and leaves earlier rows alone. */
  lemma TableAppend(rounds: seq<Round>, r: Round, players: seq<string>)
    ensures Table(rounds + [r], players)
         == Table(rounds, players) + [Row(|rounds| + 1, seq(|players|, j requires 0 <= j < |players| => ScoreOf(r, players[j])))]
  {
    var lhs := Table(rounds + [r], players);
    var rhs := Table(rounds, players) + [Row(|rounds| + 1, seq(|players|, j requires 0 <= j < |players| => ScoreOf(r, players[j])))];
    assert |lhs| == |rhs|;
    forall i | 0 <= i < |lhs| ensures lhs[i] == rhs[i] {
      if i < |rounds| {
        assert (rounds + [r])[i] == rounds[i];
      } else {
        assert (rounds + [r])[i] == r;
      }
    }
  }

  /** Every row of the table has one score per player. */
  predicate Shaped(table: seq<Row>, n: nat)
  {
    forall i :: 0 <= i < |table| ==> |table[i].scores| == n
  }

  /** The sum of column j of the table. */
  function ColumnSum(table: seq<Row>, j: nat): (sum: int)
    requires forall i :: 0 <= i < |table| ==> j < |table[i].scores|
    ensures table == [] ==> sum == 0
    ensures (forall i :: 0 <= i < |table| ==> table[i].scores[j] >= 0) ==> sum >= 0
  {
    if table == [] then 0 else ColumnSum(table[..|table| - 1], j) + table[|table| - 1].scores[j]
  }

  /** Each player's total: the sum of that player's column, 0 for everyone when the table is empty. */
  function Totals(table: seq<Row>, players: seq<string>): (totals: seq<int>)
    requires Shaped(table, |players|)
    ensures |totals| == |players|
    ensures table == [] ==> forall j :: 0 <= j < |totals| ==> totals[j] == 0
  {
    seq(|players|, j requires 0 <= j < |players| => ColumnSum(table, j))
  }

  /** A player's cumulative score over the rounds, missing entries counting 0. */
  function PlayerTotal(rounds: seq<Round>, p: string): int
  {
    if rounds == [] then 0 else PlayerTotal(rounds[..|rounds| - 1], p) + ScoreOf(rounds[|rounds| - 1], p)
  }

  lemma {:induction false} ColumnSumOfTable(rounds: seq<Round>, players: seq<string>, j: nat)
    requires j < |players|
    ensures Shaped(Table(rounds, players), |players|)
    ensures ColumnSum(Table(rounds, players), j) == PlayerTotal(rounds, players[j])
  {
    var t := Table(rounds, players);
    if rounds != [] {
      var n := |rounds| - 1;
      assert t[..n] == Table(rounds[..n], players);
      ColumnSumOfTable(rounds[..n], players, j);
    }
  }

  /** The total of every player is the sum of that player's scores over all rounds. */
  lemma TotalsAreRoundSums(rounds: seq<Round>, players: seq<string>)
    ensures Shaped(Table(rounds, players), |players|)
    ensures forall j :: 0 <= j < |players| ==>
              Totals(Table(rounds, players), players)[j] == PlayerTotal(rounds, players[j])
  {
    forall j | 0 <= j < |players| ensures ColumnSum(Table(rounds, players), j) == PlayerTotal(rounds, players[j]) {
      ColumnSumOfTable(rounds, players, j);
    }
  }

  /** A new round adds its score to each player's total; removing the last round takes it off again. */
  lemma PlayerTotalAppend(rounds: seq<Round>, r: Round, p: string)
    ensures PlayerTotal(rounds + [r], p) == PlayerTotal(rounds, p) + ScoreOf(r, p)
  {
    assert (rounds + [r])[..|rounds|] == rounds;
  }

  /** A player with their total, as the leaderboard sorts them. */
  datatype Entry = Entry(player: string, total: int)

  /** A leaderboard row. */
  datatype Standing = Standing(rank: int, player: string, total: int)

  predicate SortedByTotal(xs: seq<Entry>)
  {
    forall k, l :: 0 <= k < l < |xs| ==> xs[k].total <= xs[l].total
  }

  /** Inserts `e` before the first entry whose total is not smaller. */
  function Insert(e: Entry, xs: seq<Entry>): (r: seq<Entry>)
    ensures |r| == |xs| + 1
  {
    if xs == [] || e.total <= xs[0].total then [e] + xs
    else [xs[0]] + Insert(e, xs[1..])
  }

  /** No entry has a total below `b`. */
  predicate AtLeast(xs: seq<Entry>, b: int)
  {
    forall k :: 0 <= k < |xs| ==> b <= xs[k].total
  }

  /** An entry no larger than anything in a sorted list can go in front of it. */
  lemma ConsSorted(x: Entry, xs: seq<Entry>)
    requires SortedByTotal(xs) && AtLeast(xs, x.total)
    ensures SortedByTotal([x] + xs)
  {
    var ys := [x] + xs;
    forall k, l | 0 <= k < l < |ys| ensures ys[k].total <= ys[l].total {
      assert ys[l] == xs[l - 1];
      if k > 0 {
        assert ys[k] == xs[k - 1];
      }
    }
  }

  /** Insertion adds exactly `e`. */
  lemma {:induction false} InsertPerm(e: Entry, xs: seq<Entry>)
    ensures multiset(Insert(e, xs)) == multiset(xs) + multiset{e}
  {
    if xs != [] && e.total > xs[0].total {
      InsertPerm(e, xs[1..]);
      assert xs == [xs[0]] + xs[1..];
    }
  }

  /** Insertion keeps a lower bound that both the entry and the list respect. */
  lemma {:induction false} InsertAtLeast(e: Entry, xs: seq<Entry>, b: int)
    requires AtLeast(xs, b) && b <= e.total
    ensures AtLeast(Insert(e, xs), b)
  {
    if xs == [] || e.total <= xs[0].total {
      var ys := [e] + xs;
      assert forall k :: 1 <= k < |ys| ==> ys[k] == xs[k - 1];
    } else {
      var ys := [xs[0]] + Insert(e, xs[1..]);
      InsertAtLeast(e, xs[1..], b);
      assert forall k :: 1 <= k < |ys| ==> ys[k] == Insert(e, xs[1..])[k - 1];
    }
  }

  /** Insertion keeps a sorted list sorted. */
  lemma {:induction false} InsertSorted(e: Entry, xs: seq<Entry>)
    requires SortedByTotal(xs)
    ensures SortedByTotal(Insert(e, xs))
  {
    if xs == [] || e.total <= xs[0].total {
      ConsSorted(e, xs);
    } else {
      var x, tail := xs[0], xs[1..];
      assert SortedByTotal(tail);
      assert AtLeast(tail, x.total);
      InsertSorted(e, tail);
      InsertAtLeast(e, tail, x.total);
      ConsSorted(x, Insert(e, tail));
    }
  }

  /** Insertion adds exactly `e` and keeps a sorted list sorted. */
  lemma InsertSpec(e: Entry, xs: seq<Entry>)
    ensures multiset(Insert(e, xs)) == multiset(xs) + multiset{e}
    ensures SortedByTotal(xs) ==> SortedByTotal(Insert(e, xs))
  {
    InsertPerm(e, xs);
    if SortedByTotal(xs) {
      InsertSorted(e, xs);
    }
  }

  /** Stable insertion sort by ascending total. */
  function SortByTotal(xs: seq<Entry>): (r: seq<Entry>)
    ensures |r| == |xs|
  {
    if xs == [] then [] else Insert(xs[0], SortByTotal(xs[1..]))
  }

  /** The sorted list is ordered by total and is a permutation of the input. */
  lemma {:induction false} SortByTotalSpec(xs: seq<Entry>)
    ensures multiset(SortByTotal(xs)) == multiset(xs)
    ensures SortedByTotal(SortByTotal(xs))
  {
    if xs != [] {
      SortByTotalSpec(xs[1..]);
      InsertSpec(xs[0], SortByTotal(xs[1..]));
      assert xs == [xs[0]] + xs[1..];
    }
  }

  /** The entries with total `t`, in their order. */
  function WithTotal(xs: seq<Entry>, t: int): seq<Entry>
  {
    if xs == [] then [] else (if xs[0].total == t then [xs[0]] else []) + WithTotal(xs[1..], t)
  }

  lemma {:induction false} InsertWithTotal(e: Entry, xs: seq<Entry>, t: int)
    ensures WithTotal(Insert(e, xs), t) == (if e.total == t then [e] else []) + WithTotal(xs, t)
  {
    var here := if e.total == t then [e] else [];
    if xs != [] && e.total > xs[0].total {
      var x := xs[0];
      var rest := Insert(e, xs[1..]);
      var first := if x.total == t then [x] else [];
      InsertWithTotal(e, xs[1..], t);
      assert ([x] + rest)[1..] == rest;
      assert WithTotal(Insert(e, xs), t) == first + (here + WithTotal(xs[1..], t));
      assert WithTotal(xs, t) == first + WithTotal(xs[1..], t);
      assert here == [] || first == [];
    } else {
      assert ([e] + xs)[1..] == xs;
    }
  }

  /** Sorting keeps entries of equal total in their original order (the sort is stable). */
  lemma {:induction false} SortKeepsTies(xs: seq<Entry>, t: int)
    ensures WithTotal(SortByTotal(xs), t) == WithTotal(xs, t)
  {
    if xs != [] {
      SortKeepsTies(xs[1..], t);
      InsertWithTotal(xs[0], SortByTotal(xs[1..]), t);
    }
  }

  /** The players with their totals, in player-list order. */
  function Entries(players: seq<string>, totals: seq<int>): (es: seq<Entry>)
    requires |totals| == |players|
    ensures |es| == |players|
  {
    seq(|players|, j requires 0 <= j < |players| => Entry(players[j], totals[j]))
  }

  /** Drops the rank column of a leaderboard. */
  function Unranked(lb: seq<Standing>): seq<Entry>
  {
    seq(|lb|, k requires 0 <= k < |lb| => Entry(lb[k].player, lb[k].total))
  }

  /** The leaderboard: players sorted by ascending total, ranked 1..N by position. */
  function Standings(table: seq<Row>, players: seq<string>): (lb: seq<Standing>)
    requires Shaped(table, |players|)
    ensures |lb| == |players|
  {
    var sorted := SortByTotal(Entries(players, Totals(table, players)));
    seq(|sorted|, k requires 0 <= k < |sorted| => Standing(k + 1, sorted[k].player, sorted[k].total))
  }

  /**
   * What the leaderboard promises: one row per player, ranks exactly 1..N in order, totals
   * non-decreasing by rank, the rows are a permutation of the (player, total) pairs, and players
   * with equal totals appear in player-list order.
   */
  lemma StandingsSpec(table: seq<Row>, players: seq<string>)
    requires Shaped(table, |players|)
    ensures var lb := Standings(table, players);
            var es := Entries(players, Totals(table, players));
            && |lb| == |players|
            && (forall k :: 0 <= k < |lb| ==> lb[k].rank == k + 1)
            && (forall k, l :: 0 <= k < l < |lb| ==> lb[k].total <= lb[l].total)
            && multiset(Unranked(lb)) == multiset(es)
            && (forall t :: WithTotal(Unranked(lb), t) == WithTotal(es, t))
  {
    var es := Entries(players, Totals(table, players));
    var lb := Standings(table, players);
    SortByTotalSpec(es);
    assert Unranked(lb) == SortByTotal(es);
    forall t ensures WithTotal(Unranked(lb), t) == WithTotal(es, t) {
      SortKeepsTies(es, t);
    }
  }

  /** The current leader: the rank-1 player, shown only once a round exists. */
  function CurrentLeader(table: seq<Row>, players: seq<string>): (w: Option<string>)
    requires Shaped(table, |players|) && |players| >= 1
    ensures w.Some? <==> |table| > 0
  {
    if |table| == 0 then None else Some(Standings(table, players)[0].player)
  }

  /** The reported leader is one of the players and no player has a lower total. */
  lemma LeaderHasLowestTotal(table: seq<Row>, players: seq<string>)
    requires Shaped(table, |players|) && |players| >= 1 && |table| > 0
    ensures var totals := Totals(table, players);
            exists j :: 0 <= j < |players| && CurrentLeader(table, players) == Some(players[j])
                        && forall k :: 0 <= k < |players| ==> totals[j] <= totals[k]
  {
    var totals := Totals(table, players);
    var es := Entries(players, totals);
    var sorted := SortByTotal(es);
    SortByTotalSpec(es);
    assert sorted[0] in multiset(es);
    var j :| 0 <= j < |es| && es[j] == sorted[0];
    forall k | 0 <= k < |players| ensures totals[j] <= totals[k] {
      assert es[k] in multiset(sorted);
      var m :| 0 <= m < |sorted| && sorted[m] == es[k];
    }
  }
}

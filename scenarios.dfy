/** The worked examples of the scoresheet, computed from the definitions. */
module Scenarios {
  import opened Wrappers
  import opened Scoresheet
  import Text
  import Csv

  /** The round entered for players A, B, C, D. */
  lemma ExampleRound(s1: int, s2: int, s3: int, s4: int)
    ensures RoundOf(["A", "B", "C", "D"], [s1, s2, s3, s4]) == map["A" := s1, "B" := s2, "C" := s3, "D" := s4]
  {
    var ps, ss := ["A", "B", "C", "D"], [s1, s2, s3, s4];
    assert ps[..3] == ["A", "B", "C"] && ss[..3] == [s1, s2, s3];
    assert ps[..3][..2] == ["A", "B"] && ss[..3][..2] == [s1, s2];
    assert ps[..3][..2][..1] == ["A"] && ss[..3][..2][..1] == [s1];
    assert ["A"][..0] == [] && [s1][..0] == [];
    assert RoundOf(["A"], [s1]) == map["A" := s1];
    assert RoundOf(["A", "B"], [s1, s2]) == map["A" := s1, "B" := s2];
    assert RoundOf(["A", "B", "C"], [s1, s2, s3]) == map["A" := s1, "B" := s2, "C" := s3];
  }

  lemma ExampleTable()
    ensures var ps := ["A", "B", "C", "D"];
            Table([map["A" := 5, "B" := 3, "C" := 5, "D" := 1], map["A" := 2, "B" := 2, "C" := 2, "D" := 2]], ps)
              == [Row(1, [5, 3, 5, 1]), Row(2, [2, 2, 2, 2])]
  {
    var ps := ["A", "B", "C", "D"];
    var t := Table([map["A" := 5, "B" := 3, "C" := 5, "D" := 1], map["A" := 2, "B" := 2, "C" := 2, "D" := 2]], ps);
    assert t[0].scores == [5, 3, 5, 1];
    assert t[1].scores == [2, 2, 2, 2];
  }

  /** The column sums of the example table. */
  lemma ExampleColumnSums()
    ensures var t := [Row(1, [5, 3, 5, 1]), Row(2, [2, 2, 2, 2])];
            ColumnSum(t, 0) == 7 && ColumnSum(t, 1) == 5 && ColumnSum(t, 2) == 7 && ColumnSum(t, 3) == 3
  {
    var t1 := [Row(1, [5, 3, 5, 1])];
    var t := [Row(1, [5, 3, 5, 1]), Row(2, [2, 2, 2, 2])];
    assert t[..1] == t1 && t1[..0] == [];
    assert t[1].scores == [2, 2, 2, 2];
    assert ColumnSum(t1, 0) == 5 && ColumnSum(t1, 1) == 3 && ColumnSum(t1, 2) == 5 && ColumnSum(t1, 3) == 1;
  }

  lemma ExampleTableTotals()
    ensures Totals([Row(1, [5, 3, 5, 1]), Row(2, [2, 2, 2, 2])], ["A", "B", "C", "D"]) == [7, 5, 7, 3]
  {
    var t := [Row(1, [5, 3, 5, 1]), Row(2, [2, 2, 2, 2])];
    ExampleColumnSums();
    var totals := Totals(t, ["A", "B", "C", "D"]);
    assert totals[0] == 7 && totals[1] == 5 && totals[2] == 7 && totals[3] == 3;
  }

  lemma ExampleTotals()
    ensures var ps := ["A", "B", "C", "D"];
            var rounds := [RoundOf(ps, [5, 3, 5, 1]), RoundOf(ps, [2, 2, 2, 2])];
            Totals(Table(rounds, ps), ps) == [7, 5, 7, 3]
  {
    var ps := ["A", "B", "C", "D"];
    ExampleRound(5, 3, 5, 1);
    ExampleRound(2, 2, 2, 2);
    ExampleTable();
    ExampleTableTotals();
  }

  lemma SortOfDC()
    ensures SortByTotal([Entry("C", 7), Entry("D", 3)]) == [Entry("D", 3), Entry("C", 7)]
  {
    var c, d := Entry("C", 7), Entry("D", 3);
    assert [c, d][1..] == [d] && [d][1..] == [];
    assert SortByTotal([d]) == [d];
    assert Insert(c, []) == [c];
  }

  lemma SortOfBCD()
    ensures SortByTotal([Entry("B", 5), Entry("C", 7), Entry("D", 3)]) == [Entry("D", 3), Entry("B", 5), Entry("C", 7)]
  {
    var b, c, d := Entry("B", 5), Entry("C", 7), Entry("D", 3);
    assert [b, c, d][1..] == [c, d] && [d, c][1..] == [c];
    SortOfDC();
    assert Insert(b, [c]) == [b, c];
  }

  lemma ExampleSort()
    ensures SortByTotal([Entry("A", 7), Entry("B", 5), Entry("C", 7), Entry("D", 3)])
         == [Entry("D", 3), Entry("B", 5), Entry("A", 7), Entry("C", 7)]
  {
    var a, b, c, d := Entry("A", 7), Entry("B", 5), Entry("C", 7), Entry("D", 3);
    assert [a, b, c, d][1..] == [b, c, d] && [d, b, c][1..] == [b, c] && [b, c][1..] == [c];
    SortOfBCD();
    assert Insert(a, [c]) == [a, c];
    assert Insert(a, [b, c]) == [b, a, c];
  }

  lemma ExampleTableStandings()
    ensures Standings([Row(1, [5, 3, 5, 1]), Row(2, [2, 2, 2, 2])], ["A", "B", "C", "D"])
         == [Standing(1, "D", 3), Standing(2, "B", 5), Standing(3, "A", 7), Standing(4, "C", 7)]
  {
    var t, ps := [Row(1, [5, 3, 5, 1]), Row(2, [2, 2, 2, 2])], ["A", "B", "C", "D"];
    ExampleTableTotals();
    var es := Entries(ps, [7, 5, 7, 3]);
    assert es == [Entry("A", 7), Entry("B", 5), Entry("C", 7), Entry("D", 3)];
    ExampleSort();
    var lb := Standings(t, ps);
    assert lb[0] == Standing(1, "D", 3) && lb[1] == Standing(2, "B", 5);
    assert lb[2] == Standing(3, "A", 7) && lb[3] == Standing(4, "C", 7);
  }

  /**
   * Players A, B, C, D enter rounds (5, 3, 5, 1) and (2, 2, 2, 2): totals 7, 5, 7, 3, and the
   * leaderboard ranks D, B, A, C, with A ahead of C on their tie because A comes first.
   */
  lemma StandingsExample()
    ensures var ps := ["A", "B", "C", "D"];
            var rounds := [RoundOf(ps, [5, 3, 5, 1]), RoundOf(ps, [2, 2, 2, 2])];
            && Totals(Table(rounds, ps), ps) == [7, 5, 7, 3]
            && Standings(Table(rounds, ps), ps)
               == [Standing(1, "D", 3), Standing(2, "B", 5), Standing(3, "A", 7), Standing(4, "C", 7)]
  {
    ExampleTotals();
    ExampleRound(5, 3, 5, 1);
    ExampleRound(2, 2, 2, 2);
    ExampleTable();
    ExampleTableStandings();
  }

  /** A player cell holding text rejects the whole import. */
  lemma ImportTextCellExample()
    ensures Csv.RowsRounds(["Round", "A", "B", "C", "D"], [["1", "5", "abc", "1", "2"]], ["A", "B", "C", "D"]).Err?
  {
    var header, row, ps := ["Round", "A", "B", "C", "D"], ["1", "5", "abc", "1", "2"], ["A", "B", "C", "D"];
    assert Csv.IndexOf(header, "B") == Some(2);
    assert Text.ParseInt("abc") == None by {
      assert !Text.IsDigit('a');
    }
    assert Csv.Cell(header, row, 0, "B").Err?;
    Csv.RowScoresOk(header, row, 0, ps);
    assert ps[1] == "B";
    Csv.RowsRoundsOk(header, [row], ps);
  }

  /** Text of nothing but spaces holds no header, so the import fails and the game is kept. */
  lemma SpacesOnlyImportExample()
    ensures Csv.DecodeCsv("   ", ["A", "B", "C", "D"]) == Err(Csv.NoColumns)
  {
    Csv.BlankTextRejected("   ", ["A", "B", "C", "D"]);
  }
}

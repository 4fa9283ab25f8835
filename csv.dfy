/**
 * The CSV contract of the scoresheet. Export writes the header `Round,<p1>,<p2>,<p3>,<p4>` and one
 * line of integers per table row. Import reads the text back as the data library does for plain
 * integer data, then rebuilds the rounds from the four configured player columns only: a column
 * that is absent reads as 0, and any player cell that is not an integer fails the whole import.
 */
module Csv {
  import opened Wrappers
  import opened Text
  import opened Scoresheet

  datatype ImportError =
    | NoColumns                                  // the text holds no non-blank line
    | TooManyFields                              // a data line has more fields than the header
    | NotAnInteger(row: nat, player: string)     // a player cell is empty or not an integer

  /** The parsed text: the header fields and the fields of every data line. */
  datatype Frame = Frame(header: seq<string>, rows: seq<seq<string>>)

  // ---------- Export ----------

  function HeaderLine(players: seq<string>): string
  {
    Join([RoundColumn] + players, ',')
  }

  function Cells(xs: seq<int>): (cs: seq<string>)
    ensures |cs| == |xs|
  {
    seq(|xs|, i requires 0 <= i < |xs| => IntToString(xs[i]))
  }

  function RowLine(row: Row): string
  {
    Join([IntToString(row.round)] + Cells(row.scores), ',')
  }

  function RowLines(table: seq<Row>): (ls: seq<string>)
    ensures |ls| == |table|
  {
    seq(|table|, i requires 0 <= i < |table| => RowLine(table[i]))
  }

  /** The exported text: the header, then one line per row, every line ended by a newline, no index column. */
  function Export(table: seq<Row>, players: seq<string>): (text: string)
    ensures |text| > |HeaderLine(players)|
    ensures text[..|HeaderLine(players)|] == HeaderLine(players) && text[|HeaderLine(players)|] == '\n'
    ensures text[|text| - 1] == '\n'
  {
    Lines([HeaderLine(players)] + RowLines(table))
  }

  // ---------- Reading the text ----------

  /** The comma-separated fields of every line. */
  function FieldsOf(lines: seq<string>): (rows: seq<seq<string>>)
    ensures |rows| == |lines| && forall i :: 0 <= i < |lines| ==> rows[i] == Split(lines[i], ',')
  {
    seq(|lines|, i requires 0 <= i < |lines| => Split(lines[i], ','))
  }

  /**
   * The text as the reader sees it: blank lines skipped, the first line as header, every later
   * line split into fields; no line could be read at all, or a data line longer than the header,
   * is an error.
   */
  function ReadCsv(text: string): (r: Result<Frame, ImportError>)
    ensures r.Ok? ==> forall i :: 0 <= i < |r.value.rows| ==> |r.value.rows[i]| <= |r.value.header|
  {
    var lines := NonBlank(Split(text, '\n'));
    if lines == [] then Err(NoColumns)
    else
      var header := Split(lines[0], ',');
      var rows := FieldsOf(lines[1..]);
      if exists i :: 0 <= i < |rows| && |rows[i]| > |header| then Err(TooManyFields)
      else Ok(Frame(header, rows))
  }

  /** The first column whose header is `x`, if any. */
  function IndexOf(xs: seq<string>, x: string): (r: Option<nat>)
    ensures r.None? <==> x !in xs
    ensures r.Some? ==> r.value < |xs| && xs[r.value] == x && forall k :: 0 <= k < r.value ==> xs[k] != x
  {
    if xs == [] then None
    else if xs[0] == x then Some(0)
    else match IndexOf(xs[1..], x)
      case None => None
      case Some(k) => Some(k + 1)
  }

  /**
   * `int(row.get(p, 0))`: 0 when no column is named `p`; otherwise the cell of the first such
   * column, which must be present and an integer.
   */
  function Cell(header: seq<string>, row: seq<string>, line: nat, p: string): (r: Result<int, ImportError>)
    ensures p !in header ==> r == Ok(0)
    ensures r.Err? ==> r.error == NotAnInteger(line, p)
  {
    match IndexOf(header, p)
    case None => Ok(0)
    case Some(c) =>
      if c < |row| && ParseInt(row[c]).Some? then Ok(ParseInt(row[c]).value) else Err(NotAnInteger(line, p))
  }

  /** The cells of one data line for the players, taken in player order; the first failing cell fails the line. */
  function RowScores(header: seq<string>, row: seq<string>, line: nat, players: seq<string>): (r: Result<seq<int>, ImportError>)
    ensures r.Ok? ==> |r.value| == |players|
    ensures r.Ok? ==> forall j :: 0 <= j < |players| ==> Cell(header, row, line, players[j]) == Ok(r.value[j])
  {
    if players == [] then Ok([])
    else
      var n := |players| - 1;
      match RowScores(header, row, line, players[..n])
      case Err(e) => Err(e)
      case Ok(vs) =>
        match Cell(header, row, line, players[n])
        case Err(e) => Err(e)
        case Ok(v) => Ok(vs + [v])
  }

  /** One imported round: the dictionary built from the line's player cells. */
  function RowRound(header: seq<string>, row: seq<string>, line: nat, players: seq<string>): (r: Result<Round, ImportError>)
    ensures r.Ok? ==> Keyed(r.value, players)
  {
    match RowScores(header, row, line, players)
    case Err(e) => Err(e)
    case Ok(vs) => Ok(RoundOf(players, vs))
  }

  /** The rounds of all data lines in order; the first failing line fails them all. */
  function RowsRounds(header: seq<string>, rows: seq<seq<string>>, players: seq<string>): (r: Result<seq<Round>, ImportError>)
    ensures r.Ok? ==> |r.value| == |rows|
    ensures r.Ok? ==> forall i :: 0 <= i < |rows| ==> RowRound(header, rows[i], i, players) == Ok(r.value[i])
  {
    if rows == [] then Ok([])
    else
      var n := |rows| - 1;
      match RowsRounds(header, rows[..n], players)
      case Err(e) => Err(e)
      case Ok(rs) =>
        match RowRound(header, rows[n], n, players)
        case Err(e) => Err(e)
        case Ok(r) => Ok(rs + [r])
  }

  /** What an import produces from the pasted text: the new rounds, or the error that rejects it. */
  function DecodeCsv(text: string, players: seq<string>): (r: Result<seq<Round>, ImportError>)
    ensures ReadCsv(text).Err? ==> r.Err?
    ensures r.Ok? ==> |r.value| == |ReadCsv(text).value.rows|
    ensures r.Ok? ==> forall i :: 0 <= i < |r.value| ==> Keyed(r.value[i], players)
  {
    match ReadCsv(text)
    case Err(e) => Err(e)
    case Ok(f) => RowsRounds(f.header, f.rows, players)
  }

  lemma {:induction false} FailedPrefix(header: seq<string>, rows: seq<seq<string>>, k: nat, players: seq<string>)
    requires k <= |rows|
    requires RowsRounds(header, rows[..k], players).Err?
    ensures RowsRounds(header, rows, players) == RowsRounds(header, rows[..k], players)
  {
    if k < |rows| {
      var n := |rows| - 1;
      assert rows[..n][..k] == rows[..k];
      FailedPrefix(header, rows[..n], k, players);
    } else {
      assert rows[..k] == rows;
    }
  }

  /**
   * The import loop: rounds are built by appending one dictionary per data line, and the first
   * line that fails ends the import with that error.
   */
  method BuildRounds(header: seq<string>, rows: seq<seq<string>>, players: seq<string>) returns (res: Result<seq<Round>, ImportError>)
    ensures res == RowsRounds(header, rows, players)
  {
    var rounds: seq<Round> := [];
    var i := 0;
    while i < |rows|
      invariant 0 <= i <= |rows|
      invariant RowsRounds(header, rows[..i], players) == Ok(rounds)
    {
      var r := RowRound(header, rows[i], i, players);
      var prefix := rows[..i + 1];
      assert prefix[..i] == rows[..i] && prefix[i] == rows[i];
      if r.Err? {
        assert RowsRounds(header, prefix, players) == Err(r.error);
        FailedPrefix(header, rows, i + 1, players);
        return Err(r.error);
      }
      assert RowsRounds(header, prefix, players) == Ok(rounds + [r.value]);
      rounds := rounds + [r.value];
      i := i + 1;
    }
    assert rows[..i] == rows;
    return Ok(rounds);
  }

  /** The import: read the text, then build the rounds line by line. */
  method ImportRounds(text: string, players: seq<string>) returns (res: Result<seq<Round>, ImportError>)
    ensures res == DecodeCsv(text, players)
  {
    var frame := ReadCsv(text);
    if frame.Err? {
      return Err(frame.error);
    }
    res := BuildRounds(frame.value.header, frame.value.rows, players);
  }

  // ---------- Properties of import ----------

  lemma {:induction false} RowScoresOk(header: seq<string>, row: seq<string>, line: nat, players: seq<string>)
    ensures RowScores(header, row, line, players).Ok?
        <==> forall j :: 0 <= j < |players| ==> Cell(header, row, line, players[j]).Ok?
  {
    if players != [] {
      var n := |players| - 1;
      RowScoresOk(header, row, line, players[..n]);
      assert forall j :: 0 <= j < n ==> players[..n][j] == players[j];
    }
  }

  lemma {:induction false} RowsRoundsOk(header: seq<string>, rows: seq<seq<string>>, players: seq<string>)
    ensures RowsRounds(header, rows, players).Ok?
        <==> forall i :: 0 <= i < |rows| ==> RowRound(header, rows[i], i, players).Ok?
  {
    if rows != [] {
      var n := |rows| - 1;
      RowsRoundsOk(header, rows[..n], players);
      assert forall i :: 0 <= i < n ==> rows[..n][i] == rows[i];
    }
  }

  /** A text made only of spaces, tabs and newlines holds no line to read, so the import fails. */
  lemma BlankTextRejected(text: string, players: seq<string>)
    requires forall k :: 0 <= k < |text| ==> text[k] == ' ' || text[k] == '\t' || text[k] == '\n'
    ensures DecodeCsv(text, players) == Err(NoColumns)
  {
    var pieces := Split(text, '\n');
    SplitChars(text, '\n');
    forall k | 0 <= k < |pieces| ensures Blank(pieces[k]) {
      forall i | 0 <= i < |pieces[k]| ensures pieces[k][i] == ' ' || pieces[k][i] == '\t' {
        assert pieces[k][i] in text && pieces[k][i] != '\n';
      }
    }
    NonBlankOfBlanks(pieces);
  }

  /** The import sees the text only through its non-blank lines. */
  lemma SameLinesSameImport(t1: string, t2: string, players: seq<string>)
    requires NonBlank(Split(t1, '\n')) == NonBlank(Split(t2, '\n'))
    ensures DecodeCsv(t1, players) == DecodeCsv(t2, players)
  {
    assert ReadCsv(t1) == ReadCsv(t2);
  }

  /** A blank line anywhere in the text changes nothing the import produces. */
  lemma BlankLineIgnored(before: seq<string>, blank: string, after: seq<string>, players: seq<string>)
    requires NoNewline(before) && NoNewline(after)
    requires Blank(blank)
    ensures DecodeCsv(Lines(before + [blank] + after), players) == DecodeCsv(Lines(before + after), players)
  {
    NoNewlineAround(before, blank, after);
    LinesNonBlank(before + [blank] + after);
    LinesNonBlank(before + after);
    NonBlankSkips(before, blank, after);
    SameLinesSameImport(Lines(before + [blank] + after), Lines(before + after), players);
  }

  /** A player cell the import can read: its column is absent, or its cell is present and an integer. */
  predicate CellReadable(header: seq<string>, row: seq<string>, p: string)
  {
    match IndexOf(header, p)
    case None => true
    case Some(c) => c < |row| && ParseInt(row[c]).Some?
  }

  /** A line yields a round exactly when each of its player cells is readable. */
  lemma RowReadable(header: seq<string>, row: seq<string>, line: nat, players: seq<string>)
    ensures RowRound(header, row, line, players).Ok?
        <==> forall j :: 0 <= j < |players| ==> CellReadable(header, row, players[j])
  {
    RowScoresOk(header, row, line, players);
    forall j | 0 <= j < |players|
      ensures Cell(header, row, line, players[j]).Ok? <==> CellReadable(header, row, players[j])
    {
    }
  }

  /** The rounds can be built exactly when every player cell of every line is readable. */
  lemma RowsReadable(header: seq<string>, rows: seq<seq<string>>, players: seq<string>)
    ensures RowsRounds(header, rows, players).Ok?
        <==> forall i, j :: 0 <= i < |rows| && 0 <= j < |players| ==> CellReadable(header, rows[i], players[j])
  {
    RowsRoundsOk(header, rows, players);
    forall i | 0 <= i < |rows|
      ensures RowRound(header, rows[i], i, players).Ok?
          <==> forall j :: 0 <= j < |players| ==> CellReadable(header, rows[i], players[j])
    {
      RowReadable(header, rows[i], i, players);
    }
  }

  /**
   * Import is all-or-nothing: it succeeds exactly when the text can be read and every player
   * cell of every data line is readable; a single empty or non-integer player cell rejects it.
   */
  lemma ImportSucceedsIff(text: string, players: seq<string>)
    ensures DecodeCsv(text, players).Ok?
        <==> ReadCsv(text).Ok? &&
             forall i, j :: 0 <= i < |ReadCsv(text).value.rows| && 0 <= j < |players| ==>
               CellReadable(ReadCsv(text).value.header, ReadCsv(text).value.rows[i], players[j])
  {
    if ReadCsv(text).Ok? {
      var f := ReadCsv(text).value;
      assert DecodeCsv(text, players) == RowsRounds(f.header, f.rows, players);
      RowsReadable(f.header, f.rows, players);
    }
  }

  /** A player column missing from the text reads as 0 in every imported round. */
  lemma MissingColumnReadsZero(text: string, players: seq<string>, j: nat)
    requires DistinctNames(players) && j < |players|
    requires ReadCsv(text).Ok? && players[j] !in ReadCsv(text).value.header
    requires DecodeCsv(text, players).Ok?
    ensures forall i :: 0 <= i < |DecodeCsv(text, players).value| ==> DecodeCsv(text, players).value[i][players[j]] == 0
  {
    var f := ReadCsv(text).value;
    var rs := DecodeCsv(text, players).value;
    forall i | 0 <= i < |rs| ensures rs[i][players[j]] == 0 {
      var vs := RowScores(f.header, f.rows[i], i, players).value;
      assert Cell(f.header, f.rows[i], i, players[j]) == Ok(vs[j]);
    }
  }

  lemma {:induction false} RowScoresCongruent(header: seq<string>, row: seq<string>, row': seq<string>, line: nat, players: seq<string>)
    requires forall j :: 0 <= j < |players| ==> Cell(header, row, line, players[j]) == Cell(header, row', line, players[j])
    ensures RowScores(header, row, line, players) == RowScores(header, row', line, players)
  {
    if players != [] {
      var n := |players| - 1;
      assert forall j :: 0 <= j < n ==> players[..n][j] == players[j];
      RowScoresCongruent(header, row, row', line, players[..n]);
    }
  }

  lemma {:induction false} RowsRoundsCongruent(header: seq<string>, rows: seq<seq<string>>, rows': seq<seq<string>>, players: seq<string>)
    requires |rows| == |rows'|
    requires forall i :: 0 <= i < |rows| ==> RowRound(header, rows[i], i, players) == RowRound(header, rows'[i], i, players)
    ensures RowsRounds(header, rows, players) == RowsRounds(header, rows', players)
  {
    if rows != [] {
      var n := |rows| - 1;
      assert forall i :: 0 <= i < n ==> rows[..n][i] == rows[i] && rows'[..n][i] == rows'[i];
      RowsRoundsCongruent(header, rows[..n], rows'[..n], players);
    }
  }

  /**
   * The round column is not read: whatever a data line holds in a column that is no player's,
   * such as `Round`, the imported rounds are the same (the table renumbers them 1..N).
   */
  lemma RoundColumnIgnored(header: seq<string>, rows: seq<seq<string>>, players: seq<string>, i: nat, c: nat, v: string)
    requires i < |rows| && c < |rows[i]| && c < |header| && header[c] !in players
    ensures RowsRounds(header, rows[i := rows[i][c := v]], players) == RowsRounds(header, rows, players)
  {
    var rows' := rows[i := rows[i][c := v]];
    forall k | 0 <= k < |rows| ensures RowRound(header, rows'[k], k, players) == RowRound(header, rows[k], k, players) {
      if k == i {
        forall j | 0 <= j < |players|
          ensures Cell(header, rows'[k], k, players[j]) == Cell(header, rows[k], k, players[j])
        {
          match IndexOf(header, players[j])
          case None =>
          case Some(d) => assert d != c;
        }
        RowScoresCongruent(header, rows'[k], rows[k], k, players);
      }
    }
    RowsRoundsCongruent(header, rows', rows, players);
  }

  // ---------- Export then import ----------

  /** A name the export writes without quoting: not blank, and free of separators, quotes and line breaks. */
  predicate PlainName(p: string)
  {
    p != "" && ',' !in p && '\n' !in p && '\r' !in p && '"' !in p
  }

  lemma {:induction false} JoinAvoids(fields: seq<string>, sep: char, c: char)
    requires |fields| >= 1 && c != sep
    requires forall k :: 0 <= k < |fields| ==> c !in fields[k]
    ensures c !in Join(fields, sep)
  {
    if |fields| > 1 {
      JoinAvoids(fields[1..], sep, c);
    }
  }

  lemma IntToStringPlain(n: int)
    ensures ',' !in IntToString(n) && '\n' !in IntToString(n)
  {
    var s := IntToString(n);
    forall k | 0 <= k < |s| ensures s[k] != ',' && s[k] != '\n' {
    }
  }

  lemma CellsPlain(xs: seq<int>)
    ensures forall k :: 0 <= k < |xs| ==> ',' !in Cells(xs)[k] && '\n' !in Cells(xs)[k]
  {
    forall k | 0 <= k < |xs| ensures ',' !in Cells(xs)[k] && '\n' !in Cells(xs)[k] {
      IntToStringPlain(xs[k]);
    }
  }

  /** The fields of an exported row line: its round number and its scores. */
  lemma RowLineFields(row: Row)
    ensures !Blank(RowLine(row)) && '\n' !in RowLine(row)
    ensures Split(RowLine(row), ',') == [IntToString(row.round)] + Cells(row.scores)
  {
    var fields := [IntToString(row.round)] + Cells(row.scores);
    IntToStringPlain(row.round);
    CellsPlain(row.scores);
    assert forall k :: 1 <= k < |fields| ==> fields[k] == Cells(row.scores)[k - 1];
    SplitJoin(fields, ',');
    JoinAvoids(fields, ',', '\n');
    JoinHead(fields, ',');
    assert RowLine(row)[0] == IntToString(row.round)[0];
  }

  lemma HeaderLineFields(players: seq<string>)
    requires forall j :: 0 <= j < |players| ==> PlainName(players[j])
    ensures !Blank(HeaderLine(players)) && '\n' !in HeaderLine(players)
    ensures Split(HeaderLine(players), ',') == [RoundColumn] + players
  {
    var fields := [RoundColumn] + players;
    assert forall k :: 1 <= k < |fields| ==> fields[k] == players[k - 1];
    SplitJoin(fields, ',');
    JoinAvoids(fields, ',', '\n');
    JoinHead(fields, ',');
    assert HeaderLine(players)[0] == 'R';
  }

  /** The reader finds the exported lines again: none of them is blank or holds a newline. */
  lemma ExportLines(table: seq<Row>, players: seq<string>)
    requires forall j :: 0 <= j < |players| ==> PlainName(players[j])
    ensures NonBlank(Split(Export(table, players), '\n')) == [HeaderLine(players)] + RowLines(table)
  {
    var lines := [HeaderLine(players)] + RowLines(table);
    HeaderLineFields(players);
    forall k | 0 <= k < |lines| ensures !Blank(lines[k]) && '\n' !in lines[k] {
      if k > 0 {
        assert lines[k] == RowLine(table[k - 1]);
        RowLineFields(table[k - 1]);
      }
    }
    LinesRoundTrip(lines);
  }

  /** The fields of every exported row line: its round number and its scores. */
  lemma RowLinesFields(table: seq<Row>)
    ensures forall i :: 0 <= i < |table| ==>
              Split(RowLines(table)[i], ',') == [IntToString(table[i].round)] + Cells(table[i].scores)
  {
    forall i | 0 <= i < |table|
      ensures Split(RowLines(table)[i], ',') == [IntToString(table[i].round)] + Cells(table[i].scores)
    {
      RowLineFields(table[i]);
    }
  }

  /** What the reader finds in a text, given its non-blank lines. */
  lemma ReadLines(text: string, lines: seq<string>)
    requires NonBlank(Split(text, '\n')) == lines && lines != []
    requires forall i :: 1 <= i < |lines| ==> |Split(lines[i], ',')| <= |Split(lines[0], ',')|
    ensures ReadCsv(text).Ok?
    ensures ReadCsv(text).value.header == Split(lines[0], ',')
    ensures |ReadCsv(text).value.rows| == |lines| - 1
    ensures forall i :: 0 <= i < |lines| - 1 ==> ReadCsv(text).value.rows[i] == Split(lines[i + 1], ',')
  {
    var header, rows := Split(lines[0], ','), FieldsOf(lines[1..]);
    forall i | 0 <= i < |rows| ensures rows[i] == Split(lines[i + 1], ',') && |rows[i]| <= |header| {
      assert lines[1..][i] == lines[i + 1];
    }
    assert ReadCsv(text) == Ok(Frame(header, rows));
  }

  /** Reading back an exported table finds the header and the fields of each row. */
  lemma ReadExport(table: seq<Row>, players: seq<string>)
    requires forall j :: 0 <= j < |players| ==> PlainName(players[j])
    requires Shaped(table, |players|)
    ensures ReadCsv(Export(table, players)).Ok?
    ensures ReadCsv(Export(table, players)).value.header == [RoundColumn] + players
    ensures |ReadCsv(Export(table, players)).value.rows| == |table|
    ensures forall i :: 0 <= i < |table| ==>
              ReadCsv(Export(table, players)).value.rows[i] == [IntToString(table[i].round)] + Cells(table[i].scores)
  {
    var rowLines := RowLines(table);
    var lines := [HeaderLine(players)] + rowLines;
    ExportLines(table, players);
    HeaderLineFields(players);
    RowLinesFields(table);
    forall i | 1 <= i < |lines|
      ensures Split(lines[i], ',') == [IntToString(table[i - 1].round)] + Cells(table[i - 1].scores)
      ensures |Split(lines[i], ',')| <= |Split(lines[0], ',')|
    {
      assert lines[i] == rowLines[i - 1];
    }
    ReadLines(Export(table, players), lines);
  }

  lemma HeaderIndex(players: seq<string>, j: nat)
    requires DistinctNames(players) && RoundColumn !in players && j < |players|
    ensures IndexOf([RoundColumn] + players, players[j]) == Some(j + 1)
  {
    var header := [RoundColumn] + players;
    assert header[j + 1] == players[j];
    var r := IndexOf(header, players[j]);
    var c := r.value;
    assert c <= j + 1;
    assert c != 0 by {
      assert header[0] == RoundColumn;
    }
    assert header[c] == players[c - 1];
  }

  lemma ExportedCell(r: Round, players: seq<string>, line: nat, row: seq<string>, j: nat)
    requires DistinctNames(players) && RoundColumn !in players && Keyed(r, players) && j < |players|
    requires |row| == |players| + 1 && row[j + 1] == IntToString(r[players[j]])
    ensures Cell([RoundColumn] + players, row, line, players[j]) == Ok(r[players[j]])
  {
    HeaderIndex(players, j);
    ParseIntToString(r[players[j]]);
  }

  /** Every player cell of an exported line of a keyed round reads back as that player's score. */
  lemma ExportedCells(r: Round, players: seq<string>, line: nat, row: seq<string>, xs: seq<int>)
    requires DistinctNames(players) && RoundColumn !in players && Keyed(r, players)
    requires |xs| == |players| && forall j :: 0 <= j < |players| ==> xs[j] == ScoreOf(r, players[j])
    requires |row| == |players| + 1 && row[1..] == Cells(xs)
    ensures forall j :: 0 <= j < |players| ==> players[j] in r && Cell([RoundColumn] + players, row, line, players[j]) == Ok(r[players[j]])
  {
    forall j | 0 <= j < |players|
      ensures players[j] in r && Cell([RoundColumn] + players, row, line, players[j]) == Ok(r[players[j]])
    {
      assert players[j] in NameSet(players);
      assert xs[j] == r[players[j]];
      assert row[j + 1] == row[1..][j] == Cells(xs)[j];
      ExportedCell(r, players, line, row, j);
    }
  }

  /** A line whose player cells read as a keyed round's scores imports as that round. */
  lemma RowReadsBack(r: Round, header: seq<string>, players: seq<string>, line: nat, row: seq<string>)
    requires DistinctNames(players) && Keyed(r, players)
    requires forall j :: 0 <= j < |players| ==> players[j] in r && Cell(header, row, line, players[j]) == Ok(r[players[j]])
    ensures RowRound(header, row, line, players) == Ok(r)
  {
    RowScoresOk(header, row, line, players);
    var vs := RowScores(header, row, line, players).value;
    var m := RoundOf(players, vs);
    assert m.Keys == r.Keys;
    forall p | p in m ensures m[p] == r[p] {
      assert p in NameSet(players);
      var j :| 0 <= j < |players| && players[j] == p;
      assert m[players[j]] == vs[j];
    }
    assert m == r;
  }

  /** An exported line of a keyed round reads back as that round. */
  lemma ExportedRowReadsBack(r: Round, players: seq<string>, line: nat, row: seq<string>, xs: seq<int>)
    requires DistinctNames(players) && RoundColumn !in players && Keyed(r, players)
    requires |xs| == |players| && forall j :: 0 <= j < |players| ==> xs[j] == ScoreOf(r, players[j])
    requires |row| == |players| + 1 && row[1..] == Cells(xs)
    ensures RowRound([RoundColumn] + players, row, line, players) == Ok(r)
  {
    ExportedCells(r, players, line, row, xs);
    RowReadsBack(r, [RoundColumn] + players, players, line, row);
  }

  /** The exported lines of keyed rounds rebuild those rounds. */
  lemma ExportedRowsReadBack(rounds: seq<Round>, players: seq<string>, rows: seq<seq<string>>)
    requires DistinctNames(players) && RoundColumn !in players
    requires forall i :: 0 <= i < |rounds| ==> Keyed(rounds[i], players)
    requires |rows| == |rounds|
    requires forall i :: 0 <= i < |rows| ==>
               rows[i] == [IntToString(Table(rounds, players)[i].round)] + Cells(Table(rounds, players)[i].scores)
    ensures RowsRounds([RoundColumn] + players, rows, players) == Ok(rounds)
  {
    var header := [RoundColumn] + players;
    var table := Table(rounds, players);
    forall i | 0 <= i < |rounds| ensures RowRound(header, rows[i], i, players) == Ok(rounds[i]) {
      var xs := table[i].scores;
      assert |xs| == |players| && forall j :: 0 <= j < |players| ==> xs[j] == ScoreOf(rounds[i], players[j]);
      assert rows[i][1..] == Cells(xs);
      ExportedRowReadsBack(rounds[i], players, i, rows[i], xs);
    }
    RowsRoundsOk(header, rows, players);
    var rs := RowsRounds(header, rows, players).value;
    assert forall i :: 0 <= i < |rs| ==> rs[i] == rounds[i];
    assert rs == rounds;
  }

  /**
   * Export followed by import, under the same player names, gives back the ledger's rounds;
   * the round numbers written to the text are not read.
   */
  lemma ExportImportRoundTrip(rounds: seq<Round>, players: seq<string>)
    requires PlayerNames(players)
    requires forall j :: 0 <= j < |players| ==> PlainName(players[j])
    requires forall i :: 0 <= i < |rounds| ==> Keyed(rounds[i], players)
    ensures DecodeCsv(Export(Table(rounds, players), players), players) == Ok(rounds)
  {
    var table := Table(rounds, players);
    ReadExport(table, players);
    var f := ReadCsv(Export(table, players)).value;
    ExportedRowsReadBack(rounds, players, f.rows);
  }
}

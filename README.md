# Card game scoresheet — a Dafny model of its scoring engine

The scoresheet keeps score for a four-player card game. Players enter one score each per round.
The sheet keeps running totals and ranks the players by lowest cumulative total, since the lowest total
wins. The game can be exported to CSV and read back in. This project models the engine under the web
form, in five modules:

- `Session` (`session.dfy`): the session's list of rounds as a class `Ledger`. Its fixed player names
  are a `const`, and its rounds are a `seq<Round>` field. Exactly four methods change the rounds:
  add a round, delete the last round, reset, and import. The other methods only read the state: the
  score table, the leaderboard with the current leader, and the CSV text for download.
- `Scoresheet` (`scoresheet.dfy`): a round is a dictionary from player name to score
  (`map<string, int>`). The score table numbers the rounds 1..N and reads each player's cell, with a
  missing entry counting 0. It is a method with a loop over the player columns, proved against the
  function `Table`. The module also holds each player's total (a column sum) and the leaderboard: a
  stable insertion sort by ascending total, with ranks 1..N.
- `Csv` (`csv.dfy`): the exported text, and the import, which returns a `Result`. Import works in two
  steps. First the text is read: lines made only of spaces and tabs are skipped, the first remaining line is
  the header, and every line is split into comma-separated fields. Then each
  data line becomes a round, using only the configured players' columns, looked up by name. This step
  is the method `BuildRounds`, a loop that appends one round per line and is proved against the
  function `RowsRounds`. `ImportRounds` chains the two steps and is proved against `DecodeCsv`. The
  module proves the export/import round trip, that import is all-or-nothing, that a missing column
  reads 0, that the `Round` column is never read, that blank lines are ignored wherever they stand,
  and that a text of nothing but spaces, tabs and newlines is rejected.
- `Text` (`text.dfy`): splitting and joining on a separator, assembling lines, and writing and reading
  decimal integers, each with its round-trip lemma.
- `Scenarios` (`scenarios.dfy`): worked examples computed from the definitions: the tie-order
  example for the leaderboard, a non-integer player cell rejecting an import, and a text of spaces
  rejecting an import.

Text is `seq<char>`. Scores are unbounded integers. Three facts about the code shape the model:

- Import looks up each player's column by the player's current name, not by its position
  (card_scoresheet.py:145).
- Import accepts negative scores; only the entry widgets stop at 0. So scores are `int`, not `nat`.
- A round is a dictionary keyed by name, so two players with the same name would share one entry
  (card_scoresheet.py:79). The model assumes the four names are distinct.

## Model

| member | source | states |
|---|---|---|
| `Scoresheet.RoundOf` | card_scoresheet.py:79 | the dictionary literal of a round has exactly the four player names as keys, and with distinct names each name maps to the score entered for it |
| `Scoresheet.Table` | card_scoresheet.py:12-22 | the score table has one row per round, row i is numbered i + 1, and each row has one cell per player |
| `Scoresheet.Recalc` | card_scoresheet.py:10-22 | no rounds give an empty table; otherwise there is one row per round, the Round column is exactly 1..N, and every player cell is the stored score or 0 when the round has no entry for that player; the result is `Table(rounds, players)` |
| `Scoresheet.TableAppend` | card_scoresheet.py:21 | adding a round appends one row numbered after all others and leaves the earlier rows unchanged, because numbering is by position |
| `Scoresheet.ColumnSum` | card_scoresheet.py:28 | the sum of one player column: 0 for an empty table, never negative when no score is negative |
| `Scoresheet.Totals` | card_scoresheet.py:25-28 | there is one total per player, and every total is 0 when the table is empty |
| `Scoresheet.TotalsAreRoundSums` | card_scoresheet.py:28 | each player's total equals the sum of that player's scores over all rounds, a missing entry counting 0 |
| `Scoresheet.PlayerTotalAppend` | card_scoresheet.py:28 | a new round adds exactly its score to each player's total |
| `Scoresheet.ConsSorted` | card_scoresheet.py:31 | an entry no larger than every entry of a sorted list can be put in front of it and the list stays sorted |
| `Scoresheet.Insert` | card_scoresheet.py:31 | inserting an entry before the first entry whose total is not smaller makes the list one entry longer; what it contains and its order are `InsertSpec` |
| `Scoresheet.InsertPerm` | card_scoresheet.py:31 | inserting an entry adds exactly that entry to the multiset of entries |
| `Scoresheet.InsertAtLeast` | card_scoresheet.py:31 | insertion keeps any lower bound on totals that both the entry and the list respect |
| `Scoresheet.InsertSorted` | card_scoresheet.py:31 | inserting into a list sorted by total gives a sorted list |
| `Scoresheet.InsertSpec` | card_scoresheet.py:31 | inserting an entry adds exactly that entry (a multiset statement) and keeps a list sorted by total sorted |
| `Scoresheet.SortByTotal` | card_scoresheet.py:31 | the ascending sort by total keeps one entry per input entry; sortedness, permutation and stability are `SortByTotalSpec` and `SortKeepsTies` |
| `Scoresheet.SortByTotalSpec` | card_scoresheet.py:31 | the sort by total produces a list that is non-decreasing in total and a permutation of its input |
| `Scoresheet.InsertWithTotal` | card_scoresheet.py:31 | among entries of an equal total, insertion puts the new entry first, so it keeps the order of the input |
| `Scoresheet.SortKeepsTies` | card_scoresheet.py:31 | for every total t, the entries with total t come out of the sort in the order they went in: the sort is stable |
| `Scoresheet.Standings` | card_scoresheet.py:30-36 | the leaderboard has one row per player |
| `Scoresheet.StandingsSpec` | card_scoresheet.py:30-35 | leaderboard ranks are exactly 1..N in order and totals are non-decreasing by rank; the rows are a permutation of the (player, total) pairs, and players with equal totals keep player-list order |
| `Scoresheet.CurrentLeader` | card_scoresheet.py:116-117 | a leader is reported exactly when the table has at least one round |
| `Scoresheet.LeaderHasLowestTotal` | card_scoresheet.py:116-117 | the reported leader is one of the players, and no player has a lower total |
| `Text.Split` | card_scoresheet.py:140 | splitting yields at least one piece, and no piece contains the separator |
| `Text.SplitJoin` | card_scoresheet.py:39 | splitting joined fields gives the fields back when none contains the separator |
| `Text.JoinSplit` | card_scoresheet.py:140 | joining the pieces of a split restores the text |
| `Text.JoinHead` | card_scoresheet.py:39 | a joined line starts with its first field |
| `Text.LinesRoundTrip` | card_scoresheet.py:140 | the non-blank lines of newline-terminated lines are those lines |
| `Text.Lines` | card_scoresheet.py:39 | assembled text is empty exactly when there are no lines, and otherwise starts with the first line followed by a newline and ends with a newline |
| `Text.NonBlank` | card_scoresheet.py:140 | the kept lines are exactly the input lines that are not all spaces and tabs, and the input is never shorter |
| `Text.NonBlankConcat` | card_scoresheet.py:140 | skipping blank lines works piece by piece over a concatenation |
| `Text.NonBlankOfBlanks` | card_scoresheet.py:140 | nothing is kept from lines that are all blank |
| `Text.NonBlankSkips` | card_scoresheet.py:140 | removing one blank line from between others leaves the kept lines unchanged |
| `Text.LinesNonBlank` | card_scoresheet.py:140 | the lines the reader keeps from assembled text are the non-blank lines that were assembled |
| `Text.SplitChars` | card_scoresheet.py:140 | every character of a split piece comes from the split text |
| `Text.NatToString` | card_scoresheet.py:39 | a written natural number is a non-empty string of decimal digits |
| `Text.IntToString` | card_scoresheet.py:39 | a written integer is non-empty, all digits except a leading '-' |
| `Text.ParseInt` | card_scoresheet.py:145 | a cell is an integer exactly when it is one or more decimal digits, optionally after one '-' or '+' |
| `Text.ParseIntToString` | card_scoresheet.py:145 | reading a written integer gives the same integer |
| `Csv.ReadCsv` | card_scoresheet.py:140 | a text that is read successfully has no data line with more fields than the header |
| `Csv.ReadLines` | card_scoresheet.py:140 | given its non-blank lines, a text reads with the first line as header and every later line as a data line split at its commas by `FieldsOf`, unless a data line has more fields than the header |
| `Csv.DecodeCsv` | card_scoresheet.py:140-146 | a text that cannot be read fails the import; a successful import gives one round per data line, each keyed by exactly the configured players |
| `Csv.SameLinesSameImport` | card_scoresheet.py:140 | two texts with the same non-blank lines import identically |
| `Csv.BlankTextRejected` | card_scoresheet.py:140-151 | a text of only spaces, tabs and newlines fails with `NoColumns`, so the ledger keeps its rounds |
| `Csv.BlankLineIgnored` | card_scoresheet.py:140 | inserting a line of only spaces and tabs anywhere in the text, before the header or among the data, leaves the import's result unchanged |
| `Csv.IndexOf` | card_scoresheet.py:145 | finds the first column with the given header; finds nothing exactly when no column has that header |
| `Csv.Cell` | card_scoresheet.py:145 | a player with no column reads 0; a failing cell reports that row and that player |
| `Csv.RowScores` | card_scoresheet.py:145 | a line read successfully gives one score per player, each the value of that player's cell |
| `Csv.RowRound` | card_scoresheet.py:145 | an imported round has exactly the configured players as keys |
| `Csv.RowsRounds` | card_scoresheet.py:143-146 | a successful import gives one round per data line, in line order, each the round of its line |
| `Csv.FailedPrefix` | card_scoresheet.py:144-146 | once a line fails, the import fails with that line's error, whatever follows |
| `Csv.BuildRounds` | card_scoresheet.py:143-146 | the loop appends one round per data line and stops at the first failing line; its result is `RowsRounds(header, rows, players)` |
| `Csv.ImportRounds` | card_scoresheet.py:139-147 | the text is read first and a text that cannot be read fails as a whole; then the rounds are built line by line; the result is `DecodeCsv(text, players)` |
| `Csv.RowScoresOk` | card_scoresheet.py:145 | a line can be read exactly when every one of its player cells can |
| `Csv.RowsRoundsOk` | card_scoresheet.py:143-146 | the rounds can be built exactly when every line can |
| `Csv.RowReadable` | card_scoresheet.py:145 | a line yields a round exactly when each of its player cells is absent or an integer |
| `Csv.RowsReadable` | card_scoresheet.py:143-146 | the rounds can be built exactly when every player cell of every line is absent or an integer |
| `Csv.ImportSucceedsIff` | card_scoresheet.py:139-151 | import succeeds if and only if the text can be read and every player cell of every data line is absent or an integer, so one empty or text cell rejects the whole import |
| `Csv.MissingColumnReadsZero` | card_scoresheet.py:145 | a player column absent from the header reads as 0 in every imported round |
| `Csv.RowScoresCongruent` | card_scoresheet.py:145 | a line's scores depend only on the player cells the lookup reads |
| `Csv.RowsRoundsCongruent` | card_scoresheet.py:143-146 | the imported rounds depend only on the round each line yields |
| `Csv.RoundColumnIgnored` | card_scoresheet.py:141-145 | changing a data line's cell in any column that is no player's, such as Round, leaves the import unchanged |
| `Csv.JoinAvoids` | card_scoresheet.py:39 | joining fields adds no character other than the separator |
| `Csv.IntToStringPlain` | card_scoresheet.py:39 | a written integer holds no comma and no newline |
| `Csv.RowLineFields` | card_scoresheet.py:39 | an exported row line is non-empty, has no newline, and splits into its round number and its scores |
| `Csv.RowLinesFields` | card_scoresheet.py:39 | every exported row line splits into its round number and its scores |
| `Csv.HeaderLineFields` | card_scoresheet.py:39 | the exported header splits into `Round` followed by the player names |
| `Csv.ReadExport` | card_scoresheet.py:39 | reading exported text gives the header `Round, p1..p4` and, for each table row, the round number and scores as written |
| `Csv.Export` | card_scoresheet.py:38-39 | the exported text starts with the header line and a newline, and ends with a newline |
| `Csv.ExportLines` | card_scoresheet.py:39 | the reader finds exactly the exported header line and row lines again, none of them blank |
| `Csv.HeaderIndex` | card_scoresheet.py:145 | in an exported header, player j is found in column j + 1 |
| `Csv.ExportedCell` | card_scoresheet.py:145 | a player's exported cell reads back as that player's score |
| `Csv.ExportedCells` | card_scoresheet.py:145 | every player cell of an exported line reads back as that player's score |
| `Csv.RowReadsBack` | card_scoresheet.py:145 | a line whose player cells read as a round's scores imports as that same round |
| `Csv.ExportedRowReadsBack` | card_scoresheet.py:145 | an exported line of a round imports as that same round |
| `Csv.ExportedRowsReadBack` | card_scoresheet.py:143-146 | the exported lines of the rounds rebuild exactly those rounds, in order |
| `Csv.ExportImportRoundTrip` | card_scoresheet.py:140-147 | reading the text downloaded at line 39 back in under the same plain, distinct player names gives exactly the original rounds; Round numbers are not read and are renumbered by the table |
| `Session.Ledger.constructor` | card_scoresheet.py:42-43 | a session starts with no rounds |
| `Session.Ledger.AddRound` | card_scoresheet.py:79 | the ledger grows by exactly one round, the new last round maps each current player name to the score entered for it, and all earlier rounds are unchanged |
| `Session.Ledger.DeleteLastRound` | card_scoresheet.py:104-107 | on an empty ledger nothing changes; otherwise exactly the final round is removed and the prefix is intact |
| `Session.Ledger.Reset` | card_scoresheet.py:57-58 | the ledger is empty afterwards |
| `Session.Ledger.ImportCsv` | card_scoresheet.py:139-151 | on success the rounds become the imported rounds; on failure the error is returned and the rounds are exactly as before |
| `Session.Ledger.ScoreTable` | card_scoresheet.py:88-89 | the shown table is `Table(rounds, players)`, one row per round, numbered 1..N |
| `Session.Ledger.Leaderboard` | card_scoresheet.py:111-118 | the leaderboard and the leader are computed from the current table, and a leader exists exactly when there is a round |
| `Session.Ledger.ExportCsv` | card_scoresheet.py:127-130 | the download is the CSV of the current table |
| `Session.ExportThenImport` | card_scoresheet.py:127-147 | downloading the CSV and importing it without changing the player names succeeds and leaves the rounds unchanged |
| `Scenarios.StandingsExample` | card_scoresheet.py:24-36 | rounds (5,3,5,1) and (2,2,2,2) for A, B, C, D give totals 7, 5, 7, 3 and the leaderboard D, B, A, C; A is ahead of C on their tie |
| `Scenarios.ImportTextCellExample` | card_scoresheet.py:145 | a line whose B cell is `abc` makes the import fail |
| `Scenarios.SpacesOnlyImportExample` | card_scoresheet.py:140-151 | importing the text `"   "` fails with `NoColumns` |

## Left out

- Everything in the web form is left out: page set-up, sidebar, widgets, buttons, reruns, messages,
  the download button and the expander (lines 5-8 and 46-135). So is resetting the number inputs to 0
  after a round is added. The ledger's methods are what those buttons call.
- The `.encode("utf-8")` at line 39 is left out. The model's text is characters, not bytes.
- Player names are taken as given. The stripping and default names of line 53 are not modelled. The
  ledger assumes four names that never change, are not blank, are distinct, and are not `Round`.
- Scoresheet.Recalc: requires that every player is a key of some round and that no player is named
  `Round`. In the source, a player with no column raises an uncaught KeyError at line 19, and a player
  named `Round` has their column overwritten by line 21. Inside a `Ledger` both always hold.
- Scoresheet.Recalc: coerces only missing entries to 0. Both places that store a round (lines 79 and
  145) have already applied `int(...)`, so a non-numeric cell cannot reach the table.
- Scoresheet.SortByTotal: the leaderboard's tie order is a modelling choice. The sort is stable, so
  equal totals keep player-list order. The source calls pandas' default sort, which the library does
  not document as stable.
- Scores are unbounded integers. Pandas and NumPy store the table and totals as 64-bit integers
  (`astype(int)`, `sum`), so overflow and wrap-around are not modelled. Nor is the widgets'
  `min_value=0`, which import does not enforce.
- Csv.ReadCsv: models the reader for plain integer data only. Left out:
  - quoting;
  - carriage-return line endings (a blank line is one of only spaces and tabs; a line holding a
    carriage return or another white-space character is not treated as blank, so a paste made only
    of `"\r"` or `"\r\n"` lines imports as zero rounds in the model, where the source rejects it and
    keeps the game);
  - renaming of empty and duplicate header fields (a name is found at its first occurrence, which is
    also where the reader's renaming leaves it);
  - the implicit index column used when data lines have one field more than the header (the model
    rejects such lines);
  - the reader's type inference.
- Text.ParseInt: accepts only an optional sign followed by decimal digits. So the model rejects cells
  that pandas would convert: floats (`2.7` becomes 2), booleans, and numbers with surrounding
  whitespace.
- Csv.ExportImportRoundTrip: proved only for player names with no comma, quote or line break, since
  the writer would quote such names. It also needs distinct names and no player named `Round`.
- Csv.ImportError: records the kind of failure and, for a bad cell, its data line and player. The
  library's message text is not modelled.
- Export is offered only when the table is non-empty (line 124). `ExportCsv` has no such restriction:
  this is UI gating.

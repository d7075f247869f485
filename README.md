# Sudoku solving engine — a Dafny model

This project models the solving engine of the Sudoku program in
`Sudoku/Program.cs`: the `Cell`, `Map` and `Extensions` classes. A `Map`
holds a 9x9 grid of cells. Each cell has a value (0 means unknown), a set
of notes (its candidate digits) and the indices of its row, column and 3x3
box ("nine cell"). `Map.Init` builds one dictionary per kind of group.
`Map.Analyze` repeats deduction passes of `Cell.UpdateNotes` over the
grid. When a pass fixes nothing, it guesses: it tries the notes of the
first undecided cell, in order, each on a deep copy of the map.

Modules:

- `Groups`: cell positions and the row, column and box groups, as index arithmetic.
- `Rules`: the specification functions on a snapshot of the values, a `Board`
  (`map<Pos, int>`). It defines the value sets of `Extensions`, the candidate
  set, `CanSet`, the hidden-single probe over a box and the whole effect of
  `Cell.UpdateNotes` (`AfterUpdate`).
- `Parsing`: reading the nine input strings (`Map(string[])`).
- `Extensions`: `CellValues` and `CellReverseValues` as loops over the value array.
- `Analysis`: what `Map.Analyze` computes, as functions of a snapshot of the
  values and the notes (`Board`, `NoteMap`):
  - `Visit` is `Cell.UpdateNotes` on one unknown cell;
  - `RowScan` and `Pass` are the column and row loops of a deduction pass,
    stopping at the first visited cell that became known;
  - `RoundStep` is one iteration of the outer loop: pass, error check, guess;
  - `GuessStep`, `PickFrom` and `Attempt` are the guess, the note loop and
    one try of a note on a copy;
  - `Run` is the whole of `Map.Analyze`. A copy made by the guess is analysed
    by `Run` itself.
- `Solver`: the `Map` class. Cells are not objects here:
  - a cell's `Value` is `values[r, c]`;
  - its `Notes` is `notes[r, c]`;
  - its three indices are `stamps[r, c]`;
  - the dictionaries map a group index to the positions of its cells.

  Every method that changes the grid is proved against `Rules` or `Analysis`:
  - `UpdateNotes` leaves exactly `AfterUpdate(old board, cell)` and the
    cell's candidates as its notes.
  - `VisitCell`, `ScanRow`, `DeductionPass`, `Round`, `Guess` and `Analyze`
    leave exactly the values, notes and outcome that `Visit`, `RowScan`,
    `Pass`, `RoundStep`, `GuessStep` and `Run` give for the old values and
    notes.
  - The note loop (`TryNotes`) stops at the first note whose copy ends
    without error, after every earlier copy ended in error; it runs past
    the last note exactly when every copy ended in error.
  - Every method keeps the given and already-fixed values (`OnlyFillsZeros`).
  - `Analyze` terminates: each round strictly shrinks the set of unknown cells.
  - When `Analyze` ends normally, the grid is full or some cell is in error.

  These methods take a ghost parameter of type `Engine`. It bundles the visit,
  row scan, pass, round and run as function values, and `IsEngine` requires
  them to be `Visit`, `RowScan`, `Pass`, `RoundStep` and `Run`.
  `EngineAtIsEngine` shows that such an engine exists. The methods' proofs
  use the lemmas about these functions (`RowScanVisit`, `PassOn`, `RunOn`,
  ...) one step at a time, without unfolding the recursive definitions.

Two behaviours follow the code as written:

- **A pass restarts only when the visited cell itself became known** (`Sudoku/Program.cs:234`).
  The test after UpdateNotes looks at the visited cell alone, yet it misses no
  write elsewhere. While the visited cell is unknown it can take every one of
  its notes. So the hidden-single probe writes into another cell of the box
  only after the visited cell has been fixed. A visit that leaves the cell
  unknown therefore writes no value at all (`Analysis.VisitQuiet`).
- **Guessing can fail.** Suppose every note of the guessed cell leads its copy
  to an error. The loop then ends with `noteIndex == notes.Count`, and the read
  `notes[noteIndex]` (`Sudoku/Program.cs:279`) throws. No value is written. The
  model makes this the outcome `ArgumentOutOfRange` of `Analyze`, the exception
  that the indexer of `List<int>` raises. Like the exception, it propagates
  out of a copy's analysis into the caller's guess.

## Model

| member | source | states |
|---|---|---|
| Groups.RowGroup | Sudoku/Program.cs:167-176 | the row list of index r holds the nine cells of row r, each once |
| Groups.ColumnGroup | Sudoku/Program.cs:178-187 | the column list of index c holds the nine cells of column c, each once |
| Groups.NineCellGroup | Sudoku/Program.cs:189-206 | box list i holds exactly the nine cells whose box index is i, each once |
| Groups.ExactlyOneGroupEach | Sudoku/Program.cs:165-215 | every cell lies in exactly one row list, one column list and one box list: those of its own indices |
| Groups.BoxCell | Sudoku/Program.cs:193-199 | the k-th cell that AddNineCell's nested loops add to box (rowIndex, columIndex) is cell k of that box in row-major order |
| Extensions.CellValues | Sudoku/Program.cs:362-374 | a digit is in the result iff it is non-zero and some listed cell holds it |
| Extensions.CellReverseValues | Sudoku/Program.cs:376-383 | a value is in the result iff it is a digit 1-9 that no listed cell holds |
| Rules.ValuesIn | Sudoku/Program.cs:362-374 | Extensions.CellValues on a snapshot: the set of non-zero values held by the listed cells |
| Rules.ReverseValuesIn | Sudoku/Program.cs:376-383 | Extensions.CellReverseValues on a snapshot: the digits 1 to 9 minus the values of the listed cells |
| Rules.InValuesOfRow | Sudoku/Program.cs:33 | the values of the row list are exactly the non-zero values of the cells of that row |
| Rules.InValuesOfColumn | Sudoku/Program.cs:39 | the values of the column list are exactly the non-zero values of the cells of that column |
| Rules.InValuesOfBox | Sudoku/Program.cs:45 | the values of the box list are exactly the non-zero values of the cells of that box |
| Rules.Candidates | Sudoku/Program.cs:30-49 | the notes UpdateNotes builds for a cell: the digits missing from its row, minus the values of its column, minus the values of its box |
| Rules.CandidatesExact | Sudoku/Program.cs:30-49 | a digit is a computed note of a cell iff no cell of its row, column or box holds it |
| Rules.CanSet | Sudoku/Program.cs:72-83 | Cell.CanSet: the cell is unknown and no cell of its row or its column holds v; the box is not consulted |
| Rules.CanSetExact | Sudoku/Program.cs:72-83 | CanSet(v) holds iff the cell is unknown and no cell of its row or its column holds v |
| Rules.CanSetIgnoresBox | Sudoku/Program.cs:75-79 | changing a cell that shares only the box never changes CanSet: the box is not consulted |
| Rules.CandidateCanSet | Sudoku/Program.cs:30-83 | every note of an unknown cell passes CanSet on that cell |
| Rules.SettableCells | Sudoku/Program.cs:56-57 | the list left by RemoveAll holds exactly the box cells that pass CanSet for the note, and is no longer than the box |
| Rules.SettableNone | Sudoku/Program.cs:56-57 | when no cell of the list passes CanSet, RemoveAll leaves the empty list |
| Rules.SettableUnique | Sudoku/Program.cs:56-59 | when exactly one cell of a list of distinct cells passes CanSet, RemoveAll leaves exactly that cell |
| Rules.SettableFrom | Sudoku/Program.cs:56-57 | scanning the list front to back, the kept cells so far plus the settable cells of the rest are the whole result |
| Rules.HiddenSingles | Sudoku/Program.cs:51-64 | the hidden-single probe: one HiddenStep per note in enumeration order, each on the board the earlier notes left; it keeps the board's cells |
| Rules.HiddenStep | Sudoku/Program.cs:56-62 | one note of the probe either changes nothing or sets the single box cell that can take the note to that note |
| Rules.HiddenStepFires | Sudoku/Program.cs:59-62 | conversely, when one box cell is the only one that can take the note, it is set to the note |
| Rules.HiddenSinglesStep | Sudoku/Program.cs:54-63 | the probe over one more note is one more step, which sees the values the earlier notes wrote |
| Rules.HiddenSinglesKeepGivens | Sudoku/Program.cs:51-64 | the hidden-single probe writes only digits, and only into unknown cells |
| Rules.Ascending | Sudoku/Program.cs:54 | the enumeration of a note set lists exactly its digits, strictly increasing |
| Rules.AscendingFrom | Sudoku/Program.cs:54 | the enumeration from k lists exactly the set's digits from k to 9, strictly increasing |
| Rules.FirstNote | Sudoku/Program.cs:68 | a non-empty note set has a first note, and it is one of the notes |
| Rules.SingletonHasFirst | Sudoku/Program.cs:66-69 | a one-note set {v} enumerates as exactly [v] |
| Rules.AfterUpdate | Sudoku/Program.cs:27-70 | the values after UpdateNotes: unchanged for a known cell; the probe over its box for more than one candidate; its only candidate for one; unchanged for none. It keeps the board's cells |
| Rules.AfterUpdateKeepsGivens | Sudoku/Program.cs:27-70 | UpdateNotes never overwrites a known value, writes only digits, and the unknown cells can only become fewer |
| Rules.ProbeUpdate | Sudoku/Program.cs:51-64 | with several notes, the effect of UpdateNotes is the probe over the cell's box in note order |
| Rules.NakedSingle | Sudoku/Program.cs:66-69 | with exactly one note v, UpdateNotes sets the cell to v and changes nothing else |
| Rules.FixedWhenSingle | Sudoku/Program.cs:66-69 | an unknown cell with a single note is known after UpdateNotes |
| Rules.NoCandidates | Sudoku/Program.cs:27-70 | an unknown cell with no notes: UpdateNotes changes no value |
| Parsing.ParseCell | Sudoku/Program.cs:136-139 | one cell read by the constructor: past the end of its row it fails as IndexOutOfRange, a character '0' to '9' gives its digit, any other fails as FormatException |
| Parsing.ParseGrid | Sudoku/Program.cs:128-148 | the grid the constructor builds from nine strings, or the exception of the first cell in row-major order that fails to read |
| Parsing.FirstError | Sudoku/Program.cs:134-141 | the reported error is that of the first cell in row-major order that fails to parse; none means every cell parses |
| Parsing.ParseGridSuccess | Sudoku/Program.cs:134-141 | parsing succeeds iff every row has a 9th character and the first nine are digits; each cell then holds its digit's value |
| Parsing.ParseGridFailure | Sudoku/Program.cs:134-141 | parsing fails with the exception of the first bad cell in row-major order |
| Analysis.IsError | Sudoku/Program.cs:85-93 | Cell.IsError: the cell is unknown and has no notes |
| Analysis.SomeErrorIn | Sudoku/Program.cs:284-288 | Map.HasError on snapshots: some cell of the grid is in error |
| Analysis.EmptyNotes | Sudoku/Program.cs:21-25 | a copy's cells start with empty notes, over the whole grid |
| Analysis.Visit | Sudoku/Program.cs:229-238 | visiting an unknown cell fills only unknown values, changes only its notes, stops iff it became known, and otherwise leaves it with a note count other than one |
| Rules.ProbeFixesOrKeeps | Sudoku/Program.cs:51-69 | the hidden-single probe over a box holding the unknown cell p, with notes p can all take, either writes nothing or fixes p |
| Rules.UpdateFixesOrKeeps | Sudoku/Program.cs:27-70 | an UpdateNotes that leaves its unknown cell unknown writes no value anywhere |
| Analysis.VisitQuiet | Sudoku/Program.cs:232-238 | a visit that does not stop the scan leaves every value as it was, so the restart test on the visited cell alone misses no write |
| Analysis.VisitIs | Sudoku/Program.cs:232-236 | the values AfterUpdate, the candidates as the cell's notes and the test of the cell's value are exactly Visit |
| Analysis.VisitAtIsVisit | Sudoku/Program.cs:229-238 | Visit, extended to cells the pass never visits, is a visit that keeps VisitKeeps |
| Analysis.RowScan | Sudoku/Program.cs:227-239 | the column loop fills only unknown values and keeps both snapshots over the whole grid |
| Analysis.ScanAtIsScan | Sudoku/Program.cs:227-239 | RowScan with that visit, as a function value, is a row scan of that visit |
| Analysis.RowScanDone | Sudoku/Program.cs:227 | the column loop ends after the last column with no stop and nothing changed |
| Analysis.RowScanSkip | Sudoku/Program.cs:229-230 | the column loop skips a known cell |
| Analysis.RowScanVisit | Sudoku/Program.cs:232-238 | the column loop visits an unknown cell and goes on only if the visit did not stop it |
| Analysis.RowScanShrinks | Sudoku/Program.cs:234-237 | a row scan that stops removes a cell from the unknown cells |
| Analysis.RowScanFrame | Sudoku/Program.cs:227-239 | a row scan changes only the notes of the cells it scans |
| Analysis.VisitFrame | Sudoku/Program.cs:229-238 | visiting a cell and scanning on keeps the notes of every cell outside the rest of the row |
| Analysis.RowScanStuck | Sudoku/Program.cs:227-239 | a row scan that runs to the end of the row leaves no scanned unknown cell with exactly one note |
| Analysis.SkipSettles | Sudoku/Program.cs:229-230 | skipping a known cell keeps what the rest of the scan settles |
| Analysis.VisitPasses | Sudoku/Program.cs:232-238 | visiting a cell before q keeps what the rest of the scan settles about q |
| Analysis.PassOnSettled | Sudoku/Program.cs:232-238 | what the scan after a visit settles about q, the scan from the visited cell settles too |
| Analysis.VisitSettles | Sudoku/Program.cs:232-238 | a visit that does not stop the scan leaves the cell with a note count other than one for the rest of the row |
| Analysis.LaterColumnsKeep | Sudoku/Program.cs:227-239 | the columns after q keep q's notes, and q unknown afterwards was unknown before |
| Analysis.RowScanIdle | Sudoku/Program.cs:227-239 | a row scan that runs to the end leaves an unknown cell when there was one |
| Analysis.Pass | Sudoku/Program.cs:225-245 | the row loop fills only unknown values and keeps both snapshots over the whole grid |
| Analysis.PassShrinks | Sudoku/Program.cs:225-245 | a pass that stops removes a cell from the unknown cells |
| Analysis.PassFrame | Sudoku/Program.cs:225-245 | a pass from row r on keeps the notes of earlier rows |
| Analysis.PassStuck | Sudoku/Program.cs:225-245 | a pass that runs to the end leaves no scanned unknown cell with exactly one note |
| Analysis.LaterRowsKeep | Sudoku/Program.cs:225-245 | the rows after q's row keep q's notes, and q unknown afterwards was unknown before |
| Analysis.PassIdle | Sudoku/Program.cs:225-245 | a pass that runs to the end leaves an unknown cell when there was one |
| Analysis.PassOutcome | Sudoku/Program.cs:223-245 | a whole pass: no value becomes unknown, a stop shrinks the unknown cells, and without a stop no unknown cell has exactly one note and an unknown cell remains |
| Analysis.PassAtIsPass | Sudoku/Program.cs:225-245 | Pass with Visit, as a function value, keeps PassKeeps on every grid and is Pass of that visit |
| Analysis.PassOn | Sudoku/Program.cs:241-244 | the row loop scans the row and goes on only if the scan did not stop |
| Analysis.PassDone | Sudoku/Program.cs:225 | the row loop ends after the last row with no stop and nothing changed |
| Analysis.PassSettles | Sudoku/Program.cs:248-259 | after a pass no value became unknown; with no stop and no cell in error, every unknown cell has several notes and one remains |
| Analysis.PassStalls | Sudoku/Program.cs:248-259 | a pass with no stop on a grid with no cell in error leaves only unknown cells with several notes, and at least one |
| Analysis.FirstGuess | Sudoku/Program.cs:296-311 | the cell ForeachCells finds for the guess at line 259: the first cell in row-major order that is unknown and has more than one note, or none |
| Analysis.FirstGuessFrom | Sudoku/Program.cs:296-311 | the first unknown cell with several notes at or after a position in row-major order, or none when there is none |
| Analysis.FirstGuessIs | Sudoku/Program.cs:259 | a guessable cell preceded by no guessable cell is the one the guess takes |
| Analysis.StalledHasGuess | Sudoku/Program.cs:259 | a stalled grid with an unknown cell has a cell to guess at |
| Analysis.Run | Sudoku/Program.cs:217-282 | Map.Analyze fills only unknown values, and a normal end leaves a full grid or a cell in error |
| Analysis.RoundStep | Sudoku/Program.cs:221-281 | a round fills only unknown values; going on shrinks the unknown cells; a stop with Done has a cell in error |
| Analysis.GuessStep | Sudoku/Program.cs:259-279 | a guess fills only unknown values, going on shrinks the unknown cells, and a stop is ArgumentOutOfRange |
| Analysis.Attempt | Sudoku/Program.cs:265-269 | one try of the note loop: the copy with the note written into the cell and empty notes is analysed by Run; it raises when that run ends with ArgumentOutOfRange, and otherwise reports whether HasError holds at its end |
| Analysis.PickFrom | Sudoku/Program.cs:263-277 | a chosen index lies within the notes, at or after where the loop started |
| Analysis.PickFromChosen | Sudoku/Program.cs:263-276 | the chosen note's copy ends without error, and every earlier copy ended in error |
| Analysis.PickFromExhausted | Sudoku/Program.cs:263-277 | the loop runs past the last note only when every copy ended in error |
| Analysis.AllErrorsExhaust | Sudoku/Program.cs:263-277 | when every copy ends in error, the loop runs past the last note |
| Analysis.PickFromAborted | Sudoku/Program.cs:265-267 | the loop is cut short only by a copy that raised after every earlier copy ended in error |
| Analysis.NoThrowBefore | Sudoku/Program.cs:263-276 | no copy raises before the first copy that ends without error, when every copy before both ended in error |
| Analysis.PickVerdict | Sudoku/Program.cs:263-279 | a chosen note's copy ends without error after every earlier copy ended in error; the loop chooses nothing exactly when every copy ends in error or a copy raises after the earlier ones ended in error |
| Analysis.GuessOutcome | Sudoku/Program.cs:259-279 | the guess writes into the first guessable cell the first note whose copy ends without error, after every earlier copy ended in error; it stops with ArgumentOutOfRange, changing nothing, exactly when every copy ends in error or a copy raises after the earlier ones ended in error |
| Analysis.EngineAtIsEngine | Sudoku/Program.cs:217-282 | the visit, row scan, pass, round and run that Map's methods are proved against exist |
| Analysis.RunOn | Sudoku/Program.cs:221-281 | a run on a grid with an unknown cell is one round, then the run of what the round left, or the round's stop |
| Analysis.RunOnSolved | Sudoku/Program.cs:221 | a run on a full grid ends at once, normally, with nothing changed |
| Solver.ParsedCells | Sudoku/Program.cs:134-143 | an array filled cell by cell from the parsed characters holds digits 0-9 and equals the parsed grid |
| Solver.Map.constructor | Sudoku/Program.cs:150-157 | the map uses the given cells, its notes are empty and its dictionaries are empty |
| Solver.Map.FromStrings | Sudoku/Program.cs:128-148 | succeeds iff parsing does; the fresh map then holds the parsed grid, otherwise the error is the first bad cell's |
| Solver.Map.ForeachCells | Sudoku/Program.cs:296-311 | returns the first cell in row-major order satisfying the predicate, or none when no cell does |
| Solver.Map.HasResult | Sudoku/Program.cs:290-294 | true iff no cell is unknown |
| Solver.Map.HasError | Sudoku/Program.cs:284-288 | true iff some cell is unknown and has no notes (Cell.IsError, lines 85-93) |
| Solver.Map.Deepcopy | Sudoku/Program.cs:313-326 | a fresh map over fresh arrays with the same values, empty notes and no dictionaries |
| Solver.Map.SetValue | Sudoku/Program.cs:13 | writing a cell's Value changes the board at that cell only |
| Solver.Map.SetNotes | Sudoku/Program.cs:15 | replacing a cell's Notes changes no other cell's notes |
| Solver.Map.CellCanSet | Sudoku/Program.cs:72-83 | the result is CanSet on the current board (row and column only) |
| Solver.Map.KeepSettable | Sudoku/Program.cs:56-57 | the list that RemoveAll leaves is SettableCells of the box for the note |
| Solver.Map.CellNotes | Sudoku/Program.cs:30-49 | the computed notes are the cell's candidates: digits absent from its row, column and box |
| Solver.Map.ProbeHiddenSingles | Sudoku/Program.cs:53-63 | the board after the probe loop is the probe function over the notes in order, starting from the board before |
| Solver.Map.ApplyNotes | Sudoku/Program.cs:51-69 | the board becomes AfterUpdate of the old board; only unknown cells change; the cell stays unknown only if it has not exactly one note |
| Solver.Map.ProbeBox | Sudoku/Program.cs:51-64 | with several notes, the board becomes AfterUpdate of the old board and only unknown cells change |
| Solver.Map.TakeSingle | Sudoku/Program.cs:66-69 | with one note, the board becomes AfterUpdate of the old board and the cell holds its note |
| Solver.Map.UpdateNotes | Sudoku/Program.cs:27-70 | the board becomes AfterUpdate of the old board; the cell's notes become its candidates when it was unknown; no other cell's notes change |
| Solver.Map.DeductionPass | Sudoku/Program.cs:225-245 | the new values, notes and stop flag are those of Pass from row 0 on the old ones; no value becomes unknown; with no stop and no cell in error, the grid is stalled and still has an unknown cell |
| Solver.Map.ScanRow | Sudoku/Program.cs:227-239 | the new values, notes and stop flag are those of RowScan of the row from column 0 |
| Solver.Map.VisitCell | Sudoku/Program.cs:229-238 | the new values, notes and stop flag are those of Visit: AfterUpdate of the cell, its candidates as its notes, and a stop iff the cell became known |
| Solver.Map.Analyze | Sudoku/Program.cs:217-282 | the outcome, values and notes are those of Run on the old values and notes; a normal end leaves a full grid or a cell in error |
| Solver.Map.Round | Sudoku/Program.cs:221-281 | the new values and notes, and whether the loop stops with an error or with ArgumentOutOfRange, are those of RoundStep; a stop on error means some cell is in error |
| Solver.Map.Guess | Sudoku/Program.cs:259-279 | the new values and the outcome are those of GuessStep: the first guessable cell takes the chosen note, or ArgumentOutOfRange and nothing changes; the notes are unchanged |
| Solver.Map.GuessCell | Sudoku/Program.cs:259 | finds the first unknown cell in row-major order with several notes; after a pass with no change and no error it always exists |
| Solver.Map.PickNote | Sudoku/Program.cs:260-279 | the outcome is Done iff the note loop (PickFrom) over the cell's notes in ascending order chooses a note, and the note is the chosen one |
| Solver.Map.TryNotes | Sudoku/Program.cs:261-277 | every copy before noteIndex ended in error; a normal end inside the list names a note whose copy ended without error; ArgumentOutOfRange names a copy that raised; the verdict is PickFrom's |
| Solver.Map.TryNote | Sudoku/Program.cs:265-269 | the copy with the note written in and its notes empty raises iff Attempt says so, and otherwise error is true iff the copy's Run ends with a cell in error |
| Solver.Map.FillCell | Sudoku/Program.cs:279 | writing a note into an unknown cell changes that cell only and shrinks the unknown set |
| Solver.Map.InitAndAnalyze | Sudoku/Program.cs:159-163 | builds the groups, then the outcome, values and notes are those of Run on the old values and notes |
| Solver.Map.Init | Sudoku/Program.cs:165-215 | the dictionaries hold the row, column and box groups and every cell carries its own three indices |
| Solver.Map.InitRows | Sudoku/Program.cs:167-176 | the row dictionary maps each row index to its row and stamps every cell's row index |
| Solver.Map.InitColumns | Sudoku/Program.cs:178-187 | the column dictionary maps each column index to its column and stamps every cell's column index |
| Solver.Map.InitNineCells | Sudoku/Program.cs:208-214 | the box dictionary maps each box index to its box and stamps every cell's box index |
| Solver.Map.AddRow | Sudoku/Program.cs:169-175 | adds row r to the dictionary and sets the row index of the cells of row r only |
| Solver.Map.AddColumn | Sudoku/Program.cs:180-186 | adds column c to the dictionary and sets the column index of the cells of column c only |
| Solver.Map.CollectNineCell | Sudoku/Program.cs:191-201 | the collected list is box rowIndex*3+columIndex in row-major order, exactly the cells of that box |
| Solver.Map.StampNineCell | Sudoku/Program.cs:203-204 | sets the box index of the listed cells only |
| Solver.Map.AddNineCell | Sudoku/Program.cs:189-206 | adds the box to the dictionary under its index and stamps the box index of its cells only |

## Left out

- Console output is not modelled: `ToString` of both classes, `Program.Main` with its sample puzzle, and the `LogEnable` flag with its message. None of them changes the grid.
- The implicit conversions between `Cell` and `int` are not modelled. They only copy a value in or out.
- The `Cell.Map` back-reference is not modelled. Cells shared between several `List<Cell>` objects become positions in one array, so a write through any group list is the write to `values[r, c]`.
- The group lists are kept as position lists, and their entries are not objects.
- The `Dictionary.Add` exception for a key already present is not modelled. `Init` requires fresh dictionaries, which is how the source always calls it.
- `HashSet<int>` enumeration order is not modelled. It is taken to be ascending digit order: a note set is filled in ascending order right after `Clear` and then only loses elements. The real order is an implementation detail of .NET.
- Solver.Map.FromStrings: requires nine rows and a first row of nine characters. The source builds a grid of any other shape too, but only the 9x9 grid is modelled. With fewer than nine rows or columns, Init fails with IndexOutOfRangeException in AddNineCell (`Sudoku/Program.cs:193-199`). With more, the cells outside the first nine rows and columns never get their `Map` set. The first UpdateNotes on such a cell that is unknown raises NullReferenceException, while a known one returns before touching `Map`. Either kind still adds its value to the row and column lists of the cells inside the grid.
- Solver.Map.Analyze: does not state that a full grid is a valid Sudoku. Givens that already repeat a digit are never checked either.

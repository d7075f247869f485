/** The grid and its solving engine (the Map class, with the per-cell state
    of the Cell class). Cell (r, c) is not an object here: its Value is
    values[r, c], its Notes is notes[r, c], and its RowIndex, ColumnIndex and
    NineCellIndex are the fields of stamps[r, c]. The row, column and box
    dictionaries map a group index to the positions of its cells. */
module Solver {
  import opened Groups
  import opened Rules
  import opened Parsing
  import opened Extensions
  import opened Wrappers
  import opened Analysis

  /** The group indices Init writes into a cell. */
  datatype Stamp = Stamp(rowIndex: int, columnIndex: int, nineCellIndex: int)

  lemma CellsAreDigits(rows: seq<string>, cells: array2<int>)
    requires |rows| == MaxCount
    requires cells.Length0 == MaxCount && cells.Length1 == MaxCount
    requires forall r, c :: 0 <= r < MaxCount && 0 <= c < MaxCount ==>
               ParseCell(rows, Pos(r, c)) == Success(cells[r, c])
    ensures forall r, c :: 0 <= r < MaxCount && 0 <= c < MaxCount ==> 0 <= cells[r, c] <= 9
    ensures forall p :: InGrid(p) ==>
              p.col < |rows[p.row]| && IsDigit(rows[p.row][p.col]) && DigitAt(rows, p) == cells[p.row, p.col]
  {
    forall r, c | 0 <= r < MaxCount && 0 <= c < MaxCount ensures 0 <= cells[r, c] <= 9 {
      assert ParseCell(rows, Pos(r, c)) == Success(cells[r, c]);
    }
    forall p | InGrid(p)
      ensures p.col < |rows[p.row]| && IsDigit(rows[p.row][p.col]) && DigitAt(rows, p) == cells[p.row, p.col]
    {
      assert ParseCell(rows, Pos(p.row, p.col)) == Success(cells[p.row, p.col]);
    }
  }

  /** An array whose every cell holds what ParseCell reads there is the parsed grid. */
  lemma ParsedCells(rows: seq<string>, cells: array2<int>)
    requires |rows| == MaxCount && |rows[0]| == MaxCount
    requires cells.Length0 == MaxCount && cells.Length1 == MaxCount
    requires forall r, c :: 0 <= r < MaxCount && 0 <= c < MaxCount ==>
               ParseCell(rows, Pos(r, c)) == Success(cells[r, c])
    ensures forall r, c :: 0 <= r < MaxCount && 0 <= c < MaxCount ==> 0 <= cells[r, c] <= 9
    ensures ParseGrid(rows).Success? && SnapshotOf(cells) == ParseGrid(rows).value
  {
    CellsAreDigits(rows, cells);
    ParseGridSuccess(rows);
    SnapshotAgrees(cells, ParseGrid(rows).value);
  }

  class Map {
    var values: array2<int>
    var notes: array2<set<int>>
    var stamps: array2<Stamp>
    var rowsDic: map<int, seq<Pos>>
    var columnsDic: map<int, seq<Pos>>
    var nineCellsDic: map<int, seq<Pos>>

    /** The grid is 9x9, every value is 0 or a digit and every note set holds digits only. */
    ghost predicate Valid()
      reads this, values, notes
    {
      && values.Length0 == MaxCount && values.Length1 == MaxCount
      && notes.Length0 == MaxCount && notes.Length1 == MaxCount
      && stamps.Length0 == MaxCount && stamps.Length1 == MaxCount
      && (forall r, c :: 0 <= r < MaxCount && 0 <= c < MaxCount ==> 0 <= values[r, c] <= 9)
      && (forall r, c :: 0 <= r < MaxCount && 0 <= c < MaxCount ==> notes[r, c] <= Digits)
    }

    /** The dictionaries have not been built yet (a map that Init has not run on). */
    predicate Fresh()
      reads this
    {
      rowsDic == map[] && columnsDic == map[] && nineCellsDic == map[]
    }

    /** What Init establishes: the dictionaries hold the row, column and box
        groups, and every cell carries its own group indices. */
    ghost predicate Initialized()
      reads this, stamps
      requires stamps.Length0 == MaxCount && stamps.Length1 == MaxCount
    {
      && rowsDic == (map i | 0 <= i < MaxCount :: RowCells(i))
      && columnsDic == (map i | 0 <= i < MaxCount :: ColumnCells(i))
      && nineCellsDic == (map i | 0 <= i < MaxCount :: NineCells(i))
      && forall r, c :: 0 <= r < MaxCount && 0 <= c < MaxCount ==>
                          stamps[r, c] == Stamp(r, c, NineCellIndex(r, c))
    }

    /** The cell values as a Board. */
    function Board(): Board
      reads this, values
      requires values.Length0 == MaxCount && values.Length1 == MaxCount
    {
      SnapshotOf(values)
    }

    /** The unknown cells. */
    ghost function ZeroSet(): set<Pos>
      reads this, values
      requires values.Length0 == MaxCount && values.Length1 == MaxCount
    {
      Zeros(Board())
    }

    /** The notes of every cell as a NoteMap. */
    ghost function AllNotes(): NoteMap
      reads this, notes
      requires notes.Length0 == MaxCount && notes.Length1 == MaxCount
    {
      SnapshotOf(notes)
    }

    /** Some cell is in error: unknown with no notes. */
    ghost predicate SomeError()
      reads this, values, notes
      requires Valid()
    {
      SomeErrorIn(Board(), AllNotes())
    }

    /** Every note set is empty, as for cells just created from their values. */
    ghost predicate NotesEmpty()
      reads this, notes
      requires notes.Length0 == MaxCount && notes.Length1 == MaxCount
    {
      forall r, c :: 0 <= r < MaxCount && 0 <= c < MaxCount ==> notes[r, c] == {}
    }

    /** Empty notes everywhere are the notes EmptyNotes describes. */
    lemma EmptyNotesAre()
      requires notes.Length0 == MaxCount && notes.Length1 == MaxCount && NotesEmpty()
      ensures AllNotes() == EmptyNotes()
    {
      SnapshotAgrees(notes, EmptyNotes());
    }

    lemma BoardWellFormed()
      requires Valid()
      ensures WellFormed(Board())
    {
      forall p | p in Board() ensures 0 <= Board()[p] <= 9 {
        AllPosIsGrid(p);
      }
    }

    lemma ZeroSetEmpty()
      requires Valid()
      ensures ZeroSet() == {} <==> forall p :: InGrid(p) ==> values[p.row, p.col] != 0
    {
      if exists p :: InGrid(p) && values[p.row, p.col] == 0 {
        var p :| InGrid(p) && values[p.row, p.col] == 0;
        AllPosIsGrid(p);
        assert p in ZeroSet();
      }
      forall p | p in ZeroSet() ensures InGrid(p) && values[p.row, p.col] == 0 {
        AllPosIsGrid(p);
      }
    }

    /** Map(Cell[,]): a map over the given cells, whose notes start empty and
        whose dictionaries are still empty. */
    constructor (cells: array2<int>)
      requires cells.Length0 == MaxCount && cells.Length1 == MaxCount
      requires forall r, c :: 0 <= r < MaxCount && 0 <= c < MaxCount ==> 0 <= cells[r, c] <= 9
      ensures Valid() && Fresh() && NotesEmpty()
      ensures values == cells && fresh(notes) && fresh(stamps)
    {
      values := cells;
      notes := new set<int>[MaxCount, MaxCount]((r, c) => {});
      stamps := new Stamp[MaxCount, MaxCount]((r, c) => Stamp(0, 0, 0));
      rowsDic := map[];
      columnsDic := map[];
      nineCellsDic := map[];
    }

    /** Map(string[]): reads the 9 rows of digits into a fresh map, or fails
        with the first exception in row-major order. */
    static method FromStrings(rows: seq<string>) returns (r: Result<Map, ParseError>)
      requires |rows| == MaxCount && |rows[0]| == MaxCount
      ensures r.Success? <==> ParseGrid(rows).Success?
      ensures r.Success? ==> fresh(r.value) && fresh(r.value.values) &&
                             r.value.Valid() && r.value.Fresh() && r.value.NotesEmpty() &&
                             r.value.Board() == ParseGrid(rows).value
      ensures r.Failure? ==> r.error == ParseGrid(rows).error
    {
      var cells := new int[MaxCount, MaxCount];
      for rowIndex := 0 to MaxCount
        invariant forall r, c :: 0 <= r < rowIndex && 0 <= c < MaxCount ==>
                    ParseCell(rows, Pos(r, c)) == Success(cells[r, c])
      {
        var columns := rows[rowIndex];
        for columnIndex := 0 to MaxCount
          invariant forall r, c :: 0 <= r < MaxCount && 0 <= c < MaxCount &&
                                   Precedes(Pos(r, c), Pos(rowIndex, columnIndex)) ==>
                      ParseCell(rows, Pos(r, c)) == Success(cells[r, c])
        {
          var parsed := ParseCell(rows, Pos(rowIndex, columnIndex));
          if parsed.Failure? {
            ParseGridFailure(rows, Pos(rowIndex, columnIndex));
            return Failure(parsed.error);
          }
          cells[rowIndex, columnIndex] := parsed.value;
        }
      }
      ParsedCells(rows, cells);
      var m := new Map(cells);
      return Success(m);
    }

    /** Map.ForeachCells: the first cell in row-major order whose value and
        notes satisfy the predicate, or None. */
    method ForeachCells(pred: (int, set<int>) -> bool) returns (found: Option<Pos>)
      requires Valid()
      ensures found.Some? ==>
                InGrid(found.value) &&
                pred(values[found.value.row, found.value.col], notes[found.value.row, found.value.col]) &&
                forall q :: InGrid(q) && Precedes(q, found.value) ==>
                              !pred(values[q.row, q.col], notes[q.row, q.col])
      ensures found.None? ==>
                forall q :: InGrid(q) ==> !pred(values[q.row, q.col], notes[q.row, q.col])
    {
      for row := 0 to MaxCount
        invariant forall q :: InGrid(q) && q.row < row ==> !pred(values[q.row, q.col], notes[q.row, q.col])
      {
        for column := 0 to MaxCount
          invariant forall q :: InGrid(q) && Precedes(q, Pos(row, column)) ==>
                      !pred(values[q.row, q.col], notes[q.row, q.col])
        {
          if pred(values[row, column], notes[row, column]) {
            return Some(Pos(row, column));
          }
        }
      }
      return None;
    }

    /** Map.HasResult: no cell is unknown. */
    method HasResult() returns (r: bool)
      requires Valid()
      ensures r <==> forall p :: InGrid(p) ==> values[p.row, p.col] != 0
      ensures r <==> ZeroSet() == {}
      ensures Valid() && Board() == old(Board()) && AllNotes() == old(AllNotes())
    {
      var cell := ForeachCells((value, cellNotes) => value == 0);
      r := cell.None?;
      ZeroSetEmpty();
    }

    /** Map.HasError: some cell IsError. */
    method HasError() returns (r: bool)
      requires Valid()
      ensures r <==> exists p :: InGrid(p) && values[p.row, p.col] == 0 && notes[p.row, p.col] == {}
      ensures r <==> SomeError()
      ensures Board() == old(Board()) && AllNotes() == old(AllNotes())
    {
      var cell := ForeachCells((value, cellNotes) => IsError(value, cellNotes));
      r := cell.Some?;
      if r {
        AllPosIsGrid(cell.value);
      } else {
        forall p | p in Board() && p in AllNotes()
          ensures !IsError(Board()[p], AllNotes()[p])
        {
          AllPosIsGrid(p);
        }
      }
    }

    /** Map.Deepcopy: a fresh map over fresh cells holding the same values,
        with empty notes and no dictionaries. */
    method Deepcopy() returns (m: Map)
      requires Valid()
      ensures fresh(m) && fresh(m.values) && fresh(m.notes) && fresh(m.stamps)
      ensures m.Valid() && m.Fresh() && m.NotesEmpty()
      ensures m.Board() == Board()
    {
      var cells := new int[MaxCount, MaxCount];
      for row := 0 to MaxCount
        invariant forall r, c :: 0 <= r < row && 0 <= c < MaxCount ==> cells[r, c] == values[r, c]
      {
        for column := 0 to MaxCount
          invariant forall r, c ::
                      0 <= r < MaxCount && 0 <= c < MaxCount && Precedes(Pos(r, c), Pos(row, column)) ==>
                      cells[r, c] == values[r, c]
        {
          cells[row, column] := values[row, column];
        }
      }
      m := new Map(cells);
      SnapshotAgrees(m.values, Board());
    }

    /** The Value setter of the cell (row, column): the board changes at
        that cell only. */
    method SetValue(row: int, column: int, value: int)
      requires Valid() && InGrid(Pos(row, column)) && value in Digits
      modifies values
      ensures Valid()
      ensures Board() == old(Board())[Pos(row, column) := value]
    {
      ghost var before := Board();
      values[row, column] := value;
      SnapshotAgrees(values, before[Pos(row, column) := value]);
    }

    /** The Notes of the cell (row, column) replaced by cellNotes. */
    method SetNotes(row: int, column: int, cellNotes: set<int>)
      requires Valid() && InGrid(Pos(row, column)) && cellNotes <= Digits
      modifies notes
      ensures Valid()
      ensures forall r, c :: 0 <= r < MaxCount && 0 <= c < MaxCount ==>
                notes[r, c] == if r == row && c == column then cellNotes else old(notes[r, c])
      ensures AllNotes() == old(AllNotes())[Pos(row, column) := cellNotes]
    {
      ghost var n0 := AllNotes();
      notes[row, column] := cellNotes;
      SnapshotAgrees(notes, n0[Pos(row, column) := cellNotes]);
    }

    /** Cell.CanSet for the cell (row, column): the cell is unknown and no
        cell of the row and column lists it is stamped with holds value. */
    method CellCanSet(row: int, column: int, value: int) returns (r: bool)
      requires Valid() && Initialized() && InGrid(Pos(row, column))
      ensures r == CanSet(Board(), Pos(row, column), value)
    {
      if values[row, column] != 0 {
        return false;
      }
      var stamp := stamps[row, column];
      var rowCells := rowsDic[stamp.rowIndex];
      var columnCells := columnsDic[stamp.columnIndex];
      RowGroup(row);
      ColumnGroup(column);
      var newList := rowCells + columnCells;
      assert forall j :: 0 <= j < |newList| ==> InGrid(newList[j]) by {
        forall j | 0 <= j < |newList| ensures InGrid(newList[j]) {
          assert newList[j] in rowCells || newList[j] in columnCells;
        }
      }
      var result := false;
      var i := 0;
      while i < |newList| && !result
        invariant 0 <= i <= |newList|
        invariant result <==> exists j :: 0 <= j < i && values[newList[j].row, newList[j].col] == value
      {
        if values[newList[i].row, newList[i].col] == value {
          result := true;
        }
        i := i + 1;
      }
      ghost var b := Board();
      AllPosIsGrid(Pos(row, column));
      if result {
        var j :| 0 <= j < |newList| && values[newList[j].row, newList[j].col] == value;
        AllPosIsGrid(newList[j]);
        assert newList[j] in newList && newList[j] in b;
      } else {
        forall q | q in newList && q in b ensures b[q] != value {
          var j :| 0 <= j < |newList| && newList[j] == q;
        }
      }
      return !result;
    }

    /** The List.RemoveAll of the hidden-single probe: the cells of the list
        that pass Cell.CanSet for value, in list order. */
    method KeepSettable(cells: seq<Pos>, value: int) returns (t: seq<Pos>)
      requires Valid() && Initialized()
      requires forall p :: p in cells ==> InGrid(p)
      ensures t == SettableCells(Board(), cells, value)
    {
      ghost var b := Board();
      t := [];
      for i := 0 to |cells|
        invariant t + SettableCells(b, cells[i..], value) == SettableCells(b, cells, value)
      {
        assert cells[i] in cells;
        var ok := CellCanSet(cells[i].row, cells[i].col, value);
        SettableFrom(b, cells, value, i, t);
        if ok {
          t := t + [cells[i]];
        }
      }
      assert t + [] == t;
    }

    /** The note computation of Cell.UpdateNotes: the digits missing from
        the cell's row, minus the values of its column, minus the values of
        its box, each group found through the cell's stamps. */
    method CellNotes(row: int, column: int) returns (cellNotes: set<int>)
      requires Valid() && Initialized() && InGrid(Pos(row, column))
      ensures cellNotes == Candidates(Board(), Pos(row, column))
      ensures forall v :: v in cellNotes <==>
                v in Digits && forall q :: InGrid(q) && SameGroup(Pos(row, column), q) ==> values[q.row, q.col] != v
    {
      var stamp := stamps[row, column];
      NineCellIndexInRange(row, column);
      RowGroup(row);
      ColumnGroup(column);
      NineCellGroup(stamp.nineCellIndex);
      cellNotes := {};
      var tempRows := CellReverseValues(values, rowsDic[stamp.rowIndex]);
      cellNotes := cellNotes + tempRows;
      var tempColumns := CellValues(values, columnsDic[stamp.columnIndex]);
      cellNotes := cellNotes - tempColumns;
      var tempNineCells := CellValues(values, nineCellsDic[stamp.nineCellIndex]);
      cellNotes := cellNotes - tempNineCells;
      BoardWellFormed();
      forall v ensures v in cellNotes <==>
                 v in Digits && forall q :: InGrid(q) && SameGroup(Pos(row, column), q) ==> values[q.row, q.col] != v
      {
        CandidatesExact(Board(), Pos(row, column), v);
      }
    }

    /** The hidden-single probe of Cell.UpdateNotes: for each note in order,
        when exactly one cell of the box passes Cell.CanSet, that cell takes
        the note. */
    method ProbeHiddenSingles(index: int, order: seq<int>)
      requires Valid() && Initialized() && 0 <= index < MaxCount
      requires forall i :: 0 <= i < |order| ==> order[i] in Digits
      modifies values
      ensures Valid()
      ensures Board() == HiddenSingles(old(Board()), NineCells(index), order)
    {
      ghost var b0 := Board();
      var nineCells := nineCellsDic[index];
      NineCellGroup(index);
      for i := 0 to |order|
        invariant Valid()
        invariant Board() == HiddenSingles(b0, nineCells, order[..i])
      {
        var note := order[i];
        var tempCells := KeepSettable(nineCells, note);
        HiddenSinglesStep(b0, nineCells, order, i);
        if |tempCells| == 1 {
          assert tempCells[0] in tempCells;
          var cell := tempCells[0];
          SetValue(cell.row, cell.col, note);
        }
      }
      assert order[..|order|] == order;
    }

    /** The assignments of Cell.UpdateNotes once the notes of the unknown
        cell (row, column) are known: the hidden-single probe over its box
        when there are several, the note itself when there is one. */
    method ApplyNotes(row: int, column: int, cellNotes: set<int>)
      requires Valid() && Initialized() && InGrid(Pos(row, column)) && values[row, column] == 0
      requires cellNotes == Candidates(Board(), Pos(row, column))
      modifies values
      ensures Valid()
      ensures Board() == AfterUpdate(old(Board()), Pos(row, column))
      ensures OnlyFillsZeros(old(Board()), Board())
      ensures values[row, column] == 0 ==> |cellNotes| != 1
    {
      if |cellNotes| > 1 {
        ProbeBox(row, column, cellNotes);
      }
      if |cellNotes| == 1 {
        TakeSingle(row, column, cellNotes);
      }
      if |cellNotes| == 0 {
        AllPosIsGrid(Pos(row, column));
        NoCandidates(Board(), Pos(row, column));
      }
    }

    /** ApplyNotes with several notes: the hidden-single probe over the box
        of (row, column), found through its stamp, in note order. */
    method ProbeBox(row: int, column: int, cellNotes: set<int>)
      requires Valid() && Initialized() && InGrid(Pos(row, column)) && values[row, column] == 0
      requires cellNotes == Candidates(Board(), Pos(row, column)) && |cellNotes| > 1
      modifies values
      ensures Valid()
      ensures Board() == AfterUpdate(old(Board()), Pos(row, column))
      ensures OnlyFillsZeros(old(Board()), Board())
    {
      BoardWellFormed();
      ProbeUpdate(Board(), Pos(row, column));
      var order := Ascending(cellNotes);
      NineCellIndexInRange(row, column);
      ProbeHiddenSingles(stamps[row, column].nineCellIndex, order);
    }

    /** ApplyNotes with a single note: the cell takes it. */
    method TakeSingle(row: int, column: int, cellNotes: set<int>)
      requires Valid() && InGrid(Pos(row, column)) && values[row, column] == 0
      requires cellNotes == Candidates(Board(), Pos(row, column)) && |cellNotes| == 1
      modifies values
      ensures Valid()
      ensures Board() == AfterUpdate(old(Board()), Pos(row, column))
      ensures OnlyFillsZeros(old(Board()), Board())
      ensures values[row, column] in cellNotes
    {
      ghost var b0 := Board();
      ghost var p := Pos(row, column);
      AllPosIsGrid(p);
      var order := Ascending(cellNotes);
      FirstNote(cellNotes);
      assert order[0] in Digits;
      SetValue(row, column, order[0]);
      FillOneShrinks(b0, p, order[0]);
    }

    /** Cell.UpdateNotes for the cell (row, column). A fixed cell is left
        alone. An unknown cell's notes become its candidates; with several
        candidates the hidden-single probe runs over its box in note order,
        and with exactly one the cell takes it. */
    method UpdateNotes(row: int, column: int)
      requires Valid() && Initialized() && InGrid(Pos(row, column))
      modifies values, notes
      ensures Valid()
      ensures Board() == AfterUpdate(old(Board()), Pos(row, column))
      ensures notes[row, column] == if old(values[row, column]) == 0
                                    then Candidates(old(Board()), Pos(row, column))
                                    else old(notes[row, column])
      ensures forall r, c :: 0 <= r < MaxCount && 0 <= c < MaxCount && (r != row || c != column) ==>
                notes[r, c] == old(notes[r, c])
      ensures OnlyFillsZeros(old(Board()), Board())
      ensures values[row, column] == 0 ==> |notes[row, column]| != 1
      ensures old(values[row, column]) == 0 ==>
                AllNotes() == old(AllNotes())[Pos(row, column) := Candidates(old(Board()), Pos(row, column))]
    {
      if values[row, column] != 0 {
        return;
      }
      var cellNotes := CellNotes(row, column);
      SetNotes(row, column, cellNotes);
      ApplyNotes(row, column, cellNotes);
    }

    /** One pass of the row and column loops of Map.Analyze: UpdateNotes on
        every unknown cell in row-major order, stopping at the first visited
        cell that it leaves known. The new values and notes, and whether the
        pass stopped, are those of Pass. */
    method DeductionPass(ghost pass: Passer, ghost visit: Visitor, ghost scan: Scanner) returns (change: bool)
      requires Valid() && Initialized() && IsPass(pass, visit) && IsScanOf(scan, visit)
      modifies values, notes
      ensures Valid() && Initialized()
      ensures Scan(Board(), AllNotes(), change) == pass(old(Board()), old(AllNotes()), 0)
      ensures ZeroSet() <= old(ZeroSet())
      ensures !change && !SomeError() && old(ZeroSet()) != {} ==> Stalled(Board(), AllNotes()) && ZeroSet() != {}
    {
      ghost var b0, n0 := Board(), AllNotes();
      change := false;
      for row := 0 to MaxCount
        invariant Valid() && Initialized()
        invariant pass(b0, n0, 0) == pass(Board(), AllNotes(), row)
      {
        PassOn(visit, scan, pass, Board(), AllNotes(), row);
        change := ScanRow(row, visit, scan);
        if change {
          break;
        }
      }
      if !change {
        PassDone(visit, pass, Board(), AllNotes());
      }
      PassSettles(pass, b0, n0);
    }

    /** The column loop of one row of the pass: its values, notes and stop
        are those of RowScan. */
    method ScanRow(row: int, ghost visit: Visitor, ghost scan: Scanner) returns (change: bool)
      requires Valid() && Initialized() && 0 <= row < MaxCount && IsVisit(visit) && IsScanOf(scan, visit)
      modifies values, notes
      ensures Valid() && Initialized()
      ensures Scan(Board(), AllNotes(), change) == scan(old(Board()), old(AllNotes()), row, 0)
    {
      ghost var b0, n0 := Board(), AllNotes();
      change := false;
      for column := 0 to MaxCount
        invariant Valid() && Initialized()
        invariant scan(b0, n0, row, 0) == scan(Board(), AllNotes(), row, column)
      {
        if values[row, column] != 0 {
          RowScanSkip(visit, scan, Board(), AllNotes(), row, column);
          continue;
        }
        RowScanVisit(visit, scan, Board(), AllNotes(), row, column);
        change := VisitCell(row, column, visit);
        if change {
          break;
        }
      }
      if !change {
        RowScanDone(visit, scan, Board(), AllNotes(), row);
      }
    }

    /** One visit of the pass: UpdateNotes on the unknown cell (row, column)
        and the test whether that left it known, as Visit states them. */
    method VisitCell(row: int, column: int, ghost visit: Visitor) returns (fixed: bool)
      requires Valid() && Initialized() && InGrid(Pos(row, column)) && values[row, column] == 0 && IsVisit(visit)
      modifies values, notes
      ensures Valid() && Initialized()
      ensures Scan(Board(), AllNotes(), fixed) == visit(old(Board()), old(AllNotes()), Pos(row, column))
    {
      ghost var b0, n0 := Board(), AllNotes();
      UpdateNotes(row, column);
      fixed := values[row, column] != 0;
      VisitIs(b0, n0, Pos(row, column), Board(), AllNotes(), fixed);
      assert VisitOf(visit, b0, n0, Pos(row, column)) == Visit(b0, n0, Pos(row, column));
    }

    /** Map.Analyze: deduction passes until no cell is unknown. When a pass
        fixes nothing, it stops if some cell is in error; otherwise it takes
        the first unknown cell with several notes and tries its notes in
        order on a copy of the map, keeping the first one whose copy ends
        without error. When every note fails, notes[noteIndex] is read past
        the end of the note list: the outcome ArgumentOutOfRange, which also
        propagates out of a copy's analysis. The outcome, values and notes
        are those Run gives. */
    method Analyze(ghost e: Engine) returns (outcome: Outcome)
      requires Valid() && Initialized() && IsEngine(e)
      modifies values, notes
      ensures Valid()
      ensures Ending(outcome, Board(), AllNotes()) == e.run(old(Board()), old(AllNotes()))
      ensures outcome == Done ==> ZeroSet() == {} || SomeError()
      decreases ZeroSet(), 5
    {
      ghost var b0, n0 := Board(), AllNotes();
      ghost var b, n := b0, n0;
      var solved := HasResult();
      while !solved
        invariant Valid()
        invariant Initialized()
        invariant b == Board() && n == AllNotes()
        invariant solved <==> Zeros(b) == {}
        invariant ZeroSet() <= old(ZeroSet())
        invariant e.run(b0, n0) == e.run(b, n)
        decreases Zeros(b)
      {
        RunOn(e, b, n);
        var error;
        error, outcome := Round(e);
        b, n := Board(), AllNotes();
        if outcome == ArgumentOutOfRange {
          return;
        }
        if error {
          break;
        }
        solved := HasResult();
      }
      if solved {
        RunOnSolved(e, b, n);
      }
      outcome := Done;
    }

    /** One round of the Analyze loop on a grid with an unknown cell: a
        deduction pass and, when it fixed nothing, the error test (error is
        the loop's break) and otherwise the guess, as RoundStep states them. */
    method Round(ghost e: Engine) returns (error: bool, outcome: Outcome)
      requires Valid() && Initialized() && ZeroSet() != {} && IsEngine(e)
      modifies values, notes
      ensures Valid() && Initialized()
      ensures e.step(old(Board()), old(AllNotes())) ==
                if outcome == ArgumentOutOfRange then Stop(ArgumentOutOfRange, Board(), AllNotes())
                else if error then Stop(Done, Board(), AllNotes())
                else Continue(Board(), AllNotes())
      ensures error ==> outcome == Done && SomeError()
      decreases ZeroSet(), 4
    {
      ghost var b0, n0 := Board(), AllNotes();
      error := false;
      outcome := Done;
      var change := DeductionPass(e.pass, e.visit, e.scan);
      if !change {
        error := HasError();
        if error {
          assert Stepped(e.step, b0, n0) == RoundStep(e.pass, b0, n0);
          return;
        }
        outcome := Guess(e);
      }
      assert Stepped(e.step, b0, n0) == RoundStep(e.pass, b0, n0);
    }

    /** The guessing step of Map.Analyze, taken after a pass that fixed
        nothing on a grid with no cell in error: the first unknown cell with
        several notes, in row-major order, gets the note the note loop
        chooses, as GuessStep states; when the loop chooses none, the
        outcome is ArgumentOutOfRange and nothing changes. */
    method Guess(ghost e: Engine) returns (outcome: Outcome)
      requires Valid() && Initialized() && Stalled(Board(), AllNotes()) && ZeroSet() != {} && IsEngine(e)
      modifies values
      ensures Valid() && AllNotes() == old(AllNotes())
      ensures GuessStep(e.pass, old(Board()), old(AllNotes())) ==
                if outcome == Done then Continue(Board(), AllNotes())
                else Stop(ArgumentOutOfRange, Board(), AllNotes())
      decreases ZeroSet(), 3
    {
      var cell := GuessCell();
      var note;
      outcome, note := PickNote(cell, e);
      if outcome == ArgumentOutOfRange {
        return;
      }
      FillCell(cell.row, cell.col, note);
    }

    /** The notes of the guessed cell as a list, the note loop over them,
        and the read notes[noteIndex] that follows it: the note the loop
        chooses (PickFrom), or ArgumentOutOfRange when it chooses none. */
    method PickNote(cell: Pos, ghost e: Engine) returns (outcome: Outcome, note: int)
      requires Valid() && Initialized() && InGrid(cell) && values[cell.row, cell.col] == 0 && IsEngine(e)
      ensures var c := PickFrom(e.pass, Board(), cell, Ascending(notes[cell.row, cell.col]), 0);
              && (outcome == Done <==> c.Chosen?)
              && (c.Chosen? ==> note == Ascending(notes[cell.row, cell.col])[c.index])
      decreases ZeroSet(), 2
    {
      var stamp := stamps[cell.row, cell.col];
      var noteList := Ascending(notes[cell.row, cell.col]);
      var noteIndex;
      outcome, noteIndex := TryNotes(stamp.rowIndex, stamp.columnIndex, noteList, e);
      if outcome == ArgumentOutOfRange || noteIndex == |noteList| {
        return ArgumentOutOfRange, 0;
      }
      note := noteList[noteIndex];
    }

    /** Writing a digit into an unknown cell: only that cell changes, and it
        leaves the unknown cells. */
    method FillCell(row: int, column: int, value: int)
      requires Valid() && InGrid(Pos(row, column)) && values[row, column] == 0 && value in Digits
      modifies values
      ensures Valid()
      ensures Board() == old(Board())[Pos(row, column) := value]
      ensures AllNotes() == old(AllNotes())
      ensures OnlyFillsZeros(old(Board()), Board())
      ensures ZeroSet() < old(ZeroSet())
    {
      ghost var b := Board();
      ghost var p := Pos(row, column);
      AllPosIsGrid(p);
      SetValue(row, column, value);
      FillOneShrinks(b, p, value);
      assert p in Zeros(b) && p !in ZeroSet();
    }

    /** The cell Map.Analyze guesses at: the first unknown cell, in
        row-major order, with more than one note (FirstGuess). On a stalled
        grid with an unknown cell there always is one. */
    method GuessCell() returns (cell: Pos)
      requires Valid() && Stalled(Board(), AllNotes()) && ZeroSet() != {}
      ensures InGrid(cell) && values[cell.row, cell.col] == 0 && |notes[cell.row, cell.col]| > 1
      ensures FirstGuess(Board(), AllNotes()) == Some(cell)
    {
      ZeroSetEmpty();
      var z :| InGrid(z) && values[z.row, z.col] == 0;
      AllPosIsGrid(z);
      assert Guessable(Board(), AllNotes(), z);
      var found := ForeachCells((value, cellNotes) => value == 0 && |cellNotes| > 1);
      cell := found.value;
      forall q | InGrid(q) && Precedes(q, cell)
        ensures !Guessable(Board(), AllNotes(), q)
      {
        AllPosIsGrid(q);
      }
      FirstGuessIs(Board(), AllNotes(), cell);
    }

    /** The note loop of Map.Analyze for the unknown cell (row, column):
        each note in turn is written into a copy of the map, which is then
        initialised and analysed, until a copy ends without error. noteIndex
        is the index of that note, or |noteList| when every copy ended in
        error; an ArgumentOutOfRange from a copy propagates. The verdict is
        PickFrom's. */
    method TryNotes(row: int, column: int, noteList: seq<int>, ghost e: Engine) returns (outcome: Outcome, noteIndex: int)
      requires Valid() && InGrid(Pos(row, column)) && values[row, column] == 0 && IsEngine(e)
      requires forall i :: 0 <= i < |noteList| ==> noteList[i] in Digits
      ensures 0 <= noteIndex <= |noteList|
      ensures AllErrors(e.pass, Board(), Pos(row, column), noteList, 0, noteIndex)
      ensures outcome == ArgumentOutOfRange ==>
                noteIndex < |noteList| && Attempt(e.pass, Board(), Pos(row, column), noteList[noteIndex]) == Throws
      ensures outcome == Done && noteIndex < |noteList| ==>
                Attempt(e.pass, Board(), Pos(row, column), noteList[noteIndex]) == NoError
      ensures PickFrom(e.pass, Board(), Pos(row, column), noteList, 0) ==
                if outcome == ArgumentOutOfRange then Aborted
                else if noteIndex == |noteList| then Exhausted
                else Chosen(noteIndex)
      decreases ZeroSet(), 1
    {
      noteIndex := 0;
      while noteIndex < |noteList|
        invariant 0 <= noteIndex <= |noteList|
        invariant AllErrors(e.pass, Board(), Pos(row, column), noteList, 0, noteIndex)
        invariant PickFrom(e.pass, Board(), Pos(row, column), noteList, 0) ==
                  PickFrom(e.pass, Board(), Pos(row, column), noteList, noteIndex)
        decreases |noteList| - noteIndex
      {
        var tempOutcome, tempError := TryNote(row, column, noteList[noteIndex], e);
        if tempOutcome == ArgumentOutOfRange {
          return ArgumentOutOfRange, noteIndex;
        }
        if tempError {
          noteIndex := noteIndex + 1;
        } else {
          break;
        }
      }
      outcome := Done;
    }

    /** One attempt of the note loop: a copy of the map with note written
        into the unknown cell (row, column), initialised and analysed, and
        then asked HasError, as Attempt states. */
    method TryNote(row: int, column: int, note: int, ghost e: Engine) returns (outcome: Outcome, error: bool)
      requires Valid() && InGrid(Pos(row, column)) && values[row, column] == 0 && note in Digits && IsEngine(e)
      ensures outcome == ArgumentOutOfRange <==> Attempt(e.pass, Board(), Pos(row, column), note) == Throws
      ensures outcome == Done ==> (error <==> Attempt(e.pass, Board(), Pos(row, column), note) == ErrorFound)
      decreases ZeroSet(), 0
    {
      ghost var b := Board();
      var tempMap := Deepcopy();
      tempMap.SetValue(row, column, note);
      tempMap.EmptyNotesAre();
      assert tempMap.ZeroSet() < ZeroSet() by {
        FillOneShrinks(b, Pos(row, column), note);
      }
      outcome := tempMap.InitAndAnalyze(e);
      assert Ran(e.run, b[Pos(row, column) := note], EmptyNotes()) == Run(e.pass, b[Pos(row, column) := note], EmptyNotes());
      error := false;
      if outcome == ArgumentOutOfRange {
        return;
      }
      error := tempMap.HasError();
    }

    /** Map.InitAndAnalyze: Init, then Analyze. */
    method InitAndAnalyze(ghost e: Engine) returns (outcome: Outcome)
      requires Valid() && Fresh() && IsEngine(e)
      modifies this`rowsDic, this`columnsDic, this`nineCellsDic, stamps, values, notes
      ensures Valid() && Initialized()
      ensures Ending(outcome, Board(), AllNotes()) == e.run(old(Board()), old(AllNotes()))
      decreases ZeroSet(), 6
    {
      Init();
      outcome := Analyze(e);
    }

    /** Map.Init: builds the row, column and box dictionaries and stamps
        every cell with the indices of its three groups. */
    method Init()
      requires Valid() && Fresh()
      modifies this`rowsDic, this`columnsDic, this`nineCellsDic, stamps
      ensures Valid() && Initialized()
    {
      InitRows();
      InitColumns();
      InitNineCells();
      forall r, c | 0 <= r < MaxCount && 0 <= c < MaxCount
        ensures stamps[r, c] == Stamp(r, c, NineCellIndex(r, c))
      {
        NineCellIndexInRange(r, c);
      }
    }

    /** Init's first loop: the row dictionary and the row stamps. */
    method InitRows()
      requires rowsDic == map[]
      requires stamps.Length0 == MaxCount && stamps.Length1 == MaxCount
      modifies this`rowsDic, stamps
      ensures rowsDic == map i | 0 <= i < MaxCount :: RowCells(i)
      ensures forall r, c :: 0 <= r < MaxCount && 0 <= c < MaxCount ==>
                stamps[r, c] == old(stamps[r, c]).(rowIndex := r)
    {
      for row := 0 to MaxCount
        invariant rowsDic == map i | 0 <= i < row :: RowCells(i)
        invariant forall r, c :: 0 <= r < MaxCount && 0 <= c < MaxCount ==>
                    stamps[r, c] == if r < row then old(stamps[r, c]).(rowIndex := r) else old(stamps[r, c])
      {
        AddRow(row);
      }
    }

    /** Init's second loop: the column dictionary and the column stamps. */
    method InitColumns()
      requires columnsDic == map[]
      requires stamps.Length0 == MaxCount && stamps.Length1 == MaxCount
      modifies this`columnsDic, stamps
      ensures columnsDic == map i | 0 <= i < MaxCount :: ColumnCells(i)
      ensures forall r, c :: 0 <= r < MaxCount && 0 <= c < MaxCount ==>
                stamps[r, c] == old(stamps[r, c]).(columnIndex := c)
    {
      for column := 0 to MaxCount
        invariant columnsDic == map i | 0 <= i < column :: ColumnCells(i)
        invariant forall r, c :: 0 <= r < MaxCount && 0 <= c < MaxCount ==>
                    stamps[r, c] == if c < column then old(stamps[r, c]).(columnIndex := c) else old(stamps[r, c])
      {
        AddColumn(column);
      }
    }

    /** Init's third loop: the box dictionary and the box stamps. */
    method InitNineCells()
      requires nineCellsDic == map[]
      requires stamps.Length0 == MaxCount && stamps.Length1 == MaxCount
      modifies this`nineCellsDic, stamps
      ensures nineCellsDic == map b | 0 <= b < MaxCount :: NineCells(b)
      ensures forall r, c :: 0 <= r < MaxCount && 0 <= c < MaxCount ==>
                stamps[r, c] == old(stamps[r, c]).(nineCellIndex := NineCellIndex(r, c))
    {
      for i := 0 to NineCellCount
        invariant nineCellsDic == map b | 0 <= b < i * NineCellCount :: NineCells(b)
        invariant forall r, c :: 0 <= r < MaxCount && 0 <= c < MaxCount ==>
                    stamps[r, c] == if NineCellIndex(r, c) < i * NineCellCount
                                    then old(stamps[r, c]).(nineCellIndex := NineCellIndex(r, c))
                                    else old(stamps[r, c])
      {
        for j := 0 to NineCellCount
          invariant nineCellsDic == map b | 0 <= b < i * NineCellCount + j :: NineCells(b)
          invariant forall r, c :: 0 <= r < MaxCount && 0 <= c < MaxCount ==>
                      stamps[r, c] == if NineCellIndex(r, c) < i * NineCellCount + j
                                      then old(stamps[r, c]).(nineCellIndex := NineCellIndex(r, c))
                                      else old(stamps[r, c])
        {
          AddNineCell(i, j);
        }
      }
    }

    /** One pass of Init's row loop: collects row `row`, stamps its cells
        with the row index and adds it to the row dictionary. */
    method AddRow(row: int)
      requires 0 <= row < MaxCount
      requires stamps.Length0 == MaxCount && stamps.Length1 == MaxCount
      modifies this`rowsDic, stamps
      ensures rowsDic == old(rowsDic)[row := RowCells(row)]
      ensures forall r, c :: 0 <= r < MaxCount && 0 <= c < MaxCount ==>
                stamps[r, c] == if r == row then old(stamps[r, c]).(rowIndex := row) else old(stamps[r, c])
    {
      var list: seq<Pos> := [];
      for column := 0 to MaxCount
        invariant rowsDic == old(rowsDic)
        invariant list == RowCells(row)[..column]
      {
        list := list + [Pos(row, column)];
      }
      assert list == RowCells(row);
      for k := 0 to |list|
        invariant rowsDic == old(rowsDic)
        invariant forall r, c :: 0 <= r < MaxCount && 0 <= c < MaxCount ==>
                    stamps[r, c] == if r == row && c < k then old(stamps[r, c]).(rowIndex := row) else old(stamps[r, c])
      {
        var cell := list[k];
        stamps[cell.row, cell.col] := stamps[cell.row, cell.col].(rowIndex := row);
      }
      rowsDic := rowsDic[row := list];
    }

    /** One pass of Init's column loop: collects column `column`, stamps
        its cells with the column index and adds it to the column
        dictionary. */
    method AddColumn(column: int)
      requires 0 <= column < MaxCount
      requires stamps.Length0 == MaxCount && stamps.Length1 == MaxCount
      modifies this`columnsDic, stamps
      ensures columnsDic == old(columnsDic)[column := ColumnCells(column)]
      ensures forall r, c :: 0 <= r < MaxCount && 0 <= c < MaxCount ==>
                stamps[r, c] == if c == column then old(stamps[r, c]).(columnIndex := column) else old(stamps[r, c])
    {
      var list: seq<Pos> := [];
      for row := 0 to MaxCount
        invariant columnsDic == old(columnsDic)
        invariant list == ColumnCells(column)[..row]
      {
        list := list + [Pos(row, column)];
      }
      assert list == ColumnCells(column);
      for k := 0 to |list|
        invariant columnsDic == old(columnsDic)
        invariant forall r, c :: 0 <= r < MaxCount && 0 <= c < MaxCount ==>
                    stamps[r, c] == if c == column && r < k then old(stamps[r, c]).(columnIndex := column) else old(stamps[r, c])
      {
        var cell := list[k];
        stamps[cell.row, cell.col] := stamps[cell.row, cell.col].(columnIndex := column);
      }
      columnsDic := columnsDic[column := list];
    }

    /** The cell-collecting loops of Init's AddNineCell: box (rowIndex,
        columIndex) read row by row. */
    static method CollectNineCell(rowIndex: int, columIndex: int) returns (list: seq<Pos>)
      requires 0 <= rowIndex < NineCellCount && 0 <= columIndex < NineCellCount
      ensures list == NineCells(rowIndex * NineCellCount + columIndex)
      ensures forall p :: p in list <==> InGrid(p) && NineCellIndex(p.row, p.col) == rowIndex * NineCellCount + columIndex
    {
      var index := rowIndex * NineCellCount + columIndex;
      list := [];
      for row := rowIndex * NineCellCount to (rowIndex + 1) * NineCellCount
        invariant list == NineCells(index)[..(row - rowIndex * NineCellCount) * NineCellCount]
      {
        for column := columIndex * NineCellCount to (columIndex + 1) * NineCellCount
          invariant list == NineCells(index)[..(row - rowIndex * NineCellCount) * NineCellCount +
                                                (column - columIndex * NineCellCount)]
        {
          ghost var k := (row - rowIndex * NineCellCount) * NineCellCount + (column - columIndex * NineCellCount);
          BoxCell(rowIndex, columIndex, row - rowIndex * NineCellCount, column - columIndex * NineCellCount);
          assert NineCells(index)[..k + 1] == NineCells(index)[..k] + [NineCells(index)[k]];
          list := list + [Pos(row, column)];
        }
      }
      NineCellGroup(index);
    }

    /** The List.ForEach of AddNineCell: every cell of the list gets the box
        index, and no other stamp changes. */
    method StampNineCell(list: seq<Pos>, index: int)
      requires stamps.Length0 == MaxCount && stamps.Length1 == MaxCount
      requires forall p :: p in list ==> InGrid(p)
      modifies stamps
      ensures forall r, c :: 0 <= r < MaxCount && 0 <= c < MaxCount ==>
                stamps[r, c] == if Pos(r, c) in list
                                then old(stamps[r, c]).(nineCellIndex := index)
                                else old(stamps[r, c])
    {
      for k := 0 to |list|
        invariant forall r, c :: 0 <= r < MaxCount && 0 <= c < MaxCount ==>
                    stamps[r, c] == if Pos(r, c) in list[..k]
                                    then old(stamps[r, c]).(nineCellIndex := index)
                                    else old(stamps[r, c])
      {
        var cell := list[k];
        assert cell in list;
        assert list[..k + 1] == list[..k] + [cell];
        stamps[cell.row, cell.col] := stamps[cell.row, cell.col].(nineCellIndex := index);
      }
      assert list[..|list|] == list;
    }

    /** Init's local AddNineCell: collects box (rowIndex, columIndex) row by
        row, stamps its cells with the box index and adds it to the box
        dictionary. */
    method AddNineCell(rowIndex: int, columIndex: int)
      requires 0 <= rowIndex < NineCellCount && 0 <= columIndex < NineCellCount
      requires stamps.Length0 == MaxCount && stamps.Length1 == MaxCount
      modifies this`nineCellsDic, stamps
      ensures var index := rowIndex * NineCellCount + columIndex;
              nineCellsDic == old(nineCellsDic)[index := NineCells(index)]
      ensures forall r, c :: 0 <= r < MaxCount && 0 <= c < MaxCount ==>
                stamps[r, c] == if NineCellIndex(r, c) == rowIndex * NineCellCount + columIndex
                                then old(stamps[r, c]).(nineCellIndex := rowIndex * NineCellCount + columIndex)
                                else old(stamps[r, c])
    {
      var index := rowIndex * NineCellCount + columIndex;
      var list := CollectNineCell(rowIndex, columIndex);
      StampNineCell(list, index);
      nineCellsDic := nineCellsDic[index := list];
    }
  }
}

/** What Map.Analyze computes, stated on snapshots: the values of the grid
    (a Board) and the notes of every cell (a NoteMap). A deduction pass is
    the row-major scan with Cell.UpdateNotes on each unknown cell that stops
    at the first visited cell the update leaves known; a round is a pass,
    then the error check, then the guess; Run is the whole loop. A guess
    tries the notes of one cell in order, each on a copy of the grid whose
    notes start empty, and the copies are analysed by Run itself.

    The methods of Solver.Map take these functions as ghost function values
    bundled in an Engine, and the one-line wrappers Visited, VisitOf, ScanOf,
    Passed, PassOf, Stepped and Ran apply such values. Both exist only to
    keep verification cheap: the methods see one step of a recursive
    definition at a time instead of unfolding it. They add no behaviour,
    since IsEngine pins an Engine's functions to Visit, RowScan, Pass,
    RoundStep and Run, and EngineAtIsEngine shows such an Engine exists. */
module Analysis {
  import opened Groups
  import opened Rules
  import opened Wrappers

  /** The Notes of every cell. */
  type NoteMap = map<Pos, set<int>>

  /** How a run of Map.Analyze ends: normally, or with the
      ArgumentOutOfRangeException raised when every note of the guessed cell
      led its copy to an error and notes[noteIndex] is read one past the end
      of the note list. */
  datatype Outcome = Done | ArgumentOutOfRange

  /** Both snapshots cover exactly the 9x9 grid. */
  predicate Grid(b: Board, n: NoteMap) {
    b.Keys == AllPos() && n.Keys == AllPos()
  }

  /** The notes of cells that have just been created from their values. */
  function EmptyNotes(): (n: NoteMap)
    ensures n.Keys == AllPos() && forall p :: p in n ==> n[p] == {}
  {
    map p | p in AllPos() :: {}
  }

  /** Cell.IsError: an unknown cell with no notes left. */
  predicate IsError(value: int, cellNotes: set<int>) {
    value == 0 && cellNotes == {}
  }

  /** Map.HasError on a snapshot: some cell is in error. */
  predicate SomeErrorIn(b: Board, n: NoteMap) {
    exists p :: p in b && p in n && IsError(b[p], n[p])
  }

  // ---------------------------------------------------------------------------
  // The deduction pass

  /** The state of a pass: the values, the notes, and whether the scan
      stopped because a visited cell became known. */
  datatype Scan = Scan(board: Board, notes: NoteMap, change: bool)

  /** Cell.UpdateNotes on the unknown cell p, as the pass sees it: the notes
      of p become its candidates, the values become AfterUpdate, and the
      pass restarts when p itself is now known. */
  ghost function Visit(b: Board, n: NoteMap, p: Pos): (r: Scan)
    requires Grid(b, n) && InGrid(p) && b[p] == 0
    ensures VisitKeeps(b, n, p, r)
  {
    AfterUpdateKeepsGivens(b, p);
    FixedWhenSingle(b, p);
    var after := AfterUpdate(b, p);
    Scan(after, n[p := Candidates(b, p)], after[p] != 0)
  }

  /** What a visit of the unknown cell p keeps, and all the pass relies on:
      only values that were unknown are filled in, only the notes of p
      change, the scan stops exactly when p became known, and otherwise p
      does not have exactly one note. */
  predicate VisitKeeps(b: Board, n: NoteMap, p: Pos, r: Scan)
    requires Grid(b, n) && InGrid(p)
  {
    && Grid(r.board, r.notes) && OnlyFillsZeros(b, r.board)
    && (forall q :: q in n && q != p ==> r.notes[q] == n[q])
    && (r.change <==> r.board[p] != 0)
    && (!r.change ==> |r.notes[p]| != 1)
  }

  /** A visit's values, notes and stop, given what Cell.UpdateNotes does to
      the unknown cell p. */
  lemma VisitIs(b: Board, n: NoteMap, p: Pos, after: Board, afterNotes: NoteMap, fixed: bool)
    requires Grid(b, n) && InGrid(p) && b[p] == 0
    requires after == AfterUpdate(b, p) && OnlyFillsZeros(b, after) && afterNotes == n[p := Candidates(b, p)]
    requires fixed <==> after[p] != 0
    ensures Scan(after, afterNotes, fixed) == Visit(b, n, p)
  {
  }

  /** A visit that does not stop the scan writes no value: the restart
      test at the visited cell alone misses no write into another cell. */
  lemma VisitQuiet(b: Board, n: NoteMap, p: Pos)
    requires Grid(b, n) && WellFormed(b) && InGrid(p) && b[p] == 0
    ensures !Visit(b, n, p).change ==> Visit(b, n, p).board == b
  {
    UpdateFixesOrKeeps(b, p);
  }

  /** A cell visit as a function value. The pass and the whole analysis
      are defined over any such function that keeps VisitKeeps, so that the
      proofs about them rest on those facts alone; Map's methods are proved
      for a visit that is Visit on every cell the pass visits (IsVisit). */
  type Visitor = (Board, NoteMap, Pos) -> Scan

  ghost predicate Keeps(visit: Visitor) {
    forall b, n, p {:trigger Visited(visit, b, n, p)} ::
      Grid(b, n) && InGrid(p) && b[p] == 0 ==> VisitKeeps(b, n, p, Visited(visit, b, n, p))
  }

  /** The visit of p; the proofs name it where they use the facts Keeps
      and IsVisit give about it. */
  ghost function Visited(visit: Visitor, b: Board, n: NoteMap, p: Pos): Scan {
    visit(b, n, p)
  }

  /** The visit of p, named where a proof uses IsVisit; kept apart from
      Visited so that the proofs about the pass never unfold Visit. */
  ghost function VisitOf(visit: Visitor, b: Board, n: NoteMap, p: Pos): Scan {
    visit(b, n, p)
  }

  /** The visit is Cell.UpdateNotes: it is Visit on every unknown cell. */
  ghost predicate IsVisit(visit: Visitor) {
    && Keeps(visit)
    && forall b, n, p {:trigger VisitOf(visit, b, n, p)} ::
         Grid(b, n) && InGrid(p) && b[p] == 0 ==> VisitOf(visit, b, n, p) == Visit(b, n, p)
  }

  /** Visit, extended to the cells the pass never visits. */
  ghost function VisitAt(b: Board, n: NoteMap, p: Pos): Scan {
    if Grid(b, n) && InGrid(p) && b[p] == 0 then Visit(b, n, p) else Scan(b, n, false)
  }

  /** There is such a visit: Visit itself, extended by VisitAt. */
  lemma VisitAtIsVisit()
    ensures IsVisit(VisitAt)
  {
    forall b, n, p | Grid(b, n) && InGrid(p) && b[p] == 0
      ensures VisitKeeps(b, n, p, Visited(VisitAt, b, n, p))
    {
      var r := Visit(b, n, p);
    }
  }

  /** The column loop of the pass over row `row`, from column `col` on:
      known cells are skipped, unknown cells visited, and the scan stops at
      the first visited cell that became known. */
  ghost function RowScan(visit: Visitor, b: Board, n: NoteMap, row: int, col: int): (r: Scan)
    requires Keeps(visit) && Grid(b, n) && 0 <= row < MaxCount && 0 <= col <= MaxCount
    ensures Grid(r.board, r.notes) && OnlyFillsZeros(b, r.board)
    decreases MaxCount - col
  {
    if col == MaxCount then Scan(b, n, false)
    else if b[Pos(row, col)] != 0 then RowScan(visit, b, n, row, col + 1)
    else
      var v := visit(b, n, Pos(row, col));
      assert VisitKeeps(b, n, Pos(row, col), Visited(visit, b, n, Pos(row, col)));
      if v.change then v else RowScan(visit, v.board, v.notes, row, col + 1)
  }

  /** The row loop of the pass, from row `row` on. */
  ghost function Pass(visit: Visitor, b: Board, n: NoteMap, row: int): (r: Scan)
    requires Keeps(visit) && Grid(b, n) && 0 <= row <= MaxCount
    ensures Grid(r.board, r.notes) && OnlyFillsZeros(b, r.board)
    decreases MaxCount - row
  {
    if row == MaxCount then Scan(b, n, false)
    else
      var s := RowScan(visit, b, n, row, 0);
      if s.change then s else Pass(visit, s.board, s.notes, row + 1)
  }

  /** A row scan as a function value, for the column loop of Map.Analyze:
      its proof steps through the scan with the lemmas below, one column at
      a time, and never unfolds RowScan itself. */
  type Scanner = (Board, NoteMap, int, int) -> Scan

  /** The scan of row `row` from column `col` on, named where a proof uses
      IsScanOf. */
  ghost function ScanOf(scan: Scanner, b: Board, n: NoteMap, row: int, col: int): Scan {
    scan(b, n, row, col)
  }

  /** The scan is RowScan with the visit `visit`. */
  ghost predicate IsScanOf(scan: Scanner, visit: Visitor)
    requires Keeps(visit)
  {
    forall b, n, row, col {:trigger ScanOf(scan, b, n, row, col)} ::
      Grid(b, n) && 0 <= row < MaxCount && 0 <= col <= MaxCount ==> ScanOf(scan, b, n, row, col) == RowScan(visit, b, n, row, col)
  }

  /** RowScan with VisitAt, extended to the arguments it does not cover. */
  ghost function ScanAt(b: Board, n: NoteMap, row: int, col: int): Scan {
    VisitAtIsVisit();
    if Grid(b, n) && 0 <= row < MaxCount && 0 <= col <= MaxCount then RowScan(VisitAt, b, n, row, col) else Scan(b, n, false)
  }

  /** There is such a scan: ScanAt. */
  lemma ScanAtIsScan()
    ensures IsVisit(VisitAt) && IsScanOf(ScanAt, VisitAt)
  {
    VisitAtIsVisit();
    assert IsScanOf(ScanAt, VisitAt);
  }

  /** The column loop ends after the last column. */
  lemma RowScanDone(visit: Visitor, scan: Scanner, b: Board, n: NoteMap, row: int)
    requires Keeps(visit) && IsScanOf(scan, visit) && Grid(b, n) && 0 <= row < MaxCount
    ensures scan(b, n, row, MaxCount) == Scan(b, n, false)
  {
    assert ScanOf(scan, b, n, row, MaxCount) == RowScan(visit, b, n, row, MaxCount);
  }

  /** The column loop skips a known cell. */
  lemma RowScanSkip(visit: Visitor, scan: Scanner, b: Board, n: NoteMap, row: int, col: int)
    requires Keeps(visit) && IsScanOf(scan, visit) && Grid(b, n) && 0 <= row < MaxCount && 0 <= col < MaxCount
    requires b[Pos(row, col)] != 0
    ensures scan(b, n, row, col) == scan(b, n, row, col + 1)
  {
    assert ScanOf(scan, b, n, row, col) == RowScan(visit, b, n, row, col);
    assert ScanOf(scan, b, n, row, col + 1) == RowScan(visit, b, n, row, col + 1);
  }

  /** The column loop visits an unknown cell, and goes on unless the visit
      left it known. */
  lemma RowScanVisit(visit: Visitor, scan: Scanner, b: Board, n: NoteMap, row: int, col: int)
    requires Keeps(visit) && IsScanOf(scan, visit) && Grid(b, n) && 0 <= row < MaxCount && 0 <= col < MaxCount
    requires b[Pos(row, col)] == 0
    ensures var v := visit(b, n, Pos(row, col));
            scan(b, n, row, col) == if v.change then v else scan(v.board, v.notes, row, col + 1)
  {
    var v := Visited(visit, b, n, Pos(row, col));
    assert VisitKeeps(b, n, Pos(row, col), v);
    assert ScanOf(scan, b, n, row, col) == RowScan(visit, b, n, row, col);
    assert ScanOf(scan, v.board, v.notes, row, col + 1) == RowScan(visit, v.board, v.notes, row, col + 1);
  }

  /** The row loop scans row `row`, and goes on unless the scan stopped. */
  lemma PassStep(visit: Visitor, b: Board, n: NoteMap, row: int)
    requires Keeps(visit) && Grid(b, n) && 0 <= row < MaxCount
    ensures var s := RowScan(visit, b, n, row, 0);
            Pass(visit, b, n, row) == if s.change then s else Pass(visit, s.board, s.notes, row + 1)
  {
  }

  /** A row scan that stops removes a cell from the unknown cells. */
  lemma {:induction false} RowScanShrinks(visit: Visitor, b: Board, n: NoteMap, row: int, col: int)
    requires Keeps(visit) && Grid(b, n) && 0 <= row < MaxCount && 0 <= col <= MaxCount
    ensures var r := RowScan(visit, b, n, row, col);
            r.change ==> Zeros(r.board) < Zeros(b)
    decreases MaxCount - col
  {
    if col < MaxCount {
      var p := Pos(row, col);
      if b[p] != 0 {
        RowScanShrinks(visit, b, n, row, col + 1);
      } else {
        var v := Visited(visit, b, n, p);
        assert VisitKeeps(b, n, p, v);
        FillingShrinks(b, v.board);
        if !v.change {
          RowScanShrinks(visit, v.board, v.notes, row, col + 1);
        } else {
          assert p in Zeros(b) && p !in Zeros(v.board);
        }
      }
    }
  }

  /** A row scan changes only the notes of the cells it scans. */
  lemma {:induction false} RowScanFrame(visit: Visitor, b: Board, n: NoteMap, row: int, col: int, q: Pos)
    requires Keeps(visit) && Grid(b, n) && 0 <= row < MaxCount && 0 <= col <= MaxCount
    requires q in n && (q.row != row || q.col < col)
    ensures RowScan(visit, b, n, row, col).notes[q] == n[q]
    decreases MaxCount - col, 1
  {
    if col < MaxCount {
      if b[Pos(row, col)] != 0 {
        RowScanFrame(visit, b, n, row, col + 1, q);
      } else {
        VisitFrame(visit, b, n, row, col, q);
      }
    }
  }

  /** The scan visits the unknown cell (row, col), which is not q. */
  lemma {:induction false} VisitFrame(visit: Visitor, b: Board, n: NoteMap, row: int, col: int, q: Pos)
    requires Keeps(visit) && Grid(b, n) && 0 <= row < MaxCount && 0 <= col < MaxCount
    requires q in n && (q.row != row || q.col < col) && b[Pos(row, col)] == 0
    ensures RowScan(visit, b, n, row, col).notes[q] == n[q]
    decreases MaxCount - col, 0
  {
    var v := Visited(visit, b, n, Pos(row, col));
    assert VisitKeeps(b, n, Pos(row, col), v);
    assert RowScan(visit, b, n, row, col) == if v.change then v else RowScan(visit, v.board, v.notes, row, col + 1);
    if !v.change {
      RowScanFrame(visit, v.board, v.notes, row, col + 1, q);
    }
  }

  /** After a row scan from column `col` that ran to the end of the row,
      the cell q is known or does not have exactly one note. */
  ghost predicate SettledAfter(visit: Visitor, b: Board, n: NoteMap, row: int, col: int, q: Pos)
    requires Keeps(visit) && Grid(b, n) && 0 <= row < MaxCount && 0 <= col <= MaxCount && InGrid(q)
  {
    var r := RowScan(visit, b, n, row, col);
    !r.change && r.board[q] == 0 ==> |r.notes[q]| != 1
  }

  /** A row scan that runs to the end of the row leaves no scanned unknown
      cell with exactly one note. */
  lemma {:induction false} RowScanStuck(visit: Visitor, b: Board, n: NoteMap, row: int, col: int, q: Pos)
    requires Keeps(visit) && Grid(b, n) && 0 <= row < MaxCount && 0 <= col <= MaxCount
    requires q.row == row && col <= q.col < MaxCount
    ensures SettledAfter(visit, b, n, row, col, q)
    decreases MaxCount - col, 1
  {
    if b[Pos(row, col)] != 0 {
      SkipSettles(visit, b, n, row, col, q);
    } else if q != Pos(row, col) {
      VisitPasses(visit, b, n, row, col, q);
    } else {
      VisitSettles(visit, b, n, q);
    }
  }

  /** The scan skips the known cell (row, col). */
  lemma {:induction false} SkipSettles(visit: Visitor, b: Board, n: NoteMap, row: int, col: int, q: Pos)
    requires Keeps(visit) && Grid(b, n) && 0 <= row < MaxCount && 0 <= col < MaxCount
    requires q.row == row && col <= q.col < MaxCount && b[Pos(row, col)] != 0
    ensures SettledAfter(visit, b, n, row, col, q)
    decreases MaxCount - col, 0
  {
    if q != Pos(row, col) {
      RowScanStuck(visit, b, n, row, col + 1, q);
    }
  }

  /** The scan visits the unknown cell (row, col) before q. */
  lemma {:induction false} VisitPasses(visit: Visitor, b: Board, n: NoteMap, row: int, col: int, q: Pos)
    requires Keeps(visit) && Grid(b, n) && 0 <= row < MaxCount && 0 <= col < MaxCount
    requires q.row == row && col < q.col < MaxCount && b[Pos(row, col)] == 0
    ensures SettledAfter(visit, b, n, row, col, q)
    decreases MaxCount - col, 0
  {
    var v := Visited(visit, b, n, Pos(row, col));
    if !v.change {
      RowScanStuck(visit, v.board, v.notes, row, col + 1, q);
      PassOnSettled(visit, b, n, row, col, q);
    }
  }

  /** What a later cell's scan settles, the scan from the visited cell
      (row, col) settles too. */
  lemma PassOnSettled(visit: Visitor, b: Board, n: NoteMap, row: int, col: int, q: Pos)
    requires Keeps(visit) && Grid(b, n) && 0 <= row < MaxCount && 0 <= col < MaxCount
    requires q.row == row && col < q.col < MaxCount && b[Pos(row, col)] == 0
    requires var v := Visited(visit, b, n, Pos(row, col));
             !v.change && SettledAfter(visit, v.board, v.notes, row, col + 1, q)
    ensures SettledAfter(visit, b, n, row, col, q)
  {
    assert VisitKeeps(b, n, Pos(row, col), Visited(visit, b, n, Pos(row, col)));
  }

  /** A visit of the unknown cell p that does not stop the scan leaves p
      with a note count other than one, and the rest of the row keeps it. */
  lemma VisitSettles(visit: Visitor, b: Board, n: NoteMap, p: Pos)
    requires Keeps(visit) && Grid(b, n) && InGrid(p) && b[p] == 0
    ensures SettledAfter(visit, b, n, p.row, p.col, p)
  {
    var v := Visited(visit, b, n, p);
    assert VisitKeeps(b, n, p, v);
    if !v.change {
      LaterColumnsKeep(visit, v.board, v.notes, p.row, p.col + 1, p);
    }
  }

  /** The columns after q keep q's notes, and q unknown afterwards was
      unknown before. */
  lemma LaterColumnsKeep(visit: Visitor, b: Board, n: NoteMap, row: int, col: int, q: Pos)
    requires Keeps(visit) && Grid(b, n) && 0 <= row < MaxCount && 0 <= col <= MaxCount
    requires InGrid(q) && q.row == row && q.col < col
    ensures var r := RowScan(visit, b, n, row, col);
            r.notes[q] == n[q] && (r.board[q] == 0 ==> b[q] == 0)
  {
    RowScanFrame(visit, b, n, row, col, q);
  }

  /** A row scan that runs to the end of the row leaves an unknown cell
      behind when there was one: a visited cell stays unknown. */
  lemma {:induction false} RowScanIdle(visit: Visitor, b: Board, n: NoteMap, row: int, col: int)
    requires Keeps(visit) && Grid(b, n) && 0 <= row < MaxCount && 0 <= col <= MaxCount
    ensures var r := RowScan(visit, b, n, row, col);
            !r.change && Zeros(b) != {} ==> Zeros(r.board) != {}
    decreases MaxCount - col
  {
    if col < MaxCount {
      var p := Pos(row, col);
      if b[p] != 0 {
        RowScanIdle(visit, b, n, row, col + 1);
      } else {
        var v := Visited(visit, b, n, p);
        assert VisitKeeps(b, n, p, v);
        if !v.change {
          assert p in Zeros(v.board);
          RowScanIdle(visit, v.board, v.notes, row, col + 1);
        }
      }
    }
  }

  /** A pass that stops removes a cell from the unknown cells. */
  lemma {:induction false} PassShrinks(visit: Visitor, b: Board, n: NoteMap, row: int)
    requires Keeps(visit) && Grid(b, n) && 0 <= row <= MaxCount
    ensures var r := Pass(visit, b, n, row);
            r.change ==> Zeros(r.board) < Zeros(b)
    decreases MaxCount - row
  {
    if row < MaxCount {
      RowScanShrinks(visit, b, n, row, 0);
      var s := RowScan(visit, b, n, row, 0);
      if !s.change {
        PassShrinks(visit, s.board, s.notes, row + 1);
        FillingShrinks(b, s.board);
      }
    }
  }

  /** A pass from row `row` on leaves the notes of earlier rows alone. */
  lemma {:induction false} PassFrame(visit: Visitor, b: Board, n: NoteMap, row: int, q: Pos)
    requires Keeps(visit) && Grid(b, n) && 0 <= row <= MaxCount && q in n && q.row < row
    ensures Pass(visit, b, n, row).notes[q] == n[q]
    decreases MaxCount - row
  {
    if row < MaxCount {
      RowScanFrame(visit, b, n, row, 0, q);
      var s := RowScan(visit, b, n, row, 0);
      if !s.change {
        PassFrame(visit, s.board, s.notes, row + 1, q);
      }
    }
  }

  /** A pass that runs to the end leaves no unknown cell of the rows it
      scanned with exactly one note. */
  lemma {:induction false} PassStuck(visit: Visitor, b: Board, n: NoteMap, row: int, q: Pos)
    requires Keeps(visit) && Grid(b, n) && 0 <= row <= MaxCount && InGrid(q) && row <= q.row
    ensures var r := Pass(visit, b, n, row);
            !r.change && r.board[q] == 0 ==> |r.notes[q]| != 1
    decreases MaxCount - row
  {
    var s := RowScan(visit, b, n, row, 0);
    if !s.change {
      if q.row == row {
        RowScanStuck(visit, b, n, row, 0, q);
        LaterRowsKeep(visit, s.board, s.notes, row + 1, q);
      } else {
        PassStuck(visit, s.board, s.notes, row + 1, q);
      }
    }
  }

  /** The rows after q's row keep q's notes, and q unknown afterwards was
      unknown before. */
  lemma LaterRowsKeep(visit: Visitor, b: Board, n: NoteMap, row: int, q: Pos)
    requires Keeps(visit) && Grid(b, n) && 0 <= row <= MaxCount && InGrid(q) && q.row < row
    ensures var r := Pass(visit, b, n, row);
            r.notes[q] == n[q] && (r.board[q] == 0 ==> b[q] == 0)
  {
    PassFrame(visit, b, n, row, q);
  }

  /** A pass that runs to the end leaves an unknown cell behind when there
      was one. */
  lemma {:induction false} PassIdle(visit: Visitor, b: Board, n: NoteMap, row: int)
    requires Keeps(visit) && Grid(b, n) && 0 <= row <= MaxCount
    ensures var r := Pass(visit, b, n, row);
            !r.change && Zeros(b) != {} ==> Zeros(r.board) != {}
    decreases MaxCount - row
  {
    if row < MaxCount {
      RowScanIdle(visit, b, n, row, 0);
      var s := RowScan(visit, b, n, row, 0);
      if !s.change {
        PassIdle(visit, s.board, s.notes, row + 1);
      }
    }
  }

  /** A whole pass: a stop shrinks the unknown cells; without one, no
      unknown cell has exactly one note, and a grid with an unknown cell
      still has one. */
  lemma PassOutcome(visit: Visitor, b: Board, n: NoteMap)
    requires Keeps(visit) && Grid(b, n)
    ensures var r := Pass(visit, b, n, 0);
            && Zeros(r.board) <= Zeros(b)
            && (r.change ==> Zeros(r.board) < Zeros(b))
            && (!r.change ==> forall q :: q in r.board && r.board[q] == 0 ==> |r.notes[q]| != 1)
            && (!r.change && Zeros(b) != {} ==> Zeros(r.board) != {})
  {
    var r := Pass(visit, b, n, 0);
    FillingShrinks(b, r.board);
    PassShrinks(visit, b, n, 0);
    PassIdle(visit, b, n, 0);
    forall q | q in r.board && r.board[q] == 0
      ensures !r.change ==> |r.notes[q]| != 1
    {
      PassStuck(visit, b, n, 0, q);
    }
  }

  // ---------------------------------------------------------------------------
  // The guess

  /** A cell the guess may pick: unknown, with more than one note. */
  predicate Guessable(b: Board, n: NoteMap, p: Pos) {
    p in b && b[p] == 0 && p in n && |n[p]| > 1
  }

  /** After a pass without a stop and without an error, every unknown cell
      has more than one note. */
  predicate Stalled(b: Board, n: NoteMap) {
    forall p :: p in b && b[p] == 0 ==> Guessable(b, n, p)
  }

  /** The first guessable cell at or after (row, col) in row-major order. */
  ghost function FirstGuessFrom(b: Board, n: NoteMap, row: int, col: int): (r: Option<Pos>)
    requires 0 <= row <= MaxCount && 0 <= col <= MaxCount
    ensures r.Some? ==>
      InGrid(r.value) && !Precedes(r.value, Pos(row, col)) && Guessable(b, n, r.value) &&
      forall q :: InGrid(q) && !Precedes(q, Pos(row, col)) && Precedes(q, r.value) ==> !Guessable(b, n, q)
    ensures r.None? ==> forall q :: InGrid(q) && !Precedes(q, Pos(row, col)) ==> !Guessable(b, n, q)
    decreases MaxCount - row, MaxCount - col
  {
    if row == MaxCount then None
    else if col == MaxCount then FirstGuessFrom(b, n, row + 1, 0)
    else if Guessable(b, n, Pos(row, col)) then Some(Pos(row, col))
    else FirstGuessFrom(b, n, row, col + 1)
  }

  /** The cell ForeachCells finds for the guess. */
  ghost function FirstGuess(b: Board, n: NoteMap): Option<Pos> {
    FirstGuessFrom(b, n, 0, 0)
  }

  /** The first guessable cell is the one that precedes every other. */
  lemma FirstGuessIs(b: Board, n: NoteMap, p: Pos)
    requires InGrid(p) && Guessable(b, n, p)
    requires forall q :: InGrid(q) && Precedes(q, p) ==> !Guessable(b, n, q)
    ensures FirstGuess(b, n) == Some(p)
  {
    var r := FirstGuess(b, n);
    assert !Precedes(p, Pos(0, 0));
    assert r.Some?;
    assert !Precedes(p, r.value) && !Precedes(r.value, p);
  }

  /** A stalled grid with an unknown cell has a cell to guess at. */
  lemma StalledHasGuess(b: Board, n: NoteMap)
    requires b.Keys == AllPos() && Stalled(b, n) && Zeros(b) != {}
    ensures FirstGuess(b, n).Some?
  {
    var q :| q in Zeros(b);
    assert InGrid(q) && Guessable(b, n, q) && !Precedes(q, Pos(0, 0));
  }

  /** How the analysis of one copy ends, as the note loop sees it: the copy
      raised, HasError holds on it, or neither. */
  datatype Trial = Throws | ErrorFound | NoError

  /** The note loop's verdict: a copy raised, every note's copy ended in
      error (noteIndex == notes.Count), or the note at `index` is taken. */
  datatype Choice = Aborted | Exhausted | Chosen(index: int)

  /** One step of the outer loop: carry on with new values and notes, or
      stop with an outcome. */
  datatype Step = Continue(board: Board, notes: NoteMap) | Stop(outcome: Outcome, board: Board, notes: NoteMap)

  /** The end of Map.Analyze: its outcome, the values and the notes. */
  datatype Ending = Ending(outcome: Outcome, board: Board, notes: NoteMap)

  // ---------------------------------------------------------------------------
  // The analysis

  /** A deduction pass from a given row on, as a function value; from row 0
      it is the whole pass. Map.Analyze is defined over any such function
      whose whole pass keeps PassKeeps; Map's methods are proved for a pass
      that is Pass of a visit that is Visit (IsPass). */
  type Passer = (Board, NoteMap, int) -> Scan

  /** What a whole pass keeps, as PassOutcome states it. */
  predicate PassKeeps(b: Board, n: NoteMap, r: Scan)
    requires Grid(b, n)
  {
    && Grid(r.board, r.notes) && OnlyFillsZeros(b, r.board)
    && Zeros(r.board) <= Zeros(b)
    && (r.change ==> Zeros(r.board) < Zeros(b))
    && (!r.change ==> forall q :: q in r.board && r.board[q] == 0 ==> |r.notes[q]| != 1)
    && (!r.change && Zeros(b) != {} ==> Zeros(r.board) != {})
  }

  ghost predicate Sound(pass: Passer) {
    forall b, n {:trigger Passed(pass, b, n)} :: Grid(b, n) ==> PassKeeps(b, n, Passed(pass, b, n))
  }

  /** The whole pass over b and n; the proofs name it where they use the
      facts Sound gives about it. */
  ghost function Passed(pass: Passer, b: Board, n: NoteMap): Scan {
    pass(b, n, 0)
  }

  /** The pass over b and n from row `row` on, named where a proof uses
      IsPassOf; kept apart from Passed so that the proofs about a round
      never unfold Pass. */
  ghost function PassOf(pass: Passer, b: Board, n: NoteMap, row: int): Scan {
    pass(b, n, row)
  }

  /** The pass is Pass with the visit `visit`. */
  ghost predicate IsPassOf(pass: Passer, visit: Visitor)
    requires Keeps(visit)
  {
    forall b, n, row {:trigger PassOf(pass, b, n, row)} ::
      Grid(b, n) && 0 <= row <= MaxCount ==> PassOf(pass, b, n, row) == Pass(visit, b, n, row)
  }

  /** The pass of Map.Analyze: a sound pass that is Pass with `visit` as
      the visit, where `visit` is Cell.UpdateNotes. */
  ghost predicate IsPass(pass: Passer, visit: Visitor) {
    IsVisit(visit) && Sound(pass) && IsPassOf(pass, visit)
  }

  /** Pass with VisitAt, extended to snapshots that are not grids. */
  ghost function PassAt(b: Board, n: NoteMap, row: int): Scan {
    VisitAtIsVisit();
    if Grid(b, n) && 0 <= row <= MaxCount then Pass(VisitAt, b, n, row) else Scan(b, n, false)
  }

  /** There is such a pass: PassAt. */
  lemma PassAtIsPass()
    ensures IsPass(PassAt, VisitAt)
  {
    VisitAtIsVisit();
    forall b, n | Grid(b, n)
      ensures PassKeeps(b, n, Passed(PassAt, b, n))
    {
      PassOutcome(VisitAt, b, n);
    }
    assert IsPassOf(PassAt, VisitAt);
  }

  /** The row loop of the pass scans row `row`, and goes on unless the scan
      stopped. */
  lemma PassOn(visit: Visitor, scan: Scanner, pass: Passer, b: Board, n: NoteMap, row: int)
    requires Keeps(visit) && IsScanOf(scan, visit) && IsPassOf(pass, visit)
    requires Grid(b, n) && 0 <= row < MaxCount
    ensures var s := scan(b, n, row, 0);
            pass(b, n, row) == if s.change then s else pass(s.board, s.notes, row + 1)
  {
    PassStep(visit, b, n, row);
    assert PassOf(pass, b, n, row) == Pass(visit, b, n, row);
    assert ScanOf(scan, b, n, row, 0) == RowScan(visit, b, n, row, 0);
    var s := RowScan(visit, b, n, row, 0);
    if !s.change {
      assert PassOf(pass, s.board, s.notes, row + 1) == Pass(visit, s.board, s.notes, row + 1);
    }
  }

  /** The row loop ends after the last row. */
  lemma PassDone(visit: Visitor, pass: Passer, b: Board, n: NoteMap)
    requires Keeps(visit) && IsPassOf(pass, visit) && Grid(b, n)
    ensures pass(b, n, MaxCount) == Scan(b, n, false)
  {
    assert PassOf(pass, b, n, MaxCount) == Pass(visit, b, n, MaxCount);
  }

  /** After a pass, no value became unknown; and when the pass did not
      stop and no cell is in error, the grid is stalled and, if it had an
      unknown cell, still has one. */
  lemma PassSettles(pass: Passer, b: Board, n: NoteMap)
    requires Sound(pass) && Grid(b, n)
    ensures var s := pass(b, n, 0);
            && Zeros(s.board) <= Zeros(b)
            && (!s.change && !SomeErrorIn(s.board, s.notes) && Zeros(b) != {} ==>
                  Stalled(s.board, s.notes) && Zeros(s.board) != {})
  {
    var s := Passed(pass, b, n);
    assert PassKeeps(b, n, s);
    if !s.change && !SomeErrorIn(s.board, s.notes) && Zeros(b) != {} {
      PassStalls(b, n, s);
    }
  }

  /** A pass that did not stop, on a grid with an unknown cell and no cell
      in error, leaves a stalled grid with an unknown cell. */
  lemma PassStalls(b: Board, n: NoteMap, s: Scan)
    requires Grid(b, n) && PassKeeps(b, n, s) && Zeros(b) != {}
    requires !s.change && !SomeErrorIn(s.board, s.notes)
    ensures Stalled(s.board, s.notes) && Zeros(s.board) != {}
  {
    forall p | p in s.board && s.board[p] == 0
      ensures Guessable(s.board, s.notes, p)
    {
      assert !IsError(s.board[p], s.notes[p]);
    }
  }

  /** Map.Analyze on the grid b with notes n. */
  ghost function Run(pass: Passer, b: Board, n: NoteMap): (r: Ending)
    requires Sound(pass) && Grid(b, n)
    ensures OnlyFillsZeros(b, r.board)
    ensures r.outcome == Done ==> Zeros(r.board) == {} || SomeErrorIn(r.board, r.notes)
    decreases Zeros(b), 4, 0
  {
    if Zeros(b) == {} then Ending(Done, b, n)
    else
      var s := RoundStep(pass, b, n);
      if s.Continue? then Run(pass, s.board, s.notes) else Ending(s.outcome, s.board, s.notes)
  }

  /** One iteration of the outer loop of Map.Analyze on a grid with an
      unknown cell: a pass; when it made no change, the error check and
      then the guess. */
  ghost function RoundStep(pass: Passer, b: Board, n: NoteMap): (r: Step)
    requires Sound(pass) && Grid(b, n) && Zeros(b) != {}
    ensures Grid(r.board, r.notes) && OnlyFillsZeros(b, r.board)
    ensures r.Continue? ==> Zeros(r.board) < Zeros(b)
    ensures r.Stop? && r.outcome == Done ==> SomeErrorIn(r.board, r.notes)
    decreases Zeros(b), 3, 0
  {
    var s := pass(b, n, 0);
    assert PassKeeps(b, n, Passed(pass, b, n));
    if s.change then Continue(s.board, s.notes)
    else if SomeErrorIn(s.board, s.notes) then Stop(Done, s.board, s.notes)
    else
      PassStalls(b, n, s);
      GuessStep(pass, s.board, s.notes)
  }

  /** The guess of Map.Analyze: the first guessable cell takes the note the
      note loop chooses; otherwise reading notes[noteIndex] raises. */
  ghost function GuessStep(pass: Passer, b: Board, n: NoteMap): (r: Step)
    requires Sound(pass) && Grid(b, n) && Stalled(b, n) && Zeros(b) != {}
    ensures Grid(r.board, r.notes) && OnlyFillsZeros(b, r.board)
    ensures r.Continue? ==> Zeros(r.board) < Zeros(b)
    ensures r.Stop? ==> r.outcome == ArgumentOutOfRange
    decreases Zeros(b), 2, 0
  {
    StalledHasGuess(b, n);
    var p := FirstGuess(b, n).value;
    var order := Ascending(n[p]);
    var c := PickFrom(pass, b, p, order, 0);
    if c.Chosen? then
      FillOneShrinks(b, p, order[c.index]);
      Continue(b[p := order[c.index]], n)
    else Stop(ArgumentOutOfRange, b, n)
  }

  /** The note loop from note j on: each note in turn is tried on a copy,
      and the first whose copy ends without error is chosen. */
  ghost function PickFrom(pass: Passer, b: Board, p: Pos, order: seq<int>, j: int): (r: Choice)
    requires Sound(pass) && b.Keys == AllPos() && InGrid(p) && b[p] == 0
    requires forall i :: 0 <= i < |order| ==> order[i] in Digits
    requires 0 <= j <= |order|
    ensures r.Chosen? ==> j <= r.index < |order|
    decreases Zeros(b), 1, |order| - j
  {
    if j == |order| then Exhausted
    else
      var t := Attempt(pass, b, p, order[j]);
      if t == Throws then Aborted
      else if t == ErrorFound then PickFrom(pass, b, p, order, j + 1)
      else Chosen(j)
  }

  /** One try of the note loop: a copy of the grid with v written into p,
      its notes empty, analysed to the end and then asked HasError. */
  ghost function Attempt(pass: Passer, b: Board, p: Pos, v: int): Trial
    requires Sound(pass) && b.Keys == AllPos() && InGrid(p) && b[p] == 0 && v in Digits
    decreases Zeros(b), 0, 0
  {
    FillOneShrinks(b, p, v);
    var r := Run(pass, b[p := v], EmptyNotes());
    if r.outcome == ArgumentOutOfRange then Throws
    else if SomeErrorIn(r.board, r.notes) then ErrorFound
    else NoError
  }

  /** Every copy for the notes order[j..k] ends in error. */
  ghost predicate AllErrors(pass: Passer, b: Board, p: Pos, order: seq<int>, j: int, k: int)
    requires Sound(pass) && b.Keys == AllPos() && InGrid(p) && b[p] == 0
    requires forall i :: 0 <= i < |order| ==> order[i] in Digits
    requires 0 <= j <= k <= |order|
  {
    forall i :: j <= i < k ==> Attempt(pass, b, p, order[i]) == ErrorFound
  }

  /** The chosen note is the first whose copy ends without error: every
      earlier copy ended in error. */
  lemma {:induction false} PickFromChosen(pass: Passer, b: Board, p: Pos, order: seq<int>, j: int)
    requires Sound(pass) && b.Keys == AllPos() && InGrid(p) && b[p] == 0
    requires forall i :: 0 <= i < |order| ==> order[i] in Digits
    requires 0 <= j <= |order|
    ensures var r := PickFrom(pass, b, p, order, j);
            r.Chosen? ==> Attempt(pass, b, p, order[r.index]) == NoError && AllErrors(pass, b, p, order, j, r.index)
    decreases |order| - j
  {
    if j < |order| && Attempt(pass, b, p, order[j]) == ErrorFound {
      PickFromChosen(pass, b, p, order, j + 1);
    }
  }

  /** The note loop runs past the last note only when every copy ends in
      error. */
  lemma {:induction false} PickFromExhausted(pass: Passer, b: Board, p: Pos, order: seq<int>, j: int)
    requires Sound(pass) && b.Keys == AllPos() && InGrid(p) && b[p] == 0
    requires forall i :: 0 <= i < |order| ==> order[i] in Digits
    requires 0 <= j <= |order|
    ensures PickFrom(pass, b, p, order, j) == Exhausted ==> AllErrors(pass, b, p, order, j, |order|)
    decreases |order| - j
  {
    if j < |order| && Attempt(pass, b, p, order[j]) == ErrorFound {
      PickFromExhausted(pass, b, p, order, j + 1);
    }
  }

  /** When every copy ends in error, the note loop runs past the last
      note. */
  lemma {:induction false} AllErrorsExhaust(pass: Passer, b: Board, p: Pos, order: seq<int>, j: int)
    requires Sound(pass) && b.Keys == AllPos() && InGrid(p) && b[p] == 0
    requires forall i :: 0 <= i < |order| ==> order[i] in Digits
    requires 0 <= j <= |order| && AllErrors(pass, b, p, order, j, |order|)
    ensures PickFrom(pass, b, p, order, j) == Exhausted
    decreases |order| - j
  {
    if j < |order| {
      AllErrorsExhaust(pass, b, p, order, j + 1);
    }
  }

  /** The note loop is cut short only by a copy that raised, every earlier
      copy having ended in error. */
  lemma {:induction false} PickFromAborted(pass: Passer, b: Board, p: Pos, order: seq<int>, j: int)
    requires Sound(pass) && b.Keys == AllPos() && InGrid(p) && b[p] == 0
    requires forall i :: 0 <= i < |order| ==> order[i] in Digits
    requires 0 <= j <= |order|
    ensures PickFrom(pass, b, p, order, j) == Aborted ==>
              exists i :: j <= i < |order| && Attempt(pass, b, p, order[i]) == Throws && AllErrors(pass, b, p, order, j, i)
    decreases |order| - j
  {
    if j < |order| && Attempt(pass, b, p, order[j]) == ErrorFound {
      PickFromAborted(pass, b, p, order, j + 1);
      if PickFrom(pass, b, p, order, j) == Aborted {
        var i :| j + 1 <= i < |order| && Attempt(pass, b, p, order[i]) == Throws && AllErrors(pass, b, p, order, j + 1, i);
        assert AllErrors(pass, b, p, order, j, i);
      }
    } else if j < |order| && Attempt(pass, b, p, order[j]) == Throws {
      assert AllErrors(pass, b, p, order, j, j);
    }
  }

  /** No copy raises before the first copy that ends without error. */
  lemma NoThrowBefore(pass: Passer, b: Board, p: Pos, order: seq<int>, k: int, i: int)
    requires Sound(pass) && b.Keys == AllPos() && InGrid(p) && b[p] == 0
    requires forall m :: 0 <= m < |order| ==> order[m] in Digits
    requires 0 <= k < |order| && 0 <= i < |order|
    requires Attempt(pass, b, p, order[k]) == NoError && AllErrors(pass, b, p, order, 0, k)
    requires AllErrors(pass, b, p, order, 0, i)
    ensures Attempt(pass, b, p, order[i]) != Throws
  {
    var tk := Attempt(pass, b, p, order[k]);
    var ti := Attempt(pass, b, p, order[i]);
    if i < k {
      assert ti == ErrorFound;
    } else if i == k {
      assert ti == tk;
    } else {
      assert false;
    }
  }

  /** The note loop's verdict, by the verdicts of the copies: a chosen
      note's copy ends without error after every earlier copy ended in
      error, and the loop chooses nothing exactly when every copy ends in
      error or a copy raises after the earlier ones ended in error. */
  lemma PickVerdict(pass: Passer, b: Board, p: Pos, order: seq<int>)
    requires Sound(pass) && b.Keys == AllPos() && InGrid(p) && b[p] == 0
    requires forall k :: 0 <= k < |order| ==> order[k] in Digits
    ensures var c := PickFrom(pass, b, p, order, 0);
            && (c.Chosen? ==> Attempt(pass, b, p, order[c.index]) == NoError && AllErrors(pass, b, p, order, 0, c.index))
            && (!c.Chosen? <==>
                  || AllErrors(pass, b, p, order, 0, |order|)
                  || exists i :: 0 <= i < |order| && Attempt(pass, b, p, order[i]) == Throws && AllErrors(pass, b, p, order, 0, i))
  {
    PickFromChosen(pass, b, p, order, 0);
    PickFromExhausted(pass, b, p, order, 0);
    PickFromAborted(pass, b, p, order, 0);
    if AllErrors(pass, b, p, order, 0, |order|) {
      AllErrorsExhaust(pass, b, p, order, 0);
    }
    var c := PickFrom(pass, b, p, order, 0);
    if c.Chosen? {
      forall i | 0 <= i < |order| && AllErrors(pass, b, p, order, 0, i)
        ensures Attempt(pass, b, p, order[i]) != Throws
      {
        NoThrowBefore(pass, b, p, order, c.index, i);
      }
    }
  }

  /** The guess, by the verdicts of the copies: the first guessable cell
      takes the first of its notes, in ascending order, whose copy ends
      without error after every earlier copy ended in error, and nothing
      else changes; the guess stops with ArgumentOutOfRange exactly when
      every copy ends in error or a copy raises after the earlier ones
      ended in error, and then nothing changes. */
  lemma GuessOutcome(pass: Passer, b: Board, n: NoteMap)
    requires Sound(pass) && Grid(b, n) && Stalled(b, n) && Zeros(b) != {}
    ensures FirstGuess(b, n).Some?
    ensures var p := FirstGuess(b, n).value;
            var order := Ascending(n[p]);
            var r := GuessStep(pass, b, n);
            && Guessable(b, n, p)
            && (r.Continue? ==>
                  exists i :: 0 <= i < |order| && r.board == b[p := order[i]] && r.notes == n &&
                              Attempt(pass, b, p, order[i]) == NoError && AllErrors(pass, b, p, order, 0, i))
            && (r.Stop? ==> r.board == b && r.notes == n)
            && (r.Stop? <==>
                  || AllErrors(pass, b, p, order, 0, |order|)
                  || exists i :: 0 <= i < |order| && Attempt(pass, b, p, order[i]) == Throws && AllErrors(pass, b, p, order, 0, i))
  {
    StalledHasGuess(b, n);
    var p := FirstGuess(b, n).value;
    var order := Ascending(n[p]);
    PickVerdict(pass, b, p, order);
    var c := PickFrom(pass, b, p, order, 0);
    if c.Chosen? {
      assert GuessStep(pass, b, n) == Continue(b[p := order[c.index]], n);
    }
  }

  // ---------------------------------------------------------------------------
  // The analysis as ghost parameters of Map's methods

  /** One round and a whole run as function values. */
  type Stepper = (Board, NoteMap) -> Step
  type Runner = (Board, NoteMap) -> Ending

  /** The round over b and n; the proofs name it where they use IsStepOf. */
  ghost function Stepped(step: Stepper, b: Board, n: NoteMap): Step {
    step(b, n)
  }

  /** The run over b and n; the proofs name it where they use IsRunOf. */
  ghost function Ran(run: Runner, b: Board, n: NoteMap): Ending {
    run(b, n)
  }

  /** The round is RoundStep with the pass `pass`. */
  ghost predicate IsStepOf(step: Stepper, pass: Passer)
    requires Sound(pass)
  {
    forall b, n {:trigger Stepped(step, b, n)} :: Grid(b, n) && Zeros(b) != {} ==> Stepped(step, b, n) == RoundStep(pass, b, n)
  }

  /** The run is Run with the pass `pass`. */
  ghost predicate IsRunOf(run: Runner, pass: Passer)
    requires Sound(pass)
  {
    forall b, n {:trigger Ran(run, b, n)} :: Grid(b, n) ==> Ran(run, b, n) == Run(pass, b, n)
  }

  /** The functions Map.Analyze and its helpers are proved against: the
      visit, the row scan, the pass, the round and the run. */
  datatype Engine = Engine(visit: Visitor, scan: Scanner, pass: Passer, step: Stepper, run: Runner)

  /** The engine is Map.Analyze's: the visit is Visit, the row scan is
      RowScan and the pass Pass of that visit, the round is RoundStep and
      the run is Run of that pass. */
  ghost predicate IsEngine(e: Engine) {
    && IsPass(e.pass, e.visit) && IsScanOf(e.scan, e.visit)
    && IsStepOf(e.step, e.pass) && IsRunOf(e.run, e.pass)
  }

  /** RoundStep with PassAt, extended to snapshots it does not cover. */
  ghost function StepAt(b: Board, n: NoteMap): Step {
    PassAtIsPass();
    if Grid(b, n) && Zeros(b) != {} then RoundStep(PassAt, b, n) else Continue(b, n)
  }

  /** Run with PassAt, extended to snapshots that are not grids. */
  ghost function RunAt(b: Board, n: NoteMap): Ending {
    PassAtIsPass();
    if Grid(b, n) then Run(PassAt, b, n) else Ending(Done, b, n)
  }

  /** There is such an engine. */
  lemma EngineAtIsEngine()
    ensures IsEngine(Engine(VisitAt, ScanAt, PassAt, StepAt, RunAt))
  {
    PassAtIsPass();
    ScanAtIsScan();
    assert IsStepOf(StepAt, PassAt);
    assert IsRunOf(RunAt, PassAt);
  }

  /** The run of a grid with an unknown cell is one round and then, if the
      round carries on, the run of what the round left. */
  lemma RunOn(e: Engine, b: Board, n: NoteMap)
    requires IsEngine(e) && Grid(b, n) && Zeros(b) != {}
    ensures var s := e.step(b, n);
            && Grid(s.board, s.notes)
            && (s.Continue? ==> Zeros(s.board) < Zeros(b) && e.run(b, n) == e.run(s.board, s.notes))
            && (s.Stop? ==> e.run(b, n) == Ending(s.outcome, s.board, s.notes))
  {
    assert Stepped(e.step, b, n) == RoundStep(e.pass, b, n);
    assert Ran(e.run, b, n) == Run(e.pass, b, n);
    var s := RoundStep(e.pass, b, n);
    if s.Continue? {
      assert Ran(e.run, s.board, s.notes) == Run(e.pass, s.board, s.notes);
    }
  }

  /** The run of a grid with no unknown cell ends at once. */
  lemma RunOnSolved(e: Engine, b: Board, n: NoteMap)
    requires IsEngine(e) && Grid(b, n) && Zeros(b) == {}
    ensures e.run(b, n) == Ending(Done, b, n)
  {
    assert Ran(e.run, b, n) == Run(e.pass, b, n);
  }
}

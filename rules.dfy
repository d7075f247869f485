/** The deduction rules of a cell, stated on a snapshot of the grid's values
    (a Board maps every position to its value, 0 meaning unknown). These are
    the specifications that the Solver's methods are proved against: the
    value sets of Extensions, the candidate set, CanSet, the hidden-single
    probe over a box and the whole effect of Cell.UpdateNotes on the grid. */
module Rules {
  import opened Groups

  type Board = map<Pos, int>

  /** The digits a cell may hold once fixed (Extensions.s_CellValue). */
  const Digits: set<int> := set v | 1 <= v <= 9

  /** A board of the 9x9 grid whose values are 0 (unknown) or a digit. */
  predicate WellFormed(b: Board) {
    b.Keys == AllPos() && forall p :: p in b ==> 0 <= b[p] <= 9
  }

  /** The unknown cells. */
  function Zeros(b: Board): set<Pos> {
    set p | p in b && b[p] == 0
  }

  /** The non-zero values held by the cells of a list (Extensions.CellValues). */
  function ValuesIn(b: Board, cells: seq<Pos>): set<int> {
    set p | p in cells && p in b && b[p] != 0 :: b[p]
  }

  /** The digits not held by any cell of a list (Extensions.CellReverseValues). */
  function ReverseValuesIn(b: Board, cells: seq<Pos>): set<int> {
    Digits - ValuesIn(b, cells)
  }

  /** The notes Cell.UpdateNotes computes for p: the digits missing from its
      row, minus the values of its column, minus the values of its box. */
  function Candidates(b: Board, p: Pos): set<int> {
    ReverseValuesIn(b, RowCells(p.row))
      - ValuesIn(b, ColumnCells(p.col))
      - ValuesIn(b, NineCells(NineCellIndex(p.row, p.col)))
  }

  /** Cell.CanSet: p is unknown and no cell of its row or its column holds v.
      The box of p is deliberately not consulted. */
  predicate CanSet(b: Board, p: Pos, v: int) {
    p in b && b[p] == 0 &&
    forall q :: q in RowCells(p.row) + ColumnCells(p.col) && q in b ==> b[q] != v
  }

  /** The cells of a list that pass CanSet for v, in list order (the list that
      List.RemoveAll leaves in the hidden-single probe). */
  function SettableCells(b: Board, cells: seq<Pos>, v: int): (r: seq<Pos>)
    ensures forall q :: q in r <==> q in cells && CanSet(b, q, v)
    ensures |r| <= |cells|
  {
    if cells == [] then []
    else (if CanSet(b, cells[0], v) then [cells[0]] else []) + SettableCells(b, cells[1..], v)
  }

  lemma SettableUnfold(b: Board, cells: seq<Pos>, v: int, i: int)
    requires 0 <= i < |cells|
    ensures SettableCells(b, cells[i..], v) ==
            (if CanSet(b, cells[i], v) then [cells[i]] else []) + SettableCells(b, cells[i + 1..], v)
  {
    assert cells[i..][1..] == cells[i + 1..];
  }

  /** Scanning a list front to back: the settable cells found so far plus
      the settable cells of the rest are all the settable cells. */
  lemma SettableFrom(b: Board, cells: seq<Pos>, v: int, i: int, t: seq<Pos>)
    requires 0 <= i < |cells|
    requires t + SettableCells(b, cells[i..], v) == SettableCells(b, cells, v)
    ensures (if CanSet(b, cells[i], v) then t + [cells[i]] else t) + SettableCells(b, cells[i + 1..], v)
            == SettableCells(b, cells, v)
  {
    SettableUnfold(b, cells, v, i);
    var rest := SettableCells(b, cells[i + 1..], v);
    if CanSet(b, cells[i], v) {
      assert t + ([cells[i]] + rest) == (t + [cells[i]]) + rest;
    } else {
      assert [] + rest == rest;
    }
  }

  /** One note of the hidden-single probe: when exactly one cell of the box
      can take v, that cell is set to v. */
  function HiddenStep(b: Board, box: seq<Pos>, v: int): (r: Board)
    ensures r.Keys == b.Keys
    ensures r == b || exists q :: q in box && CanSet(b, q, v) && r == b[q := v] &&
                                  forall q' :: q' in box && CanSet(b, q', v) ==> q' == q
  {
    var t := SettableCells(b, box, v);
    if |t| == 1 then
      assert t[0] in t;
      b[t[0] := v]
    else b
  }

  /** The hidden-single probe over the notes in iteration order; each note
      sees the assignments made for the notes before it. */
  function HiddenSingles(b: Board, box: seq<Pos>, notes: seq<int>): (r: Board)
    ensures r.Keys == b.Keys
    decreases |notes|
  {
    if notes == [] then b
    else HiddenStep(HiddenSingles(b, box, notes[..|notes| - 1]), box, notes[|notes| - 1])
  }

  /** The probe over one more note is one more HiddenStep, which sets the
      single settable cell when there is exactly one. */
  lemma HiddenSinglesStep(b: Board, box: seq<Pos>, notes: seq<int>, i: int)
    requires 0 <= i < |notes|
    ensures HiddenSingles(b, box, notes[..i + 1]) ==
            var cur := HiddenSingles(b, box, notes[..i]);
            var t := SettableCells(cur, box, notes[i]);
            if |t| == 1 then cur[t[0] := notes[i]] else cur
  {
    assert notes[..i + 1][..i] == notes[..i];
  }

  /** The digits of s from k to 9 in ascending order. */
  function AscendingFrom(s: set<int>, k: int): (r: seq<int>)
    requires 1 <= k <= 10
    ensures forall v :: v in r <==> v in s && k <= v <= 9
    ensures forall i :: 0 <= i < |r| ==> k <= r[i]
    ensures forall i, j :: 0 <= i < j < |r| ==> r[i] < r[j]
    decreases 10 - k
  {
    if k == 10 then []
    else (if k in s then [k] else []) + AscendingFrom(s, k + 1)
  }

  /** The enumeration order of a note set: its digits, ascending. */
  function Ascending(s: set<int>): (r: seq<int>)
    ensures forall v :: v in r <==> v in s && v in Digits
    ensures forall i, j :: 0 <= i < j < |r| ==> r[i] < r[j]
  {
    AscendingFrom(s, 1)
  }

  /** The values of the grid after Cell.UpdateNotes on p. A fixed cell does
      nothing. With more than one candidate the hidden-single probe runs over
      p's box; with exactly one candidate p takes it (a naked single); with
      none nothing is assigned. */
  function AfterUpdate(b: Board, p: Pos): (r: Board)
    requires p in b
    ensures r.Keys == b.Keys
  {
    if b[p] != 0 then b
    else
      var n := Candidates(b, p);
      if |n| > 1 then HiddenSingles(b, NineCells(NineCellIndex(p.row, p.col)), Ascending(n))
      else if |n| == 1 then
        var order := Ascending(n);
        assert |order| > 0 by { SingletonHasFirst(n); }
        b[p := order[0]]
      else b
  }

  /** A non-empty note set enumerates at least one note, and its first one is a note. */
  lemma FirstNote(n: set<int>)
    requires n <= Digits && n != {}
    ensures |Ascending(n)| > 0 && Ascending(n)[0] in n
  {
    var v :| v in n;
    assert v in Ascending(n);
    assert Ascending(n)[0] in Ascending(n);
  }

  lemma SingletonHasFirst(n: set<int>)
    requires |n| == 1 && n <= Digits
    ensures exists v :: n == {v} && Ascending(n) == [v]
  {
    var v :| v in n;
    assert n == {v} by {
      assert |n - {v}| == 0;
    }
    AscendingSingleton(v, 1);
  }

  lemma {:induction false} AscendingSingleton(v: int, k: int)
    requires 1 <= k <= 10 && v in Digits
    ensures AscendingFrom({v}, k) == if k <= v then [v] else []
    decreases 10 - k
  {
    if k < 10 {
      AscendingSingleton(v, k + 1);
    }
  }

  // ---------------------------------------------------------------------------
  // What the rules mean

  lemma InValuesOfRow(b: Board, row: int, v: int)
    requires WellFormed(b) && 0 <= row < MaxCount
    ensures v in ValuesIn(b, RowCells(row)) <==>
            v != 0 && exists q :: q in b && q.row == row && b[q] == v
  {
    RowGroup(row);
    if exists q :: q in b && q.row == row && b[q] == v {
      var q :| q in b && q.row == row && b[q] == v;
      AllPosIsGrid(q);
    }
  }

  lemma InValuesOfColumn(b: Board, col: int, v: int)
    requires WellFormed(b) && 0 <= col < MaxCount
    ensures v in ValuesIn(b, ColumnCells(col)) <==>
            v != 0 && exists q :: q in b && q.col == col && b[q] == v
  {
    ColumnGroup(col);
    if exists q :: q in b && q.col == col && b[q] == v {
      var q :| q in b && q.col == col && b[q] == v;
      AllPosIsGrid(q);
    }
  }

  lemma InValuesOfBox(b: Board, index: int, v: int)
    requires WellFormed(b) && 0 <= index < MaxCount
    ensures v in ValuesIn(b, NineCells(index)) <==>
            v != 0 && exists q :: q in b && NineCellIndex(q.row, q.col) == index && b[q] == v
  {
    NineCellGroup(index);
    if exists q :: q in b && NineCellIndex(q.row, q.col) == index && b[q] == v {
      var q :| q in b && NineCellIndex(q.row, q.col) == index && b[q] == v;
      AllPosIsGrid(q);
    }
  }

  /** A digit is a candidate of p exactly when no cell of p's row, column or
      box holds it. */
  lemma CandidatesExact(b: Board, p: Pos, v: int)
    requires WellFormed(b) && InGrid(p)
    ensures v in Candidates(b, p) <==>
            v in Digits && forall q :: q in b && SameGroup(p, q) ==> b[q] != v
  {
    NineCellIndexInRange(p.row, p.col);
    InValuesOfRow(b, p.row, v);
    InValuesOfColumn(b, p.col, v);
    InValuesOfBox(b, NineCellIndex(p.row, p.col), v);
  }

  /** CanSet holds exactly when p is unknown and no cell of its row or column
      holds v; cells that share only the box do not matter. */
  lemma CanSetExact(b: Board, p: Pos, v: int)
    requires WellFormed(b) && InGrid(p)
    ensures CanSet(b, p, v) <==>
            b[p] == 0 && forall q :: q in b && (q.row == p.row || q.col == p.col) ==> b[q] != v
  {
    AllPosIsGrid(p);
    RowGroup(p.row);
    ColumnGroup(p.col);
    forall q | q in b && (q.row == p.row || q.col == p.col)
      ensures q in RowCells(p.row) + ColumnCells(p.col)
    {
      AllPosIsGrid(q);
    }
  }

  /** Changing a cell outside p's row and column never changes CanSet at p,
      even when that cell is in p's box. */
  lemma CanSetIgnoresBox(b: Board, p: Pos, q: Pos, x: int, v: int)
    requires WellFormed(b) && InGrid(p) && InGrid(q)
    requires q.row != p.row && q.col != p.col
    ensures CanSet(b[q := x], p, v) == CanSet(b, p, v)
  {
    RowGroup(p.row);
    ColumnGroup(p.col);
  }

  /** Every candidate of an unknown cell passes CanSet there. */
  lemma CandidateCanSet(b: Board, p: Pos, v: int)
    requires WellFormed(b) && InGrid(p) && b[p] == 0
    requires v in Candidates(b, p)
    ensures CanSet(b, p, v)
  {
    CandidatesExact(b, p, v);
    CanSetExact(b, p, v);
  }

  lemma DistinctTail(cells: seq<Pos>)
    requires Distinct(cells) && cells != []
    ensures Distinct(cells[1..]) && cells[0] !in cells[1..]
  {
    var rest := cells[1..];
    forall i | 0 <= i < |rest| ensures rest[i] != cells[0] {
      assert rest[i] == cells[i + 1];
    }
    forall i, j | 0 <= i < j < |rest| ensures rest[i] != rest[j] {
      assert rest[i] == cells[i + 1] && rest[j] == cells[j + 1];
    }
  }

  lemma {:induction false} SettableNone(b: Board, cells: seq<Pos>, v: int)
    requires forall q :: q in cells ==> !CanSet(b, q, v)
    ensures SettableCells(b, cells, v) == []
  {
    if cells != [] {
      SettableNone(b, cells[1..], v);
    }
  }

  lemma {:induction false} SettableUnique(b: Board, cells: seq<Pos>, v: int, q: Pos)
    requires Distinct(cells) && q in cells && CanSet(b, q, v)
    requires forall q' :: q' in cells && CanSet(b, q', v) ==> q' == q
    ensures SettableCells(b, cells, v) == [q]
  {
    DistinctTail(cells);
    if cells[0] == q {
      SettableNone(b, cells[1..], v);
    } else {
      SettableUnique(b, cells[1..], v, q);
    }
  }

  /** The converse of HiddenStep's contract: when q is the one cell of a box
      that can take v, q is set to v. */
  lemma HiddenStepFires(b: Board, index: int, v: int, q: Pos)
    requires 0 <= index < MaxCount
    requires q in NineCells(index) && CanSet(b, q, v)
    requires forall q' :: q' in NineCells(index) && CanSet(b, q', v) ==> q' == q
    ensures HiddenStep(b, NineCells(index), v) == b[q := v]
  {
    NineCellGroup(index);
    SettableUnique(b, NineCells(index), v, q);
  }

  /** r differs from b only in cells that were unknown in b and now hold a digit. */
  predicate OnlyFillsZeros(b: Board, r: Board) {
    r.Keys == b.Keys && forall q :: q in b && b[q] != r[q] ==> b[q] == 0 && r[q] in Digits
  }

  lemma FillingTwice(a: Board, b: Board, c: Board)
    requires OnlyFillsZeros(a, b) && OnlyFillsZeros(b, c)
    ensures OnlyFillsZeros(a, c)
  {
  }

  /** Filling only unknown cells never creates an unknown cell. */
  lemma FillingShrinks(b: Board, r: Board)
    requires OnlyFillsZeros(b, r)
    ensures Zeros(r) <= Zeros(b)
  {
  }

  /** Filling one unknown cell removes it from the unknown cells. */
  lemma FillOneShrinks(b: Board, p: Pos, x: int)
    requires p in b && b[p] == 0 && x in Digits
    ensures OnlyFillsZeros(b, b[p := x]) && Zeros(b[p := x]) < Zeros(b)
  {
    assert p in Zeros(b) && p !in Zeros(b[p := x]);
  }

  /** The hidden-single probe writes only the notes it runs over, and only
      into unknown cells. */
  lemma {:induction false} HiddenSinglesKeepGivens(b: Board, box: seq<Pos>, notes: seq<int>)
    requires forall i :: 0 <= i < |notes| ==> notes[i] in Digits
    ensures OnlyFillsZeros(b, HiddenSingles(b, box, notes))
    decreases |notes|
  {
    if notes != [] {
      var prefix := notes[..|notes| - 1];
      HiddenSinglesKeepGivens(b, box, prefix);
      var cur := HiddenSingles(b, box, prefix);
      assert notes[|notes| - 1] in Digits;
      FillingTwice(b, cur, HiddenStep(cur, box, notes[|notes| - 1]));
    }
  }

  /** The hidden-single probe over a box holding the unknown cell p, with
      notes that p can all take, either writes nothing or fixes p itself:
      while p is unknown it is settable for each note, so a note with a
      single settable cell sets p. */
  lemma {:induction false} ProbeFixesOrKeeps(b: Board, box: seq<Pos>, p: Pos, notes: seq<int>)
    requires p in box && p in b && b[p] == 0
    requires forall i :: 0 <= i < |notes| ==> CanSet(b, p, notes[i])
    ensures var r := HiddenSingles(b, box, notes); r == b || r[p] != 0
    decreases |notes|
  {
    if notes != [] {
      var init := notes[..|notes| - 1];
      ProbeFixesOrKeeps(b, box, p, init);
      var cur := HiddenSingles(b, box, init);
      var v := notes[|notes| - 1];
      var t := SettableCells(cur, box, v);
      if |t| == 1 {
        assert t[0] in t;
        if cur == b {
          assert CanSet(b, p, v);
          assert p in t;
        }
      }
    }
  }

  /** An update that leaves the unknown cell p unknown writes no value at
      all, so only a write into p can change the grid. */
  lemma UpdateFixesOrKeeps(b: Board, p: Pos)
    requires WellFormed(b) && InGrid(p) && b[p] == 0
    ensures AfterUpdate(b, p)[p] == 0 ==> AfterUpdate(b, p) == b
  {
    AllPosIsGrid(p);
    var n := Candidates(b, p);
    var order := Ascending(n);
    if |n| > 1 {
      var box := NineCells(NineCellIndex(p.row, p.col));
      NineCellIndexInRange(p.row, p.col);
      NineCellGroup(NineCellIndex(p.row, p.col));
      forall i | 0 <= i < |order| ensures CanSet(b, p, order[i]) {
        CandidateCanSet(b, p, order[i]);
      }
      ProbeFixesOrKeeps(b, box, p, order);
    } else if |n| == 1 {
      SingletonHasFirst(n);
    }
  }

  /** Cell.UpdateNotes only ever assigns unknown cells, and only digits:
      given or fixed values are never overwritten and the unknown cells can
      only become fewer. */
  lemma AfterUpdateKeepsGivens(b: Board, p: Pos)
    requires p in b
    ensures OnlyFillsZeros(b, AfterUpdate(b, p))
    ensures Zeros(AfterUpdate(b, p)) <= Zeros(b)
    ensures WellFormed(b) ==> WellFormed(AfterUpdate(b, p))
  {
    if b[p] == 0 && |Candidates(b, p)| > 1 {
      ProbeKeepsGivens(b, p);
    } else if b[p] == 0 && |Candidates(b, p)| == 1 {
      SingleKeepsGivens(b, p);
    }
    FillingShrinks(b, AfterUpdate(b, p));
  }

  lemma ProbeKeepsGivens(b: Board, p: Pos)
    requires p in b && b[p] == 0 && |Candidates(b, p)| > 1
    ensures OnlyFillsZeros(b, AfterUpdate(b, p))
  {
    var order := Ascending(Candidates(b, p));
    HiddenSinglesKeepGivens(b, NineCells(NineCellIndex(p.row, p.col)), order);
  }

  /** An unknown cell without candidates: the update changes nothing. */
  lemma NoCandidates(b: Board, p: Pos)
    requires p in b && b[p] == 0 && |Candidates(b, p)| == 0
    ensures AfterUpdate(b, p) == b
  {
  }

  /** An unknown cell with several candidates: the update is the probe over
      its box in ascending note order, and it only fills unknown cells. */
  lemma ProbeUpdate(b: Board, p: Pos)
    requires WellFormed(b) && InGrid(p) && b[p] == 0 && |Candidates(b, p)| > 1
    ensures AfterUpdate(b, p) == HiddenSingles(b, NineCells(NineCellIndex(p.row, p.col)), Ascending(Candidates(b, p)))
    ensures OnlyFillsZeros(b, AfterUpdate(b, p))
  {
    AllPosIsGrid(p);
    ProbeKeepsGivens(b, p);
  }

  lemma SingleKeepsGivens(b: Board, p: Pos)
    requires p in b && b[p] == 0 && |Candidates(b, p)| == 1
    ensures OnlyFillsZeros(b, AfterUpdate(b, p))
  {
    var n := Candidates(b, p);
    FirstNote(n);
    var x := Ascending(n)[0];
    assert x in Digits by {
      assert x in n;
    }
    FillOneShrinks(b, p, x);
    assert AfterUpdate(b, p) == b[p := x];
  }

  /** A naked single: an unknown cell with exactly one candidate takes it,
      and nothing else changes. */
  lemma NakedSingle(b: Board, p: Pos)
    requires p in b && b[p] == 0
    requires |Candidates(b, p)| == 1
    ensures exists v :: Candidates(b, p) == {v} && AfterUpdate(b, p) == b[p := v]
  {
    SingletonHasFirst(Candidates(b, p));
  }

  /** An unknown cell with exactly one candidate does not stay unknown
      through Cell.UpdateNotes. */
  lemma FixedWhenSingle(b: Board, p: Pos)
    requires p in b && b[p] == 0
    ensures p in AfterUpdate(b, p)
    ensures |Candidates(b, p)| == 1 ==> AfterUpdate(b, p)[p] in Digits
  {
    AfterUpdateKeepsGivens(b, p);
    if |Candidates(b, p)| == 1 {
      NakedSingle(b, p);
    }
  }
}

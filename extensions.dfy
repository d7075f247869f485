/** The value-set helpers of the Extensions class, over the grid's value
    array and a list of cell positions (a row, column or box group). */
module Extensions {
  import opened Groups
  import opened Rules

  /** Extensions.CellValues: the set of non-zero values of the listed cells. */
  method CellValues(a: array2<int>, cells: seq<Pos>) returns (s: set<int>)
    requires a.Length0 == MaxCount && a.Length1 == MaxCount
    requires forall p :: p in cells ==> InGrid(p)
    ensures s == ValuesIn(SnapshotOf(a), cells)
    ensures forall v :: v in s <==> v != 0 && exists p :: p in cells && a[p.row, p.col] == v
  {
    s := {};
    assert forall j :: 0 <= j < |cells| ==> InGrid(cells[j]) by {
      forall j | 0 <= j < |cells| ensures InGrid(cells[j]) {
        assert cells[j] in cells;
      }
    }
    for i := 0 to |cells|
      invariant forall v :: v in s <==> v != 0 && exists j :: 0 <= j < i && a[cells[j].row, cells[j].col] == v
    {
      var p := cells[i];
      assert InGrid(p) by { assert p in cells; }
      var v := a[p.row, p.col];
      if v != 0 {
        s := s + {v};
      }
    }
    ghost var b := SnapshotOf(a);
    forall v ensures v in s <==> v != 0 && exists p :: p in cells && a[p.row, p.col] == v {
      if v != 0 && exists p :: p in cells && a[p.row, p.col] == v {
        var p :| p in cells && a[p.row, p.col] == v;
        var j :| 0 <= j < |cells| && cells[j] == p;
      }
    }
    forall v | v in s ensures v in ValuesIn(b, cells) {
      var p :| p in cells && a[p.row, p.col] == v;
      AllPosIsGrid(p);
    }
  }

  /** Extensions.CellReverseValues: the digits 1 to 9 that no listed cell holds. */
  method CellReverseValues(a: array2<int>, cells: seq<Pos>) returns (s: set<int>)
    requires a.Length0 == MaxCount && a.Length1 == MaxCount
    requires forall p :: p in cells ==> InGrid(p)
    ensures s == ReverseValuesIn(SnapshotOf(a), cells)
    ensures forall v :: v in s <==> 1 <= v <= 9 && forall p :: p in cells ==> a[p.row, p.col] != v
  {
    var temp := CellValues(a, cells);
    s := Digits;
    s := s - temp;
  }
}

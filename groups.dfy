/** The fixed structure of the 9x9 grid: cell positions and the three
    partitions into rows, columns and 3x3 boxes ("nine cells"). The groups
    are given by index arithmetic; Solver.Map.Init builds the same groups as
    the map's dictionaries and proves them equal to these. */
module Groups {

  const MaxCount := 9
  const NineCellCount := 3

  datatype Pos = Pos(row: int, col: int)

  predicate InGrid(p: Pos) {
    0 <= p.row < MaxCount && 0 <= p.col < MaxCount
  }

  /** The index of the box holding (row, col): boxes are numbered row-major. */
  function NineCellIndex(row: int, col: int): int {
    (row / NineCellCount) * NineCellCount + col / NineCellCount
  }

  /** Row `row`, left to right. */
  function RowCells(row: int): seq<Pos> {
    seq(MaxCount, c => Pos(row, c))
  }

  /** Column `col`, top to bottom. */
  function ColumnCells(col: int): seq<Pos> {
    seq(MaxCount, r => Pos(r, col))
  }

  /** Box `index`, row-major inside the box. */
  function NineCells(index: int): seq<Pos> {
    seq(MaxCount, k => Pos((index / NineCellCount) * NineCellCount + k / NineCellCount,
                           (index % NineCellCount) * NineCellCount + k % NineCellCount))
  }

  /** Every position of the grid. */
  function AllPos(): (s: set<Pos>)
    ensures forall p :: p in s <==> InGrid(p)
  {
    var s := set r, c | 0 <= r < MaxCount && 0 <= c < MaxCount :: Pos(r, c);
    assert forall p :: InGrid(p) ==> p in s by {
      forall p | InGrid(p) ensures p in s {
        assert p == Pos(p.row, p.col);
      }
    }
    s
  }

  /** q comes before p in row-major order. */
  predicate Precedes(q: Pos, p: Pos) {
    q.row < p.row || (q.row == p.row && q.col < p.col)
  }

  predicate Distinct(s: seq<Pos>) {
    forall i, j :: 0 <= i < j < |s| ==> s[i] != s[j]
  }

  /** Peers in the sense of the candidate rule: same row, same column or same box. */
  predicate SameGroup(p: Pos, q: Pos) {
    p.row == q.row || p.col == q.col || NineCellIndex(p.row, p.col) == NineCellIndex(q.row, q.col)
  }

  lemma AllPosIsGrid(p: Pos)
    ensures p in AllPos() <==> InGrid(p)
  {
    if InGrid(p) {
      assert p == Pos(p.row, p.col);
    }
  }
  /** The contents of a 9x9 array, cell by cell. */
  function SnapshotOf<T>(a: array2<T>): (m: map<Pos, T>)
    reads a
    requires a.Length0 == MaxCount && a.Length1 == MaxCount
    ensures m.Keys == AllPos()
    ensures forall p :: InGrid(p) ==> m[p] == a[p.row, p.col]
  {
    var m := map p | p in AllPos() :: a[p.row, p.col];
    assert forall p :: InGrid(p) ==> p in m by {
      forall p | InGrid(p) ensures p in m {
        AllPosIsGrid(p);
      }
    }
    m
  }

  /** An array agrees with a map over the grid when they hold the same
      entry at every cell. */
  lemma SnapshotAgrees<T>(a: array2<T>, m: map<Pos, T>)
    requires a.Length0 == MaxCount && a.Length1 == MaxCount && m.Keys == AllPos()
    requires forall p :: InGrid(p) ==> m[p] == a[p.row, p.col]
    ensures SnapshotOf(a) == m
  {
    forall p | p in m ensures SnapshotOf(a)[p] == m[p] {
      AllPosIsGrid(p);
    }
  }


  lemma NineCellIndexInRange(row: int, col: int)
    requires InGrid(Pos(row, col))
    ensures 0 <= NineCellIndex(row, col) < MaxCount
  {
  }

  /** A row group holds the 9 cells of that row, each once. */
  lemma RowGroup(row: int)
    requires 0 <= row < MaxCount
    ensures |RowCells(row)| == MaxCount && Distinct(RowCells(row))
    ensures forall p :: p in RowCells(row) <==> InGrid(p) && p.row == row
  {
    forall p | InGrid(p) && p.row == row
      ensures p in RowCells(row)
    {
      assert RowCells(row)[p.col] == p;
    }
  }

  /** A column group holds the 9 cells of that column, each once. */
  lemma ColumnGroup(col: int)
    requires 0 <= col < MaxCount
    ensures |ColumnCells(col)| == MaxCount && Distinct(ColumnCells(col))
    ensures forall p :: p in ColumnCells(col) <==> InGrid(p) && p.col == col
  {
    forall p | InGrid(p) && p.col == col
      ensures p in ColumnCells(col)
    {
      assert ColumnCells(col)[p.row] == p;
    }
  }

  /** A box group holds the 9 cells whose box index is `index`, each once. */
  lemma NineCellGroup(index: int)
    requires 0 <= index < MaxCount
    ensures |NineCells(index)| == MaxCount && Distinct(NineCells(index))
    ensures forall p :: p in NineCells(index) <==> InGrid(p) && NineCellIndex(p.row, p.col) == index
  {
    NineCellMembers(index);
    NineCellCovers(index);
    var s := NineCells(index);
    forall i, j | 0 <= i < j < |s| ensures s[i] != s[j] {
      assert s[i] == Pos((index / 3) * 3 + i / 3, (index % 3) * 3 + i % 3);
      assert s[j] == Pos((index / 3) * 3 + j / 3, (index % 3) * 3 + j % 3);
    }
  }

  lemma NineCellMembers(index: int)
    requires 0 <= index < MaxCount
    ensures forall p :: p in NineCells(index) ==> InGrid(p) && NineCellIndex(p.row, p.col) == index
  {
    var s := NineCells(index);
    var i, j := index / 3, index % 3;
    forall k | 0 <= k < 9
      ensures InGrid(s[k]) && NineCellIndex(s[k].row, s[k].col) == index
    {
      assert s[k] == Pos(i * 3 + k / 3, j * 3 + k % 3);
      DivThree(i, k / 3);
      DivThree(j, k % 3);
    }
  }

  lemma DivThree(a: int, d: int)
    requires 0 <= d < 3
    ensures (a * 3 + d) / 3 == a && (a * 3 + d) % 3 == d
  {
  }

  /** Cell (i, j) of box (rowIndex, columnIndex) is its entry i * 3 + j. */
  lemma BoxCell(rowIndex: int, columnIndex: int, i: int, j: int)
    requires 0 <= rowIndex < NineCellCount && 0 <= columnIndex < NineCellCount
    requires 0 <= i < NineCellCount && 0 <= j < NineCellCount
    ensures NineCells(rowIndex * NineCellCount + columnIndex)[i * NineCellCount + j] ==
            Pos(rowIndex * NineCellCount + i, columnIndex * NineCellCount + j)
  {
    DivThree(rowIndex, columnIndex);
    DivThree(i, j);
  }

  lemma NineCellCovers(index: int)
    requires 0 <= index < MaxCount
    ensures forall p :: InGrid(p) && NineCellIndex(p.row, p.col) == index ==> p in NineCells(index)
  {
    var s := NineCells(index);
    var i, j := index / 3, index % 3;
    forall p | InGrid(p) && NineCellIndex(p.row, p.col) == index
      ensures p in s
    {
      var k := (p.row % 3) * 3 + p.col % 3;
      assert p.row / 3 == i && p.col / 3 == j;
      assert s[k] == p;
    }
  }

  /** Every cell of the grid lies in exactly one row group, one column group
      and one box group, namely those with its own indices. */
  lemma ExactlyOneGroupEach(p: Pos, i: int)
    requires InGrid(p) && 0 <= i < MaxCount
    ensures p in RowCells(i) <==> i == p.row
    ensures p in ColumnCells(i) <==> i == p.col
    ensures p in NineCells(i) <==> i == NineCellIndex(p.row, p.col)
  {
    RowGroup(i);
    ColumnGroup(i);
    NineCellGroup(i);
  }
}

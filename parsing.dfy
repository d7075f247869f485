/** Reading the puzzle text (the Map(string[]) constructor): row r of the
    grid is string r, and cell (r, c) is the value of its character c,
    read with int.Parse, which accepts only the characters '0' to '9'. */
module Parsing {
  import opened Groups
  import opened Rules
  import opened Wrappers

  /** The two exceptions the constructor can raise while reading: a row
      shorter than the first (IndexOutOfRangeException) and a character
      that is not a digit (FormatException). */
  datatype ParseError = RowTooShort(row: int) | NotADigit(row: int, col: int)

  predicate IsDigit(ch: char) {
    '0' <= ch <= '9'
  }

  /** The value of cell p, as int.Parse(columns[p.col].ToString()) reads it. */
  function ParseCell(rows: seq<string>, p: Pos): Result<int, ParseError>
    requires 0 <= p.row < |rows| && 0 <= p.col
  {
    if p.col >= |rows[p.row]| then Failure(RowTooShort(p.row))
    else if IsDigit(rows[p.row][p.col]) then Success(rows[p.row][p.col] as int - '0' as int)
    else Failure(NotADigit(p.row, p.col))
  }

  /** The first failure, in row-major order, among the cells from (row, col) on. */
  function FirstError(rows: seq<string>, row: int, col: int): (r: Option<ParseError>)
    requires |rows| == MaxCount && 0 <= row <= MaxCount && 0 <= col <= MaxCount
    ensures r.None? ==>
      forall p :: InGrid(p) && !Precedes(p, Pos(row, col)) ==> ParseCell(rows, p).Success?
    ensures r.Some? ==>
      exists p :: InGrid(p) && !Precedes(p, Pos(row, col)) && ParseCell(rows, p) == Failure(r.value) &&
                  forall q :: InGrid(q) && !Precedes(q, Pos(row, col)) && Precedes(q, p) ==>
                                ParseCell(rows, q).Success?
    decreases MaxCount - row, MaxCount - col
  {
    if row == MaxCount then None
    else if col == MaxCount then FirstError(rows, row + 1, 0)
    else match ParseCell(rows, Pos(row, col))
      case Failure(e) => Some(e)
      case Success(_) => FirstError(rows, row, col + 1)
  }

  /** The value of character c of row r read as a digit. */
  function DigitAt(rows: seq<string>, p: Pos): int
    requires 0 <= p.row < |rows| && 0 <= p.col < |rows[p.row]|
  {
    rows[p.row][p.col] as int - '0' as int
  }

  /** The grid the constructor builds, or the first exception it raises. */
  function ParseGrid(rows: seq<string>): Result<Board, ParseError>
    requires |rows| == MaxCount && |rows[0]| == MaxCount
  {
    match FirstError(rows, 0, 0)
    case Some(e) => Failure(e)
    case None =>
      Success(map p | p in AllPos() :: if p.col < |rows[p.row]| then DigitAt(rows, p) else 0)
  }

  /** Parsing succeeds exactly when every row has at least 9 characters and
      the first 9 of each are digits; the grid then holds their values. */
  lemma ParseGridSuccess(rows: seq<string>)
    requires |rows| == MaxCount && |rows[0]| == MaxCount
    ensures ParseGrid(rows).Success? <==>
            forall p :: InGrid(p) ==> p.col < |rows[p.row]| && IsDigit(rows[p.row][p.col])
    ensures ParseGrid(rows).Success? ==>
            WellFormed(ParseGrid(rows).value) &&
            forall p :: InGrid(p) ==> ParseGrid(rows).value[p] == DigitAt(rows, p)
  {
    var r := FirstError(rows, 0, 0);
    if r.None? {
      AllCellsParse(rows);
      SuccessGrid(rows);
    } else {
      BadCellExists(rows);
    }
  }

  lemma AllCellsParse(rows: seq<string>)
    requires |rows| == MaxCount && FirstError(rows, 0, 0).None?
    ensures forall p :: InGrid(p) ==> p.col < |rows[p.row]| && IsDigit(rows[p.row][p.col])
  {
    forall p | InGrid(p) ensures p.col < |rows[p.row]| && IsDigit(rows[p.row][p.col]) {
      assert !Precedes(p, Pos(0, 0));
      assert ParseCell(rows, p).Success?;
    }
  }

  lemma BadCellExists(rows: seq<string>)
    requires |rows| == MaxCount && FirstError(rows, 0, 0).Some?
    ensures exists p :: InGrid(p) && !(p.col < |rows[p.row]| && IsDigit(rows[p.row][p.col]))
  {
    var e := FirstError(rows, 0, 0).value;
    var p :| InGrid(p) && !Precedes(p, Pos(0, 0)) && ParseCell(rows, p) == Failure(e);
    assert !(p.col < |rows[p.row]| && IsDigit(rows[p.row][p.col]));
  }

  lemma SuccessGrid(rows: seq<string>)
    requires |rows| == MaxCount && |rows[0]| == MaxCount
    requires forall p :: InGrid(p) ==> p.col < |rows[p.row]| && IsDigit(rows[p.row][p.col])
    requires ParseGrid(rows).Success?
    ensures WellFormed(ParseGrid(rows).value)
    ensures forall p :: InGrid(p) ==> ParseGrid(rows).value[p] == DigitAt(rows, p)
  {
    var b := ParseGrid(rows).value;
    forall p | p in b ensures 0 <= b[p] <= 9 {
      AllPosIsGrid(p);
    }
    forall p | InGrid(p) ensures p in b && b[p] == DigitAt(rows, p) {
      AllPosIsGrid(p);
    }
  }

  /** Parsing fails with the error of the first bad cell in row-major order. */
  lemma ParseGridFailure(rows: seq<string>, p: Pos)
    requires |rows| == MaxCount && |rows[0]| == MaxCount
    requires InGrid(p) && ParseCell(rows, p).Failure?
    requires forall q :: InGrid(q) && Precedes(q, p) ==> ParseCell(rows, q).Success?
    ensures ParseGrid(rows) == Failure(ParseCell(rows, p).error)
  {
    var r := FirstError(rows, 0, 0);
    assert r.Some?;
    var p' :| InGrid(p') && ParseCell(rows, p') == Failure(r.value) &&
              forall q :: InGrid(q) && Precedes(q, p') ==> ParseCell(rows, q).Success?;
    assert !Precedes(p, p') && !Precedes(p', p);
    assert p == p';
  }
}

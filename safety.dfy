/** The legality check isSafe: may digit num be written at (row, col)? */
module Safety {
  import opened Board

  /** The three scans of isSafe: num occurs nowhere in row `row`, nowhere in
      column `col`, and nowhere in the 3x3 box whose corner is
      (BoxStart(row), BoxStart(col)). The cell (row, col) itself is scanned too. */
  predicate Safe(s: seq<int>, row: int, col: int, num: int)
    requires |s| == 81 && 0 <= row < 9 && 0 <= col < 9
  {
    && (forall x :: 0 <= x < 9 ==> s[Index(row, x)] != num && s[Index(x, col)] != num)
    && (forall i, j :: 0 <= i < 3 && 0 <= j < 3 ==> s[BoxCell(row, col, i, j)] != num)
  }

  /** A safe digit is absent from every cell that shares a row, column or box
      with (row, col). */
  lemma SafeExcludesUnits(s: seq<int>, row: int, col: int, num: int, k: int)
    requires |s| == 81 && 0 <= row < 9 && 0 <= col < 9 && 0 <= k < 81
    requires Safe(s, row, col, num) && SameUnit(k, Index(row, col))
    ensures s[k] != num
  {
    IndexOfCoordinates(k);
    if Row(k) == row {
      assert k == Index(row, Col(k));
    } else if Col(k) == col {
      assert k == Index(Row(k), col);
    } else {
      SameBoxIffInBand(k, row, col);
      assert k == BoxCell(row, col, Row(k) - BoxStart(row), Col(k) - BoxStart(col));
    }
  }

  /** A digit absent from every cell sharing a unit with (row, col) is safe. */
  lemma AbsentFromUnitsIsSafe(s: seq<int>, row: int, col: int, num: int)
    requires |s| == 81 && 0 <= row < 9 && 0 <= col < 9
    requires forall k :: 0 <= k < 81 && SameUnit(k, Index(row, col)) ==> s[k] != num
    ensures Safe(s, row, col, num)
  {
    var p := Index(row, col);
    forall x | 0 <= x < 9
      ensures s[Index(row, x)] != num && s[Index(x, col)] != num
    {
      assert SameUnit(Index(row, x), p);
      assert SameUnit(Index(x, col), p);
    }
    forall i, j | 0 <= i < 3 && 0 <= j < 3
      ensures s[BoxCell(row, col, i, j)] != num
    {
      var k := BoxCell(row, col, i, j);
      SameBoxIffInBand(k, row, col);
      assert SameUnit(k, p);
    }
  }

  /** Safe agrees with the unit-based reading: num is safe at (row, col) exactly
      when no cell sharing a row, column or box with (row, col), the cell itself
      included, holds num. */
  lemma SafeIffAbsentFromUnits(s: seq<int>, row: int, col: int, num: int)
    requires |s| == 81 && 0 <= row < 9 && 0 <= col < 9
    ensures Safe(s, row, col, num) <==>
      forall k :: 0 <= k < 81 && SameUnit(k, Index(row, col)) ==> s[k] != num
  {
    if Safe(s, row, col, num) {
      forall k | 0 <= k < 81 && SameUnit(k, Index(row, col)) ensures s[k] != num {
        SafeExcludesUnits(s, row, col, num, k);
      }
    }
    if forall k :: 0 <= k < 81 && SameUnit(k, Index(row, col)) ==> s[k] != num {
      AbsentFromUnitsIsSafe(s, row, col, num);
    }
  }

  /** Scans of the board that found num nowhere in the row, the column and the
      box of (row, col) establish Safe on its cells. */
  lemma ScansEstablishSafe(b: array2<int>, row: int, col: int, num: int)
    requires b.Length0 == 9 && b.Length1 == 9 && 0 <= row < 9 && 0 <= col < 9
    requires forall y :: 0 <= y < 9 ==> b[row, y] != num && b[y, col] != num
    requires forall r, c :: BoxStart(row) <= r < BoxStart(row) + 3 && BoxStart(col) <= c < BoxStart(col) + 3 ==> b[r, c] != num
    ensures Safe(Cells(b), row, col, num)
  {
    forall x | 0 <= x < 9
      ensures Cells(b)[Index(row, x)] != num && Cells(b)[Index(x, col)] != num
    {
      CellAt(b, row, x);
      CellAt(b, x, col);
    }
    forall i, j | 0 <= i < 3 && 0 <= j < 3
      ensures Cells(b)[BoxCell(row, col, i, j)] != num
    {
      CellAt(b, BoxStart(row) + i, BoxStart(col) + j);
    }
  }

  /** isSafe: the row and column scan, then the box scan, each returning false
      at the first occurrence of num. It reads the board and changes nothing. */
  method IsSafe(b: array2<int>, row: int, col: int, num: int) returns (safe: bool)
    requires b.Length0 == 9 && b.Length1 == 9
    requires 0 <= row < 9 && 0 <= col < 9
    ensures safe == Safe(Cells(b), row, col, num)
  {
    for x := 0 to 9
      invariant forall y :: 0 <= y < x ==> b[row, y] != num && b[y, col] != num
    {
      if b[row, x] == num || b[x, col] == num {
        CellAt(b, row, x);
        CellAt(b, x, col);
        return false;
      }
    }
    var startRow := row - row % 3;
    var startCol := col - col % 3;
    for i := 0 to 3
      invariant forall r, c :: startRow <= r < startRow + i && startCol <= c < startCol + 3 ==> b[r, c] != num
    {
      var r := i + startRow;
      for j := 0 to 3
        invariant forall c :: startCol <= c < startCol + j ==> b[r, c] != num
        invariant forall r, c :: startRow <= r < startRow + i && startCol <= c < startCol + 3 ==> b[r, c] != num
      {
        if b[r, j + startCol] == num {
          CellAt(b, r, j + startCol);
          assert BoxCell(row, col, i, j) == Index(r, j + startCol);
          return false;
        }
      }
    }
    ScansEstablishSafe(b, row, col, num);
    return true;
  }
}

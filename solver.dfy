/** solveSudoku: the in-place backtracking search on the 9x9 board. */
module Solver {
  import opened Board
  import opened Safety
  import opened Reference

  /** Scans the rows and columns in order for the first empty cell and runs the
      digit loop there; returns true when there is no empty cell.

      The result is that of the reference search: on success the board holds the
      board Search finds, on failure it is exactly the board on entry. */
  method SolveSudoku(b: array2<int>) returns (solved: bool)
    requires b.Length0 == 9 && b.Length1 == 9
    modifies b
    decreases |Zeros(Cells(b))|, 2
    ensures solved == Search(old(Cells(b))).Some?
    ensures solved ==> Cells(b) == Search(old(Cells(b))).value
    ensures !solved ==> unchanged(b)
    ensures Outcome(old(Cells(b)), solved, Cells(b))
  {
    ghost var s := Cells(b);
    SearchOutcome(s);
    for row := 0 to 9
      invariant unchanged(b)
      invariant forall k :: 0 <= k < row * 9 ==> s[k] != 0
    {
      for col := 0 to 9
        invariant unchanged(b)
        invariant forall k :: 0 <= k < row * 9 + col ==> s[k] != 0
      {
        if b[row, col] == 0 {
          SearchStartsAtFirstEmpty(s, Index(row, col));
          solved := TryDigitsAt(b, row, col);
          return;
        }
      }
    }
    FullBoardIsItsOwnResult(s);
    return true;
  }

  /** The digit loop at the empty cell (row, col): tries 1..9 ascending and stops
      at the first digit that leads to a solution; false once every digit has
      failed. Its result is the reference digit loop's. */
  method TryDigitsAt(b: array2<int>, row: int, col: int) returns (solved: bool)
    requires b.Length0 == 9 && b.Length1 == 9
    requires 0 <= row < 9 && 0 <= col < 9 && b[row, col] == 0
    modifies b
    decreases |Zeros(Cells(b))|, 1
    ensures solved == TryDigits(old(Cells(b)), Index(row, col), 1).Some?
    ensures solved ==> Cells(b) == TryDigits(old(Cells(b)), Index(row, col), 1).value
    ensures !solved ==> unchanged(b)
  {
    ghost var s := Cells(b);
    ghost var i := Index(row, col);
    for num := 1 to 10
      invariant unchanged(b)
      invariant forall d :: 1 <= d < num ==> !DigitWorks(s, i, d)
    {
      label Before:
      solved := TryDigit(b, row, col, num);
      if solved {
        assert Cells(b) == Search(s[i := num]).value;
        TryDigitsFindsFirstWorking(s, i, 1, num);
        return;
      }
      forall r, c | 0 <= r < 9 && 0 <= c < 9
        ensures b[r, c] == old(b[r, c])
      {
        assert b[r, c] == old@Before(b[r, c]);
      }
    }
    TryDigitsFindsFirstWorking(s, i, 1, 10);
    return false;
  }

  /** One round of the digit loop: if num is safe at (row, col), write it and
      recurse; when the recursion fails, write 0 back. */
  method TryDigit(b: array2<int>, row: int, col: int, num: int) returns (found: bool)
    requires b.Length0 == 9 && b.Length1 == 9
    requires 0 <= row < 9 && 0 <= col < 9 && b[row, col] == 0 && 1 <= num <= 9
    modifies b
    decreases |Zeros(Cells(b))|, 0
    ensures found == DigitWorks(old(Cells(b)), Index(row, col), num)
    ensures found ==> Cells(b) == Search(old(Cells(b))[Index(row, col) := num]).value
    ensures !found ==> unchanged(b)
  {
    ghost var s := Cells(b);
    ghost var i := Index(row, col);
    var safe := IsSafe(b, row, col, num);
    if !safe {
      return false;
    }
    b[row, col] := num;
    assert Cells(b) == s[i := num] by {
      forall k | 0 <= k < 81 ensures Cells(b)[k] == s[i := num][k] {
        IndexOfCoordinates(k);
      }
    }
    FillRemovesZero(s, i, num);
    label Placed:
    found := SolveSudoku(b);
    assert found == Search(s[i := num]).Some?;
    assert Safe(s, Row(i), Col(i), num);
    if !found {
      b[row, col] := 0;
      forall r, c | 0 <= r < 9 && 0 <= c < 9
        ensures b[r, c] == old(b[r, c])
      {
        assert (r, c) != (row, col) ==> old@Placed(b[r, c]) == old(b[r, c]);
      }
    }
  }
}

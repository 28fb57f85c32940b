/** The 9x9 Sudoku board.

    The solver works on a 9x9 grid of integers in which 0 marks an empty cell.
    For reasoning, the grid is also viewed as its 81 cells in row-major order:
    cell (row, col) has index row * 9 + col, the numbering the page uses when
    it copies the input fields into the board and back. */
module Board {

  /** The number of cells in a row (and of rows). Row, Col and Index divide and
      multiply by this named constant rather than by the numeral 9, so that the
      verifier does not evaluate them over and over on literal arguments. */
  const Width := 9

  /** The row of cell index k (Math.floor(index / 9)). */
  function Row(k: int): (r: int)
    requires 0 <= k < 81
    ensures 0 <= r < 9
  {
    k / Width
  }

  /** The column of cell index k (index % 9). */
  function Col(k: int): (c: int)
    requires 0 <= k < 81
    ensures 0 <= c < 9
  {
    k % Width
  }

  /** The index of cell (row, col); Row and Col recover the coordinates. */
  function Index(row: int, col: int): (k: int)
    requires 0 <= row < 9 && 0 <= col < 9
    ensures 0 <= k < 81
    ensures Row(k) == row && Col(k) == col
  {
    row * Width + col
  }

  /** Every index is the index of its own coordinates, so Index and (Row, Col)
      are inverse bijections between 0..80 and 0..8 x 0..8. */
  lemma IndexOfCoordinates(k: int)
    requires 0 <= k < 81
    ensures Index(Row(k), Col(k)) == k
  {
  }

  /** The first row (or column) of the 3x3 band containing x: x - x % 3. */
  function BoxStart(x: int): (s: int)
    requires 0 <= x < 9
    ensures s % 3 == 0 && 0 <= s <= x < s + 3 <= 9
  {
    x - x % 3
  }

  /** Cell (i, j) of the 3x3 box containing (row, col), counted from its corner. */
  function BoxCell(row: int, col: int, i: int, j: int): (k: int)
    requires 0 <= row < 9 && 0 <= col < 9 && 0 <= i < 3 && 0 <= j < 3
    ensures 0 <= k < 81
    ensures Row(k) == BoxStart(row) + i && Col(k) == BoxStart(col) + j
  {
    Index(BoxStart(row) + i, BoxStart(col) + j)
  }

  /** The number of the 3x3 box holding cell k, (row / 3) * 3 + col / 3. */
  function Box(k: int): (q: int)
    requires 0 <= k < 81
    ensures 0 <= q < 9
  {
    (Row(k) / 3) * 3 + Col(k) / 3
  }

  /** 3 * a + x, for x in 0..2, has quotient a and remainder x on division by 3. */
  lemma BandOf(a: int, x: int)
    requires 0 <= a && 0 <= x < 3
    ensures (3 * a + x) / 3 == a && (3 * a + x) % 3 == x
  {
  }

  /** The box number of a cell gives its band of rows and its stack of columns. */
  lemma BoxParts(k: int)
    requires 0 <= k < 81
    ensures Box(k) / 3 == Row(k) / 3 && Box(k) % 3 == Col(k) / 3
  {
    BandOf(Row(k) / 3, Col(k) / 3);
  }

  /** y lies in the band of three starting at BoxStart(x) exactly when x and y
      have the same quotient by 3. */
  lemma SameBand(x: int, y: int)
    requires 0 <= x < 9 && 0 <= y < 9
    ensures x / 3 == y / 3 <==> BoxStart(x) <= y < BoxStart(x) + 3
  {
  }

  /** Cells a and k lie in one row, one column or one box (a cell shares all
      three with itself). */
  predicate SameUnit(a: int, k: int)
    requires 0 <= a < 81 && 0 <= k < 81
  {
    Row(a) == Row(k) || Col(a) == Col(k) || Box(a) == Box(k)
  }

  /** Cell k lies in the box whose top-left corner is (BoxStart(row), BoxStart(col))
      exactly when it has the box number of (row, col). */
  lemma SameBoxIffInBand(k: int, row: int, col: int)
    requires 0 <= k < 81 && 0 <= row < 9 && 0 <= col < 9
    ensures Box(k) == Box(Index(row, col)) <==>
      BoxStart(row) <= Row(k) < BoxStart(row) + 3 && BoxStart(col) <= Col(k) < BoxStart(col) + 3
  {
    var p := Index(row, col);
    BoxParts(k);
    BoxParts(p);
    assert Box(k) == 3 * (Box(k) / 3) + Box(k) % 3 && Box(p) == 3 * (Box(p) / 3) + Box(p) % 3;
    SameBand(row, Row(k));
    SameBand(col, Col(k));
  }

  /** The board's contents as its 81 cells in row-major order. */
  ghost function Cells(b: array2<int>): (s: seq<int>)
    reads b
    requires b.Length0 == 9 && b.Length1 == 9
    ensures |s| == 81
    ensures forall k :: 0 <= k < 81 ==> s[k] == b[Row(k), Col(k)]
  {
    seq(81, k reads b requires 0 <= k < 81 => b[Row(k), Col(k)])
  }

  /** Cell (r, c) of the board is entry Index(r, c) of its cell sequence. */
  lemma CellAt(b: array2<int>, r: int, c: int)
    requires b.Length0 == 9 && b.Length1 == 9 && 0 <= r < 9 && 0 <= c < 9
    ensures Cells(b)[Index(r, c)] == b[r, c]
  {
  }

  // Properties of a board, given as its 81 cells

  /** Every cell holds a value 0..9 (0 is empty). */
  predicate Digits(s: seq<int>)
  {
    forall k :: 0 <= k < |s| ==> 0 <= s[k] <= 9
  }

  /** No cell is empty. */
  predicate Full(s: seq<int>)
  {
    forall k :: 0 <= k < |s| ==> s[k] != 0
  }

  /** t has the same length as s and every non-zero cell of s keeps its value in t. */
  predicate Keeps(s: seq<int>, t: seq<int>)
  {
    |s| == |t| && forall k :: 0 <= k < |s| && s[k] != 0 ==> t[k] == s[k]
  }

  /** No non-zero cell repeats its value in another cell of its row, column or box.
      (The trigger keeps the verifier from pairing up every two cell reads.) */
  predicate Consistent(s: seq<int>)
    requires |s| == 81
  {
    forall a, k {:trigger SameUnit(a, k)} :: 0 <= a < 81 && 0 <= k < 81 && a != k && SameUnit(a, k) && s[a] != 0 ==> s[a] != s[k]
  }

  /** A solved grid: every cell holds 1..9 and no row, column or box repeats a digit. */
  predicate Solved(s: seq<int>)
  {
    |s| == 81 && Full(s) && Digits(s) && Consistent(s)
  }

  /** t is a valid solution of puzzle s: a solved grid keeping every given of s. */
  predicate Completion(s: seq<int>, t: seq<int>)
  {
    Keeps(s, t) && Solved(t)
  }
}

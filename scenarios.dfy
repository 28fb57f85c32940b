/** Two boards whose outcome the search can be pinned down on: the empty board,
    and a solved grid with one cell cleared. */
module Scenarios {
  import opened Board
  import opened Reference
  import opened Units

  /** The shifted-rows grid: row r is 1..9 rotated left by 3 * (r % 3) + r / 3. */
  function Pattern(): (p: seq<int>)
    ensures |p| == 81
    ensures forall k :: 0 <= k < 81 ==> p[k] == Shift(Row(k), Col(k)) % 9 + 1
  {
    seq(81, k requires 0 <= k < 81 => Shift(Row(k), Col(k)) % 9 + 1)
  }

  /** Two integers less than 9 apart are equal modulo 9 only if they are equal. */
  lemma CloseAndCongruent(x: int, y: int)
    requires -9 < x - y < 9 && x % 9 == y % 9
    ensures x == y
  {
  }

  /** The digit of cell (r, c) in the pattern, less one, before reduction mod 9. */
  function Shift(r: int, c: int): int
  {
    3 * (r % 3) + r / 3 + c
  }

  /** Distinct cells of one row, one column or one box have shifts that differ by
      less than 9, and not by 0. */
  lemma ShiftsClose(r1: int, c1: int, r2: int, c2: int)
    requires 0 <= r1 < 9 && 0 <= c1 < 9 && 0 <= r2 < 9 && 0 <= c2 < 9
    requires r1 != r2 || c1 != c2
    requires r1 == r2 || c1 == c2 || (r1 / 3 == r2 / 3 && c1 / 3 == c2 / 3)
    ensures Shift(r1, c1) != Shift(r2, c2) && -9 < Shift(r1, c1) - Shift(r2, c2) < 9
  {
  }

  /** Two distinct cells sharing a row, column or box get distinct pattern digits. */
  lemma PatternDistinct(a: int, k: int)
    requires 0 <= a < 81 && 0 <= k < 81 && a != k && SameUnit(a, k)
    ensures Pattern()[a] != Pattern()[k]
  {
    IndexOfCoordinates(a);
    IndexOfCoordinates(k);
    var ra, ca, rk, ck := Row(a), Col(a), Row(k), Col(k);
    BoxParts(a);
    BoxParts(k);
    ShiftsClose(ra, ca, rk, ck);
    var wa, wk := Shift(ra, ca), Shift(rk, ck);
    if wa % 9 == wk % 9 {
      CloseAndCongruent(wa, wk);
    }
  }

  lemma PatternSolved()
    ensures Solved(Pattern())
  {
    var p := Pattern();
    forall a, k | 0 <= a < 81 && 0 <= k < 81 && a != k && SameUnit(a, k) && p[a] != 0
      ensures p[a] != p[k]
    {
      PatternDistinct(a, k);
    }
  }

  /** The empty board (every cell 0) is solved: the search succeeds and leaves a
      grid in which every row, column and box holds each digit once. */
  lemma EmptyBoardSolves()
    ensures var s := seq(81, k => 0);
      Search(s).Some? && Solved(Search(s).value)
  {
    var s := seq(81, k => 0);
    assert Consistent(s);
    PatternSolved();
    assert Completion(s, Pattern());
    SearchCharacterized(s);
  }

  /** A count of at least one is witnessed by a position. */
  lemma {:induction false} CountedOccurs(v: seq<int>, d: int)
    requires Count(v, d) > 0
    ensures exists x :: 0 <= x < |v| && v[x] == d
  {
    if v[0] != d {
      CountedOccurs(v[1..], d);
      var x :| 0 <= x < |v[1..]| && v[1..][x] == d;
      assert v[x + 1] == d;
    }
  }

  /** Two solved grids that agree everywhere except possibly at cell i agree at
      i as well: the row of i already fixes the missing digit. */
  lemma SolvedAgreeAtLastCell(u: seq<int>, t: seq<int>, i: int)
    requires Solved(u) && Solved(t) && 0 <= i < 81
    requires forall k :: 0 <= k < 81 && k != i ==> t[k] == u[k]
    ensures t[i] == u[i]
  {
    var r := Row(i);
    SolvedUnitsHoldEachDigitOnce(u);
    var v := RowValues(u, r);
    assert EachDigitOnce(v);
    CountedOccurs(v, t[i]);
    var x :| 0 <= x < 9 && v[x] == t[i];
    var k := Index(r, x);
    IndexOfCoordinates(i);
    assert SameUnit(k, i);
    assert k == i;
  }

  /** A solved grid with one cell cleared is restored: the search fills the
      cleared cell with the digit it held and returns the original grid. */
  lemma OneBlankRestored(u: seq<int>, i: int)
    requires Solved(u) && 0 <= i < 81
    ensures Search(u[i := 0]) == Some(u)
  {
    var s := u[i := 0];
    assert Consistent(s);
    assert Completion(s, u);
    SearchCharacterized(s);
    var t := Search(s).value;
    forall k | 0 <= k < 81 && k != i ensures t[k] == u[k] {
      assert s[k] == u[k] != 0;
    }
    SolvedAgreeAtLastCell(u, t, i);
    assert t == u;
  }
}

/** A functional reference for solveSudoku's depth-first search: find the first
    empty cell in row-major order, try the digits 1..9 in ascending order at it,
    recurse after each safe placement, and report the first board reached that
    has no empty cell. */
module Reference {
  import opened Board
  import opened Safety

  datatype Option<T> = None | Some(value: T)

  /** The indices of the empty cells. */
  function Zeros(s: seq<int>): set<int>
  {
    set k | 0 <= k < |s| && s[k] == 0
  }

  /** Filling an empty cell with a non-zero value removes exactly one empty cell:
      the measure by which the search terminates. */
  lemma FillRemovesZero(s: seq<int>, i: int, d: int)
    requires 0 <= i < |s| && s[i] == 0 && d != 0
    ensures Zeros(s[i := d]) == Zeros(s) - {i}
    ensures |Zeros(s[i := d])| == |Zeros(s)| - 1
  {
  }

  /** The first empty cell at or after index `from` in row-major order, or |s|
      when there is none. */
  function FirstEmpty(s: seq<int>, from: int): (i: int)
    requires 0 <= from <= |s|
    decreases |s| - from
    ensures from <= i <= |s|
    ensures i < |s| ==> s[i] == 0
    ensures forall j :: from <= j < i ==> s[j] != 0
  {
    if from == |s| then |s|
    else if s[from] == 0 then from
    else FirstEmpty(s, from + 1)
  }

  /** The search from board s: None when it fails, Some(t) with the board t it
      stops at otherwise. */
  function Search(s: seq<int>): Option<seq<int>>
    requires |s| == 81
    decreases |Zeros(s)|, 10
  {
    var i := FirstEmpty(s, 0);
    if i == 81 then Some(s) else TryDigits(s, i, 1)
  }

  /** The digit loop at the empty cell i, from digit d on: the first d' >= d
      that is safe at i and whose placement leads to a solution. */
  function TryDigits(s: seq<int>, i: int, d: int): Option<seq<int>>
    requires |s| == 81 && 0 <= i < 81 && s[i] == 0 && 1 <= d <= 10
    decreases |Zeros(s)|, 10 - d
  {
    if d == 10 then None
    else if Safe(s, Row(i), Col(i), d) then
      FillRemovesZero(s, i, d);
      var r := Search(s[i := d]);
      if r.Some? then r else TryDigits(s, i, d + 1)
    else TryDigits(s, i, d + 1)
  }

  /** On success the search has filled every empty cell and kept every given,
      and values within 0..9 stay within 0..9. */
  lemma {:induction false} SearchFills(s: seq<int>)
    requires |s| == 81
    decreases |Zeros(s)|, 10
    ensures Search(s).Some? ==> Keeps(s, Search(s).value) && Full(Search(s).value)
    ensures Search(s).Some? && Digits(s) ==> Digits(Search(s).value)
  {
    var i := FirstEmpty(s, 0);
    if i < 81 {
      TryDigitsFills(s, i, 1);
    }
  }

  lemma {:induction false} TryDigitsFills(s: seq<int>, i: int, d: int)
    requires |s| == 81 && 0 <= i < 81 && s[i] == 0 && 1 <= d <= 10
    decreases |Zeros(s)|, 10 - d
    ensures TryDigits(s, i, d).Some? ==> Keeps(s, TryDigits(s, i, d).value) && Full(TryDigits(s, i, d).value)
    ensures TryDigits(s, i, d).Some? && Digits(s) ==> Digits(TryDigits(s, i, d).value)
  {
    if d < 10 {
      if Safe(s, Row(i), Col(i), d) {
        FillRemovesZero(s, i, d);
        SearchFills(s[i := d]);
      }
      TryDigitsFills(s, i, d + 1);
    }
  }

  /** The search starts its digit loop at the first empty cell. */
  lemma SearchStartsAtFirstEmpty(s: seq<int>, i: int)
    requires |s| == 81 && 0 <= i < 81 && s[i] == 0
    requires forall j :: 0 <= j < i ==> s[j] != 0
    ensures Search(s) == TryDigits(s, i, 1)
  {
  }

  /** Digit d at the empty cell i ends the digit loop: it is safe there and the
      search from the board with d written at i succeeds. */
  predicate DigitWorks(s: seq<int>, i: int, d: int)
    requires |s| == 81 && 0 <= i < 81
  {
    Safe(s, Row(i), Col(i), d) && Search(s[i := d]).Some?
  }

  /** The digit loop from d on returns the search from the first working digit
      at or after d, and fails when no digit from d to 9 works. */
  lemma {:induction false} TryDigitsFindsFirstWorking(s: seq<int>, i: int, d: int, e: int)
    requires |s| == 81 && 0 <= i < 81 && s[i] == 0 && 1 <= d <= e <= 10
    requires forall d' :: d <= d' < e ==> !DigitWorks(s, i, d')
    decreases e - d
    ensures e <= 9 && DigitWorks(s, i, e) ==> TryDigits(s, i, d) == Search(s[i := e])
    ensures e == 10 ==> TryDigits(s, i, d) == None
  {
    if d < e {
      assert !DigitWorks(s, i, d);
      if Safe(s, Row(i), Col(i), d) {
        FillRemovesZero(s, i, d);
      }
      TryDigitsFindsFirstWorking(s, i, d + 1, e);
    } else if e <= 9 && Safe(s, Row(i), Col(i), e) {
      FillRemovesZero(s, i, e);
    }
  }

  /** A board with no empty cell is returned unchanged, whatever it holds. */
  lemma FullBoardIsItsOwnResult(s: seq<int>)
    requires |s| == 81 && Full(s)
    ensures Search(s) == Some(s)
  {
  }

  /** The givens are never checked against each other: a full board holding 1
      in every cell breaks every rule, yet the search accepts it unchanged. */
  lemma DuplicateGivensAreNotRejected()
    ensures var s := seq(81, k => 1);
      Digits(s) && !Consistent(s) && Search(s) == Some(s)
  {
    var s := seq(81, k => 1);
    FullBoardIsItsOwnResult(s);
    assert SameUnit(0, 1) && s[0] == s[1] != 0;
  }

  /** Writing a safe digit in an empty cell of a consistent board keeps it
      consistent, and keeps its values within 0..9. */
  lemma PlaceSafeKeepsConsistent(s: seq<int>, i: int, d: int)
    requires |s| == 81 && 0 <= i < 81 && s[i] == 0 && 1 <= d <= 9
    requires Consistent(s) && Digits(s)
    requires Safe(s, Row(i), Col(i), d)
    ensures Consistent(s[i := d]) && Digits(s[i := d])
  {
    var t := s[i := d];
    IndexOfCoordinates(i);
    SafeIffAbsentFromUnits(s, Row(i), Col(i), d);
    forall a, k | 0 <= a < 81 && 0 <= k < 81 && a != k && SameUnit(a, k) && t[a] != 0
      ensures t[a] != t[k]
    {
      if a == i {
        assert SameUnit(k, i);
      } else if k == i {
        assert SameUnit(a, i);
      }
    }
  }

  /** Soundness: from a board whose givens are consistent and within 0..9, a
      successful search ends in a solved grid (every cell 1..9, no repeated
      digit in any row, column or box). */
  lemma {:induction false} SearchSound(s: seq<int>)
    requires |s| == 81 && Consistent(s) && Digits(s)
    decreases |Zeros(s)|, 10
    ensures Search(s).Some? ==> Completion(s, Search(s).value)
  {
    SearchFills(s);
    var i := FirstEmpty(s, 0);
    if i < 81 {
      TryDigitsSound(s, i, 1);
    }
  }

  /** A board that keeps the givens of s with one empty cell filled keeps the
      givens of s. */
  lemma KeepsThroughFill(s: seq<int>, i: int, d: int, t: seq<int>)
    requires 0 <= i < |s| && s[i] == 0 && Keeps(s[i := d], t)
    ensures Keeps(s, t)
  {
    forall k | 0 <= k < |s| && s[k] != 0 ensures t[k] == s[k] {
      assert s[i := d][k] == s[k];
    }
  }

  lemma {:induction false} TryDigitsSound(s: seq<int>, i: int, d: int)
    requires |s| == 81 && 0 <= i < 81 && s[i] == 0 && 1 <= d <= 10
    requires Consistent(s) && Digits(s)
    decreases |Zeros(s)|, 10 - d
    ensures TryDigits(s, i, d).Some? ==> Completion(s, TryDigits(s, i, d).value)
  {
    if d < 10 {
      if Safe(s, Row(i), Col(i), d) && Search(s[i := d]).Some? {
        PlacementSound(s, i, d);
      } else {
        TryDigitsSound(s, i, d + 1);
      }
    }
  }

  /** A safe digit placed at an empty cell of a consistent board, followed by a
      successful search, yields a solution of the original board. */
  lemma {:induction false} PlacementSound(s: seq<int>, i: int, d: int)
    requires |s| == 81 && 0 <= i < 81 && s[i] == 0 && 1 <= d <= 9
    requires Consistent(s) && Digits(s) && Safe(s, Row(i), Col(i), d)
    requires Search(s[i := d]).Some?
    decreases |Zeros(s)|, 0
    ensures Completion(s, Search(s[i := d]).value)
  {
    FillRemovesZero(s, i, d);
    PlaceSafeKeepsConsistent(s, i, d);
    SearchSound(s[i := d]);
    KeepsThroughFill(s, i, d, Search(s[i := d]).value);
  }

  /** t comes no later than u in lexicographic order. */
  predicate LexLeq(t: seq<int>, u: seq<int>)
  {
    |t| == |u| && (t == u || exists k :: 0 <= k < |t| && t[..k] == u[..k] && t[k] < u[k])
  }

  /** In a completion of s, the value of an empty cell of s is a digit that is
      safe there. */
  lemma CompletionValueIsSafe(s: seq<int>, i: int, u: seq<int>)
    requires |s| == 81 && 0 <= i < 81 && s[i] == 0 && Completion(s, u)
    ensures 1 <= u[i] <= 9 && Safe(s, Row(i), Col(i), u[i])
  {
    IndexOfCoordinates(i);
    forall k | 0 <= k < 81 && SameUnit(k, i)
      ensures s[k] != u[i]
    {
      if k != i && s[k] != 0 {
        assert u[k] == s[k];
      }
    }
    AbsentFromUnitsIsSafe(s, Row(i), Col(i), u[i]);
  }

  /** Completeness, with the search order: if s has any completion u, the
      search succeeds, and its result is no later than u lexicographically. So
      the search finds the lexicographically first solution. */
  lemma {:induction false} SearchFindsFirst(s: seq<int>, u: seq<int>)
    requires |s| == 81 && Completion(s, u)
    decreases |Zeros(s)|, 10
    ensures Search(s).Some? && LexLeq(Search(s).value, u)
  {
    var i := FirstEmpty(s, 0);
    if i == 81 {
      assert u == s by {
        forall k | 0 <= k < 81 ensures u[k] == s[k] {
          assert s[k] != 0;
        }
      }
    } else {
      CompletionValueIsSafe(s, i, u);
      TryDigitsFindsFirst(s, i, 1, u);
    }
  }

  lemma {:induction false} TryDigitsFindsFirst(s: seq<int>, i: int, d: int, u: seq<int>)
    requires |s| == 81 && 0 <= i < 81 && s[i] == 0 && Completion(s, u)
    requires forall j :: 0 <= j < i ==> s[j] != 0
    requires 1 <= d <= u[i] <= 9
    decreases |Zeros(s)|, 10 - d
    ensures TryDigits(s, i, d).Some? && LexLeq(TryDigits(s, i, d).value, u)
  {
    var r := TryDigits(s, i, d);
    var safe := Safe(s, Row(i), Col(i), d);
    if safe {
      FillRemovesZero(s, i, d);
    }
    if d == u[i] {
      CompletionValueIsSafe(s, i, u);
      assert Completion(s[i := d], u);
      SearchFindsFirst(s[i := d], u);
    } else if safe && Search(s[i := d]).Some? {
      var t := r.value;
      SearchFills(s[i := d]);
      assert t[i] == d < u[i];
      assert t[..i] == u[..i] by {
        forall j | 0 <= j < i ensures t[j] == u[j] {
          assert s[j] != 0;
        }
      }
    } else {
      TryDigitsFindsFirst(s, i, d + 1, u);
    }
  }

  /** What a caller of the solver may rely on, for the input s, the success
      flag and the board t left behind: on success t fills s, keeps its givens,
      is a solution whenever the givens are consistent, and is the
      lexicographically first solution; on failure t is s and s has no solution. */
  ghost predicate Outcome(s: seq<int>, solved: bool, t: seq<int>)
    requires |s| == 81
  {
    && (solved ==> Full(t) && Keeps(s, t))
    && (solved && Digits(s) && Consistent(s) ==> Solved(t))
    && (solved ==> forall u :: Completion(s, u) ==> LexLeq(t, u))
    && (!solved ==> t == s && forall u :: !Completion(s, u))
  }

  /** The reference search delivers that outcome on every board. */
  lemma SearchOutcome(s: seq<int>)
    requires |s| == 81
    ensures Outcome(s, Search(s).Some?, if Search(s).Some? then Search(s).value else s)
  {
    SearchFills(s);
    if Digits(s) && Consistent(s) {
      SearchSound(s);
    }
    forall u | Completion(s, u) ensures Search(s).Some? && LexLeq(Search(s).value, u) {
      SearchFindsFirst(s, u);
    }
  }

  /** The search as a whole, for a puzzle whose givens are consistent and within
      0..9: it succeeds exactly when the puzzle has a solution, and then returns
      the lexicographically first one. */
  lemma SearchCharacterized(s: seq<int>)
    requires |s| == 81 && Consistent(s) && Digits(s)
    ensures Search(s).Some? <==> exists u :: Completion(s, u)
    ensures Search(s).Some? ==>
      Completion(s, Search(s).value) &&
      forall u :: Completion(s, u) ==> LexLeq(Search(s).value, u)
  {
    SearchSound(s);
    forall u | Completion(s, u) ensures Search(s).Some? && LexLeq(Search(s).value, u) {
      SearchFindsFirst(s, u);
    }
  }
}

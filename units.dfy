/** Rows, columns and boxes of a grid as sequences of nine values, and the
    theorem that a solved grid holds each digit exactly once in each of them. */
module Units {
  import opened Board

  /** The values of row r, left to right. */
  function RowValues(s: seq<int>, r: int): (v: seq<int>)
    requires |s| == 81 && 0 <= r < 9
    ensures |v| == 9 && forall x :: 0 <= x < 9 ==> v[x] == s[Index(r, x)]
  {
    seq(9, x requires 0 <= x < 9 => s[Index(r, x)])
  }

  /** The values of column c, top to bottom. */
  function ColValues(s: seq<int>, c: int): (v: seq<int>)
    requires |s| == 81 && 0 <= c < 9
    ensures |v| == 9 && forall y :: 0 <= y < 9 ==> v[y] == s[Index(y, c)]
  {
    seq(9, y requires 0 <= y < 9 => s[Index(y, c)])
  }

  /** Cell t (row-major within the box) of box q, where boxes are numbered
      (row / 3) * 3 + col / 3. */
  function BoxMember(q: int, t: int): (k: int)
    requires 0 <= q < 9 && 0 <= t < 9
    ensures 0 <= k < 81 && Box(k) == q
    ensures Row(k) == (q / 3) * 3 + t / 3 && Col(k) == (q % 3) * 3 + t % 3
  {
    BandOf(q / 3, t / 3);
    BandOf(q % 3, t % 3);
    Index((q / 3) * 3 + t / 3, (q % 3) * 3 + t % 3)
  }

  /** The values of box q, row-major within the box. */
  function BoxValues(s: seq<int>, q: int): (v: seq<int>)
    requires |s| == 81 && 0 <= q < 9
    ensures |v| == 9 && forall t :: 0 <= t < 9 ==> v[t] == s[BoxMember(q, t)]
  {
    seq(9, t requires 0 <= t < 9 => s[BoxMember(q, t)])
  }

  /** The number of positions of v holding d. */
  function Count(v: seq<int>, d: int): nat
  {
    if v == [] then 0 else (if v[0] == d then 1 else 0) + Count(v[1..], d)
  }

  /** Nine values in which each digit 1..9 occurs exactly once. */
  predicate EachDigitOnce(v: seq<int>)
  {
    |v| == 9 && forall d :: 1 <= d <= 9 ==> Count(v, d) == 1
  }

  /** Pairwise distinct values. */
  predicate Distinct(v: seq<int>)
  {
    forall x, y :: 0 <= x < |v| && 0 <= y < |v| && x != y ==> v[x] != v[y]
  }

  /** Count(v, lo) + Count(v, lo + 1) + ... + Count(v, 9). */
  function CountFrom(v: seq<int>, lo: int): nat
    requires 1 <= lo <= 10
    decreases 10 - lo
  {
    if lo == 10 then 0 else Count(v, lo) + CountFrom(v, lo + 1)
  }

  /** Splitting off the first value: it adds one to the count of the digits
      lo..9 exactly when it is one of them. */
  lemma {:induction false} CountFromCons(v: seq<int>, lo: int)
    requires v != [] && 1 <= lo <= 10
    decreases 10 - lo
    ensures CountFrom(v, lo) == (if lo <= v[0] <= 9 then 1 else 0) + CountFrom(v[1..], lo)
  {
    if lo < 10 {
      CountFromCons(v, lo + 1);
    }
  }

  /** When every value is a digit, the counts of the digits 1..9 add up to |v|. */
  lemma {:induction false} CountsAddUp(v: seq<int>)
    requires forall x :: 0 <= x < |v| ==> 1 <= v[x] <= 9
    ensures CountFrom(v, 1) == |v|
  {
    if v != [] {
      CountFromCons(v, 1);
      CountsAddUp(v[1..]);
    }
  }

  /** In a sequence without repeats, no value is counted twice. */
  lemma {:induction false} DistinctCountsAtMostOne(v: seq<int>, d: int)
    requires Distinct(v)
    ensures Count(v, d) <= 1
    ensures d !in v ==> Count(v, d) == 0
  {
    if v != [] {
      var w := v[1..];
      assert Distinct(w) by {
        forall x, y | 0 <= x < |w| && 0 <= y < |w| && x != y ensures w[x] != w[y] {
          assert w[x] == v[x + 1] && w[y] == v[y + 1];
        }
      }
      DistinctCountsAtMostOne(w, d);
      if v[0] == d {
        assert d !in w by {
          forall y | 0 <= y < |w| ensures w[y] != d {
            assert w[y] == v[y + 1];
          }
        }
      } else if d !in v {
        assert d !in w;
      }
    }
  }

  /** Digits lo..9 counted at most once each reach the total 10 - lo only if
      each is counted exactly once. */
  lemma {:induction false} FullTotalMeansEachOnce(v: seq<int>, lo: int)
    requires 1 <= lo <= 10
    requires forall d :: lo <= d <= 9 ==> Count(v, d) <= 1
    decreases 10 - lo
    ensures CountFrom(v, lo) <= 10 - lo
    ensures CountFrom(v, lo) == 10 - lo ==> forall d :: lo <= d <= 9 ==> Count(v, d) == 1
  {
    if lo < 10 {
      FullTotalMeansEachOnce(v, lo + 1);
    }
  }

  /** Pigeonhole: nine distinct values taken from 1..9 are each digit once. */
  lemma DistinctDigitsOnce(v: seq<int>)
    requires |v| == 9 && Distinct(v)
    requires forall x :: 0 <= x < 9 ==> 1 <= v[x] <= 9
    ensures EachDigitOnce(v)
  {
    forall d | 1 <= d <= 9 ensures Count(v, d) <= 1 {
      DistinctCountsAtMostOne(v, d);
    }
    CountsAddUp(v);
    FullTotalMeansEachOnce(v, 1);
  }

  /** Soundness of the rules: in a solved grid every row, every column and
      every 3x3 box holds each digit 1..9 exactly once. */
  lemma SolvedUnitsHoldEachDigitOnce(s: seq<int>)
    requires Solved(s)
    ensures forall r :: 0 <= r < 9 ==> EachDigitOnce(RowValues(s, r))
    ensures forall c :: 0 <= c < 9 ==> EachDigitOnce(ColValues(s, c))
    ensures forall q :: 0 <= q < 9 ==> EachDigitOnce(BoxValues(s, q))
  {
    forall r | 0 <= r < 9 ensures EachDigitOnce(RowValues(s, r)) {
      var v := RowValues(s, r);
      forall x, y | 0 <= x < 9 && 0 <= y < 9 && x != y ensures v[x] != v[y] {
        assert SameUnit(Index(r, x), Index(r, y));
      }
      DistinctDigitsOnce(v);
    }
    forall c | 0 <= c < 9 ensures EachDigitOnce(ColValues(s, c)) {
      var v := ColValues(s, c);
      forall x, y | 0 <= x < 9 && 0 <= y < 9 && x != y ensures v[x] != v[y] {
        assert SameUnit(Index(x, c), Index(y, c));
      }
      DistinctDigitsOnce(v);
    }
    forall q | 0 <= q < 9 ensures EachDigitOnce(BoxValues(s, q)) {
      var v := BoxValues(s, q);
      forall x, y | 0 <= x < 9 && 0 <= y < 9 && x != y ensures v[x] != v[y] {
        var a, k := BoxMember(q, x), BoxMember(q, y);
        assert SameUnit(a, k);
        assert a != k by {
          IndexOfCoordinates(a);
          IndexOfCoordinates(k);
          assert x == (x / 3) * 3 + x % 3;
          assert y == (y / 3) * 3 + y % 3;
        }
      }
      DistinctDigitsOnce(v);
    }
  }
}

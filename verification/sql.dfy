/**
  Value-level building blocks shared by the four aggregate queries:
  SQL NULL, the outcome of running a query, `ROUND(numeric, 2)` applied to an
  exact ratio, and the multiset counting behind `GROUP BY ... COUNT(*)`.
 */
module Sql {

  /** A column value that may be SQL NULL. */
  datatype Nullable<+T> = Null | Value(value: T)

  /** The result of handing a query to the database: its value, or the error it raised. */
  datatype Outcome<+T> = Ok(value: T) | QueryError(message: string)

  // ---------------------------------------------------------------------------
  // ROUND(n / d, 2) on exact numerics, expressed in hundredths
  // ---------------------------------------------------------------------------

  /**
    `r` hundredths is `n / d` rounded to two decimal places, halves away from
    zero (what Postgres' ROUND does on `numeric`): the rounding error
    `n / d - r / 100` lies in [-1/200, 1/200) for a non-negative ratio and in
    (-1/200, 1/200] for a negative one.
   */
  predicate IsRoundedHundredths(r: int, n: int, d: int)
    requires d > 0
  {
    && (n >= 0 ==> -d <= 2 * (100 * n - r * d) < d)
    && (n < 0 ==> -d < 2 * (100 * n - r * d) <= d)
  }

  /** ROUND(n::numeric / d, 2), as a whole number of hundredths. */
  function RoundHundredths(n: int, d: int): (r: int)
    requires d > 0
    ensures IsRoundedHundredths(r, n, d)
    ensures n >= 0 ==> r >= 0
    ensures n <= 0 ==> r <= 0
  {
    if n >= 0 then
      HalfUnitQuotient(200 * n + d, d);
      (200 * n + d) / (2 * d)
    else
      HalfUnitQuotient(d - 200 * n, d);
      -((d - 200 * n) / (2 * d))
  }

  /** Euclidean division of `a` by `2d`, restated without the divisor's product. */
  lemma HalfUnitQuotient(a: int, d: int)
    requires d > 0
    ensures 2 * (a / (2 * d) * d) <= a < 2 * (a / (2 * d) * d) + 2 * d
    ensures a >= 0 ==> a / (2 * d) >= 0
  {
    var m := 2 * d;
    var q, rem := a / m, a % m;
    assert a == q * m + rem && 0 <= rem < m;
    DoubleProduct(q, d);
    if a >= 0 {
      MultipleAboveMinusUnit(q, d);
    }
  }

  lemma DoubleProduct(q: int, d: int)
    ensures q * (2 * d) == 2 * (q * d)
  {
  }

  /** A multiple of `d` strictly between -d and d is zero. */
  lemma MultipleInOpenUnitIsZero(k: int, d: int)
    requires d > 0
    requires -d < k * d < d
    ensures k == 0
  {
  }

  /** The rounding characterisation pins the result down: RoundHundredths is the only value meeting it. */
  lemma RoundHundredthsUnique(r: int, n: int, d: int)
    requires d > 0
    requires IsRoundedHundredths(r, n, d)
    ensures r == RoundHundredths(n, d)
  {
    var q := RoundHundredths(n, d);
    HalfUnitsApart(n, d, q * d, r * d);
    ProductOfDifference(q, r, d);
    MultipleInOpenUnitIsZero(q - r, d);
  }

  lemma ProductOfDifference(a: int, b: int, d: int)
    ensures (a - b) * d == a * d - b * d
  {
  }

  /** Two values within the same half-open half-unit of `100n` lie less than `d` apart. */
  lemma HalfUnitsApart(n: int, d: int, x: int, y: int)
    requires d > 0
    requires n >= 0 ==> -d <= 2 * (100 * n - x) < d && -d <= 2 * (100 * n - y) < d
    requires n < 0 ==> -d < 2 * (100 * n - x) <= d && -d < 2 * (100 * n - y) <= d
    ensures -d < x - y < d
  {
  }

  /** An exact quotient is returned unchanged (e.g. 500 / 5 gives 100.00). */
  lemma RoundHundredthsExact(n: int, d: int, q: int)
    requires d > 0
    requires 100 * n == q * d
    ensures RoundHundredths(n, d) == q
  {
    assert IsRoundedHundredths(q, n, d);
    RoundHundredthsUnique(q, n, d);
  }

  /** Whenever n / d is at least k (a whole number), so is its rounding. */
  lemma RoundHundredthsAtLeast(n: int, d: int, k: int)
    requires d > 0
    requires 100 * n >= k * d
    ensures RoundHundredths(n, d) >= k
  {
    var r := RoundHundredths(n, d);
    ProductOfDifference(r, k, d);
    MultipleAboveMinusUnit(r - k, d);
  }

  /** A multiple of `d` above -d is non-negative. */
  lemma MultipleAboveMinusUnit(m: int, d: int)
    requires d > 0
    requires m * d > -d
    ensures m >= 0
  {
  }

  /** Rounding halves away from zero is symmetric about zero. */
  lemma RoundHundredthsOdd(n: int, d: int)
    requires d > 0
    ensures RoundHundredths(-n, d) == -RoundHundredths(n, d)
  {
    var r := RoundHundredths(n, d);
    ProductOfDifference(0, r, d);
    assert IsRoundedHundredths(-r, -n, d);
    RoundHundredthsUnique(-r, -n, d);
  }

  // ---------------------------------------------------------------------------
  // Counting for GROUP BY ... COUNT(*)
  // ---------------------------------------------------------------------------

  /** No element occurs twice. */
  predicate NoDup<T(==)>(s: seq<T>)
  {
    forall i, j :: 0 <= i < j < |s| ==> s[i] != s[j]
  }

  /** A sequence with a head is duplicate-free when its tail is and the head does not recur. */
  lemma NoDupCons<T>(h: T, t: seq<T>)
    ensures NoDup([h] + t) <==> h !in t && NoDup(t)
  {
    var s := [h] + t;
    if h !in t && NoDup(t) {
      forall i, j | 0 <= i < j < |s|
        ensures s[i] != s[j]
      {
        if i > 0 {
          assert s[i] == t[i - 1] && s[j] == t[j - 1];
        } else {
          assert s[j] == t[j - 1];
        }
      }
    }
    if NoDup(s) {
      assert forall i, j :: 0 <= i < j < |t| ==> s[i + 1] == t[i] && s[j + 1] == t[j];
      forall j | 0 <= j < |t|
        ensures t[j] != h
      {
        assert s[j + 1] == t[j] && s[0] == h;
      }
    }
  }

  /** In a duplicate-free sequence every element occurs exactly once. */
  lemma {:induction false} NoDupOccursOnce<T>(s: seq<T>, x: T)
    requires NoDup(s)
    ensures multiset(s)[x] == if x in s then 1 else 0
  {
    if s != [] {
      assert s == [s[0]] + s[1..];
      assert NoDup(s[1..]);
      NoDupOccursOnce(s[1..], x);
      if x == s[0] {
        assert x !in s[1..];
      }
    }
  }

  /** The distinct elements of `s`, in order of first appearance. */
  function Distinct<T(==)>(s: seq<T>): (d: seq<T>)
    ensures NoDup(d)
    ensures forall i :: 0 <= i < |s| ==> s[i] in d
    ensures forall i :: 0 <= i < |d| ==> d[i] in s
    ensures NoDup(s) ==> d == s
  {
    if s == [] then []
    else
      var init, last := s[..|s| - 1], s[|s| - 1];
      assert s == init + [last];
      var rest := Distinct(init);
      NoDupSnoc(init, last);
      if last in rest then rest
      else
        NoDupSnoc(rest, last);
        rest + [last]
  }

  /** Appending an element keeps a sequence duplicate-free exactly when the element is new. */
  lemma NoDupSnoc<T>(t: seq<T>, x: T)
    ensures NoDup(t + [x]) <==> x !in t && NoDup(t)
  {
    var s := t + [x];
    assert forall i :: 0 <= i < |t| ==> s[i] == t[i];
    if NoDup(s) {
      forall i | 0 <= i < |t|
        ensures t[i] != x
      {
        assert s[i] != s[|t|];
      }
    }
  }

  /** The sum, over the group keys `keys`, of how many elements of `s` fall into each group. */
  function SumCounts<T(==)>(keys: seq<T>, s: seq<T>): nat
  {
    if keys == [] then 0 else multiset(s)[keys[0]] + SumCounts(keys[1..], s)
  }

  lemma {:induction false} SumCountsOfEmpty<T>(keys: seq<T>)
    ensures SumCounts(keys, []) == 0
  {
    if keys != [] {
      SumCountsOfEmpty(keys[1..]);
    }
  }

  lemma {:induction false} SumCountsSnoc<T>(keys: seq<T>, s: seq<T>, x: T)
    ensures SumCounts(keys, s + [x]) == SumCounts(keys, s) + multiset(keys)[x]
  {
    if keys != [] {
      assert keys == [keys[0]] + keys[1..];
      SumCountsSnoc(keys[1..], s, x);
    }
  }

  /**
    Group counts add up to the total: when the keys are distinct and every
    element of `s` has its key among them, the per-key counts sum to |s|.
   */
  lemma {:induction false} SumCountsPartition<T>(keys: seq<T>, s: seq<T>)
    requires NoDup(keys)
    requires forall x :: x in s ==> x in keys
    ensures SumCounts(keys, s) == |s|
  {
    if s == [] {
      SumCountsOfEmpty(keys);
    } else {
      var init, last := s[..|s| - 1], s[|s| - 1];
      assert s == init + [last];
      SumCountsPartition(keys, init);
      SumCountsSnoc(keys, init, last);
      NoDupOccursOnce(keys, last);
    }
  }
}

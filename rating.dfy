/**
 * The arithmetic of the incremental film rating.
 *
 * A rating is a decimal with one fractional digit in [0.0, 10.0]; here it is the integer
 * number of tenths (63 stands for 6.3). `BigDecimal.divide(d, 1, RoundingMode.HALF_UP)` of a
 * value with one fractional digit is then the integer quotient of the tenths, rounded to the
 * nearest integer with halves away from zero, on signed numerators.
 */
module Rating {

  /** A rating in tenths of a point. */
  type Tenths = int

  /** The bounds declared on Film.rating (@DecimalMin("0.0"), @DecimalMax("10.0")), in tenths. */
  const MinRating: Tenths := 0
  const MaxRating: Tenths := 100

  predicate InRange(r: Tenths) {
    MinRating <= r <= MaxRating
  }

  function Abs(x: int): nat {
    if x < 0 then -x else x
  }

  /** Multiples of a positive d: a non-zero multiple is at least d away from zero. */
  lemma MultipleBounds(k: int, d: int)
    requires d > 0
    ensures k >= 1 ==> k * d >= d
    ensures k <= -1 ==> k * d <= -d
    ensures k >= 2 ==> k * d >= 2 * d
    ensures k <= -2 ==> k * d <= -2 * d
    ensures k == 0 ==> k * d == 0
  {
  }

  lemma MultiplyOut(j: int, k: int, d: int)
    ensures (j + k) * d == j * d + k * d
    ensures (-j) * d == -(j * d)
  {
  }

  /** The quotient of |a| by d rounded half up, carrying the sign of a. */
  function HalfUpQuotient(a: int, d: int): int
    requires d > 0
  {
    var m := Abs(a);
    var q0 := m / d;
    if 2 * (m % d) >= d then (if a >= 0 then q0 + 1 else -(q0 + 1))
    else (if a >= 0 then q0 else -q0)
  }

  /** For a non-negative numerator, HalfUpQuotient is a nearest quotient and a tie lies beyond m. */
  lemma HalfUpQuotientNearestNonNegative(m: nat, d: int)
    requires d > 0
    ensures var q := HalfUpQuotient(m, d);
      && q >= 0 && q * d >= 0
      && 2 * Abs(m - q * d) <= d
      && (2 * Abs(m - q * d) == d ==> q * d > m)
  {
    var q0 := m / d;
    var r := m % d;
    assert m == q0 * d + r && 0 <= r < d;
    assert q0 >= 0;
    MultipleBounds(q0, d);
    var q := HalfUpQuotient(m, d);
    if 2 * r >= d {
      assert q == q0 + 1;
      MultiplyOut(q0, 1, d);
      var qd := q * d;
      assert qd == q0 * d + d;
      assert m - qd == r - d < 0;
      assert Abs(m - qd) == d - r;
    } else {
      assert q == q0;
      assert m - q * d == r;
    }
  }

  /** HalfUpQuotient is a nearest quotient and breaks ties away from zero. */
  lemma HalfUpQuotientNearest(a: int, d: int)
    requires d > 0
    ensures var q := HalfUpQuotient(a, d);
      && 2 * Abs(a - q * d) <= d
      && (2 * Abs(a - q * d) == d ==> Abs(q * d) > Abs(a))
      && (a >= 0 ==> q >= 0) && (a <= 0 ==> q <= 0)
  {
    var m := Abs(a);
    HalfUpQuotientNearestNonNegative(m, d);
    var qm := HalfUpQuotient(m, d);
    if a < 0 {
      assert HalfUpQuotient(a, d) == -qm;
      MultiplyOut(qm, 0, d);
    }
  }

  /**
   * a / d rounded to the nearest integer, exact halves rounded away from zero
   * (RoundingMode.HALF_UP). The result is the nearest integer quotient, and on a tie it is the
   * one of larger magnitude.
   */
  function RoundHalfUpDiv(a: int, d: int): (q: int)
    requires d > 0
    ensures 2 * Abs(a - q * d) <= d
    ensures 2 * Abs(a - q * d) == d ==> Abs(q * d) > Abs(a)
    ensures (a >= 0 ==> q >= 0) && (a <= 0 ==> q <= 0)
  {
    HalfUpQuotientNearest(a, d);
    HalfUpQuotient(a, d)
  }

  /**
   * The two properties of RoundHalfUpDiv determine it: any integer that is a nearest quotient
   * and breaks ties away from zero is the one RoundHalfUpDiv returns.
   */
  lemma RoundHalfUpDivUnique(a: int, d: int, q: int)
    requires d > 0
    requires 2 * Abs(a - q * d) <= d
    requires 2 * Abs(a - q * d) == d ==> Abs(q * d) > Abs(a)
    ensures q == RoundHalfUpDiv(a, d)
  {
    var p := RoundHalfUpDiv(a, d);
    if q != p {
      MultiplyOut(q, -p, d);
      MultiplyOut(p, 0, d);
      MultipleBounds(q - p, d);
      MultipleBounds(q, d);
      MultipleBounds(p, d);
      // Two nearest quotients differ by one and are both ties, on opposite sides of a; the one
      // on the side of zero would be a non-zero multiple of d strictly between -d and d.
      assert false;
    }
  }

  /** Adding a review in range to a rating in range keeps the rating in range. */
  lemma AddedRatingInRange(current: Tenths, n: nat, x: Tenths)
    requires n >= 1
    requires InRange(current) && InRange(x)
    ensures InRange(RoundHalfUpDiv(current * (n - 1) + x, n))
  {
    var num := current * (n - 1) + x;
    assert 0 <= current * (n - 1) <= MaxRating * (n - 1);
    assert 0 <= num <= MaxRating * n;
    var r := RoundHalfUpDiv(current * (n - 1) + x, n);
    assert r >= 0;
    MultipleBounds(r - MaxRating, n);
    MultiplyOut(r - MaxRating, MaxRating, n);
  }

  /**
   * calculateRating when the film already has a rating `current` and `n` reviews counting the
   * new one with rating `x`: (current * (n - 1) + x) / n, HALF_UP to one digit. A review in
   * range added to a rating in range gives a rating in range.
   */
  function AddedRating(current: Tenths, n: nat, x: Tenths): (r: Tenths)
    requires n >= 1
    ensures InRange(current) && InRange(x) ==> InRange(r)
  {
    if InRange(current) && InRange(x) then AddedRatingInRange(current, n, x); RoundHalfUpDiv(current * (n - 1) + x, n)
    else RoundHalfUpDiv(current * (n - 1) + x, n)
  }

  /** The added rating is the tenth nearest to the exact weighted mean. */
  lemma AddedRatingNearest(current: Tenths, n: nat, x: Tenths)
    requires n >= 1
    ensures 2 * Abs(current * (n - 1) + x - AddedRating(current, n, x) * n) <= n
  {
  }

  /**
   * The rating deleteReview computes, as written, when the film has `n` >= 2 reviews before
   * the deletion and the deleted review rated `x`: (current * n - x) / (n - 1), HALF_UP.
   */
  function DeletedRatingAsWritten(current: Tenths, n: nat, x: Tenths): (r: Tenths)
    requires n >= 2
  {
    RoundHalfUpDiv(current * n - x, n - 1)
  }

  /** The as-written deleted rating is the tenth nearest to the exact value, whatever its sign. */
  lemma DeletedRatingNearest(current: Tenths, n: nat, x: Tenths)
    requires n >= 2
    ensures 2 * Abs(current * n - x - DeletedRatingAsWritten(current, n, x) * (n - 1)) <= n - 1
  {
  }

  function Clamp(r: int): (c: Tenths)
    ensures InRange(c)
    ensures InRange(r) ==> c == r
  {
    if r < MinRating then MinRating else if r > MaxRating then MaxRating else r
  }

  /**
   * The rating deleteReview evidently intends: the same incremental formula, kept inside the
   * range the Film entity declares.
   */
  function DeletedRating(current: Tenths, n: nat, x: Tenths): (r: Tenths)
    requires n >= 2
    ensures InRange(r)
    ensures InRange(DeletedRatingAsWritten(current, n, x)) ==> r == DeletedRatingAsWritten(current, n, x)
  {
    Clamp(DeletedRatingAsWritten(current, n, x))
  }

  /** The worked examples of the review service's unit tests, in tenths. */
  lemma UnitTestExamples()
    ensures AddedRating(50, 3, 90) == 63            // 5.0 over two reviews, add 9 -> 6.3
    ensures DeletedRatingAsWritten(50, 3, 90) == 30 // 5.0 over three reviews, delete 9 -> 3.0
    ensures DeletedRating(50, 3, 90) == 30
  {
  }

  /**
   * Repeated rounding drifts: reviews 0.0, 0.0 and 0.1 give the ratings 0.0, 0.0 and 0.0, and
   * deleting the 0.1 review then computes (0.0 * 3 - 0.1) / 2 = -0.05, which HALF_UP makes -0.1,
   * below the minimum the Film entity declares.
   */
  lemma DeletedRatingLeavesRange()
    ensures AddedRating(0, 2, 0) == 0 && AddedRating(0, 3, 1) == 0
    ensures DeletedRatingAsWritten(0, 3, 1) == -1 && !InRange(DeletedRatingAsWritten(0, 3, 1))
    ensures DeletedRating(0, 3, 1) == 0
  {
    assert AddedRating(0, 2, 0) == 0;
    assert AddedRating(0, 3, 1) == 0;
    assert DeletedRatingAsWritten(0, 3, 1) == -1;
  }

  /** The sum of a list of ratings. */
  function Sum(xs: seq<Tenths>): int {
    if xs == [] then 0 else Sum(xs[..|xs| - 1]) + xs[|xs| - 1]
  }

  /** The mean of a non-empty list of ratings, HALF_UP to one digit: what a full recomputation gives. */
  function Mean(xs: seq<Tenths>): Tenths
    requires xs != []
  {
    RoundHalfUpDiv(Sum(xs), |xs|)
  }

  /**
   * While the stored rating is the exact mean of the reviews so far, the incremental update on
   * adding a review agrees with recomputing the mean from scratch.
   */
  lemma AddedRatingIsMean(xs: seq<Tenths>, current: Tenths, x: Tenths)
    requires xs != []
    requires current * |xs| == Sum(xs)
    ensures AddedRating(current, |xs| + 1, x) == Mean(xs + [x])
  {
    var ys := xs + [x];
    assert ys[..|ys| - 1] == xs;
    assert Sum(ys) == Sum(xs) + x;
    var n := |xs| + 1;
    assert n - 1 == |xs|;
    calc {
      AddedRating(current, n, x);
      RoundHalfUpDiv(current * (n - 1) + x, n);
      RoundHalfUpDiv(Sum(xs) + x, n);
    }
  }

  /**
   * While the stored rating is the exact mean of the reviews, the incremental update on
   * deleting the last review agrees with recomputing the mean of the others from scratch.
   */
  lemma DeletedRatingIsMean(xs: seq<Tenths>, current: Tenths, x: Tenths)
    requires xs != []
    requires current * (|xs| + 1) == Sum(xs + [x])
    ensures DeletedRatingAsWritten(current, |xs| + 1, x) == Mean(xs)
  {
    var ys := xs + [x];
    assert ys[..|ys| - 1] == xs;
    assert Sum(ys) == Sum(xs) + x;
  }
  /** Ratings all in range add up to at most MaxRating per rating, and to nothing negative. */
  lemma {:induction false} SumInRange(xs: seq<Tenths>)
    requires forall i :: 0 <= i < |xs| ==> InRange(xs[i])
    ensures 0 <= Sum(xs) <= MaxRating * |xs|
  {
    if xs != [] {
      SumInRange(xs[..|xs| - 1]);
    }
  }

  /** The mean of ratings in range is in range. */
  lemma MeanInRange(xs: seq<Tenths>)
    requires xs != []
    requires forall i :: 0 <= i < |xs| ==> InRange(xs[i])
    ensures InRange(Mean(xs))
  {
    SumInRange(xs);
    var n := |xs|;
    var r := Mean(xs);
    assert r >= 0;
    MultipleBounds(r - MaxRating, n);
    MultiplyOut(r - MaxRating, MaxRating, n);
  }

  /**
   * The rating deleteReview stores, clamped to the declared range, agrees with recomputing the
   * mean of the remaining reviews while the stored rating is exact and every review is in range.
   */
  lemma DeletedRatingIsMeanOfRest(xs: seq<Tenths>, current: Tenths, x: Tenths)
    requires xs != []
    requires forall i :: 0 <= i < |xs + [x]| ==> InRange((xs + [x])[i])
    requires current * (|xs| + 1) == Sum(xs + [x])
    ensures DeletedRating(current, |xs| + 1, x) == Mean(xs)
  {
    DeletedRatingIsMean(xs, current, x);
    assert forall i :: 0 <= i < |xs| ==> xs[i] == (xs + [x])[i];
    MeanInRange(xs);
  }
}

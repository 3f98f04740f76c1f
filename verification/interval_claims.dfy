/**
 The interval rows of stage S5 in `traigent_schema/certification/agent_quality_verifier.py`:
 a declared point and interval are accepted only when they are the recomputed ones.
 */
module IntervalClaims {
  import opened Outcomes
  import opened Wilson
  import opened StudentT

  /** The sentinel row of the quantile table that holds the normal quantiles. */
  const INFINITY_DF: int := 1_000_000_000

  datatype Code =
    | IntervalOutOfUnitBounds
    | IntervalOrder
    | IntervalDegenerate
    | PointEstimateRecomputationMismatch
    | QuantileTableLookupFailed
    | IntervalRecomputationMismatch

  /** The declared numbers of one claim and the bounds its objective is registered with. */
  datatype Declared = Declared(low: int, point: int, high: int, minimum: int, maximum: int)

  /** The shipped quantile table holds positive quantiles only. */
  ghost predicate PositiveTable(rows: seq<Row>) {
    forall r :: r in rows ==> r.quantile > 0
  }

  lemma LookupIsPositive(rows: seq<Row>, coverage: int, df: int)
    requires PositiveTable(rows) && LookupTScaled(rows, coverage, df).Some?
    ensures LookupTScaled(rows, coverage, df).value > 0
  {
    var b := LookupBorrowsLargestBucket(rows, coverage, df);
    assert Row(coverage, b.0, b.1) in rows;
  }

  /** The declared numbers are in order, within the registered bounds, and span something. */
  predicate IsPlausible(d: Declared) {
    d.minimum <= d.low <= d.point <= d.high <= d.maximum && d.low < d.high
  }

  /** The checks on the declared numbers alone; they run before any recomputation. */
  function DeclaredProblem(d: Declared): (problem: Option<Code>)
    ensures problem.None? <==> IsPlausible(d)
    ensures problem == Some(IntervalOutOfUnitBounds) <==>
            !(d.minimum <= d.low <= d.maximum && d.minimum <= d.point <= d.maximum && d.minimum <= d.high <= d.maximum)
    ensures problem == Some(IntervalOrder) ==> !(d.low <= d.point <= d.high)
    ensures problem in {None, Some(IntervalOutOfUnitBounds), Some(IntervalOrder), Some(IntervalDegenerate)}
    ensures d.low <= d.point <= d.high ==>
              && (problem == Some(IntervalOutOfUnitBounds) <==> d.low < d.minimum || d.maximum < d.high)
              && (problem == Some(IntervalDegenerate) <==> d.minimum <= d.low == d.high <= d.maximum)
              && problem != Some(IntervalOrder)
  {
    if !(d.minimum <= d.low <= d.maximum && d.minimum <= d.point <= d.maximum && d.minimum <= d.high <= d.maximum)
    then Some(IntervalOutOfUnitBounds)
    else if !(d.low <= d.point <= d.high) then Some(IntervalOrder)
    else if !(d.high > d.low) then Some(IntervalDegenerate)
    else None
  }

  /**
   The verdict a claim should get: trouble with its own numbers comes first, then a foreign point,
   then a missing quantile, then a foreign interval.
   */
  ghost function Verdict(d: Declared, point: int, quantile: Option<int>, isInterval: int -> bool): Option<Code> {
    if DeclaredProblem(d).Some? then DeclaredProblem(d)
    else if d.point != point then Some(PointEstimateRecomputationMismatch)
    else if quantile.None? then Some(QuantileTableLookupFailed)
    else if !isInterval(quantile.value) then Some(IntervalRecomputationMismatch)
    else None
  }

  // ----- binary rates

  /** The point and interval the sample supports, under the normal quantile of the coverage. */
  ghost predicate HonestRate(rows: seq<Row>, coverage: int, k: int, n: int, d: Declared)
    requires 0 <= k <= n && n > 0
  {
    var z := LookupTScaled(rows, coverage, INFINITY_DF);
    d.point == WilsonPoint(k, n) && z.Some? && z.value > 0 && IsWilsonInterval(k, n, z.value, d.low, d.high)
  }

  /**
   Every refusal carries the code of the first row the claim violates.  An honest claim never
   trips the order, degeneracy or recomputation rows: it passes unless the objective is registered
   with bounds the interval leaves, and no other claim passes.
   */
  method CheckWilsonClaim(rows: seq<Row>, coverage: int, k: int, n: int, d: Declared)
    returns (problem: Option<Code>)
    requires 0 <= k <= n && n > 0 && PositiveTable(rows)
    ensures problem == Verdict(d, WilsonPoint(k, n), LookupTScaled(rows, coverage, INFINITY_DF),
                               z => z > 0 && IsWilsonInterval(k, n, z, d.low, d.high))
    ensures problem.None? <==> HonestRate(rows, coverage, k, n, d) && d.minimum <= d.low && d.high <= d.maximum
    ensures problem == Some(PointEstimateRecomputationMismatch) <==> IsPlausible(d) && d.point != WilsonPoint(k, n)
    ensures problem == Some(QuantileTableLookupFailed) <==>
            IsPlausible(d) && d.point == WilsonPoint(k, n) && LookupTScaled(rows, coverage, 1_000_000_000).None?
    ensures problem == Some(IntervalRecomputationMismatch) <==>
            && IsPlausible(d) && d.point == WilsonPoint(k, n) && LookupTScaled(rows, coverage, 1_000_000_000).Some?
            && !HonestRate(rows, coverage, k, n, d)
    ensures HonestRate(rows, coverage, k, n, d) && problem.Some? ==> problem == Some(IntervalOutOfUnitBounds)
    ensures HonestRate(rows, coverage, k, n, d) && d.minimum <= 0 && SCALE <= d.maximum ==> problem.None?
  {
    problem := DeclaredProblem(d);
    if problem.None? && d.point != WilsonPoint(k, n) {
      problem := Some(PointEstimateRecomputationMismatch);
    }
    var z := LookupTScaled(rows, coverage, INFINITY_DF);
    if z.None? {
      if problem.None? {
        problem := Some(QuantileTableLookupFailed);
      }
      return;
    }
    LookupIsPositive(rows, coverage, INFINITY_DF);
    var low, high := WilsonBounds(k, n, z.value);
    PointIsEnclosed(k, n, z.value, low, high);
    OnlyInterval(k, n, z.value, low, high, d.low, d.high);
    if problem.None? && (d.low != low || d.high != high) {
      problem := Some(IntervalRecomputationMismatch);
    }
  }

  lemma OnlyInterval(k: int, n: int, z: int, lo: int, hi: int, lo': int, hi': int)
    requires n > 0 && z > 0 && IsWilsonInterval(k, n, z, lo, hi)
    ensures IsWilsonInterval(k, n, z, lo', hi') <==> lo' == lo && hi' == hi
  {
    if IsWilsonInterval(k, n, z, lo', hi') {
      IntervalIsUnique(k, n, z, lo, hi, lo', hi');
    }
  }

  // ----- means

  /** The mean and its half-width either side, under the quantile borrowed for the sample's size. */
  ghost predicate HonestMean(rows: seq<Row>, coverage: int, mean: int, sd: int, count: int, d: Declared)
    requires count >= 1
  {
    var t := LookupTScaled(rows, coverage, count - 1);
    && d.point == mean && t.Some?
    && d.low == mean - HalfWidth(t.value, sd, count) && d.high == mean + HalfWidth(t.value, sd, count)
  }

  /**
   A mean claim passes exactly when it is honest, the sample shows spread and the interval stays
   within the registered bounds.  An honest claim is refused as out of bounds when it leaves them,
   and otherwise as degenerate exactly when the sample shows no spread.
   */
  method CheckMeanClaim(rows: seq<Row>, coverage: int, mean: int, sd: int, count: int, d: Declared)
    returns (problem: Option<Code>)
    requires sd >= 0 && count >= 1 && PositiveTable(rows)
    ensures problem == Verdict(d, mean, LookupTScaled(rows, coverage, count - 1),
                               t => d.low == mean - HalfWidth(t, sd, count) && d.high == mean + HalfWidth(t, sd, count))
    ensures problem.None? <==>
            && HonestMean(rows, coverage, mean, sd, count, d) && sd > 0
            && d.minimum <= d.low && d.high <= d.maximum
    ensures problem == Some(PointEstimateRecomputationMismatch) <==> IsPlausible(d) && d.point != mean
    ensures problem == Some(QuantileTableLookupFailed) <==>
            IsPlausible(d) && d.point == mean && LookupTScaled(rows, coverage, count - 1).None?
    ensures problem == Some(IntervalRecomputationMismatch) <==>
            && IsPlausible(d) && d.point == mean && LookupTScaled(rows, coverage, count - 1).Some?
            && !HonestMean(rows, coverage, mean, sd, count, d)
    ensures HonestMean(rows, coverage, mean, sd, count, d) ==>
              && problem in {None, Some(IntervalOutOfUnitBounds), Some(IntervalDegenerate)}
              && (problem == Some(IntervalOutOfUnitBounds) <==> d.low < d.minimum || d.maximum < d.high)
              && (problem == Some(IntervalDegenerate) <==> sd == 0 && d.minimum <= mean <= d.maximum)
  {
    problem := DeclaredProblem(d);
    if problem.None? && d.point != mean {
      problem := Some(PointEstimateRecomputationMismatch);
    }
    var t := LookupTScaled(rows, coverage, count - 1);
    if t.None? {
      if problem.None? {
        problem := Some(QuantileTableLookupFailed);
      }
      return;
    }
    LookupIsPositive(rows, coverage, count - 1);
    HalfWidthIsOutward(t.value, sd, count);
    HalfWidthIsZeroIffNoSpread(t.value, sd, count);
    var half := HalfWidth(t.value, sd, count);
    if problem.None? && (d.low != mean - half || d.high != mean + half) {
      problem := Some(IntervalRecomputationMismatch);
    }
  }
}

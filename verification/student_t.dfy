/**
 The Student-t half-width and the pinned quantile lookup of
 `traigent_schema/certification/agent_quality_verifier.py`.
 */
module StudentT {
  import opened Outcomes
  import opened Sorting
  import opened Wilson

  const ISQRT_SCALE: int := 1_000_000

  /** Python's exact, floored integer square root. */
  function Isqrt(n: nat): (r: nat)
    ensures r * r <= n < (r + 1) * (r + 1)
  {
    IsqrtFrom(n, 0)
  }

  function IsqrtFrom(n: nat, r: nat): (s: nat)
    requires r * r <= n
    ensures s * s <= n < (s + 1) * (s + 1)
    decreases n - r * r
  {
    if (r + 1) * (r + 1) <= n then IsqrtFrom(n, r + 1) else r
  }

  lemma IsqrtIsMonotone(m: nat, n: nat)
    requires m <= n
    ensures Isqrt(m) <= Isqrt(n)
  {
    RootOrder(Isqrt(m), Isqrt(n) + 1);
  }

  lemma RootOrder(x: nat, y: nat)
    requires x * x < y * y
    ensures x < y
  {
    if x >= y {
      SquareMonotone(y, x);
    }
  }

  lemma SquareMonotone(x: int, y: int)
    requires 0 <= x <= y
    ensures x * x <= y * y
  {
  }

  /** Division rounded up. */
  function CeilDiv(x: int, y: int): int
    requires y > 0
  {
    -(-x / y)
  }

  lemma CeilDivBounds(x: int, y: int)
    requires y > 0
    ensures y * (CeilDiv(x, y) - 1) < x <= y * CeilDiv(x, y)
  {
    assert -x == y * (-x / y) + (-x) % y;
  }

  /** Ceilings follow the order of the quotients. */
  lemma CeilDivMonotone(x: int, y: int, x': int, y': int)
    requires y > 0 && y' > 0 && 0 <= x && x * y' <= x' * y
    ensures CeilDiv(x, y) <= CeilDiv(x', y')
  {
    hide CeilDiv;
    CeilDivBounds(x, y);
    CeilDivBounds(x', y');
    QuotientOrder(x, y, x', y', CeilDiv(x, y), CeilDiv(x', y'));
  }

  lemma QuotientOrder(x: int, y: int, x': int, y': int, c: int, c': int)
    requires y > 0 && y' > 0 && x * y' <= x' * y && y * (c - 1) < x && x' <= y' * c'
    ensures c <= c'
  {
    calc {
      (y * y') * (c - 1);
      { Swap(y, y', c - 1); }
      y' * (y * (c - 1));
    < { Scale(y', y * (c - 1), x); }
      x * y';
    <=
      x' * y;
    <= { Scale(y, x', y' * c'); }
      (y' * c') * y;
      { Reorder(y', c', y); }
      (y * y') * c';
    }
    Cancel(y * y', c - 1, c');
  }

  lemma Scale(y: int, u: int, v: int)
    requires y > 0
    ensures u <= v ==> u * y <= v * y
    ensures u < v ==> u * y < v * y
  {
  }

  /** ceil(t sd / sqrt(count)), t in millionths, from integers alone. */
  function HalfWidth(t: int, sd: int, count: int): int
    requires count >= 1
  {
    RootIsPositive(count);
    CeilDiv(t * sd * ISQRT_SCALE, SCALE * ScaledRoot(count))
  }

  /** sqrt(count), scaled and rounded down. */
  function ScaledRoot(count: int): nat
    requires count >= 1
  {
    Isqrt(count * ISQRT_SCALE * ISQRT_SCALE)
  }

  lemma RootIsPositive(count: int)
    requires count >= 1
    ensures ScaledRoot(count) > 0
  {
  }

  /** The half-width is never narrower than t sd / sqrt(count): squared and cleared of roots. */
  lemma HalfWidthIsOutward(t: int, sd: int, count: int)
    requires t >= 0 && sd >= 0 && count >= 1
    ensures HalfWidth(t, sd, count) >= 0
    ensures (HalfWidth(t, sd, count) * SCALE) * (HalfWidth(t, sd, count) * SCALE) * count
         >= (t * sd) * (t * sd)
  {
    hide Isqrt, IsqrtFrom, CeilDiv;
    var h, r := HalfWidth(t, sd, count), ScaledRoot(count);
    RootBounds(count);
    ProductsGrow(0, t, 0, sd);
    CeilDivBounds(t * sd * ISQRT_SCALE, SCALE * r);
    assert h >= 0 by { Cancel(SCALE * r, -1, h - 1); Cancel(SCALE * r, 0, h); }
    Reorder(SCALE, r, h);
    OutwardSquares(h * SCALE, t * sd, r, count, ISQRT_SCALE);
  }

  lemma OutwardSquares(w: int, u: int, r: int, c: int, i: int)
    requires w >= 0 && u >= 0 && i >= 1 && u * i <= w * r && r * r <= c * (i * i)
    ensures w * w * c >= u * u
  {
    ProductsGrow(0, u, 0, i);
    SquareMonotone(u * i, w * r);
    SquareOfProduct(w, r);
    SquareOfProduct(u, i);
    ProductsGrow(0, w, 0, w);
    ProductOrder(w * w, r * r, c * (i * i));
    Assoc(w * w, c, i * i);
    ProductsGrow(1, i, 1, i);
    Cancel(i * i, u * u, w * w * c);
  }

  /**
   Nor is it much wider: one unit less than the half-width already falls short of t sd / sqrt(count)
   widened by one part in ISQRT_SCALE, the error of the scaled root.
   */
  lemma HalfWidthIsTight(t: int, sd: int, count: int)
    requires t >= 0 && sd >= 0 && count >= 1 && HalfWidth(t, sd, count) >= 1
    ensures ((HalfWidth(t, sd, count) - 1) * SCALE) * ((HalfWidth(t, sd, count) - 1) * SCALE) * count
            * (ISQRT_SCALE * ISQRT_SCALE)
          < (t * sd) * (t * sd) * ((ISQRT_SCALE + 1) * (ISQRT_SCALE + 1))
  {
    hide Isqrt, IsqrtFrom, CeilDiv;
    var h, r := HalfWidth(t, sd, count), ScaledRoot(count);
    RootBounds(count);
    CeilDivBounds(t * sd * ISQRT_SCALE, SCALE * r);
    Reorder(SCALE, r, h - 1);
    ProductsGrow(0, t, 0, sd);
    TightSquares((h - 1) * SCALE, t * sd, r, count, ISQRT_SCALE);
  }

  lemma Reorder(x: int, y: int, z: int)
    ensures (x * y) * z == (z * x) * y
  {
  }

  /** The error of the scaled root. */
  lemma RootBounds(count: int)
    requires count >= 1
    ensures ScaledRoot(count) >= ISQRT_SCALE
    ensures ScaledRoot(count) * ScaledRoot(count) <= count * (ISQRT_SCALE * ISQRT_SCALE)
          < (ScaledRoot(count) + 1) * (ScaledRoot(count) + 1)
  {
    var r := ScaledRoot(count);
    assert ISQRT_SCALE * ISQRT_SCALE <= count * (ISQRT_SCALE * ISQRT_SCALE);
    RootOrder(ISQRT_SCALE, r + 1);
  }

  lemma TightSquares(w: int, u: int, r: int, c: int, i: int)
    requires w >= 0 && u >= 0 && 1 <= i <= r && w * r < u * i && c * (i * i) < (r + 1) * (r + 1)
    ensures w * w * c * (i * i) < u * u * ((i + 1) * (i + 1))
  {
    RelativeError(r, c, i);
    ProductsGrow(0, w, 0, r);
    SquaresGrow(w * r, u * i);
    SquareOfProduct(w, r);
    SquareOfProduct(u, i);
    ProductsGrow(1, i, 1, i);
    ProductsGrow(1, i + 1, 1, i + 1);
    TightProducts(w * w, u * u, r * r, c, i * i, (i + 1) * (i + 1));
  }

  /** (r + 1) / r is at most (i + 1) / i. */
  lemma RelativeError(r: int, c: int, i: int)
    requires 1 <= i <= r && c * (i * i) < (r + 1) * (r + 1)
    ensures (c * (i * i)) * (i * i) <= (r * r) * ((i + 1) * (i + 1))
  {
    assert (r + 1) * i <= r * (i + 1);
    SquareMonotone((r + 1) * i, r * (i + 1));
    Scale(i * i, c * (i * i), (r + 1) * (r + 1));
    SquareOfProduct(r + 1, i);
    SquareOfProduct(r, i + 1);
  }

  lemma SquareOfProduct(x: int, y: int)
    ensures (x * y) * (x * y) == (x * x) * (y * y)
  {
  }

  lemma SquaresGrow(x: int, y: int)
    requires 0 <= x < y
    ensures x * x < y * y
  {
  }

  lemma TightProducts(w: int, u: int, r: int, c: int, i: int, j: int)
    requires w >= 0 && i > 0 && j > 0 && w * r < u * i && (c * i) * i <= r * j
    ensures w * c * i < u * j
  {
    calc {
      i * (w * c * i);
      { Regroup(w, c, i); }
      w * ((c * i) * i);
    <= { ProductOrder(w, (c * i) * i, r * j); }
      w * (r * j);
      { Assoc(w, r, j); }
      (w * r) * j;
    < { Scale(j, w * r, u * i); }
      (u * i) * j;
      { Swap(u, i, j); }
      i * (u * j);
    }
    Cancel(i, w * c * i, u * j);
  }

  lemma Regroup(w: int, c: int, i: int)
    ensures i * (w * c * i) == w * ((c * i) * i)
  {
  }

  lemma Assoc(x: int, y: int, z: int)
    ensures x * (y * z) == (x * y) * z
  {
  }

  lemma Swap(u: int, i: int, j: int)
    ensures (u * i) * j == i * (u * j)
  {
  }

  lemma ProductOrder(w: int, x: int, y: int)
    requires w >= 0 && x <= y
    ensures w * x <= w * y
  {
  }

  /** More spread never narrows the interval; a larger quantile never does; more samples never widen it. */
  lemma HalfWidthMonotone(t: int, sd: int, count: int, t': int, sd': int, count': int)
    requires 0 <= t <= t' && 0 <= sd <= sd' && 1 <= count' <= count
    ensures HalfWidth(t, sd, count) <= HalfWidth(t', sd', count')
  {
    var d, d' := ScaledRoot(count), ScaledRoot(count');
    RootIsPositive(count);
    RootIsPositive(count');
    IsqrtIsMonotone(count' * ISQRT_SCALE * ISQRT_SCALE, count * ISQRT_SCALE * ISQRT_SCALE);
    ProductsGrow(t, t', sd, sd');
    ProductsGrow(t * sd, t' * sd', d', d);
    CeilDivMonotone(t * sd * ISQRT_SCALE, SCALE * d, t' * sd' * ISQRT_SCALE, SCALE * d');
  }

  lemma ProductsGrow(x: int, x': int, y: int, y': int)
    requires 0 <= x <= x' && 0 <= y <= y'
    ensures 0 <= x * y <= x' * y'
  {
    assert x * y <= x' * y <= x' * y';
  }

  /** The interval collapses exactly when the sample shows no spread. */
  lemma HalfWidthIsZeroIffNoSpread(t: int, sd: int, count: int)
    requires t > 0 && sd >= 0 && count >= 1
    ensures HalfWidth(t, sd, count) == 0 <==> sd == 0
  {
    var y, h := SCALE * ScaledRoot(count), HalfWidth(t, sd, count);
    RootIsPositive(count);
    CeilDivBounds(t * sd * ISQRT_SCALE, y);
    if sd > 0 {
      assert t * sd > 0;
      Cancel(y, 0, h);
    } else {
      assert t * sd == 0;
      Cancel(y, h - 1, 0);
      Cancel(y, 0, h);
    }
  }

  // ----- the pinned quantile table

  /** One row: the quantile, in millionths, for a coverage and a bucket of degrees of freedom. */
  datatype Row = Row(coverage: int, df: int, quantile: int)

  type Bucket = (int, int)

  predicate BucketLeq(a: Bucket, b: Bucket) {
    a.0 < b.0 || (a.0 == b.0 && a.1 <= b.1)
  }

  function RowsFor(rows: seq<Row>, coverage: int): seq<Bucket> {
    if rows == [] then []
    else
      var rest := RowsFor(rows[..|rows| - 1], coverage);
      var last := rows[|rows| - 1];
      if last.coverage == coverage then rest + [(last.df, last.quantile)] else rest
  }

  /** A coverage's buckets in order of degrees of freedom. */
  function Buckets(rows: seq<Row>, coverage: int): seq<Bucket> {
    Sort(RowsFor(rows, coverage), BucketLeq)
  }

  lemma {:induction false} RowsForIsFilter(rows: seq<Row>, coverage: int, b: Bucket)
    ensures b in RowsFor(rows, coverage) <==> Row(coverage, b.0, b.1) in rows
  {
    if rows != [] {
      var rest, last := rows[..|rows| - 1], rows[|rows| - 1];
      RowsForIsFilter(rest, coverage, b);
      assert rows == rest + [last];
    }
  }

  method QuantileBucketsByCoverage(rows: seq<Row>) returns (grouped: map<int, seq<Bucket>>)
    ensures forall c :: c in grouped <==> RowsFor(rows, c) != []
    ensures forall c :: c in grouped ==> grouped[c] == Buckets(rows, c)
  {
    var lists: map<int, seq<Bucket>> := map[];
    for i := 0 to |rows|
      invariant forall c :: c in lists <==> RowsFor(rows[..i], c) != []
      invariant forall c :: c in lists ==> lists[c] == RowsFor(rows[..i], c)
    {
      var row := rows[i];
      assert rows[..i + 1][..i] == rows[..i];
      var sofar := if row.coverage in lists then lists[row.coverage] else [];
      lists := lists[row.coverage := sofar + [(row.df, row.quantile)]];
    }
    assert rows[..|rows|] == rows;
    grouped := map c | c in lists :: Sort(lists[c], BucketLeq);
  }

  /** Python's `bisect_right` on the bucket keys. */
  function BisectRight(buckets: seq<Bucket>, df: int): (i: nat)
    ensures i <= |buckets|
  {
    if buckets == [] || buckets[0].0 > df then 0 else 1 + BisectRight(buckets[1..], df)
  }

  lemma {:induction false} BisectRightSplits(buckets: seq<Bucket>, df: int)
    requires Sorted(buckets, BucketLeq)
    ensures forall j :: 0 <= j < |buckets| ==> (j < BisectRight(buckets, df) <==> buckets[j].0 <= df)
  {
    if buckets != [] && buckets[0].0 <= df {
      BisectRightSplits(buckets[1..], df);
    }
  }

  /** The quantile borrowed for df degrees of freedom; None when the table has no bucket to borrow. */
  function LookupTScaled(rows: seq<Row>, coverage: int, df: int): Option<int> {
    var buckets := Buckets(rows, coverage);
    var index := BisectRight(buckets, df) - 1;
    if index < 0 then None else Some(buckets[index].1)
  }

  lemma BucketsAreTotallyOrdered()
    ensures TotalOrder(BucketLeq)
  {
  }

  lemma BucketsHoldRows(rows: seq<Row>, coverage: int)
    ensures Sorted(Buckets(rows, coverage), BucketLeq)
    ensures forall b: Bucket :: b in Buckets(rows, coverage) <==> Row(coverage, b.0, b.1) in rows
  {
    var listed, buckets := RowsFor(rows, coverage), Buckets(rows, coverage);
    BucketsAreTotallyOrdered();
    SortIsSorted(listed, BucketLeq);
    forall b: Bucket ensures b in buckets <==> Row(coverage, b.0, b.1) in rows {
      RowsForIsFilter(rows, coverage, b);
      assert b in multiset(buckets) <==> b in multiset(listed);
    }
  }

  /** b is a row of the coverage that does not exceed df, and the last such row in bucket order. */
  ghost predicate LargestBucket(rows: seq<Row>, coverage: int, df: int, b: Bucket) {
    && Row(coverage, b.0, b.1) in rows && b.0 <= df
    && forall r :: r in rows && r.coverage == coverage && r.df <= df ==>
         r.df < b.0 || (r.df == b.0 && r.quantile <= b.1)
  }

  /** The lookup fails exactly when the coverage has no bucket up to df. */
  lemma LookupFailsIffNoBucket(rows: seq<Row>, coverage: int, df: int)
    ensures LookupTScaled(rows, coverage, df).None? <==>
            forall r :: r in rows && r.coverage == coverage ==> r.df > df
  {
    var buckets := Buckets(rows, coverage);
    BucketsHoldRows(rows, coverage);
    BisectRightSplits(buckets, df);
    if BisectRight(buckets, df) == 0 {
      forall r | r in rows && r.coverage == coverage ensures r.df > df {
        assert (r.df, r.quantile) in buckets;
      }
    } else {
      assert buckets[0] in buckets;
    }
  }

  lemma LastIsLargest(buckets: seq<Bucket>, index: nat, df: int, x: Bucket)
    requires index < |buckets| && Sorted(buckets, BucketLeq) && x in buckets && x.0 <= df
    requires forall j :: 0 <= j < |buckets| ==> (j < index + 1 <==> buckets[j].0 <= df)
    ensures BucketLeq(x, buckets[index])
  {
    var j :| 0 <= j < |buckets| && buckets[j] == x;
    if j < index {
      assert BucketLeq(buckets[j], buckets[index]);
    }
  }

  /** Otherwise it borrows from the largest bucket that does not exceed df. */
  lemma LookupBorrowsLargestBucket(rows: seq<Row>, coverage: int, df: int) returns (b: Bucket)
    requires LookupTScaled(rows, coverage, df).Some?
    ensures LookupTScaled(rows, coverage, df) == Some(b.1) && LargestBucket(rows, coverage, df, b)
  {
    hide Buckets, BisectRight, Sorted;
    var buckets := Buckets(rows, coverage);
    var index := BisectRight(buckets, df) - 1;
    BucketsHoldRows(rows, coverage);
    BisectRightSplits(buckets, df);
    b := buckets[index];
    assert b in buckets;
    forall r | r in rows && r.coverage == coverage && r.df <= df ensures BucketLeq((r.df, r.quantile), b) {
      LastIsLargest(buckets, index, df, (r.df, r.quantile));
    }
  }

  /**
   Bucketing is conservative: if the table never understates an antitone quantile at its own
   buckets, the lookup never understates it anywhere.
   */
  lemma LookupNeverUnderestimates(rows: seq<Row>, coverage: int, df: int, truth: int -> int)
    requires forall d, d' :: d <= d' ==> truth(d') <= truth(d)
    requires forall row :: row in rows && row.coverage == coverage ==> truth(row.df) <= row.quantile
    requires LookupTScaled(rows, coverage, df).Some?
    ensures truth(df) <= LookupTScaled(rows, coverage, df).value
  {
    var b := LookupBorrowsLargestBucket(rows, coverage, df);
    assert truth(df) <= truth(b.0) <= b.1;
  }

  /** A table whose quantiles fall as degrees of freedom rise. */
  ghost predicate Antitone(rows: seq<Row>) {
    forall r, r' :: r in rows && r' in rows && r.coverage == r'.coverage && r.df <= r'.df ==> r'.quantile <= r.quantile
  }

  /** More samples never widen the interval: fewer degrees of freedom borrow a larger quantile. */
  lemma MoreSamplesNeverWiden(rows: seq<Row>, coverage: int, sd: int, count: int, count': int)
    requires Antitone(rows) && (forall r :: r in rows ==> r.quantile >= 0) && sd >= 0 && 2 <= count' <= count
    requires LookupTScaled(rows, coverage, count' - 1).Some?
    ensures LookupTScaled(rows, coverage, count - 1).Some?
    ensures HalfWidth(LookupTScaled(rows, coverage, count - 1).value, sd, count)
         <= HalfWidth(LookupTScaled(rows, coverage, count' - 1).value, sd, count')
  {
    var b' := LookupBorrowsLargestBucket(rows, coverage, count' - 1);
    LookupFailsIffNoBucket(rows, coverage, count - 1);
    var b := LookupBorrowsLargestBucket(rows, coverage, count - 1);
    var r' := Row(coverage, b'.0, b'.1);
    assert r' in rows && r'.df <= count - 1;
    HalfWidthMonotone(b.1, sd, count, b'.1, sd, count');
  }
}

/** The exact-integer Wilson interval of `traigent_schema/certification/agent_quality_verifier.py`. */
module Wilson {
  // Endpoints are parts per million.  A proportion e / SCALE is named by a rational p / q = e, so
  // every statement about real proportions is made over integers p and q > 0.

  const SCALE: int := 1_000_000

  /**
   The score test that defines the interval, with denominators cleared: for the proportion
   x = p / (q * SCALE) this is SCALE^4 q^2 ((k - n x)^2 - n (z / SCALE)^2 x (1 - x)).  The
   proportion is inside the interval when it is negative.
   */
  function Score(k: int, n: int, z: int, p: int, q: int): int {
    var d := n * p - k * SCALE * q;
    SCALE * SCALE * (d * d) - n * (z * z) * (p * (SCALE * q - p))
  }

  ghost predicate Inside(k: int, n: int, z: int, p: int, q: int) {
    q > 0 && Score(k, n, z, p, q) < 0
  }

  /**
   lo and hi are the lower root rounded down and the upper root rounded up: every proportion
   inside lies strictly between them, and one lies within a unit of each.
   */
  ghost predicate IsWilsonInterval(k: int, n: int, z: int, lo: int, hi: int) {
    && (forall p, q :: Inside(k, n, z, p, q) ==> lo * q < p < hi * q)
    && (exists p, q :: Inside(k, n, z, p, q) && p <= (lo + 1) * q)
    && (exists p, q :: Inside(k, n, z, p, q) && (hi - 1) * q <= p)
  }

  // ----- quadratics with integer coefficients

  /** q^2 times a x^2 + b x + c at x = p / q. */
  function Quad(a: int, b: int, c: int, p: int, q: int): int {
    a * (p * p) + b * (p * q) + c * (q * q)
  }

  /** The difference of a quadratic's values at p / q and at e = r / q, factored. */
  lemma QuadDifference(a: int, b: int, c: int, p: int, q: int, e: int, r: int)
    requires r == e * q
    ensures Quad(a, b, c, p, q) - Quad(a, b, c, e, 1) * (q * q) == (p - r) * (a * (p + r) + b * q)
  {
    ScaledUp(a, b, c, q, e, r);
    Factored(a, b, c, p, q, r);
  }

  lemma ScaledUp(a: int, b: int, c: int, q: int, e: int, r: int)
    requires r == e * q
    ensures Quad(a, b, c, e, 1) * (q * q) == Quad(a, b, c, r, q)
  {
    assert (e * e) * (q * q) == r * r && e * (q * q) == r * q;
    Distribute(a * (e * e), b * e, c, q * q);
    assert a * (e * e) * (q * q) == a * (r * r) && b * e * (q * q) == b * (r * q);
  }

  lemma Distribute(x: int, y: int, z: int, f: int)
    ensures (x + y + z) * f == x * f + y * f + z * f
  {
  }

  lemma Factored(a: int, b: int, c: int, p: int, q: int, r: int)
    ensures Quad(a, b, c, p, q) - Quad(a, b, c, r, q) == (p - r) * (a * (p + r) + b * q)
  {
    var x := p - r;
    assert x * (a * (p + r) + b * q) == x * (a * (p + r)) + x * (b * q);
    assert x * (a * (p + r)) == a * (x * (p + r));
    assert x * (p + r) == p * p - r * r;
    assert x * (b * q) == b * (p * q) - b * (r * q);
  }

  /** The slope between p / q and e = r / q has the sign of the slope at e, if p / q lies further out. */
  lemma SlopeAt(a: int, b: int, q: int, e: int, r: int)
    requires r == e * q
    ensures a * (2 * r) + b * q == (2 * a * e + b) * q
  {
    assert a * (2 * r) == 2 * a * e * q;
  }

  lemma LessTimes(a: int, x: int, y: int)
    requires a > 0 && x < y
    ensures a * x < a * y
  {
  }

  lemma SignTimes(x: int, q: int)
    requires q > 0
    ensures x <= 0 ==> x * q <= 0
    ensures x >= 0 ==> x * q >= 0
  {
  }

  /** Left of the vertex the quadratic falls, so it is above its value at e. */
  lemma FallsOnTheLeft(a: int, b: int, c: int, p: int, q: int, e: int)
    requires a > 0 && q > 0 && p < e * q && 2 * a * e + b <= 0
    ensures Quad(a, b, c, p, q) > Quad(a, b, c, e, 1) * (q * q)
  {
    hide Quad;
    var r := e * q;
    QuadDifference(a, b, c, p, q, e, r);
    SlopeAt(a, b, q, e, r);
    SignTimes(2 * a * e + b, q);
    LessTimes(a, p + r, 2 * r);
    NegativeTimesNegative(p - r, a * (p + r) + b * q);
  }

  /** Right of the vertex the quadratic rises. */
  lemma RisesOnTheRight(a: int, b: int, c: int, p: int, q: int, e: int)
    requires a > 0 && q > 0 && p > e * q && 2 * a * e + b >= 0
    ensures Quad(a, b, c, p, q) > Quad(a, b, c, e, 1) * (q * q)
  {
    hide Quad;
    var r := e * q;
    QuadDifference(a, b, c, p, q, e, r);
    SlopeAt(a, b, q, e, r);
    SignTimes(2 * a * e + b, q);
    LessTimes(a, 2 * r, p + r);
    PositiveProduct(p - r, a * (p + r) + b * q);
  }

  lemma NegativeTimesNegative(x: int, y: int)
    requires x < 0 && y < 0
    ensures x * y > 0
  {
  }

  // ----- the quadratic of the source

  function CoeffA(n: int, z: int): int { n * (n * (SCALE * SCALE) + z * z) }
  function CoeffB(k: int, n: int, z: int): int { -n * (2 * k * (SCALE * SCALE) + z * z) * SCALE }
  function CoeffC(k: int): int { k * k * (SCALE * SCALE) * (SCALE * SCALE) }

  lemma TermA(n: int, zz: int, s2: int, p: int)
    ensures n * (n * s2 + zz) * (p * p) == s2 * ((n * p) * (n * p)) + n * zz * (p * p)
  {
    var u := n * p;
    assert u * u == n * n * (p * p);
    assert n * (n * s2 + zz) == n * n * s2 + n * zz;
    assert n * n * s2 * (p * p) == s2 * (u * u);
  }

  lemma TermB(k: int, n: int, zz: int, s: int, p: int, q: int)
    ensures -n * (2 * k * (s * s) + zz) * s * (p * q) == -2 * ((n * p) * (k * q)) * (s * s) * s - n * zz * (p * q) * s
  {
    var x := p * q;
    assert (n * p) * (k * q) == n * k * x;
    assert -n * (2 * k * (s * s) + zz) == -2 * (n * k) * (s * s) - n * zz;
    assert (-2 * (n * k) * (s * s) - n * zz) * s * x == -2 * (n * k) * (s * s) * s * x - n * zz * s * x;
    assert n * k * (s * s) * s * x == n * k * x * (s * s) * s && n * zz * s * x == n * zz * x * s;
  }

  lemma TermC(k: int, s2: int, q: int)
    ensures k * k * s2 * s2 * (q * q) == (k * q) * (k * q) * s2 * s2
  {
    assert (k * q) * (k * q) == k * k * (q * q);
  }

  /** The score with u = n p and w = k q. */
  lemma ScoreExpanded(u: int, w: int, g: int, s: int, p: int, q: int)
    ensures (s * s) * ((u - w * s) * (u - w * s)) - g * (p * (s * q - p))
         == ((s * s) * (u * u) + g * (p * p)) + (-2 * (u * w) * (s * s) * s - g * (p * q) * s) + (w * w) * (s * s) * (s * s)
  {
    var d, s2 := u - w * s, s * s;
    assert d * d == u * u - 2 * (u * w) * s + (w * w) * s2;
    assert s2 * (d * d) == s2 * (u * u) - 2 * (u * w) * s2 * s + (w * w) * s2 * s2;
    assert p * (s * q - p) == (p * q) * s - p * p;
    assert g * (p * (s * q - p)) == g * (p * q) * s - g * (p * p);
  }

  /** The source's integer quadratic is the score test. */
  lemma QuadraticIsScore(k: int, n: int, z: int, p: int, q: int)
    ensures Quad(CoeffA(n, z), CoeffB(k, n, z), CoeffC(k), p, q) == Score(k, n, z, p, q)
  {
    var zz, s := z * z, SCALE;
    TermA(n, zz, s * s, p);
    TermB(k, n, zz, s, p, q);
    TermC(k, s * s, q);
    ScoreExpanded(n * p, k * q, n * zz, s, p, q);
    SameSquare(n * p - k * s * q, n * p - (k * q) * s);
  }

  lemma SameSquare(x: int, y: int)
    requires x == y
    ensures x * x == y * y
  {
  }

  /** The point estimate, where the score is as low as it gets without spread. */
  lemma ScoreAtRatio(k: int, n: int, z: int)
    requires 0 < k < n && z > 0
    ensures Inside(k, n, z, k * SCALE, n)
  {
    assert n * (k * SCALE) - k * SCALE * n == 0;
    assert SCALE * n - k * SCALE == SCALE * (n - k) > 0;
    assert (k * SCALE) * (SCALE * n - k * SCALE) > 0;
    assert n * (z * z) > 0;
    PositiveProduct(n * (z * z), (k * SCALE) * (SCALE * n - k * SCALE));
  }

  lemma PositiveProduct(x: int, y: int)
    requires x > 0 && y > 0
    ensures x * y > 0
  {
  }

  /** Without a single success a proportion just above zero is inside. */
  lemma ScoreNearZero(n: int, z: int)
    requires n > 0 && z > 0
    ensures Inside(0, n, z, 1, SCALE * n + 1)
  {
    var q := SCALE * n + 1;
    assert Score(0, n, z, 1, q) == SCALE * SCALE * (n * n) - n * (z * z) * (SCALE * q - 1);
    var t := n * (SCALE * q - 1);
    assert t == SCALE * SCALE * (n * n) + n * (SCALE - 1);
    assert t > SCALE * SCALE * (n * n);
    assert z * z >= 1;
    assert (z * z) * t >= t;
    assert n * (z * z) * (SCALE * q - 1) == (z * z) * t;
  }

  /** Swapping successes and failures mirrors the score. */
  lemma ScoreMirrors(k: int, n: int, z: int, p: int, q: int)
    ensures Score(n - k, n, z, SCALE * q - p, q) == Score(k, n, z, p, q)
  {
    var d := n * p - k * SCALE * q;
    assert n * (SCALE * q - p) - (n - k) * SCALE * q == -d;
    assert (-d) * (-d) == d * d;
    assert SCALE * q - (SCALE * q - p) == p;
    assert (SCALE * q - p) * p == p * (SCALE * q - p);
  }

  /** Some proportion is always inside. */
  lemma SomethingInside(k: int, n: int, z: int) returns (p: int, q: int)
    requires 0 <= k <= n && n > 0 && z > 0
    ensures Inside(k, n, z, p, q)
    ensures 0 < k < n ==> p == k * SCALE && q == n
    ensures k == 0 ==> p == 1
    ensures k == n ==> p == SCALE * q - 1
  {
    if k == 0 {
      ScoreNearZero(n, z);
      p, q := 1, SCALE * n + 1;
    } else if k == n {
      ScoreNearZero(n, z);
      q := SCALE * n + 1;
      p := SCALE * q - 1;
      ScoreMirrors(0, n, z, 1, q);
    } else {
      ScoreAtRatio(k, n, z);
      p, q := k * SCALE, n;
    }
  }

  /** Outside 0 and SCALE the score cannot be negative. */
  lemma InsideIsProper(k: int, n: int, z: int, p: int, q: int)
    requires n > 0 && Inside(k, n, z, p, q)
    ensures p * (SCALE * q - p) > 0
  {
    var d, x := n * p - k * SCALE * q, p * (SCALE * q - p);
    assert d * d >= 0 && n * (z * z) >= 0;
    SignOfProduct(-x, n * (z * z));
    assert -x * (n * (z * z)) == -(n * (z * z) * x);
  }

  // ----- the two bisections

  /**
   The bounds the verifier recomputes: the two bisections around the vertex return the roots
   rounded outward.
   */
  method WilsonBounds(k: int, n: int, z: int) returns (lo: int, hi: int)
    requires 0 <= k <= n && n > 0 && z > 0
    ensures 0 <= lo < hi <= SCALE
    ensures IsWilsonInterval(k, n, z, lo, hi)
  {
    var a, b, c := CoeffA(n, z), CoeffB(k, n, z), CoeffC(k);
    VertexInRange(k, n, z);
    var vertexFloor := -b / (2 * a);
    var vertexCeil := -(b / (2 * a));
    vertexFloor := Clamp(vertexFloor);
    vertexCeil := Clamp(vertexCeil);

    var low, high := 0, vertexFloor;
    while low < high
      invariant 0 <= low <= high <= vertexFloor
      invariant Quad(a, b, c, low, 1) >= 0
      invariant forall e :: high < e <= vertexFloor ==> Quad(a, b, c, e, 1) < 0
    {
      var mid := (low + high + 1) / 2;
      if Quad(a, b, c, mid, 1) >= 0 {
        low := mid;
      } else {
        forall e | mid < e <= vertexFloor ensures Quad(a, b, c, e, 1) < 0 {
          LeftOfVertex(a, b, vertexFloor, e);
          FallsOnTheLeft(a, b, c, mid, 1, e);
        }
        high := mid - 1;
      }
    }

    var low2, high2 := vertexCeil, SCALE;
    while low2 < high2
      invariant vertexCeil <= low2 <= high2 <= SCALE
      invariant Quad(a, b, c, high2, 1) >= 0
      invariant forall e :: vertexCeil <= e < low2 ==> Quad(a, b, c, e, 1) < 0
    {
      var mid2 := (low2 + high2) / 2;
      if Quad(a, b, c, mid2, 1) >= 0 {
        high2 := mid2;
      } else {
        forall e | vertexCeil <= e < mid2 ensures Quad(a, b, c, e, 1) < 0 {
          RightOfVertex(a, b, vertexCeil, e);
          RisesOnTheRight(a, b, c, mid2, 1, e);
        }
        low2 := mid2 + 1;
      }
    }
    lo, hi := low, low2;
    BracketsAreRoundedRoots(k, n, z, vertexFloor, vertexCeil, lo, hi);
  }

  function Clamp(e: int): int {
    if e < 0 then 0 else if e > SCALE then SCALE else e
  }

  lemma LeftOfVertex(a: int, b: int, v: int, e: int)
    requires a > 0 && 2 * a * v <= -b && e <= v
    ensures 2 * a * e + b <= 0
  {
    assert a * e <= a * v;
  }

  lemma RightOfVertex(a: int, b: int, v: int, e: int)
    requires a > 0 && 2 * a * v >= -b && e >= v
    ensures 2 * a * e + b >= 0
  {
    assert a * e >= a * v;
  }

  /**
   The vertex lies between 0 and SCALE.  At 0 and at SCALE the quadratic is k^2 and (n - k)^2 times
   the fourth power of the scale, so it is not negative there.
   */
  lemma VertexInRange(k: int, n: int, z: int)
    requires 0 <= k <= n && n > 0 && z > 0
    ensures var a, b, c := CoeffA(n, z), CoeffB(k, n, z), CoeffC(k);
            && a > 0
            && Quad(a, b, c, 0, 1) == k * k * (SCALE * SCALE * SCALE * SCALE)
            && Quad(a, b, c, SCALE, 1) == (n - k) * (n - k) * (SCALE * SCALE * SCALE * SCALE)
            && Quad(a, b, c, 0, 1) >= 0 && Quad(a, b, c, SCALE, 1) >= 0
            && var f, g := -b / (2 * a), -(b / (2 * a));
               && 2 * a * f <= -b <= 2 * a * g && f <= g <= f + 1
               && 0 <= f && g <= SCALE
  {
    ValuesAtTheEnds(k, n, z);
    VertexBetween(k, n, z * z, SCALE);
    hide CoeffA, CoeffB, CoeffC, Quad;
    var a, b := CoeffA(n, z), CoeffB(k, n, z);
    assert a == n * (n * (SCALE * SCALE) + z * z) && b == -n * (2 * k * (SCALE * SCALE) + z * z) * SCALE by {
      Coefficients(k, n, z);
    }
    FloorAndCeiling(-b, 2 * a, SCALE);
  }

  lemma Coefficients(k: int, n: int, z: int)
    ensures CoeffA(n, z) == n * (n * (SCALE * SCALE) + z * z)
    ensures CoeffB(k, n, z) == -n * (2 * k * (SCALE * SCALE) + z * z) * SCALE
  {
  }

  lemma ValuesAtTheEnds(k: int, n: int, z: int)
    ensures var a, b, c := CoeffA(n, z), CoeffB(k, n, z), CoeffC(k);
            && Quad(a, b, c, 0, 1) == k * k * (SCALE * SCALE * SCALE * SCALE)
            && Quad(a, b, c, SCALE, 1) == (n - k) * (n - k) * (SCALE * SCALE * SCALE * SCALE)
            && Quad(a, b, c, 0, 1) >= 0 && Quad(a, b, c, SCALE, 1) >= 0
  {
    hide CoeffA, CoeffB, CoeffC, Quad, Score;
    QuadraticIsScore(k, n, z, 0, 1);
    QuadraticIsScore(k, n, z, SCALE, 1);
    ScoreAtTheEnds(k, n, z);
    SquaredIsPositive(k);
    SquaredIsPositive(n - k);
  }

  lemma SquaredIsPositive(x: int)
    ensures x * x >= 0
    ensures x * x * (SCALE * SCALE * SCALE * SCALE) >= 0
  {
  }

  lemma ScoreAtTheEnds(k: int, n: int, z: int)
    ensures Score(k, n, z, 0, 1) == k * k * (SCALE * SCALE * SCALE * SCALE)
    ensures Score(k, n, z, SCALE, 1) == (n - k) * (n - k) * (SCALE * SCALE * SCALE * SCALE)
  {
    SquareScaled(-k, SCALE);
    SquareScaled(n - k, SCALE);
    assert n * 0 - k * SCALE * 1 == -k * SCALE && n * SCALE - k * SCALE * 1 == (n - k) * SCALE;
    assert SCALE * (SCALE * 1 - SCALE) == 0;
  }

  lemma SquareScaled(x: int, s: int)
    ensures s * s * ((x * s) * (x * s)) == x * x * (s * s * s * s)
  {
    assert (x * s) * (x * s) == x * x * (s * s);
  }

  /** Minus b lies between 0 and 2 a times the scale. */
  lemma VertexBetween(k: int, n: int, zz: int, s: int)
    requires 0 <= k <= n && n > 0 && zz > 0 && s > 0
    ensures n * (n * (s * s) + zz) > 0
    ensures 0 <= -(-n * (2 * k * (s * s) + zz) * s) <= 2 * (n * (n * (s * s) + zz)) * s
  {
    CoefficientOrder(k, n, zz, s * s);
    Outward(n, 2 * k * (s * s) + zz, n * (s * s) + zz, s);
  }

  lemma CoefficientOrder(k: int, n: int, zz: int, s2: int)
    requires 0 <= k <= n && n > 0 && zz > 0 && s2 >= 0
    ensures 0 <= 2 * k * s2 + zz <= 2 * (n * s2 + zz)
    ensures n * (n * s2 + zz) > 0
  {
    assert 0 <= k * s2 <= n * s2;
    PositiveProduct(n, n * s2 + zz);
  }

  lemma Outward(n: int, x: int, m: int, s: int)
    requires n > 0 && s > 0 && 0 <= x <= 2 * m
    ensures 0 <= -(-n * x * s) <= 2 * (n * m) * s
  {
    assert 0 <= n * x <= n * (2 * m) && -n * x == -(n * x);
    assert 0 <= (n * x) * s <= (n * (2 * m)) * s;
    assert n * (2 * m) == 2 * (n * m);
  }

  lemma FloorAndCeiling(x: int, y: int, top: int)
    requires y > 0 && 0 <= x <= y * top
    ensures var f, g := x / y, -(-x / y); y * f <= x <= y * g && f <= g <= f + 1 && 0 <= f && g <= top
  {
    DivisionBounds(x, y);
    DivisionBounds(-x, y);
    Rounded(x, y, top, x / y, -(-x / y));
  }

  lemma DivisionBounds(x: int, y: int)
    requires y > 0
    ensures y * (x / y) <= x < y * (x / y + 1)
  {
    assert x == y * (x / y) + x % y;
  }

  lemma Rounded(x: int, y: int, top: int, f: int, g: int)
    requires y > 0 && 0 <= x <= y * top
    requires y * f <= x < y * (f + 1) && y * (-g) <= -x < y * (-g + 1)
    ensures y * f <= x <= y * g && f <= g <= f + 1 && 0 <= f && g <= top
  {
    assert y * (-g) == -(y * g) && y * (-g + 1) == -(y * (g - 1));
    Cancel(y, f, g);
    Cancel(y, g - 1, f + 1);
    Cancel(y, 0, f + 1);
    Cancel(y, g - 1, top);
  }

  /** Order is kept when a positive factor is cancelled. */
  lemma Cancel(y: int, u: int, v: int)
    requires y > 0
    ensures y * u <= y * v ==> u <= v
    ensures y * u < y * v ==> u < v
  {
    if u >= v {
      assert y * u >= y * v;
    }
    if u > v {
      assert y * (u - v) > 0;
    }
  }

  /** What the bisections establish is the interval's definition. */
  lemma BracketsAreRoundedRoots(k: int, n: int, z: int, vf: int, vc: int, lo: int, hi: int)
    requires 0 <= k <= n && n > 0 && z > 0
    requires var a, b, c := CoeffA(n, z), CoeffB(k, n, z), CoeffC(k);
             && a > 0 && 2 * a * vf <= -b <= 2 * a * vc && vf <= vc <= vf + 1
             && lo <= vf && vc <= hi
             && Quad(a, b, c, lo, 1) >= 0 && Quad(a, b, c, hi, 1) >= 0
             && (forall e :: lo < e <= vf ==> Quad(a, b, c, e, 1) < 0)
             && (forall e :: vc <= e < hi ==> Quad(a, b, c, e, 1) < 0)
    ensures lo < hi && IsWilsonInterval(k, n, z, lo, hi)
  {
    hide Quad, CoeffA, CoeffB, CoeffC, Score;
    var a, b, c := CoeffA(n, z), CoeffB(k, n, z), CoeffC(k);
    forall p, q | Inside(k, n, z, p, q) ensures lo * q < p < hi * q {
      StrictlyBetween(k, n, z, vf, vc, lo, hi, p, q);
    }
    var p, q := SomethingInside(k, n, z);
    assert lo < hi by { Cancel(q, lo, hi); }
    if p > (lo + 1) * q {
      assert Quad(a, b, c, lo + 1, 1) < 0 by {
        QuadraticIsScore(k, n, z, p, q);
        if lo == vf {
          RightOfVertex(a, b, vc, lo + 1);
          RisesOnTheRight(a, b, c, p, q, lo + 1);
          SignOfProduct(Quad(a, b, c, lo + 1, 1), q * q);
        }
      }
      QuadraticIsScore(k, n, z, lo + 1, 1);
      assert Inside(k, n, z, lo + 1, 1) && lo + 1 <= (lo + 1) * 1;
    }
    if p < (hi - 1) * q {
      assert Quad(a, b, c, hi - 1, 1) < 0 by {
        QuadraticIsScore(k, n, z, p, q);
        if hi == vc {
          LeftOfVertex(a, b, vf, hi - 1);
          FallsOnTheLeft(a, b, c, p, q, hi - 1);
          SignOfProduct(Quad(a, b, c, hi - 1, 1), q * q);
        }
      }
      QuadraticIsScore(k, n, z, hi - 1, 1);
      assert Inside(k, n, z, hi - 1, 1) && (hi - 1) * 1 <= hi - 1;
    }
  }

  lemma SignOfProduct(x: int, y: int)
    requires y >= 0
    ensures x * y < 0 ==> x < 0
    ensures x >= 0 ==> x * y >= 0
  {
  }

  /** Everything inside lies strictly between the brackets. */
  lemma StrictlyBetween(k: int, n: int, z: int, vf: int, vc: int, lo: int, hi: int, p: int, q: int)
    requires Inside(k, n, z, p, q)
    requires var a, b, c := CoeffA(n, z), CoeffB(k, n, z), CoeffC(k);
             && a > 0 && 2 * a * vf <= -b <= 2 * a * vc && lo <= vf && vc <= hi
             && Quad(a, b, c, lo, 1) >= 0 && Quad(a, b, c, hi, 1) >= 0
    ensures lo * q < p < hi * q
  {
    hide Quad, CoeffA, CoeffB, CoeffC, Score;
    var a, b, c := CoeffA(n, z), CoeffB(k, n, z), CoeffC(k);
    QuadraticIsScore(k, n, z, p, q);
    SignOfProduct(Quad(a, b, c, lo, 1), q * q);
    SignOfProduct(Quad(a, b, c, hi, 1), q * q);
    if p <= lo * q {
      LeftOfVertex(a, b, vf, lo);
      if p < lo * q {
        FallsOnTheLeft(a, b, c, p, q, lo);
      } else {
        ScaledUp(a, b, c, q, lo, p);
      }
    }
    if p >= hi * q {
      RightOfVertex(a, b, vc, hi);
      if p > hi * q {
        RisesOnTheRight(a, b, c, p, q, hi);
      } else {
        ScaledUp(a, b, c, q, hi, p);
      }
    }
  }

  // ----- what follows from the definition alone

  /** There is only one such interval. */
  lemma IntervalIsUnique(k: int, n: int, z: int, lo: int, hi: int, lo': int, hi': int)
    requires n > 0 && z > 0
    requires IsWilsonInterval(k, n, z, lo, hi) && IsWilsonInterval(k, n, z, lo', hi')
    ensures lo == lo' && hi == hi'
  {
    WiderQuantileContains(k, n, z, z, lo, hi, lo', hi');
    WiderQuantileContains(k, n, z, z, lo', hi', lo, hi);
  }

  /** A larger quantile gives a containing interval. */
  lemma WiderQuantileContains(k: int, n: int, z: int, z': int, lo: int, hi: int, lo': int, hi': int)
    requires n > 0 && 0 < z <= z'
    requires IsWilsonInterval(k, n, z, lo, hi) && IsWilsonInterval(k, n, z', lo', hi')
    ensures lo' <= lo && hi <= hi'
  {
    var p, q :| Inside(k, n, z, p, q) && p <= (lo + 1) * q;
    InsideGrows(k, n, z, z', p, q);
    Cancel(q, lo', lo + 1);
    var p', q' :| Inside(k, n, z, p', q') && (hi - 1) * q' <= p';
    InsideGrows(k, n, z, z', p', q');
    Cancel(q', hi - 1, hi');
  }

  lemma InsideGrows(k: int, n: int, z: int, z': int, p: int, q: int)
    requires n > 0 && 0 < z <= z' && Inside(k, n, z, p, q)
    ensures Inside(k, n, z', p, q)
  {
    InsideIsProper(k, n, z, p, q);
    var x := p * (SCALE * q - p);
    assert z * z <= z' * z';
    assert n * (z * z) <= n * (z' * z');
    assert n * (z * z) * x <= n * (z' * z') * x;
  }

  /** Counting failures instead of successes mirrors the interval. */
  lemma IntervalMirrors(k: int, n: int, z: int, lo: int, hi: int)
    requires IsWilsonInterval(k, n, z, lo, hi)
    ensures IsWilsonInterval(n - k, n, z, SCALE - hi, SCALE - lo)
  {
    var f := n - k;
    forall p, q | Inside(f, n, z, p, q) ensures (SCALE - hi) * q < p < (SCALE - lo) * q {
      ScoreMirrors(f, n, z, p, q);
      assert Inside(k, n, z, SCALE * q - p, q);
    }
    var p, q :| Inside(k, n, z, p, q) && p <= (lo + 1) * q;
    ScoreMirrors(k, n, z, p, q);
    assert Inside(n - k, n, z, SCALE * q - p, q) && (SCALE - lo - 1) * q <= SCALE * q - p;
    var p', q' :| Inside(k, n, z, p', q') && (hi - 1) * q' <= p';
    ScoreMirrors(k, n, z, p', q');
    assert Inside(n - k, n, z, SCALE * q' - p', q') && SCALE * q' - p' <= (SCALE - hi + 1) * q';
  }

  /** The point estimate in parts per million, halves rounded up. */
  function WilsonPoint(k: int, n: int): int
    requires n > 0
  {
    (2 * k * SCALE + n) / (2 * n)
  }

  /** The rounded point estimate never leaves the interval. */
  lemma PointIsEnclosed(k: int, n: int, z: int, lo: int, hi: int)
    requires 0 <= k <= n && n > 0 && z > 0 && 0 <= lo && hi <= SCALE
    requires IsWilsonInterval(k, n, z, lo, hi)
    ensures lo <= WilsonPoint(k, n) <= hi
  {
    var pt := WilsonPoint(k, n);
    RoundsHalfUp(k, n);
    var p, q := SomethingInside(k, n, z);
    if k == 0 {
      Cancel(n, 2 * pt, 1);
      Cancel(n, 1, 2 * pt + 2);
      Cancel(q, lo, 1);
      Cancel(q, 0, hi);
    } else if k == n {
      Cancel(n, 2 * pt, 2 * SCALE + 1);
      Cancel(n, 2 * SCALE + 1, 2 * pt + 2);
      Cancel(q, lo, SCALE);
      Cancel(q, SCALE - 1, hi);
    } else {
      InsideRatio(k, n, pt, lo, hi);
    }
  }

  lemma InsideRatio(k: int, n: int, pt: int, lo: int, hi: int)
    requires n > 0 && lo * n < k * SCALE < hi * n
    requires n * (2 * pt) <= 2 * k * SCALE + n < n * (2 * pt + 2)
    ensures lo <= pt <= hi
  {
    assert n * (2 * lo) < 2 * k * SCALE < n * (2 * hi);
    Cancel(n, 2 * lo, 2 * pt + 2);
    Cancel(n, 2 * pt - 1, 2 * hi);
  }

  /** The point estimate is the nearest integer, halves rounded up. */
  lemma RoundsHalfUp(k: int, n: int)
    requires n > 0
    ensures n * (2 * WilsonPoint(k, n)) <= 2 * k * SCALE + n < n * (2 * WilsonPoint(k, n) + 2)
  {
    var x, pt := 2 * k * SCALE + n, WilsonPoint(k, n);
    assert x == (2 * n) * pt + x % (2 * n);
  }
}

/** Reconstruction of the secret f(0) by Lagrange interpolation at zero
    (ShamirSecret.lagrangeInterpolation), in BigInteger arithmetic: every term
    y_i * numerator_i / denominator_i is divided with truncation toward zero. */
module Lagrange {
  import opened JavaMath

  /** A share (x, y) of the secret polynomial. */
  datatype Point = Point(x: int, y: int)

  // ----- the quantities the loops compute -----

  /** The product of (c - p.x) over the points p of s; the empty product is 1. */
  function ProdDiff(c: int, s: seq<Point>): int
  {
    if s == [] then 1 else ProdDiff(c, s[..|s| - 1]) * (c - s[|s| - 1].x)
  }

  /** The points of s other than the i-th (all of s when i is past its end). */
  function Others(s: seq<Point>, i: nat): (o: seq<Point>)
    ensures |o| == if i < |s| then |s| - 1 else |s|
  {
    if i < |s| then s[..i] + s[i + 1..] else s
  }

  /** numerator_i: the product of (0 - x_j) over j != i. */
  function Numerator(pts: seq<Point>, i: nat): int
    requires i < |pts|
  {
    ProdDiff(0, Others(pts, i))
  }

  /** denominator_i: the product of (x_i - x_j) over j != i. */
  function Denominator(pts: seq<Point>, i: nat): int
    requires i < |pts|
  {
    ProdDiff(pts[i].x, Others(pts, i))
  }

  /** The contribution of point p, given the other points, when its denominator is not zero. */
  function TermWith(p: Point, others: seq<Point>): int
  {
    var d := ProdDiff(p.x, others);
    if d == 0 then 0 else JavaDiv(p.y * ProdDiff(0, others), d)
  }

  /** term_i = y_i * numerator_i / denominator_i, truncated. */
  function Term(pts: seq<Point>, i: nat): int
    requires i < |pts|
  {
    TermWith(pts[i], Others(pts, i))
  }

  predicate NoZeroDenominator(pts: seq<Point>)
  {
    forall i :: 0 <= i < |pts| ==> Denominator(pts, i) != 0
  }

  /** Whether the division of term i leaves a remainder (the warning at term i). */
  predicate Inexact(pts: seq<Point>, i: nat)
    requires i < |pts| && Denominator(pts, i) != 0
  {
    JavaRem(pts[i].y * Numerator(pts, i), Denominator(pts, i)) != 0
  }

  /** term_0 + ... + term_(m-1). */
  function PartialSum(pts: seq<Point>, m: nat): int
    requires m <= |pts|
  {
    if m == 0 then 0 else PartialSum(pts, m - 1) + Term(pts, m - 1)
  }

  /** The indices below m whose division is not exact, in increasing order. */
  function InexactBelow(pts: seq<Point>, m: nat): seq<nat>
    requires m <= |pts|
    requires forall t :: 0 <= t < m ==> Denominator(pts, t) != 0
  {
    if m == 0 then []
    else InexactBelow(pts, m - 1) + (if Inexact(pts, m - 1) then [m - 1] else [])
  }

  /** The secret lagrangeInterpolation returns: the sum of the truncated terms, or the
      ArithmeticException that remainder throws on a zero denominator. */
  function Secret(pts: seq<Point>): Result<int>
  {
    if NoZeroDenominator(pts) then Ok(PartialSum(pts, |pts|)) else Err(DivideByZero)
  }

  /** The points of the warnings, as 0-based indices. */
  function Warnings(pts: seq<Point>): seq<nat>
    requires NoZeroDenominator(pts)
  {
    InexactBelow(pts, |pts|)
  }

  // ----- the method -----

  lemma OthersPrefixStep(s: seq<Point>, i: nat, j: nat)
    requires i < |s| && j < |s|
    ensures Others(s[..j + 1], i) == if j == i then Others(s[..j], i) else Others(s[..j], i) + [s[j]]
  {
    if j > i {
      assert s[..j + 1][..i] == s[..i];
      assert s[..j + 1][i + 1..] == s[i + 1..j] + [s[j]];
      assert s[..j][i + 1..] == s[i + 1..j];
    } else if j == i {
      assert s[..j + 1][..i] == s[..i];
    }
  }

  /** One pass of the inner loop: point j, unless it is point i, adds its factor to both
      products. */
  lemma ProductsStep(points: seq<Point>, i: nat, j: nat, num: int, den: int)
    requires i < |points| && j < |points|
    requires num == ProdDiff(0, Others(points[..j], i))
    requires den == ProdDiff(points[i].x, Others(points[..j], i))
    ensures i == j ==>
      num == ProdDiff(0, Others(points[..j + 1], i)) && den == ProdDiff(points[i].x, Others(points[..j + 1], i))
    ensures i != j ==>
      && num * -points[j].x == ProdDiff(0, Others(points[..j + 1], i))
      && den * (points[i].x - points[j].x) == ProdDiff(points[i].x, Others(points[..j + 1], i))
  {
    var others := Others(points[..j], i);
    OthersPrefixStep(points, i, j);
    if i != j {
      ProdDiffSnoc(0, others, points[j]);
      ProdDiffSnoc(points[i].x, others, points[j]);
    }
  }

  /** The inner loop of lagrangeInterpolation (lines 88-100): both products over j != i. */
  method Products(points: seq<Point>, i: nat) returns (numerator: int, denominator: int)
    requires i < |points|
    ensures numerator == Numerator(points, i) && denominator == Denominator(points, i)
  {
    var k := |points|;
    numerator := 1;
    denominator := 1;
    var j := 0;
    while j < k
      invariant 0 <= j <= k
      invariant numerator == ProdDiff(0, Others(points[..j], i))
      invariant denominator == ProdDiff(points[i].x, Others(points[..j], i))
    {
      ProductsStep(points, i, j, numerator, denominator);
      if i != j {
        // for f(0) the factor (0 - x_j) is the negation of x_j
        numerator := numerator * -points[j].x;
        denominator := denominator * (points[i].x - points[j].x);
      }
      j := j + 1;
    }
    assert points[..k] == points;
  }

  /** What the outer loop of lagrangeInterpolation keeps after the first i points: every
      denominator so far was non-zero, secret is the sum of their terms and warnings lists
      the inexact ones. */
  predicate Summed(points: seq<Point>, i: nat, secret: int, warnings: seq<nat>)
  {
    && i <= |points|
    && (forall t :: 0 <= t < i ==> Denominator(points, t) != 0)
    && secret == PartialSum(points, i)
    && warnings == InexactBelow(points, i)
  }

  /** What one pass of the outer loop adds to the sum and to the warnings. */
  lemma SumStep(points: seq<Point>, i: nat, secret: int, warnings: seq<nat>, a: int, d: int)
    requires Summed(points, i, secret, warnings) && i < |points|
    requires a == points[i].y * Numerator(points, i) && d == Denominator(points, i) && d != 0
    ensures Summed(points, i + 1, secret + JavaDiv(a, d), warnings + (if JavaRem(a, d) != 0 then [i] else []))
  {
  }

  /** When the loop has run through all points, it has computed the secret and the warnings. */
  lemma SumDone(points: seq<Point>, secret: int, warnings: seq<nat>)
    requires Summed(points, |points|, secret, warnings)
    ensures Secret(points) == Ok(secret) && warnings == Warnings(points)
  {
  }

  /** lagrangeInterpolation: for each point the two products, the exactness check (its
      warning recorded in `warnings`), then the truncated term added to the secret. */
  method LagrangeInterpolation(points: seq<Point>) returns (r: Result<int>, warnings: seq<nat>)
    ensures r == Secret(points)
    ensures r.Ok? ==> warnings == Warnings(points)
  {
    var secret := 0;
    var k := |points|;
    warnings := [];
    var i := 0;
    while i < k
      invariant Summed(points, i, secret, warnings)
    {
      var numerator, denominator := Products(points, i);
      if denominator == 0 {
        // BigInteger.remainder throws ArithmeticException
        assert !NoZeroDenominator(points) by { assert Denominator(points, i) == 0; }
        r := Err(DivideByZero);
        return;
      }
      var product := points[i].y * numerator;
      SumStep(points, i, secret, warnings, product, denominator);
      if JavaRem(product, denominator) != 0 {
        warnings := warnings + [i];
      }
      var term := JavaDiv(product, denominator);
      secret := secret + term;
      i := i + 1;
    }
    SumDone(points, secret, warnings);
    r := Ok(secret);
  }

  // ----- properties -----

  lemma MulZero(a: int, b: int)
    ensures a * b == 0 <==> a == 0 || b == 0
  {
    if a != 0 && b != 0 {
      MulAbs(a, b);
      MulAtLeast(Abs(a), Abs(b));
    }
  }

  /** A product of differences vanishes exactly when c is one of the x values. */
  lemma {:induction false} ProdDiffZero(c: int, s: seq<Point>)
    ensures ProdDiff(c, s) == 0 <==> exists j :: 0 <= j < |s| && s[j].x == c
    decreases |s|
  {
    if s != [] {
      var init := s[..|s| - 1];
      ProdDiffZero(c, init);
      MulZero(ProdDiff(c, init), c - s[|s| - 1].x);
      if exists j :: 0 <= j < |init| && init[j].x == c {
        var j :| 0 <= j < |init| && init[j].x == c;
        assert s[j].x == c;
      }
      if exists j :: 0 <= j < |s| && s[j].x == c {
        var j :| 0 <= j < |s| && s[j].x == c;
        if j < |init| { assert init[j].x == c; }
      }
    }
  }

  lemma OthersAt(s: seq<Point>, i: nat, j: nat)
    requires i < |s| && j < |s| - 1
    ensures Others(s, i)[j] == s[if j < i then j else j + 1]
  {
  }

  /** The x values of the points are pairwise distinct. */
  predicate DistinctX(pts: seq<Point>)
  {
    forall a, b :: 0 <= a < b < |pts| ==> pts[a].x != pts[b].x
  }

  /** Every denominator is non-zero exactly when the x values are pairwise distinct; a
      repeated x makes the remainder at line 103 throw. */
  lemma NoZeroDenominatorIffDistinct(pts: seq<Point>)
    ensures NoZeroDenominator(pts) <==> DistinctX(pts)
  {
    if DistinctX(pts) {
      forall i | 0 <= i < |pts| ensures Denominator(pts, i) != 0 {
        ProdDiffZero(pts[i].x, Others(pts, i));
        if Denominator(pts, i) == 0 {
          var j :| 0 <= j < |Others(pts, i)| && Others(pts, i)[j].x == pts[i].x;
          OthersAt(pts, i, j);
          var j' := if j < i then j else j + 1;
        }
      }
    } else {
      var a, b :| 0 <= a < b < |pts| && pts[a].x == pts[b].x;
      OthersAt(pts, a, b - 1);
      ProdDiffZero(pts[a].x, Others(pts, a));
      assert Denominator(pts, a) == 0;
    }
  }

  /** With one share the secret is its y value: both products are empty. */
  lemma SinglePoint(p: Point)
    ensures Secret([p]) == Ok(p.y)
    ensures Warnings([p]) == []
  {
    assert Others([p], 0) == [];
    assert Numerator([p], 0) == 1 && Denominator([p], 0) == 1;
    DivByOne(p.y);
    assert Term([p], 0) == p.y;
    assert NoZeroDenominator([p]);
    assert !Inexact([p], 0);
    assert PartialSum([p], 1) == p.y;
    assert Warnings([p]) == InexactBelow([p], 0) + [];
  }

  /** Term i is y_i * numerator_i / denominator_i with the remainder dropped: the two
      differ by JavaRem, which is smaller than the denominator and has the sign of the
      dividend; without a warning the term times the denominator is exact. */
  lemma TermRemainder(pts: seq<Point>, i: nat)
    requires i < |pts| && Denominator(pts, i) != 0
    ensures var a, d := pts[i].y * Numerator(pts, i), Denominator(pts, i);
      && Term(pts, i) * d + JavaRem(a, d) == a
      && Abs(JavaRem(a, d)) < Abs(d)
      && (!Inexact(pts, i) ==> Term(pts, i) * d == a)
  {
    DivRem(pts[i].y * Numerator(pts, i), Denominator(pts, i));
  }

  /** The indices below m at which p holds, in increasing order. */
  function IndicesWhere(p: nat -> bool, m: nat): seq<nat>
  {
    if m == 0 then [] else IndicesWhere(p, m - 1) + (if p(m - 1) then [m - 1] else [])
  }

  lemma {:induction false} IndicesWhereExact(p: nat -> bool, m: nat)
    ensures forall t: nat :: t in IndicesWhere(p, m) <==> t < m && p(t)
    decreases m
  {
    if m > 0 {
      IndicesWhereExact(p, m - 1);
    }
  }

  lemma {:induction false} InexactBelowIndices(pts: seq<Point>, m: nat)
    requires m <= |pts| && forall t :: 0 <= t < m ==> Denominator(pts, t) != 0
    ensures InexactBelow(pts, m) == IndicesWhere((t: nat) => t < |pts| && Denominator(pts, t) != 0 && Inexact(pts, t), m)
    decreases m
  {
    if m > 0 {
      var p := (t: nat) => t < |pts| && Denominator(pts, t) != 0 && Inexact(pts, t);
      InexactBelowIndices(pts, m - 1);
      var b := Inexact(pts, m - 1);
      assert p(m - 1) == b;
      assert InexactBelow(pts, m) == InexactBelow(pts, m - 1) + (if b then [m - 1] else []);
      assert IndicesWhere(p, m) == IndicesWhere(p, m - 1) + (if b then [m - 1] else []);
    }
  }

  /** The warnings name exactly the inexact terms. */
  lemma WarningsExact(pts: seq<Point>, m: nat)
    requires m <= |pts| && forall t :: 0 <= t < m ==> Denominator(pts, t) != 0
    ensures forall t: nat :: t in InexactBelow(pts, m) <==> t < m && Inexact(pts, t)
  {
    var p := (t: nat) => t < |pts| && Denominator(pts, t) != 0 && Inexact(pts, t);
    InexactBelowIndices(pts, m);
    IndicesWhereExact(p, m);
  }

  lemma LineAlgebra(x1: int, x2: int, a: int, b: int, t1: int, t2: int)
    requires x1 != x2
    requires t1 * (x1 - x2) == (a * x1 + b) * -x2
    requires t2 * (x2 - x1) == (a * x2 + b) * -x1
    ensures t1 + t2 == b
  {
    assert (t1 + t2 - b) * (x1 - x2) == t1 * (x1 - x2) - t2 * (x2 - x1) - b * (x1 - x2);
    MulZero(t1 + t2 - b, x1 - x2);
  }

  lemma ProdDiffSnoc(c: int, s: seq<Point>, p: Point)
    ensures ProdDiff(c, s + [p]) == ProdDiff(c, s) * (c - p.x)
  {
    assert (s + [p])[..|s|] == s;
  }

  lemma TwoPointProducts(p: Point, q: Point)
    ensures Others([p, q], 0) == [q] && Others([p, q], 1) == [p]
    ensures Numerator([p, q], 0) == -q.x && Denominator([p, q], 0) == p.x - q.x
    ensures Numerator([p, q], 1) == -p.x && Denominator([p, q], 1) == q.x - p.x
  {
    assert [p, q][1..] == [q] && [p, q][..1] == [p] && [p, q][2..] == [];
    ProdDiffSnoc(0, [], q);
    ProdDiffSnoc(p.x, [], q);
    ProdDiffSnoc(0, [], p);
    ProdDiffSnoc(q.x, [], p);
  }

  lemma PartialSumTwo(pts: seq<Point>)
    requires |pts| == 2
    ensures PartialSum(pts, 2) == Term(pts, 0) + Term(pts, 1)
  {
    assert PartialSum(pts, 1) == Term(pts, 0);
  }

  /** The secret and the warnings of two shares with distinct x, written out. */
  lemma TwoPointSecret(p: Point, q: Point)
    requires p.x != q.x
    ensures NoZeroDenominator([p, q])
    ensures Secret([p, q]) == Ok(JavaDiv(p.y * -q.x, p.x - q.x) + JavaDiv(q.y * -p.x, q.x - p.x))
    ensures Warnings([p, q]) == (if JavaRem(p.y * -q.x, p.x - q.x) != 0 then [0] else [])
                              + (if JavaRem(q.y * -p.x, q.x - p.x) != 0 then [1] else [])
  {
    var pts := [p, q];
    TwoPointProducts(p, q);
    assert Denominator(pts, 0) != 0 && Denominator(pts, 1) != 0;
    PartialSumTwo(pts);
    assert InexactBelow(pts, 1) == if Inexact(pts, 0) then [0] else [];
  }

  /** Two shares on a line a*x + b with no warning give back b: exact terms add up to f(0). */
  lemma LinearExact(x1: int, x2: int, a: int, b: int)
    requires x1 != x2
    requires var pts := [Point(x1, a * x1 + b), Point(x2, a * x2 + b)];
      NoZeroDenominator(pts) && Warnings(pts) == []
    ensures Secret([Point(x1, a * x1 + b), Point(x2, a * x2 + b)]) == Ok(b)
  {
    var pts := [Point(x1, a * x1 + b), Point(x2, a * x2 + b)];
    TwoPointProducts(pts[0], pts[1]);
    WarningsExact(pts, 2);
    assert !Inexact(pts, 0) && !Inexact(pts, 1) by {
      assert 0 !in Warnings(pts) && 1 !in Warnings(pts);
    }
    TermRemainder(pts, 0);
    TermRemainder(pts, 1);
    LineAlgebra(x1, x2, a, b, Term(pts, 0), Term(pts, 1));
    PartialSumTwo(pts);
  }

  /** f(x) = 3x + 6 through (1, 9) and (2, 12): the secret 6, with no warning. */
  lemma ExampleLine()
    ensures Secret([Point(1, 9), Point(2, 12)]) == Ok(6)
    ensures Warnings([Point(1, 9), Point(2, 12)]) == []
  {
    TwoPointSecret(Point(1, 9), Point(2, 12));
    assert JavaDiv(-18, -1) == 18 && JavaRem(-18, -1) == 0;
    assert JavaDiv(-12, 1) == -12 && JavaRem(-12, 1) == 0;
  }

  /** f(x) = x^2 + 2 through (1, 3), (2, 6), (3, 11): terms 9, -18 and 11 give the secret 2. */
  lemma ExampleParabola()
    ensures Secret([Point(1, 3), Point(2, 6), Point(3, 11)]) == Ok(2)
    ensures Warnings([Point(1, 3), Point(2, 6), Point(3, 11)]) == []
  {
    var p0, p1, p2 := Point(1, 3), Point(2, 6), Point(3, 11);
    var pts := [p0, p1, p2];
    ThreePointOthers(p0, p1, p2);
    PairProduct(0, p1, p2);
    PairProduct(1, p1, p2);
    PairProduct(0, p0, p2);
    PairProduct(2, p0, p2);
    PairProduct(0, p0, p1);
    PairProduct(3, p0, p1);
    assert ProdDiff(0, [p1, p2]) == 6 && ProdDiff(1, [p1, p2]) == 2;
    assert ProdDiff(0, [p0, p2]) == 3 && ProdDiff(2, [p0, p2]) == -1;
    assert ProdDiff(0, [p0, p1]) == 2 && ProdDiff(3, [p0, p1]) == 2;
    assert JavaDiv(18, 2) == 9 && JavaDiv(18, -1) == -18 && JavaDiv(22, 2) == 11;
    assert JavaRem(18, 2) == 0 && JavaRem(18, -1) == 0 && JavaRem(22, 2) == 0;
    assert Term(pts, 0) == 9 && Term(pts, 1) == -18 && Term(pts, 2) == 11;
    assert !Inexact(pts, 0) && !Inexact(pts, 1) && !Inexact(pts, 2);
  }

  lemma ThreePointOthers(p0: Point, p1: Point, p2: Point)
    ensures var pts := [p0, p1, p2];
      Others(pts, 0) == [p1, p2] && Others(pts, 1) == [p0, p2] && Others(pts, 2) == [p0, p1]
  {
  }

  lemma PairProduct(c: int, p: Point, q: Point)
    ensures ProdDiff(c, [p, q]) == (c - p.x) * (c - q.x)
  {
    ProdDiffSnoc(c, [], p);
    ProdDiffSnoc(c, [p], q);
    assert [] + [p] == [p] && [p] + [q] == [p, q];
  }

  /** Truncating each term separately can lose the secret: the constant polynomial c, for
      an odd c, through (1, c) and (-1, c) has both terms c/2, each truncated toward zero, so
      the method returns c moved one unit toward zero (for c = 1, the secret 0 instead of
      1), with a warning on both terms. */
  lemma TruncationLoss(c: int)
    requires c % 2 == 1
    ensures Secret([Point(1, c), Point(-1, c)]) == Ok(if c > 0 then c - 1 else c + 1)
    ensures Warnings([Point(1, c), Point(-1, c)]) == [0, 1]
  {
    var p, q := Point(1, c), Point(-1, c);
    TwoPointSecret(p, q);
    assert p.y * -q.x == c && q.y * -p.x == -c;
    var h := Abs(c) / 2;
    assert Abs(c) == 2 * h + 1;
    if c > 0 {
      assert JavaDiv(c, 2) == h && JavaDiv(-c, -2) == h;
    } else {
      assert JavaDiv(c, 2) == -h && JavaDiv(-c, -2) == -h;
    }
    assert JavaRem(c, 2) != 0 && JavaRem(-c, -2) != 0;
  }

  /** A repeated x is degenerate: the remainder throws ArithmeticException. */
  lemma DuplicateX(a: int, y1: int, y2: int)
    ensures Secret([Point(a, y1), Point(a, y2)]) == Err(DivideByZero)
  {
    var pts := [Point(a, y1), Point(a, y2)];
    NoZeroDenominatorIffDistinct(pts);
  }
}

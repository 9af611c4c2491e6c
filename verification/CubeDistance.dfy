/**
 Distances between cubes, and why the distance to a bounding box is a lower bound for the distance
 to everything under it.
 */
module CubeDistance {
  import opened CubeBox

  /** The gap between the projections of two boxes onto axis i; none if they meet. */
  function Gap(a: Cube, b: Cube, i: nat): real {
    Max(0.0, Max(Lo(b, i) - Hi(a, i), Lo(a, i) - Hi(b, i)))
  }

  /** distance_1D, on the corners as they are stored */
  function Distance1D(a1: real, a2: real, b1: real, b2: real): real {
    if a1 <= b1 && a2 <= b1 && a1 <= b2 && a2 <= b2 then Min(b1, b2) - Max(a1, a2)
    else if a1 > b1 && a2 > b1 && a1 > b2 && a2 > b2 then Min(a1, a2) - Max(b1, b2)
    else 0.0
  }

  lemma Distance1DIsGap(a: Cube, b: Cube, i: nat)
    requires i < a.dim
    ensures i < b.dim ==> Distance1D(LL(a, i), UR(a, i), LL(b, i), UR(b, i)) == Gap(a, b, i) >= 0.0
    ensures i >= b.dim ==> Distance1D(LL(a, i), UR(a, i), 0.0, 0.0) == Gap(a, b, i) >= 0.0
  {}

  /** For Euclid the sum of squares; the distance itself is its square root. */
  datatype Metric = Taxicab | Chebyshev | Euclid

  function Product(x: real, y: real): real {
    x * y
  }

  function Square(x: real): real {
    Product(x, x)
  }

  /** The distance over n dimensions, and the gap in one more. */
  function Extend(m: Metric, distance: real, gap: real): real {
    match m
    case Taxicab => distance + gap
    case Chebyshev => Max(distance, gap)
    case Euclid => distance + Square(gap)
  }

  /** Sum, greatest or sum of squares of the gaps in the first n dimensions. */
  function Distance(m: Metric, a: Cube, b: Cube, n: nat): real {
    if n == 0 then 0.0 else Extend(m, Distance(m, a, b, n - 1), Gap(a, b, n - 1))
  }

  lemma GapSymmetric(a: Cube, b: Cube, i: nat)
    ensures Gap(a, b, i) == Gap(b, a, i)
  {}

  lemma {:induction false} DistanceSymmetric(m: Metric, a: Cube, b: Cube, n: nat)
    ensures Distance(m, a, b, n) == Distance(m, b, a, n)
  {
    if n > 0 {
      DistanceSymmetric(m, a, b, n - 1);
      GapSymmetric(a, b, n - 1);
    }
  }

  // ---------------------------------------------------------------------------- the loops

  /** One round of distance_taxicab, distance_chebyshev or cube_distance. */
  method Round(m: Metric, distance: real, d: real) returns (r: real)
    ensures d >= 0.0 ==> r == Extend(m, distance, d)
  {
    match m
    case Taxicab => r := distance + Abs(d);
    case Chebyshev => r := if Abs(d) > distance then Abs(d) else distance;
    case Euclid => r := distance + Square(d);
  }

  /** distance_taxicab, distance_chebyshev, and the sum under the root of cube_distance */
  method CubeDistance(m: Metric, a0: Cube, b0: Cube) returns (distance: real)
    ensures distance == Distance(m, a0, b0, Dim(a0, b0))
  {
    var a, b := a0, b0;
    if a.dim < b.dim { a, b := b, a; }
    distance := 0.0;
    var i := 0;
    while i < b.dim
      invariant 0 <= i <= b.dim && distance == Distance(m, a, b, i)
    {
      Distance1DIsGap(a, b, i);
      distance := Round(m, distance, Distance1D(LL(a, i), UR(a, i), LL(b, i), UR(b, i)));
      i := i + 1;
    }
    while i < a.dim
      invariant b.dim <= i <= a.dim && distance == Distance(m, a, b, i)
    {
      Distance1DIsGap(a, b, i);
      distance := Round(m, distance, Distance1D(LL(a, i), UR(a, i), 0.0, 0.0));
      i := i + 1;
    }
    DistanceSymmetric(m, a0, b0, i);
  }

  // -------------------------------------------------------------------------- lower bounds

  lemma GapShrinks(k: Cube, s: Cube, q: Cube, i: nat)
    requires Covers(k, s)
    ensures 0.0 <= Gap(k, q, i) <= Gap(s, q, i)
  {
    assert Lo(k, i) <= Lo(s, i) && Hi(s, i) <= Hi(k, i);
  }

  lemma SquareMonotone(x: real, y: real)
    requires 0.0 <= x <= y
    ensures Square(x) <= Square(y)
  {
    assert y * y - x * x == (y - x) * (y + x);
  }

  lemma ExtendMonotone(m: Metric, d: real, e: real, g: real, h: real)
    requires d <= e && 0.0 <= g <= h
    ensures Extend(m, d, g) <= Extend(m, e, h)
  {
    SquareMonotone(g, h);
  }

  lemma {:induction false} DistanceShrinks(m: Metric, k: Cube, s: Cube, q: Cube, n: nat)
    requires Covers(k, s)
    ensures Distance(m, k, q, n) <= Distance(m, s, q, n)
  {
    if n > 0 {
      DistanceShrinks(m, k, s, q, n - 1);
      GapShrinks(k, s, q, n - 1);
      ExtendMonotone(m, Distance(m, k, q, n - 1), Distance(m, s, q, n - 1), Gap(k, q, n - 1), Gap(s, q, n - 1));
    }
  }

  /** Dimensions that neither box has add nothing. */
  lemma {:induction false} DistanceSettles(m: Metric, s: Cube, q: Cube, n: nat)
    requires Dim(s, q) <= n
    ensures Distance(m, s, q, n) == Distance(m, s, q, Dim(s, q)) >= 0.0
  {
    if n > Dim(s, q) {
      DistanceSettles(m, s, q, n - 1);
      assert Gap(s, q, n - 1) == 0.0;
    } else {
      DistanceNonNegative(m, s, q, n);
    }
  }

  lemma {:induction false} DistanceNonNegative(m: Metric, s: Cube, q: Cube, n: nat)
    ensures Distance(m, s, q, n) >= 0.0
  {
    if n > 0 {
      DistanceNonNegative(m, s, q, n - 1);
      ExtendZero(m, Distance(m, s, q, n - 1), Gap(s, q, n - 1));
    }
  }

  /** The distance from a query to a box never exceeds the distance to a cube the box covers. */
  lemma BoxIsNoFarther(m: Metric, k: Cube, s: Cube, q: Cube)
    requires Covers(k, s)
    ensures 0.0 <= Distance(m, k, q, Dim(k, q)) <= Distance(m, s, q, Dim(s, q))
  {
    DistanceShrinks(m, k, s, q, Dim(k, q));
    DistanceSettles(m, s, q, Dim(k, q));
    DistanceNonNegative(m, k, q, Dim(k, q));
  }

  /** Boxes that overlap are at distance zero, and only those. */
  lemma ZeroIffOverlap(m: Metric, a: Cube, b: Cube)
    ensures Distance(m, a, b, Dim(a, b)) == 0.0 <==> Overlap(a, b)
  {
    var n := Dim(a, b);
    GapsZero(m, a, b, n);
    if forall i: nat :: i < n ==> Gap(a, b, i) == 0.0 {
      forall i: nat ensures Lo(a, i) <= Hi(b, i) && Lo(b, i) <= Hi(a, i) {
        if i < n { assert Gap(a, b, i) == 0.0; }
      }
    }
    if Overlap(a, b) {
      forall i: nat | i < n ensures Gap(a, b, i) == 0.0 { assert Lo(a, i) <= Hi(b, i) && Lo(b, i) <= Hi(a, i); }
    }
  }

  lemma {:induction false} GapsZero(m: Metric, a: Cube, b: Cube, n: nat)
    ensures Distance(m, a, b, n) == 0.0 <==> forall i: nat :: i < n ==> Gap(a, b, i) == 0.0
  {
    if n > 0 {
      GapsZero(m, a, b, n - 1);
      DistanceNonNegative(m, a, b, n - 1);
      ExtendZero(m, Distance(m, a, b, n - 1), Gap(a, b, n - 1));
    }
  }

  lemma ExtendZero(m: Metric, d: real, g: real)
    requires d >= 0.0 && g >= 0.0
    ensures Extend(m, d, g) >= 0.0 && (Extend(m, d, g) == 0.0 <==> d == 0.0 && g == 0.0)
  {
    SquareZero(g);
  }

  lemma SquareZero(x: real)
    requires x >= 0.0
    ensures if x == 0.0 then Square(x) == 0.0 else Square(x) > 0.0
  {
    if x > 0.0 { PositiveProduct(x, x); }
  }

  lemma PositiveProduct(x: real, y: real)
    requires x > 0.0 && y > 0.0
    ensures Product(x, y) > 0.0
  {}

  // ------------------------------------------------------------------- ordering by ~>

  datatype Result<T> = Ok(value: T) | Err

  /** The ~> part of g_cube_distance. */
  function CoordKey(c: Cube, coord: int, leaf: bool): Result<real> {
    if coord == 0 then Err
    else
      var inverse := coord < 0;
      var n := if inverse then -coord else coord;
      var value :=
        if n <= 2 * c.dim then
          var index := (n - 1) / 2;
          if c.point then c.ll[index]
          else if (if leaf then (n - 1) % 2 == 1 else inverse) then Max(c.ll[index], c.ur[index])
          else Min(c.ll[index], c.ur[index])
        else 0.0;
      Ok(if inverse then -value else value)
  }

  /** The sort key of an inner entry never exceeds that of an inner entry or a leaf below it. */
  lemma CoordIsLowerBound(k: Cube, s: Cube, coord: int, leaf: bool)
    requires Covers(k, s)
    ensures CoordKey(k, coord, false).Err? <==> CoordKey(s, coord, leaf).Err?
    ensures CoordKey(s, coord, leaf).Ok? ==> CoordKey(k, coord, false).value <= CoordKey(s, coord, leaf).value
  {
    if coord != 0 {
      var n := if coord < 0 then -coord else coord;
      var index := (n - 1) / 2;
      assert Lo(k, index) <= Lo(s, index) && Hi(s, index) <= Hi(k, index) && Lo(s, index) <= Hi(s, index);
    }
  }

  /** On a leaf the key is the coordinate itself: odd numbers lower bounds, even ones upper bounds. */
  lemma LeafCoord(s: Cube, i: nat)
    ensures CoordKey(s, 2 * i + 1, true) == Ok(Lo(s, i)) && CoordKey(s, 2 * i + 2, true) == Ok(Hi(s, i))
    ensures CoordKey(s, -(2 * i + 1), true) == Ok(-Lo(s, i)) && CoordKey(s, -(2 * i + 2), true) == Ok(-Hi(s, i))
  {}
}

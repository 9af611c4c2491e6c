/**
 Boxes of mixed dimension (NDBOX of contrib/cube) over real coordinates, with missing dimensions
 read as zero.
 */
module CubeBox {
  function Min(a: real, b: real): real {
    if a < b then a else b
  }

  function Max(a: real, b: real): real {
    if a > b then a else b
  }

  /** Two opposite corners; the stored form of a point leaves out the second, equal one. */
  datatype Ndbox = Ndbox(point: bool, ll: seq<real>, ur: seq<real>) {
    const dim: nat := |ll|
  }

  type Cube = c: Ndbox | |c.ll| == |c.ur| && (c.point ==> c.ll == c.ur) witness Ndbox(true, [], [])

  function LL(c: Cube, i: nat): real
    requires i < c.dim
  {
    c.ll[i]
  }

  function UR(c: Cube, i: nat): real
    requires i < c.dim
  {
    c.ur[i]
  }

  /** The lower bound of a box in dimension i; the corners may be given either way round. */
  function Lo(c: Cube, i: nat): real {
    if i < c.dim then Min(LL(c, i), UR(c, i)) else 0.0
  }

  function Hi(c: Cube, i: nat): real {
    if i < c.dim then Max(LL(c, i), UR(c, i)) else 0.0
  }

  /** A box with the given corners, marked as a point if they agree. */
  function FromCorners(ll: seq<real>, ur: seq<real>): Cube
    requires |ll| == |ur|
  {
    Ndbox(ll == ur, ll, ur)
  }

  function Dim(a: Cube, b: Cube): nat {
    if a.dim < b.dim then b.dim else a.dim
  }

  function UnionOf(a: Cube, b: Cube): Cube {
    FromCorners(seq(Dim(a, b), (i: nat) => Min(Lo(a, i), Lo(b, i))), seq(Dim(a, b), (i: nat) => Max(Hi(a, i), Hi(b, i))))
  }

  /** Boxes that do not meet get a turned-over intersection. */
  function InterOf(a: Cube, b: Cube): Cube {
    FromCorners(seq(Dim(a, b), (i: nat) => Max(Lo(a, i), Lo(b, i))), seq(Dim(a, b), (i: nat) => Min(Hi(a, i), Hi(b, i))))
  }

  // --------------------------------------------------------------------------- covering

  /** Box k bounds box s in every dimension, and has them all. */
  ghost predicate Covers(k: Cube, s: Cube) {
    s.dim <= k.dim && forall i: nat :: Lo(k, i) <= Lo(s, i) && Hi(s, i) <= Hi(k, i)
  }

  lemma CoversTransitive(a: Cube, b: Cube, c: Cube)
    requires Covers(a, b) && Covers(b, c)
    ensures Covers(a, c)
  {
    forall i: nat ensures Lo(a, i) <= Lo(c, i) && Hi(c, i) <= Hi(a, i) {
      assert Lo(a, i) <= Lo(b, i) <= Lo(c, i) && Hi(c, i) <= Hi(b, i) <= Hi(a, i);
    }
  }

  lemma UnionBounds(a: Cube, b: Cube, i: nat)
    ensures Lo(UnionOf(a, b), i) == Min(Lo(a, i), Lo(b, i)) && Hi(UnionOf(a, b), i) == Max(Hi(a, i), Hi(b, i))
  {
    assert Lo(a, i) <= Hi(a, i) && Lo(b, i) <= Hi(b, i);
  }

  /** The union is the least box that covers both, whatever their dimensions. */
  lemma UnionLeastCover(a: Cube, b: Cube, k: Cube)
    ensures Covers(UnionOf(a, b), a) && Covers(UnionOf(a, b), b)
    ensures Covers(k, a) && Covers(k, b) <==> Covers(k, UnionOf(a, b))
  {
    var u := UnionOf(a, b);
    forall i: nat ensures Lo(u, i) == Min(Lo(a, i), Lo(b, i)) && Hi(u, i) == Max(Hi(a, i), Hi(b, i)) {
      UnionBounds(a, b, i);
    }
    if Covers(k, u) {
      CoversTransitive(k, u, a);
      CoversTransitive(k, u, b);
    }
    if Covers(k, a) && Covers(k, b) {
      forall i: nat ensures Lo(k, i) <= Lo(u, i) && Hi(u, i) <= Hi(k, i) {
        assert Lo(k, i) <= Lo(a, i) && Lo(k, i) <= Lo(b, i);
        assert Hi(a, i) <= Hi(k, i) && Hi(b, i) <= Hi(k, i);
      }
    }
  }

  // -------------------------------------------------------------- filling in the corners

  /** cube_is_point_internal, and the point mark that cube_union_v0 and cube_inter end with. */
  method Finish(ll: array<real>, ur: array<real>) returns (r: Cube)
    requires ll.Length == ur.Length
    ensures r == FromCorners(ll[..], ur[..])
  {
    var i, point := 0, true;
    while i < ll.Length && point
      invariant 0 <= i <= ll.Length
      invariant if point then forall k :: 0 <= k < i ==> ll[k] == ur[k] else ll[..] != ur[..]
    {
      if ll[i] != ur[i] {
        assert ll[..][i] != ur[..][i];
        point := false;
      }
      i := i + 1;
    }
    r := if point then Ndbox(true, ll[..], ll[..]) else Ndbox(false, ll[..], ur[..]);
  }

  /** cube_union_v0 */
  method CubeUnion(a0: Cube, b0: Cube) returns (r: Cube)
    ensures r == UnionOf(a0, b0)
  {
    var a, b := a0, b0;
    if a.dim < b.dim { a, b := b, a; }
    var dim := a.dim;
    var ll, ur := new real[dim], new real[dim];
    var i := 0;
    while i < b.dim
      invariant 0 <= i <= b.dim
      invariant forall k: nat :: k < i ==> ll[k] == Min(Lo(a, k), Lo(b, k)) && ur[k] == Max(Hi(a, k), Hi(b, k))
    {
      ll[i] := Min(Min(LL(a, i), UR(a, i)), Min(LL(b, i), UR(b, i)));
      ur[i] := Max(Max(LL(a, i), UR(a, i)), Max(LL(b, i), UR(b, i)));
      i := i + 1;
    }
    while i < dim
      invariant b.dim <= i <= dim
      invariant forall k: nat :: k < i ==> ll[k] == Min(Lo(a, k), Lo(b, k)) && ur[k] == Max(Hi(a, k), Hi(b, k))
    {
      ll[i] := Min(0.0, Min(LL(a, i), UR(a, i)));
      ur[i] := Max(0.0, Max(LL(a, i), UR(a, i)));
      i := i + 1;
    }
    r := Finish(ll, ur);
    assert ll[..] == seq(dim, (i: nat) => Min(Lo(a0, i), Lo(b0, i)));
    assert ur[..] == seq(dim, (i: nat) => Max(Hi(a0, i), Hi(b0, i)));
  }

  /** cube_inter */
  method CubeInter(a0: Cube, b0: Cube) returns (r: Cube)
    ensures r == InterOf(a0, b0)
  {
    var a, b := a0, b0;
    if a.dim < b.dim { a, b := b, a; }
    var dim := a.dim;
    var ll, ur := new real[dim], new real[dim];
    var i := 0;
    while i < b.dim
      invariant 0 <= i <= b.dim
      invariant forall k: nat :: k < i ==> ll[k] == Max(Lo(a, k), Lo(b, k)) && ur[k] == Min(Hi(a, k), Hi(b, k))
    {
      ll[i] := Max(Min(LL(a, i), UR(a, i)), Min(LL(b, i), UR(b, i)));
      ur[i] := Min(Max(LL(a, i), UR(a, i)), Max(LL(b, i), UR(b, i)));
      i := i + 1;
    }
    while i < dim
      invariant b.dim <= i <= dim
      invariant forall k: nat :: k < i ==> ll[k] == Max(Lo(a, k), Lo(b, k)) && ur[k] == Min(Hi(a, k), Hi(b, k))
    {
      ll[i] := Max(0.0, Min(LL(a, i), UR(a, i)));
      ur[i] := Min(0.0, Max(LL(a, i), UR(a, i)));
      i := i + 1;
    }
    r := Finish(ll, ur);
    assert ll[..] == seq(dim, (i: nat) => Max(Lo(a0, i), Lo(b0, i)));
    assert ur[..] == seq(dim, (i: nat) => Min(Hi(a0, i), Hi(b0, i)));
  }

  /** The intersection is the common range where the boxes meet, and the gap between them where they do not. */
  lemma InterBounds(a: Cube, b: Cube, i: nat)
    ensures var c := InterOf(a, b);
            if Lo(a, i) <= Hi(b, i) && Lo(b, i) <= Hi(a, i)
            then Lo(c, i) == Max(Lo(a, i), Lo(b, i)) && Hi(c, i) == Min(Hi(a, i), Hi(b, i))
            else Lo(c, i) == Min(Hi(a, i), Hi(b, i)) && Hi(c, i) == Max(Lo(a, i), Lo(b, i))
  {
    assert Lo(a, i) <= Hi(a, i) && Lo(b, i) <= Hi(b, i);
  }

  // ------------------------------------------------------------------------------- size

  function Extent(c: Cube, n: nat): real
    requires n <= c.dim
  {
    if n == 0 then 1.0 else Extent(c, n - 1) * (Hi(c, n - 1) - Lo(c, n - 1))
  }

  /** The volume: the product of the extents, nothing for a point. */
  function Volume(c: Cube): real {
    if c.point || c.dim == 0 then 0.0 else Extent(c, c.dim)
  }

  function Abs(r: real): real {
    if r < 0.0 then -r else r
  }

  /** rt_cube_size */
  method CubeSize(c: Cube) returns (size: real)
    ensures size == Volume(c)
  {
    if c.point || c.dim == 0 { return 0.0; }
    size := 1.0;
    var i := 0;
    while i < c.dim
      invariant 0 <= i <= c.dim && size == Extent(c, i)
    {
      size := size * Abs(UR(c, i) - LL(c, i));
      i := i + 1;
    }
  }

  // --------------------------------------------------------------------- the predicates

  /** b lies within a in all dimensions of b; a's further dimensions do not matter. */
  ghost predicate Contains(a: Cube, b: Cube) {
    forall i: nat :: i < b.dim ==> Lo(a, i) <= Lo(b, i) && Hi(b, i) <= Hi(a, i)
  }

  ghost predicate Overlap(a: Cube, b: Cube) {
    forall i: nat :: Lo(a, i) <= Hi(b, i) && Lo(b, i) <= Hi(a, i)
  }

  ghost predicate Same(a: Cube, b: Cube) {
    a.dim == b.dim && forall i: nat :: i < a.dim ==> Lo(a, i) == Lo(b, i) && Hi(a, i) == Hi(b, i)
  }

  /** cube_contains_v0 */
  method CubeContains(a: Cube, b: Cube) returns (r: bool)
    ensures r <==> Contains(a, b)
  {
    var i := a.dim;
    if a.dim < b.dim {
      while i < b.dim
        invariant a.dim <= i <= b.dim
        invariant forall k: nat :: a.dim <= k < i ==> Lo(b, k) == 0.0 == Hi(b, k)
      {
        if LL(b, i) != 0.0 || UR(b, i) != 0.0 {
          assert Lo(b, i) < 0.0 || Hi(b, i) > 0.0;
          return false;
        }
        i := i + 1;
      }
    }
    i := 0;
    while i < a.dim && i < b.dim
      invariant 0 <= i && (i <= a.dim && i <= b.dim)
      invariant forall k: nat :: k < i ==> Lo(a, k) <= Lo(b, k) && Hi(b, k) <= Hi(a, k)
    {
      if Min(LL(a, i), UR(a, i)) > Min(LL(b, i), UR(b, i)) || Max(LL(a, i), UR(a, i)) < Max(LL(b, i), UR(b, i)) {
        assert !(Lo(a, i) <= Lo(b, i) && Hi(b, i) <= Hi(a, i));
        return false;
      }
      i := i + 1;
    }
    return true;
  }

  /** cube_overlap_v0 */
  method CubeOverlap(a0: Cube, b0: Cube) returns (r: bool)
    ensures r <==> Overlap(a0, b0)
  {
    var a, b := a0, b0;
    if a.dim < b.dim { a, b := b, a; }
    assert Overlap(a, b) <==> Overlap(a0, b0);
    var i := 0;
    while i < b.dim
      invariant 0 <= i <= b.dim
      invariant forall k: nat :: k < i ==> Lo(a, k) <= Hi(b, k) && Lo(b, k) <= Hi(a, k)
    {
      if Min(LL(a, i), UR(a, i)) > Max(LL(b, i), UR(b, i)) || Max(LL(a, i), UR(a, i)) < Min(LL(b, i), UR(b, i)) {
        assert !(Lo(a, i) <= Hi(b, i) && Lo(b, i) <= Hi(a, i));
        return false;
      }
      i := i + 1;
    }
    while i < a.dim
      invariant b.dim <= i <= a.dim
      invariant forall k: nat :: k < i ==> Lo(a, k) <= Hi(b, k) && Lo(b, k) <= Hi(a, k)
    {
      if Min(LL(a, i), UR(a, i)) > 0.0 || Max(LL(a, i), UR(a, i)) < 0.0 {
        assert !(Lo(a, i) <= Hi(b, i) && Lo(b, i) <= Hi(a, i));
        return false;
      }
      i := i + 1;
    }
    return true;
  }

  // ------------------------------------------------------------------------- comparison

  /**
   The order in which cube_cmp_v0 looks at the bounds, for boxes of least dimension m and greatest
   dimension n: lower bounds then upper bounds of the common dimensions, then of the others.
   */
  function Bound(c: Cube, m: nat, n: nat, k: nat): real
    requires m <= n && k < 2 * n
  {
    if k < m then Lo(c, k)
    else if k < 2 * m then Hi(c, k - m)
    else if k < m + n then Lo(c, k - m)
    else Hi(c, k - n)
  }

  /** The first k bounds agree. */
  ghost predicate AgreeTo(a: Cube, b: Cube, m: nat, n: nat, k: nat)
    requires m <= n && k <= 2 * n
  {
    forall j: nat :: j < k ==> Bound(a, m, n, j) == Bound(b, m, n, j)
  }

  /** At the first bound that differs, a's is the lower one; if none differs, a has fewer dimensions. */
  ghost predicate Before(a: Cube, b: Cube) {
    var m, n := if a.dim < b.dim then a.dim else b.dim, Dim(a, b);
    (exists k: nat :: k < 2 * n && AgreeTo(a, b, m, n, k) && Bound(a, m, n, k) < Bound(b, m, n, k)) ||
    (AgreeTo(a, b, m, n, 2 * n) && a.dim < b.dim)
  }

  /** One of the loops of cube_cmp_v0, over the bounds from k to end. */
  method CompareBounds(a: Cube, b: Cube, m: nat, n: nat, k: nat, end: nat) returns (r: int)
    requires m <= n && n == Dim(a, b) && m == (if a.dim < b.dim then a.dim else b.dim) && k <= end <= 2 * n
    requires AgreeTo(a, b, m, n, k)
    ensures r == 0 ==> AgreeTo(a, b, m, n, end)
    ensures r < 0 ==> Before(a, b)
    ensures r > 0 ==> Before(b, a)
  {
    var i := k;
    while i < end
      invariant k <= i <= end && AgreeTo(a, b, m, n, i)
    {
      if Bound(a, m, n, i) > Bound(b, m, n, i) {
        assert AgreeTo(b, a, m, n, i);
        return 1;
      }
      if Bound(a, m, n, i) < Bound(b, m, n, i) { return -1; }
      i := i + 1;
    }
    return 0;
  }

  /** cube_cmp_v0 */
  method CubeCmp(a: Cube, b: Cube) returns (r: int)
    ensures r == 0 <==> Same(a, b)
    ensures r < 0 <==> Before(a, b)
    ensures r > 0 <==> Before(b, a)
  {
    NotBothBefore(a, b);
    var m, n := if a.dim < b.dim then a.dim else b.dim, Dim(a, b);
    r := CompareBounds(a, b, m, n, 0, m);
    if r != 0 { return; }
    r := CompareBounds(a, b, m, n, m, 2 * m);
    if r != 0 { return; }
    r := CompareBounds(a, b, m, n, 2 * m, m + n);
    if r != 0 { return; }
    r := CompareBounds(a, b, m, n, m + n, 2 * n);
    if r != 0 { return; }
    assert AgreeTo(b, a, m, n, 2 * n);
    r := if a.dim > b.dim then 1 else if a.dim < b.dim then -1 else 0;
  }

  /** At most one of two boxes comes before the other, none if they are the same. */
  lemma NotBothBefore(a: Cube, b: Cube)
    ensures Before(a, b) ==> !Before(b, a)
    ensures Same(a, b) ==> !Before(a, b)
    ensures a.dim == b.dim && AgreeTo(a, b, a.dim, a.dim, 2 * a.dim) ==> Same(a, b)
  {
    var m, n := if a.dim < b.dim then a.dim else b.dim, Dim(a, b);
    if k: nat :| k < 2 * n && AgreeTo(a, b, m, n, k) && Bound(a, m, n, k) < Bound(b, m, n, k) {
      forall l: nat | l <= 2 * n && AgreeTo(b, a, m, n, l) ensures l <= k {}
    }
    if a.dim == b.dim && AgreeTo(a, b, n, n, 2 * n) {
      forall i: nat | i < n ensures Lo(a, i) == Lo(b, i) && Hi(a, i) == Hi(b, i) {
        assert Bound(a, n, n, i) == Bound(b, n, n, i) && Bound(a, n, n, i + n) == Bound(b, n, n, i + n);
      }
    }
  }
}

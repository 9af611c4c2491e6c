/**
 GiST trees of cubes: bounding boxes made by repeated unions, the tests on leaf and inner entries,
 and which searches lose nothing.
 */
module CubeTree {
  import opened CubeBox

  datatype Strategy = Overlaps | SameAs | ContainsQuery | ContainedBy

  /** What the operator of a strategy says of a stored cube. */
  ghost predicate Satisfies(s: Cube, q: Cube, strategy: Strategy) {
    match strategy
    case Overlaps => Overlap(s, q)
    case SameAs => Same(s, q)
    case ContainsQuery => Contains(s, q)
    case ContainedBy => Contains(q, s)
  }

  /** g_cube_leaf_consistent */
  method LeafConsistent(key: Cube, query: Cube, strategy: Strategy) returns (r: bool)
    ensures r <==> Satisfies(key, query, strategy)
  {
    match strategy
    case Overlaps => r := CubeOverlap(key, query);
    case SameAs =>
      var c := CubeCmp(key, query);
      r := c == 0;
    case ContainsQuery => r := CubeContains(key, query);
    case ContainedBy => r := CubeContains(query, key);
  }

  ghost predicate MayHold(key: Cube, query: Cube, strategy: Strategy) {
    match strategy
    case Overlaps => Overlap(key, query)
    case SameAs => Contains(key, query)
    case ContainsQuery => Contains(key, query)
    case ContainedBy => Overlap(key, query)
  }

  /** g_cube_internal_consistent */
  method InternalConsistent(key: Cube, query: Cube, strategy: Strategy) returns (r: bool)
    ensures r <==> MayHold(key, query, strategy)
  {
    match strategy
    case Overlaps => r := CubeOverlap(key, query);
    case SameAs => r := CubeContains(key, query);
    case ContainsQuery => r := CubeContains(key, query);
    case ContainedBy => r := CubeOverlap(key, query);
  }

  /** g_cube_union; it hands out nothing for a single entry. */
  method GiSTUnion(entries: seq<Cube>) returns (r: seq<Cube>)
    requires entries != []
    ensures r == if |entries| == 1 then [] else [UnionOfAll(entries, |entries|)]
  {
    var tmp := entries[0];
    r := [];
    var i := 1;
    while i < |entries|
      invariant 1 <= i <= |entries| && tmp == UnionOfAll(entries, i) && r == if i == 1 then [] else [tmp]
    {
      tmp := CubeUnion(tmp, entries[i]);
      r := [tmp];
      i := i + 1;
    }
  }

  function UnionOfAll(entries: seq<Cube>, n: nat): Cube
    requires 1 <= n <= |entries|
  {
    if n == 1 then entries[0] else UnionOf(UnionOfAll(entries, n - 1), entries[n - 1])
  }

  /** The union of a page is the least box that covers all its entries. */
  lemma {:induction false} UnionOfAllCovers(entries: seq<Cube>, n: nat, k: Cube)
    requires 1 <= n <= |entries|
    ensures forall i :: 0 <= i < n ==> Covers(UnionOfAll(entries, n), entries[i])
    ensures Covers(k, UnionOfAll(entries, n)) <==> forall i :: 0 <= i < n ==> Covers(k, entries[i])
  {
    var u := UnionOfAll(entries, n);
    if n > 1 {
      var front := UnionOfAll(entries, n - 1);
      UnionOfAllCovers(entries, n - 1, k);
      UnionLeastCover(front, entries[n - 1], k);
      forall i | 0 <= i < n ensures Covers(u, entries[i]) {
        if i < n - 1 { CoversTransitive(u, front, entries[i]); }
      }
    }
  }

  // ------------------------------------------------------------------------- lossless tests

  /** Query dimensions beyond those of the stored cube must reach to zero for contained-by. */
  predicate Spans(s: Cube, q: Cube) {
    forall i: nat :: s.dim <= i < q.dim ==> Lo(q, i) <= 0.0 <= Hi(q, i)
  }

  /** No box above a stored cube that overlaps, equals or contains the query is rejected. */
  lemma NeverRejected(k: Cube, s: Cube, q: Cube, strategy: Strategy)
    requires Covers(k, s) && Satisfies(s, q, strategy) && !strategy.ContainedBy?
    ensures MayHold(k, q, strategy)
  {
    if strategy.Overlaps? {
      forall i: nat ensures Lo(k, i) <= Hi(q, i) && Lo(q, i) <= Hi(k, i) {
        assert Lo(k, i) <= Lo(s, i) <= Hi(q, i) && Lo(q, i) <= Hi(s, i) <= Hi(k, i);
      }
    } else {
      forall i: nat | i < q.dim ensures Lo(k, i) <= Lo(q, i) && Hi(q, i) <= Hi(k, i) {
        assert Lo(k, i) <= Lo(s, i) <= Lo(q, i) && Hi(q, i) <= Hi(s, i) <= Hi(k, i);
      }
    }
  }

  /** For contained-by, no box above the stored cube is rejected if and only if the query spans it. */
  lemma ContainedByLosslessIffSpans(s: Cube, q: Cube)
    requires Contains(q, s)
    ensures (forall k :: Covers(k, s) ==> Overlap(k, q)) <==> Spans(s, q)
  {
    if Spans(s, q) {
      forall k | Covers(k, s) ensures Overlap(k, q) { SpanningOverlaps(k, s, q); }
    }
    if Overlap(s, q) {
      forall i: nat | s.dim <= i < q.dim ensures Lo(q, i) <= 0.0 <= Hi(q, i) {
        assert Lo(s, i) <= Hi(q, i) && Lo(q, i) <= Hi(s, i);
      }
    }
    assert Covers(s, s);
  }

  lemma SpanningOverlaps(k: Cube, s: Cube, q: Cube)
    requires Contains(q, s) && Spans(s, q) && Covers(k, s)
    ensures Overlap(k, q)
  {
    forall i: nat ensures Lo(k, i) <= Hi(q, i) && Lo(q, i) <= Hi(k, i) {
      assert Lo(k, i) <= Lo(s, i) && Hi(s, i) <= Hi(k, i) && Lo(s, i) <= Hi(s, i);
      if i < s.dim { assert Lo(q, i) <= Lo(s, i) && Hi(s, i) <= Hi(q, i); }
    }
  }

  // ------------------------------------------------------------------------------ searching

  datatype Tree = Row(cube: Cube, id: nat) | Node(key: Cube, children: seq<Tree>)

  function KeyOf(t: Tree): Cube {
    match t
    case Row(cube, _) => cube
    case Node(key, _) => key
  }

  /** Every inner key covers the keys right below it. */
  ghost predicate WellBounded(t: Tree) {
    match t
    case Row(_, _) => true
    case Node(key, children) => forall i :: 0 <= i < |children| ==> Covers(key, KeyOf(children[i])) && WellBounded(children[i])
  }

  /** A row stored in the tree. */
  ghost predicate Stored(t: Tree, cube: Cube, id: nat) {
    match t
    case Row(c, n) => c == cube && n == id
    case Node(_, children) => exists i :: 0 <= i < |children| && Stored(children[i], cube, id)
  }

  /** A row that a search of the subtree comes upon: every key above it passes the inner test. */
  ghost predicate Found(t: Tree, q: Cube, strategy: Strategy, cube: Cube, id: nat) {
    match t
    case Row(c, n) => c == cube && n == id && Satisfies(c, q, strategy)
    case Node(key, children) =>
      MayHold(key, q, strategy) && exists i :: 0 <= i < |children| && Found(children[i], q, strategy, cube, id)
  }

  lemma {:induction false} KeyCoversStored(t: Tree, cube: Cube, id: nat)
    requires WellBounded(t) && Stored(t, cube, id)
    ensures Covers(KeyOf(t), cube)
  {
    match t
    case Row(_, _) =>
    case Node(key, children) =>
      var i :| 0 <= i < |children| && Stored(children[i], cube, id);
      KeyCoversStored(children[i], cube, id);
      CoversTransitive(key, KeyOf(children[i]), cube);
  }

  /** When no covering key rejects a row, the search finds it. */
  lemma {:induction false} FoundIfNeverRejected(t: Tree, q: Cube, strategy: Strategy, cube: Cube, id: nat)
    requires WellBounded(t) && Stored(t, cube, id) && Satisfies(cube, q, strategy)
    requires forall k :: Covers(k, cube) ==> MayHold(k, q, strategy)
    ensures Found(t, q, strategy, cube, id)
  {
    match t
    case Row(_, _) =>
    case Node(key, children) =>
      KeyCoversStored(t, cube, id);
      var i :| 0 <= i < |children| && Stored(children[i], cube, id);
      FoundIfNeverRejected(children[i], q, strategy, cube, id);
  }

  lemma {:induction false} FoundIsStored(t: Tree, q: Cube, strategy: Strategy, cube: Cube, id: nat)
    requires Found(t, q, strategy, cube, id)
    ensures Stored(t, cube, id) && Satisfies(cube, q, strategy)
  {
    match t
    case Row(_, _) =>
    case Node(_, children) =>
      var i :| 0 <= i < |children| && Found(children[i], q, strategy, cube, id);
      FoundIsStored(children[i], q, strategy, cube, id);
  }

  /** A search finds exactly the stored rows that satisfy the operator; contained-by needs a spanning query. */
  lemma {:induction false} SearchExact(t: Tree, q: Cube, strategy: Strategy, cube: Cube, id: nat)
    requires WellBounded(t) && (strategy.ContainedBy? ==> Spans(cube, q))
    ensures Found(t, q, strategy, cube, id) <==> Stored(t, cube, id) && Satisfies(cube, q, strategy)
  {
    if Stored(t, cube, id) && Satisfies(cube, q, strategy) {
      forall k | Covers(k, cube) ensures MayHold(k, q, strategy) {
        if strategy.ContainedBy? { SpanningOverlaps(k, cube, q); } else { NeverRejected(k, cube, q, strategy); }
      }
      FoundIfNeverRejected(t, q, strategy, cube, id);
    }
    if Found(t, q, strategy, cube, id) { FoundIsStored(t, q, strategy, cube, id); }
  }

  /** The one-dimensional point 1 below its own bounding box, and a query box in two dimensions. */
  lemma ContainedByLosesRow()
    ensures var one, query := Ndbox(true, [1.0], [1.0]), Ndbox(false, [0.0, 5.0], [2.0, 6.0]);
            var t := Node(one, [Row(one, 42)]);
            WellBounded(t) && Stored(t, one, 42) && Satisfies(one, query, ContainedBy) && !Found(t, query, ContainedBy, one, 42)
  {
    var one: Cube, query: Cube := Ndbox(true, [1.0], [1.0]), Ndbox(false, [0.0, 5.0], [2.0, 6.0]);
    var t := Node(one, [Row(one, 42)]);
    assert Stored(t.children[0], one, 42) && WellBounded(t.children[0]);
    assert Lo(query, 1) == 5.0 && Hi(one, 1) == 0.0;
  }
}

/**
 Keys of variable-length types in btree_gist, for bytea (truncation on, one-byte
 characters, no leaf-to-node transform).

 An internal key is a pair of bounds.  `Union` and picksplit cut both bounds a
 little behind their common prefix, and `NodeConsistent` makes up for the cut
 with a prefix match.
 */
module GistVarKey {
  import opened Lexicographic
  import opened ByteStrings
  import opened Distinctness

  datatype Key = Key(lower: Bytes, upper: Bytes) {
    ghost predicate Ordered() {
      Leq(lower, upper)
    }

    /** Prefix length shared by the two bounds. */
    function Shared(): nat {
      CommonPrefix(lower, upper)
    }
  }

  function Point(x: Bytes): Key {
    Key(x, x)
  }

  // -------------------------------------------------------------- key construction

  /** gbt_var_node_truncate: keeps cpf + 1 bytes of each bound. */
  function Truncate(k: Key, cpf: nat): Key {
    Key(Cut(k.lower, cpf + 1), Cut(k.upper, cpf + 1))
  }

  /** The key gbt_var_bin_union stores when *u already holds a key. */
  function Widen(u: Key, e: Key): Key {
    Key(if Less(e.lower, u.lower) then e.lower else u.lower,
        if Less(u.upper, e.upper) then e.upper else u.upper)
  }

  /** The running union before truncation. */
  function Span(ks: seq<Key>): Key
    requires ks != []
  {
    if |ks| == 1 then ks[0] else Widen(Span(ks[..|ks| - 1]), ks[|ks| - 1])
  }

  /** The key that gbt_var_union returns. */
  function Union(ks: seq<Key>): Key
    requires ks != []
  {
    Truncate(Span(ks), Span(ks).Shared() + 1)
  }

  /** The key picksplit stores for the half `mine`: cut behind the longer of the two prefixes. */
  function SplitKey(mine: seq<Key>, other: seq<Key>): Key
    requires mine != [] && other != []
  {
    var cp, cq := Span(mine).Shared(), Span(other).Shared();
    Truncate(Span(mine), Max(cp, cq) + 1)
  }

  /** gbt_var_node_cp_len on one-byte characters. */
  method NodePrefixLength(node: Key) returns (n: nat)
    ensures n == node.Shared()
  {
    var ml := if |node.lower| < |node.upper| then |node.lower| else |node.upper|;
    if ml == 0 { return 0; }
    var i := 0;
    while i < ml
      invariant 0 <= i <= ml
      invariant node.lower[..i] == node.upper[..i]
    {
      if node.lower[i] != node.upper[i] {
        SharedAt(node, i);
        return i;
      }
      i := i + 1;
    }
    SharedAt(node, ml);
    return ml;
  }

  lemma SharedAt(k: Key, i: nat)
    requires i <= |k.lower| && i <= |k.upper| && k.lower[..i] == k.upper[..i]
    requires i < |k.lower| && i < |k.upper| ==> k.lower[i] != k.upper[i]
    ensures k.Shared() == i
  {
    CommonPrefixMaximal(k.lower[..i], k.lower, k.upper);
    var n := k.Shared();
    assert forall j :: 0 <= j < n ==> k.lower[..n][j] == k.upper[..n][j];
  }

  /** gbt_var_union: the loop over the entry vector, then truncation. */
  method VarUnion(entries: seq<Key>) returns (out: Key)
    requires entries != []
    ensures out == Union(entries)
  {
    var run := entries[0];
    var i := 1;
    assert entries[..1] == [entries[0]];
    while i < |entries|
      invariant 1 <= i <= |entries|
      invariant run == Span(entries[..i])
    {
      assert entries[..i + 1][..i] == entries[..i];
      var cur := entries[i];
      var nr := run;
      var update := false;
      if Less(cur.lower, run.lower) { nr := nr.(lower := cur.lower); update := true; }
      if Less(run.upper, cur.upper) { nr := nr.(upper := cur.upper); update := true; }
      if update { run := nr; }
      i := i + 1;
    }
    assert entries[..i] == entries;
    var plen := NodePrefixLength(run);
    out := Truncate(run, plen + 1);
  }

  /** gbt_vsrt_cmp: by lower bound, then by upper bound. */
  predicate Precedes(a: Key, b: Key) {
    if a.lower == b.lower then Leq(a.upper, b.upper) else Leq(a.lower, b.lower)
  }

  ghost predicate Sorted(ks: seq<Key>) {
    forall i, j :: 0 <= i < j < |ks| ==> Precedes(ks[i], ks[j])
  }

  ghost predicate AllPrecede(ks: seq<Key>, ms: seq<Key>) {
    forall i, j :: 0 <= i < |ks| && 0 <= j < |ms| ==> Precedes(ks[i], ms[j])
  }

  /** The keys at the given positions. */
  function Pick(keys: seq<Key>, at: seq<nat>): (r: seq<Key>)
    requires forall i :: 0 <= i < |at| ==> at[i] < |keys|
    ensures |r| == |at| && forall i :: 0 <= i < |r| ==> r[i] == keys[at[i]]
  {
    seq(|at|, i requires 0 <= i < |at| => keys[at[i]])
  }

  /** What qsort_arg may make of the keys: their positions, each once, in the order of gbt_vsrt_cmp. */
  ghost predicate SortsTo(keys: seq<Key>, order: seq<nat>) {
    |order| == |keys| && Distinct(order) && (forall i :: 0 <= i < |order| ==> order[i] < |keys|) && Sorted(Pick(keys, order))
  }

  /**
   gbt_var_picksplit: the keys are sorted, and the first half goes left.  No key on the left comes
   after one on the right.
   */
  method VarPickSplit(keys: seq<Key>, order: seq<nat>)
    returns (left: seq<nat>, right: seq<nat>, lkey: Key, rkey: Key)
    requires |keys| >= 2 && SortsTo(keys, order)
    ensures left == order[..|keys| / 2] && right == order[|keys| / 2..]
    ensures lkey == SplitKey(Pick(keys, left), Pick(keys, right)) && rkey == SplitKey(Pick(keys, right), Pick(keys, left))
    ensures AllPrecede(Pick(keys, left), Pick(keys, right))
  {
    var half := |keys| / 2;
    var l, r;
    left, right, l, r := Halve(Pick(keys, order), order);
    HalfSpan(keys, order, 0, half);
    HalfSpan(keys, order, half, |order|);
    assert order[0..half] == order[..half] && order[half..|order|] == order[half..];
    lkey, rkey := CutBoth(l, r);
    HalvesPrecede(keys, order, half);
  }

  lemma HalfSpan(keys: seq<Key>, order: seq<nat>, from: nat, hi: nat)
    requires (forall i :: 0 <= i < |order| ==> order[i] < |keys|) && from < hi <= |order|
    ensures SpanTo(Pick(keys, order), from, hi) == Span(Pick(keys, order[from..hi]))
  {
    SpanOfSlice(Pick(keys, order), from, hi);
    assert Pick(keys, order)[from..hi] == Pick(keys, order[from..hi]);
  }

  lemma HalvesPrecede(keys: seq<Key>, order: seq<nat>, half: nat)
    requires SortsTo(keys, order) && half <= |order|
    ensures AllPrecede(Pick(keys, order[..half]), Pick(keys, order[half..]))
  {
    var left, right := Pick(keys, order[..half]), Pick(keys, order[half..]);
    forall i, j | 0 <= i < |left| && 0 <= j < |right| ensures Precedes(left[i], right[j]) {
      assert Precedes(Pick(keys, order)[i], Pick(keys, order)[half + j]);
    }
  }

  /** The loop of gbt_var_picksplit over the sorted keys. */
  method Halve(sorted: seq<Key>, offsets: seq<nat>) returns (left: seq<nat>, right: seq<nat>, l: Key, r: Key)
    requires |sorted| >= 2 && |offsets| == |sorted|
    ensures left == offsets[..|sorted| / 2] && right == offsets[|sorted| / 2..]
    ensures l == SpanTo(sorted, 0, |sorted| / 2) && r == SpanTo(sorted, |sorted| / 2, |sorted|)
  {
    var half := |sorted| / 2;
    left, right := [], [];
    l, r := sorted[0], sorted[half];
    var i := 0;
    while i < |sorted|
      invariant 0 <= i <= |sorted| && left == offsets[..Min(i, half)] && right == offsets[half..Max(half, i)]
      invariant l == SpanTo(sorted, 0, Max(1, Min(i, half)))
      invariant r == SpanTo(sorted, half, Max(half + 1, i))
    {
      if i < half {
        l := Grow(sorted, 0, i, l);
        left := left + [offsets[i]];
      } else {
        r := Grow(sorted, half, i, r);
        right := right + [offsets[i]];
      }
      i := i + 1;
    }
  }

  /** gbt_var_bin_union with the key at i, the first of the half being taken over as it is. */
  method Grow(sorted: seq<Key>, from: nat, i: nat, u: Key) returns (v: Key)
    requires from <= i < |sorted| && u == if i == from then sorted[i] else SpanTo(sorted, from, i)
    ensures v == SpanTo(sorted, from, i + 1)
  {
    v := if i == from then u else Widen(u, sorted[i]);
  }

  /** The keys of both halves, cut behind the longer of their common prefixes. */
  method CutBoth(l: Key, r: Key) returns (lkey: Key, rkey: Key)
    ensures lkey == Truncate(l, Max(l.Shared(), r.Shared()) + 1)
    ensures rkey == Truncate(r, Max(r.Shared(), l.Shared()) + 1)
  {
    var ll := NodePrefixLength(l);
    var lr := NodePrefixLength(r);
    ll := Max(ll, lr) + 1;
    lkey, rkey := Truncate(l, ll), Truncate(r, ll);
  }

  /** The span of a slice, without the slice. */
  function SpanTo(ks: seq<Key>, from: nat, hi: nat): Key
    requires from < hi <= |ks|
    decreases hi
  {
    if hi == from + 1 then ks[from] else Widen(SpanTo(ks, from, hi - 1), ks[hi - 1])
  }

  lemma {:induction false} SpanOfSlice(ks: seq<Key>, from: nat, hi: nat)
    requires from < hi <= |ks|
    ensures SpanTo(ks, from, hi) == Span(ks[from..hi])
    decreases hi
  {
    if hi > from + 1 {
      SpanOfSlice(ks, from, hi - 1);
      assert ks[from..hi][..hi - 1 - from] == ks[from..hi - 1];
    }
  }

  function Min(a: int, b: int): int {
    if a < b then a else b
  }

  function Max(a: int, b: int): int {
    if a < b then b else a
  }

  // ------------------------------------------------------------------- what a key holds

  /**
   The invariant every key keeps for every value below it: x is inside the bounds, or it
   is above them only because the upper bound was cut two bytes behind the common prefix.
   */
  ghost predicate Holds(k: Key, x: Bytes) {
    Leq(k.lower, x) &&
    (Leq(x, k.upper) ||
     (|k.upper| >= k.Shared() + 2 && k.upper[..k.Shared() + 2] <= x))
  }

  /** The stronger form keys have directly after gbt_var_union: the whole upper bound is a prefix. */
  ghost predicate Admits(k: Key, x: Bytes) {
    Leq(k.lower, x) &&
    (Leq(x, k.upper) || (|k.upper| >= k.Shared() + 2 && k.upper <= x))
  }

  /** Widening a key on either side keeps what it holds. */
  lemma HoldsWider(k: Key, w: Key, x: Bytes)
    requires k.Ordered() && Holds(k, x)
    requires Leq(w.lower, k.lower) && Leq(k.upper, w.upper)
    ensures Holds(w, x)
  {
    LeqTransitive(w.lower, k.lower, x);
    LeqTotal(x, w.upper);
    if Leq(x, k.upper) {
      LeqTransitive(x, k.upper, w.upper);
    } else if !Leq(x, w.upper) {
      CommonPrefixAntitone(w.lower, k.lower, k.upper, w.upper);
      var t := k.upper[..k.Shared() + 2];
      PrefixConvex(t, k.upper, w.upper, x);
    }
  }

  lemma {:induction false} SpanCovers(ks: seq<Key>, i: nat)
    requires i < |ks| && forall j :: 0 <= j < |ks| ==> ks[j].Ordered()
    ensures Leq(Span(ks).lower, ks[i].lower) && Leq(ks[i].upper, Span(ks).upper)
    ensures Span(ks).Ordered()
  {
    var n := |ks| - 1;
    if n == 0 {
      LeqReflexive(ks[0].lower);
      LeqReflexive(ks[0].upper);
    } else {
      var s := Span(ks[..n]);
      var w := Span(ks);
      SpanCovers(ks[..n], if i < n then i else 0);
      LeqTotal(ks[n].lower, s.lower);
      LeqTotal(s.upper, ks[n].upper);
      LeqReflexive(w.lower);
      LeqReflexive(w.upper);
      assert Leq(w.lower, s.lower) && Leq(s.upper, w.upper);
      assert Leq(w.lower, ks[n].lower) && Leq(ks[n].upper, w.upper);
      LeqTransitive(w.lower, s.lower, s.upper);
      LeqTransitive(w.lower, s.upper, w.upper);
      if i < n {
        LeqTransitive(w.lower, s.lower, ks[i].lower);
        LeqTransitive(ks[i].upper, s.upper, w.upper);
      }
    }
  }

  lemma SpanHolds(ks: seq<Key>, i: nat, x: Bytes)
    requires i < |ks| && forall j :: 0 <= j < |ks| ==> ks[j].Ordered()
    requires Holds(ks[i], x)
    ensures Span(ks).Ordered() && Holds(Span(ks), x)
  {
    SpanCovers(ks, i);
    HoldsWider(ks[i], Span(ks), x);
  }

  /** Truncation behind the common prefix keeps the prefix, the order and what is held. */
  lemma TruncateHolds(k: Key, cpf: nat, x: Bytes)
    requires k.Ordered() && k.Shared() < cpf && Holds(k, x)
    ensures Truncate(k, cpf).Shared() == k.Shared()
    ensures Truncate(k, cpf).Ordered() && Holds(Truncate(k, cpf), x)
    ensures cpf == k.Shared() + 1 || Leq(x, k.upper) ==> Admits(Truncate(k, cpf), x)
  {
    var t := Truncate(k, cpf);
    CommonPrefixOfCuts(k.lower, k.upper, cpf + 1);
    TruncateOrdered(k, cpf);
    PrefixLeq(t.lower, k.lower);
    LeqTransitive(t.lower, k.lower, x);
    if Leq(x, k.upper) {
      CutAdmits(k, t, x);
    } else {
      assert t.upper[..k.Shared() + 2] == k.upper[..k.Shared() + 2];
      assert cpf == k.Shared() + 1 ==> t.upper == k.upper[..k.Shared() + 2];
    }
  }

  /** A value within the upper bound is within the cut bound, or the cut bound is its prefix. */
  lemma CutAdmits(k: Key, t: Key, x: Bytes)
    requires Leq(x, k.upper) && t.upper <= k.upper
    ensures Leq(x, t.upper) || t.upper <= x
  {
    LeqTotal(x, t.upper);
    if !Leq(x, t.upper) {
      PrefixConvex(t.upper, t.upper, x, k.upper);
      LeqReflexive(k.upper);
    }
  }

  lemma TruncateOrdered(k: Key, cpf: nat)
    requires k.Ordered() && k.Shared() < cpf
    ensures Truncate(k, cpf).Ordered()
  {
    var t := Truncate(k, cpf);
    PrefixLeq(t.lower, k.lower);
    LeqTransitive(t.lower, k.lower, k.upper);
    LeqTotal(t.lower, t.upper);
    if Leq(t.upper, t.lower) {
      LeqTransitive(t.upper, t.lower, k.lower);
      PrefixConvex(t.upper, t.upper, t.lower, k.upper);
      PrefixConvex(t.upper, t.upper, k.lower, k.upper);
      CommonPrefixMaximal(t.upper, k.lower, k.upper);
      assert t.upper == k.upper;
    }
  }

  /** Every union admits whatever any of its entries holds, even over already truncated entries. */
  lemma UnionAdmits(ks: seq<Key>, i: nat, x: Bytes)
    requires i < |ks| && forall j :: 0 <= j < |ks| ==> ks[j].Ordered()
    requires Holds(ks[i], x)
    ensures Union(ks).Ordered() && Admits(Union(ks), x)
  {
    SpanHolds(ks, i, x);
    TruncateHolds(Span(ks), Span(ks).Shared() + 1, x);
  }

  /** A split key still holds everything its entries hold, for any entries. */
  lemma SplitHolds(mine: seq<Key>, other: seq<Key>, i: nat, x: Bytes)
    requires i < |mine| && other != [] && forall j :: 0 <= j < |mine| ==> mine[j].Ordered()
    requires Holds(mine[i], x)
    ensures SplitKey(mine, other).Ordered() && Holds(SplitKey(mine, other), x)
  {
    SpanHolds(mine, i, x);
    var cp, cq := Span(mine).Shared(), Span(other).Shared();
    TruncateHolds(Span(mine), Max(cp, cq) + 1, x);
  }
}

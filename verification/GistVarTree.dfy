/**
 Search over a btree_gist tree of bytea keys: gbt_var_consistent, what it can prune,
 and the exactness of a search over a tree of any height.
 */
module GistVarTree {
  import opened Lexicographic
  import opened ByteStrings
  import opened GistVarKey

  datatype Strategy = Lesser | LesserEqual | Equal | GreaterEqual | Greater | NotEqual | Unknown

  /** The operator that a strategy number stands for, on a stored value and a query. */
  predicate Matches(x: Bytes, q: Bytes, s: Strategy) {
    match s
    case Lesser => Less(x, q)
    case LesserEqual => Leq(x, q)
    case Equal => x == q
    case GreaterEqual => Leq(q, x)
    case Greater => Less(q, x)
    case NotEqual => x != q
    case Unknown => false
  }

  /** gbt_var_node_pf_match */
  predicate PrefixMatch(k: Key, q: Bytes) {
    k.lower <= q || k.upper <= q
  }

  /** gbt_var_consistent with is_leaf set. */
  predicate LeafConsistent(k: Key, q: Bytes, s: Strategy) {
    match s
    case LesserEqual => Leq(k.lower, q)
    case Lesser => Less(k.lower, q)
    case Equal => q == k.lower
    case Greater => Less(q, k.upper)
    case GreaterEqual => Leq(q, k.upper)
    case NotEqual => !(q == k.lower && q == k.upper)
    case Unknown => false
  }

  /** gbt_var_consistent on an internal key. */
  predicate NodeConsistent(k: Key, q: Bytes, s: Strategy) {
    match s
    case LesserEqual => Leq(k.lower, q) || PrefixMatch(k, q)
    case Lesser => Leq(k.lower, q) || PrefixMatch(k, q)
    case Equal => (Leq(k.lower, q) && Leq(q, k.upper)) || PrefixMatch(k, q)
    case Greater => Leq(q, k.upper) || PrefixMatch(k, q)
    case GreaterEqual => Leq(q, k.upper) || PrefixMatch(k, q)
    case NotEqual => !(q == k.lower && q == k.upper)
    case Unknown => false
  }

  // ------------------------------------------------------------ what a single key prunes

  /** Some query that x answers is rejected by the internal test. */
  ghost predicate Prunable(k: Key, x: Bytes) {
    exists q, s :: Matches(x, q, s) && !NodeConsistent(k, q, s)
  }

  ghost predicate Visible(k: Key, x: Bytes) {
    ((Leq(k.lower, x) && Leq(x, k.upper)) || k.lower <= x || k.upper <= x) &&
    (k.lower == k.upper ==> x == k.lower)
  }

  /** A value is lost to some query exactly when it is outside the bounds and extends neither. */
  lemma PrunableIffInvisible(k: Key, x: Bytes)
    requires k.Ordered()
    ensures Prunable(k, x) <==> !Visible(k, x)
  {
    LeqReflexive(x);
    if !Visible(k, x) {
      if k.lower == k.upper && x != k.lower {
        assert Matches(x, k.lower, NotEqual) && !NodeConsistent(k, k.lower, NotEqual);
      } else {
        assert Matches(x, x, Equal) && !NodeConsistent(k, x, Equal);
      }
    } else {
      forall q, s | Matches(x, q, s)
        ensures NodeConsistent(k, q, s)
      {
        VisibleConsistent(k, x, q, s);
      }
    }
  }

  lemma VisibleConsistent(k: Key, x: Bytes, q: Bytes, s: Strategy)
    requires k.Ordered() && Visible(k, x) && Matches(x, q, s)
    ensures NodeConsistent(k, q, s)
  {
    if k.lower <= x { PrefixLeq(k.lower, x); }
    if k.upper <= x {
      PrefixLeq(k.upper, x);
      LeqTransitive(k.lower, k.upper, x);
    }
    if s.Lesser? || s.LesserEqual? {
      LeqTransitive(k.lower, x, q);
    } else if s.Greater? || s.GreaterEqual? {
      LeqTotal(q, k.upper);
      if Leq(x, k.upper) {
        LeqTransitive(q, x, k.upper);
      } else if !Leq(q, k.upper) {
        LeqReflexive(k.upper);
        if k.upper <= x {
          PrefixConvex(k.upper, k.upper, q, x);
        } else {
          LeqTransitive(k.lower, k.upper, q);
          LeqReflexive(k.lower);
          PrefixConvex(k.lower, k.lower, q, x);
        }
      }
    }
  }

  /** Keys straight from gbt_var_union lose nothing. */
  lemma AdmittedVisible(k: Key, x: Bytes)
    requires k.Ordered() && Admits(k, x)
    ensures Visible(k, x)
  {
    if k.lower == k.upper {
      CommonPrefixMaximal(k.lower, k.lower, k.upper);
      LeqAntisymmetric(k.lower, x);
    }
  }

  // ------------------------------------------------------------------- internal splits

  predicate AllMax(b: Bytes) {
    forall i :: 0 <= i < |b| ==> b[i] == 255
  }

  /** The part of a cut upper bound that every value above it is known to extend. */
  function Stem(k: Key): Bytes
    requires |k.upper| >= k.Shared() + 2
  {
    k.upper[..k.Shared() + 2]
  }

  /**
   The check on the keys of one half that tells whether its split key can lose a row: no
   entry's stem may be continued by the new upper bound with anything but 0xFF bytes,
   unless the new lower bound is a prefix of the new upper bound.
   */
  ghost predicate SplitSafe(mine: seq<Key>, k: Key) {
    k.lower <= k.upper ||
    forall i :: 0 <= i < |mine| ==> EntrySafe(mine[i], k)
  }

  ghost predicate EntrySafe(e: Key, k: Key) {
    |e.upper| >= e.Shared() + 2 && Stem(e) < k.upper ==> AllMax(k.upper[|Stem(e)|..])
  }

  /**
   gbt_var_picksplit keeps every row findable exactly when SplitSafe holds.  It always does
   on leaf pages (SplitOfLeavesSafe) and can fail on internal pages (InternalSplitLosesRow).
   */
  lemma SplitLosslessIffSafe(mine: seq<Key>, other: seq<Key>)
    requires mine != [] && other != []
    requires forall j :: 0 <= j < |mine| ==> mine[j].Ordered()
    ensures (forall x, i :: 0 <= i < |mine| && Holds(mine[i], x) ==> !Prunable(SplitKey(mine, other), x))
       <==> SplitSafe(mine, SplitKey(mine, other))
  {
    var k := SplitKey(mine, other);
    SplitOrdered(mine, other);
    if SplitSafe(mine, k) {
      forall x, i | 0 <= i < |mine| && Holds(mine[i], x)
        ensures !Prunable(k, x)
      {
        SafeEntryVisible(mine, other, i, x);
        PrunableIffInvisible(k, x);
      }
    } else {
      var i :| 0 <= i < |mine| && !EntrySafe(mine[i], k);
      var x := UnsafeEntryLoss(mine, other, i);
      PrunableIffInvisible(k, x);
    }
  }

  lemma SplitOrdered(mine: seq<Key>, other: seq<Key>)
    requires mine != [] && other != []
    requires forall j :: 0 <= j < |mine| ==> mine[j].Ordered()
    ensures SplitKey(mine, other).Ordered()
  {
    SpanCovers(mine, 0);
    TruncateOrdered(Span(mine), Max(Span(mine).Shared(), Span(other).Shared()) + 1);
  }

  lemma SafeEntryVisible(mine: seq<Key>, other: seq<Key>, i: nat, x: Bytes)
    requires i < |mine| && other != []
    requires forall j :: 0 <= j < |mine| ==> mine[j].Ordered()
    requires SplitSafe(mine, SplitKey(mine, other)) && Holds(mine[i], x)
    ensures Visible(SplitKey(mine, other), x)
  {
    var k, e := SplitKey(mine, other), mine[i];
    SplitHolds(mine, other, i, x);
    if k.lower == k.upper {
      CommonPrefixMaximal(k.lower, k.lower, k.upper);
      LeqAntisymmetric(k.lower, x);
    } else if !Leq(x, k.upper) {
      if k.lower <= k.upper {
        CommonPrefixMaximal(k.lower, k.lower, k.upper);
        assert k.lower <= k.upper[..k.Shared() + 2];
      } else if !(k.upper <= x) {
        StemAgainstSplit(mine, other, i, x);
        if Stem(e) < k.upper {
          MaxTailAbsorbs(Stem(e), k.upper, x);
        } else if !(k.upper <= Stem(e)) {
          DivergentOrder(Stem(e), k.upper, x);
        }
      }
    }
  }

  /** For a held value above the split key, the entry was cut and its stem is not above the key. */
  lemma StemAgainstSplit(mine: seq<Key>, other: seq<Key>, i: nat, x: Bytes)
    requires i < |mine| && other != []
    requires forall j :: 0 <= j < |mine| ==> mine[j].Ordered()
    requires Holds(mine[i], x) && !Leq(x, SplitKey(mine, other).upper)
    requires !(SplitKey(mine, other).upper <= x)
    ensures |mine[i].upper| >= mine[i].Shared() + 2
    ensures Stem(mine[i]) <= x && Leq(Stem(mine[i]), SplitKey(mine, other).upper)
  {
    var k, e, w := SplitKey(mine, other), mine[i], Span(mine);
    SpanCovers(mine, i);
    LeqTotal(x, k.upper);
    if Leq(x, w.upper) {
      PrefixConvex(k.upper, k.upper, x, w.upper);
      assert false;
    }
    if Leq(x, e.upper) {
      LeqTransitive(x, e.upper, w.upper);
      assert false;
    }
    PrefixLeq(Stem(e), e.upper);
    LeqTransitive(Stem(e), e.upper, w.upper);
    LeqTotal(Stem(e), k.upper);
    if !Leq(Stem(e), k.upper) {
      PrefixConvex(k.upper, k.upper, Stem(e), w.upper);
      assert false;
    }
  }

  lemma {:induction false} MaxTailAbsorbs(t: Bytes, u: Bytes, x: Bytes)
    requires t <= u && t <= x && AllMax(u[|t|..])
    ensures Leq(x, u) || u <= x
  {
    if t != [] {
      assert u[|t|..] == u[1..][|t[1..]|..];
      MaxTailAbsorbs(t[1..], u[1..], x[1..]);
      assert u == [u[0]] + u[1..] && x == [x[0]] + x[1..];
    } else if u != [] && x != [] && x[0] == 255 {
      assert u[1..][|t|..] == u[|t|..][1..];
      MaxTailAbsorbs([], u[1..], x[1..]);
      assert u == [u[0]] + u[1..] && x == [x[0]] + x[1..];
    }
  }

  /** The lost row: the stem followed by 0xFF bytes. */
  lemma UnsafeEntryLoss(mine: seq<Key>, other: seq<Key>, i: nat) returns (x: Bytes)
    requires i < |mine| && other != []
    requires forall j :: 0 <= j < |mine| ==> mine[j].Ordered()
    requires !(SplitKey(mine, other).lower <= SplitKey(mine, other).upper)
    requires !EntrySafe(mine[i], SplitKey(mine, other))
    ensures Holds(mine[i], x) && !Visible(SplitKey(mine, other), x)
  {
    var k, e := SplitKey(mine, other), mine[i];
    SplitOrdered(mine, other);
    var t := Stem(e);
    x := t + seq(|k.upper| - |t|, _ => 255);
    TopOfStem(t, k.upper, x);
    StemAboveLower(e, x);
    if k.lower <= x {
      LeqReflexive(k.lower);
      PrefixConvex(k.lower, k.lower, k.upper, x);
    }
  }

  lemma {:induction false} TopOfStem(t: Bytes, u: Bytes, x: Bytes)
    requires t <= u && t <= x && |x| == |u|
    requires AllMax(x[|t|..]) && !AllMax(u[|t|..])
    ensures Less(u, x) && !Leq(x, u) && !(u <= x)
  {
    if t != [] {
      assert u[|t|..] == u[1..][|t[1..]|..] && x[|t|..] == x[1..][|t[1..]|..];
      TopOfStem(t[1..], u[1..], x[1..]);
    } else if u[0] == 255 {
      assert u[1..][|t|..] == u[|t|..][1..] && x[1..][|t|..] == x[|t|..][1..];
      assert AllMax(u[1..]) ==> AllMax(u);
      TopOfStem([], u[1..], x[1..]);
    }
  }

  lemma StemAboveLower(e: Key, x: Bytes)
    requires e.Ordered() && |e.upper| >= e.Shared() + 2 && Stem(e) <= x
    ensures Leq(e.lower, x)
  {
    var t := Stem(e);
    LeqTotal(e.lower, t);
    PrefixLeq(t, x);
    if Leq(e.lower, t) {
      LeqTransitive(e.lower, t, x);
    } else {
      LeqReflexive(t);
      PrefixConvex(t, t, e.lower, e.upper);
      CommonPrefixMaximal(t, e.lower, e.upper);
    }
  }

  /** Leaf entries were never cut, so splitting a leaf page is always safe. */
  lemma SplitOfLeavesSafe(mine: seq<Key>, k: Key)
    requires forall i :: 0 <= i < |mine| ==> mine[i].lower == mine[i].upper
    ensures SplitSafe(mine, k)
  {
    forall i | 0 <= i < |mine| ensures EntrySafe(mine[i], k) {
      CommonPrefixMaximal(mine[i].lower, mine[i].lower, mine[i].upper);
    }
  }

  // ----------------------------------------------------------------- trees of any height

  /**
   How the key of an entry came about.  GiST recomputes a key by union (over a page, or over
   the old key and a new entry) or takes it from a split of a page.
   */
  datatype Origin =
    | Stored(value: Bytes)
    | United(parts: seq<Origin>)
    | SplitHalf(parts: seq<Origin>, rest: seq<Origin>)

  ghost predicate Proper(o: Origin) {
    match o
    case Stored(_) => true
    case United(ps) => ps != [] && forall i :: 0 <= i < |ps| ==> Proper(ps[i])
    case SplitHalf(ps, rs) =>
      ps != [] && rs != [] &&
      (forall i :: 0 <= i < |ps| ==> Proper(ps[i])) && (forall i :: 0 <= i < |rs| ==> Proper(rs[i]))
  }

  ghost function KeyOf(o: Origin): Key
    requires Proper(o)
  {
    match o
    case Stored(x) => Point(x)
    case United(ps) => Union(seq(|ps|, i requires 0 <= i < |ps| => KeyOf(ps[i])))
    case SplitHalf(ps, rs) =>
      SplitKey(seq(|ps|, i requires 0 <= i < |ps| => KeyOf(ps[i])),
               seq(|rs|, i requires 0 <= i < |rs| => KeyOf(rs[i])))
  }

  /** The values a key was computed for. */
  ghost predicate Accounts(o: Origin, x: Bytes) {
    match o
    case Stored(y) => x == y
    case United(ps) => exists i :: 0 <= i < |ps| && Accounts(ps[i], x)
    case SplitHalf(ps, _) => exists i :: 0 <= i < |ps| && Accounts(ps[i], x)
  }

  ghost function PartKeys(ps: seq<Origin>): (r: seq<Key>)
    requires forall i :: 0 <= i < |ps| ==> Proper(ps[i])
    ensures |r| == |ps| && forall i :: 0 <= i < |r| ==> r[i] == KeyOf(ps[i])
  {
    seq(|ps|, i requires 0 <= i < |ps| => KeyOf(ps[i]))
  }

  lemma {:induction false} OriginOrdered(o: Origin)
    requires Proper(o)
    ensures KeyOf(o).Ordered()
  {
    match o
    case Stored(x) => LeqReflexive(x);
    case United(ps) =>
      forall i | 0 <= i < |ps| ensures KeyOf(ps[i]).Ordered() { OriginOrdered(ps[i]); }
      var ks := PartKeys(ps);
      assert KeyOf(o) == Union(ks);
      SpanCovers(ks, 0);
      TruncateOrdered(Span(ks), Span(ks).Shared() + 1);
    case SplitHalf(ps, rs) =>
      forall i | 0 <= i < |ps| ensures KeyOf(ps[i]).Ordered() { OriginOrdered(ps[i]); }
      assert KeyOf(o) == SplitKey(PartKeys(ps), PartKeys(rs));
      SplitOrdered(PartKeys(ps), PartKeys(rs));
  }

  /** Whatever its history, a key holds all its values; a fresh union or leaf key admits them. */
  lemma PartsOrdered(ps: seq<Origin>)
    requires forall j :: 0 <= j < |ps| ==> Proper(ps[j])
    ensures |PartKeys(ps)| == |ps| && forall j :: 0 <= j < |ps| ==> PartKeys(ps)[j] == KeyOf(ps[j]) && PartKeys(ps)[j].Ordered()
  {
    forall j | 0 <= j < |ps| ensures KeyOf(ps[j]).Ordered() { OriginOrdered(ps[j]); }
  }

  lemma UnionHolds(ks: seq<Key>, i: nat, x: Bytes)
    requires i < |ks| && Holds(ks[i], x) && forall j :: 0 <= j < |ks| ==> ks[j].Ordered()
    ensures Holds(Union(ks), x) && Admits(Union(ks), x)
  {
    SpanHolds(ks, i, x);
    UnionAdmits(ks, i, x);
    TruncateHolds(Span(ks), Span(ks).Shared() + 1, x);
  }

  lemma {:induction false} OriginHolds(o: Origin, x: Bytes)
    requires Proper(o) && Accounts(o, x)
    ensures Holds(KeyOf(o), x)
    ensures !o.SplitHalf? ==> Admits(KeyOf(o), x)
  {
    match o
    case Stored(y) => LeqReflexive(y);
    case United(ps) =>
      var i :| 0 <= i < |ps| && Accounts(ps[i], x);
      OriginHolds(ps[i], x);
      PartsOrdered(ps);
      assert KeyOf(o) == Union(PartKeys(ps));
      UnionHolds(PartKeys(ps), i, x);
    case SplitHalf(ps, rs) =>
      var i :| 0 <= i < |ps| && Accounts(ps[i], x);
      OriginHolds(ps[i], x);
      PartsOrdered(ps);
      assert KeyOf(o) == SplitKey(PartKeys(ps), PartKeys(rs));
      SplitHolds(PartKeys(ps), PartKeys(rs), i, x);
  }

  datatype Entry = Leaf(value: Bytes) | Node(origin: Origin, children: seq<Entry>)

  function Values(e: Entry): seq<Bytes>
    decreases e, 1
  {
    match e
    case Leaf(x) => [x]
    case Node(_, es) => AllValues(es)
  }

  function AllValues(es: seq<Entry>): seq<Bytes>
    decreases es, 0
  {
    if es == [] then [] else Values(es[0]) + AllValues(es[1..])
  }

  /** Every key was computed for the values below it. */
  ghost predicate Accounted(e: Entry)
    decreases e, 1
  {
    e.Node? ==>
      Proper(e.origin) && (forall x :: x in AllValues(e.children) ==> Accounts(e.origin, x)) &&
      AllAccounted(e.children)
  }

  ghost predicate AllAccounted(es: seq<Entry>)
    decreases es, 0
  {
    es != [] ==> Accounted(es[0]) && AllAccounted(es[1..])
  }

  /**
   The last step that made a key is not a split that fails the check.  Earlier splits in a
   key's history do not matter.
   */
  ghost predicate SafelySplit(e: Entry)
    requires Accounted(e)
    decreases e, 1
  {
    e.Node? ==>
      (e.origin.SplitHalf? ==> SplitSafe(PartKeys(e.origin.parts), KeyOf(e.origin))) &&
      AllSafelySplit(e.children)
  }

  ghost predicate AllSafelySplit(es: seq<Entry>)
    requires AllAccounted(es)
    decreases es, 0
  {
    es != [] ==> SafelySplit(es[0]) && AllSafelySplit(es[1..])
  }

  /** The GiST scan: leaf test on leaf entries, internal test before descending. */
  ghost function Search(e: Entry, q: Bytes, s: Strategy): seq<Bytes>
    requires Accounted(e)
    decreases e, 1
  {
    match e
    case Leaf(x) => if LeafConsistent(Point(x), q, s) then [x] else []
    case Node(o, es) => if NodeConsistent(KeyOf(o), q, s) then SearchAll(es, q, s) else []
  }

  ghost function SearchAll(es: seq<Entry>, q: Bytes, s: Strategy): seq<Bytes>
    requires AllAccounted(es)
    decreases es, 0
  {
    if es == [] then [] else Search(es[0], q, s) + SearchAll(es[1..], q, s)
  }

  function Filter(xs: seq<Bytes>, q: Bytes, s: Strategy): seq<Bytes> {
    if xs == [] then []
    else (if Matches(xs[0], q, s) then [xs[0]] else []) + Filter(xs[1..], q, s)
  }

  lemma {:induction false} FilterAppend(xs: seq<Bytes>, ys: seq<Bytes>, q: Bytes, s: Strategy)
    ensures Filter(xs + ys, q, s) == Filter(xs, q, s) + Filter(ys, q, s)
  {
    if xs == [] {
      assert xs + ys == ys;
    } else {
      assert (xs + ys)[1..] == xs[1..] + ys;
      FilterAppend(xs[1..], ys, q, s);
    }
  }

  lemma {:induction false} FilterNone(xs: seq<Bytes>, q: Bytes, s: Strategy)
    requires forall x :: x in xs ==> !Matches(x, q, s)
    ensures Filter(xs, q, s) == []
  {
    if xs != [] { FilterNone(xs[1..], q, s); }
  }

  /** A search returns exactly the matching leaf values, in tree order, for every strategy. */
  lemma {:induction false} SearchExact(e: Entry, q: Bytes, s: Strategy)
    requires Accounted(e) && SafelySplit(e)
    ensures Search(e, q, s) == Filter(Values(e), q, s)
    decreases e, 1
  {
    match e
    case Leaf(x) =>
      assert Filter([x], q, s) == if Matches(x, q, s) then [x] else [];
    case Node(o, es) =>
      if NodeConsistent(KeyOf(o), q, s) {
        SearchAllExact(es, q, s);
      } else {
        forall x | x in AllValues(es) ensures !Matches(x, q, s) {
          OriginOrdered(o);
          OriginVisible(o, x);
          if Matches(x, q, s) { VisibleConsistent(KeyOf(o), x, q, s); }
        }
        FilterNone(AllValues(es), q, s);
      }
  }

  lemma OriginVisible(o: Origin, x: Bytes)
    requires Proper(o) && Accounts(o, x)
    requires o.SplitHalf? ==> SplitSafe(PartKeys(o.parts), KeyOf(o))
    ensures Visible(KeyOf(o), x)
  {
    OriginOrdered(o);
    OriginHolds(o, x);
    if o.SplitHalf? {
      var ps, ks := o.parts, PartKeys(o.parts);
      var i :| 0 <= i < |ps| && Accounts(ps[i], x);
      OriginHolds(ps[i], x);
      forall j | 0 <= j < |ps| ensures ks[j].Ordered() { OriginOrdered(ps[j]); }
      assert KeyOf(o) == SplitKey(ks, PartKeys(o.rest));
      SafeEntryVisible(ks, PartKeys(o.rest), i, x);
    } else {
      AdmittedVisible(KeyOf(o), x);
    }
  }

  lemma {:induction false} SearchAllExact(es: seq<Entry>, q: Bytes, s: Strategy)
    requires AllAccounted(es) && AllSafelySplit(es)
    ensures SearchAll(es, q, s) == Filter(AllValues(es), q, s)
    decreases es, 0
  {
    if es != [] {
      SearchExact(es[0], q, s);
      SearchAllExact(es[1..], q, s);
      FilterAppend(Values(es[0]), AllValues(es[1..]), q, s);
    }
  }

  // ---------------------------------------------------------------- the split that loses

  function PairOf(a: Bytes, b: Bytes): Origin {
    United([Stored(a), Stored(b)])
  }

  function PageOf(a: Bytes, b: Bytes): Entry {
    Node(PairOf(a, b), [Leaf(a), Leaf(b)])
  }

  /**
   An internal page holds four keys, each the union of two leaves: 0..119, 112..113, 20..21 and
   22..23 (one digit a byte).  It is split in the middle.  The right half shares one byte, so the
   left upper bound keeps three bytes although the left bounds share none: it becomes 113, and
   the row 119 below the first entry is no longer found by an equality search.
   */
  lemma InternalSplitLosesRow() returns (e: Entry, x: Bytes)
    ensures Accounted(e) && x in Values(e) && e.Node? && HalfOfSorted(e.origin)
    ensures Search(e, x, Equal) == []
  {
    var a, c, d, o;
    a, x, c, d, o := LosingOrigin();
    e := Node(o, [PageOf(a, x), PageOf(c, d)]);
    TwoPages(a, x, c, d, o);
    RejectedEmpty(e, x);
  }

  /** The key is that of the first of two equal halves of keys in the order of gbt_vsrt_cmp. */
  ghost predicate HalfOfSorted(o: Origin) {
    Proper(o) && o.SplitHalf? && |o.parts| == |o.rest| && Sorted(PartKeys(o.parts) + PartKeys(o.rest))
  }

  lemma RejectedEmpty(e: Entry, q: Bytes)
    requires Accounted(e) && e.Node? && !NodeConsistent(KeyOf(e.origin), q, Equal)
    ensures Search(e, q, Equal) == []
  {}

  lemma LosingOrigin() returns (a: Bytes, x: Bytes, c: Bytes, d: Bytes, o: Origin)
    ensures HalfOfSorted(o) && o.parts == [PairOf(a, x), PairOf(c, d)]
    ensures !NodeConsistent(KeyOf(o), x, Equal)
  {
    a, x, c, d := [0], [1, 1, 9], [1, 1, 2], [1, 1, 3];
    var f, g, h, i := [2, 0], [2, 1], [2, 2], [2, 3];
    o := SplitHalf([PairOf(a, x), PairOf(c, d)], [PairOf(f, g), PairOf(h, i)]);
    LosingMine(o.parts, a, x, c, d);
    LosingOthers(o.rest, f, g, h, i);
    ProperSplit(o.parts, o.rest);
    LosingSplit(o);
    LosingReject(KeyOf(o), x);
  }

  lemma ProperSplit(ps: seq<Origin>, rs: seq<Origin>)
    requires |ps| == 2 && |rs| == 2 && Proper(ps[0]) && Proper(ps[1]) && Proper(rs[0]) && Proper(rs[1])
    ensures Proper(SplitHalf(ps, rs))
  {}

  lemma LosingReject(k: Key, x: Bytes)
    requires k == Key([0], [1, 1, 3]) && x == [1, 1, 9]
    ensures !NodeConsistent(k, x, Equal)
  {
    LeqAt(k.upper, x, 2);
  }

  lemma LosingSplit(o: Origin)
    requires o.SplitHalf? && Proper(o) && PartKeys(o.parts) == [Key([0], [1, 1]), Key([1, 1, 2], [1, 1, 3])]
    requires PartKeys(o.rest) == [Key([2, 0], [2, 1]), Key([2, 2], [2, 3])]
    ensures Sorted(PartKeys(o.parts) + PartKeys(o.rest)) && KeyOf(o) == Key([0], [1, 1, 3])
  {
    FirstsAscend(PartKeys(o.parts) + PartKeys(o.rest));
    LosingKey(PartKeys(o.parts), PartKeys(o.rest));
  }

  /** The four keys start with 0, 1, 20 and 22. */
  lemma FirstsAscend(ks: seq<Key>)
    requires ks == [Key([0], [1, 1]), Key([1, 1, 2], [1, 1, 3]), Key([2, 0], [2, 1]), Key([2, 2], [2, 3])]
    ensures Sorted(ks)
  {
    LeqAt(ks[2].lower, ks[3].lower, 1);
    forall i, j | 0 <= i < j < 4 && i < 2 ensures Precedes(ks[i], ks[j]) { LeqAt(ks[i].lower, ks[j].lower, 0); }
  }

  lemma LosingMine(ps: seq<Origin>, a: Bytes, x: Bytes, c: Bytes, d: Bytes)
    requires a == [0] && x == [1, 1, 9] && c == [1, 1, 2] && d == [1, 1, 3] && ps == [PairOf(a, x), PairOf(c, d)]
    ensures Proper(ps[0]) && Proper(ps[1]) && PartKeys(ps) == [Key(a, [1, 1]), Key(c, d)]
  {
    PairKey(a, x, 0);
    PairKey(c, d, 2);
    assert Cut(x, 2) == [1, 1];
  }

  lemma LosingOthers(ps: seq<Origin>, f: Bytes, g: Bytes, h: Bytes, i: Bytes)
    requires f == [2, 0] && g == [2, 1] && h == [2, 2] && i == [2, 3] && ps == [PairOf(f, g), PairOf(h, i)]
    ensures Proper(ps[0]) && Proper(ps[1]) && PartKeys(ps) == [Key(f, g), Key(h, i)]
  {
    PairKey(f, g, 1);
    PairKey(h, i, 1);
  }

  lemma LosingKey(mine: seq<Key>, other: seq<Key>)
    requires mine == [Key([0], [1, 1]), Key([1, 1, 2], [1, 1, 3])]
    requires other == [Key([2, 0], [2, 1]), Key([2, 2], [2, 3])]
    ensures SplitKey(mine, other) == Key([0], [1, 1, 3])
  {
    LeqAt(mine[0].lower, mine[1].lower, 0);
    PrefixLeq(mine[0].upper, mine[1].upper);
    SpanPair(mine);
    LeqAt(other[0].lower, other[1].lower, 1);
    LeqAt(other[0].upper, other[1].upper, 1);
    SpanPair(other);
    SharedAt(Span(mine), 0);
    SharedAt(Span(other), 1);
  }

  lemma TwoPages(a: Bytes, b: Bytes, c: Bytes, d: Bytes, o: Origin)
    requires Proper(o) && o.SplitHalf? && o.parts == [PairOf(a, b), PairOf(c, d)]
    ensures Accounted(Node(o, [PageOf(a, b), PageOf(c, d)]))
    ensures b in Values(Node(o, [PageOf(a, b), PageOf(c, d)]))
  {
    PageShape(a, b);
    PageShape(c, d);
    var es := [PageOf(a, b), PageOf(c, d)];
    assert es[1..] == [PageOf(c, d)] && es[1..][1..] == [];
    assert AllAccounted(es[1..][1..]) && AllAccounted(es[1..]) && AllAccounted(es);
    assert AllValues(es[1..]) == Values(PageOf(c, d)) + AllValues([]);
    assert AllValues(es) == [a, b] + ([c, d] + []);
    forall v | v in AllValues(es) ensures Accounts(o, v) {
      if v in [a, b] {
        assert Accounts(o.parts[0], v);
      } else {
        assert v in [c, d];
        assert Accounts(o.parts[1], v);
      }
    }
  }

  lemma PageShape(a: Bytes, b: Bytes)
    ensures Accounted(PageOf(a, b)) && Values(PageOf(a, b)) == [a, b]
    ensures Accounts(PairOf(a, b), a) && Accounts(PairOf(a, b), b)
  {
    var es := PageOf(a, b).children;
    assert es[1..] == [Leaf(b)] && es[1..][1..] == [];
    assert AllAccounted(es[1..][1..]) && AllAccounted(es[1..]) && AllAccounted(es);
    assert AllValues(es[1..]) == [b] + AllValues([]);
    assert AllValues(es) == [a] + AllValues(es[1..]);
    assert Accounts(PairOf(a, b).parts[0], a) && Accounts(PairOf(a, b).parts[1], b);
  }

  /** The union of two leaves whose values first differ at position d. */
  lemma PairKey(a: Bytes, b: Bytes, d: nat)
    requires d < |a| && d < |b| && a[..d] == b[..d] && a[d] < b[d]
    ensures Proper(PairOf(a, b)) && KeyOf(PairOf(a, b)) == Key(Cut(a, d + 2), Cut(b, d + 2))
  {
    var o := PairOf(a, b);
    var ks := PartKeys(o.parts);
    assert KeyOf(o) == Union(ks);
    LeqAt(a, b, d);
    SpanPair(ks);
    SharedAt(Key(a, b), d);
  }

  lemma SpanPair(ks: seq<Key>)
    requires |ks| == 2
    ensures Span(ks) == Widen(ks[0], ks[1])
  {
    assert ks[..1] == [ks[0]];
  }

  lemma {:induction false} LeqAt(a: Bytes, b: Bytes, d: nat)
    requires d < |a| && d < |b| && a[..d] == b[..d] && a[d] < b[d]
    ensures Less(a, b) && !Leq(b, a)
  {
    if d > 0 {
      assert a[0] == a[..d][0] == b[..d][0] == b[0];
      assert a[1..][..d - 1] == a[..d][1..] && b[1..][..d - 1] == b[..d][1..];
      LeqAt(a[1..], b[1..], d - 1);
    }
  }
}

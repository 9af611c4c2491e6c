/**
 The lexicographic order of integer sequences, in which a proper prefix sorts first.  It orders
 bytea values byte by byte and B-tree keys attribute by attribute.

 On sequences Dafny's own `<=` and `<` mean "is a prefix of" and "is a proper prefix of".
 */
module Lexicographic {

  predicate Leq(a: seq<int>, b: seq<int>) {
    if a == [] then true
    else if b == [] then false
    else if a[0] != b[0] then a[0] < b[0]
    else Leq(a[1..], b[1..])
  }

  predicate Less(a: seq<int>, b: seq<int>) {
    Leq(a, b) && a != b
  }

  lemma {:induction false} LeqReflexive(a: seq<int>)
    ensures Leq(a, a)
  {
    if a != [] { LeqReflexive(a[1..]); }
  }

  lemma {:induction false} LeqTotal(a: seq<int>, b: seq<int>)
    ensures Leq(a, b) || Leq(b, a)
  {
    if a != [] && b != [] { LeqTotal(a[1..], b[1..]); }
  }

  lemma {:induction false} LeqAntisymmetric(a: seq<int>, b: seq<int>)
    requires Leq(a, b) && Leq(b, a)
    ensures a == b
  {
    if a != [] {
      LeqAntisymmetric(a[1..], b[1..]);
      assert a == [a[0]] + a[1..] && b == [b[0]] + b[1..];
    }
  }

  lemma {:induction false} LeqTransitive(a: seq<int>, b: seq<int>, c: seq<int>)
    requires Leq(a, b) && Leq(b, c)
    ensures Leq(a, c)
  {
    if a != [] && a[0] == b[0] && b[0] == c[0] { LeqTransitive(a[1..], b[1..], c[1..]); }
  }

  lemma LessTransitive(a: seq<int>, b: seq<int>, c: seq<int>)
    requires Leq(a, b) && Leq(b, c) && (a != b || b != c)
    ensures Less(a, c)
  {
    LeqTransitive(a, b, c);
    if a == c { LeqAntisymmetric(a, b); }
  }

  lemma NotLess(a: seq<int>, b: seq<int>)
    ensures !Less(a, b) <==> Leq(b, a)
  {
    LeqTotal(a, b);
    LeqReflexive(a);
    if Leq(a, b) && Leq(b, a) { LeqAntisymmetric(a, b); }
  }

  lemma {:induction false} PrefixLeq(p: seq<int>, a: seq<int>)
    requires p <= a
    ensures Leq(p, a)
  {
    if p != [] { PrefixLeq(p[1..], a[1..]); }
  }
}

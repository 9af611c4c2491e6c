/**
 The byte-wise order of bytea values and its relation to prefixes.

 byteacmp compares with memcmp over the shorter length and then by length, which is the
 lexicographic order.
 */
module ByteStrings {
  import opened Lexicographic

  type Byte = b: int | 0 <= b < 256

  type Bytes = seq<Byte>

  /** The number of leading bytes that two strings share. */
  function CommonPrefix(a: Bytes, b: Bytes): (n: nat)
    ensures n <= |a| && n <= |b| && a[..n] == b[..n]
    ensures n < |a| && n < |b| ==> a[n] != b[n]
  {
    if a == [] || b == [] || a[0] != b[0] then 0 else 1 + CommonPrefix(a[1..], b[1..])
  }

  /** The strings that start with p form an interval of the order. */
  lemma {:induction false} PrefixConvex(p: Bytes, a: Bytes, x: Bytes, b: Bytes)
    requires p <= a && p <= b && Leq(a, x) && Leq(x, b)
    ensures p <= x
  {
    if p != [] {
      PrefixConvex(p[1..], a[1..], x[1..], b[1..]);
      assert p == [p[0]] + p[1..] && x == [x[0]] + x[1..];
    }
  }

  lemma {:induction false} CommonPrefixMaximal(p: Bytes, a: Bytes, b: Bytes)
    requires p <= a && p <= b
    ensures |p| <= CommonPrefix(a, b)
  {
    if p != [] { CommonPrefixMaximal(p[1..], a[1..], b[1..]); }
  }

  /** A wider interval has a shorter common prefix. */
  lemma CommonPrefixAntitone(lo: Bytes, l: Bytes, u: Bytes, hi: Bytes)
    requires Leq(lo, l) && Leq(l, u) && Leq(u, hi)
    ensures CommonPrefix(lo, hi) <= CommonPrefix(l, u)
  {
    var p := lo[..CommonPrefix(lo, hi)];
    LeqTransitive(lo, l, u);
    LeqTransitive(l, u, hi);
    PrefixConvex(p, lo, l, hi);
    PrefixConvex(p, lo, u, hi);
    CommonPrefixMaximal(p, l, u);
  }

  /** Cutting both strings behind their common prefix does not change it. */
  lemma CommonPrefixOfCuts(a: Bytes, b: Bytes, n: nat)
    requires CommonPrefix(a, b) < n
    ensures CommonPrefix(Cut(a, n), Cut(b, n)) == CommonPrefix(a, b)
  {
    var c := CommonPrefix(a, b);
    var a', b' := Cut(a, n), Cut(b, n);
    var d := CommonPrefix(a', b');
    assert a[..c] == a'[..c] && b[..c] == b'[..c];
    CommonPrefixMaximal(a[..c], a', b');
    assert a'[..d] == a[..d] && b'[..d] == b[..d];
    CommonPrefixMaximal(a'[..d], a, b);
  }

  /** The first n bytes, or everything when there are fewer. */
  function Cut(a: Bytes, n: nat): (r: Bytes)
    ensures r <= a && |r| == if |a| <= n then |a| else n
  {
    if |a| <= n then a else a[..n]
  }

  /** Strings that differ from one another below their ends keep their order whatever follows. */
  lemma {:induction false} DivergentOrder(t: Bytes, v: Bytes, x: Bytes)
    requires Leq(t, v) && !(t <= v) && t <= x
    ensures Leq(x, v) && !(v <= x)
  {
    if t[0] == v[0] {
      assert t[1..] <= v[1..] ==> t <= v by { assert t == [t[0]] + t[1..] && v == [v[0]] + v[1..]; }
      DivergentOrder(t[1..], v[1..], x[1..]);
    }
  }
}

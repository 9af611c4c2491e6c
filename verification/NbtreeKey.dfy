/**
 B-tree key comparison as amcheck uses it.

 A key is the list of its attribute values, the heap TID last.  Pivot tuples may be truncated:
 they keep a prefix of the list, and every attribute left out counts as minus infinity.
 `_bt_compare` only half knows about that; the invariant_* functions of verify_nbtree.c add what
 is missing.  Together they decide the lexicographic order.
 */
module NbtreeKey {
  import opened Lexicographic

  type Key = seq<int>

  /** Number of key attributes in a tuple, without the heap TID; nkeyatts is that of the index. */
  function KeySize(nkeyatts: nat, k: Key): nat {
    if |k| < nkeyatts then |k| else nkeyatts
  }

  predicate HasTid(nkeyatts: nat, k: Key) {
    |k| > nkeyatts
  }

  function Sign(a: int, b: int): int {
    if a < b then -1 else if a > b then 1 else 0
  }

  /** The attribute loop of _bt_compare over the first n attributes. */
  function CompareAttrs(key: Key, tup: Key, n: nat): int
    requires n <= |key| && n <= |tup|
  {
    if n == 0 then 0
    else if key[0] != tup[0] then Sign(key[0], tup[0])
    else CompareAttrs(key[1..], tup[1..], n - 1)
  }

  /** _bt_compare of a backward insertion scan key against a plain tuple of a heapkeyspace index. */
  function BtCompare(nkeyatts: nat, key: Key, tup: Key): int {
    var keysz, ntupatts := KeySize(nkeyatts, key), KeySize(nkeyatts, tup);
    var c := CompareAttrs(key, tup, if keysz < ntupatts then keysz else ntupatts);
    if c != 0 then c
    else if keysz > ntupatts then 1
    else if !HasTid(nkeyatts, key) then 0
    else if !HasTid(nkeyatts, tup) then 1
    else Sign(key[nkeyatts], tup[nkeyatts])
  }

  /** invariant_l_offset and invariant_l_nontarget_offset, with the step for omitted attributes. */
  predicate InvariantL(nkeyatts: nat, key: Key, upper: Key) {
    var cmp := BtCompare(nkeyatts, key, upper);
    if cmp == 0 then
      if KeySize(nkeyatts, key) == KeySize(nkeyatts, upper) then
        !HasTid(nkeyatts, key) && HasTid(nkeyatts, upper)
      else KeySize(nkeyatts, key) < KeySize(nkeyatts, upper)
    else cmp < 0
  }

  /** invariant_leq_offset */
  predicate InvariantLeq(nkeyatts: nat, key: Key, upper: Key) {
    BtCompare(nkeyatts, key, upper) <= 0
  }

  /** invariant_g_offset */
  predicate InvariantG(nkeyatts: nat, key: Key, lower: Key) {
    BtCompare(nkeyatts, key, lower) > 0
  }

  /** On keys of at most nkeyatts attributes and a heap TID, the three tests are the order itself. */
  lemma InvariantsDecideOrder(nkeyatts: nat, a: Key, b: Key)
    requires |a| <= nkeyatts + 1 && |b| <= nkeyatts + 1
    ensures InvariantL(nkeyatts, a, b) <==> Less(a, b)
    ensures InvariantLeq(nkeyatts, a, b) <==> Leq(a, b)
    ensures InvariantG(nkeyatts, a, b) <==> Less(b, a)
  {
    CompareIsPrefixOrder(nkeyatts, a, b);
    if a <= b { PrefixLeq(a, b); }
    if b <= a { PrefixLeq(b, a); }
    NotLess(a, b);
    NotLess(b, a);
  }

  /** What _bt_compare returns, without the distinction between attributes and heap TID. */
  lemma CompareIsPrefixOrder(nkeyatts: nat, a: Key, b: Key)
    requires |a| <= nkeyatts + 1 && |b| <= nkeyatts + 1
    ensures a <= b ==> BtCompare(nkeyatts, a, b) == 0
    ensures b < a ==> BtCompare(nkeyatts, a, b) == 1
    ensures !(a <= b) && !(b <= a) ==> BtCompare(nkeyatts, a, b) == if Leq(a, b) then -1 else 1
  {
    var keysz, ntupatts := KeySize(nkeyatts, a), KeySize(nkeyatts, b);
    var n := if keysz < ntupatts then keysz else ntupatts;
    AttrsOrder(a, b, n);
    if a[..n] == b[..n] && |a| > n && |b| > n {
      assert n == nkeyatts && |a| == n + 1 && |b| == n + 1;
      if a[n] != b[n] { TailOrder(a, b, n); }
      assert a == a[..n] + [a[n]] && b == b[..n] + [b[n]];
    } else if a[..n] == b[..n] {
      assert a[..|a|] == a && b[..|b|] == b;
    }
  }

  lemma {:induction false} AttrsOrder(a: Key, b: Key, n: nat)
    requires n <= |a| && n <= |b|
    ensures a[..n] == b[..n] ==> CompareAttrs(a, b, n) == 0
    ensures a[..n] != b[..n] ==> !(a <= b) && !(b <= a)
    ensures a[..n] != b[..n] ==> CompareAttrs(a, b, n) == if Leq(a, b) then -1 else 1
  {
    if n > 0 {
      AttrsOrder(a[1..], b[1..], n - 1);
      assert a[..n] == [a[0]] + a[1..][..n - 1] && b[..n] == [b[0]] + b[1..][..n - 1];
      if a <= b { assert a[..n] == b[..n]; }
      if b <= a { assert a[..n] == b[..n]; }
    }
  }

  lemma {:induction false} TailOrder(a: Key, b: Key, n: nat)
    requires n < |a| && n < |b| && a[..n] == b[..n] && a[n] != b[n]
    ensures Leq(a, b) <==> a[n] < b[n]
  {
    if n > 0 {
      assert a[0] == a[..n][0] && b[0] == b[..n][0];
      assert a[1..][..n - 1] == a[..n][1..] && b[1..][..n - 1] == b[..n][1..];
      TailOrder(a[1..], b[1..], n - 1);
    }
  }
}

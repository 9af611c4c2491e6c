/**
 The on-disk form of btree_gist keys: nested varlenas with a 4-byte length word.

 A leaf key is one varlena inside another.  An internal key holds two, the second aligned to
 four bytes.  Readers tell the two apart by the outer length alone.
 */
module GistVarLayout {
  import opened ByteStrings
  import opened GistVarKey

  const VARHDRSZ := 4

  /** Lengths that a 4-byte varlena header can hold. */
  const MAX_VARSIZE := 0x4000_0000

  /** SET_VARSIZE on a little-endian machine: the length shifted left by two. */
  function Header(n: nat): (r: Bytes)
    requires n < MAX_VARSIZE
    ensures |r| == VARHDRSZ
  {
    [4 * n % 256, n / 64 % 256, n / 16384 % 256, n / 4194304 % 256]
  }

  /** VARSIZE of the varlena that starts at `at`. */
  function Varsize(b: Bytes, at: nat): nat
    requires at + VARHDRSZ <= |b|
  {
    var b0: int, b1: int, b2: int, b3: int := b[at], b[at + 1], b[at + 2], b[at + 3];
    (b0 + 256 * b1 + 65536 * b2 + 16777216 * b3) / 4
  }

  function Varlena(d: Bytes): (r: Bytes)
    requires |d| + VARHDRSZ < MAX_VARSIZE
    ensures |r| == |d| + VARHDRSZ
  {
    Header(|d| + VARHDRSZ) + d
  }

  function IntAlign(n: nat): (r: nat)
    ensures n <= r < n + 4 && r % 4 == 0
  {
    (n + 3) / 4 * 4
  }

  predicate Storable(k: Key) {
    |k.lower| + |k.upper| + 16 < MAX_VARSIZE
  }

  /** gbt_var_key_from_datum */
  function LeafKey(x: Bytes): Bytes
    requires Storable(Point(x))
  {
    Header(|x| + 2 * VARHDRSZ) + Varlena(x)
  }

  /** gbt_var_key_copy */
  function KeyCopy(k: Key): Bytes
    requires Storable(k)
  {
    var lowersize, uppersize := |k.lower| + VARHDRSZ, |k.upper| + VARHDRSZ;
    Header(IntAlign(lowersize) + uppersize + VARHDRSZ) + Varlena(k.lower) +
    seq(IntAlign(lowersize) - lowersize, _ => 0) + Varlena(k.upper)
  }

  datatype Readable = Readable(key: Key, leaf: bool) | Malformed

  /** gbt_var_key_readable, with the bounds checks a reader of raw bytes needs. */
  function KeyReadable(b: Bytes): Readable {
    if |b| < 2 * VARHDRSZ || Varsize(b, 4) < VARHDRSZ || 4 + Varsize(b, 4) > |b| then Malformed
    else
      var lower := b[8..4 + Varsize(b, 4)];
      if Varsize(b, 0) > VARHDRSZ + Varsize(b, 4) then
        var at := VARHDRSZ + IntAlign(Varsize(b, 4));
        if at + VARHDRSZ > |b| || Varsize(b, at) < VARHDRSZ || at + Varsize(b, at) > |b| then Malformed
        else Readable(Key(lower, b[at + 4..at + Varsize(b, at)]), false)
      else Readable(Key(lower, lower), true)
  }

  lemma HeaderRead(b: Bytes, at: nat, n: nat)
    requires n < MAX_VARSIZE && at + VARHDRSZ <= |b| && b[at..at + 4] == Header(n)
    ensures Varsize(b, at) == n
  {
    var h := Header(n);
    assert b[at] == b[at..at + 4][0] && b[at + 1] == b[at..at + 4][1];
    assert b[at + 2] == b[at..at + 4][2] && b[at + 3] == b[at..at + 4][3];
    HeaderSum(n);
  }

  /** The four bytes of a length word add up to four times the length. */
  lemma HeaderSum(n: nat)
    requires n < MAX_VARSIZE
    ensures 4 * n % 256 + 256 * (n / 64 % 256) + 65536 * (n / 16384 % 256) + 16777216 * (n / 4194304 % 256) == 4 * n
  {
    var q1, q2, q3 := n / 64, n / 16384, n / 4194304;
    assert q2 == q1 / 256 && q3 == q2 / 256 && q3 < 256;
    assert 4 * n % 256 == 4 * (n % 64);
  }

  lemma LeafRoundTrip(x: Bytes)
    requires Storable(Point(x))
    ensures KeyReadable(LeafKey(x)) == Readable(Point(x), true)
  {
    var b := LeafKey(x);
    assert b[0..4] == Header(|x| + 8);
    HeaderRead(b, 0, |x| + 8);
    assert b[4..8] == Header(|x| + 4);
    HeaderRead(b, 4, |x| + 4);
    assert b[8..] == x;
  }

  /** A stored pair of bounds reads back as itself, and as internal even when the bounds are equal. */
  lemma KeyRoundTrip(k: Key)
    requires Storable(k)
    ensures KeyReadable(KeyCopy(k)) == Readable(k, false)
  {
    var b := KeyCopy(k);
    var lowersize, uppersize := |k.lower| + 4, |k.upper| + 4;
    var total := IntAlign(lowersize) + uppersize + 4;
    assert b[0..4] == Header(total);
    HeaderRead(b, 0, total);
    assert b[4..8] == Header(lowersize);
    HeaderRead(b, 4, lowersize);
    assert b[8..8 + |k.lower|] == k.lower;
    var at := 4 + IntAlign(lowersize);
    assert b[at..] == Varlena(k.upper);
    assert b[at..at + 4] == b[at..][..4] == Header(uppersize);
    HeaderRead(b, at, uppersize);
    assert b[at + 4..] == b[at..][4..] == k.upper;
  }
}

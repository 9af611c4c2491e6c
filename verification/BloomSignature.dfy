/**
 Signatures of bloom tuples: which bits a value sets, how a row and a scan build their
 signatures, and why the word-by-word scan test never misses a matching row.
 */
module BloomSignature {
  import opened BloomRandom
  import opened Optional

  const SIGNWORDBITS := 16

  /** A signature word, bit 0 first. */
  type Word = w: seq<bool> | |w| == SIGNWORDBITS witness seq(SIGNWORDBITS, _ => false)

  const MAX_BLOOM_LENGTH := 256

  /** Index options: words in a signature, and bits set for each column. */
  datatype Options = Options(bloomLength: nat, bitSize: seq<nat>) {
    predicate Valid() {
      1 <= bloomLength <= MAX_BLOOM_LENGTH
    }

    function Width(): nat {
      bloomLength * SIGNWORDBITS
    }
  }

  // -------------------------------------------------------------------- words and bits

  /** Bitwise "and" of two words. */
  function And(t: Word, s: Word): (r: Word)
    ensures forall k :: 0 <= k < SIGNWORDBITS ==> r[k] == (t[k] && s[k])
  {
    seq(SIGNWORDBITS, k requires 0 <= k < SIGNWORDBITS => t[k] && s[k])
  }

  const ZeroWord: Word := seq(SIGNWORDBITS, _ => false)

  predicate Bit(sign: seq<Word>, i: nat)
    requires i < |sign| * SIGNWORDBITS
  {
    sign[i / SIGNWORDBITS][i % SIGNWORDBITS]
  }

  /** The bit numbers set in a signature. */
  ghost function Bits(sign: seq<Word>): set<nat> {
    set i: nat | i < |sign| * SIGNWORDBITS && Bit(sign, i)
  }

  /** The word that SETBIT stores: the old one with bit k or-ed in. */
  function OrBit(w: Word, k: nat): Word
    requires k < SIGNWORDBITS
  {
    w[k := true]
  }

  /** The scan keeps a tuple word t when it has every bit of the scan word s. */
  predicate WordIn(s: Word, t: Word) {
    And(t, s) == s
  }

  lemma SetBitAddsOne(before: seq<Word>, after: seq<Word>, i: nat)
    requires i < |before| * SIGNWORDBITS
    requires after == before[i / SIGNWORDBITS := OrBit(before[i / SIGNWORDBITS], i % SIGNWORDBITS)]
    ensures Bits(after) == Bits(before) + {i}
  {
    forall j: nat | j < |before| * SIGNWORDBITS
      ensures Bit(after, j) <==> j == i || Bit(before, j)
    {}
  }

  // ------------------------------------------------------------------- bits of a value

  function Pow2(n: nat): nat {
    if n == 0 then 1 else 2 * Pow2(n - 1)
  }

  /** Exclusive or of two n-bit numbers. */
  function XorBits(a: nat, b: nat, n: nat): (r: nat)
    ensures r < Pow2(n)
  {
    if n == 0 then 0 else (a + b) % 2 + 2 * XorBits(a / 2, b / 2, n - 1)
  }

  function Xor(a: U32, b: U32): U32 {
    Pow2At32();
    XorBits(a, b, 32)
  }

  lemma Pow2At32()
    ensures Pow2(32) == 0x1_0000_0000
  {
    assert Pow2(8) == 0x100;
    assert Pow2(16) == 0x1_0000;
    assert Pow2(24) == 0x100_0000;
  }

  /** The seed signValue ends up with for a hash value in a column. */
  function ValueSeed(hash: U32, attno: nat): U32
    requires attno < 32
  {
    SeedLiveIffNotStuck(attno);
    StepExact(Seed(attno));
    Xor(hash, Step(Seed(attno)) - 1)
  }

  /** Hash values that do not drive the generator into its stuck state. */
  predicate Signable(hash: U32, attno: nat) {
    attno < 32 && !Stuck(ValueSeed(hash, attno))
  }

  lemma {:induction false} XorBitsBack(a: nat, b: nat, n: nat)
    requires a < Pow2(n)
    ensures XorBits(XorBits(a, b, n), b, n) == a
  {
    if n > 0 {
      XorBitsBack(a / 2, b / 2, n - 1);
      LowBitBack(a, b, XorBits(a / 2, b / 2, n - 1));
    }
  }

  lemma LowBitBack(a: nat, b: nat, rest: nat)
    ensures var x := (a + b) % 2 + 2 * rest; x / 2 == rest && (x + b) % 2 == a % 2
  {
    var x := (a + b) % 2 + 2 * rest;
    assert (x + b) % 2 == ((a + b) % 2 + b) % 2;
  }

  /** Exclusive or with the same number undoes itself. */
  lemma XorBack(a: U32, b: U32)
    ensures Xor(Xor(a, b), b) == a
  {
    Pow2At32();
    XorBitsBack(a, b, 32);
  }

  /** In every column there are exactly two hash values that cannot be signed. */
  lemma StuckHashes(attno: nat) returns (one: U32, two: U32)
    requires attno < 32
    ensures one != two && forall hash: U32 :: !Signable(hash, attno) <==> hash == one || hash == two
  {
    SeedLiveIffNotStuck(attno);
    StepExact(Seed(attno));
    var r := Step(Seed(attno)) - 1;
    one, two := Xor(0xffff_ffff, r), Xor(0x8000_0001, r);
    XorBack(0xffff_ffff, r);
    XorBack(0x8000_0001, r);
    forall hash: U32 ensures !Signable(hash, attno) <==> hash == one || hash == two { XorBack(hash, r); }
  }

  /** The bits that a hashed value of a column stands for. */
  ghost function ValueBits(opts: Options, hash: U32, attno: nat): set<nat>
    requires opts.Valid() && attno < |opts.bitSize| && Signable(hash, attno)
  {
    DrawnBits(opts, Seed(ValueSeed(hash, attno)), opts.bitSize[attno])
  }

  ghost function DrawnBits(opts: Options, next: int, n: nat): set<nat>
    requires opts.Valid()
  {
    set j | 0 <= j < n :: Draws(next, n)[j] % opts.Width()
  }

  lemma DrawOne(opts: Options, next: int, n: nat)
    requires opts.Valid() && n > 0
    ensures DrawnBits(opts, next, n) ==
      {(Step(next) - 1) % opts.Width()} + DrawnBits(opts, Step(next), n - 1)
  {
    var all, rest := Draws(next, n), Draws(Step(next), n - 1);
    var w := opts.Width();
    assert all == [Step(next) - 1] + rest;
    forall b | b in DrawnBits(opts, next, n)
      ensures b in {(Step(next) - 1) % w} + DrawnBits(opts, Step(next), n - 1)
    {
      var j :| 0 <= j < n && b == all[j] % w;
      if j > 0 { assert all[j] == rest[j - 1]; }
    }
    forall b | b in DrawnBits(opts, Step(next), n - 1)
      ensures b in DrawnBits(opts, next, n)
    {
      var j :| 0 <= j < n - 1 && b == rest[j] % w;
      assert all[j + 1] == rest[j];
    }
    assert all[0] == Step(next) - 1;
  }

  /** blutils.c keeps the generator state in a static variable. */
  class Signer {
    var next: int

    constructor ()
      ensures next == 0
    {
      next := 0;
    }

    /** myRand */
    method Rand() returns (r: int)
      requires Live(next)
      modifies this
      ensures Live(next) && next == Step(old(next)) && r == next - 1
      ensures 0 <= r <= 0x7fff_fffd
    {
      StepExact(next);
      var hi := Quot(next, 127773);
      var lo := Rem(next, 127773);
      var x := 16807 * lo - 2836 * hi;
      if x < 0 { x := x + 0x7fff_ffff; }
      next := x;
      r := x - 1;
    }

    /** mySrand */
    method Srand(seed: U32)
      modifies this
      ensures next == Seed(seed) && (Live(next) <==> !Stuck(seed))
    {
      SeedLiveIffNotStuck(seed);
      next := if seed < 0x8000_0000 then seed else seed - 0x1_0000_0000;
      next := Rem(next, 0x7fff_fffe) + 1;
    }

    /** signValue: adds exactly the value's bits, whatever state the generator was in before. */
    method SignValue(opts: Options, sign: array<Word>, hash: U32, attno: nat)
      requires opts.Valid() && sign.Length == opts.bloomLength
      requires attno < |opts.bitSize| && Signable(hash, attno)
      modifies this, sign
      ensures Bits(sign[..]) == old(Bits(sign[..])) + ValueBits(opts, hash, attno)
    {
      SeedLiveIffNotStuck(attno);
      Srand(attno);
      var r := Rand();
      assert Xor(hash, r) == ValueSeed(hash, attno);
      Srand(Xor(hash, r));
      SetDrawnBits(opts, sign, opts.bitSize[attno]);
    }

    /** The loop of signValue. */
    method SetDrawnBits(opts: Options, sign: array<Word>, n: nat)
      requires opts.Valid() && sign.Length == opts.bloomLength && Live(next)
      modifies this, sign
      ensures Bits(sign[..]) == old(Bits(sign[..])) + DrawnBits(opts, old(next), n)
    {
      ghost var goal := Bits(sign[..]) + DrawnBits(opts, next, n);
      var j := 0;
      while j < n
        invariant 0 <= j <= n && Live(next)
        invariant Bits(sign[..]) + DrawnBits(opts, next, n - j) == goal
      {
        DrawOne(opts, next, n - j);
        var d := Rand();
        var nBit := d % opts.Width();
        ghost var was := sign[..];
        sign[nBit / SIGNWORDBITS] := OrBit(sign[nBit / SIGNWORDBITS], nBit % SIGNWORDBITS);
        SetBitAddsOne(was, sign[..], nBit);
        j := j + 1;
      }
    }

    /** The signature part of BloomFormTuple: `row` holds the column hashes, None for nulls. */
    method FormSignature(opts: Options, row: seq<Option<U32>>) returns (sign: array<Word>)
      requires opts.Valid() && RowSignable(opts, row)
      modifies this
      ensures fresh(sign) && sign.Length == opts.bloomLength
      ensures Bits(sign[..]) == RowBits(opts, row)
    {
      sign := new Word[opts.bloomLength](_ => ZeroWord);
      NoBits(sign[..]);
      var i := 0;
      while i < |row|
        invariant 0 <= i <= |row| && fresh(sign) && sign.Length == opts.bloomLength
        invariant Bits(sign[..]) == RowBits(opts, row[..i])
      {
        assert row[..i + 1][..i] == row[..i];
        if row[i].Some? {
          SignValue(opts, sign, row[i].value, i);
        }
        i := i + 1;
      }
      assert row[..i] == row;
    }

    /**
     The signature part of blgetbitmap.  A null scan key ends the scan with no result, which
     `ok` reports.
     */
    method ScanSignature(opts: Options, keys: seq<ScanKey>) returns (ok: bool, sign: array<Word>)
      requires opts.Valid() && KeysSignable(opts, keys)
      modifies this
      ensures fresh(sign) && sign.Length == opts.bloomLength
      ensures ok <==> NoNullKey(keys)
      ensures ok ==> Bits(sign[..]) == KeyBits(opts, keys)
    {
      sign := new Word[opts.bloomLength](_ => ZeroWord);
      NoBits(sign[..]);
      var i := 0;
      while i < |keys|
        invariant 0 <= i <= |keys| && fresh(sign) && sign.Length == opts.bloomLength
        invariant NoNullKey(keys[..i])
        invariant Bits(sign[..]) == KeyBits(opts, keys[..i])
      {
        if keys[i].hash.None? {
          return false, sign;
        }
        assert keys[..i + 1][..i] == keys[..i];
        SignValue(opts, sign, keys[i].hash.value, keys[i].attno);
        i := i + 1;
      }
      assert keys[..i] == keys;
      ok := true;
    }
  }

  lemma NoBits(sign: seq<Word>)
    requires forall i :: 0 <= i < |sign| ==> sign[i] == ZeroWord
    ensures Bits(sign) == {}
  {
    forall i: nat | i < |sign| * SIGNWORDBITS ensures !Bit(sign, i) {}
  }

  // ----------------------------------------------------------------- rows and scan keys

  ghost predicate RowSignable(opts: Options, row: seq<Option<U32>>) {
    |row| <= |opts.bitSize| &&
    forall i :: 0 <= i < |row| && row[i].Some? ==> Signable(row[i].value, i)
  }

  ghost function RowBits(opts: Options, row: seq<Option<U32>>): set<nat>
    requires opts.Valid() && RowSignable(opts, row)
  {
    if row == [] then {}
    else
      var n := |row| - 1;
      RowBits(opts, row[..n]) + if row[n].Some? then ValueBits(opts, row[n].value, n) else {}
  }

  datatype ScanKey = ScanKey(attno: nat, hash: Option<U32>)

  ghost predicate KeysSignable(opts: Options, keys: seq<ScanKey>) {
    forall i :: 0 <= i < |keys| && keys[i].hash.Some? ==>
      keys[i].attno < |opts.bitSize| && Signable(keys[i].hash.value, keys[i].attno)
  }

  ghost predicate NoNullKey(keys: seq<ScanKey>) {
    forall i :: 0 <= i < |keys| ==> keys[i].hash.Some?
  }

  ghost function KeyBits(opts: Options, keys: seq<ScanKey>): set<nat>
    requires opts.Valid() && KeysSignable(opts, keys) && NoNullKey(keys)
  {
    if keys == [] then {}
    else
      var n := |keys| - 1;
      KeyBits(opts, keys[..n]) + ValueBits(opts, keys[n].hash.value, keys[n].attno)
  }

  /** A row satisfies the scan's equality conditions as far as hashes can tell. */
  ghost predicate RowMatches(row: seq<Option<U32>>, keys: seq<ScanKey>) {
    forall i :: 0 <= i < |keys| ==>
      keys[i].hash.Some? && keys[i].attno < |row| && row[keys[i].attno] == keys[i].hash
  }

  // ------------------------------------------------------------------ the signature test

  /** The inner loop of blgetbitmap. */
  method SignatureTest(t: seq<Word>, s: seq<Word>) returns (res: bool)
    requires |t| == |s|
    ensures res <==> Bits(s) <= Bits(t)
  {
    res := true;
    var i := 0;
    while i < |s|
      invariant 0 <= i <= |s|
      invariant forall j :: 0 <= j < i ==> WordIn(s[j], t[j])
    {
      if And(t[i], s[i]) != s[i] {
        assert !WordIn(s[i], t[i]);
        WordwiseContains(t, s);
        return false;
      }
      i := i + 1;
    }
    WordwiseContains(t, s);
  }

  /** The word-by-word test is bitwise containment of the whole signatures. */
  lemma WordwiseContains(t: seq<Word>, s: seq<Word>)
    requires |t| == |s|
    ensures (forall j :: 0 <= j < |s| ==> WordIn(s[j], t[j])) <==> Bits(s) <= Bits(t)
  {
    if forall j :: 0 <= j < |s| ==> WordIn(s[j], t[j]) {
      forall i | i in Bits(s) ensures i in Bits(t) {
        assert WordIn(s[i / SIGNWORDBITS], t[i / SIGNWORDBITS]);
      }
    }
    if Bits(s) <= Bits(t) {
      forall j | 0 <= j < |s| ensures WordIn(s[j], t[j]) {
        forall k | 0 <= k < SIGNWORDBITS ensures And(t[j], s[j])[k] == s[j][k] {
          var i := j * SIGNWORDBITS + k;
          assert i / SIGNWORDBITS == j && i % SIGNWORDBITS == k;
          assert Bit(s, i) == s[j][k] && (i in Bits(s) ==> i in Bits(t));
        }
      }
    }
  }

  lemma {:induction false} RowBitsContain(opts: Options, row: seq<Option<U32>>, i: nat)
    requires opts.Valid() && RowSignable(opts, row) && i < |row| && row[i].Some?
    ensures ValueBits(opts, row[i].value, i) <= RowBits(opts, row)
  {
    if i < |row| - 1 { RowBitsContain(opts, row[..|row| - 1], i); }
  }

  /** The scan signature of a matching row is part of the row's signature: no false negatives. */
  lemma {:induction false} NoFalseNegative(opts: Options, row: seq<Option<U32>>, keys: seq<ScanKey>)
    requires opts.Valid() && RowSignable(opts, row) && RowMatches(row, keys)
    ensures KeysSignable(opts, keys)
    ensures KeyBits(opts, keys) <= RowBits(opts, row)
  {
    if keys != [] {
      var n := |keys| - 1;
      NoFalseNegative(opts, row, keys[..n]);
      RowBitsContain(opts, row, keys[n].attno);
    }
  }
}

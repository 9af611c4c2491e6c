/**
 The bit generator of bloom indexes: Park and Miller's minimal standard generator in 32-bit
 signed arithmetic, as used by signValue.
 */
module BloomRandom {

  const MODULUS := 0x7fff_ffff

  type U32 = x: int | 0 <= x < 0x1_0000_0000

  predicate Int32(x: int) {
    -0x8000_0000 <= x < 0x8000_0000
  }

  /** C division of a signed integer by a positive constant truncates toward zero. */
  function Quot(x: int, d: int): int
    requires d > 0
  {
    if x >= 0 then x / d else -(-x / d)
  }

  function Rem(x: int, d: int): int
    requires d > 0
  {
    x - Quot(x, d) * d
  }

  /** A generator state that mySrand can leave behind, except for zero. */
  predicate Live(next: int) {
    next != 0 && -MODULUS < next < MODULUS
  }

  /** The state after one call of myRand; the call returns it minus one. */
  function Step(next: int): int {
    var x := 16807 * Rem(next, 127773) - 2836 * Quot(next, 127773);
    if x < 0 then x + MODULUS else x
  }

  /** mySrand: the unsigned seed becomes a signed int before the remainder is taken. */
  function Seed(seed: U32): int {
    var next := if seed < 0x8000_0000 then seed else seed - 0x1_0000_0000;
    Rem(next, 0x7fff_fffe) + 1
  }

  /** Schrage's trick: no intermediate value leaves 32 bits and the result is exact. */
  lemma StepExact(next: int)
    requires Live(next)
    ensures Int32(16807 * Rem(next, 127773)) && Int32(2836 * Quot(next, 127773))
    ensures Int32(16807 * Rem(next, 127773) - 2836 * Quot(next, 127773))
    ensures 1 <= Step(next) <= MODULUS - 1
    ensures Step(next) == (16807 * next) % MODULUS
  {
    var hi, lo := Quot(next, 127773), Rem(next, 127773);
    var x := 16807 * lo - 2836 * hi;
    assert next == 127773 * hi + lo;
    assert MODULUS == 127773 * 16807 + 2836;
    assert 16807 * next - MODULUS * hi == x;
    assert -127773 < lo < 127773 && (next > 0 ==> lo >= 0 && hi >= 0) && (next < 0 ==> lo <= 0 && hi <= 0);
    assert -16807 <= hi <= 16807;
    if x == 0 { NoZeroImage(hi, lo); }
    if x > 0 {
      ModUnique(16807 * next, hi, x);
    } else {
      ModUnique(16807 * next, hi - 1, x + MODULUS);
    }
  }

  lemma ModUnique(a: int, q: int, r: int)
    requires a == MODULUS * q + r && 0 <= r < MODULUS
    ensures a % MODULUS == r
  {}

  /** 16807 and 2836 share no factor, so the two products only meet outside the range. */
  lemma NoZeroImage(hi: int, lo: int)
    requires 16807 * lo == 2836 * hi && -16807 <= hi <= 16807
    ensures hi == 0 || hi == 16807 || hi == -16807
    ensures hi == 0 ==> lo == 0
    ensures hi == 16807 ==> lo == 2836
    ensures hi == -16807 ==> lo == -2836
  {
    // -977 * 16807 + 5790 * 2836 == 1, so hi is a multiple of 16807
    var k := -977 * hi + 5790 * lo;
    assert hi == 16807 * k;
    assert -1 <= k <= 1;
  }

  /** The seeds after which the generator is stuck at zero and returns -1 for ever. */
  predicate Stuck(seed: U32) {
    seed == 0xffff_ffff || seed == 0x8000_0001
  }

  /** mySrand leaves a usable state exactly when the seed is not one of the two stuck ones. */
  lemma SeedLiveIffNotStuck(seed: U32)
    ensures Live(Seed(seed)) <==> !Stuck(seed)
    ensures Stuck(seed) ==> Seed(seed) == 0
  {
    if seed < 0x8000_0000 {
      assert 0 <= Rem(seed, 0x7fff_fffe) < 0x7fff_fffe;
    } else {
      var n := 0x1_0000_0000 - seed;
      assert 0 < n <= 0x8000_0000;
      assert n / 0x7fff_fffe == if n < 0x7fff_fffe then 0 else 1;
      assert Seed(seed) == 1 - (if n < 0x7fff_fffe then n else n - 0x7fff_fffe);
    }
  }

  lemma ZeroStays()
    ensures Step(0) == 0
  {}

  /** From a stuck seed every later draw is -1, which is no bit number. */
  lemma {:induction false} StuckForever(n: nat, i: nat)
    requires i < n
    ensures Step(0) == 0 && Draws(0, n)[i] == -1
  {
    ZeroStays();
    DrawsOfFixed(0, n, i);
  }

  lemma {:induction false} DrawsOfFixed(next: int, n: nat, i: nat)
    requires Step(next) == next && i < n
    ensures Draws(next, n)[i] == next - 1
  {
    if i > 0 { DrawsOfFixed(next, n - 1, i - 1); }
  }

  /** The values of n successive calls of myRand. */
  function Draws(next: int, n: nat): (r: seq<int>)
    ensures |r| == n
    decreases n
  {
    if n == 0 then [] else [Step(next) - 1] + Draws(Step(next), n - 1)
  }

  /** From a live state every draw is in [0, 0x7ffffffd]. */
  lemma {:induction false} DrawsInRange(next: int, n: nat)
    requires Live(next)
    ensures forall i :: 0 <= i < n ==> 0 <= Draws(next, n)[i] <= 0x7fff_fffd
    decreases n
  {
    if n > 0 {
      StepExact(next);
      DrawsInRange(Step(next), n - 1);
    }
  }
}

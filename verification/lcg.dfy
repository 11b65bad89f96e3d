/**
  The linear congruential generator behind the test-sequence generator, and
  the full-period theorem for a power-of-two modulus (Hull and Dobell): with
  seed = 1 (mod 4) and an odd offset, the first `modulus` states of every
  orbit are pairwise different, so they run through all of [0, modulus).
*/
module Lcg {
  import opened Numeric
  import opened PowerOfTwo
  import opened ModArith
  import opened SeqFacts

  /** x -> (seed * x + offset) mod modulus */
  datatype Params = Params(seed: nat, offset: nat, modulus: nat)

  /** The Hull-Dobell conditions for a power-of-two modulus. */
  predicate HullDobell(g: Params)
  {
    IsPow2(g.modulus) && g.seed % 4 == 1 && g.offset % 2 == 1
  }

  /** One step in exact arithmetic. */
  function Next(g: Params, v: nat): (r: nat)
    requires g.modulus > 0
  {
    (g.seed * v + g.offset) % g.modulus
  }

  /** One step as the program computes it on `uint`: the product and the sum
      both wrap around at 2^32 before the remainder is taken. */
  function StepU32(g: Params, v: u32): (r: nat)
    requires g.modulus > 0 && g.seed < TwoTo32 && g.offset < TwoTo32
    ensures r < g.modulus
  {
    ((v * g.seed) % TwoTo32 + g.offset) % TwoTo32 % g.modulus
  }

  /** Because a power-of-two modulus divides 2^32, the wrap-around of the
      32-bit product and sum never changes the next state. */
  lemma WrapIsHarmless(g: Params, v: u32)
    requires IsPow2(g.modulus) && g.modulus <= TwoTo32
    requires g.seed < TwoTo32 && g.offset < TwoTo32
    ensures StepU32(g, v) == Next(g, v)
  {
    var m := g.modulus;
    Pow2DividesTwoTo32(m);
    var q := Pow2(32 - Log2(m));
    var x := v * g.seed;
    assert TwoTo32 == m * q;
    assert StepU32(g, v) == ((x % (m * q)) + g.offset) % (m * q) % m;
    WrapSum(x, g.offset, m, q);
    assert x == g.seed * v;
  }

  /** The state after t steps from v. */
  function Orbit(g: Params, v: nat, t: nat): (r: nat)
    requires g.modulus > 0
    ensures t > 0 ==> r < g.modulus
  {
    if t == 0 then v else Next(g, Orbit(g, v, t - 1))
  }

  // ---------------------------------------------------------------------
  // Closed forms over the integers, without reduction.

  /** a^i */
  function Power(a: nat, i: nat): nat
  {
    if i == 0 then 1 else a * Power(a, i - 1)
  }

  /** 1 + a + ... + a^(k-1) */
  function Geometric(a: nat, k: nat): nat
  {
    if k == 0 then 0 else a * Geometric(a, k - 1) + 1
  }

  /** The unreduced state after k steps. */
  function Unreduced(g: Params, v: nat, k: nat): nat
  {
    if k == 0 then v else g.seed * Unreduced(g, v, k - 1) + g.offset
  }

  lemma {:induction false} OrbitIsUnreducedMod(g: Params, v: nat, k: nat)
    requires g.modulus > 0 && v < g.modulus
    ensures Orbit(g, v, k) == Unreduced(g, v, k) % g.modulus
  {
    if k == 0 {
      ModUnique(v, g.modulus, 0, v);
    } else {
      OrbitIsUnreducedMod(g, v, k - 1);
      ModAffine(g.seed, Unreduced(g, v, k - 1), g.offset, g.modulus);
    }
  }

  /** After d steps the state has moved by Geometric(seed, d) times
      (seed - 1) * v + offset. */
  lemma {:induction false} UnreducedDrift(g: Params, v: nat, d: nat)
    requires g.seed >= 1
    ensures Unreduced(g, v, d) - v == Geometric(g.seed, d) * ((g.seed - 1) * v + g.offset)
  {
    if d > 0 {
      UnreducedDrift(g, v, d - 1);
      var a, w := g.seed, (g.seed - 1) * v + g.offset;
      var u, s := Unreduced(g, v, d - 1), Geometric(g.seed, d - 1);
      assert u - v == s * w;
      assert Unreduced(g, v, d) == a * u + g.offset;
      assert Geometric(a, d) == a * s + 1;
      MulSub(a, u, v);
      MulPred(a, v);
      assert Unreduced(g, v, d) - v == a * (u - v) + w;
      assert a * (u - v) == a * (s * w);
      MulAddOne(a, s, w);
    }
  }

  /** The distance between the states after i and after i + d steps. */
  lemma {:induction false} UnreducedGap(g: Params, v: nat, i: nat, d: nat)
    requires g.seed >= 1
    ensures Unreduced(g, v, i + d) - Unreduced(g, v, i)
         == Power(g.seed, i) * (Geometric(g.seed, d) * ((g.seed - 1) * v + g.offset))
  {
    if i == 0 {
      UnreducedDrift(g, v, d);
    } else {
      UnreducedGap(g, v, i - 1, d);
      var a, x := g.seed, Geometric(g.seed, d) * ((g.seed - 1) * v + g.offset);
      var hi, lo := Unreduced(g, v, i - 1 + d), Unreduced(g, v, i - 1);
      var p := Power(a, i - 1);
      assert hi - lo == p * x;
      assert i + d - 1 == i - 1 + d;
      assert Unreduced(g, v, i + d) == a * hi + g.offset;
      assert Unreduced(g, v, i) == a * lo + g.offset;
      MulSub(a, hi, lo);
      MulAssoc(a, p, x);
      assert Power(a, i) == a * p;
    }
  }

  lemma {:induction false} GeometricSplit(a: nat, p: nat, q: nat)
    ensures Geometric(a, p + q) == Power(a, q) * Geometric(a, p) + Geometric(a, q)
  {
    if q > 0 {
      GeometricSplit(a, p, q - 1);
      var gp, pq, gq := Geometric(a, p), Power(a, q - 1), Geometric(a, q - 1);
      assert p + q - 1 == p + (q - 1);
      assert Geometric(a, p + q) == a * (pq * gp + gq) + 1;
      MulAdd(a, pq * gp, gq);
      MulAssoc(a, pq, gp);
    }
  }

  lemma {:induction false} GeometricParity(a: nat, k: nat)
    requires a % 2 == 1
    ensures Geometric(a, k) % 2 == k % 2
  {
    if k > 0 {
      GeometricParity(a, k - 1);
      var s := Geometric(a, k - 1);
      if s % 2 == 1 {
        OddTimesOdd(a, s);
        var h := (a * s) / 2;
        assert a * s == 2 * h + 1;
        ModUnique(a * s + 1, 2, h + 1, 0);
      } else {
        OddTimesEven(a, s);
        var h := (a * s) / 2;
        assert a * s == 2 * h;
        ModUnique(a * s + 1, 2, h, 1);
      }
    }
  }

  lemma {:induction false} PowerMod4(a: nat, i: nat)
    requires a % 4 == 1
    ensures Power(a, i) % 4 == 1
  {
    if i > 0 {
      PowerMod4(a, i - 1);
      var s, t := a / 4, Power(a, i - 1) / 4;
      assert a == 4 * s + 1 && Power(a, i - 1) == 4 * t + 1;
      assert Power(a, i) == 4 * (4 * s * t + s + t) + 1;
      ModUnique(Power(a, i), 4, 4 * s * t + s + t, 1);
    }
  }

  lemma Mod4IsOdd(x: int)
    requires x % 4 == 1
    ensures x % 2 == 1
  {
    ModUnique(x, 2, 2 * (x / 4), 1);
  }

  /** A multiple of 2^e (e > 0) is even. */
  lemma DivisibleIsEven(x: int, e: nat)
    requires e > 0 && x % Pow2(e) == 0
    ensures x % 2 == 0
  {
    var n, n' := Pow2(e), Pow2(e - 1);
    var k := x / n;
    assert x == n * k;
    assert n * k == 2 * (n' * k) by { MulAssoc(2, n', k); }
    ModUnique(x, 2, n' * k, 0);
  }

  /** 2^e divides 2x exactly when 2^(e-1) divides x. */
  lemma HalveDivisibility(x: int, e: nat)
    requires e > 0
    ensures (2 * x) % Pow2(e) == 0 <==> x % Pow2(e - 1) == 0
  {
    var n, n' := Pow2(e), Pow2(e - 1);
    if (2 * x) % n == 0 {
      var k := (2 * x) / n;
      assert 2 * x == n * k;
      assert n * k == 2 * (n' * k) by { MulAssoc(2, n', k); }
      ModUnique(x, n', k, 0);
    }
    if x % n' == 0 {
      var k := x / n';
      assert x == n' * k;
      assert 2 * x == n * k by { MulAssoc(2, n', k); }
      ModUnique(2 * x, n, k, 0);
    }
  }

  /** An odd factor cannot contribute to divisibility by a power of two. */
  lemma {:induction false} OddFactor(u: int, y: int, e: nat)
    requires u % 2 == 1
    requires (u * y) % Pow2(e) == 0
    ensures y % Pow2(e) == 0
    decreases e
  {
    if e == 0 {
      ModUnique(y, 1, y, 0);
    } else {
      DivisibleIsEven(u * y, e);
      if y % 2 == 1 {
        OddTimesOdd(u, y);
        assert false;
      }
      var y' := y / 2;
      assert y == 2 * y';
      assert u * y == 2 * (u * y') by { MulAssoc(u, 2, y'); MulAssoc(2, u, y'); }
      HalveDivisibility(u * y', e);
      OddFactor(u, y', e - 1);
      HalveDivisibility(y', e);
    }
  }

  /** For a = 1 (mod 4): 1 + a + ... + a^(2h-1) is twice an odd number times
      1 + a + ... + a^(h-1). */
  lemma GeometricDouble(a: nat, h: nat) returns (u: int)
    requires a % 4 == 1
    ensures u % 2 == 1
    ensures Geometric(a, h + h) == 2 * (u * Geometric(a, h))
  {
    GeometricSplit(a, h, h);
    var p, gh := Power(a, h), Geometric(a, h);
    PowerMod4(a, h);
    u := 2 * (p / 4) + 1;
    assert p == 4 * (p / 4) + 1;
    assert p + 1 == 2 * u;
    ModUnique(u, 2, p / 4, 1);
    assert Geometric(a, h + h) == p * gh + gh;
    MulSucc(p, gh);
    MulAssoc(2, u, gh);
  }

  /** The core of the theorem: 1 + a + ... + a^(d-1) is not a multiple of 2^e
      when 0 < d < 2^e and a = 1 (mod 4). */
  lemma {:induction false} GeometricNotDivisible(a: nat, d: nat, e: nat)
    requires a % 4 == 1
    requires 0 < d < Pow2(e)
    ensures Geometric(a, d) % Pow2(e) != 0
    decreases d
  {
    assert e > 0;
    var s := Geometric(a, d);
    if s % Pow2(e) == 0 {
      DivisibleIsEven(s, e);
      if d % 2 == 1 {
        Mod4IsOdd(a);
        GeometricParity(a, d);
        assert false;
      } else {
        var h := d / 2;
        assert d == h + h;
        var u := GeometricDouble(a, h);
        var gh := Geometric(a, h);
        HalveDivisibility(u * gh, e);
        OddFactor(u, gh, e - 1);
        GeometricNotDivisible(a, h, e - 1);
        assert false;
      }
    }
  }

  /** (seed - 1) * v + offset is odd under the Hull-Dobell conditions. */
  lemma DriftIsOdd(a: nat, v: nat, c: nat)
    requires a % 4 == 1 && c % 2 == 1
    ensures ((a - 1) * v + c) % 2 == 1
  {
    var s := a / 4;
    assert a - 1 == 4 * s;
    assert (a - 1) * v == 2 * (2 * s * v) by {
      MulAssoc(4, s, v);
      MulAssoc(2, 2 * s, v);
    }
    ModUnique((a - 1) * v + c, 2, 2 * s * v + c / 2, 1);
  }

  /** Hull-Dobell: the first `modulus` states of an orbit are pairwise different. */
  lemma FullPeriod(g: Params, v: nat, i: nat, j: nat)
    requires HullDobell(g) && v < g.modulus
    requires i < j < g.modulus
    ensures Orbit(g, v, i) != Orbit(g, v, j)
  {
    var m, a, e, d := g.modulus, g.seed, Log2(g.modulus), j - i;
    var w := (a - 1) * v + g.offset;
    OrbitIsUnreducedMod(g, v, i);
    OrbitIsUnreducedMod(g, v, j);
    SameRemainder(Unreduced(g, v, j), Unreduced(g, v, i), m);
    if Orbit(g, v, i) == Orbit(g, v, j) {
      assert i + d == j;
      UnreducedGap(g, v, i, d);
      var p, s := Power(a, i), Geometric(a, d);
      assert Unreduced(g, v, j) - Unreduced(g, v, i) == p * (s * w);
      DriftIsOdd(a, v, g.offset);
      PowerMod4(a, i);
      Mod4IsOdd(p);
      OddTimesOdd(p, w);
      MulSwap(p, s, w);
      OddFactor(p * w, s, e);
      GeometricNotDivisible(a, d, e);
      assert false;
    }
  }

  /** ... and therefore they are all of [0, modulus). */
  lemma OrbitCovers(g: Params, v: nat, x: nat)
    requires HullDobell(g) && v < g.modulus && x < g.modulus
    ensures exists i :: 0 <= i < g.modulus && Orbit(g, v, i) == x
  {
    var m := g.modulus;
    var s := seq(m, i requires 0 <= i < m => Orbit(g, v, i) as int);
    forall i, j | 0 <= i < j < |s|
      ensures s[i] != s[j]
    {
      FullPeriod(g, v, i, j);
    }
    DistinctFillsInterval(s, 0, m);
    assert x in s;
  }
}

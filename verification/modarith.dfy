/**
  Remainder arithmetic for a positive modulus, stated once here so that the
  generator's proofs can work on whole multiples instead of on `%`.
*/
module ModArith {

  /** The remainder is the unique r in [0, m) with x == m * q + r. */
  lemma ModUnique(x: int, m: int, q: int, r: int)
    requires m > 0 && 0 <= r < m && x == m * q + r
    ensures x % m == r && x / m == q
  {
    var q', r' := x / m, x % m;
    assert x == m * q' + r';
    assert m * q - m * q' == r' - r;
    if q > q' {
      assert m * (q - q') == m * q - m * q';
      MulAtLeast(m, q - q');
    } else if q < q' {
      assert m * (q' - q) == m * q' - m * q;
      MulAtLeast(m, q' - q);
    }
  }

  lemma {:induction false} MulAtLeast(m: int, d: int)
    requires m > 0 && d >= 1
    ensures m * d >= m
    decreases d
  {
    if d > 1 {
      MulAtLeast(m, d - 1);
      assert m * d == m * (d - 1) + m;
    }
  }

  lemma ModAddMultiple(x: int, m: int, k: int)
    requires m > 0
    ensures (x + m * k) % m == x % m
  {
    assert x + m * k == m * (x / m + k) + x % m;
    ModUnique(x + m * k, m, x / m + k, x % m);
  }

  /** Reducing modulo a multiple of m first does not change the remainder mod m. */
  lemma ModOfMultipleMod(x: int, m: int, q: int)
    requires m > 0 && q > 0
    ensures (x % (m * q)) % m == x % m
  {
    var n := m * q;
    assert x % n == x + m * (-(q * (x / n))) by {
      assert x == n * (x / n) + x % n;
      assert n * (x / n) == m * (q * (x / n));
    }
    ModAddMultiple(x, m, -(q * (x / n)));
  }

  /** Multiplying and adding commute with reduction modulo m. */
  lemma ModAffine(a: int, x: int, c: int, m: int)
    requires m > 0
    ensures (a * (x % m) + c) % m == (a * x + c) % m
  {
    assert a * x + c == a * (x % m) + c + m * (a * (x / m)) by {
      assert x == m * (x / m) + x % m;
      assert a * x == a * (m * (x / m)) + a * (x % m);
    }
    ModAddMultiple(a * (x % m) + c, m, a * (x / m));
  }

  /** Two numbers leave the same remainder exactly when m divides their difference. */
  lemma SameRemainder(x: int, y: int, m: int)
    requires m > 0
    ensures x % m == y % m <==> (x - y) % m == 0
  {
    assert x - y == m * (x / m - y / m) + (x % m - y % m) by {
      assert x == m * (x / m) + x % m;
      assert y == m * (y / m) + y % m;
    }
    if x % m == y % m {
      ModUnique(x - y, m, x / m - y / m, 0);
    } else if x % m > y % m {
      ModUnique(x - y, m, x / m - y / m, x % m - y % m);
    } else {
      ModUnique(x - y, m, x / m - y / m - 1, m + x % m - y % m);
    }
  }

  /** An odd number times an odd number is odd. */
  lemma OddTimesOdd(u: int, v: int)
    requires u % 2 == 1 && v % 2 == 1
    ensures (u * v) % 2 == 1
  {
    var s, t := u / 2, v / 2;
    assert u == 2 * s + 1 && v == 2 * t + 1;
    assert u * v == 2 * (2 * s * t + s + t) + 1;
    ModUnique(u * v, 2, 2 * s * t + s + t, 1);
  }

  /** An odd number times an even number is even. */
  lemma OddTimesEven(u: int, v: int)
    requires v % 2 == 0
    ensures (u * v) % 2 == 0
  {
    var t := v / 2;
    assert v == 2 * t;
    assert u * v == 2 * (u * t);
    ModUnique(u * v, 2, u * t, 0);
  }

  /** Reducing modulo m * q after an addition does not change the remainder mod m. */
  lemma WrapSum(x: int, c: int, m: int, q: int)
    requires m > 0 && q > 0
    ensures ((x % (m * q)) + c) % (m * q) % m == (x + c) % m
  {
    var n := m * q;
    var y := x % n + c;
    ModOfMultipleMod(y, m, q);
    assert x + c == y + m * (q * (x / n)) by {
      assert x == n * (x / n) + x % n;
      assert n * (x / n) == m * (q * (x / n));
    }
    ModAddMultiple(y, m, q * (x / n));
  }

  // Ring identities, stated separately so that each proof step sees only
  // the one it needs.

  lemma MulSub(a: int, x: int, y: int)
    ensures a * x - a * y == a * (x - y)
  {
  }

  lemma MulAssoc(a: int, b: int, c: int)
    ensures a * (b * c) == (a * b) * c
  {
  }

  lemma MulSwap(p: int, s: int, w: int)
    ensures p * (s * w) == (p * w) * s
  {
  }

  lemma MulAddOne(a: int, s: int, w: int)
    ensures a * (s * w) + w == (a * s + 1) * w
  {
  }

  lemma MulPred(a: int, v: int)
    ensures (a - 1) * v == a * v - v
  {
  }

  lemma MulSucc(p: int, g: int)
    ensures p * g + g == (p + 1) * g
  {
  }

  lemma MulAdd(a: int, x: int, y: int)
    ensures a * (x + y) == a * x + a * y
  {
  }
}

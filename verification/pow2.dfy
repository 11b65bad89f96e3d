/**
  Powers of two and base-2 logarithms on unbounded naturals. BitonicSortGPU
  computes these with single-precision floats; this module gives their exact
  integer meaning.
*/
module PowerOfTwo {

  /** 2^e */
  function Pow2(e: nat): (p: nat)
    ensures p >= 1
  {
    if e == 0 then 1 else 2 * Pow2(e - 1)
  }

  /** p is 2^e for some e. */
  predicate IsPow2(p: nat)
  {
    p == 1 || (p >= 2 && p % 2 == 0 && IsPow2(p / 2))
  }

  /** The exponent of a power of two. */
  function Log2(p: nat): (e: nat)
    requires IsPow2(p)
    ensures Pow2(e) == p
  {
    if p == 1 then 0 else 1 + Log2(p / 2)
  }

  /** The least e with x <= 2^e (0 for x <= 1). */
  function CeilLog2(x: nat): (c: nat)
    ensures x <= Pow2(c)
    ensures c > 0 ==> Pow2(c - 1) < x
  {
    if x <= 1 then 0 else 1 + CeilLog2((x + 1) / 2)
  }

  lemma {:induction false} Pow2IsPow2(e: nat)
    ensures IsPow2(Pow2(e))
  {
    if e > 0 {
      Pow2IsPow2(e - 1);
      assert Pow2(e) / 2 == Pow2(e - 1);
    }
  }

  lemma {:induction false} Pow2Monotone(a: nat, b: nat)
    ensures a <= b <==> Pow2(a) <= Pow2(b)
    decreases a + b
  {
    if a > 0 && b > 0 {
      Pow2Monotone(a - 1, b - 1);
    } else if a > 0 {
      Pow2AtLeastTwo(a);
    } else if b > 0 {
      Pow2AtLeastTwo(b);
    }
  }

  lemma {:induction false} Pow2AtLeastTwo(e: nat)
    requires e > 0
    ensures Pow2(e) >= 2
  {
  }

  lemma {:induction false} Pow2Add(a: nat, b: nat)
    ensures Pow2(a + b) == Pow2(a) * Pow2(b)
  {
    if a > 0 {
      Pow2Add(a - 1, b);
      assert Pow2(a + b) == 2 * Pow2(a - 1 + b);
    }
  }

  /** CeilLog2 is exactly the threshold at which 2^e reaches x. */
  lemma {:induction false} CeilLog2Threshold(x: nat, e: nat)
    ensures x <= Pow2(e) <==> CeilLog2(x) <= e
  {
    var c := CeilLog2(x);
    Pow2Monotone(c, e);
    if c > 0 {
      Pow2Monotone(e, c - 1);
    }
  }

  lemma {:induction false} CeilLog2OfPow2(e: nat)
    ensures CeilLog2(Pow2(e)) == e
  {
    CeilLog2Threshold(Pow2(e), e);
    if e > 0 {
      CeilLog2Threshold(Pow2(e), e - 1);
      assert Pow2(e) == 2 * Pow2(e - 1);
    }
  }

  /** A power of two of at most 2^32 divides 2^32. */
  lemma {:induction false} Pow2DividesTwoTo32(m: nat)
    requires IsPow2(m) && m <= 0x1_0000_0000
    ensures Log2(m) <= 32 && 0x1_0000_0000 == m * Pow2(32 - Log2(m))
  {
    var e := Log2(m);
    Pow2Value32();
    Pow2Monotone(e, 32);
    Pow2Add(e, 32 - e);
  }

  lemma {:induction false} Pow2Value32()
    ensures Pow2(32) == 0x1_0000_0000
  {
    assert Pow2(1) == 2;
    Pow2Add(1, 1);
    Pow2Add(2, 2);
    Pow2Add(4, 4);
    Pow2Add(8, 8);
    Pow2Add(16, 16);
  }
}

/**
  `GenerateRandomSequence`: the test input of the sort. It runs the
  generator of module Lcg from a random start over [0, modulus), keeps the
  states that are at most `maximum = length - 1`, and stores each kept state
  plus one, until `length` values are stored. The two random draws of the
  program are parameters here.
*/
module Generator {
  import opened Numeric
  import opened PowerOfTwo
  import opened SeqFacts
  import opened Lcg
  import opened Padder

  /** The longest sequence the generator produces; longer requests are clamped. */
  const MaxLength: nat := 2097152

  /** The number of values produced for a requested length: 0 asks for 4,
      and a request above MaxLength is clamped to it. */
  function EffectiveLength(length: u32): (n: nat)
    ensures 1 <= n <= MaxLength
    ensures length == 0 ==> n == 4
    ensures length != 0 ==> n <= length
    ensures 0 < length <= MaxLength ==> n == length
    ensures length > MaxLength ==> n == MaxLength
  {
    if length == 0 then 4 else if length > MaxLength then MaxLength else length
  }

  /** The multiplier: maximum rounded down to a multiple of 4, plus 1, so that
      it is 1 modulo 4 as the full-period theorem asks. */
  function SeedFor(maximum: nat): (a: nat)
    ensures a % 4 == 1 && maximum - 2 <= a <= maximum + 1
  {
    4 * (maximum / 4) + 1
  }

  /** The increment: twice a draw plus 1, so that it is odd. */
  function OffsetFor(draw: nat): (c: nat)
    ensures c % 2 == 1 && c > draw
  {
    draw * 2 + 1
  }

  /** 1, 2, ..., |s| in some order. */
  predicate IsPermutationOfOneTo(s: seq<int>)
  {
    && Distinct(s)
    && (forall i :: 0 <= i < |s| ==> 1 <= s[i] <= |s|)
    && (forall x :: 1 <= x <= |s| ==> x in s)
  }

  // ---------------------------------------------------------------------
  // What the loop has stored after t steps of the generator.

  /** The states among the first t of the orbit that are at most maximum,
      each plus one, in orbit order. */
  function Emitted(g: Params, maximum: nat, v: nat, t: nat): (s: seq<int>)
    requires g.modulus > 0
    ensures |s| <= t
    ensures forall i :: 0 <= i < |s| ==> 1 <= s[i] <= maximum + 1
  {
    if t == 0 then []
    else
      var o := Orbit(g, v, t - 1);
      Emitted(g, maximum, v, t - 1) + (if o <= maximum then [o + 1] else [])
  }

  /** Every state at most maximum among the first t is stored, plus one. */
  lemma {:induction false} EmittedHas(g: Params, maximum: nat, v: nat, t: nat, i: nat)
    requires g.modulus > 0 && i < t && Orbit(g, v, i) <= maximum
    ensures Orbit(g, v, i) + 1 in Emitted(g, maximum, v, t)
  {
    var p, o := Emitted(g, maximum, v, t - 1), Orbit(g, v, t - 1);
    var tail := if o <= maximum then [o + 1] else [];
    assert Emitted(g, maximum, v, t) == p + tail;
    if i < t - 1 {
      EmittedHas(g, maximum, v, t - 1, i);
    } else {
      assert tail == [o + 1];
    }
  }

  /** ... and nothing else is: every stored value is one more than such a state. */
  lemma {:induction false} EmittedSource(g: Params, maximum: nat, v: nat, t: nat, x: int) returns (i: nat)
    requires g.modulus > 0 && x in Emitted(g, maximum, v, t)
    ensures i < t && Orbit(g, v, i) <= maximum && x == Orbit(g, v, i) + 1
  {
    var p, o := Emitted(g, maximum, v, t - 1), Orbit(g, v, t - 1);
    var tail := if o <= maximum then [o + 1] else [];
    assert Emitted(g, maximum, v, t) == p + tail;
    if x in p {
      i := EmittedSource(g, maximum, v, t - 1, x);
    } else {
      assert x in tail;
      i := t - 1;
    }
  }

  /** Within one period nothing is stored twice. */
  lemma {:induction false} EmittedDistinct(g: Params, maximum: nat, v: nat, t: nat)
    requires HullDobell(g) && v < g.modulus && t <= g.modulus
    ensures Distinct(Emitted(g, maximum, v, t))
  {
    if t > 0 {
      var p, o := Emitted(g, maximum, v, t - 1), Orbit(g, v, t - 1);
      EmittedDistinct(g, maximum, v, t - 1);
      if o <= maximum {
        if o + 1 in p {
          var i := EmittedSource(g, maximum, v, t - 1, o + 1);
          FullPeriod(g, v, i, t - 1);
          assert false;
        }
        DistinctAppend(p, o + 1);
      }
    }
  }

  /** One full period stores every value of [1, maximum + 1] when maximum is
      below the modulus. */
  lemma EmittedCovers(g: Params, maximum: nat, v: nat, x: int)
    requires HullDobell(g) && v < g.modulus && maximum < g.modulus && 1 <= x <= maximum + 1
    ensures x in Emitted(g, maximum, v, g.modulus)
  {
    OrbitCovers(g, v, x - 1);
    var i :| 0 <= i < g.modulus && Orbit(g, v, i) == x - 1;
    EmittedHas(g, maximum, v, g.modulus, i);
  }

  /** ... so it stores at least maximum + 1 values. */
  lemma EmittedComplete(g: Params, maximum: nat, v: nat)
    requires HullDobell(g) && v < g.modulus && maximum < g.modulus
    ensures |Emitted(g, maximum, v, g.modulus)| >= maximum + 1
  {
    var s := Emitted(g, maximum, v, g.modulus);
    forall x | 1 <= x < maximum + 2
      ensures x in s
    {
      EmittedCovers(g, maximum, v, x);
    }
    CoveredInterval(s, 1, maximum + 2);
  }

  /** When the start and the modulus are both at most k, no stored value
      exceeds k. */
  lemma {:induction false} EmittedBelow(g: Params, maximum: nat, v: nat, t: nat, k: nat)
    requires 0 < g.modulus <= k && v < k
    ensures forall i :: 0 <= i < |Emitted(g, maximum, v, t)| ==> Emitted(g, maximum, v, t)[i] <= k
  {
    if t > 0 {
      EmittedBelow(g, maximum, v, t - 1, k);
    }
  }

  /** What maximum + 1 stored values are, once the loop has stored them:
      within one period and with a modulus above maximum, a permutation; with a
      modulus equal to maximum and a start below it, a sequence without
      maximum + 1 and with a repeat. */
  lemma StoredOutcome(g: Params, maximum: nat, v0: nat, t: nat)
    requires HullDobell(g) && maximum <= g.modulus && v0 <= maximum
    requires |Emitted(g, maximum, v0, t)| == maximum + 1
    requires maximum < g.modulus ==> t <= g.modulus
    ensures maximum < g.modulus ==> IsPermutationOfOneTo(Emitted(g, maximum, v0, t))
    ensures g.modulus == maximum && v0 < maximum ==>
      maximum + 1 !in Emitted(g, maximum, v0, t) && !Distinct(Emitted(g, maximum, v0, t))
  {
    var s := Emitted(g, maximum, v0, t);
    if maximum < g.modulus {
      EmittedDistinct(g, maximum, v0, t);
      DistinctFillsInterval(s, 1, maximum + 2);
    }
    if g.modulus == maximum && v0 < maximum {
      EmittedBelow(g, maximum, v0, t, maximum);
      CrowdedRepeats(s, 1, maximum + 1);
    }
  }

  /** One turn of the loop: the 32-bit step moves the orbit on by one, and
      the stored values grow by the current state plus one when it is at most
      maximum. */
  lemma StoreStep(g: Params, maximum: nat, v0: nat, t: nat)
    requires IsPow2(g.modulus) && g.modulus <= TwoTo32 && g.seed < TwoTo32 && g.offset < TwoTo32
    requires Orbit(g, v0, t) < TwoTo32
    ensures Orbit(g, v0, t + 1) == StepU32(g, Orbit(g, v0, t))
    ensures Emitted(g, maximum, v0, t + 1)
         == Emitted(g, maximum, v0, t) + (if Orbit(g, v0, t) <= maximum then [Orbit(g, v0, t) + 1] else [])
  {
    WrapIsHarmless(g, Orbit(g, v0, t));
  }

  /** The loop of `GenerateRandomSequence` with its 32-bit arithmetic, for a
      power-of-two modulus of at least maximum. With a modulus above maximum
      the result is a permutation of 1..maximum+1. With a modulus equal to
      maximum and a start below it, maximum + 1 never appears, so some value
      appears twice. */
  method RunLcg(g: Params, maximum: nat, v0: nat) returns (s: seq<u32>)
    requires HullDobell(g) && g.modulus <= TwoTo32 && g.seed < TwoTo32 && g.offset < TwoTo32
    requires maximum < MaxLength && maximum <= g.modulus && v0 <= maximum
    ensures |s| == maximum + 1
    ensures forall i :: 0 <= i < |s| ==> 1 <= s[i] <= maximum + 1
    ensures maximum < g.modulus ==> IsPermutationOfOneTo(s)
    ensures g.modulus == maximum && v0 < maximum ==> maximum + 1 !in s && !Distinct(s)
    ensures g.modulus <= maximum ==> s == Emitted(g, maximum, v0, maximum + 1)
  {
    var value: u32 := v0;
    var count: nat := 0;
    s := [];
    ghost var t: nat := 0;
    while count <= maximum
      invariant value == Orbit(g, v0, t)
      invariant s == Emitted(g, maximum, v0, t)
      invariant count == |s| <= maximum + 1
      invariant maximum < g.modulus ==> t <= g.modulus
      invariant g.modulus <= maximum ==> count == t
      decreases g.modulus + 1 - t
    {
      if maximum < g.modulus && t == g.modulus {
        EmittedComplete(g, maximum, v0);
        assert false;
      }
      StoreStep(g, maximum, v0, t);
      if value <= maximum {
        s := s + [value + 1];
        count := count + 1;
      }
      value := StepU32(g, value);
      t := t + 1;
    }
    StoredOutcome(g, maximum, v0, t);
  }

  /** `GenerateRandomSequence` as the program writes it. `valueDraw` and
      `offsetDraw` are the two results of `Random.Range(0, maximum)`, whose
      float overload draws from [0, maximum] inclusive. The modulus is
      2^ceil(log2 maximum): for length 1 that is 0 and the first step divides
      by zero, and when maximum is itself a power of two the modulus equals
      maximum, so the state maximum is never reached after the start. */
  method GenerateRandomSequence(length: u32, valueDraw: nat, offsetDraw: nat) returns (r: Result<seq<u32>>)
    requires valueDraw < EffectiveLength(length) && offsetDraw < EffectiveLength(length)
    ensures r.Err? <==> length == 1
    ensures r.Err? ==> r.error == DivideByZero
    ensures r.Ok? ==>
      && (length == 0 ==> |r.value| == 4)
      && (0 < length <= MaxLength ==> |r.value| == length)
      && (length > MaxLength ==> |r.value| == MaxLength)
      && forall i :: 0 <= i < |r.value| ==> 1 <= r.value[i] <= |r.value|
    ensures r.Ok? && !IsPow2(|r.value| - 1) ==> IsPermutationOfOneTo(r.value)
    ensures r.Ok? && IsPow2(|r.value| - 1) && valueDraw < |r.value| - 1 ==>
      |r.value| !in r.value && !Distinct(r.value)
  {
    var n := EffectiveLength(length);
    var maximum := n - 1;
    var offset := OffsetFor(offsetDraw);
    var seed := SeedFor(maximum);
    var modulus := NextPowerOfTwo(maximum);
    if modulus == 0 {
      return Err(DivideByZero);
    }
    if IsPow2(maximum) {
      NextPowerOfTwoFixesPowers(maximum);
    }
    var s := RunLcg(Params(seed, offset, modulus), maximum, valueDraw);
    r := Ok(s);
  }

  /** The generator with a modulus above `maximum` (the power of two at or
      above the length), which one full period needs to reach every state up
      to `maximum`: every length yields a permutation of 1..length. */
  method GeneratePermutation(length: u32, valueDraw: nat, offsetDraw: nat) returns (s: seq<u32>)
    requires valueDraw < EffectiveLength(length) && offsetDraw < EffectiveLength(length)
    ensures length == 0 ==> |s| == 4
    ensures 0 < length <= MaxLength ==> |s| == length
    ensures length > MaxLength ==> |s| == MaxLength
    ensures IsPermutationOfOneTo(s)
  {
    var n := EffectiveLength(length);
    var maximum := n - 1;
    var offset := OffsetFor(offsetDraw);
    var seed := SeedFor(maximum);
    var modulus := NextPowerOfTwo(n);
    var g := Params(seed, offset, modulus);
    assert HullDobell(g) && maximum < modulus <= TwoTo32;
    s := RunLcg(g, maximum, valueDraw);
    assert |s| == n;
  }
}

/**
  The host side of the bitonic sort: the loop nest in `BitonicSort` that
  sets (`_ArraySize`, `_SubarraySize` = k, `_CompareDistance` = j) and issues
  one kernel dispatch per pair, for k = 2, 4, ... while k < 2 * NumItems and
  j = k/2, k/4, ..., 1. The kernel itself is not modelled; the schedule is.
*/
module Scheduler {
  import opened PowerOfTwo
  import opened Padder

  /** The uniforms set before one dispatch of the comparator kernel. */
  datatype Dispatch = Dispatch(arraySize: nat, subarraySize: nat, compareDistance: nat)

  /** The inner loop: `for (j = start; j > 0; j /= 2)` for one merge width k.
      The distances start at `start`, halve at every step and end at 1. */
  function SubStages(n: nat, k: nat, start: nat): (s: seq<Dispatch>)
    ensures forall t :: 0 <= t < |s| ==>
      s[t].arraySize == n && s[t].subarraySize == k && 1 <= s[t].compareDistance <= start
    ensures start > 0 ==> |s| > 0 && s[0].compareDistance == start && s[|s| - 1].compareDistance == 1
    ensures forall t :: 0 < t < |s| ==> s[t].compareDistance == s[t - 1].compareDistance / 2
    ensures IsPow2(start) ==> forall t :: 0 <= t < |s| ==> IsPow2(s[t].compareDistance)
    decreases start
  {
    if start > 0 then [Dispatch(n, k, start)] + SubStages(n, k, start / 2) else []
  }

  /** The outer loop from merge width k on: `for (; k < n * 2; k *= 2)`. */
  function Stages(n: nat, k: nat): (s: seq<Dispatch>)
    requires k >= 1
    ensures forall t :: 0 <= t < |s| ==>
      && s[t].arraySize == n
      && k <= s[t].subarraySize < 2 * n
      && 1 <= s[t].compareDistance <= s[t].subarraySize / 2
    ensures IsPow2(k) ==> forall t :: 0 <= t < |s| ==>
      IsPow2(s[t].subarraySize) && IsPow2(s[t].compareDistance)
    decreases 2 * n - k
  {
    if k < 2 * n then
      var inner, outer := SubStages(n, k, k / 2), Stages(n, 2 * k);
      AppendIndex(inner, outer);
      assert IsPow2(k) ==> IsPow2(2 * k);
      assert IsPow2(k) && k >= 2 ==> IsPow2(k / 2);
      assert k / 2 == 0 ==> inner == [];
      inner + outer
    else
      []
  }

  lemma AppendIndex(a: seq<Dispatch>, b: seq<Dispatch>)
    ensures forall t :: 0 <= t < |a| ==> (a + b)[t] == a[t]
    ensures forall t :: |a| <= t < |a| + |b| ==> (a + b)[t] == b[t - |a|]
  {
  }

  /** The dispatches `BitonicSort` issues for NumItems = numItems, in order.
      Every k is a power of two with 2 <= k < 2 * numItems, every j a power of
      two with j <= k / 2, and `_ArraySize` is always the unpadded count. */
  function Schedule(numItems: nat): (s: seq<Dispatch>)
    ensures forall t :: 0 <= t < |s| ==>
      && s[t].arraySize == numItems
      && IsPow2(s[t].subarraySize) && 2 <= s[t].subarraySize < 2 * numItems
      && IsPow2(s[t].compareDistance) && 1 <= s[t].compareDistance <= s[t].subarraySize / 2
  {
    Stages(numItems, 2)
  }

  /** The (k, j) pairs of a dispatch sequence. */
  function Pairs(s: seq<Dispatch>): (ps: seq<(nat, nat)>)
  {
    seq(|s|, t requires 0 <= t < |s| => (s[t].subarraySize, s[t].compareDistance))
  }

  // ---------------------------------------------------------------------
  // Reference: the bitonic network over 2^m elements, stage by stage.

  /** Stage i (merge width 2^i): compare distances 2^(i-1), ..., 2, 1. */
  function NetworkStage(i: nat): seq<(nat, nat)>
  {
    seq(i, t requires 0 <= t < i => (Pow2(i), Pow2(i - 1 - t)))
  }

  /** Stages i, i+1, ..., m. */
  function NetworkFrom(i: nat, m: nat): seq<(nat, nat)>
    requires i >= 1
    decreases m + 1 - i
  {
    if i > m then [] else NetworkStage(i) + NetworkFrom(i + 1, m)
  }

  /** The whole network for 2^m elements. */
  function Network(m: nat): seq<(nat, nat)>
  {
    NetworkFrom(1, m)
  }

  /** The dispatches of a network, each sent with the same `_ArraySize`. */
  function WithArraySize(n: nat, ps: seq<(nat, nat)>): seq<Dispatch>
  {
    seq(|ps|, t requires 0 <= t < |ps| => Dispatch(n, ps[t].0, ps[t].1))
  }

  lemma WithArraySizeAppend(n: nat, a: seq<(nat, nat)>, b: seq<(nat, nat)>)
    ensures WithArraySize(n, a + b) == WithArraySize(n, a) + WithArraySize(n, b)
  {
  }

  lemma PairsWithArraySize(n: nat, ps: seq<(nat, nat)>)
    ensures Pairs(WithArraySize(n, ps)) == ps
  {
  }

  /** Dispatches at distances 2^e, 2^(e-1), ..., 1 for one merge width k. */
  function Halvings(n: nat, k: nat, e: nat): seq<Dispatch>
  {
    seq(e + 1, t requires 0 <= t <= e => Dispatch(n, k, Pow2(e - t)))
  }

  lemma HalvingsCons(n: nat, k: nat, e: nat)
    requires e >= 1
    ensures Halvings(n, k, e) == [Dispatch(n, k, Pow2(e))] + Halvings(n, k, e - 1)
  {
    var want, got := Halvings(n, k, e), [Dispatch(n, k, Pow2(e))] + Halvings(n, k, e - 1);
    forall t | 0 <= t <= e
      ensures want[t] == got[t]
    {
      if t > 0 {
        assert e - t == e - 1 - (t - 1);
      }
    }
  }

  /** The inner loop started at 2^e enumerates 2^e, 2^(e-1), ..., 1. */
  lemma {:induction false} SubStagesFromPow2(n: nat, k: nat, e: nat)
    ensures SubStages(n, k, Pow2(e)) == Halvings(n, k, e)
  {
    if e == 0 {
      assert SubStages(n, k, 0) == [];
    } else {
      SubStagesFromPow2(n, k, e - 1);
      assert Pow2(e) / 2 == Pow2(e - 1);
      HalvingsCons(n, k, e);
    }
  }

  /** The outer loop's test k < 2 * n, for k = 2^i, holds exactly for the
      stages up to CeilLog2(n): the loop stops at the first power of two >= n. */
  lemma LoopBound(n: nat, i: nat)
    requires i >= 1
    ensures Pow2(i) < 2 * n <==> i <= CeilLog2(n)
  {
    CeilLog2Threshold(n, i - 1);
  }

  lemma HalvingsIsStage(n: nat, i: nat)
    requires i >= 1
    ensures Halvings(n, Pow2(i), i - 1) == WithArraySize(n, NetworkStage(i))
  {
  }

  lemma {:induction false} StagesAreNetwork(n: nat, i: nat)
    requires i >= 1
    ensures Stages(n, Pow2(i)) == WithArraySize(n, NetworkFrom(i, CeilLog2(n)))
    decreases CeilLog2(n) + 1 - i
  {
    var m := CeilLog2(n);
    LoopBound(n, i);
    if i <= m {
      StagesAreNetwork(n, i + 1);
      assert 2 * Pow2(i) == Pow2(i + 1);
      SubStagesFromPow2(n, Pow2(i), i - 1);
      assert Pow2(i) / 2 == Pow2(i - 1);
      HalvingsIsStage(n, i);
      WithArraySizeAppend(n, NetworkStage(i), NetworkFrom(i + 1, m));
    }
  }

  /** The loop nest enumerates the bitonic network over CeilLog2(numItems)
      stages, in the network's order. */
  lemma ScheduleIsNetwork(numItems: nat)
    ensures Schedule(numItems) == WithArraySize(numItems, Network(CeilLog2(numItems)))
  {
    StagesAreNetwork(numItems, 1);
  }

  lemma {:induction false} NetworkFromLength(i: nat, m: nat)
    requires 1 <= i <= m + 1
    ensures 2 * |NetworkFrom(i, m)| + (i - 1) * i == m * (m + 1)
    decreases m + 1 - i
  {
    if i <= m {
      NetworkFromLength(i + 1, m);
      assert |NetworkFrom(i, m)| == i + |NetworkFrom(i + 1, m)|;
      assert (i + 1 - 1) * (i + 1) == (i - 1) * i + 2 * i;
    }
  }

  /** With 2^m the padded size, the schedule holds m(m+1)/2 dispatches. */
  lemma ScheduleLength(numItems: nat)
    ensures var m := CeilLog2(numItems); |Schedule(numItems)| == m * (m + 1) / 2
  {
    ScheduleIsNetwork(numItems);
    NetworkFromLength(1, CeilLog2(numItems));
  }

  /** The `count` that `BitonicSort` logs: it starts at 1 and is incremented
      once per dispatch. */
  function LoggedCount(numItems: nat): (count: nat)
    ensures var m := CeilLog2(numItems); count == 1 + m * (m + 1) / 2
  {
    ScheduleLength(numItems);
    1 + |Schedule(numItems)|
  }

  /** Bounding the outer loop by the unpadded count enumerates exactly the
      same (k, j) pairs as bounding it by the padded buffer's length. */
  lemma SchedulePaddedAgrees(numItems: nat)
    ensures Pairs(Schedule(numItems)) == Pairs(Schedule(NextPowerOfTwo(numItems)))
  {
    var p := NextPowerOfTwo(numItems);
    CeilLog2OfNextPowerOfTwo(numItems);
    ScheduleIsNetwork(numItems);
    ScheduleIsNetwork(p);
    PairsWithArraySize(numItems, Network(CeilLog2(numItems)));
    PairsWithArraySize(p, Network(CeilLog2(numItems)));
  }

  lemma {:induction false} NetworkFromLast(i: nat, m: nat)
    requires 1 <= i <= m
    ensures |NetworkFrom(i, m)| > 0 && NetworkFrom(i, m)[|NetworkFrom(i, m)| - 1] == (Pow2(m), 1)
    decreases m - i
  {
    var stage := NetworkStage(i);
    assert |stage| == i;
    if i < m {
      NetworkFromLast(i + 1, m);
      var rest := NetworkFrom(i + 1, m);
      assert NetworkFrom(i, m) == stage + rest;
      assert (stage + rest)[|stage + rest| - 1] == rest[|rest| - 1];
    } else {
      assert NetworkFrom(i + 1, m) == [];
      assert NetworkFrom(i, m) == stage;
      assert stage[i - 1] == (Pow2(i), Pow2(0));
    }
  }

  /** The largest merge width the loop reaches is GetNextPowerOfTwo(numItems):
      it is the last one, and no dispatch uses a wider one. */
  lemma ScheduleReachesNextPowerOfTwo(numItems: nat)
    requires numItems >= 2
    ensures var s := Schedule(numItems);
      && |s| > 0
      && s[|s| - 1].subarraySize == NextPowerOfTwo(numItems)
      && forall t :: 0 <= t < |s| ==> s[t].subarraySize <= NextPowerOfTwo(numItems)
  {
    var s, m := Schedule(numItems), CeilLog2(numItems);
    ScheduleIsNetwork(numItems);
    assert m >= 1;
    NetworkFromLast(1, m);
    forall t | 0 <= t < |s|
      ensures s[t].subarraySize <= NextPowerOfTwo(numItems)
    {
      var k := s[t].subarraySize;
      var e := Log2(k);
      LoopBound(numItems, e);
      Pow2Monotone(e, m);
    }
  }
}

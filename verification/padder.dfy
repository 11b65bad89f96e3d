/**
  Power-of-two sizing of the sort buffer: the capacity for n elements, the
  padding that fills the buffer up to that capacity with a large filler value,
  and the trim that cuts the sorted buffer back to the real element count
  (`GetNextPowerOfTwo`, `AddPow2Padding` and `TrimData`).
*/
module Padder {
  import opened Numeric
  import opened PowerOfTwo

  /** The filler appended to reach the power-of-two capacity. */
  const Sentinel: u32 := 100000000

  /** `GetNextPowerOfTwo`: 2^ceil(log2 x). The program evaluates this in floating
      point, where log(0) = -infinity and 2^-infinity = 0, so x == 0 yields 0. */
  function NextPowerOfTwo(x: nat): (p: nat)
    ensures x == 0 ==> p == 0
    ensures x >= 1 ==> IsPow2(p) && x <= p < 2 * x
  {
    if x == 0 then 0
    else
      var c := CeilLog2(x);
      Pow2IsPow2(c);
      Pow2(c)
  }

  /** No power of two lies between x and NextPowerOfTwo(x). */
  lemma NextPowerOfTwoIsLeast(x: nat, q: nat)
    requires x >= 1 && IsPow2(q) && x <= q
    ensures NextPowerOfTwo(x) <= q
  {
    var e := Log2(q);
    CeilLog2Threshold(x, e);
    Pow2Monotone(CeilLog2(x), e);
  }

  /** A length that is already a power of two gets no padding. */
  lemma NextPowerOfTwoFixesPowers(n: nat)
    requires IsPow2(n)
    ensures NextPowerOfTwo(n) == n
  {
    CeilLog2OfPow2(Log2(n));
  }

  lemma CeilLog2OfNextPowerOfTwo(x: nat)
    ensures CeilLog2(NextPowerOfTwo(x)) == CeilLog2(x)
  {
    if x > 0 {
      CeilLog2OfPow2(CeilLog2(x));
    }
  }

  /** `AddPow2Padding`: append the sentinel while the buffer is shorter than size. */
  function AddPow2Padding(data: seq<u32>, size: int): (r: seq<u32>)
    ensures |r| == if size > |data| then size else |data|
    ensures r[..|data|] == data
    ensures forall i :: |data| <= i < |r| ==> r[i] == Sentinel
    decreases size - |data|
  {
    if |data| < size then AddPow2Padding(data + [Sentinel], size) else data
  }

  /** `TrimData`: the first size elements. `new uint[size]` throws for a
      negative size and `Array.Copy` throws when data is shorter than size. */
  function TrimData(data: seq<u32>, size: int): (r: Result<seq<u32>>)
    ensures r.Ok? <==> 0 <= size <= |data|
    ensures size < 0 ==> r == Err(NegativeSize)
    ensures 0 <= size && r.Err? ==> r == Err(SourceTooShort)
    ensures r.Ok? ==> |r.value| == size && forall i :: 0 <= i < size ==> r.value[i] == data[i]
  {
    if size < 0 then Err(NegativeSize)
    else if size > |data| then Err(SourceTooShort)
    else Ok(data[..size])
  }

  /** Trimming a padded buffer to the original length gives the data back,
      whatever size it was padded to. */
  lemma PadThenTrim(data: seq<u32>, size: int)
    ensures TrimData(AddPow2Padding(data, size), |data|) == Ok(data)
  {
    var b := AddPow2Padding(data, size);
    assert b[..|data|] == data;
  }

  /** The buffer built for the sort: a power-of-two length, the data in front,
      NextPowerOfTwo(n) - n sentinels behind, and fewer sentinels than data. */
  lemma PaddedBuffer(data: seq<u32>)
    requires |data| >= 1
    ensures var b := AddPow2Padding(data, NextPowerOfTwo(|data|));
      && IsPow2(|b|)
      && |b| == NextPowerOfTwo(|data|)
      && b[..|data|] == data
      && |b| - |data| < |data|
      && forall i :: |data| <= i < |b| ==> b[i] == Sentinel
  {
  }
}

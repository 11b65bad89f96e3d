# BitonicSortGPU host logic in Dafny

BitonicSortGPU is a Unity project that sorts an array of `uint`s with a
bitonic sorting network. The compare-exchange step runs in a compute shader.
Everything else runs on the C# host, and this project models that host logic:

- **Buffer sizing** (module `Padder`): the buffer gets the next power of two
  at or above the element count. The data is padded with the filler
  100000000 and trimmed back after the sort.
- **Stage schedule** (module `Scheduler`): the loop nest in `BitonicSort`
  issues one kernel dispatch per (merge width k, compare distance j) pair.
  Each dispatch also carries the unpadded element count as `_ArraySize`.
  The schedule is proved to be exactly the bitonic network for the padded
  size.
- **Result checks** (module `Verifier`): the checks `AnalyzeTestData` runs on
  the sorted output:
  - lowest and highest value;
  - ascending order;
  - the distinct values in a range;
  - whether any value repeats, and how many values repeat.
- **Test-input generator** (modules `Lcg` and `Generator`):
  `GenerateRandomSequence` builds its input from a linear congruential
  generator with a power-of-two modulus:
  - it keeps the states at most `length - 1`;
  - it stores each kept state plus one;
  - its 32-bit `uint` arithmetic is modelled with explicit wrap-around.

  The Hull–Dobell full-period theorem for a power-of-two modulus is proved
  (`Lcg.FullPeriod`, `Lcg.OrbitCovers`), so the generator's loop needs no fuel
  bound.

Supporting modules:

- `Numeric`: `u32`, `Result` and the error cases.
- `PowerOfTwo`: `Pow2`, `IsPow2`, `Log2` and `CeilLog2`.
- `SeqFacts`: distinctness, element sets, counting and pigeonhole.
- `ModArith`: remainder arithmetic.

Three behaviours of the code run against what a reader might expect. The
model follows the code in each case:

- **The loop bound.** The outer loop is bounded by the unpadded count
  (`k < NumItems * 2`), not by the padded buffer length, which might seem
  to skip stages. It does not. The bound stops exactly at the next power of
  two, so the schedule equals the one bounded by the buffer length
  (`Scheduler.SchedulePaddedAgrees`, `Scheduler.ScheduleReachesNextPowerOfTwo`).
- **Gaps in the range check.** The header comment of
  `Assets/Scripts/BitonicSortGPU.cs` (lines 19-23) lists "no missing numbers"
  among the things the analysis verifies. With the bounds `LowestAndHighest`
  returns, the range check only detects repeats (`Verifier.AnalyzeRange`,
  `Verifier.RangeCheckMissesGap`).
- **The random draws.** `Random.Range(0, maximum)` with a `uint` argument
  resolves to the `float` overload, which includes its upper end. So both
  draws lie in [0, length - 1], not in [0, length - 2] as the integer
  overload would give.

## Model

| member | source | states |
|---|---|---|
| Padder.NextPowerOfTwo | Assets/Scripts/BitonicSortGPU.cs:152-156 | for x >= 1 the result is a power of two p with x <= p < 2x; for x = 0 it is 0 (log 0 is minus infinity, 2^-inf is 0) |
| Padder.NextPowerOfTwoIsLeast | Assets/Scripts/BitonicSortGPU.cs:153-156 | no power of two at or above x is smaller than the result: it is the least one |
| Padder.NextPowerOfTwoFixesPowers | Assets/Scripts/BitonicSortGPU.cs:153-156 | a count that is already a power of two is its own buffer size, so it gets no padding |
| Padder.AddPow2Padding | Assets/Scripts/BitonicSortGPU.cs:159-169 | the result has length max(size, \|data\|), starts with data, and every appended element is 100000000 |
| Padder.TrimData | Assets/Scripts/BitonicSortGPU.cs:172-178 | succeeds exactly when 0 <= size <= \|data\| and then returns the first size elements; a negative size and a too-short source are distinct errors |
| Padder.PadThenTrim | Assets/Scripts/BitonicSortGPU.cs:159-178 | trimming a padded buffer to the original length returns the original data, whatever size it was padded to |
| Padder.PaddedBuffer | Assets/Scripts/BitonicSortGPU.cs:68-75 | the sort buffer has power-of-two length NextPowerOfTwo(n), holds the data in front, and has fewer sentinels than data elements |
| Scheduler.SubStages | Assets/Scripts/BitonicSortGPU.cs:136-146 | the inner loop starts at its start distance, halves at each step and ends at 1, all distances being powers of two when the start is |
| Scheduler.Stages | Assets/Scripts/BitonicSortGPU.cs:134-147 | from a power-of-two k on, every dispatch has merge width k' with k <= k' < 2n, both k' and j powers of two, j <= k'/2, and `_ArraySize` n |
| Scheduler.Schedule | Assets/Scripts/BitonicSortGPU.cs:125-147 | every dispatch sends the unpadded count, a power-of-two k with 2 <= k < 2 * NumItems and a power-of-two j <= k/2 |
| Scheduler.LoopBound | Assets/Scripts/BitonicSortGPU.cs:134 | the outer test k < 2n holds for k = 2^i exactly when i <= ceil(log2 n) |
| Scheduler.StagesAreNetwork | Assets/Scripts/BitonicSortGPU.cs:134-147 | the loop nest from k = 2^i on enumerates stages i..ceil(log2 n) of the bitonic network, in order |
| Scheduler.ScheduleIsNetwork | Assets/Scripts/BitonicSortGPU.cs:132-148 | the whole schedule equals the reference bitonic network for 2^ceil(log2 n) elements, every stage with `_ArraySize` n |
| Scheduler.ScheduleLength | Assets/Scripts/BitonicSortGPU.cs:134-147 | with 2^m the padded size there are m(m+1)/2 dispatches |
| Scheduler.LoggedCount | Assets/Scripts/BitonicSortGPU.cs:132-148 | the logged count, which starts at 1 and is incremented once per dispatch, is 1 + m(m+1)/2 |
| Scheduler.SchedulePaddedAgrees | Assets/Scripts/BitonicSortGPU.cs:125-134 | bounding the loop by the unpadded count gives the same (k, j) pairs as bounding it by the padded buffer length |
| Scheduler.NetworkFromLast | Assets/Scripts/BitonicSortGPU.cs:134-147 | the last pair of the network for 2^m elements is (2^m, 1) |
| Scheduler.ScheduleReachesNextPowerOfTwo | Assets/Scripts/BitonicSortGPU.cs:132-156 | for n >= 2 the last merge width is GetNextPowerOfTwo(n) and no dispatch uses a wider one |
| Verifier.LowestAndHighest | Assets/Scripts/BitonicSortGPU.cs:226-239 | lowest is min(\|data\|, min data), bounding every element from below; highest is max data, or 0 for no data |
| Verifier.IsAscending | Assets/Scripts/BitonicSortGPU.cs:242-261 | true exactly when every adjacent pair is in order, and exactly when every pair is in order |
| Verifier.AscendingIsSorted | Assets/Scripts/BitonicSortGPU.cs:242-251 | adjacent order and global order are the same property |
| Verifier.HasAllNumbersOfRange | Assets/Scripts/BitonicSortGPU.cs:264-290 | the count is the number of distinct values in [lowest, highest], at most the length; the flag holds exactly when the count equals the length |
| Verifier.RangeCheckIsDistinctness | Assets/Scripts/BitonicSortGPU.cs:265-290 | with bounds enclosing every element the counted set is the set of all values, so the flag holds exactly when no value repeats |
| Verifier.AnalyzeRange | Assets/Scripts/BitonicSortGPU.cs:189-202 | the range check as `AnalyzeTestData` runs it counts the distinct values and passes exactly when the data has no repeats |
| Verifier.RangeCheckMissesGap | Assets/Scripts/BitonicSortGPU.cs:189-202 | run the way `AnalyzeTestData` runs it, on [1, 3]: `LowestAndHighest` gives bounds 1 and 3, and `HasAllNumbersOfRange` reports the range complete with 2 distinct values although 2 is missing |
| Verifier.HasDuplicates | Assets/Scripts/BitonicSortGPU.cs:293-304 | true exactly when some value occurs at two different indices |
| Verifier.CountDuplicates | Assets/Scripts/BitonicSortGPU.cs:307-328 | -1 when no value repeats, otherwise the number of distinct values that occur more than once, which is at least 1 |
| Verifier.RepeatedAreLargeGroups | Assets/Scripts/BitonicSortGPU.cs:315-321 | a value occurs at two different indices exactly when its group has two or more members |
| Lcg.StepU32 | Assets/Scripts/BitonicSortGPU.cs:394 | one step as the program computes it on `uint`, product and sum wrapped at 2^32 before the remainder, lands below the modulus |
| Lcg.WrapIsHarmless | Assets/Scripts/BitonicSortGPU.cs:394 | the `uint` step `StepU32` equals the exact step: the wrap-around of `value * seed + offset` never changes the remainder modulo a power of two up to 2^32 |
| Lcg.Orbit | Assets/Scripts/BitonicSortGPU.cs:394 | after at least one step the state is below the modulus |
| Lcg.FullPeriod | Assets/Scripts/BitonicSortGPU.cs:380-394 | with seed = 1 mod 4, an odd offset and a power-of-two modulus, the first `modulus` states from any start below it are pairwise different |
| Lcg.OrbitCovers | Assets/Scripts/BitonicSortGPU.cs:380-394 | under the same conditions every value below the modulus is reached within one period |
| Generator.EffectiveLength | Assets/Scripts/BitonicSortGPU.cs:367-375 | the generated length is between 1 and 2097152, never above a nonzero request, and equal to the request when it is 1..2097152; a request above 2097152 yields exactly 2097152 and a request of 0 yields 4 |
| Generator.SeedFor | Assets/Scripts/BitonicSortGPU.cs:380 | the multiplier is 1 modulo 4 and within 2 of maximum |
| Generator.OffsetFor | Assets/Scripts/BitonicSortGPU.cs:379 | the increment is odd |
| Generator.Emitted | Assets/Scripts/BitonicSortGPU.cs:387-395 | what the loop has stored after t steps: at most t values, each in [1, maximum + 1] |
| Generator.EmittedHas | Assets/Scripts/BitonicSortGPU.cs:387-395 | every state at most maximum among the first t is stored, plus one |
| Generator.EmittedSource | Assets/Scripts/BitonicSortGPU.cs:387-395 | every stored value is one more than such a state |
| Generator.EmittedDistinct | Assets/Scripts/BitonicSortGPU.cs:387-395 | within one period no value is stored twice |
| Generator.EmittedCovers | Assets/Scripts/BitonicSortGPU.cs:387-395 | with maximum below the modulus, one period stores every value of [1, maximum + 1] |
| Generator.EmittedComplete | Assets/Scripts/BitonicSortGPU.cs:387-395 | with maximum below the modulus, one period stores at least maximum + 1 values, so the loop stops within one period |
| Generator.StoreStep | Assets/Scripts/BitonicSortGPU.cs:389-394 | one turn of the loop: the `uint` step advances the orbit by one, and the current state plus one is stored exactly when the state is at most maximum |
| Generator.StoredOutcome | Assets/Scripts/BitonicSortGPU.cs:387-397 | maximum + 1 stored values are a permutation of 1..maximum+1 when the modulus is above maximum, and lack maximum + 1 and repeat a value when the modulus equals maximum and the start is below it |
| Generator.RunLcg | Assets/Scripts/BitonicSortGPU.cs:383-397 | the loop stores maximum + 1 values in [1, maximum + 1]; above maximum the modulus yields a permutation; a modulus equal to maximum with a start below it leaves out maximum + 1 and repeats a value |
| Generator.GenerateRandomSequence | Assets/Scripts/BitonicSortGPU.cs:365-398 | length 0 gives 4 values, lengths over 2097152 give 2097152 values, others give length values, all in [1, length]; length 1 divides by zero; a permutation of 1..length unless length - 1 is a power of two, when a start below length - 1 leaves out length and repeats a value |
| Generator.GeneratePermutation | Assets/Scripts/BitonicSortGPU.cs:365-398 | with the modulus taken at or above the length, every length yields a permutation of 1..length of the clamped size |

## Left out

- `Start`, `SortSequence`, `ReadDataFromGPU`, `PrintSequence` and `PrintDuplicates` are left out. They are engine glue, timing, a `List.Sort` baseline and log output.
- The warning `GenerateRandomSequence` logs when it clamps an over-long request (line 373) is log output and is left out; the clamp itself is modelled (`Generator.EffectiveLength`).
- `AnalyzeTestData` is modelled only through the results of the checks it calls (`Verifier.AnalyzeRange`), not through its log lines.
- The GPU calls (`FindKernel`, `SetBuffer`, `SetData`, `SetInt`, `Dispatch`, `GetData`, `Release`) are foreign calls and are left out. The compute shader is not part of this model, so nothing here claims that the buffer ends up sorted. Only the sequence of uniforms sent before each dispatch is modelled.
- `threadGroupsX = max(1, count / 8)` only sizes each dispatch and does not affect the schedule. It is left out.
- `Mathf.Log`, `Mathf.Ceil` and `Mathf.Pow` are replaced by exact integer definitions. Single-precision rounding, such as log2 of an exact power of two landing just above an integer, is not modelled.
- Padder.NextPowerOfTwo: takes a natural number. The source's `int` parameter could be negative, where the float formula yields NaN, but every caller passes an array length.
- `UnityEngine.Random.Range` is not modelled. Its two draws are parameters of `Generator.GenerateRandomSequence`, with the range the float overload guarantees.
- The `int` overflow of `k *= 2` and `NumItems * 2` near 2^31 is not modelled. The element count is at most 2097152, far below it.
- Generator.GenerateRandomSequence: when length - 1 is a power of two and the first draw equals length - 1, the output happens to be a permutation. The contract says nothing about that case.

## Findings

| source | as written | input that shows it | evidently intended | confidence | as-written member | corrected member |
|---|---|---|---|---|---|---|
| Assets/Scripts/BitonicSortGPU.cs:381 | the modulus is 2^ceil(log2 maximum) with maximum = length - 1, which equals maximum when maximum is a power of two; after the first step no state reaches maximum, so the value length never appears and another value repeats | length 2 with value draw 0 (modulus 1, output 1, 1); likewise lengths 3, 5, 9, 17, ... with a value draw below length - 1 | a modulus of at least length, 2^ceil(log2 length), so that one period covers every state up to maximum | high (proved; not executed) | Generator.GenerateRandomSequence | Generator.GeneratePermutation |
| Assets/Scripts/BitonicSortGPU.cs:381 | for length 1, maximum is 0, log2 0 is minus infinity and the modulus is 0, so the first step divides by zero | length 1 | a modulus of at least 1 | high (proved; not executed) | Generator.GenerateRandomSequence | Generator.GeneratePermutation |

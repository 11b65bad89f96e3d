/**
  The checks `AnalyzeTestData` runs on a sorted result: lowest and highest
  value, ascending order, how many distinct values fall in [lowest, highest],
  whether any value repeats and how many values repeat. None of them changes
  the data; only their results are modelled, not the log lines.
*/
module Verifier {
  import opened Numeric
  import opened SeqFacts

  /** Every adjacent pair is in order. */
  predicate Ascending(data: seq<u32>)
  {
    forall i :: 0 <= i < |data| - 1 ==> data[i] <= data[i + 1]
  }

  /** Every pair is in order. */
  predicate Sorted(data: seq<u32>)
  {
    forall i, j :: 0 <= i < j < |data| ==> data[i] <= data[j]
  }

  /** The distinct values of data that lie in [lowest, highest]. */
  function InRange(data: seq<u32>, lowest: nat, highest: nat): set<u32>
  {
    set x | x in data && lowest <= x <= highest
  }

  /** The values that occur at two different indices. */
  function Repeated(data: seq<u32>): set<u32>
  {
    set i, j | 0 <= i < j < |data| && data[i] == data[j] :: data[i]
  }

  /** `LowestAndHighest`. The lowest value starts at the length of the data,
      not at the first element, so it is min(|data|, min(data)); the highest
      starts at 0, so it is max(data), or 0 for no data. */
  method LowestAndHighest(data: seq<u32>) returns (lowest: nat, highest: nat)
    ensures lowest <= |data| && forall i :: 0 <= i < |data| ==> lowest <= data[i]
    ensures lowest == |data| || lowest in data
    ensures forall i :: 0 <= i < |data| ==> data[i] <= highest
    ensures if |data| == 0 then highest == 0 else highest in data
  {
    lowest, highest := |data|, 0;
    for i := 0 to |data|
      invariant lowest <= |data| && forall p :: 0 <= p < i ==> lowest <= data[p]
      invariant lowest == |data| || lowest in data[..i]
      invariant forall p :: 0 <= p < i ==> data[p] <= highest
      invariant if i == 0 then highest == 0 else highest in data[..i]
    {
      if data[i] <= lowest {
        lowest := data[i];
      }
      if data[i] >= highest {
        highest := data[i];
      }
    }
    assert data[..|data|] == data;
  }

  /** `IsAscending`: each element is compared with its successor, the last
      one with itself (`Mathf.Min(i + 1, data.Length - 1)`). */
  method IsAscending(data: seq<u32>) returns (ascending: bool)
    ensures ascending <==> Ascending(data)
    ensures ascending <==> Sorted(data)
  {
    ascending := true;
    for i := 0 to |data|
      invariant ascending <==> forall p :: 0 <= p < i && p + 1 < |data| ==> data[p] <= data[p + 1]
    {
      var next := if i + 1 < |data| then i + 1 else |data| - 1;
      if data[i] > data[next] {
        ascending := false;
      }
    }
    AscendingIsSorted(data);
  }

  /** Adjacent order is global order. */
  lemma {:induction false} AscendingIsSorted(data: seq<u32>)
    ensures Ascending(data) <==> Sorted(data)
  {
    if Ascending(data) {
      forall i, j | 0 <= i < j < |data|
        ensures data[i] <= data[j]
      {
        AscendingSpan(data, i, j);
      }
    }
  }

  lemma {:induction false} AscendingSpan(data: seq<u32>, i: nat, j: nat)
    requires Ascending(data) && i <= j < |data|
    ensures data[i] <= data[j]
    decreases j - i
  {
    if i < j {
      AscendingSpan(data, i, j - 1);
    }
  }

  /** `HasAllNumbersOfRange`: count the distinct values in [lowest, highest]
      with a membership set, and compare the count with the length. */
  method HasAllNumbersOfRange(data: seq<u32>, lowest: nat, highest: nat) returns (hasAll: bool, inRangeCount: nat)
    ensures inRangeCount == |InRange(data, lowest, highest)| && inRangeCount <= |data|
    ensures hasAll <==> inRangeCount == |data|
  {
    inRangeCount := 0;
    var seen: set<u32> := {};
    for i := 0 to |data|
      invariant seen == InRange(data[..i], lowest, highest)
      invariant inRangeCount == |seen| <= i
    {
      assert data[..i + 1] == data[..i] + [data[i]];
      InRangeAppend(data[..i], data[i], lowest, highest);
      if lowest <= data[i] <= highest {
        if data[i] !in seen {
          seen := seen + {data[i]};
          inRangeCount := inRangeCount + 1;
        }
      }
    }
    assert data[..|data|] == data;
    hasAll := inRangeCount == |data|;
  }

  lemma InRangeAppend(s: seq<u32>, x: u32, lowest: nat, highest: nat)
    ensures InRange(s + [x], lowest, highest)
         == InRange(s, lowest, highest) + (if lowest <= x <= highest then {x} else {})
  {
    assert forall y :: y in s + [x] <==> y in s || y == x;
  }

  /** With bounds that enclose every element (as `LowestAndHighest` returns),
      the range check counts the distinct values, so it passes exactly when no
      value repeats; it cannot notice a gap. */
  lemma RangeCheckIsDistinctness(data: seq<u32>, lowest: nat, highest: nat)
    requires forall i :: 0 <= i < |data| ==> lowest <= data[i] <= highest
    ensures InRange(data, lowest, highest) == Elems(data)
    ensures |InRange(data, lowest, highest)| == |data| <==> Distinct(data)
  {
    ElemsCard(data);
  }

  /** `AnalyzeTestData`'s range check: bounds from `LowestAndHighest` fed to
      `HasAllNumbersOfRange`. The flag is exactly "no duplicates". */
  method AnalyzeRange(data: seq<u32>) returns (hasAllNumbers: bool, inRangeCount: nat)
    ensures inRangeCount == |Elems(data)|
    ensures hasAllNumbers <==> Distinct(data)
  {
    var lowest, highest := LowestAndHighest(data);
    hasAllNumbers, inRangeCount := HasAllNumbersOfRange(data, lowest, highest);
    RangeCheckIsDistinctness(data, lowest, highest);
  }

  /** `HasDuplicates`: `data.All(new HashSet<uint>().Add)` adds the elements in
      order and stops at the first one already present. */
  method HasDuplicates(data: seq<u32>) returns (duplicates: bool)
    ensures duplicates <==> !Distinct(data)
  {
    var seen: set<u32> := {};
    var i := 0;
    while i < |data| && data[i] !in seen
      invariant i <= |data|
      invariant seen == Elems(data[..i])
      invariant Distinct(data[..i])
    {
      assert data[..i + 1] == data[..i] + [data[i]];
      ElemsAppend(data[..i], data[i]);
      DistinctAppend(data[..i], data[i]);
      seen := seen + {data[i]};
      i := i + 1;
    }
    duplicates := i < |data|;
    if duplicates {
      var p :| 0 <= p < i && data[p] == data[i];
      assert data[p] == data[i];
    } else {
      assert data[..i] == data;
    }
  }

  lemma RepeatedAppend(s: seq<u32>, x: u32)
    ensures Repeated(s + [x]) == Repeated(s) + (if x in s then {x} else {})
  {
    var t := s + [x];
    forall v | v in Repeated(t)
      ensures v in Repeated(s) || (x in s && v == x)
    {
      var i, j :| 0 <= i < j < |t| && t[i] == t[j] && v == t[i];
      if j < |s| {
        assert s[i] == s[j];
      } else {
        assert s[i] == x;
      }
    }
    forall v | v in Repeated(s)
      ensures v in Repeated(t)
    {
      var i, j :| 0 <= i < j < |s| && s[i] == s[j] && v == s[i];
      assert t[i] == t[j];
    }
    if x in s {
      var i :| 0 <= i < |s| && s[i] == x;
      assert t[i] == t[|s|];
    }
  }

  /** `CountDuplicates`: -1 when no value repeats, otherwise the number of
      `GroupBy` groups with more than one member, i.e. the number of distinct
      values that repeat. */
  method CountDuplicates(data: seq<u32>) returns (count: int)
    ensures Distinct(data) ==> count == -1
    ensures !Distinct(data) ==> count == |Repeated(data)| && count >= 1
  {
    var duplicates := HasDuplicates(data);
    if !duplicates {
      return -1;
    }
    var seen: set<u32> := {};
    var repeated: set<u32> := {};
    for i := 0 to |data|
      invariant seen == Elems(data[..i])
      invariant repeated == Repeated(data[..i])
    {
      assert data[..i + 1] == data[..i] + [data[i]];
      ElemsAppend(data[..i], data[i]);
      RepeatedAppend(data[..i], data[i]);
      if data[i] in seen {
        repeated := repeated + {data[i]};
      } else {
        seen := seen + {data[i]};
      }
    }
    assert data[..|data|] == data;
    var i, j :| 0 <= i < j < |data| && data[i] == data[j];
    assert data[i] in repeated;
    count := |repeated|;
  }

  /** A group of `GroupBy` has more than one member exactly when its value
      occurs at two different indices. */
  lemma {:induction false} RepeatedAreLargeGroups(data: seq<u32>, v: u32)
    ensures v in Repeated(data) <==> multiset(data)[v] >= 2
  {
    if |data| > 0 {
      var s, x := data[..|data| - 1], data[|data| - 1];
      assert data == s + [x];
      RepeatedAreLargeGroups(s, v);
      RepeatedAppend(s, x);
      var before: multiset<u32>, after: multiset<u32> := multiset(s), multiset(data);
      assert after == before + multiset{x};
      assert x in s <==> before[x] >= 1;
    }
  }

  /** The range check cannot see a gap. For [1, 3], which lacks 2,
      `LowestAndHighest` returns lowest = min(2, 1) = 1 and highest = 3, and
      `HasAllNumbersOfRange` then counts 2 distinct values for 2 elements and
      reports the range as complete. */
  method RangeCheckMissesGap() returns (data: seq<u32>, lowest: nat, highest: nat, hasAll: bool, inRangeCount: nat)
    ensures data == [1, 3] && 2 !in data
    ensures lowest == 1 && highest == 3
    ensures hasAll && inRangeCount == 2
  {
    data := [1, 3];
    lowest, highest := LowestAndHighest(data);
    assert data[0] == 1 && data[1] == 3;
    hasAll, inRangeCount := HasAllNumbersOfRange(data, lowest, highest);
    assert InRange(data, lowest, highest) == {1, 3};
  }
}

/**
  Facts about sequences, the sets of their elements and counting, shared by
  the result verifier and the test-sequence generator.
*/
module SeqFacts {

  /** No value occurs at two different indices. */
  predicate Distinct<T(==)>(s: seq<T>)
  {
    forall i, j :: 0 <= i < j < |s| ==> s[i] != s[j]
  }

  /** The set of values that occur in s. */
  function Elems<T(==)>(s: seq<T>): set<T>
  {
    set x | x in s
  }

  /** The integers lo, lo+1, ..., hi-1. */
  function Interval(lo: int, hi: int): (r: set<int>)
    ensures forall x :: x in r <==> lo <= x < hi
    decreases hi - lo
  {
    if hi <= lo then {} else Interval(lo, hi - 1) + {hi - 1}
  }

  lemma {:induction false} ElemsAppend<T>(s: seq<T>, x: T)
    ensures Elems(s + [x]) == Elems(s) + {x}
  {
    assert forall y :: y in s + [x] <==> y in s || y == x;
  }

  lemma {:induction false} DistinctAppend<T>(s: seq<T>, x: T)
    ensures Distinct(s + [x]) <==> Distinct(s) && x !in s
  {
    var t := s + [x];
    if Distinct(t) {
      assert forall i :: 0 <= i < |s| ==> s[i] == t[i] && t[i] != t[|s|];
    }
  }

  /** A sequence has at least as many entries as distinct values, and exactly
      as many when its entries are pairwise different. */
  lemma {:induction false} ElemsCard<T>(s: seq<T>)
    ensures |Elems(s)| <= |s|
    ensures |Elems(s)| == |s| <==> Distinct(s)
  {
    if |s| > 0 {
      var p, x := s[..|s| - 1], s[|s| - 1];
      assert s == p + [x];
      ElemsCard(p);
      ElemsAppend(p, x);
      DistinctAppend(p, x);
      if x in p {
        assert Elems(p) + {x} == Elems(p);
      } else {
        assert x !in Elems(p);
      }
    }
  }

  lemma {:induction false} IntervalCard(lo: int, hi: int)
    requires lo <= hi
    ensures |Interval(lo, hi)| == hi - lo
    decreases hi - lo
  {
    if lo < hi {
      IntervalCard(lo, hi - 1);
      assert hi - 1 !in Interval(lo, hi - 1);
    }
  }

  lemma {:induction false} SubsetCard<T>(a: set<T>, b: set<T>)
    requires a <= b
    ensures |a| <= |b|
    ensures |a| == |b| ==> a == b
  {
    assert b == a + (b - a);
    assert a * (b - a) == {};
    if |a| == |b| {
      assert |b - a| == 0;
      assert b - a == {};
    }
  }

  /** Pigeonhole: hi - lo pairwise different values drawn from [lo, hi) take
      every value of that interval. */
  lemma {:induction false} DistinctFillsInterval(s: seq<int>, lo: int, hi: int)
    requires Distinct(s) && |s| == hi - lo
    requires forall i :: 0 <= i < |s| ==> lo <= s[i] < hi
    ensures forall x :: lo <= x < hi ==> x in s
  {
    var e, r := Elems(s), Interval(lo, hi);
    assert e <= r;
    ElemsCard(s);
    IntervalCard(lo, hi);
    SubsetCard(e, r);
    forall x | lo <= x < hi
      ensures x in s
    {
      assert x in r;
    }
  }

  /** Pigeonhole, the other way: more than hi - lo values drawn from
      [lo, hi) cannot be pairwise different. */
  lemma {:induction false} CrowdedRepeats(s: seq<int>, lo: int, hi: int)
    requires lo <= hi < lo + |s|
    requires forall i :: 0 <= i < |s| ==> lo <= s[i] < hi
    ensures !Distinct(s)
  {
    var e, r := Elems(s), Interval(lo, hi);
    assert e <= r;
    SubsetCard(e, r);
    IntervalCard(lo, hi);
    ElemsCard(s);
  }

  /** A sequence that takes every value of [lo, hi) has at least hi - lo entries. */
  lemma CoveredInterval(s: seq<int>, lo: int, hi: int)
    requires lo <= hi
    requires forall x :: lo <= x < hi ==> x in s
    ensures |s| >= hi - lo
  {
    var e, r := Elems(s), Interval(lo, hi);
    assert r <= e;
    IntervalCard(lo, hi);
    SubsetCard(r, e);
    ElemsCard(s);
  }
}

/** The spectrum scanner that reports quiet stretches, as inclusive index pairs. */
module Whitespace {

  datatype Region = Region(first: nat, last: nat)

  ghost predicate Quiet(p: seq<real>, floor: real, i: int) {
    0 <= i < |p| && p[i] <= floor
  }

  /** A stretch of quiet bins that cannot be extended on either side. */
  ghost predicate MaximalRun(p: seq<real>, floor: real, r: Region) {
    && r.first <= r.last < |p|
    && (forall i :: r.first <= i <= r.last ==> Quiet(p, floor, i))
    && !Quiet(p, floor, r.first - 1) && !Quiet(p, floor, r.last + 1)
  }

  /** Reported: maximal runs of two bins or more, and one of any length at the very end. */
  ghost predicate Reported(p: seq<real>, floor: real, r: Region) {
    MaximalRun(p, floor, r) && (r.first < r.last || r.last == |p| - 1)
  }

  method FindWhiteSpace(p: seq<real>, floor: real) returns (regions: seq<Region>)
    ensures forall r :: r in regions <==> Reported(p, floor, r)
    ensures forall i, j :: 0 <= i < j < |regions| ==> regions[i].last + 1 < regions[j].first
  {
    regions := [];
    var start: int := -1;
    for i := 0 to |p|
      invariant -1 <= start < i
      // no run is open: the previous bin is noisy; otherwise the open run reaches the previous bin
      invariant start == -1 ==> !Quiet(p, floor, i - 1)
      invariant start >= 0 ==> (forall k :: start <= k < i ==> Quiet(p, floor, k)) && !Quiet(p, floor, start - 1)
      // the closed runs of two bins or more are reported, in order
      invariant forall r :: r in regions <==>
        MaximalRun(p, floor, r) && r.first < r.last && r.last + 1 < (if start >= 0 then start else i)
      invariant forall a, b :: 0 <= a < b < |regions| ==> regions[a].last + 1 < regions[b].first
    {
      ghost var before := regions;
      if p[i] <= floor {
        if start == -1 {
          start := i;
        }
      } else {
        if start >= 0 {
          if i - start > 1 {
            regions := regions + [Region(start, i - 1)];
          }
          ClosedRun(p, floor, start, i, before, regions);
        }
        start := -1;
      }
    }
    if start >= 0 {
      ghost var before := regions;
      regions := regions + [Region(start, |p| - 1)];
      forall r ensures r in regions <==> Reported(p, floor, r) {
        if MaximalRun(p, floor, r) { OpenRun(p, floor, start, |p|, r); }
      }
    }
  }

  /** A maximal run that ends at or after an open run's start is that run or lies beyond it. */
  lemma OpenRun(p: seq<real>, floor: real, start: nat, end: nat, r: Region)
    requires start < end <= |p| && MaximalRun(p, floor, r)
    requires (forall k :: start <= k < end ==> Quiet(p, floor, k)) && !Quiet(p, floor, start - 1)
    ensures r.last + 1 < start || r.first == start || r.first >= end
    ensures r.first == start && !Quiet(p, floor, end) ==> r.last == end - 1
  {
    assert start <= r.first - 1 < end ==> Quiet(p, floor, r.first - 1);
    assert r.first <= start - 1 <= r.last ==> Quiet(p, floor, start - 1);
    assert start <= r.last + 1 < end ==> Quiet(p, floor, r.last + 1);
    assert r.first <= end <= r.last ==> Quiet(p, floor, end);
  }

  lemma ClosedRun(p: seq<real>, floor: real, start: nat, i: nat, before: seq<Region>, after: seq<Region>)
    requires start < i < |p| && !Quiet(p, floor, i)
    requires (forall k :: start <= k < i ==> Quiet(p, floor, k)) && !Quiet(p, floor, start - 1)
    requires forall r :: r in before <==> MaximalRun(p, floor, r) && r.first < r.last && r.last + 1 < start
    requires after == if i - start > 1 then before + [Region(start, i - 1)] else before
    ensures forall r :: r in after <==> MaximalRun(p, floor, r) && r.first < r.last && r.last + 1 < i + 1
  {
    forall r ensures r in after <==> MaximalRun(p, floor, r) && r.first < r.last && r.last + 1 < i + 1 {
      if MaximalRun(p, floor, r) { OpenRun(p, floor, start, i, r); }
    }
  }
}

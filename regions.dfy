/**
 * Unpredictable-region detection for the parking-availability plots: a
 * volatility mask (one boolean per time step) is compressed into the list of
 * half-open index intervals [start, end) that are its maximal runs of `true`.
 *
 * The scan itself is `FindUnpredictableRegions`. What it must produce is fixed
 * by `IsRegionsOf` (in bounds, separated, exact cover, maximal), and
 * `RegionsUnique` shows that this characterisation admits exactly one list,
 * so everything proved about lists satisfying it is about the scan's result.
 */
module Regions {

  /** A half-open interval [start, end) of time-step indices. */
  datatype Region = Region(start: int, end: int)

  /** Index i lies inside region r. */
  predicate Contains(r: Region, i: int)
  {
    r.start <= i < r.end
  }

  /** Index i lies inside some region of rs. */
  ghost predicate Covered(rs: seq<Region>, i: int)
  {
    exists k :: 0 <= k < |rs| && Contains(rs[k], i)
  }

  /** Every region is a non-empty interval of indices of the mask. */
  ghost predicate InBounds(mask: seq<bool>, rs: seq<Region>)
  {
    forall k :: 0 <= k < |rs| ==> 0 <= rs[k].start < rs[k].end <= |mask|
  }

  /** Regions come in increasing order, with at least one index between any two. */
  ghost predicate Separated(rs: seq<Region>)
  {
    forall j, k :: 0 <= j < k < |rs| ==> rs[j].end < rs[k].start
  }

  /** An index of the mask is covered by a region exactly when the mask is set there. */
  ghost predicate ExactCover(mask: seq<bool>, rs: seq<Region>)
  {
    forall i :: 0 <= i < |mask| ==> (mask[i] <==> Covered(rs, i))
  }

  /** No region can be extended: the index just before it and the index just
      after it are either outside the mask or unset. */
  ghost predicate Maximal(mask: seq<bool>, rs: seq<Region>)
  {
    forall k :: 0 <= k < |rs| ==>
      (0 < rs[k].start <= |mask| ==> !mask[rs[k].start - 1]) &&
      (0 <= rs[k].end < |mask| ==> !mask[rs[k].end])
  }

  /** rs is the list of maximal runs of `true` in mask, in order. */
  ghost predicate IsRegionsOf(mask: seq<bool>, rs: seq<Region>)
  {
    InBounds(mask, rs) && Separated(rs) && ExactCover(mask, rs) && Maximal(mask, rs)
  }

  /** Element-wise `or` of two masks of the same length (the `|` of two
      boolean arrays done by the plotting code before the scan). */
  function CombineMasks(a: seq<bool>, b: seq<bool>): (combined: seq<bool>)
    requires |a| == |b|
  {
    seq(|a|, i requires 0 <= i < |a| => a[i] || b[i])
  }

  /**
   * The left-to-right scan: `inRegion` says whether a run of `true` is open
   * and `start` where it began; a run is closed at the first `false` after it,
   * and a run still open at the end is closed at |mask|.
   */
  method FindUnpredictableRegions(mask: seq<bool>) returns (regions: seq<Region>)
    ensures InBounds(mask, regions)
    ensures Separated(regions)
    ensures ExactCover(mask, regions)
    ensures Maximal(mask, regions)
  {
    regions := [];
    var inRegion := false;
    var start := 0;
    var i := 0;
    while i < |mask|
      invariant 0 <= i <= |mask|
      invariant forall k :: 0 <= k < |regions| ==> 0 <= regions[k].start < regions[k].end < i
      invariant Separated(regions)
      invariant Maximal(mask, regions)
      invariant inRegion ==> 0 <= start < i
      invariant inRegion ==> forall k :: 0 <= k < |regions| ==> regions[k].end < start
      invariant inRegion ==> start == 0 || !mask[start - 1]
      invariant !inRegion && 0 < i ==> !mask[i - 1]
      invariant forall j :: 0 <= j < i ==>
        (mask[j] <==> Covered(regions, j) || (inRegion && start <= j))
    {
      var val := mask[i];
      if val && !inRegion {
        inRegion := true;
        start := i;
      } else if !val && inRegion {
        inRegion := false;
        AppendRegion(mask, regions, Region(start, i));
        regions := regions + [Region(start, i)];
      }
      NotCoveredBeyond(regions, i);
      i := i + 1;
    }
    if inRegion {
      AppendRegion(mask, regions, Region(start, |mask|));
      regions := regions + [Region(start, |mask|)];
    }
  }

  /** Appending a region adds exactly its indices to the covered ones. */
  lemma CoveredAppend(rs: seq<Region>, r: Region)
    ensures forall i :: Covered(rs + [r], i) <==> Covered(rs, i) || Contains(r, i)
  {
    var rs' := rs + [r];
    forall i | Covered(rs, i) ensures Covered(rs', i) {
      var k :| 0 <= k < |rs| && Contains(rs[k], i);
      assert rs'[k] == rs[k];
    }
    forall i | Contains(r, i) ensures Covered(rs', i) {
      assert rs'[|rs|] == r;
    }
    forall i | Covered(rs', i) ensures Covered(rs, i) || Contains(r, i) {
      var k :| 0 <= k < |rs'| && Contains(rs'[k], i);
      if k < |rs| {
        assert rs[k] == rs'[k];
      }
    }
  }

  /** Appending a region that starts after every region of rs and cannot be
      extended keeps the list separated and maximal. */
  lemma AppendRegion(mask: seq<bool>, rs: seq<Region>, r: Region)
    requires Separated(rs) && Maximal(mask, rs)
    requires forall k :: 0 <= k < |rs| ==> rs[k].end < r.start
    requires 0 < r.start <= |mask| ==> !mask[r.start - 1]
    requires 0 <= r.end < |mask| ==> !mask[r.end]
    ensures Separated(rs + [r]) && Maximal(mask, rs + [r])
    ensures forall i :: Covered(rs + [r], i) <==> Covered(rs, i) || Contains(r, i)
  {
    var rs' := rs + [r];
    assert forall k :: 0 <= k < |rs| ==> rs'[k] == rs[k];
    assert rs'[|rs|] == r;
    CoveredAppend(rs, r);
  }

  /** An index at or past every region's end is not covered. */
  lemma NotCoveredBeyond(rs: seq<Region>, i: int)
    requires forall k :: 0 <= k < |rs| ==> rs[k].end <= i
    ensures !Covered(rs, i)
  {
  }

  /** The first index a region may start at: 0 for the first, just past the
      previous region's end for the others. */
  function GapStart(rs: seq<Region>, k: int): (first: int)
    requires 0 <= k <= |rs|
  {
    if k == 0 then 0 else rs[k - 1].end
  }

  /** Where the gap before region k stops: its start, or |mask| after the last. */
  function GapEnd(mask: seq<bool>, rs: seq<Region>, k: int): (stop: int)
    requires 0 <= k <= |rs|
  {
    if k < |rs| then rs[k].start else |mask|
  }

  /** Every index of the gap before region k (or after the last region) is unset. */
  lemma GapIsFalse(mask: seq<bool>, rs: seq<Region>, k: int)
    requires IsRegionsOf(mask, rs)
    requires 0 <= k <= |rs|
    ensures 0 <= GapStart(rs, k) && GapEnd(mask, rs, k) <= |mask|
    ensures forall i :: GapStart(rs, k) <= i < GapEnd(mask, rs, k) ==> !mask[i]
  {
  }

  /** Every index of region k is set, and the region starts strictly after the
      previous region's end (so no earlier than the gap before it). */
  lemma RegionIsTrue(mask: seq<bool>, rs: seq<Region>, k: int)
    requires IsRegionsOf(mask, rs)
    requires 0 <= k < |rs|
    ensures 0 < k ==> rs[k - 1].end < rs[k].start
    ensures GapStart(rs, k) <= rs[k].start
    ensures forall i :: rs[k].start <= i < rs[k].end ==> mask[i]
  {
  }

  /** Two lists of regions of the same mask agree at k once they agree before it. */
  lemma SameRegionAt(mask: seq<bool>, rs1: seq<Region>, rs2: seq<Region>, k: int)
    requires IsRegionsOf(mask, rs1) && IsRegionsOf(mask, rs2)
    requires 0 <= k < |rs1| && k < |rs2|
    requires GapStart(rs1, k) == GapStart(rs2, k)
    ensures rs1[k] == rs2[k]
  {
    GapIsFalse(mask, rs1, k);
    GapIsFalse(mask, rs2, k);
    RegionIsTrue(mask, rs1, k);
    RegionIsTrue(mask, rs2, k);
    assert mask[rs1[k].start] && mask[rs2[k].start];
    assert rs1[k].start == rs2[k].start;
    assert rs1[k].end == rs2[k].end;
  }

  /** Two lists of regions of the same mask agree on their first k regions. */
  lemma {:induction false} SamePrefix(mask: seq<bool>, rs1: seq<Region>, rs2: seq<Region>, k: int)
    requires IsRegionsOf(mask, rs1) && IsRegionsOf(mask, rs2)
    requires 0 <= k <= |rs1| && k <= |rs2|
    ensures rs1[..k] == rs2[..k]
    decreases k
  {
    if k > 0 {
      SamePrefix(mask, rs1, rs2, k - 1);
      if k > 1 {
        assert rs1[k - 2] == rs1[..k - 1][k - 2] == rs2[..k - 1][k - 2] == rs2[k - 2];
      }
      SameRegionAt(mask, rs1, rs2, k - 1);
      assert rs1[..k] == rs1[..k - 1] + [rs1[k - 1]];
      assert rs2[..k] == rs2[..k - 1] + [rs2[k - 1]];
    }
  }

  /** The characterisation determines the regions: a mask has exactly one list
      of maximal runs, so the scan is deterministic and calling it twice on the
      same mask gives the same list. */
  lemma RegionsUnique(mask: seq<bool>, rs1: seq<Region>, rs2: seq<Region>)
    requires IsRegionsOf(mask, rs1) && IsRegionsOf(mask, rs2)
    ensures rs1 == rs2
  {
    var n := if |rs1| <= |rs2| then |rs1| else |rs2|;
    SamePrefix(mask, rs1, rs2, n);
    if n > 0 {
      assert rs1[n - 1] == rs1[..n][n - 1] == rs2[..n][n - 1] == rs2[n - 1];
    }
    assert GapStart(rs1, n) == GapStart(rs2, n);
    GapIsFalse(mask, rs1, n);
    GapIsFalse(mask, rs2, n);
    forall k | 0 <= k < |rs1| ensures GapStart(rs1, k) <= rs1[k].start && mask[rs1[k].start] {
      RegionIsTrue(mask, rs1, k);
    }
    forall k | 0 <= k < |rs2| ensures GapStart(rs2, k) <= rs2[k].start && mask[rs2[k].start] {
      RegionIsTrue(mask, rs2, k);
    }
    assert |rs1| == |rs2|;
    assert rs1 == rs1[..n] && rs2 == rs2[..n];
  }

  /** Region k starts at index 2k or later, since each region and the gap after it
      take at least one index each. */
  lemma {:induction false} StartLowerBound(mask: seq<bool>, rs: seq<Region>, k: int)
    requires IsRegionsOf(mask, rs)
    requires 0 <= k < |rs|
    ensures 2 * k <= rs[k].start
    decreases k
  {
    if k > 0 {
      StartLowerBound(mask, rs, k - 1);
      assert rs[k - 1].end < rs[k].start;
    }
  }

  /** A mask of N steps has at most (N + 1) / 2 regions (so R <= N). */
  lemma RegionCountBound(mask: seq<bool>, rs: seq<Region>)
    requires IsRegionsOf(mask, rs)
    ensures 2 * |rs| <= |mask| + 1
  {
    if |rs| > 0 {
      StartLowerBound(mask, rs, |rs| - 1);
    }
  }

  /** A mask with no step set (in particular the empty mask) has no regions. */
  lemma NoRegionsWhenAllFalse(mask: seq<bool>, rs: seq<Region>)
    requires forall i :: 0 <= i < |mask| ==> !mask[i]
    requires IsRegionsOf(mask, rs)
    ensures rs == []
  {
    assert IsRegionsOf(mask, []);
    RegionsUnique(mask, rs, []);
  }

  /** A non-empty mask with every step set is one region spanning all of it. */
  lemma OneRegionWhenAllTrue(mask: seq<bool>, rs: seq<Region>)
    requires |mask| > 0
    requires forall i :: 0 <= i < |mask| ==> mask[i]
    requires IsRegionsOf(mask, rs)
    ensures rs == [Region(0, |mask|)]
  {
    var whole := [Region(0, |mask|)];
    forall i | 0 <= i < |mask| ensures Covered(whole, i) {
      assert Contains(whole[0], i);
    }
    RegionsUnique(mask, rs, whole);
  }

  /** The worked example: a mask of seven steps with two runs. */
  const ExampleMask: seq<bool> := [false, false, true, true, false, true, false]

  /** Its two runs, [2, 4) and [5, 6), cover exactly its set steps. */
  lemma ExampleCover()
    ensures ExactCover(ExampleMask, [Region(2, 4), Region(5, 6)])
  {
    var expected := [Region(2, 4), Region(5, 6)];
    forall i | 0 <= i < |ExampleMask| ensures ExampleMask[i] <==> Covered(expected, i) {
      if 2 <= i < 4 {
        assert Contains(expected[0], i);
      } else if i == 5 {
        assert Contains(expected[1], i);
      } else {
        assert !ExampleMask[i];
        assert !Contains(expected[0], i) && !Contains(expected[1], i);
      }
    }
  }

  /** The mask F F T T F T F has exactly the regions [2, 4) and [5, 6). */
  lemma ExampleRegions(rs: seq<Region>)
    requires IsRegionsOf(ExampleMask, rs)
    ensures rs == [Region(2, 4), Region(5, 6)]
  {
    var expected := [Region(2, 4), Region(5, 6)];
    assert InBounds(ExampleMask, expected) && Separated(expected) && Maximal(ExampleMask, expected);
    ExampleCover();
    RegionsUnique(ExampleMask, rs, expected);
  }

  /** Scanning the mask F F T T F T F yields [2, 4) and [5, 6). */
  method ScanExampleMask() returns (regions: seq<Region>)
    ensures regions == [Region(2, 4), Region(5, 6)]
  {
    regions := FindUnpredictableRegions(ExampleMask);
    ExampleRegions(regions);
  }

  /** The regions of the combined mask cover an index exactly when the regions
      of either mask do. */
  lemma CombinedRegionsCoverEither(a: seq<bool>, b: seq<bool>,
                                   ra: seq<Region>, rb: seq<Region>, r: seq<Region>)
    requires |a| == |b|
    requires IsRegionsOf(a, ra) && IsRegionsOf(b, rb)
    requires IsRegionsOf(CombineMasks(a, b), r)
    ensures forall i :: 0 <= i < |a| ==> (Covered(r, i) <==> Covered(ra, i) || Covered(rb, i))
  {
  }
}

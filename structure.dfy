/** One scan axis (structure.py): the samples of one structure and field
    direction, the grid of E_z values bracketed by the limits, the outer and
    inner ranges, the anticrossing minimum, and the points the refinement
    steps would ask the solver for. A solver run is not made here: each step
    returns the E_z values it would request. */
module Structures {
  import opened Basics
  import opened Common
  import opened Calculations
  import opened Fit

  // ---------------------------------------------------------------------
  // Grid lists
  // ---------------------------------------------------------------------

  ghost predicate NonDecreasing(s: seq<real>)
  {
    forall i, j :: 0 <= i <= j < |s| ==> s[i] <= s[j]
  }

  ghost predicate SortedByEz(calcs: seq<Calculation>)
  {
    forall i, j :: 0 <= i <= j < |calcs| ==> calcs[i].e.z <= calcs[j].e.z
  }

  function EzOf(calcs: seq<Calculation>): (r: seq<real>)
    ensures |r| == |calcs| && forall k :: 0 <= k < |calcs| ==> r[k] == calcs[k].e.z
  {
    seq(|calcs|, k requires 0 <= k < |calcs| => calcs[k].e.z)
  }

  /** E_z_list: the samples' E_z values, with limits[0] put in front when it
      is below the first and limits[1] put behind when it is above the last;
      just the two limits when there are no samples. */
  function EzList(calcs: seq<Calculation>, limits: (real, real)): (r: seq<real>)
    ensures forall k :: 0 <= k < |calcs| ==> calcs[k].e.z in r
    ensures forall x :: x in r ==> x == limits.0 || x == limits.1 || exists k :: 0 <= k < |calcs| && calcs[k].e.z == x
    ensures |calcs| <= |r| <= |calcs| + 2
  {
    var ez := EzOf(calcs);
    BracketedMembers(ez, limits);
    Bracketed(ez, limits)
  }

  lemma BracketedMembers(ez: seq<real>, limits: (real, real))
    ensures forall x :: x in ez ==> x in Bracketed(ez, limits)
    ensures forall x :: x in Bracketed(ez, limits) ==> x in ez || x == limits.0 || x == limits.1
  {
    var r := Bracketed(ez, limits);
    forall x | x in r
      ensures x in ez || x == limits.0 || x == limits.1
    {
      assert x in multiset(r);
      if x !in ez {
        assert x in multiset(r) - multiset(ez);
      }
    }
    forall x | x in ez
      ensures x in r
    {
      assert x in multiset(ez);
    }
  }

  /** A list of E_z values with limits[0] put in front when it is below the
      first and limits[1] put behind when it is above the last; just the two
      limits for an empty list. */
  function Bracketed(ez: seq<real>, limits: (real, real)): (r: seq<real>)
    ensures multiset(ez) <= multiset(r)
    ensures multiset(r) - multiset(ez) <= multiset{limits.0, limits.1}
    ensures |ez| <= |r| <= |ez| + 2
  {
    if ez == [] then [limits.0, limits.1]
    else (if limits.0 < ez[0] then [limits.0] else []) + ez + (if limits.1 > ez[|ez| - 1] then [limits.1] else [])
  }

  function MinR(a: real, b: real): real { if a <= b then a else b }
  function MaxR(a: real, b: real): real { if a >= b then a else b }

  /** Over sorted samples the grid is sorted, starts at the smaller of
      limits[0] and the first E_z, ends at the larger of limits[1] and the
      last E_z, and holds the samples' E_z values as one contiguous block. */
  lemma EzListShape(calcs: seq<Calculation>, limits: (real, real))
    requires SortedByEz(calcs) && calcs != []
    ensures var r, ez := EzList(calcs, limits), EzOf(calcs);
      var o := if limits.0 < ez[0] then 1 else 0;
      NonDecreasing(r) && r[0] == MinR(limits.0, ez[0]) && r[|r| - 1] == MaxR(limits.1, ez[|ez| - 1])
      && o + |ez| <= |r| <= |ez| + 2 && r[o..o + |ez|] == ez
  {
    EzOfSorted(calcs);
    BracketedShape(EzOf(calcs), limits);
  }

  lemma BracketedShape(ez: seq<real>, limits: (real, real))
    requires NonDecreasing(ez) && ez != []
    ensures var r := Bracketed(ez, limits);
      var o := if limits.0 < ez[0] then 1 else 0;
      NonDecreasing(r) && r[0] == MinR(limits.0, ez[0]) && r[|r| - 1] == MaxR(limits.1, ez[|ez| - 1])
      && o + |ez| <= |r| <= |ez| + 2 && r[o..o + |ez|] == ez
  {
    var front: seq<real> := if limits.0 < ez[0] then [limits.0] else [];
    var back: seq<real> := if limits.1 > ez[|ez| - 1] then [limits.1] else [];
    MiddleOfThree(front, ez, back);
    BracketedSorted(front, ez, back);
  }

  lemma EzOfSorted(calcs: seq<Calculation>)
    requires SortedByEz(calcs)
    ensures NonDecreasing(EzOf(calcs))
  {
  }

  lemma BracketedSorted(front: seq<real>, ez: seq<real>, back: seq<real>)
    requires NonDecreasing(ez) && ez != [] && |front| <= 1 && |back| <= 1
    requires front != [] ==> front[0] <= ez[0]
    requires back != [] ==> ez[|ez| - 1] <= back[0]
    ensures NonDecreasing(front + ez + back)
  {
    ConcatSorted(front, ez);
    ConcatSorted(front + ez, back);
  }

  lemma MiddleOfThree<T>(a: seq<T>, b: seq<T>, c: seq<T>)
    ensures (a + b + c)[|a|..|a| + |b|] == b
  {
  }

  lemma ConcatSorted(a: seq<real>, b: seq<real>)
    requires NonDecreasing(a) && NonDecreasing(b)
    requires a != [] && b != [] ==> a[|a| - 1] <= b[0]
    ensures NonDecreasing(a + b)
  {
    forall i, j | 0 <= i <= j < |a + b|
      ensures (a + b)[i] <= (a + b)[j]
    {
      if i < |a| && j >= |a| {
        assert a[i] <= a[|a| - 1] && b[0] <= b[j - |a|];
      }
    }
  }

  lemma EzListEmpty(limits: (real, real))
    ensures EzList([], limits) == [limits.0, limits.1]
  {
  }

  /** E_list_in_range: the grid values inside the range, edges included. */
  function InRangeList(xs: seq<real>, rng: (real, real)): (r: seq<real>)
    ensures |r| <= |xs|
    ensures forall k :: 0 <= k < |r| ==> rng.0 <= r[k] <= rng.1 && r[k] in xs
    ensures forall x :: x in xs && rng.0 <= x <= rng.1 ==> x in r
  {
    if xs == [] then []
    else (if rng.0 <= xs[0] <= rng.1 then [xs[0]] else []) + InRangeList(xs[1..], rng)
  }

  lemma {:induction false} InRangeListSorted(xs: seq<real>, rng: (real, real))
    requires NonDecreasing(xs)
    ensures NonDecreasing(InRangeList(xs, rng))
  {
    if xs != [] {
      InRangeListSorted(xs[1..], rng);
      var t := InRangeList(xs[1..], rng);
      forall k | 0 <= k < |t| ensures xs[0] <= t[k] {
        var m :| 0 <= m < |xs[1..]| && xs[1..][m] == t[k];
      }
    }
  }

  /** E_diff_list_in_range: the gaps between neighbouring grid values. */
  function Diffs(xs: seq<real>): (r: seq<real>)
    ensures |xs| > 0 ==> |r| == |xs| - 1
    ensures |xs| == 0 ==> r == []
  {
    if |xs| <= 1 then [] else seq(|xs| - 1, k requires 0 <= k < |xs| - 1 => xs[k + 1] - xs[k])
  }

  function Sum(s: seq<real>): real
  {
    if s == [] then 0.0 else Sum(s[..|s| - 1]) + s[|s| - 1]
  }

  /** The gaps add up to the distance from the first to the last value. */
  lemma {:induction false} DiffsTelescope(xs: seq<real>)
    requires |xs| >= 1
    ensures Sum(Diffs(xs)) == xs[|xs| - 1] - xs[0]
  {
    if |xs| > 1 {
      var p := xs[..|xs| - 1];
      DiffsTelescope(p);
      assert Diffs(xs)[..|xs| - 2] == Diffs(p);
    }
  }

  /** Over a sorted grid no gap is negative or wider than the grid. */
  lemma DiffsBounded(xs: seq<real>)
    requires NonDecreasing(xs) && |xs| >= 1
    ensures forall k :: 0 <= k < |Diffs(xs)| ==> 0.0 <= Diffs(xs)[k] <= xs[|xs| - 1] - xs[0]
  {
    forall k | 0 <= k < |Diffs(xs)|
      ensures 0.0 <= Diffs(xs)[k] <= xs[|xs| - 1] - xs[0]
    {
      assert Diffs(xs)[k] == xs[k + 1] - xs[k];
      assert xs[0] <= xs[k] && xs[k + 1] <= xs[|xs| - 1];
    }
  }

  /** E_diff_list_in_threshold: each grid value paired with the gap to its
      successor, keeping in order the pairs whose gap reaches the threshold. */
  function ThresholdPairs(xs: seq<real>, threshold: real): (r: seq<(real, real)>)
    ensures |r| <= |xs|
    ensures forall m :: 0 <= m < |r| ==> r[m].1 >= threshold && r[m].0 in xs
  {
    if |xs| < 2 then []
    else (if xs[1] - xs[0] >= threshold then [(xs[0], xs[1] - xs[0])] else []) + ThresholdPairs(xs[1..], threshold)
  }

  /** Every kept pair is a grid value and the gap after it, that gap
      reaching the threshold. */
  lemma {:induction false} ThresholdPairsSound(xs: seq<real>, threshold: real, m: nat)
    requires m < |ThresholdPairs(xs, threshold)|
    ensures var p := ThresholdPairs(xs, threshold)[m];
      p.1 >= threshold && exists k :: 0 <= k < |xs| - 1 && p == (xs[k], xs[k + 1] - xs[k])
  {
    var t := xs[1..];
    var head: seq<(real, real)> := if xs[1] - xs[0] >= threshold then [(xs[0], xs[1] - xs[0])] else [];
    if m >= |head| {
      ThresholdPairsSound(t, threshold, m - |head|);
      var p := ThresholdPairs(t, threshold)[m - |head|];
      var k :| 0 <= k < |t| - 1 && p == (t[k], t[k + 1] - t[k]);
      assert p == (xs[k + 1], xs[k + 2] - xs[k + 1]);
    } else {
      assert ThresholdPairs(xs, threshold)[m] == (xs[0], xs[1] - xs[0]);
    }
  }

  /** Every grid value whose following gap reaches the threshold is kept. */
  lemma {:induction false} ThresholdPairsComplete(xs: seq<real>, threshold: real, k: nat)
    requires k < |xs| - 1 && xs[k + 1] - xs[k] >= threshold
    ensures (xs[k], xs[k + 1] - xs[k]) in ThresholdPairs(xs, threshold)
  {
    if k > 0 {
      var t := xs[1..];
      assert t[k - 1] == xs[k] && t[k] == xs[k + 1];
      ThresholdPairsComplete(t, threshold, k - 1);
    }
  }

  // ---------------------------------------------------------------------
  // Ranges
  // ---------------------------------------------------------------------

  /** The values of xs not above b, in order. */
  function AtMost(xs: seq<real>, b: real): (r: seq<real>)
    ensures forall x :: x in r <==> x in xs && x <= b
  {
    if xs == [] then []
    else
      assert xs == [xs[0]] + xs[1..];
      (if xs[0] <= b then [xs[0]] else []) + AtMost(xs[1..], b)
  }

  /** The values of xs not below b, in order. */
  function AtLeast(xs: seq<real>, b: real): (r: seq<real>)
    ensures forall x :: x in r <==> x in xs && x >= b
  {
    if xs == [] then []
    else
      assert xs == [xs[0]] + xs[1..];
      (if xs[0] >= b then [xs[0]] else []) + AtLeast(xs[1..], b)
  }

  function MinOf(s: seq<real>): (r: real)
    requires s != []
    ensures r in s && forall x :: x in s ==> r <= x
  {
    if |s| == 1 then s[0]
    else
      var rest := MinOf(s[1..]);
      assert forall x :: x in s ==> x == s[0] || x in s[1..];
      if s[0] <= rest then s[0] else rest
  }

  /** The largest value of xs not above b. */
  function MaxAtMost(xs: seq<real>, b: real): (r: Option<real>)
    ensures r.Some? <==> exists x :: x in xs && x <= b
    ensures r.Some? ==> r.value in xs && r.value <= b && forall x :: x in xs && x <= b ==> x <= r.value
  {
    var below := AtMost(xs, b);
    if below == [] then None
    else
      assert below[0] in below;
      Some(MaxOf(below))
  }

  /** The smallest value of xs not below b. */
  function MinAtLeast(xs: seq<real>, b: real): (r: Option<real>)
    ensures r.Some? <==> exists x :: x in xs && x >= b
    ensures r.Some? ==> r.value in xs && r.value >= b && forall x :: x in xs && x >= b ==> x >= r.value
  {
    var above := AtLeast(xs, b);
    if above == [] then None
    else
      assert above[0] in above;
      Some(MinOf(above))
  }

  /** minimum_range: the tightest grid values enclosing the window of width
      `vicinity` around the minimum; None when the grid does not reach past
      the window on both sides. */
  function MinimumRange(grid: seq<real>, minimum: real, vicinity: real): (r: Option<(real, real)>)
    ensures r.Some? <==> ((exists x :: x in grid && x <= minimum - vicinity / 2.0)
      && (exists x :: x in grid && x >= minimum + vicinity / 2.0))
    ensures r.Some? ==> (r.value.0 in grid && r.value.1 in grid
      && r.value.0 <= minimum - vicinity / 2.0 && minimum + vicinity / 2.0 <= r.value.1)
    ensures r.Some? ==> forall x :: x in grid && r.value.0 < x < r.value.1 ==>
      minimum - vicinity / 2.0 < x < minimum + vicinity / 2.0
  {
    var left, right := MaxAtMost(grid, minimum - vicinity / 2.0), MinAtLeast(grid, minimum + vicinity / 2.0);
    if left.Some? && right.Some? then Some((left.value, right.value)) else None
  }

  /** E_range: the minimum window when a minimum is given, else the outer or
      the inner range. None stands for the window that does not exist, where
      the source fails on indexing None. */
  function ERange(outerRange: (real, real), innerRange: (real, real), grid: seq<real>,
                  outer: bool, minimum: Option<real>, vicinity: real): (r: Option<(real, real)>)
    ensures minimum.None? ==> r == Some(if outer then outerRange else innerRange)
    ensures minimum.Some? ==> r == MinimumRange(grid, minimum.value, vicinity)
  {
    if minimum.Some? then MinimumRange(grid, minimum.value, vicinity)
    else Some(if outer then outerRange else innerRange)
  }

  predicate InRange(e: real, rng: (real, real)) { rng.0 <= e <= rng.1 }

  predicate InRangeExclusive(e: real, rng: (real, real)) { rng.0 < e < rng.1 }

  /** pos_in_range: the relative position in the range, −1 outside it; None
      for the division by a zero span. */
  function PosInRange(e: real, rng: (real, real)): (r: Option<real>)
    ensures r.None? <==> InRange(e, rng) && rng.0 == rng.1
    ensures !InRange(e, rng) ==> r == Some(-1.0)
    ensures InRange(e, rng) && r.Some? ==> 0.0 <= r.value <= 1.0 && r.value * (rng.1 - rng.0) == e - rng.0
  {
    if !InRange(e, rng) then Some(-1.0)
    else if rng.1 - rng.0 == 0.0 then None
    else
      FractionOfSpan(e - rng.0, rng.1 - rng.0);
      Some((e - rng.0) / (rng.1 - rng.0))
  }

  // ---------------------------------------------------------------------
  // Gaps and bounds
  // ---------------------------------------------------------------------

  function MaxOf(s: seq<real>): (r: real)
    requires s != []
    ensures r in s && forall x :: x in s ==> x <= r
  {
    if |s| == 1 then s[0]
    else
      var rest := MaxOf(s[1..]);
      assert forall x :: x in s ==> x == s[0] || x in s[1..];
      if s[0] >= rest then s[0] else rest
  }

  /** gap(outer, maximum=True): the widest gap of the in-range grid as a
      fraction of the span; 1.0 with fewer than two grid values. */
  function MaxGap(inRange: seq<real>, span: real): (r: Option<real>)
    ensures |inRange| <= 1 ==> r == Some(1.0)
    ensures r.None? <==> |inRange| > 1 && span == 0.0
  {
    if |inRange| <= 1 then Some(1.0)
    else if span == 0.0 then None
    else Some(MaxOf(Diffs(inRange)) / span)
  }

  /** gap(outer): the first and the last gap of the in-range grid as
      fractions of the span; (1.0, 1.0) with fewer than two grid values. */
  function EdgeGaps(inRange: seq<real>, span: real): (r: Option<(real, real)>)
    ensures |inRange| <= 1 ==> r == Some((1.0, 1.0))
    ensures r.None? <==> |inRange| > 1 && span == 0.0
  {
    if |inRange| <= 1 then Some((1.0, 1.0))
    else if span == 0.0 then None
    else
      var d := Diffs(inRange);
      Some((d[0] / span, d[|d| - 1] / span))
  }

  /** Over a sorted grid, every gap measured against its own non-empty range
      is a fraction between 0 and 1. */
  lemma GapsAreFractions(grid: seq<real>, rng: (real, real))
    requires NonDecreasing(grid) && rng.0 < rng.1
    ensures var xs := InRangeList(grid, rng);
      var e, m := EdgeGaps(xs, rng.1 - rng.0), MaxGap(xs, rng.1 - rng.0);
      e.Some? && m.Some? && 0.0 <= e.value.0 <= 1.0 && 0.0 <= e.value.1 <= 1.0 && 0.0 <= m.value <= 1.0
  {
    var xs := InRangeList(grid, rng);
    InRangeListSorted(grid, rng);
    if |xs| > 1 {
      var d := Diffs(xs);
      DiffsBounded(xs);
      var span := rng.1 - rng.0;
      assert xs[|xs| - 1] - xs[0] <= span;
      FractionOfSpan(d[0], span);
      FractionOfSpan(d[|d| - 1], span);
      FractionOfSpan(MaxOf(d), span);
    }
  }

  lemma FractionOfSpan(x: real, span: real)
    requires 0.0 <= x <= span && span > 0.0
    ensures 0.0 <= x / span <= 1.0 && x / span * span == x
  {
  }

  /** bound_E: the next E_z at the left edge (i = 0) or the right edge (i = 1)
      of the grid, a golden-section split of the edge gap weighted by the
      error; None for an empty pair list (IndexError) and for other i. */
  function BoundE(pairs: seq<(real, real)>, i: int, error: real): (r: Option<real>)
    ensures r.Some? <==> pairs != [] && (i == 0 || i == 1)
  {
    if pairs == [] then None
    else if i == 0 then Some(pairs[0].0 + Phi(error) * pairs[0].1)
    else if i == 1 then Some(pairs[|pairs| - 1].0 + (1.0 - Phi(error)) * pairs[|pairs| - 1].1)
    else None
  }

  /** For an error below 1 in size, the requested point lies strictly inside
      the edge gap it splits. */
  lemma BoundEInsideGap(pairs: seq<(real, real)>, i: int, error: real)
    requires pairs != [] && (i == 0 || i == 1) && 0.0 <= error * error < 1.0
    requires i == 0 ==> pairs[0].1 > 0.0
    requires i == 1 ==> pairs[|pairs| - 1].1 > 0.0
    ensures i == 0 ==> pairs[0].0 < BoundE(pairs, i, error).value < pairs[0].0 + pairs[0].1
    ensures i == 1 ==> pairs[|pairs| - 1].0 < BoundE(pairs, i, error).value < pairs[|pairs| - 1].0 + pairs[|pairs| - 1].1
  {
    ConstantBounds();
    var w := Phi(error);
    assert 0.0 < w < 1.0;
    var p := if i == 0 then pairs[0] else pairs[|pairs| - 1];
    var f := if i == 0 then w else 1.0 - w;
    assert BoundE(pairs, i, error).value == p.0 + f * p.1;
    StrictlyInside(p.0, p.1, f, BoundE(pairs, i, error).value);
  }

  lemma StrictlyInside(e: real, d: real, w: real, b: real)
    requires d > 0.0 && 0.0 < w < 1.0 && b == e + w * d
    ensures e < b < e + d
  {
    ScaledBelow(d, w);
    assert Scaled(d, w) == w * d;
  }

  /** bounds_factor: 1 / (1 − the gap on the other side), or 1.0 when the
      left gap is exactly 1. The test reads the left gap whatever the side,
      so a right gap of exactly 1 divides by zero (None). */
  function BoundsFactor(gaps: (real, real), i: int): (r: Option<real>)
    ensures gaps.0 == 1.0 ==> r == Some(1.0)
  {
    if gaps.0 != 1.0 then
      var other := if (i + 1) % 2 == 0 then gaps.0 else gaps.1;
      if 1.0 - other == 0.0 then None else Some(1.0 / (1.0 - other))
    else Some(1.0)
  }

  /** With both gaps below 1 the factor exists and is at least 1. */
  lemma BoundsFactorAtLeastOne(gaps: (real, real), i: int)
    requires 0.0 <= gaps.0 < 1.0 && 0.0 <= gaps.1 < 1.0
    ensures BoundsFactor(gaps, i).Some? && BoundsFactor(gaps, i).value >= 1.0
  {
    var other := if (i + 1) % 2 == 0 then gaps.0 else gaps.1;
    ReciprocalAtLeastOne(1.0 - other);
  }

  lemma ReciprocalAtLeastOne(x: real)
    requires 0.0 < x <= 1.0
    ensures 1.0 / x >= 1.0
  {
  }

  /** The side test reads the left gap: a left gap below 1 with a right gap
      of exactly 1 makes the left side's factor divide by zero. */
  lemma BoundsFactorRightGapOne()
    ensures BoundsFactor((0.5, 1.0), 0).None?
  {
  }

  /** calc_bounds' first choice of side: the side with the larger edge gap,
      the right on a tie, unless only one side is asked for. */
  function BoundSide(gaps: (real, real), left: bool, right: bool): (i: nat)
    ensures i < 2
    ensures right && !left ==> i == 1
    ensures left && !right ==> i == 0
    ensures left == right ==> (i == 0 <==> gaps.0 > gaps.1)
  {
    var i := if gaps.0 > gaps.1 then 0 else 1;
    if right && !left then 1 else if left && !right then 0 else i
  }

  // ---------------------------------------------------------------------
  // Filling blanks
  // ---------------------------------------------------------------------

  /** n = int(gap / threshold), and no point for a negative n. */
  function BlankCount(d: real, threshold: real): nat
    requires threshold != 0.0
  {
    var n := Trunc(d / threshold);
    if n < 0 then 0 else n
  }

  /** The j-th of n points splitting the gap of width d after e. */
  function BlankPoint(e: real, d: real, j: nat, n: nat): real
  {
    e + d * (j + 1) as real / (n + 1) as real
  }

  /** The n points E + gap·(j + 1)/(n + 1), j = 0 .. n − 1. */
  function Points(e: real, d: real, n: nat): (r: seq<real>)
    ensures |r| == n && forall j :: 0 <= j < n ==> r[j] == BlankPoint(e, d, j, n)
  {
    seq(n, j requires 0 <= j < n => BlankPoint(e, d, j, n))
  }

  /** Every point fill_blanks requests, pair after pair. */
  function BlankPoints(pairs: seq<(real, real)>, threshold: real): seq<real>
    requires threshold != 0.0
  {
    if pairs == [] then []
    else
      var p := pairs[|pairs| - 1];
      BlankPoints(pairs[..|pairs| - 1], threshold) + Points(p.0, p.1, BlankCount(p.1, threshold))
  }

  /** For a positive threshold and pairs whose gaps reach it, every pair
      gets at least one point, and every point lies strictly inside the gap
      of some pair. */
  lemma {:induction false} BlankPointsCover(pairs: seq<(real, real)>, threshold: real)
    requires threshold > 0.0 && forall m :: 0 <= m < |pairs| ==> pairs[m].1 >= threshold
    ensures |BlankPoints(pairs, threshold)| >= |pairs|
    ensures forall x :: x in BlankPoints(pairs, threshold) ==>
      exists m :: 0 <= m < |pairs| && pairs[m].0 < x < pairs[m].0 + pairs[m].1
  {
    if pairs != [] {
      var p := pairs[|pairs| - 1];
      var front := pairs[..|pairs| - 1];
      assert forall m :: 0 <= m < |front| ==> front[m] == pairs[m];
      BlankPointsCover(front, threshold);
      var n := BlankCount(p.1, threshold);
      BlankCountSplitsBelowThreshold(p.1, threshold);
      PointsSplitGapEvenly(p.0, p.1, n);
      forall x | x in BlankPoints(pairs, threshold)
        ensures exists m :: 0 <= m < |pairs| && pairs[m].0 < x < pairs[m].0 + pairs[m].1
      {
        if x in BlankPoints(front, threshold) {
          var m :| 0 <= m < |front| && front[m].0 < x < front[m].0 + front[m].1;
          assert pairs[m] == front[m];
        } else {
          var j :| 0 <= j < n && Points(p.0, p.1, n)[j] == x;
          assert pairs[|pairs| - 1] == p;
        }
      }
    }
  }

  /** fill_blanks(outer): the threshold is fill_blanks_limit times the span;
      every in-range gap reaching it is split evenly. The pair list is taken
      once, before any request. None for the division by a zero threshold,
      which happens as soon as one pair is kept. */
  method FillBlanks(inRange: seq<real>, span: real, fillLimit: real) returns (r: Option<seq<real>>)
    ensures var threshold := fillLimit * span;
      var pairs := ThresholdPairs(inRange, threshold);
      r == if threshold == 0.0 then (if pairs == [] then Some([]) else None) else Some(BlankPoints(pairs, threshold))
  {
    var threshold := fillLimit * span;
    var pairs := ThresholdPairs(inRange, threshold);
    if threshold == 0.0 {
      return if pairs == [] then Some([]) else None;
    }
    var requests := [];
    for p := 0 to |pairs|
      invariant requests == BlankPoints(pairs[..p], threshold)
    {
      var e, d := pairs[p].0, pairs[p].1;
      var n := Trunc(d / threshold);
      var count := if n < 0 then 0 else n;
      var before := requests;
      for j := 0 to count
        invariant requests == before + Points(e, d, count)[..j]
      {
        assert Points(e, d, count)[..j + 1] == Points(e, d, count)[..j] + [Points(e, d, count)[j]];
        requests := requests + [BlankPoint(e, d, j, count)];
      }
      assert Points(e, d, count)[..count] == Points(e, d, count);
      assert pairs[..p + 1][..p] == pairs[..p];
    }
    assert pairs[..|pairs|] == pairs;
    return Some(requests);
  }

  /** A kept gap gets at least one point, and after filling the pieces are
      narrower than the threshold. */
  lemma BlankCountSplitsBelowThreshold(d: real, threshold: real)
    requires threshold > 0.0 && d >= threshold
    ensures BlankCount(d, threshold) >= 1
    ensures d / (BlankCount(d, threshold) + 1) as real < threshold
  {
    var q := d / threshold;
    QuotientFacts(d, threshold);
    var n := Trunc(q);
    assert BlankCount(d, threshold) == n;
    assert 1.0 <= q < n as real + 1.0;
    StepBelow(q, (n + 1) as real, threshold);
    assert d == q * threshold;
    DivideBelow(d, (n + 1) as real, threshold);
  }

  lemma QuotientFacts(d: real, t: real)
    requires t > 0.0 && d >= t
    ensures d / t >= 1.0 && d == (d / t) * t
  {
  }

  lemma DivideBelow(d: real, m: real, t: real)
    requires m > 0.0 && d < m * t
    ensures d / m < t
  {
  }

  lemma ScaledFraction(d: real, k: real, m: real)
    requires m != 0.0
    ensures d * k / m == k * (d / m)
  {
  }

  /** The points of one gap lie strictly inside it, in increasing order, a
      constant gap / (n + 1) apart. */
  lemma PointsSplitGapEvenly(e: real, d: real, n: nat)
    requires d > 0.0
    ensures forall j :: 0 <= j < n ==> e < Points(e, d, n)[j] < e + d
    ensures forall j :: 0 <= j < n - 1 ==> Points(e, d, n)[j + 1] - Points(e, d, n)[j] == d / (n + 1) as real
  {
    forall j | 0 <= j < n
      ensures e < Points(e, d, n)[j] < e + d
    {
      PointFacts(e, d, j, n);
    }
    forall j | 0 <= j < n - 1
      ensures Points(e, d, n)[j + 1] - Points(e, d, n)[j] == d / (n + 1) as real
    {
      PointFacts(e, d, j, n);
      PointFacts(e, d, j + 1, n);
      var q := d / (n + 1) as real;
      assert (j + 2) as real * q == (j + 1) as real * q + q;
    }
  }

  lemma PointFacts(e: real, d: real, j: nat, n: nat)
    requires d > 0.0 && j < n
    ensures BlankPoint(e, d, j, n) == e + (j + 1) as real * (d / (n + 1) as real)
    ensures e < BlankPoint(e, d, j, n) < e + d
  {
    var m := (n + 1) as real;
    var q := d / m;
    ScaledFraction(d, (j + 1) as real, m);
    QuotientTimes(d, m);
    StepBelow((j + 1) as real, m, q);
  }

  lemma QuotientTimes(d: real, m: real)
    requires m > 0.0 && d > 0.0
    ensures d / m > 0.0 && m * (d / m) == d
  {
  }

  lemma StepBelow(k: real, m: real, q: real)
    requires 0.0 < k < m && q > 0.0
    ensures 0.0 < k * q < m * q
  {
  }

  // ---------------------------------------------------------------------
  // Minimum refinement steps
  // ---------------------------------------------------------------------

  /** bisection_minimum before mixing: a golden-section step from the middle
      point toward the left neighbour when its splitting is larger, else
      toward the right one; eDiff is the triplet's width relative to the
      span. */
  function BisectionPoint(e0: real, e1: real, e2: real, antiLeft: real, antiRight: real, eDiff: real): (r: real)
    ensures e0 < e1 < e2 && 0.0 <= eDiff * eDiff < 1.0 ==>
      (antiLeft > antiRight ==> e0 < r < e1) && (antiLeft <= antiRight ==> e1 < r < e2)
  {
    var w := 1.0 - Phi(eDiff);
    GoldenFraction(eDiff);
    if antiLeft > antiRight then (StepInside(e1 - e0, w); e1 - Scaled(e1 - e0, w))
    else (StepInside(e2 - e1, w); e1 + Scaled(e2 - e1, w))
  }

  /** For a relative width below 1 the golden-section step is a proper
      fraction of the half it moves in. */
  lemma GoldenFraction(eDiff: real)
    ensures 0.0 <= eDiff * eDiff < 1.0 ==> 0.0 < 1.0 - Phi(eDiff) < 1.0
  {
    ConstantBounds();
  }

  lemma StepInside(d: real, w: real)
    ensures d > 0.0 && 0.0 < w < 1.0 ==> 0.0 < Scaled(d, w) < d
  {
    if d > 0.0 && 0.0 < w < 1.0 {
      ScaledBelow(d, w);
    }
  }

  /** The requested E_z: 98 % of the bisection point plus 2 % of the middle
      of the triplet; inside an ordered triplet and for a relative width
      below 1 it lies strictly inside the triplet. */
  function BisectionTarget(e0: real, e1: real, e2: real, antiLeft: real, antiRight: real, eDiff: real): (r: real)
    ensures e0 < e1 < e2 && 0.0 <= eDiff * eDiff < 1.0 ==> e0 < r < e2
  {
    var p := BisectionPoint(e0, e1, e2, antiLeft, antiRight, eDiff);
    MixStaysInside(p, e0, e2);
    p * 0.98 + (e2 + e0) / 2.0 * 0.02
  }

  lemma MixStaysInside(p: real, e0: real, e2: real)
    ensures e0 < p < e2 ==> e0 < p * 0.98 + (e2 + e0) / 2.0 * 0.02 < e2
  {
    if e0 < p < e2 {
      MixInside(p, e0, e2);
    }
  }

  /** The rule treats both sides alike: mirroring the triplet (E_z ↦ −E_z,
      which swaps the neighbours and their splittings) mirrors the step and
      the request, as long as the two splittings differ. */
  lemma BisectionMirrored(e0: real, e1: real, e2: real, antiLeft: real, antiRight: real, eDiff: real)
    requires antiLeft != antiRight
    ensures BisectionPoint(-e2, -e1, -e0, antiRight, antiLeft, eDiff) == -BisectionPoint(e0, e1, e2, antiLeft, antiRight, eDiff)
    ensures BisectionTarget(-e2, -e1, -e0, antiRight, antiLeft, eDiff) == -BisectionTarget(e0, e1, e2, antiLeft, antiRight, eDiff)
  {
    var w := 1.0 - Phi(eDiff);
    assert Scaled(-e1 - -e2, w) == Scaled(e2 - e1, w);
    assert Scaled(-e0 - -e1, w) == Scaled(e1 - e0, w);
  }

  /** The length w·d the golden-section step moves by. */
  function Scaled(d: real, w: real): real { d * w }

  /** A proper fraction of a positive length is positive and shorter. */
  lemma ScaledBelow(d: real, w: real)
    requires d > 0.0 && 0.0 < w < 1.0
    ensures 0.0 < Scaled(d, w)
    ensures Scaled(d, w) < d
  {
    var v := 1.0 - w;
    assert d * v > 0.0;
    assert d * v == d - d * w;
    var p := d * w;
    assert Scaled(d, w) == p;
    assert p < d;
  }

  /** Mixing a point of the triplet with its middle keeps it in the triplet. */
  lemma MixInside(p: real, e0: real, e2: real)
    requires e0 < p < e2
    ensures e0 < p * 0.98 + (e2 + e0) / 2.0 * 0.02 < e2
  {
  }

  /** parabola_minimum as written: the vertex of the parabola through the
      triplet; a vertex away from the middle point is requested (mixed with
      the triplet's middle) even when it lies outside the triplet, where the
      source only prints that it skips; a vertex at the middle point asks for
      its two neighbours eps/20 away while the triplet is wider than eps.
      `diffAfterLeft` is the triplet width once the left point is in. None
      where the source fails: no vertex (ZeroDivisionError in the fit) or no
      minimum after the first request. */
  function ParabolaRequests(p0: Point, p1: Point, p2: Point, eMinDiff: real, eps: real,
                            diffAfterLeft: Option<real>): (r: Option<seq<real>>)
    ensures ParaMin(p0, p1, p2).None? ==> r.None?
  {
    var v := ParaMin(p0, p1, p2);
    if v.None? then None
    else VertexRequests(p0.x, p1.x, p2.x, v.value, eMinDiff, eps, diffAfterLeft)
  }

  /** The requests made from a vertex v once it is known. */
  function VertexRequests(e0: real, e1: real, e2: real, v: real, eMinDiff: real, eps: real,
                          diffAfterLeft: Option<real>): (r: Option<seq<real>>)
    ensures r.Some? ==> |r.value| <= 2
    ensures r.None? ==> Close(v, e1) && diffAfterLeft.None?
    ensures !Close(v, e1) && e0 <= v <= e2 ==> r.Some? && |r.value| == 1 && e0 <= r.value[0] <= e2
    ensures Close(v, e1) && r.Some? ==> forall k :: 0 <= k < |r.value| ==> Abs(r.value[k] - v) == Abs(eps) / 20.0
  {
    if !Close(v, e1) then Some([v * 0.98 + (e2 + e0) / 2.0 * 0.02])
    else if eMinDiff < eps then Some([])
    else if diffAfterLeft.None? then None
    else if diffAfterLeft.value < eps then Some([v - eps / 20.0])
    else Some([v - eps / 20.0, v + eps / 20.0])
  }

  /** Three points of α·(x − x0)² + γ whose vertex x0 lies away from the
      middle point: the request is x0 mixed with the triplet's middle,
      wherever x0 lies. */
  lemma VertexRequested(alpha: real, x0: real, gamma: real, p0: Point, p1: Point, p2: Point,
                        eMinDiff: real, eps: real, diffAfterLeft: Option<real>)
    requires alpha != 0.0 && DistinctX(p0, p1, p2) && !Close(x0, p1.x)
    requires p0.y == alpha * ((p0.x - x0) * (p0.x - x0)) + gamma
    requires p1.y == alpha * ((p1.x - x0) * (p1.x - x0)) + gamma
    requires p2.y == alpha * ((p2.x - x0) * (p2.x - x0)) + gamma
    ensures ParabolaRequests(p0, p1, p2, eMinDiff, eps, diffAfterLeft) == Some([x0 * 0.98 + (p2.x + p0.x) / 2.0 * 0.02])
  {
    ParaMinRecoversVertex(alpha, x0, gamma, p0, p1, p2);
  }

  /** The vertex of y = x² through (1, 1), (2, 4), (3, 9) is 0; the source
      requests 0.04, outside the triplet [1, 3], although it reports that it
      skips. */
  lemma ParabolaRequestsOutsideTriplet(p0: Point, p1: Point, p2: Point)
    requires p0 == Point(1.0, 1.0) && p1 == Point(2.0, 4.0) && p2 == Point(3.0, 9.0)
    ensures ParabolaRequests(p0, p1, p2, 1.0, 0.001, None) == Some([0.04])
    ensures !(p0.x < 0.04 < p2.x)
  {
    assert !Close(0.0, p1.x);
    VertexRequested(1.0, 0.0, 0.0, p0, p1, p2, 1.0, 0.001, None);
  }

  /** parabola_minimum as evidently intended (the branch structure of
      fitting_minimum): a vertex outside the triplet asks for nothing. */
  function CorrectedParabolaRequests(p0: Point, p1: Point, p2: Point, eMinDiff: real, eps: real,
                                     diffAfterLeft: Option<real>): (r: Option<seq<real>>)
    ensures ParaMin(p0, p1, p2).None? ==> r.None?
  {
    var v := ParaMin(p0, p1, p2);
    if v.None? then None
    else if !(p0.x < v.value < p2.x) then Some([])
    else VertexRequests(p0.x, p1.x, p2.x, v.value, eMinDiff, eps, diffAfterLeft)
  }

  /** With the skip in place, a request aimed at the vertex lies strictly
      inside the triplet, and the others lie eps/20 from the vertex. */
  lemma CorrectedParabolaStaysInside(p0: Point, p1: Point, p2: Point, eMinDiff: real, eps: real,
                                     diffAfterLeft: Option<real>)
    requires CorrectedParabolaRequests(p0, p1, p2, eMinDiff, eps, diffAfterLeft).Some?
    ensures var v := ParaMin(p0, p1, p2).value;
      var r := CorrectedParabolaRequests(p0, p1, p2, eMinDiff, eps, diffAfterLeft).value;
      forall k :: 0 <= k < |r| ==>
        (p0.x < r[k] < p2.x && !Close(v, p1.x)) || (Close(v, p1.x) && (r[k] == v - eps / 20.0 || r[k] == v + eps / 20.0))
  {
    var v := ParaMin(p0, p1, p2).value;
    if p0.x < v < p2.x && !Close(v, p1.x) {
      MixInside(v, p0.x, p2.x);
    }
  }

  /** On a triplet the minimum search can hand over (ordered, the middle
      splitting no larger than either neighbour's) the vertex lies inside,
      so the code as written and the corrected step request the same: with
      exact numbers the skip is never needed. */
  lemma CandidateParabolaAgrees(p0: Point, p1: Point, p2: Point, eMinDiff: real, eps: real,
                                diffAfterLeft: Option<real>)
    requires p0.x < p1.x < p2.x && p1.y <= p0.y && p1.y <= p2.y
    ensures ParabolaRequests(p0, p1, p2, eMinDiff, eps, diffAfterLeft)
      == CorrectedParabolaRequests(p0, p1, p2, eMinDiff, eps, diffAfterLeft)
  {
    if ParaMin(p0, p1, p2).Some? {
      CandidateVertexInside(p0, p1, p2);
    }
  }

  /** The triplet around a minimum update_minimum found in a sorted list
      without repeated E_z: the as-written and the corrected step agree. */
  lemma MinimumTripletAgrees(calcs: seq<Calculation>, inner: (real, real), i: nat,
                             eMinDiff: real, eps: real, diffAfterLeft: Option<real>)
    requires Candidate(calcs, inner, i)
    requires calcs[i - 1].e.z < calcs[i].e.z < calcs[i + 1].e.z
    ensures var p0, p1, p2 := Point(calcs[i - 1].e.z, Anti(calcs[i - 1])), Point(calcs[i].e.z, Anti(calcs[i])),
                              Point(calcs[i + 1].e.z, Anti(calcs[i + 1]));
      ParabolaRequests(p0, p1, p2, eMinDiff, eps, diffAfterLeft)
      == CorrectedParabolaRequests(p0, p1, p2, eMinDiff, eps, diffAfterLeft)
  {
    CandidateParabolaAgrees(Point(calcs[i - 1].e.z, Anti(calcs[i - 1])), Point(calcs[i].e.z, Anti(calcs[i])),
                            Point(calcs[i + 1].e.z, Anti(calcs[i + 1])), eMinDiff, eps, diffAfterLeft);
  }

  /** fitting_minimum with the vertex of the least-squares fit given: it
      skips a vertex outside the triplet and asks for the vertex otherwise,
      unless it is already the middle point. */
  function FittingRequests(e0: real, e1: real, e2: real, v: real): (r: seq<real>)
    ensures forall k :: 0 <= k < |r| ==> e0 < r[k] < e2
    ensures |r| <= 1 && (r == [] <==> !(e0 < v < e2) || Close(v, e1))
  {
    if !(e0 < v < e2) then []
    else if !Close(v, e1) then
      MixInside(v, e0, e2);
      [v * 0.98 + (e2 + e0) / 2.0 * 0.02]
    else []
  }

  // ---------------------------------------------------------------------
  // Strategy scheduler
  // ---------------------------------------------------------------------

  datatype Strategy = Bisection | Fitting | ParabolaStep

  /** The step gen_minimas takes on iteration k (k = 1, 2, ...). */
  function StrategyFor(k: nat, bisectionFreq: nat, parabolaFreq: nat): (s: Strategy)
    requires bisectionFreq > 0 && parabolaFreq > 0
    ensures s == Bisection <==> k % bisectionFreq == 0
    ensures s == ParabolaStep <==> k % bisectionFreq != 0 && k % parabolaFreq == 0
  {
    if k % bisectionFreq == 0 then Bisection
    else if k % parabolaFreq != 0 then Fitting
    else ParabolaStep
  }

  /** The schedule repeats with period bisection_freq · parabola_freq. */
  lemma StrategyPeriodic(k: nat, bisectionFreq: nat, parabolaFreq: nat)
    requires bisectionFreq > 0 && parabolaFreq > 0
    ensures StrategyFor(k + bisectionFreq * parabolaFreq, bisectionFreq, parabolaFreq)
      == StrategyFor(k, bisectionFreq, parabolaFreq)
  {
    ModAddMultiple(k, bisectionFreq, parabolaFreq);
    ModAddMultiple(k, parabolaFreq, bisectionFreq);
    assert parabolaFreq * bisectionFreq == bisectionFreq * parabolaFreq;
  }

  lemma ModAddMultiple(k: nat, m: nat, c: nat)
    requires m > 0
    ensures (k + m * c) % m == k % m
  {
    var q, r := k / m, k % m;
    assert k == m * q + r;
    MulAdd(m, q, c);
    ModUnique(k + m * c, m, q + c, r);
  }

  lemma MulAdd(m: nat, q: int, c: nat)
    ensures m * q + m * c == m * (q + c)
  {
  }

  lemma ModUnique(a: int, m: nat, q: int, r: int)
    requires m > 0 && 0 <= r < m && a == m * q + r
    ensures a % m == r
  {
    var q', r' := a / m, a % m;
    assert a == m * q' + r';
    if q' > q {
      assert m * q' >= m * (q + 1) by { MulMono(m, q + 1, q'); }
    } else if q' < q {
      assert m * q >= m * (q' + 1) by { MulMono(m, q' + 1, q); }
    }
  }

  lemma MulMono(m: nat, a: int, b: int)
    requires a <= b
    ensures m * a <= m * b
  {
  }

  /** With the default frequencies (bisection 5, parabola 3) the first six
      steps are fit, fit, parabola, fit, bisection, parabola. */
  lemma DefaultSchedule()
    ensures seq(6, k requires 0 <= k < 6 => StrategyFor(k + 1, 5, 3))
      == [Fitting, Fitting, ParabolaStep, Fitting, Bisection, ParabolaStep]
  {
  }

  datatype MinimaOutcome = NoMinimum | Converged | Crashed | Pending

  /** The triplet width before step k: the first from update_minimum, then
      the one observed after each solver run (None: no minimum any more). */
  function WidthBefore(first: real, observed: seq<Option<real>>, k: nat): Option<real>
    requires k <= |observed|
  {
    if k == 0 then Some(first) else observed[k - 1]
  }

  /** gen_minimas: nothing without a minimum; otherwise steps are taken in
      the scheduler's order while the triplet is at least eps wide. The
      widths after each step are supplied; the loop stops when one is below
      eps, fails when the minimum has gone (comparing None), and is left
      pending when the supplied widths run out. */
  method GenMinimas(first: Option<real>, observed: seq<Option<real>>, eps: real,
                    bisectionFreq: nat, parabolaFreq: nat) returns (plan: seq<Strategy>, outcome: MinimaOutcome)
    requires bisectionFreq > 0 && parabolaFreq > 0
    ensures first.None? <==> outcome == NoMinimum
    ensures first.None? ==> plan == []
    ensures forall j :: 0 <= j < |plan| ==> plan[j] == StrategyFor(j + 1, bisectionFreq, parabolaFreq)
    ensures first.Some? ==> forall j :: 0 <= j < |plan| ==>
      j <= |observed| && WidthBefore(first.value, observed, j).Some? && WidthBefore(first.value, observed, j).value >= eps
    ensures outcome == Converged ==> (|plan| <= |observed|
      && WidthBefore(first.value, observed, |plan|).Some? && WidthBefore(first.value, observed, |plan|).value < eps)
    ensures outcome == Crashed ==> 1 <= |plan| <= |observed| && WidthBefore(first.value, observed, |plan|).None?
    ensures outcome == Pending ==> |plan| == |observed| + 1
  {
    if first.None? {
      return [], NoMinimum;
    }
    plan := [];
    var width := first.value;
    var counter := 0;
    while true
      invariant counter == |plan| <= |observed|
      invariant WidthBefore(first.value, observed, counter) == Some(width)
      invariant forall j :: 0 <= j < |plan| ==> plan[j] == StrategyFor(j + 1, bisectionFreq, parabolaFreq)
      invariant forall j :: 0 <= j < |plan| ==>
        WidthBefore(first.value, observed, j).Some? && WidthBefore(first.value, observed, j).value >= eps
      decreases |observed| - counter
    {
      if width < eps {
        return plan, Converged;
      }
      counter := counter + 1;
      plan := plan + [StrategyFor(counter, bisectionFreq, parabolaFreq)];
      if counter > |observed| {
        return plan, Pending;
      }
      if observed[counter - 1].None? {
        return plan, Crashed;
      }
      width := observed[counter - 1].value;
    }
  }

  // ---------------------------------------------------------------------
  // Sorting and duplicate removal
  // ---------------------------------------------------------------------

  /** Insert c before the first sample that is not below it: a stable
      insertion, as Python's sort keeps equal keys in order. */
  function InsertByEz(c: Calculation, s: seq<Calculation>): (r: seq<Calculation>)
    ensures |r| == |s| + 1
    ensures forall x :: x in r <==> x == c || x in s
    ensures multiset(r) == multiset(s) + multiset{c}
  {
    if s == [] || c.e.z <= s[0].e.z then [c] + s
    else
      assert s == [s[0]] + s[1..];
      [s[0]] + InsertByEz(c, s[1..])
  }

  lemma {:induction false} InsertKeepsSorted(c: Calculation, s: seq<Calculation>)
    requires SortedByEz(s)
    ensures SortedByEz(InsertByEz(c, s))
  {
    if s != [] && c.e.z > s[0].e.z {
      InsertKeepsSorted(c, s[1..]);
      var t := InsertByEz(c, s[1..]);
      var r := [s[0]] + t;
      forall x | x in t ensures s[0].e.z <= x.e.z {
        if x != c {
          var k :| 0 <= k < |s[1..]| && s[1..][k] == x;
        }
      }
      forall i, j | 0 <= i <= j < |r| ensures r[i].e.z <= r[j].e.z {
        if i == 0 && j > 0 {
          assert r[j] in t;
        }
      }
    }
  }

  /** sort_per_Ez: the samples sorted by E_z, a permutation of the input. */
  function SortByEz(s: seq<Calculation>): (r: seq<Calculation>)
    ensures SortedByEz(r)
    ensures multiset(r) == multiset(s)
  {
    if s == [] then []
    else
      assert s == [s[0]] + s[1..];
      var t := SortByEz(s[1..]);
      InsertKeepsSorted(s[0], t);
      InsertByEz(s[0], t)
  }

  /** The samples of s at E_z value z, in their order in s. */
  function AtEz(s: seq<Calculation>, z: real): seq<Calculation>
  {
    if s == [] then [] else (if s[0].e.z == z then [s[0]] else []) + AtEz(s[1..], z)
  }

  lemma AtEzCons(x: Calculation, rest: seq<Calculation>, z: real)
    ensures AtEz([x] + rest, z) == (if x.e.z == z then [x] else []) + AtEz(rest, z)
  {
    assert ([x] + rest)[0] == x && ([x] + rest)[1..] == rest;
  }

  /** Insertion puts c ahead of the samples of equal E_z already there. */
  lemma {:induction false} InsertAtEz(c: Calculation, t: seq<Calculation>, z: real)
    ensures AtEz(InsertByEz(c, t), z) == (if c.e.z == z then [c] else []) + AtEz(t, z)
  {
    if t == [] || c.e.z <= t[0].e.z {
      assert InsertByEz(c, t) == [c] + t;
      AtEzCons(c, t, z);
    } else {
      InsertAtEz(c, t[1..], z);
      InsertPastHead(c, t, z);
    }
  }

  /** Inserting past a head sample below c. */
  lemma InsertPastHead(c: Calculation, t: seq<Calculation>, z: real)
    requires t != [] && c.e.z > t[0].e.z
    requires AtEz(InsertByEz(c, t[1..]), z) == (if c.e.z == z then [c] else []) + AtEz(t[1..], z)
    ensures AtEz(InsertByEz(c, t), z) == (if c.e.z == z then [c] else []) + AtEz(t, z)
  {
    var rest := InsertByEz(c, t[1..]);
    assert InsertByEz(c, t) == [t[0]] + rest;
    AtEzCons(t[0], rest, z);
    var tail := AtEz(t[1..], z);
    assert AtEz(t, z) == (if t[0].e.z == z then [t[0]] else []) + tail;
    if c.e.z == z {
      assert t[0].e.z != z;
      assert AtEz(rest, z) == [c] + tail;
      assert AtEz(t, z) == tail;
    } else if t[0].e.z == z {
      assert AtEz(rest, z) == tail;
    } else {
      assert AtEz(rest, z) == tail;
    }
  }

  /** sort_per_Ez is stable, as list.sort is: samples of equal E_z keep
      their relative order. */
  lemma {:induction false} SortByEzStable(s: seq<Calculation>, z: real)
    ensures AtEz(SortByEz(s), z) == AtEz(s, z)
  {
    if s != [] {
      SortByEzStable(s[1..], z);
      InsertAtEz(s[0], SortByEz(s[1..]), z);
    }
  }

  /** remove_repeats on a list: of neighbours with equal E_z the earlier one
      goes. */
  function Dedup(s: seq<Calculation>): (r: seq<Calculation>)
    ensures |r| <= |s|
    ensures s != [] ==> r != [] && r[0].e.z == s[0].e.z && r[|r| - 1] == s[|s| - 1]
    ensures forall c :: c in r ==> c in s
  {
    if |s| <= 1 then s
    else if s[0].e.z == s[1].e.z then Dedup(s[1..])
    else [s[0]] + Dedup(s[1..])
  }

  /** After removal no two neighbours share an E_z. */
  lemma {:induction false} DedupNoRepeats(s: seq<Calculation>)
    ensures forall k :: 0 <= k < |Dedup(s)| - 1 ==> Dedup(s)[k].e.z != Dedup(s)[k + 1].e.z
  {
    if |s| > 1 {
      DedupNoRepeats(s[1..]);
    }
  }

  /** Every E_z value of the input is still present: j is where the value of
      s[i] sits in the result. */
  lemma {:induction false} DedupKeepsValue(s: seq<Calculation>, i: nat) returns (j: nat)
    requires i < |s|
    ensures j < |Dedup(s)| && Dedup(s)[j].e.z == s[i].e.z
  {
    if |s| <= 1 || i == 0 {
      j := 0;
    } else {
      var k := DedupKeepsValue(s[1..], i - 1);
      j := if s[0].e.z == s[1].e.z then k else k + 1;
    }
  }

  /** The last sample of every run of equal E_z survives. */
  lemma {:induction false} DedupKeepsRunEnds(s: seq<Calculation>, i: nat)
    requires i < |s| && (i == |s| - 1 || s[i].e.z != s[i + 1].e.z)
    ensures s[i] in Dedup(s)
  {
    if |s| > 1 && i > 0 {
      DedupKeepsRunEnds(s[1..], i - 1);
    }
  }

  predicate IsSubsequence(a: seq<Calculation>, b: seq<Calculation>)
    decreases |b|
  {
    a == [] || (b != [] && ((a[0] == b[0] && IsSubsequence(a[1..], b[1..])) || IsSubsequence(a, b[1..])))
  }

  /** The result is the input with some samples taken out. */
  lemma {:induction false} DedupIsSubsequence(s: seq<Calculation>)
    ensures IsSubsequence(Dedup(s), s)
  {
    if |s| == 1 {
      assert Dedup(s)[1..] == [];
    } else if |s| > 1 {
      DedupIsSubsequence(s[1..]);
      if s[0].e.z != s[1].e.z {
        assert ([s[0]] + Dedup(s[1..]))[1..] == Dedup(s[1..]);
      }
    }
  }

  /** Sorted input stays sorted. */
  lemma {:induction false} DedupSorted(s: seq<Calculation>)
    requires SortedByEz(s)
    ensures SortedByEz(Dedup(s))
  {
    if |s| > 1 {
      DedupSorted(s[1..]);
      var t := Dedup(s[1..]);
      forall c | c in t ensures s[0].e.z <= c.e.z {
        var k :| 0 <= k < |s[1..]| && s[1..][k] == c;
      }
      if s[0].e.z != s[1].e.z {
        var r := [s[0]] + t;
        forall i, j | 0 <= i <= j < |r| ensures r[i].e.z <= r[j].e.z {
          if i == 0 {
            assert r[j] == s[0] || r[j] in t;
          }
        }
      }
    }
  }

  /** Popping the earlier of two equal neighbours at i keeps the result of
      the removal. */
  lemma DedupPop(s: seq<Calculation>, i: nat)
    requires i + 1 < |s| && s[i].e.z == s[i + 1].e.z
    ensures var t := s[..i] + s[i + 1..];
      t[..i] + Dedup(t[i..]) == s[..i] + Dedup(s[i..])
  {
    var t := s[..i] + s[i + 1..];
    assert t[..i] == s[..i];
    assert t[i..] == s[i + 1..];
    assert s[i..][1..] == s[i + 1..];
  }

  /** Stepping past a pair of distinct neighbours at i keeps the result of
      the removal. */
  lemma DedupAdvance(s: seq<Calculation>, i: nat)
    requires i + 1 < |s| && s[i].e.z != s[i + 1].e.z
    ensures s[..i + 1] + Dedup(s[i + 1..]) == s[..i] + Dedup(s[i..])
  {
    assert s[i..][1..] == s[i + 1..];
    assert s[..i + 1] == s[..i] + [s[i]];
  }

  // ---------------------------------------------------------------------
  // Limits
  // ---------------------------------------------------------------------

  /** update_limits: with samples present, a limit closer than limitUpdate
      to the first (last) sample is pushed out to limitUpdate beyond it. The
      limits only move outward, and afterwards they clear the first and the
      last sample by at least limitUpdate. */
  function Widened(limits: (real, real), calcs: seq<Calculation>, limitUpdate: real): (r: (real, real))
    ensures calcs == [] ==> r == limits
    ensures r.0 <= limits.0 && limits.1 <= r.1
    ensures calcs != [] ==> r.0 + limitUpdate <= calcs[0].e.z && calcs[|calcs| - 1].e.z <= r.1 - limitUpdate
    ensures calcs != [] ==> ((r.0 == limits.0 || r.0 == calcs[0].e.z - limitUpdate)
      && (r.1 == limits.1 || r.1 == calcs[|calcs| - 1].e.z + limitUpdate))
  {
    if calcs == [] then limits
    else
      var first, last := calcs[0].e.z, calcs[|calcs| - 1].e.z;
      (if limits.0 + limitUpdate > first then first - limitUpdate else limits.0,
       if limits.1 - limitUpdate < last then last + limitUpdate else limits.1)
  }

  /** A second update with the same samples changes nothing. */
  lemma WidenedIdempotent(limits: (real, real), calcs: seq<Calculation>, limitUpdate: real)
    ensures Widened(Widened(limits, calcs, limitUpdate), calcs, limitUpdate) == Widened(limits, calcs, limitUpdate)
  {
  }

  /** Over sorted samples every sample lies limitUpdate inside the new limits. */
  lemma WidenedBracketsSamples(limits: (real, real), calcs: seq<Calculation>, limitUpdate: real)
    requires SortedByEz(calcs)
    ensures var r := Widened(limits, calcs, limitUpdate);
      forall k :: 0 <= k < |calcs| ==> r.0 + limitUpdate <= calcs[k].e.z <= r.1 - limitUpdate
  {
  }

  // ---------------------------------------------------------------------
  // Outer and inner range scans
  // ---------------------------------------------------------------------

  /** update_range's left-edge test: the lower pair above 1 − limit and the
      upper pair above limit (outer) or above 0 (inner). */
  predicate LeftHit(c: Calculation, limit: real, outer: bool)
  {
    LocalLow(c) > 1.0 - limit && LocalUp(c) > (if outer then limit else 0.0)
  }

  /** update_range's right-edge test: the lower pair below limit and the
      upper pair below 1 − limit (outer) or below 1 (inner). */
  predicate RightHit(c: Calculation, limit: real, outer: bool)
  {
    LocalLow(c) < limit && LocalUp(c) < (if outer then 1.0 - limit else 1.0)
  }

  /** The first sample from index i on that meets the right-edge test. */
  function FirstRight(calcs: seq<Calculation>, limit: real, outer: bool, i: nat): (r: Option<nat>)
    requires i <= |calcs|
    ensures r.Some? ==> i <= r.value < |calcs| && RightHit(calcs[r.value], limit, outer)
    ensures forall k :: i <= k < |calcs| && (r.None? || k < r.value) ==> !RightHit(calcs[k], limit, outer)
    decreases |calcs| - i
  {
    if i == |calcs| then None
    else if RightHit(calcs[i], limit, outer) then Some(i)
    else FirstRight(calcs, limit, outer, i + 1)
  }

  /** The end of the run of samples meeting the left-edge test that starts
      at index i. */
  function LeadRun(calcs: seq<Calculation>, limit: real, outer: bool, i: nat): (n: nat)
    requires i <= |calcs|
    ensures i <= n <= |calcs|
    ensures forall k :: i <= k < n ==> LeftHit(calcs[k], limit, outer)
    ensures n < |calcs| ==> !LeftHit(calcs[n], limit, outer)
    decreases |calcs| - i
  {
    if i == |calcs| || !LeftHit(calcs[i], limit, outer) then i
    else LeadRun(calcs, limit, outer, i + 1)
  }

  function MinN(a: nat, b: nat): nat { if a <= b then a else b }

  /** update_range's scan over the samples: the left end follows the
      leading run of left-edge samples, and the first right-edge sample sets
      the right end and stops the scan. */
  method Scan(cs: seq<Calculation>, lim: (real, real), limit: real, outer: bool) returns (rng: (real, real))
    ensures rng == ScanRange(cs, lim, limit, outer)
  {
    rng := lim;
    var lowLimL := 1.0 - limit;
    var upLimL := if outer then limit else 0.0;
    var lowLimR := limit;
    var upLimR := if outer then 1.0 - limit else 1.0;
    ghost var run := LeadRun(cs, limit, outer, 0);
    ghost var m := 0;
    var leftFound := false;
    var i := 0;
    while i < |cs|
      invariant 0 <= i <= |cs|
      invariant leftFound <==> run < i
      invariant m == MinN(run, i) && rng.0 == LeftEnd(cs, lim, m)
      invariant rng.1 == lim.1
      invariant forall k :: 0 <= k < i ==> !RightHit(cs[k], limit, outer)
    {
      var c := cs[i];
      LeadRunStep(cs, limit, outer, i);
      if LocalLow(c) > lowLimL && LocalUp(c) > upLimL {
        if !leftFound {
          rng := (c.e.z, rng.1);
          m := i + 1;
        }
      } else {
        leftFound := true;
      }
      if LocalLow(c) < lowLimR {
        if LocalUp(c) < upLimR {
          if rng.1 == lim.1 {
            rng := (rng.0, c.e.z);
            ScanRangeAt(cs, lim, limit, outer, i);
            return;
          }
        }
      }
      i := i + 1;
    }
    ScanRangeNone(cs, lim, limit, outer);
  }

  /** The left end of a range whose leading run covers the first m samples. */
  function LeftEnd(calcs: seq<Calculation>, limits: (real, real), m: nat): real
    requires m <= |calcs|
  {
    if m == 0 then limits.0 else calcs[m - 1].e.z
  }

  /** One more sample scanned: the leading left-edge run seen so far grows
      by that sample exactly when the run has reached it and it passes. */
  lemma LeadRunStep(calcs: seq<Calculation>, limit: real, outer: bool, i: nat)
    requires i < |calcs|
    ensures var run := LeadRun(calcs, limit, outer, 0);
      (run < i + 1 <==> run < i || !LeftHit(calcs[i], limit, outer))
      && MinN(run, i + 1) == if run < i + 1 then MinN(run, i) else i + 1
  {
  }

  /** The range when the scan stops at a right-edge sample i. */
  lemma ScanRangeAt(calcs: seq<Calculation>, limits: (real, real), limit: real, outer: bool, i: nat)
    requires i < |calcs| && RightHit(calcs[i], limit, outer)
    requires forall k :: 0 <= k < i ==> !RightHit(calcs[k], limit, outer)
    ensures ScanRange(calcs, limits, limit, outer)
      == (LeftEnd(calcs, limits, MinN(LeadRun(calcs, limit, outer, 0), i + 1)), calcs[i].e.z)
  {
    assert FirstRight(calcs, limit, outer, 0) == Some(i);
  }

  /** The range when no sample meets the right-edge test. */
  lemma ScanRangeNone(calcs: seq<Calculation>, limits: (real, real), limit: real, outer: bool)
    requires forall k :: 0 <= k < |calcs| ==> !RightHit(calcs[k], limit, outer)
    ensures ScanRange(calcs, limits, limit, outer)
      == (LeftEnd(calcs, limits, MinN(LeadRun(calcs, limit, outer, 0), |calcs|)), limits.1)
  {
    assert FirstRight(calcs, limit, outer, 0) == None;
  }

  /** update_range: the scan stops at the first right-edge sample, whose E_z
      becomes the right end (limits[1] when there is none); the left end is
      the E_z of the last sample of the leading left-edge run among the
      samples scanned (limits[0] when that run is empty). */
  function ScanRange(calcs: seq<Calculation>, limits: (real, real), limit: real, outer: bool): (real, real)
  {
    var right := FirstRight(calcs, limit, outer, 0);
    var stop := if right.Some? then right.value + 1 else |calcs|;
    var run := MinN(LeadRun(calcs, limit, outer, 0), stop);
    (if run == 0 then limits.0 else calcs[run - 1].e.z,
     if right.Some? then calcs[right.value].e.z else limits.1)
  }

  /** Over sorted samples inside the limits a range never ends before it starts. */
  lemma ScanRangeOrdered(calcs: seq<Calculation>, limits: (real, real), limit: real, outer: bool)
    requires SortedByEz(calcs) && limits.0 <= limits.1
    requires forall k :: 0 <= k < |calcs| ==> limits.0 <= calcs[k].e.z <= limits.1
    ensures ScanRange(calcs, limits, limit, outer).0 <= ScanRange(calcs, limits, limit, outer).1
  {
    var right := FirstRight(calcs, limit, outer, 0);
    var stop := if right.Some? then right.value + 1 else |calcs|;
    var run := MinN(LeadRun(calcs, limit, outer, 0), stop);
    if run > 0 && right.Some? {
      assert calcs[run - 1].e.z <= calcs[right.value].e.z;
    }
  }

  /** The outer tests imply the inner ones, and for limit ≤ 0.5 no sample
      meets both the outer left-edge and the inner right-edge test; so over
      sorted samples inside the limits the outer range contains the inner
      one. */
  lemma RangesNest(calcs: seq<Calculation>, limits: (real, real), limit: real)
    requires SortedByEz(calcs) && 0.0 <= limit <= 0.5
    requires forall k :: 0 <= k < |calcs| ==> limits.0 <= calcs[k].e.z <= limits.1
    ensures ScanRange(calcs, limits, limit, true).0 <= ScanRange(calcs, limits, limit, false).0
    ensures ScanRange(calcs, limits, limit, false).1 <= ScanRange(calcs, limits, limit, true).1
  {
    var lo, li := LeadRun(calcs, limit, true, 0), LeadRun(calcs, limit, false, 0);
    var fo, fi := FirstRight(calcs, limit, true, 0), FirstRight(calcs, limit, false, 0);
    assert forall k :: 0 <= k < |calcs| && LeftHit(calcs[k], limit, true) ==>
      LeftHit(calcs[k], limit, false) && !RightHit(calcs[k], limit, false);
    assert lo <= li;
    if fo.Some? {
      assert RightHit(calcs[fo.value], limit, false);
      assert fi.Some? && fi.value <= fo.value;
    }
    assert fi.Some? ==> lo <= fi.value;
    var so := if fo.Some? then fo.value + 1 else |calcs|;
    var si := if fi.Some? then fi.value + 1 else |calcs|;
    var ro, ri := MinN(lo, so), MinN(li, si);
    assert ro <= ri;
    if ro > 0 {
      assert calcs[ro - 1].e.z <= calcs[ri - 1].e.z;
    }
    if fi.Some? && fo.Some? {
      assert calcs[fi.value].e.z <= calcs[fo.value].e.z;
    }
  }

  // ---------------------------------------------------------------------
  // Anticrossing minimum
  // ---------------------------------------------------------------------

  /** update_minimum's test at index i: an interior sample strictly inside
      the inner range whose splitting is not above either neighbour's. */
  predicate Candidate(calcs: seq<Calculation>, inner: (real, real), i: nat)
  {
    1 <= i <= |calcs| - 2 && InRangeExclusive(calcs[i].e.z, inner)
    && Anti(calcs[i]) <= Anti(calcs[i - 1]) && Anti(calcs[i]) <= Anti(calcs[i + 1])
  }

  /** The candidate below index n with the smallest splitting, the earliest
      one on ties; None when there is no candidate below n. */
  function BestBelow(calcs: seq<Calculation>, inner: (real, real), n: nat): (r: Option<nat>)
    requires n <= |calcs|
    ensures r.Some? ==> r.value < n && Candidate(calcs, inner, r.value)
  {
    if n == 0 then None
    else
      var b := BestBelow(calcs, inner, n - 1);
      if Candidate(calcs, inner, n - 1) && (b.None? || Anti(calcs[n - 1]) < Anti(calcs[b.value])) then Some(n - 1)
      else b
  }

  /** No minimum is found exactly when there is no candidate; the one found
      has the smallest splitting of all candidates, and every candidate before
      it has a strictly larger splitting (the earliest wins a tie). */
  lemma {:induction false} BestBelowIsBest(calcs: seq<Calculation>, inner: (real, real), n: nat)
    requires n <= |calcs|
    ensures BestBelow(calcs, inner, n).None? <==> forall j :: 0 <= j < n ==> !Candidate(calcs, inner, j)
    ensures var r := BestBelow(calcs, inner, n);
      r.Some? ==> forall j :: 0 <= j < n && Candidate(calcs, inner, j) ==> Anti(calcs[r.value]) <= Anti(calcs[j])
    ensures var r := BestBelow(calcs, inner, n);
      r.Some? ==> forall j :: 0 <= j < r.value && Candidate(calcs, inner, j) ==> Anti(calcs[r.value]) < Anti(calcs[j])
  {
    if n > 0 {
      BestBelowIsBest(calcs, inner, n - 1);
    }
  }

  /** One more index considered: it takes over exactly when it is a
      candidate strictly below the best so far. */
  lemma BestBelowStep(calcs: seq<Calculation>, inner: (real, real), i: nat)
    requires i < |calcs|
    ensures var b := BestBelow(calcs, inner, i);
      BestBelow(calcs, inner, i + 1)
      == if Candidate(calcs, inner, i) && (b.None? || Anti(calcs[i]) < Anti(calcs[b.value])) then Some(i) else b
  {
  }

  /** The minimum sample and the width of its triplet, as update_minimum
      stores them for the index it selects. */
  predicate Matches(calcs: seq<Calculation>, index: Option<nat>, minimum: Option<Calculation>, width: Option<real>)
  {
    match index
    case None => minimum.None? && width.None?
    case Some(i) =>
      1 <= i && i + 1 < |calcs| && minimum == Some(calcs[i])
      && width == Some(calcs[i + 1].e.z - calcs[i - 1].e.z)
  }

  /** is_local_minimum: a splitting strictly below both neighbours'; as in
      Python, index 0 takes the last sample as its left neighbour. */
  predicate IsLocalMinimum(calcs: seq<Calculation>, i: nat)
    requires i + 1 < |calcs|
    ensures IsLocalMinimum(calcs, i) <==>
      Anti(calcs[i]) < MinR(Anti(calcs[i + 1]), Anti(if i == 0 then calcs[|calcs| - 1] else calcs[i - 1]))
  {
    var left := if i == 0 then calcs[|calcs| - 1] else calcs[i - 1];
    Anti(calcs[i]) < Anti(left) && Anti(calcs[i]) < Anti(calcs[i + 1])
  }

  /** An interior strict local minimum inside the inner range is a
      candidate; a candidate tied with a neighbour is not a strict minimum. */
  lemma StrictMinimumIsCandidate(calcs: seq<Calculation>, inner: (real, real), i: nat)
    requires 1 <= i && i + 1 < |calcs|
    ensures IsLocalMinimum(calcs, i) && InRangeExclusive(calcs[i].e.z, inner) ==> Candidate(calcs, inner, i)
    ensures Candidate(calcs, inner, i) && (Anti(calcs[i]) == Anti(calcs[i - 1]) || Anti(calcs[i]) == Anti(calcs[i + 1]))
      ==> !IsLocalMinimum(calcs, i)
  {
  }

  /** Two neighbouring samples are never both local minima. */
  lemma LocalMinimaApart(calcs: seq<Calculation>, i: nat)
    requires i + 2 < |calcs|
    ensures !(IsLocalMinimum(calcs, i) && IsLocalMinimum(calcs, i + 1))
  {
  }

  // ---------------------------------------------------------------------
  // Routing samples
  // ---------------------------------------------------------------------

  /** calc_belongs: same structure number, and in-plane electric field and
      magnetic field equal up to the tolerance of Close. */
  predicate CalcBelongs(nStr: int, exy: (real, real), b: Vec3, c: Calculation)
    ensures CalcBelongs(nStr, exy, b, c) ==> c.nStr == nStr
    ensures c.nStr == nStr && c.e.x == exy.0 && c.e.y == exy.1 && c.b == b ==> CalcBelongs(nStr, exy, b, c)
  {
    nStr == c.nStr && Close(exy.0, c.e.x) && Close(exy.1, c.e.y)
    && Close(b.x, c.b.x) && Close(b.y, c.b.y) && Close(b.z, c.b.z)
  }

  /** Two structures whose fields differ by at least twice the tolerance in
      some component never both accept a sample. */
  lemma BelongsToOne(nStr: int, exy: (real, real), b: Vec3, exy': (real, real), b': Vec3, c: Calculation)
    requires Abs(exy.0 - exy'.0) >= 2.0 * CloseEps || Abs(exy.1 - exy'.1) >= 2.0 * CloseEps
      || Abs(b.x - b'.x) >= 2.0 * CloseEps || Abs(b.y - b'.y) >= 2.0 * CloseEps || Abs(b.z - b'.z) >= 2.0 * CloseEps
    ensures !(CalcBelongs(nStr, exy, b, c) && CalcBelongs(nStr, exy', b', c))
  {
    if CalcBelongs(nStr, exy, b, c) && CalcBelongs(nStr, exy', b', c) {
      CloseSymmetric(exy.0, c.e.x);
      CloseSymmetric(exy'.0, c.e.x);
      CloseSymmetric(exy.1, c.e.y);
      CloseSymmetric(exy'.1, c.e.y);
      CloseSymmetric(b.x, c.b.x);
      CloseSymmetric(b'.x, c.b.x);
      CloseSymmetric(b.y, c.b.y);
      CloseSymmetric(b'.y, c.b.y);
      CloseSymmetric(b.z, c.b.z);
      CloseSymmetric(b'.z, c.b.z);
    }
  }

  // ---------------------------------------------------------------------
  // The structure object
  // ---------------------------------------------------------------------

  /** One scan axis: the samples of one structure number, in-plane electric
      field and magnetic field, with the limits, ranges and minimum the
      clean-up keeps up to date. Neighbour links are indices into the
      simulation's structure list: previous[k] is previous(k+1) and next[k]
      is next(k+1). */
  class Structure {
    const nStr: int
    const exy: (real, real)
    const b: Vec3
    var calcs: seq<Calculation>
    var limits: (real, real)
    var outerRange: (real, real)
    var innerRange: (real, real)
    var minimum: Option<Calculation>
    var minimumIndex: Option<nat>
    var eMinDiff: Option<real>
    var additional: Option<Calculation>
    var previous: seq<Option<nat>>
    var next: seq<Option<nat>>

    /** A new structure: no samples, the default limits, no minimum, no
        additional data and no neighbours. The ranges start as the limits
        until the first clean-up computes them. */
    constructor (nStr: int, exy: (real, real), b: Vec3, defaultLimits: (real, real))
      ensures this.nStr == nStr && this.exy == exy && this.b == b
      ensures calcs == [] && limits == defaultLimits
      ensures outerRange == defaultLimits && innerRange == defaultLimits
      ensures minimum == None && minimumIndex == None && eMinDiff == None && additional == None
      ensures previous == [None, None, None] && next == [None, None, None]
    {
      this.nStr := nStr;
      this.exy := exy;
      this.b := b;
      calcs := [];
      limits := defaultLimits;
      outerRange := defaultLimits;
      innerRange := defaultLimits;
      minimum := None;
      minimumIndex := None;
      eMinDiff := None;
      additional := None;
      previous := [None, None, None];
      next := [None, None, None];
    }

    /** calc_belongs for this structure. */
    predicate Belongs(c: Calculation)
    {
      CalcBelongs(nStr, exy, b, c)
    }

    /** sort_per_Ez: a stable sort of the samples by E_z. */
    method SortPerEz()
      modifies this`calcs
      ensures calcs == SortByEz(old(calcs))
      ensures SortedByEz(calcs) && multiset(calcs) == multiset(old(calcs))
    {
      if calcs != [] {
        calcs := SortByEz(calcs);
      }
    }

    /** remove_repeats: walk the neighbouring pairs, popping the earlier
        sample of a pair with equal E_z and advancing otherwise. */
    method RemoveRepeats()
      modifies this`calcs
      ensures calcs == Dedup(old(calcs))
    {
      ghost var target := Dedup(calcs);
      var i := 0;
      while i + 1 < |calcs|
        invariant i <= |calcs|
        invariant calcs[..i] + Dedup(calcs[i..]) == target
        decreases |calcs| - i
      {
        ghost var before := calcs;
        if calcs[i].e.z == calcs[i + 1].e.z {
          calcs := calcs[..i] + calcs[i + 1..];
          DedupPop(before, i);
        } else {
          DedupAdvance(before, i);
          i := i + 1;
        }
      }
      assert calcs[i..] == [] || calcs[i..] == [calcs[i]];
      assert calcs[..i] + calcs[i..] == calcs;
    }

    /** update_limits. */
    method UpdateLimits(limitUpdate: real)
      modifies this`limits
      ensures limits == Widened(old(limits), calcs, limitUpdate)
    {
      if calcs != [] {
        if limits.0 + limitUpdate > calcs[0].e.z {
          limits := (calcs[0].e.z - limitUpdate, limits.1);
        }
        if limits.1 - limitUpdate < calcs[|calcs| - 1].e.z {
          limits := (limits.0, calcs[|calcs| - 1].e.z + limitUpdate);
        }
      }
    }

    /** update_range: scan the samples in order with the left-edge flag and
        stop at the first right-edge sample. */
    method UpdateRange(outer: bool, limit: real)
      modifies this`outerRange, this`innerRange
      ensures outer ==> outerRange == ScanRange(calcs, limits, limit, true) && innerRange == old(innerRange)
      ensures !outer ==> innerRange == ScanRange(calcs, limits, limit, false) && outerRange == old(outerRange)
    {
      var rng := Scan(calcs, limits, limit, outer);
      if outer {
        outerRange := rng;
      } else {
        innerRange := rng;
      }
    }

    /** update_ranges: the outer range, then the inner one. */
    method UpdateRanges(limit: real)
      modifies this`outerRange, this`innerRange
      ensures outerRange == ScanRange(calcs, limits, limit, true)
      ensures innerRange == ScanRange(calcs, limits, limit, false)
    {
      UpdateRange(true, limit);
      UpdateRange(false, limit);
    }

    /** update_minimum: clear the minimum, then take every interior sample
        inside the inner range that is not above its neighbours and is
        strictly below the minimum found so far. */
    method UpdateMinimum()
      modifies this`minimum, this`minimumIndex, this`eMinDiff
      ensures minimumIndex == BestBelow(calcs, innerRange, |calcs|)
      ensures MinimumMatches()
    {
      minimum := None;
      minimumIndex := None;
      eMinDiff := None;
      var cs, inner := calcs, innerRange;
      var n := |cs|;
      if n < 2 {
        return;
      }
      var i := 1;
      while i < n - 1
        invariant 1 <= i <= n - 1
        invariant minimumIndex == BestBelow(cs, inner, i)
        invariant Matches(cs, minimumIndex, minimum, eMinDiff)
      {
        ConsiderMinimum(cs, inner, i);
        i := i + 1;
      }
      assert !Candidate(cs, inner, n - 1);
    }

    /** One pass of update_minimum's loop: sample i is taken when it is a
        candidate strictly below the minimum found so far. */
    method ConsiderMinimum(cs: seq<Calculation>, inner: (real, real), i: nat)
      requires 1 <= i < |cs| - 1
      requires minimumIndex == BestBelow(cs, inner, i) && Matches(cs, minimumIndex, minimum, eMinDiff)
      modifies this`minimum, this`minimumIndex, this`eMinDiff
      ensures minimumIndex == BestBelow(cs, inner, i + 1) && Matches(cs, minimumIndex, minimum, eMinDiff)
    {
      var c := cs[i];
      BestBelowStep(cs, inner, i);
      if InRangeExclusive(c.e.z, inner) && Anti(c) <= Anti(cs[i - 1]) && Anti(c) <= Anti(cs[i + 1]) {
        if minimum.None? || Anti(c) < Anti(minimum.value) {
          minimum := Some(c);
          eMinDiff := Some(cs[i + 1].e.z - cs[i - 1].e.z);
          minimumIndex := Some(i);
        }
      }
    }

    /** minimum and E_min_diff describe the sample at minimumIndex: its
        value and the width of the triplet around it. */
    predicate MinimumMatches()
      reads this
    {
      Matches(calcs, minimumIndex, minimum, eMinDiff)
    }

    /** continue_generating's widening of the limits by exactly 1 on each side. */
    method WidenLimits()
      modifies this`limits
      ensures limits == (old(limits).0 - 1.0, old(limits).1 + 1.0)
    {
      limits := (limits.0 - 1.0, limits.1 + 1.0);
    }
  }
}

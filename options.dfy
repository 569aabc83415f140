/** Run-time settings of the sampler (options.py): output switches, the
    solver precision, the localisation cut-offs and the refinement schedule.
    Whether the host is the cluster is read from the hostname, which is a
    parameter here. */
module OptionSet {
  import opened Basics

  /** Factor by which the bound and right limits are relaxed per extra round. */
  const ContinuousFactor: real := 1.5

  class Options {
    var writeGtensor: bool
    var writeDefault: bool
    var writeFitData: bool
    var continueCalculations: bool
    var eps: real
    var epsFactorForMinima: real
    var epsFactorForOuter: real
    var limit: real
    var boundLimit: real
    var rightLimit: real
    var fillBlanksLimit: real
    var continuousFactor: real
    var minimaEps: real
    var defaultLimits: (real, real)
    var limitUpdate: real
    var polaron: bool
    var readSpecialCases: bool
    var removeOldMinimas: bool
    var parabolaFreq: int
    var bisectionFreq: int
    var kpDir: string
    var doCalcsFromFile: bool
    var enableCounter: bool
    var gtensorE: Option<real>
    var restrictUnsorted: bool
    var calcMinimaFromPrevious: bool
    var gfactorToRight: bool

    /** The settings every method relies on: a positive relaxation factor and
        positive schedule periods (they are divisors in the scheduler). */
    predicate Valid()
      reads this
    {
      continuousFactor == ContinuousFactor && parabolaFreq > 0 && bisectionFreq > 0
    }

    constructor (eps: real := 0.000001, minimaEps: real := 1.0, fillBlank: real := 0.8,
                 boundLimit: real := 0.39999, gtensorE: Option<real> := None,
                 writeFitData: bool := false, restrictUnsorted: bool := false,
                 gfactorToRight: bool := true, hostname: string := "")
      ensures Valid()
      ensures writeGtensor <==> gtensorE.Some?
      ensures writeDefault == !writeGtensor
      ensures this.eps == eps && this.minimaEps == minimaEps && fillBlanksLimit == fillBlank
      ensures this.boundLimit == boundLimit && rightLimit == 0.0999999
      ensures epsFactorForMinima == 0.01 && epsFactorForOuter == 1.0
      ensures limit == 0.05 && defaultLimits == (-40.0, 30.0) && limitUpdate == 8.01
      ensures parabolaFreq == 3 && bisectionFreq == 5
      ensures continueCalculations && calcMinimaFromPrevious
      ensures this.gtensorE == gtensorE && this.writeFitData == writeFitData
      ensures this.restrictUnsorted == restrictUnsorted && this.gfactorToRight == gfactorToRight
      ensures polaron <==> Contains(hostname, "polaron")
      ensures !readSpecialCases && !removeOldMinimas && !doCalcsFromFile && enableCounter
      ensures kpDir == "test"
    {
      writeGtensor := gtensorE.Some?;
      writeDefault := gtensorE.None?;
      this.writeFitData := writeFitData;
      continueCalculations := true;
      this.eps := eps;
      epsFactorForMinima := 0.01;
      epsFactorForOuter := 1.0;
      limit := 0.05;
      this.boundLimit := boundLimit;
      rightLimit := 0.0999999;
      fillBlanksLimit := fillBlank;
      continuousFactor := ContinuousFactor;
      this.minimaEps := minimaEps;
      defaultLimits := (-40.0, 30.0);
      limitUpdate := 8.01;
      polaron := Contains(hostname, "polaron");
      readSpecialCases := false;
      removeOldMinimas := false;
      parabolaFreq := 3;
      bisectionFreq := 5;
      kpDir := "test";
      doCalcsFromFile := false;
      enableCounter := true;
      this.gtensorE := gtensorE;
      this.restrictUnsorted := restrictUnsorted;
      calcMinimaFromPrevious := true;
      this.gfactorToRight := gfactorToRight;
    }

    /** increase_threshold: relax the bound and right limits by the
        continuation factor and stop seeding minima from the previous
        structure; minima_eps and the blank-filling limit stay as they were. */
    method IncreaseThreshold()
      requires Valid()
      modifies this`boundLimit, this`rightLimit, this`calcMinimaFromPrevious
      ensures Valid()
      ensures boundLimit == Relaxed(old(boundLimit), 1) && rightLimit == Relaxed(old(rightLimit), 1)
      ensures !calcMinimaFromPrevious
      ensures minimaEps == old(minimaEps) && fillBlanksLimit == old(fillBlanksLimit)
      ensures MinimaVicinity() == old(MinimaVicinity())
      ensures eps == old(eps) && limit == old(limit) && limitUpdate == old(limitUpdate)
      ensures parabolaFreq == old(parabolaFreq) && bisectionFreq == old(bisectionFreq)
    {
      calcMinimaFromPrevious := false;
      boundLimit := boundLimit / continuousFactor;
      rightLimit := rightLimit / continuousFactor;
    }

    /** minima_vicinity: the window around a minimum, a hundred times minima_eps. */
    function MinimaVicinity(): (r: real)
      reads this
      ensures minimaEps > 0.0 ==> r > minimaEps
      ensures r / 100.0 == minimaEps
    {
      minimaEps * 100.0
    }
  }

  function Power(x: real, k: nat): (r: real)
    ensures x > 0.0 ==> r > 0.0
  {
    if k == 0 then 1.0 else x * Power(x, k - 1)
  }

  /** A limit after k relaxation rounds, one division by the factor per round. */
  function Relaxed(x: real, k: nat): real
  {
    if k == 0 then x else Relaxed(x, k - 1) / ContinuousFactor
  }

  /** After k rounds a limit is its initial value over 1.5^k. */
  lemma {:induction false} RelaxedClosedForm(x: real, k: nat)
    ensures Relaxed(x, k) == x / Power(ContinuousFactor, k)
  {
    if k > 0 {
      RelaxedClosedForm(x, k - 1);
      var p := Power(ContinuousFactor, k - 1);
      assert p > 0.0;
      assert x / p / ContinuousFactor == x / (ContinuousFactor * p);
    }
  }

  /** Every round strictly lowers a positive limit, and it stays positive. */
  lemma {:induction false} RelaxedDecreasing(x: real, j: nat, k: nat)
    requires x > 0.0 && j < k
    ensures 0.0 < Relaxed(x, k) < Relaxed(x, j)
  {
    RelaxedPositive(x, k - 1);
    if j < k - 1 {
      RelaxedDecreasing(x, j, k - 1);
    }
  }

  lemma {:induction false} RelaxedPositive(x: real, k: nat)
    requires x > 0.0
    ensures Relaxed(x, k) > 0.0
  {
    if k > 0 {
      RelaxedPositive(x, k - 1);
    }
  }
}

# gfactor adaptive sampler — a Dafny model

gfactor drives a k·p solver over a sweep of quantum-dot structures. Each
structure is one combination of structure number, in-plane electric field and
magnetic field, and it collects solver results ("calculations") along the
out-of-plane electric field E_z. After each read of the solver output the
sampler cleans every structure up:

- it sorts the samples by E_z and removes repeated E_z values;
- it widens the limits so that they clear every sample;
- it recomputes the outer and inner ranges from the localisation of the
  states;
- it locates the anticrossing minimum, the sample with the smallest
  splitting of the two lowest states inside the inner range.

From that state the sampler asks for new E_z values. It places them at the
edges of the ranges (bound_E), fills gaps wider than a threshold
(fill_blanks), and alternates golden-section, parabola and fit steps around
the minimum (gen_minimas).

The project models these files:

| File | Content |
|---|---|
| `structure.dfy` | The `Structure` class with its range, gap, bound, filling, minimum-step, sort, repeat, limit, range and minimum operations. |
| `simulation.dfy` | The `Simulation` class: the product of structures, their neighbour links, reading the paired record streams up to a high-water mark, routing samples, annotating them from the auxiliary record, and the five-pass clean-up. |
| `calculation.dfy` | The `Calculation` record: its parsing, the flags derived from localisation, the `swap` reordering and the auxiliary record. |
| `psi.dfy` | One solver run: its precision and the log-polling loop. |
| `common.dfy` | Phi, close, field labels, near-duplicate removal, the field-list generators. |
| `fit.dfy` | The three-point parabola. |
| `options.dfy` | The options object. |
| `timer.dfy` | The progress report. |
| `clear_files.dfy` | The result-file clean-up. |
| `basics.dfy` | Shared text helpers. |

Modelling conventions:

- Floating-point numbers are modelled as exact `real`s.
- Python's `int()` is modelled as truncation (`Basics.Trunc`).
- Records are sequences of already-tokenised numbers.
- Every Python exception the core can raise becomes `None` or an `Err` value: IndexError, ValueError, ZeroDivisionError, the TypeError of comparing `None` with a float in gen_minimas, and a failed `assert`.

Three behaviours of the code that the model states as proved facts:

- Range nesting. update_range (structure.py:548-579) makes the outer range contain the inner one. `Structures.RangesNest` proves this order for limit ≤ 0.5.
- Minimum candidates. update_minimum (structure.py:591-594) skips a point only when its splitting is strictly above a neighbour's, so ties are candidates. is_local_minimum (structure.py:510-512) asks for a strict minimum instead. `Structures.StrictMinimumIsCandidate` relates the two notions.
- Fit requests. fitting_minimum (structure.py:485-503) skips a vertex outside the triplet's span; it does not clamp it (`Structures.FittingRequests`).

## Model

| member | source | states |
|---|---|---|
| Basics.Trunc | psi.py:43 | Python int() on a float truncates toward zero: the result is the integer part, below x by less than one for x ≥ 0 and above it by less than one for x < 0 |
| Basics.SplitOnFirst | common.py:113 | splitting "a,b…" on the first separator yields a followed by the split of the rest |
| Common.ConstantBounds | common.py:10 | the golden-ratio constant (√5 − 1)/2 lies between 0.618 and 0.6181; √5 and √2 are bounded likewise |
| Common.Phi | common.py:9-12 | ϕ(error) is the golden ratio for error² = 1, lies in [golden, 1) for error² < 1 and exceeds 1 for error² > 1 |
| Common.PhiMonotone | common.py:9-12 | ϕ strictly grows with error² below 1 |
| Common.CloseSymmetric | common.py:35-36 | close is symmetric and reflexive and bounds the difference by 1e-8 |
| Common.InsertUnique | common.py:64 | inserting into a strictly ascending list keeps it strictly ascending and adds exactly the one value |
| Common.SortedUnique | common.py:158 | sorted(list(set(X))) is strictly ascending and has the same members as X |
| Common.SortAndRemoveDupl | common.py:157-165 | the while/pop loop returns the value of the specification function Dedupl |
| Common.DeduplProperties | common.py:157-165 | the result is strictly ascending, no two neighbours are close, every value comes from the input, and every input value is close to a kept one |
| Common.DeduplIdempotent | common.py:157-165 | removing near-duplicates a second time changes nothing |
| Common.ThinFromCovers | common.py:159-164 | every value popped by the loop is close to a value it keeps |
| Common.GenElist | common.py:121-132 | gen_Elist succeeds exactly for the four in-plane directions and yields one vector per de-duplicated input value |
| Common.GenBlist | common.py:135-148 | gen_Blist succeeds exactly for the five directions and yields one vector per de-duplicated input value |
| Common.GenElistRecovers | common.py:121-132 | every generated in-plane vector lies on the line of the named direction, and its signed length along that direction is the matching de-duplicated input value, in ascending order |
| Common.EVectorDetermined | common.py:121-132 | an in-plane vector on the line of a direction is exactly the one gen_Elist builds from its signed length, so GenElistRecovers fixes every generated vector |
| Common.GenBlistRecovers | common.py:135-148 | every generated field lies on the line of the named direction (x = y = 0 along 001, z = 0 in plane), and its signed length along it is the matching de-duplicated input value, in ascending order |
| Common.BVectorDetermined | common.py:135-148 | a field on the line of a direction is exactly the one gen_Blist builds from its signed length, so GenBlistRecovers fixes every generated field |
| Common.GenBlistMultiple | common.py:151-154 | the multi-direction list exists exactly when every direction is valid, and its length is the value count times the direction count |
| Common.GenBlistMultipleAt | common.py:151-154 | element k·len(dirs) + d is element k of gen_Blist for direction d: the lists are interleaved value by value |
| Common.BDirection | common.py:39-51 | the label is one of the five direction labels or empty; it is "[001]" exactly when B[0] = B[1] = 0, and empty exactly when B[0] = 0 while B[1] is neither 0 nor 1 |
| Common.FieldSign | common.py:55-60 | the sign is ±1, and −1 exactly when B[1] ≤ 0 and B[0] ≠ 1 |
| Common.DirectionOfGeneratedField | common.py:39-51 | B_direction labels generated unit fields by their direction; along 001 any field is "[001]"; a 100 field other than the unit one is labelled "[110]" by the B[0] > 0 rule |
| Common.FieldSignOfGeneratedField | common.py:55-60 | field_sign of a positive generated field is −1 along 001 and along 100 unless its magnitude is 1, and +1 otherwise |
| Common.StrToComplexRoundTrip | common.py:112-114 | str_to_complex splits "(re,im)" back into re and im |
| Fit.Parabola | fit.py:15-34 | the coefficients exist exactly when the three abscissae are distinct; then c = 0 and the parabola passes through all three points |
| Fit.Solve | fit.py:28-33 | the a and b computed by the formulas fit both translated outer points |
| Fit.Denominator | fit.py:31 | the denominator of a simplifies to −x3 |
| Fit.ParaMin | fit.py:38-44 | the vertex exists exactly when the parabola does and a ≠ 0, and the slope of the parabola is zero there |
| Fit.FitMatchesCurve | fit.py:15-34 | fitted through three points of α(x − x0)² + γ, the coefficients are a = α and b = 2α(x2 − x0) |
| Fit.ParaMinRecoversVertex | fit.py:38-44 | three distinct points of a parabola with α ≠ 0 give back its vertex x0 exactly |
| Fit.ParaMinIsMinimum | fit.py:38-44 | for a > 0 the returned abscissa minimises the fitted parabola |
| Fit.EvalAboveVertex | fit.py:38-44 | seen from the vertex the para_min formula gives, the parabola exceeds its vertex value by a·(x − vertex)² |
| Fit.CandidateVertexInside | fit.py:38-44 | for an ordered triplet whose middle point is no higher than its neighbours, a vertex exists only with a > 0 and lies between the midpoints of the two halves, so strictly inside the triplet |
| Timer.Scale | timer.py:10-22 | the unit is s, min, h or d exactly by the thresholds 60 s, 60 min and 24 h; amount × unit gives back the time, and the amount is bounded in each unit |
| Timer.PrintTime | timer.py:6-45 | a report exists exactly when i ≠ 0 (else division by zero); the elapsed part is the scaled time; the remaining part appears exactly when i < L and is the linear estimate (L − i)·t/i passed through the same unit scaling |
| Timer.RemainingIsLinear | timer.py:8 | elapsed plus remaining equals tDone·L/i, a constant rate |
| OptionSet.Options.constructor | options.py:5-84 | every default (eps, limits, frequencies, factors, switches), write_gtensor/write_default from gtensor_E, and Polaron (line 58, via is_Polaron at lines 98-99) exactly when the host name contains "polaron" |
| OptionSet.Options.IncreaseThreshold | options.py:87-92 | bound_limit and right_limit are divided by 1.5 and calc_minima_from_previous is cleared; the frame names only these three fields, so every other setting is kept |
| OptionSet.Options.MinimaVicinity | options.py:94-96 | the vicinity is a hundred times minima_eps |
| OptionSet.RelaxedClosedForm | options.py:87-92 | after k rounds of increase_threshold a limit is its initial value over 1.5^k |
| OptionSet.RelaxedDecreasing | options.py:87-92 | each round strictly lowers a positive limit, which stays positive |
| ClearFiles.ClearProject | clear_files.py:42-61 | the per-file loop removes what the specification function Removals lists, and crashes exactly where int(file[1:5]) fails |
| ClearFiles.ClearAll | clear_files.py:21-64 | the projects are the named one or the listed ones without the ignored ones, visited in order, each with its removals, stopping at the first crash |
| ClearFiles.Projects | clear_files.py:25-34 | an ignored project is never visited; a named project is visited alone unless ignored |
| ClearFiles.AuxiliaryRemoved | clear_files.py:47-48 | every map, spec.plt or info file of a scan that does not crash is removed |
| ClearFiles.RunKeepsLast | clear_files.py:52-61 | in a run of bin_h files of one structure number, all but the last are removed |
| ClearFiles.InfoDoesNotTrackBin | clear_files.py:47-61 | a file matching both info and bin_h is removed as an info file and does not update the last bin_h file |
| ClearFiles.FirstZeroRemovesEmptyName | clear_files.py:42-57 | a first bin_h file numbered 0 matches the initial number 0 and removes the empty name |
| Psi.EpsFactor | psi.py:128-132 | the eps factor differs from 1 exactly when there is no truthy minimum, the run is outer and E_diff > 0.1; then it is 10·min(1, E_diff), in (1, 10], and 10 once E_diff ≥ 1 |
| Psi.PsiRun.constructor | psi.py:11-39 | eps is options.eps × eps_factor and the other parameters are stored as given |
| Psi.PsiRun.Prepare | psi.py:127-132 | the run proceeds exactly when error ≤ 1, and then eps is multiplied by the factor |
| Psi.RStripNewlines | psi.py:168 | rstrip("\n") returns a prefix without a trailing newline |
| Psi.EchoIteration | psi.py:165-168 | iterations 1 to 4 are echoed, and others exactly when divisible by kp_skip; the result is an error exactly when kp_skip is 0 and n is not 1 to 4 (n % 0) |
| Psi.PollStep | psi.py:155-177 | an empty log changes nothing; a repeated last line adds the sleep to the stall timer; a new line resets it and crashes exactly when it holds "EPS" and its first word is missing, not an integer, or taken modulo a zero kp_skip; otherwise the echo list grows by the stripped line exactly when that iteration is echoed, and a line without "EPS" echoes nothing; the loop ends exactly on a stall reaching max_seconds (killing the solver) or on "Done" |
| Psi.Finish | psi.py:170-177 | the two exit tests: done on timeout or "Done", killed only on timeout |
| Psi.Poll | psi.py:153-177 | the loop computes PollRun over the log snapshots and stops only when done or crashed |
| Psi.EmptyLogNeverTimesOut | psi.py:158-160 | an empty log never ends the loop, however long it stays empty |
| Psi.EndsForAReason | psi.py:170-177 | the loop only ends after a timeout or a line containing "Done" |
| Psi.StallAccumulates | psi.py:161-162 | a last line unchanged for k polls accumulates k sleep intervals of stall |
| Psi.IncreaseChar | psi.py:118-119 | increase_char steps one place up the density ramp, stays on the full block, and fails for a character off the ramp |
| Psi.RaiseFromEmpty | psi.py:118-119 | raising an empty cell k times lands on step min(k, 5) of the ramp |
| Psi.CurrentPosition | psi.py:41-43 | a relative position in [0, 1) maps to a cell from 1 to the bar width |
| Calculations.IntToken | calculation.py:21 | int() accepts exactly the integral tokens and returns their value |
| Calculations.Flag | calculation.py:35 | int(2·local) is 0 below 0.5, 1 from 0.5 to below 1, 2 at 1, and 0 for small negatives |
| Calculations.Parse | calculation.py:8-45 | parsing succeeds exactly when the wkr record has 26 to 28 tokens (four states), the local record reaches position 9, the numbers are integral and both records agree on them |
| Calculations.ParseEncode | calculation.py:8-45 | writing a freshly read calculation out and parsing it gives it back |
| Calculations.Anti | calculation.py:89-91 | the splitting of the two lowest states is positive exactly when the second energy lies above the first, and zero exactly when they coincide |
| Calculations.LocalLow | calculation.py:75-77 | the low pair's mean localisation lies between the localisations of states 0 and 1 |
| Calculations.LocalUp | calculation.py:80-82 | the high pair's mean localisation lies between the localisations of states 2 and 3 |
| Calculations.ParsedLayout | calculation.py:17-35 | when the success condition holds, parsing succeeds and E, B, the energies, J_z, S_z and the localisation are tokens 0-2, 3-5, 6-9, 10-13, 14-17 and local 6-9; the structure and calculation numbers are the last two tokens of both records; the splitting and the two local averages follow from these |
| Calculations.Swap | calculation.py:161-177 | the two-pass loop returns Swapped: the flag-0 values then the flag-1 values, each pair exchanged when do_swap says so |
| Calculations.SwapKeepsFlagged | calculation.py:161-177 | swap keeps exactly the values flagged 0 or 1, whatever it exchanges |
| Calculations.SwapPermutes | calculation.py:161-177 | with every flag 0 or 1 the result is a permutation of the input |
| Calculations.SwapDropsOtherFlags | calculation.py:161-177 | a value flagged 2 (localisation exactly 1) is dropped (its flag comes from int(2·local) at line 35), so the list is shorter than four |
| Calculations.SwapWithoutExchange | calculation.py:143-177 | with B_z ≠ 1 and no auxiliary sample nothing is exchanged: low-dot values in order, then high-dot values |
| Calculations.IsEligible | calculation.py:129-132 | with 0/1 flags a calculation is to be written exactly when two of its states are filed in the upper dot |
| Calculations.DoSwap | calculation.py:143-157 | a swap needs either B_z = 1 or an annotated sample |
| Calculations.DoSwapReads | calculation.py:143-157 | out of plane the swap is decided by S_z of state i alone and ignores the annotation; in plane it ignores which state is asked about and never happens without an annotation |
| Calculations.EligibleSplitsTwoTwo | calculation.py:130-132 | a calculation to be written with 0/1 flags has two states in each dot |
| Calculations.SignOf | calculation.py:203-208 | the g-factor sign is +1 exactly when the first spin is below the second, else −1 |
| Calculations.Annotated | calculation.py:184-208 | add_additional succeeds exactly when the record has at least 42 tokens, every flag files its spin under a valid Python index and each group gets at least two spins; only the auxiliary part changes; it holds eight piezo rows, row j being swap of tokens 6+4j to 9+4j, the in-plane spins are tokens 38-41, and each group's sign is SignOf of the spins filed under it |
| Calculations.Filing | calculation.py:199-201 | the positions filed under a group are, in increasing order, exactly those whose flag indexes that group's list |
| Calculations.FiledAtFiling | calculation.py:199-201 | the filing loop appends to a group exactly the spins at the positions Filing lists, in that order |
| Calculations.AnnotatedSignRule | calculation.py:203-208 | a group's in-plane sign is +1 exactly when the spin at its first filed position is below the spin at its second |
| Calculations.AnnotatedSucceeds | calculation.py:184-208 | the success condition restated over the spin counts per group |
| Calculations.AddAdditional | calculation.py:184-208 | the loops return the annotation Annotated describes |
| Structures.EzList | structure.py:169-181 | every sample's E_z is in the grid, every grid value is a sample's E_z or one of the two limits, and at most two values are added |
| Structures.Bracketed | structure.py:169-181 | the grid holds the listed values with their multiplicities plus at most the two limits |
| Structures.EzListShape | structure.py:170-181 | E_z_list over sorted samples is sorted, starts at min(limit, first E_z) and ends at max(limit, last E_z) |
| Structures.EzListEmpty | structure.py:170-181 | without samples the list is the two limits |
| Structures.InRangeList | structure.py:184-186 | exactly the grid values within the range are kept |
| Structures.InRangeListSorted | structure.py:184-186 | a sorted grid stays sorted |
| Structures.Diffs | structure.py:189-191 | one gap fewer than values |
| Structures.DiffsTelescope | structure.py:189-191 | the gaps add up to last − first |
| Structures.DiffsBounded | structure.py:189-191 | over a sorted grid no gap is negative or wider than the grid |
| Structures.ThresholdPairs | structure.py:193-197 | at most one pair per grid value, each a grid value with a gap reaching the threshold |
| Structures.ThresholdPairsSound | structure.py:194-197 | every kept pair is a value with the gap after it, that gap reaching the threshold |
| Structures.ThresholdPairsComplete | structure.py:194-197 | every value whose following gap reaches the threshold is kept |
| Structures.MinimumRange | structure.py:58-67 | the window exists exactly when the grid reaches past minimum ± vicinity/2 on both sides; its edges are grid values outside the window and nothing of the grid lies between them and the window |
| Structures.ERange | structure.py:52-56 | the minimum window when a minimum is given, else the outer or the inner range |
| Structures.PosInRange | structure.py:82-87 | −1 outside the range; inside it the relative position in [0, 1]; a division error for a zero-width range |
| Structures.MaxGap | structure.py:113-124 | with at most one value the gap is 1; a zero span with more values is a division error |
| Structures.EdgeGaps | structure.py:113-124 | the first and last gap relative to the span, (1, 1) with at most one value, a division error for a zero span |
| Structures.GapsAreFractions | structure.py:113-124 | over a sorted grid every gap is a fraction in [0, 1] of its non-empty range |
| Structures.BoundE | structure.py:142-147 | a point is requested exactly for a non-empty pair list and i = 0 or 1 |
| Structures.BoundEInsideGap | structure.py:142-147 | for error² < 1 the requested point lies strictly inside the chosen edge gap |
| Structures.BoundsFactor | structure.py:364-369 | for every i, as calc_bounds passes it after `i += 1`, reading the gap at (i + 1) mod 2: the factor is 1 when the left gap is 1 |
| Structures.BoundsFactorAtLeastOne | structure.py:364-369 | for every i, with both gaps below 1 the factor 1/(1 − gap) exists and is at least 1 |
| Structures.BoundsFactorRightGapOne | structure.py:364-369 | the test reads the left gap, so a right gap of 1 with a left gap below 1 divides by zero |
| Structures.BoundSide | structure.py:245-250 | calc_bounds starts on the only side asked for, or, with both or neither, on the side with the larger edge gap |
| Structures.BlankPointsCover | structure.py:204-219 | for a positive threshold, every kept pair gets at least one point, and every requested point lies strictly inside the gap of a kept pair |
| Structures.FillBlanks | structure.py:204-219 | the requested points are n = int(gap/threshold) equally spaced points in every gap reaching threshold = fill_blanks_limit × span |
| Structures.BlankCountSplitsBelowThreshold | structure.py:214-217 | a kept gap gets at least one point, and the pieces after filling are narrower than the threshold |
| Structures.PointsSplitGapEvenly | structure.py:216-217 | the points of one gap lie strictly inside it, evenly spaced by gap/(n + 1) |
| Structures.BisectionPoint | structure.py:431-440 | inside an ordered triplet with error² < 1, the golden-section step lands strictly inside the half on the side of the larger splitting |
| Structures.BisectionTarget | structure.py:431-449 | inside an ordered triplet with error² < 1, the 98/2 mix of the step with the triplet's middle lies strictly inside the triplet |
| Structures.BisectionMirrored | structure.py:431-449 | both sides are treated alike: mirroring the triplet mirrors the step and the request when the splittings differ |
| Structures.MixInside | structure.py:447-449 | mixing 98 % of an inner point with 2 % of the triplet midpoint stays inside the triplet |
| Structures.ParabolaRequests | structure.py:452-483 | no request without a vertex |
| Structures.VertexRequests | structure.py:452-483 | at most two requests; a failure only for a vertex close to the middle sample with no width known after the first request; a vertex away from the middle and inside the triplet gives one request inside the triplet; near the middle every request is eps/20 from the vertex |
| Structures.VertexRequested | structure.py:452-483 | three points of a parabola whose vertex is not close to the middle sample request the vertex mixed with the triplet midpoint |
| Structures.ParabolaRequestsOutsideTriplet | structure.py:452-483 | as written: y = x² sampled at 1, 2, 3 requests 0.04, outside the triplet |
| Structures.CorrectedParabolaRequests | structure.py:452-503 | no request without a vertex, as fitting_minimum's branch structure gives |
| Structures.CorrectedParabolaStaysInside | structure.py:485-503 | with the skip of fitting_minimum, every vertex request lies strictly inside the triplet |
| Structures.CandidateParabolaAgrees | structure.py:452-483 | on an ordered triplet whose middle splitting is no larger than its neighbours', the code as written and the corrected step request the same values |
| Structures.MinimumTripletAgrees | structure.py:585-598 | for the triplet around a candidate update_minimum can choose, in a list with strictly increasing E_z, the code as written and the corrected step agree |
| Structures.FittingRequests | structure.py:485-503 | at most one request, strictly inside the triplet, and none exactly when the vertex is outside or close to the middle sample |
| Structures.StrategyFor | structure.py:421-428 | iteration k bisects exactly when bisection_freq divides k, takes a parabola step exactly otherwise when parabola_freq divides k, and fits otherwise |
| Structures.StrategyPeriodic | structure.py:421-428 | the schedule repeats with period bisection_freq × parabola_freq |
| Structures.DefaultSchedule | structure.py:421-428 | with frequencies 5 and 3 the first six steps are fit, fit, parabola, fit, bisection, parabola |
| Structures.GenMinimas | structure.py:411-428 | nothing without a minimum; otherwise the steps follow the schedule until the triplet width drops below minima_eps (converged) or the minimum is lost |
| Structures.InsertByEz | structure.py:630-632 | inserting keeps every sample and adds one |
| Structures.InsertKeepsSorted | structure.py:630-632 | inserting into a sorted list keeps it sorted |
| Structures.SortByEz | structure.py:630-632 | the result is sorted by E_z and a permutation of the input |
| Structures.InsertAtEz | structure.py:630-632 | insertion puts a sample ahead of the samples of equal E_z already in the list and leaves their order alone |
| Structures.SortByEzStable | structure.py:630-632 | the sort is stable, as list.sort is: for every E_z value, the samples with that value appear in their input order |
| Structures.Dedup | structure.py:647-659 | never longer, keeps the first E_z and the last sample, draws only from the input |
| Structures.DedupNoRepeats | structure.py:647-659 | no two neighbours share an E_z afterwards |
| Structures.DedupKeepsValue | structure.py:647-659 | every E_z value of the input is still present |
| Structures.DedupKeepsRunEnds | structure.py:647-659 | the later of two equal neighbours survives: the last sample of each run is kept |
| Structures.DedupIsSubsequence | structure.py:647-659 | the result is the input with some samples taken out |
| Structures.DedupSorted | structure.py:647-659 | sorted input stays sorted |
| Structures.Widened | structure.py:532-540 | limits only move outward; with samples present each limit clears the outermost samples by limit_update, moving only when it was closer |
| Structures.WidenedIdempotent | structure.py:532-540 | a second update with the same samples changes nothing |
| Structures.WidenedBracketsSamples | structure.py:532-540 | over sorted samples every sample lies limit_update inside the new limits |
| Structures.ScanRangeOrdered | structure.py:548-579 | over sorted samples inside the limits a range never ends before it starts |
| Structures.RangesNest | structure.py:548-579 | for limit ≤ 0.5 the outer range contains the inner range |
| Structures.BestBelow | structure.py:585-598 | the chosen index is a candidate |
| Structures.BestBelowIsBest | structure.py:585-598 | there is no minimum exactly when there is no candidate; the one found has the smallest splitting of all candidates and every earlier candidate has a strictly larger one, so the earliest wins a tie |
| Structures.IsLocalMinimum | structure.py:509-512 | the splitting is below the smaller of its neighbours', the left one being the last sample for i = 0 as Python's calcs[-1] |
| Structures.LocalMinimaApart | structure.py:509-512 | two neighbouring samples are never both local minima |
| Structures.StrictMinimumIsCandidate | structure.py:510-512 | an interior strict local minimum inside the inner range is a candidate, and a candidate tied with a neighbour is not a strict local minimum |
| Structures.CalcBelongs | structure.py:635-645 | only samples with the structure's number belong, and a sample carrying the structure's own number and fields always does |
| Structures.BelongsToOne | structure.py:635-644 | two structures whose in-plane fields differ by twice the tolerance never both accept a sample |
| Structures.Structure.constructor | structure.py:15-45 | a new structure holds no samples, the default limits and ranges, no minimum, no auxiliary sample and no links |
| Structures.Structure.SortPerEz | structure.py:630-632 | the samples become SortByEz of the old ones: sorted and a permutation |
| Structures.Structure.RemoveRepeats | structure.py:647-659 | the pop loop leaves Dedup of the old samples |
| Structures.Structure.UpdateLimits | structure.py:532-540 | the limits become Widened of the old limits |
| Structures.Structure.UpdateRange | structure.py:548-579 | the scan loop sets the outer or the inner range to ScanRange and leaves the other alone |
| Structures.Scan | structure.py:550-574 | the scan over the samples yields ScanRange: the right end is the first right-edge sample (the upper limit when none), the left end the last sample of the leading left-edge run among the samples up to and including it (the lower limit when that run is empty) |
| Structures.Structure.UpdateRanges | structure.py:543-545 | both ranges are recomputed |
| Structures.Structure.UpdateMinimum | structure.py:585-598 | the minimum index is BestBelow over all samples and the minimum and E_min_diff describe that sample |
| Structures.Structure.WidenLimits | simulation.py:258-259 | continue_generating moves each limit out by one |
| Simulations.Product | simulation.py:60-61 | itertools.product order, with len(n_list)·len(E_list)·len(B_list) keys |
| Simulations.ProductAt | simulation.py:60-61 | key (a, e, k) sits at index (a·|E| + e)·|B| + k |
| Simulations.LinksMutual | simulation.py:62-80 | next_k of i is j exactly when previous_k of j is i; a link exists exactly when the neighbour does |
| Simulations.Route | simulation.py:203-208 | the chosen structure accepts the sample and no earlier one does |
| Simulations.RoutedOnce | simulation.py:203-208 | each sample lands in at most one structure, and in none when none accepts it |
| Simulations.ParseLines | simulation.py:122-130 | on success one sample per line pair past the mark, each the parse of its pair |
| Simulations.ParseLinesOk | simulation.py:122-130 | reading succeeds exactly when every line pair past the mark parses |
| Simulations.ParseLinesFirstError | simulation.py:122-130 | the first line pair that fails decides the error |
| Simulations.LineKey | simulation.py:145-146 | the key of an auxiliary line is its last two tokens, as integers |
| Simulations.AnnotateFromKeeps | simulation.py:147-151 | annotation touches only samples with the line's key and only their auxiliary part; the auxiliary sample becomes the last one annotated |
| Simulations.AnnotateLinesStaysFailed | simulation.py:144-151 | a failed line spoils every longer list of lines |
| Simulations.CleanedSamples | simulation.py:278-283 | after clean_up the samples have strictly increasing E_z, all drawn from before, and every old E_z value is still present |
| Simulations.CleanedLimitsAndRanges | simulation.py:278-283 | after clean_up the limits only widened and clear every sample, and the outer range contains the inner one |
| Simulations.CleanedMinimum | simulation.py:278-283 | after clean_up the minimum is the best candidate of the cleaned samples, and the links and auxiliary sample are untouched |
| Simulations.MinimumPassIdempotent | simulation.py:306-308 | update_minimum twice is update_minimum once |
| Simulations.CleanedFixedPoint | simulation.py:278-283 | a sorted state with no repeats, settled limits, ranges and minimum is left unchanged |
| Simulations.CleanedIdempotent | simulation.py:278-283 | a second clean_up changes nothing |
| Simulations.RereadAddsNothing | simulation.py:118-140 | after a read, reading the same streams parses nothing new and the cleaned state stays the same |
| Simulations.OwnedReceived | simulation.py:203-208 | routing keeps every structure owning only samples that belong to it |
| Simulations.AnnotateStructure | simulation.py:147-151 | the sample loop applies the line as LineApplied says and fails exactly when it does |
| Simulations.GenerateStructures | simulation.py:57-81 | one fresh, distinct structure per key, in product order, each linked to up to three neighbours on either side |
| Simulations.MakeStructures | simulation.py:60-61 | one fresh, distinct, unlinked structure per key, in product order |
| Simulations.LinkPrevious | simulation.py:62-70 | the first loop sets previous, previous2 and previous3 |
| Simulations.LinkNext | simulation.py:71-80 | the second loop, over the reversed list, sets next, next2 and next3 |
| Simulations.Simulation.constructor | simulation.py:57-81 | one structure per key of the product, each linked to up to three neighbours per side, nothing read yet |
| Simulations.Simulation.AddToStructures | simulation.py:203-208 | the sample is appended to the first accepting structure with its back-link set, and to no other |
| Simulations.Simulation.SortStructures | simulation.py:286-288 | every structure's samples are sorted |
| Simulations.Simulation.RemoveRepeats | simulation.py:301-303 | repeats are removed in every structure |
| Simulations.Simulation.UpdateLimits | simulation.py:291-293 | every structure's limits are widened |
| Simulations.Simulation.UpdateRanges | simulation.py:296-298 | every structure's ranges are recomputed |
| Simulations.Simulation.UpdateMinimum | simulation.py:306-308 | every structure's minimum is recomputed |
| Simulations.Simulation.CleanUp | simulation.py:278-283 | every structure goes through the five passes in order: its state becomes Cleaned of the old one |
| Simulations.Simulation.WidenAllLimits | simulation.py:255-259 | every structure's limits move out by one |
| Simulations.Simulation.AddPairs | simulation.py:122-130 | the pairs past the mark are parsed and routed, or the first parse error is returned |
| Simulations.Simulation.ReadFiles | simulation.py:118-140 | a parse error is reported; otherwise the mark moves to the number of pairs, a run is requested exactly when there is no line pair, either stream being empty (an error with no structure), and every structure is cleaned after receiving its samples |
| Simulations.Simulation.ApplyLine | simulation.py:145-151 | one auxiliary line annotates every structure, failing exactly when one structure fails |
| Simulations.Simulation.ReadAdditional | simulation.py:142-155 | a missing file changes nothing; otherwise every line is applied to every structure, failing on a line without a key or an annotation that fails |

## Left out

- fit_min and residue (fit.py:55-81) are least-squares fits through lmfit, which is foreign numerical code. fitting_minimum is modelled with the fitted vertex as a parameter (`Structures.FittingRequests`).
- calc_bounds, calc_right, calc_based_on_previous and gen_various: their loops issue solver runs and re-read the results. Only their pure parts are modelled: `Structures.BoundSide`, `Structures.BoundE`, `Structures.BoundsFactor` and `Structures.MinimumRange`. bound_E_percent, E_boundary, bounds_right and right are left out with them.
- fill_blanks_near_anticrossing: it is made of solver requests around the minimum, and only fill_blanks' arithmetic is modelled.
- Structures.FillBlanks and the minimum steps return the E_z values they would hand to the solver. The solver run, and the re-read it triggers, are not modelled.
- Structures.GenMinimas: the triplet width after each solver run is given as a sequence of observations, because the run is not modelled.
- The progress bar (bar, between_bars), calculation_info, echo, screen_w and the shell calls (make_psi, psi_safeguard, psi_release, kill_psi, system, popen) are console and process I/O. `Psi.CurrentPosition` takes the bar width as a parameter.
- Psi.Poll: the log file is given as the sequence of its snapshots, one per sleep. Sleeping and the clock are not modelled.
- read_coeffs, add_coeffs, read_special_cases and the write_* and output functions are file output and special-case readers outside the sampling core.
- Options.is_Polaron: the host name is a constructor parameter instead of the result of `echo $HOSTNAME`.
- The derived physical quantities are left out: anti_signed, g_low, g_up, B_value, gfactors, theta, phi, x_axis, n, piezo, opt_Ez_piezo, range_confidence and title. They feed output only.
- Structures.Structure.constructor: the "Brotate" mode is not modelled. When the output file name contains "Brotate", structure.py:25 and :32 replace B with the in-plane unit vector at the structure's angle (structure.py:787 onwards, a trigonometric function of the project name and structure number) and label the direction "[110]". calc_belongs (structure.py:641-642) then routes samples on that B. The model always uses the B of the structure's key.
- Floating point: reals are exact. Rounding in the parabola formulas, in ϕ and in sqrt(2) is not captured. √5 and √2 are the decimal values of the two doubles (common.dfy, `Common.Sqrt5` and `Common.Sqrt2`), exact rationals near the true roots; proofs use only their bounds (`Common.ConstantBounds`).
- Common.StrToComplex splits the text but does not convert the parts to floats.
- Basics.ParseInt accepts only optional signs and decimal digits, so it rejects "1_2" and surrounding whitespace, which Python's int() accepts. Calculations.IntToken and Simulations.LineKey work on numbers that are already tokenised, and they accept an integral value such as 3.0, where int("3.0") raises ValueError.
- Structures and their neighbours are linked by index, not by object reference. A sample's `struct` back-reference is its structure's index.
- Simulations.Simulation.ReadAdditional: the annotated sample is stored as a value copy, not as a shared reference, so later changes to the sample are not reflected in it.
- Simulations.Simulation.ReadFiles and Simulations.Simulation.ReadAdditional: after a failure the model does not describe the partially updated state that Python leaves behind.
- Simulations.Simulation.ReadFiles: the solver run requested when there is no line pair (either stream empty) is reported (`runRequested`), not performed.
- Structures.Structure.constructor: the outer and inner ranges start at the default limits. The other per-structure attributes set in `__init__` (the solver handle, coefficient placeholders) are not modelled.
- Timer.PrintTime: time.time() is replaced by the elapsed seconds as a parameter, and the formatted text by its numbers and units.
- ClearFiles.ClearAll: the directory listings are parameters and removals are reported, not executed.
- Counter, run.py, setup.py, analyze.py, gtensor.py, lists.py and output.py are not part of this model.

## Findings

| source | as written | input that shows it | evidently intended | confidence | as-written member | corrected member |
|---|---|---|---|---|---|---|
| structure.py:452-483 | parabola_minimum requests the vertex of the parabola whenever it is not close to the middle sample, even when the vertex lies outside the triplet | samples (E_z, anti) = (1, 1), (2, 4), (3, 9) on y = x²: the vertex is 0 and the request is 0.04, outside [1, 3]. This triplet is not one the minimum search hands over, because its middle splitting is above a neighbour's. For every triplet it does hand over, the vertex lies inside (Structures.MinimumTripletAgrees), so with exact numbers the path is unreachable; only floating-point rounding on a nearly flat triplet can reach it | skip a vertex outside the triplet, as fitting_minimum (structure.py:485-503) does with its extra branch | not executed; latent with exact arithmetic | Structures.ParabolaRequestsOutsideTriplet | Structures.CorrectedParabolaStaysInside |

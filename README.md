# dlqmc core in Dafny

This project models the numerical core of `dlqmc`, a deep-learning quantum
Monte Carlo package, and proves properties of the model:

- **Langevin sampling** (`sampling.dfy`, module `Sampling`).
  - The walker ensemble `LangevinSampler` is a class over arrays of positions, wave-function values, forces and ages.
  - One step proposes a drift-plus-noise move and evaluates it, or raises the Slater-factorisation error with the failing walkers attached.
  - The step then decides acceptance: the Metropolis outcome, then the psi-threshold, maximum-age and burn-in overrides.
  - Finally it ages the walkers and merges the accepted moves into the arrays in place.
  - `samples_from` is the burn-in and thinning filter of the yielded samples.
- **Trajectory analysis** (`analysis.dfy`, module `Analysis`).
  - `log_clip`: logarithmic compression of values outside a window.
  - `ewm_full`: the robust exponentially weighted trajectory estimator, with its 23 statistic slots. It covers thresholds, decays, outlier gating, moment updates and the blowup-detection episode.
  - The window mask of the `ewm` weights.
- **Utilities** (`utils.dfy`, module `Utils`; `debug.dfy`, module `DebugContainers`).
  - The masked merge `assign_where`.
  - `triu_flat`, `nondiag` and `np.mask_indices(n, nondiag)`.
  - `dctsel` with Python's whitespace split, `pow_int`, `expand_1d`, `normalize_mean`, `weighted_mean_var` and `batch_eval`.
  - The `DebugContainer` class with its level stack, and the `_NullDebug` variant.
- **Statistics** (`stats.dfy`, module `Stats`).
  - `kthvalue` as an order statistic.
  - `outlier_mask` and `clip_outliers`.
  - The batch-size and chunking rule of `GaussianKDEstimator`.
- **Symmetry wrappers** (`anti.dfy`, module `Anti`).
  - `PairConcat`, `NetPairwiseAntisymmetry` and `NetOdd`.
  - `AntisymmetricPart`, proved to flip sign when two neighbouring electrons are exchanged.
- **SchNet self-interaction exclusion** (`schnet.dfy`, module `Schnet`).
  - `ZeroDiagKernel`, as an array method.
  - `schnet_conv`, both as written and as evidently intended (see Findings).

`wrappers.dfy` holds the `Option` and `Result` types. `numerics.dfy` holds sums, means, counts and Python's `int()` on a float.

Randomness, transcendental functions and the wave function are parameters of the model:

- The Gaussian draw and the Metropolis outcome `Ps_acc > rand` enter `Next` as arguments.
- The per-walker routines `quantum_force` and `clean_force` are function parameters. A failing factorisation is `None`.
- `exp`, `sqrt`, the logarithmic compression `a (1 + log((1 + (y / a)^2) / 2))`, the normalised deviation `d / sqrt(v)` and `np.percentile` are parameters or inputs.

The psi-threshold override groups as Python's precedence does: `(acc & (|new| > thr)) | ((|old| < thr) & (|new| > |old|))`. The model follows the code, and `PsiRuleAcceptsGrowingWalker` shows where the other grouping would differ.

## Model

| member | source | states |
|---|---|---|
| Sampling.FailingWalkers | src/dlqmc/sampling.py:44-49 | the indices in the factorisation error are exactly the failing walkers, in increasing order |
| Sampling.QForce | src/dlqmc/sampling.py:44-51 | `qforce` fails iff some walker's evaluation fails; the error carries exactly those indices and their rows; on success every walker gets its cleaned force and its wave-function value |
| Sampling.QForceFailure | src/dlqmc/sampling.py:44-49 | a raised error names at least one walker; a walker is named iff its evaluation fails |
| Sampling.MergeKeepsEvaluation | src/dlqmc/sampling.py:77-79 | merging two evaluated populations with one mask gives a population evaluated to the merged forces and values |
| Sampling.Proposal | src/dlqmc/sampling.py:37-42 | each coordinate of the proposal moves by force times `tau` plus the noise; shapes are kept |
| Sampling.NewAges | src/dlqmc/sampling.py:71-72 | accepted walkers get age 0, rejected walkers age by one |
| Sampling.FirstCertainAcceptsAll | src/dlqmc/sampling.py:69-70 | during burn-in every walker is accepted, whatever the other rules say |
| Sampling.MaxAgeForcesAcceptance | src/dlqmc/sampling.py:67-68 | a walker at or over the maximum age is accepted, even when the psi rule rejects it |
| Sampling.AcceptVectorWithoutAge | src/dlqmc/sampling.py:61-66 | after burn-in and with no maximum age, the decision is the psi rule, or the Metropolis outcome when there is no threshold |
| Sampling.AcceptVectorBelowAge | src/dlqmc/sampling.py:61-68 | after burn-in, a walker below the maximum age is decided by the psi rule or by the Metropolis outcome |
| Sampling.PsiRuleAcceptsGrowingWalker | src/dlqmc/sampling.py:63-66 | as grouped by Python, a walker rejected by Metropolis is still accepted when its old value is below the threshold and grows; the grouping `acc & (A \| B)` would reject it |
| Sampling.AgesStayCapped | src/dlqmc/sampling.py:67-72 | with a maximum age, ages stay in `0 .. max(max_age, 0)` across the age update |
| Sampling.AcceptanceBounds | src/dlqmc/sampling.py:74 | the acceptance fraction lies in [0, 1]; it is 1 iff all walkers are accepted and 0 iff none is |
| Sampling.FirstCertainFullAcceptance | src/dlqmc/sampling.py:69-74 | during burn-in the reported acceptance is exactly 1 |
| Sampling.KeptPositionsCorrect | src/dlqmc/sampling.py:10-16 | a position is kept iff its step index is at least `n_discard` and divisible by `n_decorrelate + 1`; kept positions are increasing |
| Sampling.KeptSamples | src/dlqmc/sampling.py:11-16 | the kept samples are the yielded samples at the kept positions, in order; pairing stops at the shorter of steps and samples |
| Sampling.Stack | src/dlqmc/sampling.py:18 | stacking fails iff two kept position tensors differ in shape (walker count or the size of some walker's configuration) or two value tensors differ in length; otherwise walker `w` of kept step `t` sits at `[w][t]` |
| Sampling.StackRejectsRaggedConfigs | src/dlqmc/sampling.py:18 | samples with equal walker counts but configurations of sizes 1 and 2 do not stack |
| Sampling.SamplesFrom | src/dlqmc/sampling.py:10-18 | `samples_from` raises division by zero iff `n_decorrelate + 1 == 0` and some paired step reaches `n_discard`; it raises on an empty selection iff no paired step passes the filter; otherwise it is the stack of the kept samples |
| Sampling.SamplesFromStacksKept | src/dlqmc/sampling.py:11-18 | when the period is non-zero and some paired sample is kept, `samples_from` returns exactly what stacking the kept samples gives, the stacked arrays or the shape error |
| Sampling.NothingKeptMeansNoStepPasses | src/dlqmc/sampling.py:11-17 | an empty selection means that no paired step passes the filter |
| Sampling.KeptMeansSomeStepPasses | src/dlqmc/sampling.py:11-17 | a non-empty selection has a step that passes the filter |
| Sampling.KeptStepsExample | src/dlqmc/sampling.py:15 | the filter tests the absolute step index: steps 0..9 with `n_discard=2, n_decorrelate=1` keep 2, 4, 6, 8 |
| Sampling.KeptPositionsPrefix | src/dlqmc/sampling.py:14-15 | pairing with more steps only appends kept positions |
| Sampling.RestartState | src/dlqmc/sampling.py:93-96 | a successful evaluation with all ages zero is a well-shaped state whose forces and values are those of its positions |
| Sampling.StepFailure | src/dlqmc/sampling.py:53-55 | a step fails with the factorisation error of the proposal iff evaluating it fails; otherwise it fails, by division by zero, iff there are no walkers |
| Sampling.StepMovesAcceptedWalkers | src/dlqmc/sampling.py:53-80 | an accepted walker takes the proposed position, force and value and its age becomes 0; a rejected one keeps all three and ages by one; the population size is kept and the step counter grows by one |
| Sampling.StepReportsAcceptance | src/dlqmc/sampling.py:73-81 | the yielded sample holds the new positions, values and ages, and the acceptance is the accepted count over the walker count, in [0, 1] |
| Sampling.StepKeepsShape | src/dlqmc/sampling.py:53-80 | a step keeps every array one row per walker, with forces shaped like positions |
| Sampling.StepKeepsEvaluation | src/dlqmc/sampling.py:55-79 | after a step, forces and values are still those of the positions |
| Sampling.StepKeepsAgesCapped | src/dlqmc/sampling.py:67-72 | with a maximum age, a step keeps the ages within their cap |
| Sampling.LangevinSampler.Init | src/dlqmc/sampling.py:22-28 | the sampler stores the routines, `tau` and the policy, and a private copy of the positions, with step 0 |
| Sampling.LangevinSampler.Create | src/dlqmc/sampling.py:22-29 | construction fails iff evaluating the initial positions fails, with that error; otherwise the sampler is evaluated, at step 0, with all ages 0 |
| Sampling.LangevinSampler.Len | src/dlqmc/sampling.py:31-32 | `len(sampler)` is the number of walkers |
| Sampling.LangevinSampler.Restart | src/dlqmc/sampling.py:93-96 | the step counter goes to 0 and the positions are kept; failure iff evaluation fails, leaving forces, values and ages as they were; success leaves fresh evaluated arrays and all ages 0 |
| Sampling.LangevinSampler.PropagateAll | src/dlqmc/sampling.py:89-91 | the positions become the proposal unconditionally, then the sampler restarts with the same error rule |
| Sampling.LangevinSampler.UpdateAges | src/dlqmc/sampling.py:71-72 | the ages array becomes `NewAges` of the old ages, in place |
| Sampling.LangevinSampler.TakeAccepted | src/dlqmc/sampling.py:77-79 | positions, values and forces each become the masked merge of old and new, in place |
| Sampling.LangevinSampler.Next | src/dlqmc/sampling.py:53-81 | the new state and the yielded sample are those of `Step`; a failing step changes nothing visible; evaluation consistency and the age cap are preserved |
| Analysis.CompressBelowInPlace | src/dlqmc/analysis.py:44 | the in-place masked write leaves exactly `CompressBelow` of the old contents |
| Analysis.CompressAboveInPlace | src/dlqmc/analysis.py:45 | the in-place masked write leaves exactly `CompressAbove` of the old contents |
| Analysis.AddInPlace | src/dlqmc/analysis.py:46 | adding the median back undoes the centring |
| Analysis.LogClip | src/dlqmc/analysis.py:39-46 | `log_clip` returns a fresh array with the clipped values; the counts are the numbers of values below `a` and above `b` |
| Analysis.LogClipKeepsInside | src/dlqmc/analysis.py:39-46 | the length is kept, and values inside `[a, b]` come back unchanged |
| Analysis.LogClipOutside | src/dlqmc/analysis.py:44-45 | a value below `a` becomes `med + compress(x - med, a - med)`; when that image still exceeds `b` the upper pass compresses it again; a value above `b` and not below `a` becomes `med + compress(x - med, b - med)` |
| Analysis.InfiniteThresholds | src/dlqmc/analysis.py:75-83 | exactly the plain-mean slots 10, 14, 18, 22 have an infinite threshold; finite thresholds are positive |
| Analysis.DecayBounds | src/dlqmc/analysis.py:84-85 | every decay lies in [0.5, 0.96] and starts at 0.5 |
| Analysis.DecayMonotone | src/dlqmc/analysis.py:84-85 | decays never decrease with the step |
| Analysis.StatVectorSlots | src/dlqmc/analysis.py:74-81 | the first seven slots are the percentiles and slots 7-10 and 15-18 the mean energy; slots 11-14 and 19-22 take the mean of the energies clipped with running median and ±3σ means from step 6 on, and the plain mean before |
| Analysis.OutlierFlagsFacts | src/dlqmc/analysis.py:93-94 | before step 6 the flags are carried over; an infinite threshold never flags |
| Analysis.SlotStepBounds | src/dlqmc/analysis.py:95-97 | with a decay in [0, 1], the new mean lies between the old mean and the statistic, and variance and error stay non-negative |
| Analysis.MomentsFlagged | src/dlqmc/analysis.py:98-101 | a flagged slot keeps its mean, variance and error and its counter grows by one; an unflagged slot's counter resets to 0 |
| Analysis.MomentsUnflagged | src/dlqmc/analysis.py:95-100 | an unflagged slot takes the decayed updates; its mean stays between old mean and statistic, its variance and error non-negative |
| Analysis.EpisodeStep | src/dlqmc/analysis.py:103-118 | an active episode was last confirmed at most 50 steps back |
| Analysis.EpisodeOpens | src/dlqmc/analysis.py:103-109 | the first candidate opens an episode at this step, starting from the running mean of slot 9, with delta of slot 8 against it |
| Analysis.EpisodeRefreshes | src/dlqmc/analysis.py:110-118 | a later candidate moves the step only; the start is kept, and delta is refreshed and accumulated |
| Analysis.EpisodeExpires | src/dlqmc/analysis.py:112-118 | without a candidate, an episode ends iff its step is more than 50 back; otherwise it keeps step and start and accumulates delta |
| Analysis.Report | src/dlqmc/analysis.py:119-132 | `blowup` iff an active episode's delta exceeds 0.5; without an episode delta and accumulated delta read 0 |
| Analysis.StepOnce | src/dlqmc/analysis.py:70-133 | one loop iteration: the row reports the new state's vectors, and the candidate flag is the blowup rule on its outlier flags |
| Analysis.RunPrefix | src/dlqmc/analysis.py:120 | later steps only append rows: row `k` is fixed once step `k` is done |
| Analysis.RunLastReports | src/dlqmc/analysis.py:120-133 | the last row reports the state the run ends in |
| Analysis.RunUnfold | src/dlqmc/analysis.py:70-133 | run `n` is run `n - 1` followed by one iteration |
| Analysis.FirstStep | src/dlqmc/analysis.py:86-91 | step 0 starts afresh from any state: means are the statistics, with zero variance, error and counters, no flags, no candidate and no blowup |
| Analysis.FirstRow | src/dlqmc/analysis.py:86-91 | row 0 of the trajectory is that fresh start |
| Analysis.StepKeepsReachable | src/dlqmc/analysis.py:86-118 | one iteration keeps variances, errors and counters non-negative, no flag before step 6, no flag on an infinite threshold |
| Analysis.RunReachable | src/dlqmc/analysis.py:70-118 | every state a run reaches satisfies these invariants |
| Analysis.TrajectoryInvariants | src/dlqmc/analysis.py:86-133 | every row has non-negative variance and error in each slot, no flag in rows 0-5, and never a flag on a plain-mean slot |
| Analysis.StepKeepsSettled | src/dlqmc/analysis.py:93-101 | a step whose statistics equal the running means it starts from, with zero spread, flags nothing and leaves the means, the zero variance and error and the zero counters as they are; step 0 settles on its statistics |
| Analysis.ConstantStatisticsSettle | src/dlqmc/analysis.py:70-101 | when every row of a run reports the same statistics vector `c`, the run ends with all running means at `c`, zero variance and error, no outlier and zero counters |
| Analysis.ComputeStat | src/dlqmc/analysis.py:71-81 | the imperative fill of `stat` computes `StatVector` |
| Analysis.UpdateBlowup | src/dlqmc/analysis.py:102-118 | the in-place edits of the blowup record compute `EpisodeStep` |
| Analysis.EwmFull | src/dlqmc/analysis.py:49-135 | the loop of `ewm_full` produces exactly `Trajectory` of the input |
| Analysis.Trajectory | src/dlqmc/analysis.py:49-135 | one row per step |
| Analysis.WeightsWindow | src/dlqmc/analysis.py:11-13 | every weight is non-negative, and positive iff its delta lies in `[0, -log(thre))` |
| Analysis.DefaultRowsNormalisable | src/dlqmc/analysis.py:8-14 | with `x = X` and a positive window each row has a positive weight sum, so the normalisation is defined |
| Utils.Merge | src/dlqmc/utils.py:81 | `x[where] = y[where]` leaves `y`'s entry where the mask is true and `x`'s elsewhere |
| Utils.MergeIdempotent | src/dlqmc/utils.py:79-81 | merging twice with the same mask changes nothing more |
| Utils.MergeExtremes | src/dlqmc/utils.py:79-81 | an all-true mask takes `y` whole, an all-false mask keeps `x` |
| Utils.MaskedAssign | src/dlqmc/utils.py:81 | the in-place masked write leaves `Merge` of the old contents |
| Utils.AssignWhere | src/dlqmc/utils.py:79-81 | each target of the zipped pairs gets the masked merge; targets beyond the shorter list are untouched |
| Utils.RowPositionsFacts | src/dlqmc/utils.py:13 | one row's selected positions are exactly its true entries, in strictly increasing order, as many as it has |
| Utils.NonzeroFacts | src/dlqmc/utils.py:13 | the selected positions of a mask are exactly its true entries in strictly row-major order |
| Utils.NonzeroSplit | src/dlqmc/utils.py:13 | selecting a row range is selecting its two halves one after the other |
| Utils.NonzeroLength | src/dlqmc/utils.py:13 | with `w` true entries per row the selection has `w` entries per row |
| Utils.TriuIndicesCorrect | src/dlqmc/utils.py:13 | `triu_indices(n, k=1)` lists exactly the pairs `i < j < n`, strictly row-major, `n (n - 1) / 2` of them |
| Utils.TriuFlat | src/dlqmc/utils.py:12-14 | `triu_flat` raises exactly when there are at least two rows and fewer columns than rows, since with fewer than two rows there is no pair to index; otherwise entry `t` of each batch element is `x[b][i][j]` for the `t`-th pair `i < j` |
| Utils.TriuFlatSingleRow | src/dlqmc/utils.py:12-14 | a batch of `(1, 0)` tensors flattens to one empty row per batch element, without an error |
| Utils.NonDiag | src/dlqmc/utils.py:90-93 | `nondiag` returns a fresh array equal to the input with its diagonal zeroed |
| Utils.NonDiagOf | src/dlqmc/utils.py:90-93 | the zeroed-diagonal matrix has the input's shape |
| Utils.OffDiagIndicesCorrect | src/dlqmc/utils.py:90-93 | `mask_indices(n, nondiag)` lists exactly the pairs `i != j < n`, strictly row-major, `n (n - 1)` of them; its first `r (n - 1)` entries are the off-diagonal pairs of the first `r` rows |
| Utils.WordsOfJoin | src/dlqmc/utils.py:97-98 | splitting words joined by single spaces gives back the words, when they are non-empty and hold no whitespace |
| Utils.Words | src/dlqmc/utils.py:98 | `split()` yields non-empty words without whitespace |
| Utils.DctSel | src/dlqmc/utils.py:96-99 | `dctsel` keeps exactly the requested keys present in the dictionary, with the dictionary's values |
| Utils.DctSelTextIsList | src/dlqmc/utils.py:96-99 | a whitespace-joined key string selects what the list of its words selects |
| Utils.DctSelIdempotent | src/dlqmc/utils.py:96-99 | selecting again with the same keys changes nothing |
| Utils.PowInt | src/dlqmc/utils.py:183-190 | every position ends up with the power for its own exponent, written exactly once, whatever the order of the unique exponents |
| Utils.PyIndex | src/dlqmc/utils.py:208 | a possibly negative index is valid iff it lies in `-n .. n - 1`, and it normalises to `k` or `k + n` |
| Utils.Expand1d | src/dlqmc/utils.py:206-209 | `expand_1d` fails iff `k` or `i` is out of range; otherwise copy `m` equals `r` except at `[k, i]`, which is displaced by `x[m]` |
| Utils.NormalizeMean | src/dlqmc/utils.py:212-213 | `normalize_mean` is defined iff the input is non-empty with a non-zero mean; every entry is divided by the mean |
| Utils.NormalizedMeanIsOne | src/dlqmc/utils.py:212-213 | the normalised sequence has mean one |
| Utils.WeightedMeanVar | src/dlqmc/utils.py:216-219 | `weighted_mean_var` is defined iff the weights are non-empty with non-zero mean |
| Utils.WeightedMeanIsRatio | src/dlqmc/utils.py:216-218 | the weighted mean is `sum(ws xs) / sum(ws)` |
| Utils.WeightedConstant | src/dlqmc/utils.py:216-219 | a constant sample has that constant as weighted mean and zero variance |
| Utils.WeightedVarianceNonNegative | src/dlqmc/utils.py:216-219 | with non-negative weights the weighted variance is non-negative |
| DebugContainers.ResolveKey | src/dlqmc/utils.py:115-118 | a key stays an `int` iff it is one and no level is open |
| DebugContainers.ResolveWithoutLevels | src/dlqmc/utils.py:115-118 | with no level open every key resolves to itself |
| DebugContainers.ResolveUnderLevels | src/dlqmc/utils.py:115-118 | with levels open a key becomes the dotted level path, a dot and `str(key)` |
| DebugContainers.IntStringHasNoDot | src/dlqmc/utils.py:118 | `str(n)` of an `int` holds no dot |
| DebugContainers.ResolveTwiceMoves | src/dlqmc/utils.py:120-132 | resolving an already resolved key again, with a level open, gives a different key |
| DebugContainers.ResolveTwiceExample | src/dlqmc/utils.py:120-132 | inside `cd('a')` the key `'x'` is looked up as `'a.x'` but resolved twice it is `'a.a.x'` |
| DebugContainers.Container.constructor | src/dlqmc/utils.py:103-105 | a new container has no levels and no data |
| DebugContainers.Container.Enter | src/dlqmc/utils.py:107-109 | entering `cd(name)` pushes the name and keeps the data |
| DebugContainers.Container.Exit | src/dlqmc/utils.py:112-113 | leaving pops the top level; it fails on an empty stack, or when the popped name is not `name` |
| DebugContainers.Container.Cd | src/dlqmc/utils.py:107-113 | a `cd` block around nothing restores the stack and its assertion holds |
| DebugContainers.Container.SetItem | src/dlqmc/utils.py:129-132 | an item write stores under the resolved key; `_NullDebug` drops it |
| DebugContainers.Container.Result | src/dlqmc/utils.py:134-136 | `result` stores under the level path itself, also on `_NullDebug`, and returns its value |
| DebugContainers.Container.GetItem | src/dlqmc/utils.py:120-127 | a present key returns its value; a missing one returns a fresh empty container of the same kind, stored under the key resolved twice |
| DebugContainers.Container.GetItemIntended | src/dlqmc/utils.py:120-127 | as `GetItem`, but the fresh container is stored under the key it was looked up by, so a second lookup finds it |
| Stats.SortPermutes | src/dlqmc/stats.py:31-32 | the ascending rearrangement is a permutation of its input |
| Stats.SortSorted | src/dlqmc/stats.py:31-32 | the ascending rearrangement is sorted |
| Stats.KthValue | src/dlqmc/stats.py:31-32 | `kthvalue` fails iff `k` lies outside `1 .. n` |
| Stats.KthValueIsRank | src/dlqmc/stats.py:31-32 | the `k`-th value is an entry with fewer than `k` entries below it and at least `k` at most it |
| Stats.KthValueMonotone | src/dlqmc/stats.py:31-32 | a lower rank never gives a larger value |
| Stats.Bounds | src/dlqmc/stats.py:30-32 | the bounds exist iff both ranks `int(p n)` and `int((1 - p) n)` lie in `1 .. n` |
| Stats.BoundsAreRanks | src/dlqmc/stats.py:30-32 | the bounds are entries of `x` of ranks `int(p n)` and `int((1 - p) n)` |
| Stats.RanksValid | src/dlqmc/stats.py:31-32 | with `1 / n <= p <= 1 / 2` both ranks are valid and the lower does not exceed the upper |
| Stats.BoundsDefined | src/dlqmc/stats.py:31-32 | with `1 / n <= p <= 1 / 2` the bounds exist |
| Stats.BoundsOrdered | src/dlqmc/stats.py:31-32 | for `p <= 1 / 2` the lower bound does not exceed the upper one |
| Stats.OutlierMask | src/dlqmc/stats.py:27-36 | `outlier_mask` succeeds iff the bounds do; entry `i` is flagged iff it lies further than `q (ub - lb)` from the midpoint of the bounds, which are returned too |
| Stats.InsideNotOutlier | src/dlqmc/stats.py:33-34 | with `q >= 1 / 2` no entry between the bounds is flagged |
| Stats.BetweenMembers | src/dlqmc/stats.py:44 | the middle entries are exactly the entries strictly between the bounds |
| Stats.ClipRange | src/dlqmc/stats.py:42-45 | the clamp range is a value iff the bounds exist and at least two entries lie strictly between them; it is their mean plus or minus `q` sample deviations. Where the source computes a NaN range from fewer than two middle entries, the model reports an error value |
| Stats.SampleVariance | src/dlqmc/stats.py:45 | the Bessel-corrected variance is non-negative |
| Stats.ClipOutliers | src/dlqmc/stats.py:39-46 | `clip_outliers` succeeds iff the clamp range exists, and keeps the length |
| Stats.ClipOutliersBounded | src/dlqmc/stats.py:46 | with `q >= 0` the range is non-empty, every clipped entry lies in it, and entries inside it are kept |
| Stats.ClipOutliersOutside | src/dlqmc/stats.py:46 | entries below the range become its lower end, entries above it its upper end |
| Stats.BatchSize | src/dlqmc/stats.py:13 | the batch size is the floor of `int(2^30 max_memory)` over the byte size, with 1 for an empty tensor |
| Stats.NewEstimator | src/dlqmc/stats.py:8-13 | the estimator keeps its points and the batch size of their byte size |
| Stats.SplitConcat | src/dlqmc/stats.py:18 | concatenating the chunks of `split(bs)` gives the rows back |
| Stats.Split | src/dlqmc/stats.py:18 | each chunk has between 1 and `bs` rows |
| Stats.Evaluate | src/dlqmc/stats.py:15-18 | evaluation fails iff there are more rows than a batch size below one |
| Stats.ChunksAreDirect | src/dlqmc/stats.py:17-18 | every chunk is short enough to take the direct branch |
| Stats.BatchEvalCons | src/dlqmc/utils.py:162-163 | `batch_eval` of a first batch and the rest is the first result followed by the rest's results, or by nothing when there is no rest |
| Utils.BatchEval | src/dlqmc/utils.py:162-163 | `batch_eval` raises iff there are no batches, as `torch.cat` of an empty list does; on one batch it is that batch's result |
| Stats.ChunkedIsDirect | src/dlqmc/stats.py:17-24 | for a row-wise kernel sum, chunking does not change the result: the estimator returns the direct evaluation of all rows |
| Anti.PairConcatLayout | src/dlqmc/nn/anti.py:11-13 | the network sees the first argument in the leading positions and the second one after it |
| Anti.PairAntiSwaps | src/dlqmc/nn/anti.py:21-22 | swapping the arguments of the pairwise antisymmetrisation flips its sign |
| Anti.PairAntiDiagonal | src/dlqmc/nn/anti.py:21-22 | equal arguments give zero |
| Anti.PairAntiOfConcat | src/dlqmc/nn/anti.py:11-22 | a pair network made by `PairConcat` gives `net(a + b) - net(b + a)` |
| Anti.NetOddIsOdd | src/dlqmc/nn/anti.py:30-31 | `NetOdd` gives an odd function, whatever `net` is |
| Anti.NetOddAtZero | src/dlqmc/nn/anti.py:30-31 | `NetOdd` vanishes at zero |
| Anti.PairFactorsEnumerate | src/dlqmc/nn/anti.py:41-42 | there is one factor per pair `i < j`, in row-major order; factor `t` is `net_pair_anti(x[j], x[i])` for the `t`-th pair |
| Anti.PairFactorsByRows | src/dlqmc/nn/anti.py:41-42 | the factor list is the rows of the strict upper triangle, one after another |
| Anti.RowsSwap | src/dlqmc/nn/anti.py:41-42 | exchanging electrons `k` and `k + 1` flips the sign of the product of the rows from any row `i0 <= k` on |
| Anti.AntisymmetricUnderSwap | src/dlqmc/nn/anti.py:40-43 | exchanging two neighbouring electrons flips the sign of `AntisymmetricPart`, whatever the inner networks are |
| Anti.VanishesOnEqualNeighbours | src/dlqmc/nn/anti.py:40-43 | two equal neighbouring electrons make `AntisymmetricPart` vanish |
| Schnet.ZeroDiagEntries | src/dlqmc/nn/schnet.py:11-13 | diagonal channel vectors become zeros of their length; every other entry is the input's |
| Schnet.ZeroDiagIdempotent | src/dlqmc/nn/schnet.py:9-14 | zeroing the diagonal twice is zeroing it once |
| Schnet.ZeroDiagKernel | src/dlqmc/nn/schnet.py:9-14 | the kernel wrapper fails iff there are fewer particles than electrons; otherwise it returns a fresh array holding the zeroed-diagonal tensor, and the input is not modified |
| Schnet.OtherEnumerates | src/dlqmc/nn/schnet.py:37 | the particles other than `i` are listed once each, in increasing order |
| Schnet.SelectedPairs | src/dlqmc/nn/schnet.py:37-39 | the first `n (m - 1)` off-diagonal pairs are, block by block, `(i, t-th particle other than i)` |
| Schnet.Selected | src/dlqmc/nn/schnet.py:37-39 | the `n (m - 1)` selected pairs have an electron below `n`, a particle below `m` and are off the diagonal |
| Schnet.SchnetConv | src/dlqmc/nn/schnet.py:36-43 | the convolution as evidently intended is defined iff `2 <= m` and `n <= m`, and yields `n` channel vectors of length `k` |
| Schnet.SchnetConvExcludesSelf | src/dlqmc/nn/schnet.py:36-43 | electron `i` receives on channel `c` the sum of `w[i][j][c] z[j][c]` over every particle `j != i`, and nothing from itself |
| Schnet.ProductsEntry | src/dlqmc/nn/schnet.py:41-42 | the products entry of block `i`, position `t`, pairs electron `i` with the `t`-th other particle |
| Schnet.SchnetConvAsWritten | src/dlqmc/nn/schnet.py:36-43 | the code as written is defined iff `2 <= m`, and then yields `m - 1` numbers; the pair slice keeps all pairs when there are more electrons than particles |
| Schnet.KeptElectrons | src/dlqmc/nn/schnet.py:38-39 | the slice `i[:n]` keeps the pairs of `min(n, m)` electrons: never more than either count, and exactly one of them |
| Schnet.SchnetConvAsWrittenBeyondParticles | src/dlqmc/nn/schnet.py:37-39 | with more electrons than particles the code as written computes what it computes on the first `m` electrons |
| Schnet.SchnetConvAsWrittenNoChannels | src/dlqmc/nn/schnet.py:41-43 | with no channels and at least two particles the code as written yields `m - 1` zeros |
| Schnet.SchnetConvAsWrittenMixesElectrons | src/dlqmc/nn/schnet.py:41-43 | on two electrons, two particles and one channel the intended result is `[[2], [3]]` but the code as written yields `[5]` |
| Sampling.AcceptVector | src/dlqmc/sampling.py:61-70 | the accept vector has one entry per walker |
| Sampling.Step | src/dlqmc/sampling.py:53-81 | a successful step has at least one walker |
| Analysis.StatVector | src/dlqmc/analysis.py:71-81 | the statistics vector has the 23 slots of the labels |
| Analysis.OutlierFlags | src/dlqmc/analysis.py:93-94 | there is one outlier flag per slot |
| Analysis.Moments | src/dlqmc/analysis.py:95-101 | the moment update keeps one mean, variance, error, flag and counter per slot, and the episode |
| Analysis.Run | src/dlqmc/analysis.py:70-133 | after `n` steps the state keeps one entry per slot and there are `n` rows |
| Analysis.Deltas | src/dlqmc/analysis.py:10 | the deltas have one row per query point and one column per data point |
| Analysis.Weights | src/dlqmc/analysis.py:11-13 | the weights have the shape of the deltas |
| Stats.Between | src/dlqmc/stats.py:44 | the middle entries are no more than the entries |
| Stats.SpreadRange | src/dlqmc/stats.py:45-46 | the range exists iff there are at least two middle entries; it is their mean plus or minus `q` sample deviations |
| Stats.Clamp | src/dlqmc/stats.py:46 | `clamp` never exceeds the upper bound, lies in the range when the range is non-empty, and leaves a value inside it unchanged |
| Anti.PairFactors | src/dlqmc/nn/anti.py:41-42 | there is one pair factor per index pair of `triu_indices(n, k=1)` |
| Schnet.ZeroDiag | src/dlqmc/nn/schnet.py:11-13 | the zeroed tensor has the batch size of the input |
| Schnet.Products | src/dlqmc/nn/schnet.py:41-42 | there are `n (m - 1)` products, each with `k` channels |
| Sampling.KeptPositions | src/dlqmc/sampling.py:14-15 | there are no more kept positions than paired steps, and each kept position indexes a paired step |
| Analysis.ThresholdOf | src/dlqmc/analysis.py:75-83 | every finite outlier threshold lies between 2 and 5 standard deviations |
| Stats.Sort | src/dlqmc/stats.py:31-32 | the ascending rearrangement behind `kthvalue` has as many entries as the input |

## Left out

- Randomness: `torch.randn_like` and `torch.rand_like` are not modelled. The scaled Gaussian draw and the Metropolis outcome `Ps_acc > rand` are arguments of `Next` and `PropagateAll`.
- The Metropolis–Hastings ratio of `sampling.py:56-61` reduces to the boolean `metropolis` argument. Its formula uses `exp` on floating point.
- `quantum_force` and `clean_force` live in the physics module, which is not part of this model. They are per-walker function parameters. Batched evaluation and the `LUFactError` raised from inside the factorisation are modelled by the per-walker `None`.
- `Sampling.LangevinSampler.Next`: the `info['age']` array is a copy in the model. On CPU the source returns a view that later steps overwrite; that aliasing is not captured.
- `Sampling.SamplesFrom`: `pd.DataFrame(infos)` is kept as the list of info records.
- `Sampling.SamplesFrom`: a sampler that raises while it is being paired is not modelled. `samples` holds only the values the sampler yielded. In the source, an `LUFactError` or `ZeroDivisionError` raised by `__next__` at some step propagates out of `samples_from`. The model instead pairs the steps with the samples yielded before it and may succeed on them.
- `Analysis.EwmFull`: the data frame and its labels are not modelled.
  - A row keeps variances and errors before the square root.
  - `np.percentile` is an input.
  - The logarithmic compression and `d / sqrt(v)` are function parameters.
- `Analysis.LogClipOutside`: the properties of the compression function itself are not stated, because `log` is a parameter. The compression towards `a`, and towards `b` after it, are stated as the masked writes the code performs.
- `Analysis.DefaultRowsNormalisable`: `ewm` itself is modelled through its window mask and weights. The division by the row sums and the weighted mean and deviation of `analysis.py:14-19` are floating point and are not modelled. `infinite_training_limit` (curve fitting) is left out.
- `Stats.ClipRange`: `sqrt` is a parameter.
- `Stats.ChunkedIsDirect`: the exponential kernel of `GaussianKDEstimator` (`stats.py:19-24`) is a parameter `direct`, and the optional weights belong to it. The theorem needs a kernel sum that treats query rows independently, which the source's kernel does.
- Floating point: every tensor entry is a real, with no rounding, infinities or NaNs.
  - `Utils.NormalizeMean` and `Utils.WeightedMeanVar`: an empty input and a zero mean are an error value. For an empty input the source's `normalize_mean` returns an empty tensor; for a zero mean it returns non-finite entries.
  - `Stats.ClipRange`, `Stats.SpreadRange` and `Stats.ClipOutliers`: fewer than two middle entries are an error value. The source computes a NaN mean or deviation there and clamps with that NaN range.
  - `Stats.OutlierMask` and `Stats.ClipOutliers`: they are modelled on one dimension. The `dim` argument of `outlier_mask` is not modelled.
- `Utils.PowInt`: modelled for one batch row, with `xs` already expanded. `power(x, e)` is a parameter standing for `x ** e`.
- `Utils.Expand1d`: the repetition and the in-place add are modelled on values.
- `Utils.TriuFlat`: only the trailing dimensions that `...` keeps are left out; each entry is one value.
- Batch dimensions:
  - `Schnet.SchnetConv` and `Schnet.SchnetConvAsWritten` model one batch element.
  - `Schnet.ZeroDiagKernel` models the batch dimension, but not the kernel network around it (`schnet.py:17-32`).
  - The rest of `nn/schnet.py` (`ElectronicSchnet`) is not part of this model.
- `Anti.AntisymmetricUnderSwap`: one configuration with one-channel network outputs, rather than a batch. The inner networks are arbitrary functions, and general permutations follow by composing neighbour exchanges.
- The tensor detach and `cpu()` on item writes of `DebugContainer` are not modelled. `debugged` and `Debuggable` are not modelled. Stored values are opaque numbers.
- `_walker_step` of `sampling.py:37-42`: the noise argument is already scaled by `sqrt(tau)`.

## Findings

| source | as written | input that shows it | evidently intended | confidence | as-written member | corrected member |
|---|---|---|---|---|---|---|
| src/dlqmc/utils.py:120-127 | `__getitem__` resolves the key, then stores the new container through `__setitem__`, which resolves it a second time | inside `cd('a')`, `d['x']` on an empty container stores under `'a.a.x'`, so each later `d['x']` builds a new empty container | store the fresh container under the key it was looked up by | not executed | DebugContainers.Container.GetItem, DebugContainers.ResolveTwiceExample | DebugContainers.Container.GetItemIntended |
| src/dlqmc/nn/schnet.py:41-42 | the views take `*Ws.shape[:1]`, giving shape `(batch, m - 1, n k)`, so the sum over dim 2 adds across electrons and channels | two electrons, two particles, one channel, `W[0][1] = 2`, `W[1][0] = 3`, `z = 1`: the result is `[5]` | views of `*Ws.shape[:2]`, giving `(batch, n, m - 1, k)`, so electron `i` sums over the particles other than itself | not executed | Schnet.SchnetConvAsWritten, Schnet.SchnetConvAsWrittenMixesElectrons | Schnet.SchnetConv, Schnet.SchnetConvExcludesSelf |

/** The robust exponentially weighted trajectory estimator of
    `src/dlqmc/analysis.py`: per sampling step it forms a 23-slot vector of
    statistics of the local energies, updates running means, variances and
    errors except where a statistic is an outlier, counts consecutive
    outliers, and tracks a "blowup" episode. Also the clipper `log_clip` and
    the window mask of the weights of `ewm`. Logarithms, exponentials and
    square roots are function parameters. */
module Analysis {
  import opened Numerics
  import Utils

  // ---------------------------------------------------------------------
  // log_clip
  // ---------------------------------------------------------------------

  /** `x - c` entrywise. */
  function Shift(x: seq<real>, c: real): (r: seq<real>)
    ensures |r| == |x| && forall k :: 0 <= k < |x| ==> r[k] == x[k] - c
  {
    seq(|x|, k requires 0 <= k < |x| => x[k] - c)
  }

  /** `y[y < a] = compress(y[y < a], a)`: a masked write. */
  function CompressBelow(y: seq<real>, a: real, compress: (real, real) -> real): (r: seq<real>)
    ensures |r| == |y|
    ensures forall k :: 0 <= k < |y| ==> r[k] == if y[k] < a then compress(y[k], a) else y[k]
  {
    seq(|y|, k requires 0 <= k < |y| => if y[k] < a then compress(y[k], a) else y[k])
  }

  /** `y[y > b] = compress(y[y > b], b)`: a masked write. */
  function CompressAbove(y: seq<real>, b: real, compress: (real, real) -> real): (r: seq<real>)
    ensures |r| == |y|
    ensures forall k :: 0 <= k < |y| ==> r[k] == if y[k] > b then compress(y[k], b) else y[k]
  {
    seq(|y|, k requires 0 <= k < |y| => if y[k] > b then compress(y[k], b) else y[k])
  }

  /** The values `log_clip(x, med, a, b)` returns; `compress(y, c)` stands for
      `c * (1 + log((1 + (y / c) ** 2) / 2))`. The upper pass sees the result
      of the lower one. */
  function LogClipped(x: seq<real>, med: real, a: real, b: real, compress: (real, real) -> real): seq<real>
  {
    var y := CompressAbove(CompressBelow(Shift(x, med), a - med, compress), b - med, compress);
    Shift(y, -med)
  }

  /** The mask `x < a` after centring, and the mask `x > b`. */
  function BelowMask(x: seq<real>, med: real, a: real): (m: seq<bool>)
    ensures |m| == |x| && forall k :: 0 <= k < |x| ==> (m[k] <==> x[k] - med < a - med)
  {
    seq(|x|, k requires 0 <= k < |x| => x[k] - med < a - med)
  }

  function AboveMask(x: seq<real>, med: real, b: real): (m: seq<bool>)
    ensures |m| == |x| && forall k :: 0 <= k < |x| ==> (m[k] <==> x[k] - med > b - med)
  {
    seq(|x|, k requires 0 <= k < |x| => x[k] - med > b - med)
  }

  /** `y[y < lo] = compress(y[y < lo], lo)` in place. */
  method CompressBelowInPlace(y: array<real>, lo: real, compress: (real, real) -> real)
    modifies y
    ensures y[..] == CompressBelow(old(y[..]), lo, compress)
  {
    forall k | 0 <= k < y.Length && y[k] < lo {
      y[k] := compress(y[k], lo);
    }
  }

  /** `y[y > hi] = compress(y[y > hi], hi)` in place. */
  method CompressAboveInPlace(y: array<real>, hi: real, compress: (real, real) -> real)
    modifies y
    ensures y[..] == CompressAbove(old(y[..]), hi, compress)
  {
    forall k | 0 <= k < y.Length && y[k] > hi {
      y[k] := compress(y[k], hi);
    }
  }

  /** `log_clip(x, med, a, b)`: clips a copy of `x` and counts, before
      clipping, the values below `a` and above `b`. */
  method LogClip(x: seq<real>, med: real, a: real, b: real, compress: (real, real) -> real)
    returns (y: array<real>, nBelow: nat, nAbove: nat)
    ensures fresh(y) && y[..] == LogClipped(x, med, a, b, compress)
    ensures nBelow == Count(BelowMask(x, med, a)) && nAbove == Count(AboveMask(x, med, b))
  {
    y := new real[|x|](k requires 0 <= k < |x| => x[k] - med);
    assert y[..] == Shift(x, med);
    nBelow, nAbove := Count(BelowMask(x, med, a)), Count(AboveMask(x, med, b));
    CompressBelowInPlace(y, a - med, compress);
    ghost var below := y[..];
    assert below == CompressBelow(Shift(x, med), a - med, compress);
    CompressAboveInPlace(y, b - med, compress);
    ghost var above := y[..];
    assert above == CompressAbove(below, b - med, compress);
    AddInPlace(y, med);
    assert y[..] == Shift(above, -med);
  }

  /** `y + med` in place: undoes the centring. */
  method AddInPlace(y: array<real>, med: real)
    modifies y
    ensures y[..] == Shift(old(y[..]), -med)
  {
    forall k | 0 <= k < y.Length {
      y[k] := med + y[k];
    }
  }

  /** Values inside `[a, b]` come back unchanged; the length is kept. */
  lemma LogClipKeepsInside(x: seq<real>, med: real, a: real, b: real, compress: (real, real) -> real)
    ensures |LogClipped(x, med, a, b, compress)| == |x|
    ensures forall k :: 0 <= k < |x| && a <= x[k] <= b ==> LogClipped(x, med, a, b, compress)[k] == x[k]
  {
  }

  /** A value below `a` is compressed towards `a`, one above `b` (and not
      below `a`) towards `b`; a value below `a` whose compressed image still
      exceeds `b` is compressed a second time. */
  lemma LogClipOutside(x: seq<real>, med: real, a: real, b: real, compress: (real, real) -> real, k: nat)
    requires k < |x|
    ensures |LogClipped(x, med, a, b, compress)| == |x|
    ensures x[k] < a && compress(x[k] - med, a - med) <= b - med ==>
      LogClipped(x, med, a, b, compress)[k] == med + compress(x[k] - med, a - med)
    ensures x[k] < a && compress(x[k] - med, a - med) > b - med ==>
      LogClipped(x, med, a, b, compress)[k] == med + compress(compress(x[k] - med, a - med), b - med)
    ensures a <= x[k] && b < x[k] ==>
      LogClipped(x, med, a, b, compress)[k] == med + compress(x[k] - med, b - med)
  {
  }

  // ---------------------------------------------------------------------
  // The 23 statistics, their thresholds and decays
  // ---------------------------------------------------------------------

  /** Slots: 0 median, 1..6 the +-1, 2, 3 sigma percentiles, 7..10 means,
      11..14 means of clipped energies, 15..18 and 19..22 the same with the
      faster decay. */
  const Slots: nat := 23

  /** An outlier threshold in units of the running standard deviation. */
  datatype Threshold = Finite(k: real) | Infinite

  /** `stat_thre[j]`: 3 for the percentiles, then `[2, 3, 5, inf]` four times. */
  function ThresholdOf(j: nat): (t: Threshold)
    ensures t.Finite? ==> 2.0 <= t.k <= 5.0
  {
    if j < 7 then Finite(3.0)
    else if (j - 7) % 4 == 0 then Finite(2.0)
    else if (j - 7) % 4 == 1 then Finite(3.0)
    else if (j - 7) % 4 == 2 then Finite(5.0)
    else Infinite
  }

  /** Exactly the plain means `mean`, `meanc`, `fmean`, `fmeanc` (slots 10,
      14, 18, 22) have an infinite threshold; all finite ones are positive. */
  lemma InfiniteThresholds(j: nat)
    requires j < Slots
    ensures ThresholdOf(j).Infinite? <==> j == 10 || j == 14 || j == 18 || j == 22
    ensures ThresholdOf(j).Finite? ==> ThresholdOf(j).k > 0.0
  {
  }

  /** `|s - m| > k * sqrt(v)`, squared; an infinite threshold never flags. */
  predicate Flagged(t: Threshold, s: real, m: real, v: real)
  {
    t.Finite? && (s - m) * (s - m) > t.k * t.k * v
  }

  function Ceiling(j: nat): real
  {
    if j < 15 then 0.96 else 0.8
  }

  /** The decay of slot `j` at step `i`: `min(ceiling, 1 - 1 / (2 + i / 10))`. */
  function Decay(i: nat, j: nat): real
  {
    Min(Ceiling(j), 1.0 - 1.0 / (2.0 + (i as real) / 10.0))
  }

  lemma ReciprocalAntitone(x: real, y: real)
    requires 0.0 < x <= y
    ensures 1.0 / y <= 1.0 / x
  {
    assert (1.0 / x) * x == 1.0;
    assert (1.0 / y) * y == 1.0;
  }

  /** Every decay lies in [0.5, 0.96]; it starts at 0.5 and never decreases. */
  lemma DecayBounds(i: nat, j: nat)
    ensures 0.5 <= Decay(i, j) <= 0.96
    ensures Decay(0, j) == 0.5
  {
    ReciprocalAntitone(2.0, 2.0 + (i as real) / 10.0);
  }

  lemma DecayMonotone(i: nat, i': nat, j: nat)
    requires i <= i'
    ensures Decay(i, j) <= Decay(i', j)
  {
    ReciprocalAntitone(2.0 + (i as real) / 10.0, 2.0 + (i' as real) / 10.0);
  }

  // ---------------------------------------------------------------------
  // One step of ewm_full
  // ---------------------------------------------------------------------

  /** The input of one step: the seven percentiles of the step's local
      energies and the energies themselves. */
  datatype StepInput = StepInput(percentiles: seq<real>, energies: seq<real>)

  predicate ValidInput(x: StepInput)
  {
    |x.percentiles| == 7 && |x.energies| > 0
  }

  /** The blowup detection record: absent, or an episode with the step it was
      last confirmed at, the start value, the accumulated and the last delta. */
  datatype Episode = NoEpisode | Active(step: int, start: real, accumDelta: real, delta: real)

  /** The running state carried from step to step. */
  datatype EwmState = EwmState(mean: seq<real>, var_: seq<real>, err: seq<real>,
                               outlier: seq<bool>, nOutlier: seq<int>, episode: Episode)

  predicate Shaped(st: EwmState)
  {
    |st.mean| == Slots && |st.var_| == Slots && |st.err| == Slots &&
    |st.outlier| == Slots && |st.nOutlier| == Slots
  }

  /** The statistics vector of step `i`: the percentiles, four copies of the
      mean energy, four copies of the mean of the clipped energies, then the
      same eight again. From step 6 on the energies are clipped with the
      running means of the median and the -3 and +3 sigma percentiles. */
  function StatVector(i: nat, prev: EwmState, x: StepInput, compress: (real, real) -> real): (stat: seq<real>)
    requires ValidInput(x) && Shaped(prev)
    ensures |stat| == Slots
  {
    var m := Mean(x.energies);
    var clipped := if i > 5 then LogClipped(x.energies, prev.mean[0], prev.mean[5], prev.mean[6], compress)
                   else x.energies;
    LogClipKeepsInside(x.energies, prev.mean[0], prev.mean[5], prev.mean[6], compress);
    var c := Mean(clipped);
    x.percentiles + [m, m, m, m] + [c, c, c, c] + [m, m, m, m] + [c, c, c, c]
  }

  /** Until step 5 the "clipped" means are the plain means; the first seven
      slots are always the percentiles. */
  lemma StatVectorSlots(i: nat, prev: EwmState, x: StepInput, compress: (real, real) -> real)
    requires ValidInput(x) && Shaped(prev)
    ensures var stat := StatVector(i, prev, x, compress);
      stat[..7] == x.percentiles &&
      (forall j :: 7 <= j < 11 || 15 <= j < 19 ==> stat[j] == Mean(x.energies)) &&
      (i <= 5 ==> forall j :: 11 <= j < 15 || 19 <= j < 23 ==> stat[j] == Mean(x.energies)) &&
      (i > 5 ==> forall j :: 11 <= j < 15 || 19 <= j < 23 ==>
         stat[j] == Mean(LogClipped(x.energies, prev.mean[0], prev.mean[5], prev.mean[6], compress)))
  {
  }

  /** The state at step 0: the statistics themselves, no spread, no outlier. */
  function InitialState(stat: seq<real>): (st: EwmState)
    requires |stat| == Slots
    ensures Shaped(st)
  {
    EwmState(stat, seq(Slots, _ => 0.0), seq(Slots, _ => 0.0), seq(Slots, _ => false),
             seq(Slots, _ => 0), NoEpisode)
  }

  /** The outlier flags of step `i`: recomputed from step 6 on, kept before. */
  function OutlierFlags(i: nat, st: EwmState, stat: seq<real>): (out: seq<bool>)
    requires Shaped(st) && |stat| == Slots
    ensures |out| == Slots
  {
    if i > 5 then seq(Slots, j requires 0 <= j < Slots => Flagged(ThresholdOf(j), stat[j], st.mean[j], st.var_[j]))
    else st.outlier
  }

  /** `(1 - a) * s + a * m`. */
  function MeanStep(a: real, s: real, m: real): real { (1.0 - a) * s + a * m }

  /** `(1 - a) * (s - m) ** 2 + a * v`. */
  function VarStep(a: real, s: real, m: real, v: real): real { (1.0 - a) * (s - m) * (s - m) + a * v }

  /** `(1 - a) ** 2 * v + a ** 2 * e`. */
  function ErrStep(a: real, v: real, e: real): real { (1.0 - a) * (1.0 - a) * v + a * a * e }

  /** A product of two non-negative reals is non-negative. */
  lemma ProductNonNegative(x: real, y: real)
    requires x >= 0.0 && y >= 0.0
    ensures x * y >= 0.0
  {
  }

  /** Scaling by a factor in [0, 1] moves a value towards zero. */
  lemma ScaleTowardsZero(b: real, d: real)
    requires 0.0 <= b <= 1.0
    ensures Min(0.0, d) <= b * d <= Max(0.0, d)
  {
    if d >= 0.0 {
      ProductNonNegative(b, d);
      ProductNonNegative(1.0 - b, d);
    } else {
      ProductNonNegative(b, -d);
      ProductNonNegative(1.0 - b, -d);
    }
  }

  /** With a decay in [0, 1], the new mean lies between the old one and the
      statistic, and variance and error stay non-negative. */
  lemma SlotStepBounds(a: real, s: real, m: real, v: real, e: real)
    requires 0.0 <= a <= 1.0 && v >= 0.0 && e >= 0.0
    ensures Min(m, s) <= MeanStep(a, s, m) <= Max(m, s)
    ensures VarStep(a, s, m, v) >= 0.0 && ErrStep(a, v, e) >= 0.0
  {
    var b, d := 1.0 - a, s - m;
    assert MeanStep(a, s, m) == m + b * d;
    ScaleTowardsZero(b, d);
    if d >= 0.0 {
      ProductNonNegative(b * d, d);
    } else {
      ScaleTowardsZero(b, d);
      ProductNonNegative(-(b * d), -d);
    }
    assert VarStep(a, s, m, v) == (b * d) * d + a * v;
    ProductNonNegative(a, v);
    ProductNonNegative(b * b, v);
    ProductNonNegative(a * a, e);
    assert b * b >= 0.0 && a * a >= 0.0;
  }

  /** The moment update of a step `i >= 1`: every slot not flagged moves
      towards the new statistic, a flagged one keeps its mean, variance and
      error; the outlier counters grow or reset. */
  function Moments(i: nat, st: EwmState, stat: seq<real>): (r: EwmState)
    requires Shaped(st) && |stat| == Slots
    ensures Shaped(r) && r.episode == st.episode
  {
    var out := OutlierFlags(i, st, stat);
    var meanNew := seq(Slots, j requires 0 <= j < Slots => MeanStep(Decay(i, j), stat[j], st.mean[j]));
    var varNew := seq(Slots, j requires 0 <= j < Slots => VarStep(Decay(i, j), stat[j], st.mean[j], st.var_[j]));
    var errNew := seq(Slots, j requires 0 <= j < Slots => ErrStep(Decay(i, j), st.var_[j], st.err[j]));
    var counted := seq(Slots, j requires 0 <= j < Slots => st.nOutlier[j] + 1);
    EwmState(Utils.Merge(meanNew, st.mean, out), Utils.Merge(varNew, st.var_, out),
             Utils.Merge(errNew, st.err, out), out, Utils.Merge(seq(Slots, _ => 0), counted, out),
             st.episode)
  }

  /** A flagged slot keeps mean, variance and error and its counter grows by
      one; an unflagged slot's counter resets to 0. */
  lemma MomentsFlagged(i: nat, st: EwmState, stat: seq<real>, j: nat)
    requires Shaped(st) && |stat| == Slots && j < Slots
    ensures var r := Moments(i, st, stat);
      (r.outlier[j] ==> r.mean[j] == st.mean[j] && r.var_[j] == st.var_[j] && r.err[j] == st.err[j] &&
                        r.nOutlier[j] == st.nOutlier[j] + 1) &&
      (!r.outlier[j] ==> r.nOutlier[j] == 0)
  {
  }

  /** An unflagged slot takes the decayed updates, so its new mean lies
      between the old mean and the new statistic, and its variance and error
      stay non-negative. */
  lemma MomentsUnflagged(i: nat, st: EwmState, stat: seq<real>, j: nat)
    requires Shaped(st) && |stat| == Slots && j < Slots
    requires st.var_[j] >= 0.0 && st.err[j] >= 0.0
    requires !Moments(i, st, stat).outlier[j]
    ensures var r := Moments(i, st, stat);
      r.mean[j] == MeanStep(Decay(i, j), stat[j], st.mean[j]) &&
      r.var_[j] == VarStep(Decay(i, j), stat[j], st.mean[j], st.var_[j]) &&
      r.err[j] == ErrStep(Decay(i, j), st.var_[j], st.err[j]) &&
      Min(st.mean[j], stat[j]) <= r.mean[j] <= Max(st.mean[j], stat[j]) &&
      r.var_[j] >= 0.0 && r.err[j] >= 0.0
  {
    DecayBounds(i, j);
    SlotStepBounds(Decay(i, j), stat[j], st.mean[j], st.var_[j], st.err[j]);
  }

  /** An infinite threshold never flags; before step 6 no slot is re-flagged. */
  lemma OutlierFlagsFacts(i: nat, st: EwmState, stat: seq<real>, j: nat)
    requires Shaped(st) && |stat| == Slots && j < Slots
    ensures i <= 5 ==> OutlierFlags(i, st, stat)[j] == st.outlier[j]
    ensures i > 5 && ThresholdOf(j).Infinite? ==> !OutlierFlags(i, st, stat)[j]
  {
  }

  /** `is_outlier[1:7].sum() + is_outlier[8] >= 6`. */
  predicate IsCandidate(out: seq<bool>)
    requires |out| == Slots
  {
    Count(out[1..7]) + (if out[8] then 1 else 0) >= 6
  }

  /** The blowup detection update of step `i`, after the moment update:
      create or refresh on a candidate, clear after more than 50 quiet
      steps, and, while active, refresh the delta of slot 8 against the
      start value. `normDev(d, v)` stands for `d / sqrt(v)`. */
  function EpisodeStep(i: nat, ep: Episode, candidate: bool, mean8: real, mean9: real, var8: real,
                       normDev: (real, real) -> real): (r: Episode)
    ensures r.Active? ==> i - r.step <= 50
  {
    var e1 := if !candidate then ep else if ep.NoEpisode? then Active(i, mean9, 0.0, 0.0) else ep.(step := i);
    var e2 := if e1.Active? && i - e1.step > 50 then NoEpisode else e1;
    if e2.NoEpisode? then e2
    else
      var d := normDev(mean8 - e2.start, var8);
      e2.(delta := d, accumDelta := e2.accumDelta + d)
  }

  /** The first candidate opens an episode at this step, starting from the
      running mean of slot 9. */
  lemma EpisodeOpens(i: nat, candidate: bool, mean8: real, mean9: real, var8: real, normDev: (real, real) -> real)
    requires candidate
    ensures EpisodeStep(i, NoEpisode, candidate, mean8, mean9, var8, normDev) ==
      Active(i, mean9, normDev(mean8 - mean9, var8), normDev(mean8 - mean9, var8))
  {
  }

  /** A later candidate only moves the episode's step; start and the
      accumulation carry over. */
  lemma EpisodeRefreshes(i: nat, ep: Episode, candidate: bool, mean8: real, mean9: real, var8: real,
                         normDev: (real, real) -> real)
    requires candidate && ep.Active?
    ensures var d := normDev(mean8 - ep.start, var8);
      EpisodeStep(i, ep, candidate, mean8, mean9, var8, normDev) == Active(i, ep.start, ep.accumDelta + d, d)
  {
  }

  /** Without a candidate an episode ends exactly when its step lies more
      than 50 steps back, and otherwise keeps its step and start. */
  lemma EpisodeExpires(i: nat, ep: Episode, candidate: bool, mean8: real, mean9: real, var8: real,
                       normDev: (real, real) -> real)
    requires !candidate
    ensures var r := EpisodeStep(i, ep, candidate, mean8, mean9, var8, normDev);
      (r.NoEpisode? <==> ep.NoEpisode? || i - ep.step > 50) &&
      (r.Active? ==> r.step == ep.step && r.start == ep.start &&
                     r.accumDelta == ep.accumDelta + r.delta)
  {
  }

  /** One row of the trajectory. The spreads are reported as variances and
      errors, before the square root. */
  datatype Row = Row(stat: seq<real>, mean: seq<real>, var_: seq<real>, err: seq<real>,
                     outlier: seq<bool>, nOutlier: seq<int>, candidate: bool, blowup: bool,
                     accumDelta: real, delta: real)

  /** The row a state reports: `blowup` is `delta > 0.5` of an active episode;
      without an episode, `delta` and `accum_delta` read 0. */
  function Report(stat: seq<real>, st: EwmState, candidate: bool): (row: Row)
    ensures row.blowup <==> st.episode.Active? && st.episode.delta > 0.5
    ensures st.episode.NoEpisode? ==> row.delta == 0.0 && row.accumDelta == 0.0
    ensures st.episode.Active? ==> row.delta == st.episode.delta && row.accumDelta == st.episode.accumDelta
  {
    var delta := if st.episode.Active? then st.episode.delta else 0.0;
    var accum := if st.episode.Active? then st.episode.accumDelta else 0.0;
    Row(stat, st.mean, st.var_, st.err, st.outlier, st.nOutlier, candidate, delta > 0.5, accum, delta)
  }

  /** A row shows the state's vectors, and the blowup fields of its episode. */
  predicate Reports(row: Row, st: EwmState)
  {
    row.mean == st.mean && row.var_ == st.var_ && row.err == st.err &&
    row.outlier == st.outlier && row.nOutlier == st.nOutlier &&
    (row.blowup <==> st.episode.Active? && st.episode.delta > 0.5) &&
    (st.episode.NoEpisode? ==> row.delta == 0.0 && row.accumDelta == 0.0) &&
    (st.episode.Active? ==> row.delta == st.episode.delta && row.accumDelta == st.episode.accumDelta)
  }

  /** One iteration of the loop of `ewm_full`: the new state and its row. */
  function StepOnce(i: nat, prev: EwmState, x: StepInput, compress: (real, real) -> real,
                    normDev: (real, real) -> real): (r: (EwmState, Row))
    requires ValidInput(x) && Shaped(prev)
    ensures Shaped(r.0) && |r.1.stat| == Slots && Reports(r.1, r.0)
    ensures r.1.candidate == IsCandidate(r.0.outlier)
  {
    var stat := StatVector(i, prev, x, compress);
    var st := if i == 0 then InitialState(stat) else Moments(i, prev, stat);
    var candidate := IsCandidate(st.outlier);
    var ep := EpisodeStep(i, st.episode, candidate, st.mean[8], st.mean[9], st.var_[8], normDev);
    var st' := st.(episode := ep);
    (st', Report(stat, st', candidate))
  }

  /** The state before step 0; only its shape matters, as step 0 replaces it. */
  function Blank(): (st: EwmState)
    ensures Shaped(st)
  {
    InitialState(seq(Slots, _ => 0.0))
  }

  /** The state and the rows after the first `n` steps. */
  function Run(xs: seq<StepInput>, n: nat, compress: (real, real) -> real, normDev: (real, real) -> real)
    : (r: (EwmState, seq<Row>))
    requires n <= |xs| && forall k :: 0 <= k < |xs| ==> ValidInput(xs[k])
    ensures Shaped(r.0) && |r.1| == n
  {
    if n == 0 then (Blank(), [])
    else
      var (prev, rows) := Run(xs, n - 1, compress, normDev);
      var (st, row) := StepOnce(n - 1, prev, xs[n - 1], compress, normDev);
      (st, rows + [row])
  }

  /** `ewm_full(E_loc)` without the data frame: one row per step. */
  function Trajectory(xs: seq<StepInput>, compress: (real, real) -> real, normDev: (real, real) -> real)
    : (rows: seq<Row>)
    requires forall k :: 0 <= k < |xs| ==> ValidInput(xs[k])
    ensures |rows| == |xs|
  {
    Run(xs, |xs|, compress, normDev).1
  }

  /** Later steps only append rows: row `k` is fixed once step `k` is done. */
  lemma {:induction false} RunPrefix(xs: seq<StepInput>, k: nat, n: nat, compress: (real, real) -> real,
                                     normDev: (real, real) -> real)
    requires k < n <= |xs| && forall t :: 0 <= t < |xs| ==> ValidInput(xs[t])
    ensures Run(xs, n, compress, normDev).1[k] == Run(xs, k + 1, compress, normDev).1[k]
    decreases n
  {
    if k < n - 1 {
      RunRowsPrefix(xs, n, compress, normDev);
      RunPrefix(xs, k, n - 1, compress, normDev);
      assert Run(xs, n, compress, normDev).1[k] == Run(xs, n, compress, normDev).1[..n - 1][k];
    }
  }

  /** Run `n` repeats the rows of run `n - 1`. */
  lemma RunRowsPrefix(xs: seq<StepInput>, n: nat, compress: (real, real) -> real, normDev: (real, real) -> real)
    requires 0 < n <= |xs| && forall t :: 0 <= t < |xs| ==> ValidInput(xs[t])
    ensures Run(xs, n, compress, normDev).1[..n - 1] == Run(xs, n - 1, compress, normDev).1
  {
    RunUnfold(xs, n, compress, normDev);
  }

  /** The last row of a run reports the state the run ends in. */
  lemma RunLastReports(xs: seq<StepInput>, n: nat, compress: (real, real) -> real, normDev: (real, real) -> real)
    requires 0 < n <= |xs| && forall t :: 0 <= t < |xs| ==> ValidInput(xs[t])
    ensures Reports(Run(xs, n, compress, normDev).1[n - 1], Run(xs, n, compress, normDev).0)
  {
    RunUnfold(xs, n, compress, normDev);
  }

  /** Run `n` is run `n - 1` followed by step `n - 1`. */
  lemma RunUnfold(xs: seq<StepInput>, n: nat, compress: (real, real) -> real, normDev: (real, real) -> real)
    requires 0 < n <= |xs| && forall t :: 0 <= t < |xs| ==> ValidInput(xs[t])
    ensures var prev := Run(xs, n - 1, compress, normDev);
      var next := StepOnce(n - 1, prev.0, xs[n - 1], compress, normDev);
      Run(xs, n, compress, normDev) == (next.0, prev.1 + [next.1])
  {
  }

  /** A row of a fresh start: the running means are the statistics
      themselves, with zero variance and error, no outlier, zero counters,
      no candidate and no blowup. */
  predicate FreshRow(row: Row)
  {
    row.mean == row.stat && |row.stat| == Slots &&
    |row.var_| == Slots && |row.err| == Slots && |row.outlier| == Slots && |row.nOutlier| == Slots &&
    (forall j :: 0 <= j < Slots ==>
       row.var_[j] == 0.0 && row.err[j] == 0.0 && !row.outlier[j] && row.nOutlier[j] == 0) &&
    !row.candidate && !row.blowup
  }

  /** Step 0 starts afresh from any previous state: the running means are the
      statistics themselves, with zero variance and error, no outlier and
      zero counters. */
  lemma FirstStep(prev: EwmState, x: StepInput, compress: (real, real) -> real, normDev: (real, real) -> real)
    requires ValidInput(x) && Shaped(prev)
    ensures FreshRow(StepOnce(0, prev, x, compress, normDev).1)
  {
    var stat := StatVector(0, prev, x, compress);
    var st := InitialState(stat);
    assert st.outlier[1..7] == seq(6, _ => false);
    CountEmpty(st.outlier[1..7]);
    assert !IsCandidate(st.outlier);
  }

  /** Row 0 of the trajectory is the fresh start of step 0. */
  lemma FirstRow(xs: seq<StepInput>, compress: (real, real) -> real, normDev: (real, real) -> real)
    requires |xs| > 0 && forall t :: 0 <= t < |xs| ==> ValidInput(xs[t])
    ensures FreshRow(Trajectory(xs, compress, normDev)[0])
  {
    RunPrefix(xs, 0, |xs|, compress, normDev);
    RunUnfold(xs, 1, compress, normDev);
    FirstStep(Run(xs, 0, compress, normDev).0, xs[0], compress, normDev);
  }

  /** The invariants of every reachable state: non-negative variances,
      errors and counters; no flag before step 6; never a flag on a slot with
      an infinite threshold. */
  predicate Reachable(st: EwmState, n: nat)
  {
    Shaped(st) &&
    forall j :: 0 <= j < Slots ==>
      st.var_[j] >= 0.0 && st.err[j] >= 0.0 && st.nOutlier[j] >= 0 &&
      (n <= 6 ==> !st.outlier[j]) &&
      (ThresholdOf(j).Infinite? ==> !st.outlier[j])
  }

  lemma StepKeepsReachable(i: nat, prev: EwmState, x: StepInput, compress: (real, real) -> real,
                           normDev: (real, real) -> real)
    requires ValidInput(x) && Reachable(prev, i)
    ensures Reachable(StepOnce(i, prev, x, compress, normDev).0, i + 1)
  {
    var stat := StatVector(i, prev, x, compress);
    var st := StepOnce(i, prev, x, compress, normDev).0;
    if i > 0 {
      forall j | 0 <= j < Slots
        ensures st.var_[j] >= 0.0 && st.err[j] >= 0.0 && st.nOutlier[j] >= 0
        ensures i + 1 <= 6 ==> !st.outlier[j]
        ensures ThresholdOf(j).Infinite? ==> !st.outlier[j]
      {
        MomentsFlagged(i, prev, stat, j);
        OutlierFlagsFacts(i, prev, stat, j);
        if !st.outlier[j] {
          MomentsUnflagged(i, prev, stat, j);
        }
      }
    }
  }

  lemma {:induction false} RunReachable(xs: seq<StepInput>, n: nat, compress: (real, real) -> real,
                                        normDev: (real, real) -> real)
    requires n <= |xs| && forall t :: 0 <= t < |xs| ==> ValidInput(xs[t])
    ensures Reachable(Run(xs, n, compress, normDev).0, n)
  {
    if n > 0 {
      RunReachable(xs, n - 1, compress, normDev);
      StepKeepsReachable(n - 1, Run(xs, n - 1, compress, normDev).0, xs[n - 1], compress, normDev);
    }
  }

  /** Every row: variances and errors are non-negative, rows before step 6
      flag nothing, and the plain means are never flagged. */
  lemma TrajectoryInvariants(xs: seq<StepInput>, k: nat, j: nat, compress: (real, real) -> real,
                             normDev: (real, real) -> real)
    requires k < |xs| && j < Slots && forall t :: 0 <= t < |xs| ==> ValidInput(xs[t])
    ensures RowInvariant(Trajectory(xs, compress, normDev)[k], k, j)
  {
    RunPrefix(xs, k, |xs|, compress, normDev);
    RunReachable(xs, k + 1, compress, normDev);
    RunLastReports(xs, k + 1, compress, normDev);
    ReportedReachable(Run(xs, k + 1, compress, normDev).1[k], Run(xs, k + 1, compress, normDev).0, k, j);
  }

  /** A state settled on the statistics `c`: every running mean is `c`,
      with zero variance and error, no outlier and zero counters. */
  predicate SettledOn(st: EwmState, c: seq<real>)
  {
    Shaped(st) && st.mean == c &&
    forall j :: 0 <= j < Slots ==>
      st.var_[j] == 0.0 && st.err[j] == 0.0 && !st.outlier[j] && st.nOutlier[j] == 0
  }

  /** One step on the statistics a settled state is settled on leaves it
      settled: `|c - c|` never exceeds a threshold times a zero deviation,
      and `(1 - a) c + a c == c`. */
  lemma StepKeepsSettled(i: nat, prev: EwmState, x: StepInput, c: seq<real>,
                         compress: (real, real) -> real, normDev: (real, real) -> real)
    requires ValidInput(x) && (i == 0 ==> Shaped(prev)) && (i > 0 ==> SettledOn(prev, c))
    requires StatVector(i, prev, x, compress) == c
    ensures SettledOn(StepOnce(i, prev, x, compress, normDev).0, c)
  {
    if i > 0 {
      var st := Moments(i, prev, c);
      var out := OutlierFlags(i, prev, c);
      forall j | 0 <= j < Slots
        ensures !out[j]
        ensures st.mean[j] == c[j] && st.var_[j] == 0.0 && st.err[j] == 0.0 && st.nOutlier[j] == 0
      {
        var a := Decay(i, j);
        assert MeanStep(a, c[j], c[j]) == c[j];
        assert VarStep(a, c[j], c[j], 0.0) == 0.0;
        assert ErrStep(a, 0.0, 0.0) == 0.0;
      }
      assert st.mean == c;
    }
  }

  /** Every row of run `n` reports the statistics vector `c`. */
  predicate StatsConstant(xs: seq<StepInput>, n: nat, c: seq<real>,
                          compress: (real, real) -> real, normDev: (real, real) -> real)
    requires n <= |xs| && forall t :: 0 <= t < |xs| ==> ValidInput(xs[t])
  {
    forall k :: 0 <= k < n ==> Run(xs, n, compress, normDev).1[k].stat == c
  }

  lemma StatsConstantPrefix(xs: seq<StepInput>, n: nat, c: seq<real>,
                            compress: (real, real) -> real, normDev: (real, real) -> real)
    requires 1 < n <= |xs| && forall t :: 0 <= t < |xs| ==> ValidInput(xs[t])
    requires StatsConstant(xs, n, c, compress, normDev)
    ensures StatsConstant(xs, n - 1, c, compress, normDev)
  {
    var rows, prev := Run(xs, n, compress, normDev).1, Run(xs, n - 1, compress, normDev).1;
    RunRowsPrefix(xs, n, compress, normDev);
    forall k | 0 <= k < n - 1
      ensures prev[k].stat == c
    {
      assert prev[k] == rows[..n - 1][k] == rows[k];
    }
  }

  /** Step `n - 1` of a run keeps the run settled on `c` when its
      statistics vector is `c`. */
  lemma RunStepSettled(xs: seq<StepInput>, n: nat, c: seq<real>,
                       compress: (real, real) -> real, normDev: (real, real) -> real)
    requires 0 < n <= |xs| && forall t :: 0 <= t < |xs| ==> ValidInput(xs[t])
    requires StatVector(n - 1, Run(xs, n - 1, compress, normDev).0, xs[n - 1], compress) == c
    requires n > 1 ==> SettledOn(Run(xs, n - 1, compress, normDev).0, c)
    ensures SettledOn(Run(xs, n, compress, normDev).0, c)
  {
    StepKeepsSettled(n - 1, Run(xs, n - 1, compress, normDev).0, xs[n - 1], c, compress, normDev);
    RunUnfold(xs, n, compress, normDev);
  }

  lemma LastStatConstant(xs: seq<StepInput>, n: nat, c: seq<real>,
                         compress: (real, real) -> real, normDev: (real, real) -> real)
    requires 0 < n <= |xs| && forall t :: 0 <= t < |xs| ==> ValidInput(xs[t])
    requires StatsConstant(xs, n, c, compress, normDev)
    ensures StatVector(n - 1, Run(xs, n - 1, compress, normDev).0, xs[n - 1], compress) == c
  {
    RunUnfold(xs, n, compress, normDev);
    assert Run(xs, n, compress, normDev).1[n - 1].stat == c;
  }

  /** A run whose every row reports the statistics vector `c` ends with its
      running means at `c`, with zero variance and error, no outlier and
      zero counters. */
  lemma {:induction false} ConstantStatisticsSettle(xs: seq<StepInput>, n: nat, c: seq<real>,
                                                    compress: (real, real) -> real, normDev: (real, real) -> real)
    requires 0 < n <= |xs| && forall t :: 0 <= t < |xs| ==> ValidInput(xs[t])
    requires StatsConstant(xs, n, c, compress, normDev)
    ensures SettledOn(Run(xs, n, compress, normDev).0, c)
  {
    if n > 1 {
      StatsConstantPrefix(xs, n, c, compress, normDev);
      ConstantStatisticsSettle(xs, n - 1, c, compress, normDev);
    }
    LastStatConstant(xs, n, c, compress, normDev);
    RunStepSettled(xs, n, c, compress, normDev);
  }

  /** Slot `j` of row `k`: non-negative variance and error, no flag before
      step 6, no flag on a slot with an infinite threshold. */
  predicate RowInvariant(row: Row, k: nat, j: nat)
  {
    |row.var_| == Slots && |row.outlier| == Slots && |row.err| == Slots && j < Slots &&
    row.var_[j] >= 0.0 && row.err[j] >= 0.0 &&
    (k <= 5 ==> !row.outlier[j]) &&
    (ThresholdOf(j).Infinite? ==> !row.outlier[j])
  }

  /** What a row reports of a reachable state. */
  lemma ReportedReachable(row: Row, st: EwmState, k: nat, j: nat)
    requires Reports(row, st) && Reachable(st, k + 1) && j < Slots
    ensures RowInvariant(row, k, j)
  {
  }

  /** The statistics of step `i`, clipping with `log_clip` from step 6 on. */
  method ComputeStat(i: nat, st: EwmState, x: StepInput, compress: (real, real) -> real)
    returns (stat: seq<real>)
    requires ValidInput(x) && Shaped(st)
    ensures stat == StatVector(i, st, x, compress)
  {
    var energies := x.energies;
    if i > 5 {
      var clipped, _, _ := LogClip(energies, st.mean[0], st.mean[5], st.mean[6], compress);
      energies := clipped[..];
    }
    LogClipKeepsInside(x.energies, st.mean[0], st.mean[5], st.mean[6], compress);
    var m, c := Mean(x.energies), Mean(energies);
    stat := x.percentiles + [m, m, m, m] + [c, c, c, c] + [m, m, m, m] + [c, c, c, c];
  }

  /** The in-place edits of the `blowup_detection` record in one step. */
  method UpdateBlowup(i: nat, ep: Episode, candidate: bool, mean8: real, mean9: real, var8: real,
                      normDev: (real, real) -> real) returns (e: Episode)
    ensures e == EpisodeStep(i, ep, candidate, mean8, mean9, var8, normDev)
  {
    e := ep;
    if candidate {
      if e.NoEpisode? {
        e := Active(i, mean9, 0.0, 0.0);
      } else {
        e := e.(step := i);
      }
    }
    if e.Active? && i - e.step > 50 {
      e := NoEpisode;
    }
    if e.Active? {
      e := e.(delta := normDev(mean8 - e.start, var8));
      e := e.(accumDelta := e.accumDelta + e.delta);
    }
  }

  /** `ewm_full(E_loc)`: the loop rebinds the running vectors, edits the
      blowup record and appends one row per step. */
  method EwmFull(xs: seq<StepInput>, compress: (real, real) -> real, normDev: (real, real) -> real)
    returns (traj: seq<Row>)
    requires forall k :: 0 <= k < |xs| ==> ValidInput(xs[k])
    ensures traj == Trajectory(xs, compress, normDev)
  {
    traj := [];
    var st := Blank();
    var i := 0;
    while i < |xs|
      invariant 0 <= i <= |xs|
      invariant (st, traj) == Run(xs, i, compress, normDev)
    {
      var stat := ComputeStat(i, st, xs[i], compress);
      var next := if i == 0 then InitialState(stat) else Moments(i, st, stat);
      var candidate := IsCandidate(next.outlier);
      var episode := UpdateBlowup(i, next.episode, candidate, next.mean[8], next.mean[9], next.var_[8], normDev);
      assert (next.(episode := episode), Report(stat, next.(episode := episode), candidate)) ==
        StepOnce(i, st, xs[i], compress, normDev);
      st := next.(episode := episode);
      traj := traj + [Report(stat, st, candidate)];
      i := i + 1;
    }
  }

  // ---------------------------------------------------------------------
  // The weight window of ewm
  // ---------------------------------------------------------------------

  /** `deltas = -log(alpha) * (x[:, None] - X)`, with `rate = -log(alpha)`. */
  function Deltas(x: seq<real>, xs: seq<real>, rate: real): (d: seq<seq<real>>)
    ensures |d| == |x| && forall i :: 0 <= i < |x| ==> |d[i]| == |xs|
  {
    seq(|x|, i requires 0 <= i < |x| => seq(|xs|, j requires 0 <= j < |xs| => rate * (x[i] - xs[j])))
  }

  /** `ws[mask] = exp(-deltas[mask])` on zeros, with the window
      `0 <= deltas < cut` where `cut = -log(thre)`. */
  function Weights(d: seq<seq<real>>, cut: real, exp: real -> real): (ws: seq<seq<real>>)
    ensures |ws| == |d| && forall i :: 0 <= i < |d| ==> |ws[i]| == |d[i]|
  {
    seq(|d|, i requires 0 <= i < |d| =>
      seq(|d[i]|, j requires 0 <= j < |d[i]| => if 0.0 <= d[i][j] < cut then exp(-d[i][j]) else 0.0))
  }

  /** Outside the window a weight is exactly zero, inside it is the
      exponential of the negated delta; with a positive exponential the
      weights are non-negative and positive exactly inside the window. */
  lemma WeightsWindow(d: seq<seq<real>>, cut: real, exp: real -> real, i: nat, j: nat)
    requires i < |d| && j < |d[i]|
    requires forall t :: exp(t) > 0.0
    ensures |Weights(d, cut, exp)[i]| == |d[i]|
    ensures Weights(d, cut, exp)[i][j] >= 0.0
    ensures Weights(d, cut, exp)[i][j] > 0.0 <==> 0.0 <= d[i][j] < cut
  {
  }

  /** With the default `x = X` and `thre < 1` every row has a weight in its
      window (its own point, at delta 0), so the normalising row sum is
      positive. */
  lemma DefaultRowsNormalisable(xs: seq<real>, rate: real, cut: real, exp: real -> real, i: nat)
    requires i < |xs| && cut > 0.0
    requires forall t :: exp(t) > 0.0
    ensures Sum(Weights(Deltas(xs, xs, rate), cut, exp)[i]) > 0.0
  {
    var w := Weights(Deltas(xs, xs, rate), cut, exp)[i];
    assert w[i] == exp(-0.0);
    SumPositive(w, i);
  }

  lemma {:induction false} SumPositive(s: seq<real>, i: nat)
    requires i < |s| && s[i] > 0.0
    requires forall k :: 0 <= k < |s| ==> s[k] >= 0.0
    ensures Sum(s) > 0.0
  {
    if i == |s| - 1 {
      SumNonNegative(s[..|s| - 1]);
    } else {
      SumPositive(s[..|s| - 1], i);
    }
  }
}

/** The Langevin walker ensemble of `src/dlqmc/sampling.py`: a population of
    electron configurations that moves by drift plus noise, keeps or rejects
    each move by a Metropolis test with three override policies, tracks how
    long each walker has been stuck, and the burn-in and thinning filter that
    collects samples from it. */
module Sampling {
  import opened Wrappers
  import opened Numerics
  import Utils

  /** One walker: the flattened coordinates of all its electrons. */
  type Config = seq<real>

  /** What the quantum force routine yields for one walker: the drift force
      and the value of the wave function. */
  datatype Eval = Eval(force: Config, psi: real)

  /** The failure of the Slater-matrix factorisation: the offending walkers'
      indices and, attached by the sampler, their coordinates. */
  datatype LUFactError = LUFactError(idxs: seq<nat>, rows: seq<Config>)

  datatype NextError = LUFact(error: LUFactError) | ZeroDivision

  /** The three optional overrides of the Metropolis decision. */
  datatype Policy = Policy(maxAge: Option<int>, nFirstCertain: int, psiThreshold: Option<real>)

  datatype Info = Info(acceptance: real, age: seq<int>)

  /** What one step yields: copies of the positions and wave-function values,
      and the step's statistics. */
  datatype Sample = Sample(rs: seq<Config>, psis: seq<real>, info: Info)

  // ---------------------------------------------------------------------
  // qforce: evaluation of the whole population, with its error path
  // ---------------------------------------------------------------------

  /** Indices of the walkers whose evaluation fails, in increasing order. */
  function FailingWalkers(qf: Config -> Option<Eval>, rs: seq<Config>): (idxs: seq<nat>)
    ensures forall t :: 0 <= t < |idxs| ==> idxs[t] < |rs| && qf(rs[idxs[t]]).None?
    ensures forall t, u :: 0 <= t < u < |idxs| ==> idxs[t] < idxs[u]
    ensures forall k :: 0 <= k < |rs| && qf(rs[k]).None? ==> k in idxs
  {
    if rs == [] then []
    else FailingWalkers(qf, rs[..|rs| - 1]) + (if qf(rs[|rs| - 1]).None? then [|rs| - 1] else [])
  }

  /** Every walker's evaluation succeeds. */
  predicate AllEvaluate(qf: Config -> Option<Eval>, rs: seq<Config>)
  {
    forall k :: 0 <= k < |rs| ==> qf(rs[k]).Some?
  }

  /** `qforce(rs)`: the cleaned forces and the wave-function values of every
      walker, or the factorisation error carrying the failing rows. */
  function QForce(qf: Config -> Option<Eval>, cf: (Config, Config) -> Config, rs: seq<Config>)
    : (r: Result<(seq<Config>, seq<real>), LUFactError>)
    ensures r.Failure? <==> exists k :: 0 <= k < |rs| && qf(rs[k]).None?
    ensures r.Failure? ==>
      r.error.idxs == FailingWalkers(qf, rs) && |r.error.rows| == |r.error.idxs| &&
      forall t :: 0 <= t < |r.error.idxs| ==> r.error.rows[t] == rs[r.error.idxs[t]]
    ensures r.Success? ==>
      |r.value.0| == |rs| && |r.value.1| == |rs| &&
      forall k :: 0 <= k < |rs| ==>
        qf(rs[k]).Some? &&
        r.value.0[k] == cf(qf(rs[k]).value.force, rs[k]) && r.value.1[k] == qf(rs[k]).value.psi
  {
    if AllEvaluate(qf, rs) then
      Success((seq(|rs|, k requires 0 <= k < |rs| => cf(qf(rs[k]).value.force, rs[k])),
               seq(|rs|, k requires 0 <= k < |rs| => qf(rs[k]).value.psi)))
    else
      var idxs := FailingWalkers(qf, rs);
      Failure(LUFactError(idxs, seq(|idxs|, t requires 0 <= t < |idxs| => rs[idxs[t]])))
  }

  /** The error names at least one walker, and exactly the failing ones. */
  lemma QForceFailure(qf: Config -> Option<Eval>, cf: (Config, Config) -> Config, rs: seq<Config>)
    requires QForce(qf, cf, rs).Failure?
    ensures |QForce(qf, cf, rs).error.idxs| > 0
    ensures forall k :: 0 <= k < |rs| ==> (k in QForce(qf, cf, rs).error.idxs <==> qf(rs[k]).None?)
  {
    var k :| 0 <= k < |rs| && qf(rs[k]).None?;
    assert k in FailingWalkers(qf, rs);
  }

  /** Evaluation is walker by walker, so merging two evaluated populations
      with a mask yields an evaluated population: an accepted walker brings
      its own force and wave-function value along. */
  lemma MergeKeepsEvaluation(qf: Config -> Option<Eval>, cf: (Config, Config) -> Config,
                             rs: seq<Config>, forces: seq<Config>, psis: seq<real>,
                             rsNew: seq<Config>, forcesNew: seq<Config>, psisNew: seq<real>,
                             acc: seq<bool>)
    requires QForce(qf, cf, rs) == Success((forces, psis))
    requires QForce(qf, cf, rsNew) == Success((forcesNew, psisNew))
    requires |acc| == |rs| == |rsNew|
    ensures QForce(qf, cf, Utils.Merge(rs, rsNew, acc)) ==
            Success((Utils.Merge(forces, forcesNew, acc), Utils.Merge(psis, psisNew, acc)))
  {
    var m := Utils.Merge(rs, rsNew, acc);
    forall k | 0 <= k < |m|
      ensures qf(m[k]).Some?
    {
      assert qf(rs[k]).Some? && qf(rsNew[k]).Some?;
    }
    var r := QForce(qf, cf, m);
    assert r.Success?;
    assert r.value.0 == Utils.Merge(forces, forcesNew, acc);
    assert r.value.1 == Utils.Merge(psis, psisNew, acc);
  }

  // ---------------------------------------------------------------------
  // The walker step and the acceptance rules
  // ---------------------------------------------------------------------

  /** `rs + forces * tau + noise`, where `noise` is the Gaussian draw already
      scaled by `sqrt(tau)`. */
  function Proposal(rs: seq<Config>, forces: seq<Config>, tau: real, noise: seq<Config>): (p: seq<Config>)
    requires |rs| == |forces| == |noise|
    requires forall i :: 0 <= i < |rs| ==> |forces[i]| == |rs[i]| && |noise[i]| == |rs[i]|
    ensures |p| == |rs|
    ensures forall i :: 0 <= i < |rs| ==> |p[i]| == |rs[i]|
    ensures forall i, d :: 0 <= i < |rs| && 0 <= d < |rs[i]| ==>
      p[i][d] - rs[i][d] == forces[i][d] * tau + noise[i][d]
  {
    seq(|rs|, i requires 0 <= i < |rs| =>
      seq(|rs[i]|, d requires 0 <= d < |rs[i]| => rs[i][d] + forces[i][d] * tau + noise[i][d]))
  }

  function Abs(x: real): real { if x < 0.0 then -x else x }

  /** The psi-threshold rule, as Python's precedence groups it:
      `acc & (|new| > thr) | ((|old| < thr) & (|new| > |old|))`. */
  predicate PsiRule(acc: bool, thr: real, psiOld: real, psiNew: real)
  {
    (acc && Abs(psiNew) > thr) || (Abs(psiOld) < thr && Abs(psiNew) > Abs(psiOld))
  }

  /** The accept vector of one step: the Metropolis outcome, then the psi
      override, then the age override, then the burn-in override. */
  function AcceptVector(p: Policy, step: int, metropolis: seq<bool>, psisOld: seq<real>,
                        psisNew: seq<real>, ages: seq<int>): (acc: seq<bool>)
    requires |psisOld| == |psisNew| == |ages| == |metropolis|
    ensures |acc| == |metropolis|
  {
    var n := |metropolis|;
    var a1 := if p.psiThreshold.None? then metropolis
              else seq(n, i requires 0 <= i < n =>
                     PsiRule(metropolis[i], p.psiThreshold.value, psisOld[i], psisNew[i]));
    var a2 := if p.maxAge.None? then a1
              else seq(n, i requires 0 <= i < n => a1[i] || ages[i] >= p.maxAge.value);
    if step < p.nFirstCertain then seq(n, _ => true) else a2
  }

  /** `_ages[accepted] = 0; _ages[~accepted] += 1`. */
  function NewAges(ages: seq<int>, acc: seq<bool>): (r: seq<int>)
    requires |ages| == |acc|
    ensures |r| == |ages|
    ensures forall i :: 0 <= i < |ages| ==> (acc[i] ==> r[i] == 0) && (!acc[i] ==> r[i] == ages[i] + 1)
  {
    seq(|ages|, i requires 0 <= i < |ages| => if acc[i] then 0 else ages[i] + 1)
  }

  /** The fraction of accepted walkers. */
  function Acceptance(acc: seq<bool>): real
    requires |acc| > 0
  {
    (Count(acc) as real) / (|acc| as real)
  }

  /** During burn-in every walker is accepted, whatever the other rules say. */
  lemma FirstCertainAcceptsAll(p: Policy, step: int, metropolis: seq<bool>, psisOld: seq<real>,
                               psisNew: seq<real>, ages: seq<int>)
    requires |psisOld| == |psisNew| == |ages| == |metropolis|
    requires step < p.nFirstCertain
    ensures forall i :: 0 <= i < |metropolis| ==> AcceptVector(p, step, metropolis, psisOld, psisNew, ages)[i]
  {
  }

  /** After burn-in, a walker that reached the maximum age is accepted, even
      when the psi rule rejects it. */
  lemma MaxAgeForcesAcceptance(p: Policy, step: int, metropolis: seq<bool>, psisOld: seq<real>,
                               psisNew: seq<real>, ages: seq<int>, i: nat)
    requires |psisOld| == |psisNew| == |ages| == |metropolis|
    requires p.maxAge.Some? && i < |ages| && ages[i] >= p.maxAge.value
    ensures AcceptVector(p, step, metropolis, psisOld, psisNew, ages)[i]
  {
  }

  /** After burn-in, with no maximum age, a walker is accepted exactly as the
      psi rule (or, without a threshold, the Metropolis test) decides. */
  lemma AcceptVectorWithoutAge(p: Policy, step: int, metropolis: seq<bool>, psisOld: seq<real>,
                               psisNew: seq<real>, ages: seq<int>, i: nat)
    requires |psisOld| == |psisNew| == |ages| == |metropolis|
    requires p.maxAge.None? && step >= p.nFirstCertain && i < |ages|
    ensures AcceptVector(p, step, metropolis, psisOld, psisNew, ages)[i] ==
      if p.psiThreshold.Some? then PsiRule(metropolis[i], p.psiThreshold.value, psisOld[i], psisNew[i])
      else metropolis[i]
  {
  }

  /** After burn-in, a walker below the maximum age is accepted exactly as
      the psi rule (or the Metropolis test) decides. */
  lemma AcceptVectorBelowAge(p: Policy, step: int, metropolis: seq<bool>, psisOld: seq<real>,
                             psisNew: seq<real>, ages: seq<int>, i: nat)
    requires |psisOld| == |psisNew| == |ages| == |metropolis|
    requires p.maxAge.Some? && step >= p.nFirstCertain && i < |ages| && ages[i] < p.maxAge.value
    ensures AcceptVector(p, step, metropolis, psisOld, psisNew, ages)[i] ==
      if p.psiThreshold.Some? then PsiRule(metropolis[i], p.psiThreshold.value, psisOld[i], psisNew[i])
      else metropolis[i]
  {
  }

  /** The grouping matters: a walker the Metropolis test rejects is still
      accepted by the second term when its old value is below the threshold
      and grows (`acc & (A | B)` would reject it). */
  lemma PsiRuleAcceptsGrowingWalker()
    ensures PsiRule(false, 1.0, 0.1, 0.5)
    ensures !(false && (Abs(0.5) > 1.0 || (Abs(0.1) < 1.0 && Abs(0.5) > Abs(0.1))))
  {
  }

  /** The bound below which ages stay under a maximum age `m`. */
  function AgeCap(m: int): nat
  {
    if m >= 0 then m else 0
  }

  /** Ages never exceed the maximum age: the age override comes after the psi
      override, so no rule can reject a walker that reached it. */
  lemma {:induction false} AgesStayCapped(p: Policy, step: int, metropolis: seq<bool>, psisOld: seq<real>,
                                          psisNew: seq<real>, ages: seq<int>)
    requires |psisOld| == |psisNew| == |ages| == |metropolis|
    requires p.maxAge.Some?
    requires forall i :: 0 <= i < |ages| ==> 0 <= ages[i] <= AgeCap(p.maxAge.value)
    ensures forall i :: 0 <= i < |ages| ==>
      0 <= NewAges(ages, AcceptVector(p, step, metropolis, psisOld, psisNew, ages))[i] <= AgeCap(p.maxAge.value)
  {
    var acc := AcceptVector(p, step, metropolis, psisOld, psisNew, ages);
    forall i | 0 <= i < |ages|
      ensures 0 <= NewAges(ages, acc)[i] <= AgeCap(p.maxAge.value)
    {
      if ages[i] >= p.maxAge.value {
        MaxAgeForcesAcceptance(p, step, metropolis, psisOld, psisNew, ages, i);
      }
    }
  }

  /** The acceptance lies in [0, 1]; it is 1 exactly when every walker is
      accepted and 0 exactly when none is. */
  lemma AcceptanceBounds(acc: seq<bool>)
    requires |acc| > 0
    ensures 0.0 <= Acceptance(acc) <= 1.0
    ensures Acceptance(acc) == 1.0 <==> forall i :: 0 <= i < |acc| ==> acc[i]
    ensures Acceptance(acc) == 0.0 <==> forall i :: 0 <= i < |acc| ==> !acc[i]
  {
    CountFull(acc);
    CountEmpty(acc);
    FractionBounds(Count(acc) as real, |acc| as real);
  }

  lemma FractionBounds(c: real, n: real)
    requires 0.0 <= c <= n && n > 0.0
    ensures 0.0 <= c / n <= 1.0
    ensures c / n == 1.0 <==> c == n
    ensures c / n == 0.0 <==> c == 0.0
  {
    assert (c / n) * n == c;
  }

  /** During burn-in the reported acceptance is exactly 1. */
  lemma FirstCertainFullAcceptance(p: Policy, step: int, metropolis: seq<bool>, psisOld: seq<real>,
                                   psisNew: seq<real>, ages: seq<int>)
    requires |psisOld| == |psisNew| == |ages| == |metropolis| > 0
    requires step < p.nFirstCertain
    ensures Acceptance(AcceptVector(p, step, metropolis, psisOld, psisNew, ages)) == 1.0
  {
    FirstCertainAcceptsAll(p, step, metropolis, psisOld, psisNew, ages);
    AcceptanceBounds(AcceptVector(p, step, metropolis, psisOld, psisNew, ages));
  }

  // ---------------------------------------------------------------------
  // samples_from: burn-in and thinning by step index
  // ---------------------------------------------------------------------

  /** Positions `k < n` whose step index passes the filter
      `i >= n_discard and i % (n_decorrelate + 1) == 0`, in order. */
  function KeptPositions(steps: seq<int>, n: nat, nDiscard: int, period: int): (ks: seq<nat>)
    requires n <= |steps| && period != 0
    ensures |ks| <= n && forall t :: 0 <= t < |ks| ==> ks[t] < n
  {
    if n == 0 then []
    else KeptPositions(steps, n - 1, nDiscard, period) +
         (if steps[n - 1] >= nDiscard && steps[n - 1] % period == 0 then [n - 1] else [])
  }

  /** A position is kept iff its step passes the filter; kept positions are
      below `n` and strictly increasing, so samples keep their step order. */
  lemma {:induction false} KeptPositionsCorrect(steps: seq<int>, n: nat, nDiscard: int, period: int)
    requires n <= |steps| && period != 0
    ensures var ks := KeptPositions(steps, n, nDiscard, period);
      (forall t :: 0 <= t < |ks| ==> ks[t] < n) &&
      (forall t, u :: 0 <= t < u < |ks| ==> ks[t] < ks[u]) &&
      (forall k :: 0 <= k < n ==> (k in ks <==> steps[k] >= nDiscard && steps[k] % period == 0))
  {
    if n > 0 {
      KeptPositionsCorrect(steps, n - 1, nDiscard, period);
    }
  }

  datatype SamplesError =
    | DivisionByZero   // `n_decorrelate == -1` and some step reaches the modulus
    | NothingKept      // unpacking an empty `zip(*...)`
    | ShapeMismatch    // `torch.stack` of samples with different walker counts

  /** The stacked output: positions and values walker-major (`dim=1`), one
      info record per kept step. */
  datatype Stacked = Stacked(rs: seq<seq<Config>>, psis: seq<seq<real>>, infos: seq<Info>)

  /** The samples at the kept positions, in order. */
  function KeptSamples(steps: seq<int>, samples: seq<Sample>, nDiscard: int, period: int): (kept: seq<Sample>)
    requires period != 0
    ensures var n := if |steps| <= |samples| then |steps| else |samples|;
      var ks := KeptPositions(steps, n, nDiscard, period);
      |kept| == |ks| &&
      forall t :: 0 <= t < |ks| ==> ks[t] < |samples| && kept[t] == samples[ks[t]]
  {
    var n := if |steps| <= |samples| then |steps| else |samples|;
    var ks := KeptPositions(steps, n, nDiscard, period);
    KeptPositionsCorrect(steps, n, nDiscard, period);
    seq(|ks|, t requires 0 <= t < |ks| => samples[ks[t]])
  }

  /** `st` is `kept` stacked along a new second axis: walker `w` of step
      `t` sits at `[w][t]`, and every sample has the same walker count. */
  predicate StackOf(st: Stacked, kept: seq<Sample>)
  {
    |st.infos| == |kept| &&
    (forall t :: 0 <= t < |kept| ==> |kept[t].rs| == |st.rs| && |kept[t].psis| == |st.psis|) &&
    (forall t :: 0 <= t < |kept| ==> st.infos[t] == kept[t].info) &&
    (forall w :: 0 <= w < |st.rs| ==> |st.rs[w]| == |kept|) &&
    (forall w, t :: 0 <= w < |st.rs| && 0 <= t < |kept| && |kept[t].rs| == |st.rs| ==>
       st.rs[w][t] == kept[t].rs[w]) &&
    (forall w :: 0 <= w < |st.psis| ==> |st.psis[w]| == |kept|) &&
    (forall w, t :: 0 <= w < |st.psis| && 0 <= t < |kept| && |kept[t].psis| == |st.psis| ==>
       st.psis[w][t] == kept[t].psis[w])
  }

  /** Two position tensors of the same shape: as many walkers, and each
      walker with as many coordinates as the other's. */
  predicate SameShape(a: seq<Config>, b: seq<Config>)
  {
    |a| == |b| && forall i :: 0 <= i < |a| ==> |a[i]| == |b[i]|
  }

  /** `torch.stack(..., dim=1)` of the positions and of the values, and the
      list of infos; stacking fails when two position tensors differ in
      shape (walker count or configuration size) or two value tensors
      differ in length. */
  function Stack(kept: seq<Sample>): (r: Result<Stacked, SamplesError>)
    requires |kept| > 0
    ensures r.Failure? <==>
      exists t :: 0 <= t < |kept| && (!SameShape(kept[t].rs, kept[0].rs) || |kept[t].psis| != |kept[0].psis|)
    ensures r.Failure? ==> r.error == ShapeMismatch
    ensures r.Success? ==> StackOf(r.value, kept)
    ensures r.Success? ==> forall t, i :: 0 <= t < |kept| && 0 <= i < |kept[0].rs| ==>
      |kept[t].rs| == |kept[0].rs| && |kept[t].rs[i]| == |kept[0].rs[i]|
  {
    var w := |kept[0].rs|;
    var v := |kept[0].psis|;
    if exists t :: 0 <= t < |kept| && (!SameShape(kept[t].rs, kept[0].rs) || |kept[t].psis| != v) then
      Failure(ShapeMismatch)
    else
      Success(Stacked(
        seq(w, i requires 0 <= i < w => seq(|kept|, t requires 0 <= t < |kept| => kept[t].rs[i])),
        seq(v, i requires 0 <= i < v => seq(|kept|, t requires 0 <= t < |kept| => kept[t].psis[i])),
        seq(|kept|, t requires 0 <= t < |kept| => kept[t].info)))
  }

  /** Samples of unequal configuration size do not stack, even with equal
      walker counts. */
  lemma StackRejectsRaggedConfigs(a: Sample, b: Sample)
    requires a.rs == [[0.0]] && b.rs == [[0.0, 0.0]] && |a.psis| == |b.psis|
    ensures Stack([a, b]) == Failure(ShapeMismatch)
  {
    assert |b.rs[0]| != |a.rs[0]|;
    assert !SameShape([a, b][1].rs, [a, b][0].rs);
  }

  /** `samples_from(sampler, steps, n_discard=..., n_decorrelate=...)`, with
      `samples` the values the sampler yields; the pairing stops at the
      shorter of the two. */
  function SamplesFrom(steps: seq<int>, samples: seq<Sample>, nDiscard: int, nDecorrelate: int)
    : (r: Result<Stacked, SamplesError>)
    ensures r == Failure(DivisionByZero) <==>
      nDecorrelate + 1 == 0 && exists k :: 0 <= k < |steps| && k < |samples| && steps[k] >= nDiscard
    ensures r == Failure(NothingKept) <==>
      forall k :: 0 <= k < |steps| && k < |samples| ==>
        !(steps[k] >= nDiscard && (nDecorrelate + 1 == 0 || steps[k] % (nDecorrelate + 1) == 0))
    ensures r.Success? || r == Failure(ShapeMismatch) ==>
      nDecorrelate + 1 != 0 && |KeptSamples(steps, samples, nDiscard, nDecorrelate + 1)| > 0
    ensures r.Success? ==> StackOf(r.value, KeptSamples(steps, samples, nDiscard, nDecorrelate + 1))
  {
    var n := if |steps| <= |samples| then |steps| else |samples|;
    if nDecorrelate + 1 == 0 then
      if exists k :: 0 <= k < n && steps[k] >= nDiscard then Failure(DivisionByZero)
      else Failure(NothingKept)
    else
      var kept := KeptSamples(steps, samples, nDiscard, nDecorrelate + 1);
      if |kept| == 0 then
        NothingKeptMeansNoStepPasses(steps, n, nDiscard, nDecorrelate + 1);
        Failure(NothingKept)
      else
        KeptMeansSomeStepPasses(steps, n, nDiscard, nDecorrelate + 1);
        Stack(kept)
  }

  /** A non-empty selection is stacked: `samples_from` returns what
      `torch.stack` makes of the kept samples, success or shape error. */
  lemma SamplesFromStacksKept(steps: seq<int>, samples: seq<Sample>, nDiscard: int, nDecorrelate: int)
    requires nDecorrelate + 1 != 0 && |KeptSamples(steps, samples, nDiscard, nDecorrelate + 1)| > 0
    ensures SamplesFrom(steps, samples, nDiscard, nDecorrelate) ==
      Stack(KeptSamples(steps, samples, nDiscard, nDecorrelate + 1))
  {
  }

  lemma NothingKeptMeansNoStepPasses(steps: seq<int>, n: nat, nDiscard: int, period: int)
    requires n <= |steps| && period != 0 && KeptPositions(steps, n, nDiscard, period) == []
    ensures forall k :: 0 <= k < n ==> !(steps[k] >= nDiscard && steps[k] % period == 0)
  {
    KeptPositionsCorrect(steps, n, nDiscard, period);
  }

  lemma KeptMeansSomeStepPasses(steps: seq<int>, n: nat, nDiscard: int, period: int)
    requires n <= |steps| && period != 0 && KeptPositions(steps, n, nDiscard, period) != []
    ensures exists k :: 0 <= k < n && steps[k] >= nDiscard && steps[k] % period == 0
  {
    var ks := KeptPositions(steps, n, nDiscard, period);
    KeptPositionsCorrect(steps, n, nDiscard, period);
    assert ks[0] in ks;
  }

  /** The filter tests the absolute step index, not the offset from
      `n_discard`: steps 0..9 with `n_discard=2, n_decorrelate=1` keep the
      steps 2, 4, 6 and 8. */
  lemma KeptStepsExample()
    ensures KeptPositions([0, 1, 2, 3, 4, 5, 6, 7, 8, 9], 10, 2, 2) == [2, 4, 6, 8]
  {
    var steps := [0, 1, 2, 3, 4, 5, 6, 7, 8, 9];
    assert KeptPositions(steps, 0, 2, 2) == [];
    assert KeptPositions(steps, 1, 2, 2) == [];
    assert KeptPositions(steps, 2, 2, 2) == [];
    assert KeptPositions(steps, 3, 2, 2) == [2];
    assert KeptPositions(steps, 4, 2, 2) == [2];
    assert KeptPositions(steps, 5, 2, 2) == [2, 4];
    assert KeptPositions(steps, 6, 2, 2) == [2, 4];
    assert KeptPositions(steps, 7, 2, 2) == [2, 4, 6];
    assert KeptPositions(steps, 8, 2, 2) == [2, 4, 6];
    assert KeptPositions(steps, 9, 2, 2) == [2, 4, 6, 8];
  }

  /** Pairing with more steps only appends: the positions kept among the
      first `m` steps are a prefix of those kept among the first `n`. */
  lemma {:induction false} KeptPositionsPrefix(steps: seq<int>, n: nat, m: nat, nDiscard: int, period: int)
    requires m <= n <= |steps| && period != 0
    ensures KeptPositions(steps, m, nDiscard, period) <= KeptPositions(steps, n, nDiscard, period)
    decreases n - m
  {
    if m < n {
      KeptPositionsPrefix(steps, n - 1, m, nDiscard, period);
    }
  }

  // ---------------------------------------------------------------------
  // One step of the ensemble, on values
  // ---------------------------------------------------------------------

  /** The state the sampler keeps between steps. */
  datatype Walkers = Walkers(rs: seq<Config>, psis: seq<real>, forces: seq<Config>, ages: seq<int>, step: int)

  /** One row per walker everywhere, and forces shaped like positions. */
  predicate WellShaped(w: Walkers)
  {
    |w.psis| == |w.rs| && |w.forces| == |w.rs| && |w.ages| == |w.rs| &&
    forall i :: 0 <= i < |w.rs| ==> |w.forces[i]| == |w.rs[i]|
  }

  /** A Gaussian draw shaped like the positions. */
  predicate NoiseFits(rs: seq<Config>, noise: seq<Config>)
  {
    |noise| == |rs| && forall i :: 0 <= i < |rs| ==> |noise[i]| == |rs[i]|
  }

  /** The clean-force routine maps a force of a configuration to one of the
      same shape. */
  ghost predicate ShapePreserving(cf: (Config, Config) -> Config)
  {
    forall f: Config, c: Config :: |cf(f, c)| == |c|
  }

  /** A successful evaluation with every age zero is a well-shaped,
      evaluated state. */
  lemma RestartState(qf: Config -> Option<Eval>, cf: (Config, Config) -> Config, rs: seq<Config>)
    requires ShapePreserving(cf) && QForce(qf, cf, rs).Success?
    ensures var v := QForce(qf, cf, rs).value;
      var w := Walkers(rs, v.1, v.0, seq(|rs|, _ => 0), 0);
      WellShaped(w) && EvaluatedBy(qf, cf, w)
  {
  }

  /** The stored forces and values are those of the stored positions. */
  predicate EvaluatedBy(qf: Config -> Option<Eval>, cf: (Config, Config) -> Config, w: Walkers)
  {
    QForce(qf, cf, w.rs) == Success((w.forces, w.psis))
  }

  /** The body of `__next__` on values: the new state and what the step
      yields, or the error it raises before changing anything visible. */
  function Step(qf: Config -> Option<Eval>, cf: (Config, Config) -> Config, tau: real, policy: Policy,
                w: Walkers, noise: seq<Config>, metropolis: seq<bool>): (r: Result<(Walkers, Sample), NextError>)
    requires WellShaped(w) && NoiseFits(w.rs, noise) && |metropolis| == |w.rs|
    ensures r.Success? ==> |w.rs| > 0
  {
    var rsNew := Proposal(w.rs, w.forces, tau, noise);
    match QForce(qf, cf, rsNew)
    case Failure(e) => Failure(LUFact(e))
    case Success((forcesNew, psisNew)) =>
      var acc := AcceptVector(policy, w.step, metropolis, w.psis, psisNew, w.ages);
      var ages := NewAges(w.ages, acc);
      if |w.rs| == 0 then Failure(ZeroDivision)
      else
        var rs' := Utils.Merge(w.rs, rsNew, acc);
        var psis' := Utils.Merge(w.psis, psisNew, acc);
        Success((Walkers(rs', psis', Utils.Merge(w.forces, forcesNew, acc), ages, w.step + 1),
                 Sample(rs', psis', Info(Acceptance(acc), ages))))
  }

  /** A step fails exactly when evaluating the proposal fails (carrying the
      failing rows) or when there are no walkers to divide by. */
  lemma StepFailure(qf: Config -> Option<Eval>, cf: (Config, Config) -> Config, tau: real, policy: Policy,
                    w: Walkers, noise: seq<Config>, metropolis: seq<bool>)
    requires WellShaped(w) && NoiseFits(w.rs, noise) && |metropolis| == |w.rs|
    ensures var q := QForce(qf, cf, Proposal(w.rs, w.forces, tau, noise));
      var r := Step(qf, cf, tau, policy, w, noise, metropolis);
      (q.Failure? ==> r == Failure(LUFact(q.error))) &&
      (q.Success? ==> (r.Failure? <==> |w.rs| == 0) && (r.Failure? ==> r.error == ZeroDivision))
  {
  }

  /** An accepted walker takes the proposed position, force and value and its
      age restarts at 0; a rejected walker keeps all three and ages by one.
      The population size never changes and the step counter grows by one. */
  lemma StepMovesAcceptedWalkers(qf: Config -> Option<Eval>, cf: (Config, Config) -> Config, tau: real,
                                 policy: Policy, w: Walkers, noise: seq<Config>, metropolis: seq<bool>)
    requires WellShaped(w) && NoiseFits(w.rs, noise) && |metropolis| == |w.rs|
    requires Step(qf, cf, tau, policy, w, noise, metropolis).Success?
    ensures var p := Proposal(w.rs, w.forces, tau, noise);
      var q := QForce(qf, cf, p).value;
      var acc := AcceptVector(policy, w.step, metropolis, w.psis, q.1, w.ages);
      var w' := Step(qf, cf, tau, policy, w, noise, metropolis).value.0;
      |w'.rs| == |w.rs| && |w'.psis| == |w.rs| && |w'.forces| == |w.rs| && |w'.ages| == |w.rs| &&
      w'.step == w.step + 1 &&
      forall i :: 0 <= i < |w.rs| ==>
        (acc[i] ==> w'.rs[i] == p[i] && w'.psis[i] == q.1[i] && w'.forces[i] == q.0[i] && w'.ages[i] == 0) &&
        (!acc[i] ==> w'.rs[i] == w.rs[i] && w'.psis[i] == w.psis[i] && w'.forces[i] == w.forces[i] &&
                     w'.ages[i] == w.ages[i] + 1)
  {
  }

  /** The reported acceptance is the accepted fraction and lies in [0, 1];
      the sample carries copies of the new positions, values and ages. */
  lemma StepReportsAcceptance(qf: Config -> Option<Eval>, cf: (Config, Config) -> Config, tau: real,
                              policy: Policy, w: Walkers, noise: seq<Config>, metropolis: seq<bool>)
    requires WellShaped(w) && NoiseFits(w.rs, noise) && |metropolis| == |w.rs|
    requires Step(qf, cf, tau, policy, w, noise, metropolis).Success?
    ensures var q := QForce(qf, cf, Proposal(w.rs, w.forces, tau, noise)).value;
      var acc := AcceptVector(policy, w.step, metropolis, w.psis, q.1, w.ages);
      var (w', sample) := Step(qf, cf, tau, policy, w, noise, metropolis).value;
      sample.rs == w'.rs && sample.psis == w'.psis && sample.info.age == w'.ages &&
      sample.info.acceptance == (Count(acc) as real) / (|w.rs| as real) &&
      0.0 <= sample.info.acceptance <= 1.0
  {
    var q := QForce(qf, cf, Proposal(w.rs, w.forces, tau, noise)).value;
    AcceptanceBounds(AcceptVector(policy, w.step, metropolis, w.psis, q.1, w.ages));
  }

  /** A step keeps the state well shaped. */
  lemma StepKeepsShape(qf: Config -> Option<Eval>, cf: (Config, Config) -> Config, tau: real,
                       policy: Policy, w: Walkers, noise: seq<Config>, metropolis: seq<bool>)
    requires WellShaped(w) && NoiseFits(w.rs, noise) && |metropolis| == |w.rs|
    requires ShapePreserving(cf)
    requires Step(qf, cf, tau, policy, w, noise, metropolis).Success?
    ensures WellShaped(Step(qf, cf, tau, policy, w, noise, metropolis).value.0)
  {
    var p := Proposal(w.rs, w.forces, tau, noise);
    var q := QForce(qf, cf, p).value;
    StepMovesAcceptedWalkers(qf, cf, tau, policy, w, noise, metropolis);
    forall i | 0 <= i < |w.rs|
      ensures |q.0[i]| == |p[i]|
    {
      assert q.0[i] == cf(qf(p[i]).value.force, p[i]);
    }
  }

  /** Forces and values stay those of the positions across a step. */
  lemma StepKeepsEvaluation(qf: Config -> Option<Eval>, cf: (Config, Config) -> Config, tau: real,
                            policy: Policy, w: Walkers, noise: seq<Config>, metropolis: seq<bool>)
    requires WellShaped(w) && NoiseFits(w.rs, noise) && |metropolis| == |w.rs|
    requires EvaluatedBy(qf, cf, w)
    requires Step(qf, cf, tau, policy, w, noise, metropolis).Success?
    ensures EvaluatedBy(qf, cf, Step(qf, cf, tau, policy, w, noise, metropolis).value.0)
  {
    var p := Proposal(w.rs, w.forces, tau, noise);
    var q := QForce(qf, cf, p).value;
    var acc := AcceptVector(policy, w.step, metropolis, w.psis, q.1, w.ages);
    MergeKeepsEvaluation(qf, cf, w.rs, w.forces, w.psis, p, q.0, q.1, acc);
  }

  /** With a maximum age, ages stay within it across a step. */
  lemma StepKeepsAgesCapped(qf: Config -> Option<Eval>, cf: (Config, Config) -> Config, tau: real,
                            policy: Policy, w: Walkers, noise: seq<Config>, metropolis: seq<bool>)
    requires WellShaped(w) && NoiseFits(w.rs, noise) && |metropolis| == |w.rs|
    requires policy.maxAge.Some?
    requires forall i :: 0 <= i < |w.ages| ==> 0 <= w.ages[i] <= AgeCap(policy.maxAge.value)
    requires Step(qf, cf, tau, policy, w, noise, metropolis).Success?
    ensures var w' := Step(qf, cf, tau, policy, w, noise, metropolis).value.0;
      forall i :: 0 <= i < |w'.ages| ==> 0 <= w'.ages[i] <= AgeCap(policy.maxAge.value)
  {
    var q := QForce(qf, cf, Proposal(w.rs, w.forces, tau, noise)).value;
    AgesStayCapped(policy, w.step, metropolis, w.psis, q.1, w.ages);
  }

  // ---------------------------------------------------------------------
  // LangevinSampler
  // ---------------------------------------------------------------------

  /** A fresh tensor holding `s`. */
  method ToArray<T>(s: seq<T>) returns (a: array<T>)
    ensures fresh(a) && a[..] == s
  {
    a := new T[|s|](i requires 0 <= i < |s| => s[i]);
  }

  class LangevinSampler {
    /** `quantum_force` on one walker; `None` where the factorisation fails. */
    const quantumForce: Config -> Option<Eval>
    /** `clean_force(force, rs, geom, tau=tau)` on one walker. */
    const cleanForce: (Config, Config) -> Config
    const tau: real
    const policy: Policy
    var rs: array<Config>
    var psis: array<real>
    var forces: array<Config>
    var ages: array<int>
    var step: int

    /** The sampler's state as a value. */
    function Snapshot(): Walkers
      reads this, rs, psis, forces, ages
    {
      Walkers(rs[..], psis[..], forces[..], ages[..], step)
    }

    ghost predicate Valid()
      reads this, rs, psis, forces, ages
    {
      rs != forces && ShapePreserving(cleanForce) && WellShaped(Snapshot())
    }

    predicate Evaluated()
      reads this, rs, psis, forces, ages
    {
      EvaluatedBy(quantumForce, cleanForce, Snapshot())
    }

    /** No age is negative, and with a maximum age none exceeds it. */
    predicate AgesCapped()
      reads this, ages
    {
      forall i :: 0 <= i < ages.Length ==>
        0 <= ages[i] && (policy.maxAge.Some? ==> ages[i] <= AgeCap(policy.maxAge.value))
    }

    /** The state before the first `restart`: a private copy of the positions. */
    constructor Init(qf: Config -> Option<Eval>, cf: (Config, Config) -> Config, tau: real,
                     policy: Policy, rs0: seq<Config>)
      requires ShapePreserving(cf)
      ensures quantumForce == qf && cleanForce == cf && this.tau == tau && this.policy == policy
      ensures fresh(rs) && fresh(psis) && fresh(forces) && fresh(ages)
      ensures rs[..] == rs0 && step == 0 && Valid()
    {
      quantumForce, cleanForce, this.tau, this.policy := qf, cf, tau, policy;
      rs := new Config[|rs0|](i requires 0 <= i < |rs0| => rs0[i]);
      psis := new real[|rs0|](_ => 0.0);
      forces := new Config[|rs0|](i requires 0 <= i < |rs0| => seq(|rs0[i]|, _ => 0.0));
      ages := new int[|rs0|](_ => 0);
      step := 0;
      new;
      assert rs[..] == rs0;
    }

    /** `LangevinSampler(wf, rs, tau=..., ...)`: copies the positions and
      restarts, which fails when evaluating them does. */
    static method Create(qf: Config -> Option<Eval>, cf: (Config, Config) -> Config, tau: real,
                         policy: Policy, rs0: seq<Config>)
      returns (r: Result<LangevinSampler, LUFactError>)
      requires ShapePreserving(cf)
      ensures r.Failure? <==> QForce(qf, cf, rs0).Failure?
      ensures r.Failure? ==> r.error == QForce(qf, cf, rs0).error
      ensures r.Success? ==>
        fresh(r.value) && fresh(r.value.rs) && r.value.rs[..] == rs0 && r.value.step == 0 &&
        r.value.policy == policy && r.value.tau == tau &&
        r.value.Valid() && r.value.Evaluated() && r.value.AgesCapped() &&
        r.value.ages[..] == seq(|rs0|, _ => 0)
    {
      var s := new LangevinSampler.Init(qf, cf, tau, policy, rs0);
      var e := s.Restart();
      if e.Failure? {
        return Failure(e.error);
      }
      return Success(s);
    }

    /** `len(sampler)`: the number of walkers. */
    function Len(): (n: nat)
      reads this
      ensures n == rs.Length
    {
      rs.Length
    }

    /** `restart()`: the step counter goes back to 0, then the positions are
      evaluated afresh and every age is reset; a failing evaluation leaves
      forces, values and ages as they were. */
    method Restart() returns (r: Result<(), LUFactError>)
      requires Valid()
      modifies this
      ensures Valid() && step == 0 && rs == old(rs) && rs[..] == old(rs[..])
      ensures r.Failure? <==> QForce(quantumForce, cleanForce, rs[..]).Failure?
      ensures r.Failure? ==>
        r.error == QForce(quantumForce, cleanForce, rs[..]).error &&
        forces == old(forces) && psis == old(psis) && ages == old(ages)
      ensures r.Success? ==>
        fresh(forces) && fresh(psis) && fresh(ages) && Evaluated() && AgesCapped() &&
        ages[..] == seq(rs.Length, _ => 0)
    {
      step := 0;
      var q := QForce(quantumForce, cleanForce, rs[..]);
      if q.Failure? {
        return Failure(q.error);
      }
      forces := ToArray(q.value.0);
      psis := ToArray(q.value.1);
      ages := ToArray(seq(rs.Length, _ => 0));
      RestartState(quantumForce, cleanForce, rs[..]);
      assert Snapshot() == Walkers(rs[..], q.value.1, q.value.0, seq(rs.Length, _ => 0), 0);
      r := Success(());
    }

    /** `propagate_all()`: every walker takes the proposed move
      unconditionally, then the sampler restarts. */
    method PropagateAll(noise: seq<Config>) returns (r: Result<(), LUFactError>)
      requires Valid() && NoiseFits(rs[..], noise)
      modifies this
      ensures Valid() && step == 0 && fresh(rs) && rs.Length == old(rs.Length)
      ensures rs[..] == Proposal(old(rs[..]), old(forces[..]), tau, noise)
      ensures r.Failure? <==> QForce(quantumForce, cleanForce, rs[..]).Failure?
      ensures r.Failure? ==> r.error == QForce(quantumForce, cleanForce, rs[..]).error
      ensures r.Success? ==> Evaluated() && AgesCapped() && ages[..] == seq(rs.Length, _ => 0)
    {
      rs := ToArray(Proposal(rs[..], forces[..], tau, noise));
      r := Restart();
    }

    /** `_ages[accepted] = 0; _ages[~accepted] += 1`, in place. */
    method UpdateAges(acc: seq<bool>)
      requires |acc| == ages.Length
      modifies ages
      ensures ages[..] == NewAges(old(ages[..]), acc)
    {
      forall i | 0 <= i < ages.Length && acc[i] {
        ages[i] := 0;
      }
      forall i | 0 <= i < ages.Length && !acc[i] {
        ages[i] := ages[i] + 1;
      }
    }

    /** `assign_where((rs, psis, forces), (rs_new, psis_new, forces_new), accepted)`. */
    method TakeAccepted(rsNew: seq<Config>, psisNew: seq<real>, forcesNew: seq<Config>, acc: seq<bool>)
      requires rs != forces
      requires |rsNew| == |psisNew| == |forcesNew| == |acc| == rs.Length == psis.Length == forces.Length
      modifies rs, psis, forces
      ensures rs[..] == Utils.Merge(old(rs[..]), rsNew, acc)
      ensures psis[..] == Utils.Merge(old(psis[..]), psisNew, acc)
      ensures forces[..] == Utils.Merge(old(forces[..]), forcesNew, acc)
    {
      Utils.MaskedAssign(rs, rsNew, acc);
      Utils.MaskedAssign(psis, psisNew, acc);
      Utils.MaskedAssign(forces, forcesNew, acc);
    }

    /** `next(sampler)`: one step of the ensemble, in place. `noise` is the
      scaled Gaussian draw and `metropolis` the outcome of `Ps_acc > rand`.
      A failing step changes nothing. */
    method Next(noise: seq<Config>, metropolis: seq<bool>) returns (r: Result<Sample, NextError>)
      requires Valid() && NoiseFits(rs[..], noise) && |metropolis| == rs.Length
      modifies this, rs, psis, forces, ages
      ensures Valid() && rs == old(rs) && psis == old(psis) && forces == old(forces) && ages == old(ages)
      ensures var s := Step(quantumForce, cleanForce, tau, policy, old(Snapshot()), noise, metropolis);
        (s.Failure? ==> r == Failure(s.error) && Snapshot() == old(Snapshot())) &&
        (s.Success? ==> r == Success(s.value.1) && Snapshot() == s.value.0)
      ensures old(Evaluated()) ==> Evaluated()
      ensures old(AgesCapped()) ==> AgesCapped()
    {
      ghost var w := Snapshot();
      var rsNew := Proposal(rs[..], forces[..], tau, noise);
      var q := QForce(quantumForce, cleanForce, rsNew);
      if q.Failure? {
        return Failure(LUFact(q.error));
      }
      var (forcesNew, psisNew) := q.value;
      var acc := AcceptVector(policy, step, metropolis, psis[..], psisNew, ages[..]);
      UpdateAges(acc);
      if rs.Length == 0 {
        assert ages[..] == w.ages;
        return Failure(ZeroDivision);
      }
      var info := Info(Acceptance(acc), ages[..]);
      TakeAccepted(rsNew, psisNew, forcesNew, acc);
      step := step + 1;
      r := Success(Sample(rs[..], psis[..], info));
      ProveStepInvariants(w, noise, metropolis);
    }

    /** The invariants that a successful step carries over to its new state. */
    ghost method ProveStepInvariants(w: Walkers, noise: seq<Config>, metropolis: seq<bool>)
      requires ShapePreserving(cleanForce) && WellShaped(w) && NoiseFits(w.rs, noise) && |metropolis| == |w.rs|
      requires Step(quantumForce, cleanForce, tau, policy, w, noise, metropolis).Success?
      requires Snapshot() == Step(quantumForce, cleanForce, tau, policy, w, noise, metropolis).value.0
      ensures WellShaped(Snapshot())
      ensures EvaluatedBy(quantumForce, cleanForce, w) ==> Evaluated()
      ensures (forall i :: 0 <= i < |w.ages| ==>
                 0 <= w.ages[i] && (policy.maxAge.Some? ==> w.ages[i] <= AgeCap(policy.maxAge.value)))
              ==> AgesCapped()
    {
      StepKeepsShape(quantumForce, cleanForce, tau, policy, w, noise, metropolis);
      if EvaluatedBy(quantumForce, cleanForce, w) {
        StepKeepsEvaluation(quantumForce, cleanForce, tau, policy, w, noise, metropolis);
      }
      StepMovesAcceptedWalkers(quantumForce, cleanForce, tau, policy, w, noise, metropolis);
      if policy.maxAge.Some? && forall i :: 0 <= i < |w.ages| ==> 0 <= w.ages[i] <= AgeCap(policy.maxAge.value) {
        StepKeepsAgesCapped(quantumForce, cleanForce, tau, policy, w, noise, metropolis);
      }
    }
  }
}

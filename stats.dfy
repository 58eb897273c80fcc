/** The order-statistic outlier rules of `src/dlqmc/stats.py` on one
    dimension of samples, and the batch-size and chunking rule of the
    Gaussian kernel density estimator. */
module Stats {
  import opened Wrappers
  import opened Numerics
  import Utils

  // ---------------------------------------------------------------------
  // Order statistics: `kthvalue`
  // ---------------------------------------------------------------------

  predicate Sorted(t: seq<real>)
  {
    forall a, b :: 0 <= a < b < |t| ==> t[a] <= t[b]
  }

  /** Inserts `v` before the first entry not below it. */
  function Insert(v: real, t: seq<real>): (r: seq<real>)
    ensures |r| == |t| + 1
  {
    if t == [] then [v] else if v <= t[0] then [v] + t else [t[0]] + Insert(v, t[1..])
  }

  /** The ascending rearrangement of `s`. */
  function Sort(s: seq<real>): (r: seq<real>)
    ensures |r| == |s|
  {
    if s == [] then [] else Insert(s[0], Sort(s[1..]))
  }

  /** Number of entries strictly below `v`. */
  function CountBelow(s: seq<real>, v: real): (c: nat)
    ensures c <= |s|
  {
    if s == [] then 0 else (if s[0] < v then 1 else 0) + CountBelow(s[1..], v)
  }

  /** Number of entries at most `v`. */
  function CountAtMost(s: seq<real>, v: real): (c: nat)
    ensures c <= |s|
  {
    if s == [] then 0 else (if s[0] <= v then 1 else 0) + CountAtMost(s[1..], v)
  }

  lemma {:induction false} InsertLength(v: real, t: seq<real>)
    ensures |Insert(v, t)| == |t| + 1 && multiset(Insert(v, t)) == multiset(t) + multiset{v}
  {
    if t != [] && !(v <= t[0]) {
      InsertLength(v, t[1..]);
      assert t == [t[0]] + t[1..];
    }
  }

  lemma {:induction false} InsertSorted(v: real, t: seq<real>)
    requires Sorted(t)
    ensures Sorted(Insert(v, t))
  {
    if t != [] && !(v <= t[0]) {
      InsertSorted(v, t[1..]);
      InsertLength(v, t[1..]);
      var r := Insert(v, t[1..]);
      assert Insert(v, t) == [t[0]] + r;
      forall b | 0 <= b < |r| ensures t[0] <= r[b] {
        assert r[b] in multiset(r);
        if r[b] != v {
          assert r[b] in multiset(t[1..]);
          assert r[b] in t[1..];
        }
      }
      SortedCons(t[0], r);
    } else if t != [] {
      SortedCons(v, t);
    }
  }

  /** A value at most every entry of an ascending list may go in front. */
  lemma SortedCons(x: real, r: seq<real>)
    requires Sorted(r) && forall b :: 0 <= b < |r| ==> x <= r[b]
    ensures Sorted([x] + r)
  {
    var s := [x] + r;
    forall a, b | 0 <= a < b < |s| ensures s[a] <= s[b] {
      assert s[b] == r[b - 1];
      if 0 < a {
        assert s[a] == r[a - 1];
      }
    }
  }

  lemma {:induction false} InsertCounts(v: real, t: seq<real>, w: real)
    ensures CountBelow(Insert(v, t), w) == CountBelow(t, w) + (if v < w then 1 else 0)
    ensures CountAtMost(Insert(v, t), w) == CountAtMost(t, w) + (if v <= w then 1 else 0)
  {
    if t != [] && !(v <= t[0]) {
      InsertCounts(v, t[1..], w);
      assert Insert(v, t)[1..] == Insert(v, t[1..]);
    } else if t != [] {
      assert Insert(v, t)[1..] == t;
    }
  }

  /** `Sort(s)` is a rearrangement of `s`. */
  lemma {:induction false} SortPermutes(s: seq<real>)
    ensures multiset(Sort(s)) == multiset(s) && |Sort(s)| == |s|
  {
    if s != [] {
      SortPermutes(s[1..]);
      InsertLength(s[0], Sort(s[1..]));
      assert s == [s[0]] + s[1..];
    }
  }

  /** `Sort(s)` is ascending. */
  lemma {:induction false} SortSorted(s: seq<real>)
    ensures Sorted(Sort(s))
  {
    if s != [] {
      SortSorted(s[1..]);
      InsertSorted(s[0], Sort(s[1..]));
    }
  }

  /** Sorting keeps the number of entries below, or at most, any value. */
  lemma {:induction false} SortCounts(s: seq<real>, w: real)
    ensures CountBelow(Sort(s), w) == CountBelow(s, w) && CountAtMost(Sort(s), w) == CountAtMost(s, w)
  {
    if s != [] {
      SortCounts(s[1..], w);
      InsertCounts(s[0], Sort(s[1..]), w);
    }
  }

  /** In an ascending sequence, at most `m` entries lie below the entry at `m`. */
  lemma {:induction false} SortedBelow(t: seq<real>, m: nat, v: real)
    requires m <= |t| && forall a :: m <= a < |t| ==> t[a] >= v
    ensures CountBelow(t, v) <= m
  {
    if t != [] {
      SortedBelow(t[1..], if m == 0 then 0 else m - 1, v);
    }
  }

  /** In an ascending sequence, more than `m` entries are at most the entry at `m`. */
  lemma {:induction false} SortedAtMost(t: seq<real>, m: nat, v: real)
    requires m < |t| && forall a :: 0 <= a <= m ==> t[a] <= v
    ensures CountAtMost(t, v) >= m + 1
  {
    if m > 0 {
      SortedAtMost(t[1..], m - 1, v);
    }
  }

  /** Why `kthvalue` fails: the rank asked for is not in `1 .. n`. */
  datatype StatsError = RankOutOfRange(k: int) | UndefinedSpread

  /** `x.kthvalue(k).values`: the `k`-th smallest entry, counting from 1. It
      is an entry of `x` with fewer than `k` entries below it and at least `k`
      entries at most it. */
  function KthValue(x: seq<real>, k: int): (r: Result<real, StatsError>)
    ensures r.Success? <==> 1 <= k <= |x|
    ensures r.Failure? ==> r.error == RankOutOfRange(k)
  {
    if 1 <= k <= |x| then
      SortPermutes(x);
      Success(Sort(x)[k - 1])
    else Failure(RankOutOfRange(k))
  }

  /** The `k`-th smallest entry is an entry of `x`, with fewer than `k`
      entries below it and at least `k` entries at most it. */
  lemma KthValueIsRank(x: seq<real>, k: int)
    requires 1 <= k <= |x|
    ensures var v := KthValue(x, k).value;
      v in x && CountBelow(x, v) < k <= CountAtMost(x, v)
  {
    SortPermutes(x);
    var t := Sort(x);
    var v := t[k - 1];
    assert v in multiset(t);
    SortRank(x, k - 1);
    SortCounts(x, v);
  }

  lemma SortRank(x: seq<real>, m: nat)
    requires m < |x|
    ensures |Sort(x)| == |x|
    ensures CountBelow(Sort(x), Sort(x)[m]) <= m && CountAtMost(Sort(x), Sort(x)[m]) >= m + 1
  {
    SortPermutes(x);
    SortSorted(x);
    SortedRank(Sort(x), m);
  }

  /** In an ascending sequence the entry at index `m` has at most `m`
      entries below it and more than `m` entries at most it. */
  lemma SortedRank(t: seq<real>, m: nat)
    requires Sorted(t) && m < |t|
    ensures CountBelow(t, t[m]) <= m && CountAtMost(t, t[m]) >= m + 1
  {
    forall a | m <= a < |t| ensures t[a] >= t[m] {
      if a > m {
        assert t[m] <= t[a];
      }
    }
    SortedBelow(t, m, t[m]);
    forall a | 0 <= a <= m ensures t[a] <= t[m] {
      if a < m {
        assert t[a] <= t[m];
      }
    }
    SortedAtMost(t, m, t[m]);
  }

  /** A lower rank never gives a larger value. */
  lemma KthValueMonotone(x: seq<real>, k: int, k': int)
    requires 1 <= k <= k' <= |x|
    ensures KthValue(x, k).value <= KthValue(x, k').value
  {
    SortPermutes(x);
    SortSorted(x);
  }

  // ---------------------------------------------------------------------
  // outlier_mask
  // ---------------------------------------------------------------------

  function Abs(v: real): real { if v < 0.0 then -v else v }

  /** The ranks of the lower and the upper bound: `int(p * n)` and `int((1 - p) * n)`. */
  function LowerRank(p: real, n: nat): int { Trunc(p * (n as real)) }

  function UpperRank(p: real, n: nat): int { Trunc((1.0 - p) * (n as real)) }

  /** The bounds `(lb, ub)` of `outlier_mask` and `clip_outliers`. */
  function Bounds(x: seq<real>, p: real): (r: Result<(real, real), StatsError>)
    ensures r.Success? <==> 1 <= LowerRank(p, |x|) <= |x| && 1 <= UpperRank(p, |x|) <= |x|
  {
    var lb := KthValue(x, LowerRank(p, |x|));
    var ub := KthValue(x, UpperRank(p, |x|));
    if lb.Failure? then Failure(lb.error)
    else if ub.Failure? then Failure(ub.error)
    else Success((lb.value, ub.value))
  }

  /** `outlier_mask(x, p, q)` on one dimension: an entry is an outlier when
      it lies further than `q (ub - lb)` from the midpoint of the bounds; the
      bounds are returned alongside. */
  function OutlierMask(x: seq<real>, p: real, q: real): (r: Result<(seq<bool>, (real, real)), StatsError>)
    ensures r.Success? <==> Bounds(x, p).Success?
    ensures r.Success? ==>
      var (lb, ub) := r.value.1;
      r.value.1 == Bounds(x, p).value && |r.value.0| == |x| &&
      forall i :: 0 <= i < |x| ==>
        (r.value.0[i] <==> x[i] < (lb + ub) / 2.0 - q * (ub - lb) || x[i] > (lb + ub) / 2.0 + q * (ub - lb))
  {
    match Bounds(x, p)
    case Failure(e) => Failure(e)
    case Success((lb, ub)) =>
      Success((seq(|x|, i requires 0 <= i < |x| => FarFrom(x[i], (lb + ub) / 2.0, q * (ub - lb))), (lb, ub)))
  }

  /** `|v - mid| > spread`: `v` lies outside `[mid - spread, mid + spread]`. */
  function FarFrom(v: real, mid: real, spread: real): (b: bool)
    ensures b <==> v < mid - spread || v > mid + spread
  {
    Abs(v - mid) > spread
  }

  /** The lower bound is the `int(p n)`-th smallest entry and the upper one
      the `int((1 - p) n)`-th smallest; both are entries of `x`. */
  lemma BoundsAreRanks(x: seq<real>, p: real)
    requires Bounds(x, p).Success?
    ensures var (lb, ub) := Bounds(x, p).value;
      lb in x && ub in x &&
      CountBelow(x, lb) < LowerRank(p, |x|) <= CountAtMost(x, lb) &&
      CountBelow(x, ub) < UpperRank(p, |x|) <= CountAtMost(x, ub)
  {
    KthValueIsRank(x, LowerRank(p, |x|));
    KthValueIsRank(x, UpperRank(p, |x|));
  }

  lemma TruncRange(a: real, b: real, n: nat)
    requires 1.0 <= a <= b <= n as real
    ensures 1 <= Trunc(a) <= Trunc(b) <= n
  {
  }

  lemma TruncMonotone(a: real, b: real)
    requires a <= b
    ensures Trunc(a) <= Trunc(b)
  {
  }

  /** With `1 / n <= p <= 1 / 2` both ranks lie in `1 .. n`, the lower one
      not above the upper one. */
  lemma RanksValid(p: real, n: nat)
    requires 1.0 <= p * (n as real) && p <= 0.5
    ensures 1 <= LowerRank(p, n) <= UpperRank(p, n) <= n
  {
    ScaleAtLeast(0.5, p, n as real);
    assert (1.0 - p) * (n as real) == (n as real) - p * (n as real);
    TruncRange(p * (n as real), (1.0 - p) * (n as real), n);
    assert LowerRank(p, n) == Trunc(p * (n as real));
    assert UpperRank(p, n) == Trunc((1.0 - p) * (n as real));
  }

  /** So the bounds exist. */
  lemma BoundsDefined(x: seq<real>, p: real)
    requires 1.0 <= p * (|x| as real) && p <= 0.5
    ensures Bounds(x, p).Success?
  {
    RanksValid(p, |x|);
  }

  /** For `p <= 1 / 2` the lower rank does not exceed the upper one. */
  lemma RanksOrdered(p: real, n: nat)
    requires p <= 0.5
    ensures LowerRank(p, n) <= UpperRank(p, n)
  {
    ScaleAtLeast(1.0 - p, p, n as real);
    RanksFromProducts(p, n, p * (n as real), (1.0 - p) * (n as real));
  }

  lemma RanksFromProducts(p: real, n: nat, lo: real, hi: real)
    requires lo == p * (n as real) && hi == (1.0 - p) * (n as real) && lo <= hi
    ensures LowerRank(p, n) <= UpperRank(p, n)
  {
    TruncMonotone(lo, hi);
  }

  /** For `p <= 1 / 2` the lower bound does not exceed the upper one. */
  lemma BoundsOrdered(x: seq<real>, p: real)
    requires Bounds(x, p).Success? && p <= 0.5
    ensures Bounds(x, p).value.0 <= Bounds(x, p).value.1
  {
    RanksOrdered(p, |x|);
    KthValueMonotone(x, LowerRank(p, |x|), UpperRank(p, |x|));
  }

  lemma ScaleAtLeast(q: real, c: real, w: real)
    requires q >= c && w >= 0.0
    ensures q * w >= c * w
  {
    assert q * w - c * w == (q - c) * w;
  }

  /** With `q >= 1 / 2`, no entry between the bounds is an outlier. */
  lemma InsideNotOutlier(x: seq<real>, p: real, q: real, i: nat)
    requires OutlierMask(x, p, q).Success? && q >= 0.5 && i < |x|
    requires OutlierMask(x, p, q).value.1.0 <= x[i] <= OutlierMask(x, p, q).value.1.1
    ensures !OutlierMask(x, p, q).value.0[i]
  {
    var (lb, ub) := OutlierMask(x, p, q).value.1;
    WithinSpread(lb, ub, q, x[i]);
  }

  /** A value between `lb <= ub` lies within `q (ub - lb)` of their
      midpoint when `q >= 1 / 2`. */
  lemma WithinSpread(lb: real, ub: real, q: real, v: real)
    requires lb <= v <= ub && q >= 0.5
    ensures (lb + ub) / 2.0 - q * (ub - lb) <= v <= (lb + ub) / 2.0 + q * (ub - lb)
  {
    ScaleAtLeast(q, 0.5, ub - lb);
  }

  // ---------------------------------------------------------------------
  // clip_outliers
  // ---------------------------------------------------------------------

  /** `x[(x > lb) & (x < ub)]`: the entries strictly between the bounds, in order. */
  function Between(x: seq<real>, lb: real, ub: real): (mids: seq<real>)
    ensures |mids| <= |x|
  {
    if x == [] then []
    else (if lb < x[0] < ub then [x[0]] else []) + Between(x[1..], lb, ub)
  }

  /** The middle entries are exactly the entries strictly between the bounds. */
  lemma {:induction false} BetweenMembers(x: seq<real>, lb: real, ub: real)
    ensures forall v :: v in Between(x, lb, ub) <==> v in x && lb < v < ub
  {
    if x != [] {
      BetweenMembers(x[1..], lb, ub);
      assert x == [x[0]] + x[1..];
    }
  }

  /** `min(max(v, lo), hi)`: `clamp(v, lo, hi)`. */
  function Clamp(v: real, lo: real, hi: real): (r: real)
    ensures lo <= hi ==> lo <= r <= hi
    ensures lo <= v <= hi ==> r == v
    ensures r <= hi
  {
    Min(Max(v, lo), hi)
  }

  /** The clamp range of `clip_outliers`: the mean of the middle entries
      plus or minus `q` times their standard deviation with Bessel's
      correction; `sqrt` is a parameter. Fewer than two middle entries leave
      the deviation undefined. */
  function ClipRange(x: seq<real>, p: real, q: real, sqrt: real -> real): (r: Result<(real, real), StatsError>)
    ensures r.Success? <==>
      Bounds(x, p).Success? && |Between(x, Bounds(x, p).value.0, Bounds(x, p).value.1)| >= 2
    ensures r.Success? ==>
      r == SpreadRange(Between(x, Bounds(x, p).value.0, Bounds(x, p).value.1), q, sqrt)
  {
    var b := Bounds(x, p);
    if b.Failure? then Failure(b.error) else SpreadRange(Between(x, b.value.0, b.value.1), q, sqrt)
  }

  /** The mean plus or minus `q` standard deviations of the middle entries;
      a spread needs at least two of them. */
  function SpreadRange(mids: seq<real>, q: real, sqrt: real -> real): (r: Result<(real, real), StatsError>)
    ensures r.Success? <==> |mids| >= 2
    ensures r.Success? ==> r.value.0 == Mean(mids) - q * sqrt(SampleVariance(mids))
    ensures r.Success? ==> r.value.1 == Mean(mids) + q * sqrt(SampleVariance(mids))
  {
    if |mids| < 2 then Failure(UndefinedSpread)
    else
      var m, std := Mean(mids), sqrt(SampleVariance(mids));
      Success((m - q * std, m + q * std))
  }

  /** `mids.var()`: the squared deviations from the mean, summed and divided
      by `n - 1`; never negative. */
  function SampleVariance(mids: seq<real>): (v: real)
    requires |mids| >= 2
    ensures v >= 0.0
  {
    var d := Utils.SquaredDeviations(mids, Mean(mids));
    SquaresNonNegative(mids, Mean(mids));
    QuotientNonNegative(Sum(d), (|mids| - 1) as real);
    Sum(d) / ((|mids| - 1) as real)
  }

  lemma QuotientNonNegative(a: real, b: real)
    requires a >= 0.0 && b > 0.0
    ensures a / b >= 0.0
  {
    assert (a / b) * b == a;
  }

  lemma SquareNonNegative(v: real)
    ensures v * v >= 0.0
  {
    if v < 0.0 {
      assert v * v == (-v) * (-v);
    }
  }

  lemma SquaresNonNegative(xs: seq<real>, m: real)
    ensures Sum(Utils.SquaredDeviations(xs, m)) >= 0.0
  {
    var d := Utils.SquaredDeviations(xs, m);
    forall k | 0 <= k < |d| ensures d[k] >= 0.0 {
      SquareNonNegative(xs[k] - m);
    }
    SumNonNegative(d);
  }

  /** `clip_outliers(x, p, q)`: every entry clamped to the clamp range. */
  function ClipOutliers(x: seq<real>, p: real, q: real, sqrt: real -> real): (r: Result<seq<real>, StatsError>)
    ensures r.Success? <==> ClipRange(x, p, q, sqrt).Success?
    ensures r.Success? ==> |r.value| == |x|
  {
    match ClipRange(x, p, q, sqrt)
    case Failure(e) => Failure(e)
    case Success((lo, hi)) => Success(seq(|x|, i requires 0 <= i < |x| => Clamp(x[i], lo, hi)))
  }

  /** With `q >= 0` and a non-negative square root the range is not empty:
      every clipped entry lies in it, and entries already inside are kept. */
  lemma ClipOutliersBounded(x: seq<real>, p: real, q: real, sqrt: real -> real, i: nat)
    requires ClipOutliers(x, p, q, sqrt).Success? && i < |x| && q >= 0.0
    requires forall t :: t >= 0.0 ==> sqrt(t) >= 0.0
    ensures var (lo, hi) := ClipRange(x, p, q, sqrt).value;
      lo <= hi && lo <= ClipOutliers(x, p, q, sqrt).value[i] <= hi &&
      (lo <= x[i] <= hi ==> ClipOutliers(x, p, q, sqrt).value[i] == x[i])
  {
    var mids := Between(x, Bounds(x, p).value.0, Bounds(x, p).value.1);
    var v := SampleVariance(mids);
    assert q * sqrt(v) >= 0.0;
  }

  /** Entries below the range come back as its lower end, entries above it
      as its upper end. */
  lemma ClipOutliersOutside(x: seq<real>, p: real, q: real, sqrt: real -> real, i: nat)
    requires ClipOutliers(x, p, q, sqrt).Success? && i < |x|
    requires ClipRange(x, p, q, sqrt).value.0 <= ClipRange(x, p, q, sqrt).value.1
    ensures var (lo, hi) := ClipRange(x, p, q, sqrt).value;
      (x[i] < lo ==> ClipOutliers(x, p, q, sqrt).value[i] == lo) &&
      (x[i] > hi ==> ClipOutliers(x, p, q, sqrt).value[i] == hi)
  {
  }

  // ---------------------------------------------------------------------
  // GaussianKDEstimator: batch size and chunked evaluation
  // ---------------------------------------------------------------------

  /** `int(2 ** 30 * max_memory) // (nbytes or 1)`: the divisor is never
      zero, and the division floors. */
  function BatchSize(maxMemory: real, nbytes: nat): (bs: int)
    ensures var d := if nbytes == 0 then 1 else nbytes;
      bs * d <= Trunc(1073741824.0 * maxMemory) < (bs + 1) * d
  {
    Trunc(1073741824.0 * maxMemory) / (if nbytes == 0 then 1 else nbytes)
  }

  /** An estimator keeps its sample points and its batch size. */
  datatype Estimator<X> = Estimator(points: seq<X>, bs: int)

  /** The constructor: the batch size from the memory budget and the byte
      size `nelement * element_size` of the sample points. */
  function NewEstimator<X>(points: seq<X>, maxMemory: real, elementSize: nat, width: nat): (e: Estimator<X>)
    ensures e.points == points
    ensures e.bs == BatchSize(maxMemory, |points| * width * elementSize)
  {
    Estimator(points, BatchSize(maxMemory, |points| * width * elementSize))
  }

  /** `xs.split(bs)`: consecutive chunks of `bs` rows, the last one shorter. */
  function Split<X>(xs: seq<X>, bs: nat): (chunks: seq<seq<X>>)
    requires bs > 0
    ensures forall c :: 0 <= c < |chunks| ==> 0 < |chunks[c]| <= bs
    ensures chunks == [] <==> xs == []
    decreases |xs|
  {
    if xs == [] then []
    else if |xs| <= bs then [xs]
    else [xs[..bs]] + Split(xs[bs..], bs)
  }

  /** `torch.cat` of chunks. */
  function Concat<X>(chunks: seq<seq<X>>): seq<X>
  {
    if chunks == [] then [] else chunks[0] + Concat(chunks[1..])
  }

  lemma {:induction false} SplitConcat<X>(xs: seq<X>, bs: nat)
    requires bs > 0
    ensures Concat(Split(xs, bs)) == xs
    decreases |xs|
  {
    if xs != [] && |xs| > bs {
      SplitConcat(xs[bs..], bs);
      assert Split(xs, bs)[1..] == Split(xs[bs..], bs);
    } else if xs != [] {
      assert Split(xs, bs)[1..] == [];
    }
  }

  /** Why an evaluation fails: `split` with a batch size below one. */
  datatype CallError = BadBatchSize(bs: int)

  /** `estimator(xs)`: up to `bs` rows go to the kernel sum `direct` at
      once; more are split into chunks of `bs` rows, each of which the call
      evaluates directly, and the results are concatenated in order. */
  function Evaluate<X, Y>(e: Estimator<X>, direct: seq<X> -> seq<Y>, xs: seq<X>): (r: Result<seq<Y>, CallError>)
    ensures r.Failure? <==> |xs| > e.bs && e.bs <= 0
  {
    if |xs| <= e.bs then Success(direct(xs))
    else if e.bs <= 0 then Failure(BadBatchSize(e.bs))
    else Success(Utils.BatchEval(direct, Split(xs, e.bs)).value)
  }

  /** The chunks are short enough that evaluating one of them takes the
      direct branch. */
  lemma ChunksAreDirect<X, Y>(e: Estimator<X>, direct: seq<X> -> seq<Y>, xs: seq<X>)
    requires e.bs > 0
    ensures forall c :: c in Split(xs, e.bs) ==> Evaluate(e, direct, c) == Success(direct(c))
  {
  }

  /** `batch_eval` on a first batch and the rest: the first result followed
      by the rest's, or by nothing when there is no rest. */
  lemma {:induction false} BatchEvalCons<X, Y>(f: seq<X> -> seq<Y>, first: seq<X>, rest: seq<seq<X>>)
    ensures Utils.BatchEval(f, [first] + rest) ==
      Some(f(first) + if rest == [] then [] else Utils.BatchEval(f, rest).value)
    decreases |rest|
  {
    BatchResultsCons(f, first, rest);
  }

  lemma {:induction false} BatchResultsCons<X, Y>(f: seq<X> -> seq<Y>, first: seq<X>, rest: seq<seq<X>>)
    ensures Utils.BatchResults(f, [first] + rest) == f(first) + Utils.BatchResults(f, rest)
    decreases |rest|
  {
    if rest != [] {
      var all := [first] + rest;
      assert all[..|all| - 1] == [first] + rest[..|rest| - 1];
      BatchResultsCons(f, first, rest[..|rest| - 1]);
    } else {
      assert ([first] + rest)[..0] == [];
    }
  }

  /** For a kernel sum that treats each query row on its own, chunking does not
      change the result: the estimator returns the direct evaluation of all
      rows, in order. */
  lemma {:induction false} ChunkedIsDirect<X, Y>(e: Estimator<X>, direct: seq<X> -> seq<Y>, xs: seq<X>)
    requires e.bs > 0
    requires forall a: seq<X>, b: seq<X> :: direct(a + b) == direct(a) + direct(b)
    ensures Evaluate(e, direct, xs) == Success(direct(xs))
    decreases |xs|
  {
    if |xs| > e.bs {
      var bs := e.bs;
      ChunkedIsDirect(e, direct, xs[bs..]);
      BatchEvalCons(direct, xs[..bs], Split(xs[bs..], bs));
      assert Split(xs, bs) == [xs[..bs]] + Split(xs[bs..], bs);
      if |xs[bs..]| <= bs {
        assert Split(xs[bs..], bs) == [xs[bs..]];
      }
      assert Utils.BatchEval(direct, Split(xs[bs..], bs)).value == direct(xs[bs..]);
      assert direct(xs[..bs] + xs[bs..]) == direct(xs[..bs]) + direct(xs[bs..]);
      assert xs[..bs] + xs[bs..] == xs;
    }
  }
}

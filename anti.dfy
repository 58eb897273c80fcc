/** The symmetry wrappers of `src/dlqmc/nn/anti.py`. The inner networks
    are arbitrary functions. One configuration holds one feature vector per
    electron, and a network output is one real (one output channel).
    `AntisymmetricPart` multiplies one pairwise-antisymmetric factor per
    pair `i < j` and feeds the product to an odd function, so exchanging two
    neighbouring electrons flips its sign. */
module Anti {
  import Utils

  type Vec = seq<real>

  // ---------------------------------------------------------------------
  // The wrappers
  // ---------------------------------------------------------------------

  /** `PairConcat(net)(x1s, x2s) = net(cat(x1s, x2s))`. */
  function PairConcat(net: Vec -> real, x1: Vec, x2: Vec): real
  {
    net(x1 + x2)
  }

  /** The network sees the first argument in the leading positions and the
      second one after it. */
  lemma PairConcatLayout(net: Vec -> real, x1: Vec, x2: Vec)
    ensures exists xs :: PairConcat(net, x1, x2) == net(xs) && |xs| == |x1| + |x2| && xs[..|x1|] == x1 && xs[|x1|..] == x2
  {
    var xs := x1 + x2;
    assert xs[..|x1|] == x1 && xs[|x1|..] == x2;
  }

  /** `NetPairwiseAntisymmetry(net_pair)(x_i, x_j) = net_pair(x_i, x_j) - net_pair(x_j, x_i)`. */
  function PairAnti(netPair: (Vec, Vec) -> real, xi: Vec, xj: Vec): real
  {
    netPair(xi, xj) - netPair(xj, xi)
  }

  /** Swapping the arguments flips the sign, whatever `net_pair` is. */
  lemma PairAntiSwaps(netPair: (Vec, Vec) -> real, a: Vec, b: Vec)
    ensures PairAnti(netPair, a, b) == -PairAnti(netPair, b, a)
  {
  }

  /** Equal arguments give zero. */
  lemma PairAntiDiagonal(netPair: (Vec, Vec) -> real, a: Vec)
    ensures PairAnti(netPair, a, a) == 0.0
  {
  }

  /** A pair network built by `PairConcat` sees both orders of the pair. */
  lemma PairAntiOfConcat(net: Vec -> real, a: Vec, b: Vec)
    ensures PairAnti((x1, x2) => PairConcat(net, x1, x2), a, b) == net(a + b) - net(b + a)
  {
  }

  /** `NetOdd(net)(x) = net(x) - net(-x)`. */
  function NetOdd(net: real -> real, z: real): real
  {
    net(z) - net(-z)
  }

  /** The wrapped function is odd, whatever `net` is. */
  lemma NetOddIsOdd(net: real -> real, z: real)
    ensures NetOdd(net, -z) == -NetOdd(net, z)
  {
  }

  lemma NetOddAtZero(net: real -> real)
    ensures NetOdd(net, 0.0) == 0.0
  {
  }

  // ---------------------------------------------------------------------
  // AntisymmetricPart
  // ---------------------------------------------------------------------

  /** The factor of the pair `(i, j)`: `net_pair_anti(x[j], x[i])`. */
  function Factor(netPair: (Vec, Vec) -> real, x: seq<Vec>, i: nat, j: nat): real
    requires i < |x| && j < |x|
  {
    PairAnti(netPair, x[j], x[i])
  }

  /** The factors of the listed index pairs, in their order (a pair outside
      the configuration, which the triangle never lists, contributes 1). */
  function FactorsOf(netPair: (Vec, Vec) -> real, x: seq<Vec>, idx: seq<(nat, nat)>): (fs: seq<real>)
    ensures |fs| == |idx|
  {
    seq(|idx|, t requires 0 <= t < |idx| =>
      if idx[t].0 < |x| && idx[t].1 < |x| then Factor(netPair, x, idx[t].0, idx[t].1) else 1.0)
  }

  /** `net_pair_anti(x[:, j], x[:, i])` over `i, j = triu_indices(n, k=1)`. */
  function PairFactors(netPair: (Vec, Vec) -> real, x: seq<Vec>): (fs: seq<real>)
    ensures |fs| == |Utils.TriuIndices(|x|)|
  {
    FactorsOf(netPair, x, Utils.TriuIndices(|x|))
  }

  /** The product of the entries from index `i` on; `.prod(dim=-2)` over
      the pairs is the product from index 0. */
  function ProdFrom(s: seq<real>, i: nat): real
    decreases |s| - i
  {
    if i >= |s| then 1.0 else s[i] * ProdFrom(s, i + 1)
  }

  /** The product of all entries. */
  function Prod(s: seq<real>): real
  {
    ProdFrom(s, 0)
  }

  /** `AntisymmetricPart(net, net_pair)(x) = net_odd(prod of the pair factors)`. */
  function AntisymmetricPart(net: real -> real, netPair: (Vec, Vec) -> real, x: seq<Vec>): real
  {
    NetOdd(net, Prod(PairFactors(netPair, x)))
  }

  /** There is one factor per pair `i < j`, `n (n - 1) / 2` of them, listed in
      row-major order; factor `t` belongs to the `t`-th such pair. */
  lemma PairFactorsEnumerate(netPair: (Vec, Vec) -> real, x: seq<Vec>)
    ensures |PairFactors(netPair, x)| == |x| * (|x| - 1) / 2
    ensures forall p: (nat, nat) :: p in Utils.TriuIndices(|x|) <==> p.0 < p.1 < |x|
    ensures Utils.StrictlyRowMajor(Utils.TriuIndices(|x|))
    ensures forall t :: 0 <= t < |PairFactors(netPair, x)| ==>
      var (i, j) := Utils.TriuIndices(|x|)[t];
      i < j < |x| && PairFactors(netPair, x)[t] == PairAnti(netPair, x[j], x[i])
  {
    Utils.TriuIndicesCorrect(|x|);
    Utils.TriuIndicesInRange(|x|);
  }

  lemma {:induction false} ProdFromShift(a: seq<real>, b: seq<real>, j: nat)
    requires j <= |b|
    ensures ProdFrom(a + b, |a| + j) == ProdFrom(b, j)
    decreases |b| - j
  {
    if j < |b| {
      ProdFromShift(a, b, j + 1);
      assert (a + b)[|a| + j] == b[j];
    }
  }

  lemma {:induction false} ProdFromAppend(a: seq<real>, b: seq<real>, i: nat)
    requires i <= |a|
    ensures ProdFrom(a + b, i) == ProdFrom(a, i) * Prod(b)
    decreases |a| - i
  {
    if i < |a| {
      ProdFromAppend(a, b, i + 1);
      assert (a + b)[i] == a[i];
      MulAssoc(a[i], ProdFrom(a, i + 1), Prod(b));
    } else {
      ProdFromShift(a, b, 0);
    }
  }

  lemma ProdAppend(a: seq<real>, b: seq<real>)
    ensures Prod(a + b) == Prod(a) * Prod(b)
  {
    ProdFromAppend(a, b, 0);
  }

  lemma ProdCons(c: real, t: seq<real>)
    ensures Prod([c] + t) == c * Prod(t)
  {
    ProdAppend([c], t);
    assert Prod([c]) == c * ProdFrom([c], 1);
  }

  // Real arithmetic the product lemmas need, over plain numbers.

  lemma MulAssoc(u: real, v: real, w: real)
    ensures u * (v * w) == (u * v) * w
  {
  }

  lemma MulExchange(u: real, v: real, w: real)
    ensures u * (v * w) == v * (u * w)
  {
  }

  lemma MulCommute(u: real, v: real)
    ensures u * v == v * u
  {
  }

  lemma MulEqual(u: real, v: real, u': real, v': real)
    requires u' == u && v' == v
    ensures u' * v' == u * v
  {
  }

  lemma MulNegRight(u: real, v: real, u': real, v': real)
    requires u' == u && v' == -v
    ensures u' * v' == -(u * v)
  {
  }

  lemma MulNegLeft(u: real, v: real, u': real, v': real)
    requires u' == -u && v' == v
    ensures u' * v' == -(u * v)
  {
  }

  // Products of lists, stated once over plain lists.

  /** Two leading factors may trade places. */
  lemma ProdSwapFront(a: real, b: real, t: seq<real>)
    ensures Prod([a, b] + t) == Prod([b, a] + t)
  {
    ProdCons(a, [b] + t);
    ProdCons(b, t);
    ProdCons(b, [a] + t);
    ProdCons(a, t);
    assert [a, b] + t == [a] + ([b] + t);
    assert [b, a] + t == [b] + ([a] + t);
    MulExchange(a, b, Prod(t));
  }

  /** A common prefix keeps equal products equal. */
  lemma ProdSamePrefix(h: seq<real>, a: seq<real>, b: seq<real>)
    requires Prod(a) == Prod(b)
    ensures Prod(h + a) == Prod(h + b)
  {
    ProdAppend(h, a);
    ProdAppend(h, b);
    MulEqual(Prod(h), Prod(b), Prod(h), Prod(a));
  }

  /** `(-f) q p = -(f p q)`. */
  lemma ProdNegSwap(f: real, p: seq<real>, q: seq<real>)
    ensures Prod([-f] + q + p) == -Prod([f] + p + q)
  {
    assert [-f] + q + p == [-f] + (q + p);
    assert [f] + p + q == [f] + (p + q);
    ProdCons(-f, q + p);
    ProdCons(f, p + q);
    ProdAppend(q, p);
    ProdAppend(p, q);
    MulCommute(Prod(q), Prod(p));
    MulNegLeft(f, Prod(p + q), -f, Prod(q + p));
  }

  /** A sign flip of two leading parts survives a common tail. */
  lemma ProdPairFlip(r: seq<real>, s: seq<real>, r': seq<real>, s': seq<real>, t: seq<real>)
    requires Prod(r' + s') == -Prod(r + s)
    ensures Prod(r' + (s' + t)) == -Prod(r + (s + t))
  {
    assert r' + (s' + t) == (r' + s') + t;
    assert r + (s + t) == (r + s) + t;
    ProdAppend(r' + s', t);
    ProdAppend(r + s, t);
    MulNegLeft(Prod(r + s), Prod(t), Prod(r' + s'), Prod(t));
  }

  /** Equal heads and sign-flipped tails flip the sign of the whole. */
  lemma ProdConsFlip(h: seq<real>, h': seq<real>, a: seq<real>, a': seq<real>)
    requires Prod(h') == Prod(h) && Prod(a') == -Prod(a)
    ensures Prod(h' + a') == -Prod(h + a)
  {
    ProdAppend(h', a');
    ProdAppend(h, a);
    MulNegRight(Prod(h), Prod(a), Prod(h'), Prod(a'));
  }

  // The factor list regrouped row by row: row `i` holds the pairs `(i, j)`, `j > i`.

  /** The factors of row `i` from column `j0` on. */
  function RowList(netPair: (Vec, Vec) -> real, x: seq<Vec>, i: nat, j0: nat): seq<real>
    requires i < |x|
    decreases |x| - j0
  {
    if j0 >= |x| then []
    else (if i < j0 then [Factor(netPair, x, i, j0)] else []) + RowList(netPair, x, i, j0 + 1)
  }

  /** The factors of rows `i0 ..`, row after row. */
  function RowsList(netPair: (Vec, Vec) -> real, x: seq<Vec>, i0: nat): seq<real>
    decreases |x| - i0
  {
    if i0 >= |x| then [] else RowList(netPair, x, i0, 0) + RowsList(netPair, x, i0 + 1)
  }

  lemma {:induction false} FactorsOfAppend(netPair: (Vec, Vec) -> real, x: seq<Vec>, a: seq<(nat, nat)>, b: seq<(nat, nat)>)
    ensures FactorsOf(netPair, x, a + b) == FactorsOf(netPair, x, a) + FactorsOf(netPair, x, b)
  {
  }

  /** Row `i` of the strict upper triangle lists the factors of row `i`. */
  lemma {:induction false} RowFactors(netPair: (Vec, Vec) -> real, x: seq<Vec>, row: seq<bool>, i: nat, j0: nat)
    requires i < |x| && |row| == |x| && forall j :: 0 <= j < |row| ==> row[j] == (i < j)
    ensures FactorsOf(netPair, x, Utils.RowPositions(row, i, j0)) == RowList(netPair, x, i, j0)
    decreases |x| - j0
  {
    if j0 < |x| {
      RowFactors(netPair, x, row, i, j0 + 1);
      var rest := Utils.RowPositions(row, i, j0 + 1);
      if i < j0 {
        assert Utils.RowPositions(row, i, j0) == [(i, j0)] + rest;
        FactorsOfAppend(netPair, x, [(i, j0)], rest);
        assert FactorsOf(netPair, x, [(i, j0)]) == [Factor(netPair, x, i, j0)];
      } else {
        assert Utils.RowPositions(row, i, j0) == [] + rest;
        assert RowList(netPair, x, i, j0) == [] + RowList(netPair, x, i, j0 + 1);
      }
    } else {
      assert Utils.RowPositions(row, i, j0) == [];
    }
  }

  lemma TriuRow(n: nat, i: nat)
    requires i < n
    ensures var row := Utils.TriuMask(n)[i]; |row| == n && forall j :: 0 <= j < |row| ==> row[j] == (i < j)
  {
  }

  lemma {:induction false} RowsFactors(netPair: (Vec, Vec) -> real, x: seq<Vec>, i0: nat)
    requires i0 <= |x|
    ensures FactorsOf(netPair, x, Utils.Nonzero(Utils.TriuMask(|x|), i0, |x|)) == RowsList(netPair, x, i0)
    decreases |x| - i0
  {
    var mask := Utils.TriuMask(|x|);
    if i0 < |x| {
      var row, rest := Utils.RowPositions(mask[i0], i0, 0), Utils.Nonzero(mask, i0 + 1, |x|);
      Utils.NonzeroUnfold(mask, i0, |x|);
      FactorsOfAppend(netPair, x, row, rest);
      TriuRow(|x|, i0);
      RowFactors(netPair, x, mask[i0], i0, 0);
      RowsFactors(netPair, x, i0 + 1);
      assert RowsList(netPair, x, i0) == RowList(netPair, x, i0, 0) + RowsList(netPair, x, i0 + 1);
    } else {
      assert FactorsOf(netPair, x, Utils.Nonzero(mask, i0, |x|)) == [];
      assert RowsList(netPair, x, i0) == [];
    }
  }

  /** The factor list is the row lists, one after another. */
  lemma PairFactorsByRows(netPair: (Vec, Vec) -> real, x: seq<Vec>)
    ensures PairFactors(netPair, x) == RowsList(netPair, x, 0)
  {
    RowsFactors(netPair, x, 0);
  }

  // Exchanging the neighbouring electrons `k` and `k + 1`.

  function Swap(x: seq<Vec>, k: nat): (y: seq<Vec>)
    requires k + 1 < |x|
    ensures |y| == |x|
  {
    x[k := x[k + 1]][k + 1 := x[k]]
  }

  /** Two rows agree from column `j0` on when their electrons agree and so do
      all electrons from `j0` on (all of them to the right of both rows). */
  lemma {:induction false} RowSame(netPair: (Vec, Vec) -> real, x: seq<Vec>, y: seq<Vec>, i: nat, i': nat, j0: nat)
    requires |x| == |y| && i < |y| && i' < |x| && i < j0 && i' < j0
    requires y[i] == x[i'] && forall j :: j0 <= j < |x| ==> y[j] == x[j]
    ensures RowList(netPair, y, i, j0) == RowList(netPair, x, i', j0)
    decreases |x| - j0
  {
    if j0 < |x| {
      RowSame(netPair, x, y, i, i', j0 + 1);
    }
  }

  /** Before column `i + 1` a row has no factor. */
  lemma {:induction false} RowStart(netPair: (Vec, Vec) -> real, x: seq<Vec>, i: nat, j0: nat)
    requires i < |x| && j0 <= i + 1
    ensures RowList(netPair, x, i, j0) == RowList(netPair, x, i, i + 1)
    decreases i + 1 - j0
  {
    if j0 < i + 1 {
      RowStart(netPair, x, i, j0 + 1);
      assert RowList(netPair, x, i, j0) == [] + RowList(netPair, x, i, j0 + 1);
    }
  }

  /** A row other than `k` and `k + 1` keeps its product: its factors at the
      columns `k` and `k + 1` trade places. */
  lemma {:induction false} RowSwapOther(netPair: (Vec, Vec) -> real, x: seq<Vec>, k: nat, i: nat, j0: nat)
    requires k + 1 < |x| && i < |x| && (i < k || i > k + 1) && j0 <= k
    ensures Prod(RowList(netPair, Swap(x, k), i, j0)) == Prod(RowList(netPair, x, i, j0))
    decreases k - j0
  {
    var y := Swap(x, k);
    if j0 < k {
      RowSwapOther(netPair, x, k, i, j0 + 1);
      var h: seq<real> := if i < j0 then [Factor(netPair, x, i, j0)] else [];
      assert RowList(netPair, y, i, j0) == h + RowList(netPair, y, i, j0 + 1);
      assert RowList(netPair, x, i, j0) == h + RowList(netPair, x, i, j0 + 1);
      ProdSamePrefix(h, RowList(netPair, y, i, j0 + 1), RowList(netPair, x, i, j0 + 1));
    } else if i < k {
      SwapBeyond(x, k, k + 2);
      RowSame(netPair, x, y, i, i, k + 2);
      var a, b, t := Factor(netPair, x, i, k), Factor(netPair, x, i, k + 1), RowList(netPair, x, i, k + 2);
      assert RowList(netPair, y, i, k) == [b, a] + t;
      assert RowList(netPair, x, i, k) == [a, b] + t;
      ProdSwapFront(a, b, t);
    } else {
      RowStart(netPair, y, i, k);
      RowStart(netPair, x, i, k);
      SwapBeyond(x, k, i);
      RowSame(netPair, x, y, i, i, i + 1);
    }
  }

  /** Rows `k` and `k + 1` trade their factors apart from the factor of the
      pair `(k, k + 1)`, which changes sign. */
  lemma RowsSwapPair(netPair: (Vec, Vec) -> real, x: seq<Vec>, k: nat)
    requires k + 1 < |x|
    ensures Prod(RowList(netPair, Swap(x, k), k, 0) + RowList(netPair, Swap(x, k), k + 1, 0)) ==
      -Prod(RowList(netPair, x, k, 0) + RowList(netPair, x, k + 1, 0))
  {
    var y := Swap(x, k);
    RowStart(netPair, y, k, 0);
    RowStart(netPair, x, k, 0);
    RowStart(netPair, y, k + 1, 0);
    RowStart(netPair, x, k + 1, 0);
    SwapBeyond(x, k, k + 2);
    RowSame(netPair, x, y, k, k + 1, k + 2);
    RowSame(netPair, x, y, k + 1, k, k + 2);
    var f := Factor(netPair, x, k, k + 1);
    var p, q := RowList(netPair, x, k, k + 2), RowList(netPair, x, k + 1, k + 2);
    PairAntiSwaps(netPair, x[k + 1], x[k]);
    assert Factor(netPair, y, k, k + 1) == -f;
    assert RowList(netPair, y, k, k + 1) == [-f] + q;
    assert RowList(netPair, x, k, k + 1) == [f] + p;
    ProdNegSwap(f, p, q);
  }

  /** Right of `k + 1` the exchange changes no electron. */
  lemma SwapBeyond(x: seq<Vec>, k: nat, j0: nat)
    requires k + 1 < |x| && k + 2 <= j0
    ensures forall j :: j0 <= j < |x| ==> Swap(x, k)[j] == x[j]
  {
  }

  /** Rows from `k + 2` on are the same lists after the exchange. */
  lemma {:induction false} RowsSwapTail(netPair: (Vec, Vec) -> real, x: seq<Vec>, k: nat, i0: nat)
    requires k + 1 < |x| && i0 >= k + 2
    ensures RowsList(netPair, Swap(x, k), i0) == RowsList(netPair, x, i0)
    decreases |x| - i0
  {
    var y := Swap(x, k);
    if i0 < |x| {
      RowsSwapTail(netPair, x, k, i0 + 1);
      RowStart(netPair, y, i0, 0);
      RowStart(netPair, x, i0, 0);
      SwapBeyond(x, k, i0);
      RowSame(netPair, x, y, i0, i0, i0 + 1);
      assert RowsList(netPair, y, i0) == RowList(netPair, y, i0, 0) + RowsList(netPair, y, i0 + 1);
      assert RowsList(netPair, x, i0) == RowList(netPair, x, i0, 0) + RowsList(netPair, x, i0 + 1);
    } else {
      assert RowsList(netPair, y, i0) == [];
      assert RowsList(netPair, x, i0) == [];
    }
  }

  /** From row `i0 <= k` on, the product changes sign. */
  lemma {:induction false} RowsSwap(netPair: (Vec, Vec) -> real, x: seq<Vec>, k: nat, i0: nat)
    requires k + 1 < |x| && i0 <= k
    ensures Prod(RowsList(netPair, Swap(x, k), i0)) == -Prod(RowsList(netPair, x, i0))
    decreases k - i0
  {
    var y := Swap(x, k);
    if i0 == k {
      RowsSwapTail(netPair, x, k, k + 2);
      RowsSwapPair(netPair, x, k);
      var t := RowsList(netPair, x, k + 2);
      assert RowsList(netPair, y, k) == RowList(netPair, y, k, 0) + (RowList(netPair, y, k + 1, 0) + t);
      assert RowsList(netPair, x, k) == RowList(netPair, x, k, 0) + (RowList(netPair, x, k + 1, 0) + t);
      ProdPairFlip(RowList(netPair, x, k, 0), RowList(netPair, x, k + 1, 0),
                   RowList(netPair, y, k, 0), RowList(netPair, y, k + 1, 0), t);
    } else {
      RowsSwap(netPair, x, k, i0 + 1);
      RowSwapOther(netPair, x, k, i0, 0);
      ProdConsFlip(RowList(netPair, x, i0, 0), RowList(netPair, y, i0, 0),
                   RowsList(netPair, x, i0 + 1), RowsList(netPair, y, i0 + 1));
    }
  }

  /** Exchanging two neighbouring electrons flips the sign of
      `AntisymmetricPart`, whatever the two inner networks are. */
  lemma AntisymmetricUnderSwap(net: real -> real, netPair: (Vec, Vec) -> real, x: seq<Vec>, k: nat)
    requires k + 1 < |x|
    ensures AntisymmetricPart(net, netPair, Swap(x, k)) == -AntisymmetricPart(net, netPair, x)
  {
    PairFactorsByRows(netPair, x);
    PairFactorsByRows(netPair, Swap(x, k));
    RowsSwap(netPair, x, k, 0);
    NetOddIsOdd(net, Prod(PairFactors(netPair, x)));
  }

  /** Two equal neighbouring electrons make `AntisymmetricPart` vanish. */
  lemma VanishesOnEqualNeighbours(net: real -> real, netPair: (Vec, Vec) -> real, x: seq<Vec>, k: nat)
    requires k + 1 < |x| && x[k] == x[k + 1]
    ensures AntisymmetricPart(net, netPair, x) == 0.0
  {
    AntisymmetricUnderSwap(net, netPair, x, k);
    assert Swap(x, k) == x;
  }
}

/** The self-interaction exclusion of `src/dlqmc/nn/schnet.py`: the kernel
    wrapper zeroing the diagonal of the interaction kernels, and the
    convolution `schnet_conv` over the off-diagonal pairs. A kernel tensor
    `Ws[b, i, j, :]` is an array of channel vectors indexed by batch,
    electron `i` and particle `j`. */
module Schnet {
  import opened Wrappers
  import opened Numerics
  import Utils

  type Vec = seq<real>

  function Zeros(k: nat): (z: Vec)
    ensures |z| == k && forall c :: 0 <= c < k ==> z[c] == 0.0
  {
    seq(k, _ => 0.0)
  }

  // ---------------------------------------------------------------------
  // ZeroDiagKernel
  // ---------------------------------------------------------------------

  /** The entries of a three-dimensional array of channel vectors. */
  function Contents(a: array3<Vec>): (s: seq<seq<seq<Vec>>>)
    reads a
    ensures |s| == a.Length0
    ensures forall b :: 0 <= b < a.Length0 ==> |s[b]| == a.Length1
    ensures forall b, i :: 0 <= b < a.Length0 && 0 <= i < a.Length1 ==> |s[b][i]| == a.Length2
  {
    seq(a.Length0, b requires 0 <= b < a.Length0 reads a =>
      seq(a.Length1, i requires 0 <= i < a.Length1 reads a =>
        seq(a.Length2, j requires 0 <= j < a.Length2 reads a => a[b, i, j])))
  }

  /** The tensor with every `[b, i, i]` channel vector replaced by zeros. */
  function ZeroDiag(w: seq<seq<seq<Vec>>>): (r: seq<seq<seq<Vec>>>)
    ensures |r| == |w|
  {
    seq(|w|, b requires 0 <= b < |w| =>
      seq(|w[b]|, i requires 0 <= i < |w[b]| =>
        seq(|w[b][i]|, j requires 0 <= j < |w[b][i]| => if i == j then Zeros(|w[b][i][j]|) else w[b][i][j])))
  }

  /** Every diagonal channel vector is zero, of the length it had; every
      other entry is the input's. */
  lemma ZeroDiagEntries(w: seq<seq<seq<Vec>>>, b: nat, i: nat, j: nat)
    requires b < |w| && i < |w[b]| && j < |w[b][i]|
    ensures |ZeroDiag(w)[b]| == |w[b]| && |ZeroDiag(w)[b][i]| == |w[b][i]|
    ensures i == j ==> (|ZeroDiag(w)[b][i][j]| == |w[b][i][j]| &&
      forall c :: 0 <= c < |w[b][i][j]| ==> ZeroDiag(w)[b][i][j][c] == 0.0)
    ensures i != j ==> ZeroDiag(w)[b][i][j] == w[b][i][j]
  {
  }

  /** Zeroing the diagonal twice is zeroing it once. */
  lemma ZeroDiagIdempotent(w: seq<seq<seq<Vec>>>)
    ensures ZeroDiag(ZeroDiag(w)) == ZeroDiag(w)
  {
    var z := ZeroDiag(w);
    forall b | 0 <= b < |w| ensures ZeroDiag(z)[b] == z[b] {
      forall i | 0 <= i < |w[b]| ensures ZeroDiag(z)[b][i] == z[b][i] {
      }
    }
  }

  /** `ZeroDiagKernel()(Ws)`: clones `Ws` and writes zeros to `[:, i, i]`
      for `i < Ws.shape[1]`. `None` is the index error raised when
      `Ws.shape[2] < Ws.shape[1]`. `Ws` itself is not modified. */
  method ZeroDiagKernel(ws: array3<Vec>) returns (r: Option<array3<Vec>>)
    ensures r.None? <==> ws.Length2 < ws.Length1
    ensures r.Some? ==> fresh(r.value) && Contents(r.value) == ZeroDiag(Contents(ws))
  {
    if ws.Length2 < ws.Length1 {
      return None;
    }
    var out := new Vec[ws.Length0, ws.Length1, ws.Length2];
    forall b, i, j | 0 <= b < ws.Length0 && 0 <= i < ws.Length1 && 0 <= j < ws.Length2 {
      out[b, i, j] := ws[b, i, j];
    }
    forall b, i | 0 <= b < ws.Length0 && 0 <= i < ws.Length1 {
      out[b, i, i] := Zeros(|ws[b, i, i]|);
    }
    ContentsZeroDiag(out, ws);
    r := Some(out);
  }

  /** An array whose diagonal holds zeros and whose other entries are
      those of `ws` has the contents `ZeroDiag(Contents(ws))`. */
  lemma ContentsZeroDiag(out: array3<Vec>, ws: array3<Vec>)
    requires out.Length0 == ws.Length0 && out.Length1 == ws.Length1 && out.Length2 == ws.Length2
    requires forall b, i, j :: 0 <= b < ws.Length0 && 0 <= i < ws.Length1 && 0 <= j < ws.Length2 ==>
      out[b, i, j] == if i == j then Zeros(|ws[b, i, j]|) else ws[b, i, j]
    ensures Contents(out) == ZeroDiag(Contents(ws))
  {
    forall b | 0 <= b < ws.Length0
      ensures Contents(out)[b] == ZeroDiag(Contents(ws))[b]
    {
      forall i | 0 <= i < ws.Length1
        ensures Contents(out)[b][i] == ZeroDiag(Contents(ws))[b][i]
      {
      }
    }
  }

  // ---------------------------------------------------------------------
  // schnet_conv: the off-diagonal pairs
  // ---------------------------------------------------------------------

  /** The `t`-th particle other than `i`, in increasing order. */
  function Other(i: nat, t: nat): (j: nat)
    ensures j != i
  {
    if t < i then t else t + 1
  }

  /** `Other(i, .)` lists each particle other than `i` exactly once, in
      increasing order. */
  lemma OtherEnumerates(i: nat, t: nat, t': nat, j: nat)
    ensures t < t' ==> Other(i, t) < Other(i, t')
    ensures j != i ==> Other(i, if j < i then j else j - 1) == j
  {
  }

  /** Row `i` of the off-diagonal mask, from column `j0` on, lists the
      particles other than `i` from `j0` on. */
  lemma {:induction false} OffDiagRowEntries(m: nat, i: nat, j0: nat, t: nat)
    requires i < m && j0 <= m && t < |Utils.RowPositions(Utils.OffDiagMask(m)[i], i, j0)|
    ensures Utils.RowPositions(Utils.OffDiagMask(m)[i], i, j0)[t] ==
      (i, Other(i, t + (if i < j0 then j0 - 1 else j0)))
    decreases m - j0
  {
    var row := Utils.OffDiagMask(m)[i];
    if j0 < m {
      var rest := Utils.RowPositions(row, i, j0 + 1);
      assert Utils.RowPositions(row, i, j0) == (if row[j0] then [(i, j0)] else []) + rest;
      if j0 != i {
        if t > 0 {
          OffDiagRowEntries(m, i, j0 + 1, t - 1);
        }
      } else {
        OffDiagRowEntries(m, i, j0 + 1, t);
      }
    }
  }

  /** Entry `i (m - 1) + t` of the positions of rows `0 .. r` is the pair
      `(i, Other(i, t))`. */
  lemma OffDiagEntry(m: nat, r: nat, i: nat, t: nat)
    requires 0 < m && r <= m && i < r && t < m - 1
    ensures |Utils.Nonzero(Utils.OffDiagMask(m), 0, r)| == r * (m - 1)
    ensures i * (m - 1) + t < r * (m - 1)
    ensures Utils.Nonzero(Utils.OffDiagMask(m), 0, r)[i * (m - 1) + t] == (i, Other(i, t))
  {
    var mask := Utils.OffDiagMask(m);
    Utils.OffDiagRowsLength(m, r);
    Utils.OffDiagRowsLength(m, i);
    Utils.NonzeroSplit(mask, 0, i, r);
    Utils.NonzeroSplit(mask, i, i + 1, r);
    Utils.OffDiagRowCount(m, i, 0);
    Utils.RowPositionsFacts(mask[i], i, 0);
    OffDiagRowEntries(m, i, 0, t);
    var pre, row, post := Utils.Nonzero(mask, 0, i), Utils.RowPositions(mask[i], i, 0), Utils.Nonzero(mask, i + 1, r);
    assert Utils.Nonzero(mask, i, i + 1) == row;
    assert Utils.Nonzero(mask, 0, r) == pre + (row + post);
    assert i * (m - 1) + t < (i + 1) * (m - 1) <= r * (m - 1);
  }

  /** The index pairs `schnet_conv` selects, `mask_indices(m, nondiag)[:n (m - 1)]`,
      are, block by block, the pairs `(i, Other(i, t))`. */
  lemma SelectedPairs(n: nat, m: nat, i: nat, t: nat)
    requires 0 < m && n <= m && i < n && t < m - 1
    ensures |Utils.OffDiagIndices(m)| == m * (m - 1) && n * (m - 1) <= m * (m - 1)
    ensures i * (m - 1) + t < n * (m - 1)
    ensures Utils.OffDiagIndices(m)[..n * (m - 1)][i * (m - 1) + t] == (i, Other(i, t))
    ensures Selected(n, m)[i * (m - 1) + t] == (i, Other(i, t))
  {
    Utils.OffDiagIndicesByMask(m);
    Utils.OffDiagRowsLength(m, m);
    OffDiagEntry(m, n, i, t);
    OffDiagEntry(m, m, i, t);
    Utils.OffDiagPrefix(m, n);
    Utils.NonzeroSplit(Utils.OffDiagMask(m), 0, n, m);
    var pre := Utils.Nonzero(Utils.OffDiagMask(m), 0, n);
    assert Utils.OffDiagIndices(m)[..n * (m - 1)] == pre;
  }

  // ---------------------------------------------------------------------
  // schnet_conv: the product-sum
  // ---------------------------------------------------------------------

  /** One batch element: kernels `w[i][j]` of `k` channels for `n` electrons
      and `m` particles, and features `z[j]` of `k` channels. */
  predicate Shaped(w: seq<seq<Vec>>, z: seq<Vec>, n: nat, m: nat, k: nat)
  {
    |w| == n && |z| == m &&
    (forall i :: 0 <= i < n ==> |w[i]| == m) &&
    (forall i, j :: 0 <= i < n && 0 <= j < m ==> |w[i][j]| == k) &&
    (forall j :: 0 <= j < m ==> |z[j]| == k)
  }

  /** The pairs `schnet_conv` selects, `mask_indices(m, nondiag)[:n (m - 1)]`:
      the off-diagonal pairs of the first `n` rows. */
  function Selected(n: nat, m: nat): (r: seq<(nat, nat)>)
    requires 0 < m && n <= m
    ensures |r| == n * (m - 1)
    ensures forall s :: 0 <= s < |r| ==> r[s].0 < n && r[s].1 < m && r[s].0 != r[s].1
  {
    Utils.OffDiagIndicesCorrect(m, n);
    var r := Utils.OffDiagIndices(m)[..n * (m - 1)];
    assert forall s :: 0 <= s < |r| ==> r[s] in r;
    r
  }

  /** `Ws[:, i, j] * zs[:, j]` for one batch element: the channel-wise
      product at each selected pair. */
  function Products(w: seq<seq<Vec>>, z: seq<Vec>, n: nat, m: nat, k: nat): (p: seq<Vec>)
    requires Shaped(w, z, n, m, k) && 0 < m && n <= m
    ensures |p| == n * (m - 1) && forall s :: 0 <= s < |p| ==> |p[s]| == k
  {
    var sel := Selected(n, m);
    seq(n * (m - 1), s requires 0 <= s < n * (m - 1) =>
      seq(k, c requires 0 <= c < k => w[sel[s].0][sel[s].1][c] * z[sel[s].1][c]))
  }

  lemma BlockIndex(i: nat, t: nat, n: nat, d: nat)
    requires i < n && t < d
    ensures i * d + t < n * d
  {
    assert i * d + t < (i + 1) * d <= n * d;
  }

  /** Channel `c` of each vector of `q`. */
  function Column(q: seq<Vec>, c: nat): (col: seq<real>)
    requires forall t :: 0 <= t < |q| ==> c < |q[t]|
    ensures |col| == |q|
  {
    seq(|q|, t requires 0 <= t < |q| => q[t][c])
  }

  /** Cut `p` into `n` consecutive blocks of `d` vectors and add each block up
      channel by channel. */
  function BlockSums(p: seq<Vec>, n: nat, d: nat, k: nat): (r: seq<Vec>)
    requires |p| == n * d && forall s :: 0 <= s < |p| ==> |p[s]| == k
    ensures |r| == n && forall i :: 0 <= i < n ==> |r[i]| == k
  {
    seq(n, i requires 0 <= i < n =>
      RowSlice(i, n, d);
      var block := p[i * d .. (i + 1) * d];
      seq(k, c requires 0 <= c < k => Sum(Column(block, c))))
  }

  /** The convolution as the code evidently intends it, with the views
      `(batch, n, m - 1, -1)` of `Ws.shape[:2]`: for electron `i` and channel
      `c`, the sum over the `m - 1` selected pairs of block `i`. `None` is a
      shape on which the views fail: fewer than two particles or more
      electrons than particles. */
  function SchnetConv(w: seq<seq<Vec>>, z: seq<Vec>, n: nat, m: nat, k: nat): (r: Option<seq<Vec>>)
    requires Shaped(w, z, n, m, k)
    ensures r.Some? <==> 2 <= m && n <= m
    ensures r.Some? ==> |r.value| == n && forall i :: 0 <= i < n ==> |r.value[i]| == k
  {
    if m < 2 || n > m then None
    else Some(BlockSums(Products(w, z, n, m, k), n, m - 1, k))
  }

  /** What electron `i` should gather on channel `c`: `w[i][j][c] * z[j][c]`
      for every particle `j` other than itself, in increasing order of `j`. */
  function Gathered(w: seq<seq<Vec>>, z: seq<Vec>, n: nat, m: nat, k: nat, i: nat, c: nat): (g: seq<real>)
    requires Shaped(w, z, n, m, k) && 2 <= m && i < n && c < k
    ensures |g| == m - 1
  {
    seq(m - 1, t requires 0 <= t < m - 1 => w[i][Other(i, t)][c] * z[Other(i, t)][c])
  }

  /** The intended result: electron `i` receives on channel `c` the sum of
      what it should gather, and nothing from its own pair `(i, i)`. */
  lemma SchnetConvExcludesSelf(w: seq<seq<Vec>>, z: seq<Vec>, n: nat, m: nat, k: nat, i: nat, c: nat)
    requires Shaped(w, z, n, m, k) && 2 <= m && n <= m && i < n && c < k
    ensures SchnetConv(w, z, n, m, k).value[i][c] == Sum(Gathered(w, z, n, m, k, i, c))
  {
    var d := m - 1;
    RowSlice(i, n, d);
    BlockColumn(w, z, n, m, k, i, c);
    assert SchnetConv(w, z, n, m, k).value[i][c] == Sum(Column(Products(w, z, n, m, k)[i * d .. (i + 1) * d], c));
  }

  /** Channel `c` of block `i` of the products is what electron `i` should
      gather. */
  lemma BlockColumn(w: seq<seq<Vec>>, z: seq<Vec>, n: nat, m: nat, k: nat, i: nat, c: nat)
    requires Shaped(w, z, n, m, k) && 2 <= m && n <= m && i < n && c < k
    ensures (i + 1) * (m - 1) <= n * (m - 1)
    ensures Column(Products(w, z, n, m, k)[i * (m - 1) .. (i + 1) * (m - 1)], c) == Gathered(w, z, n, m, k, i, c)
  {
    var d := m - 1;
    var p := Products(w, z, n, m, k);
    RowSlice(i, n, d);
    var block := p[i * d .. (i + 1) * d];
    var g := Gathered(w, z, n, m, k, i, c);
    forall t | 0 <= t < d ensures Column(block, c)[t] == g[t] {
      ProductsEntry(w, z, n, m, k, i, t, c);
      assert block[t] == p[i * d + t];
    }
  }

  /** Entry `t` of block `i` of the products pairs electron `i` with the
      `t`-th particle other than itself. */
  lemma ProductsEntry(w: seq<seq<Vec>>, z: seq<Vec>, n: nat, m: nat, k: nat, i: nat, t: nat, c: nat)
    requires Shaped(w, z, n, m, k) && 2 <= m && n <= m && i < n && t < m - 1 && c < k
    ensures i * (m - 1) + t < n * (m - 1)
    ensures Products(w, z, n, m, k)[i * (m - 1) + t][c] == w[i][Other(i, t)][c] * z[Other(i, t)][c]
  {
    BlockIndex(i, t, n, m - 1);
    SelectedPairs(n, m, i, t);
  }

  /** Memory order of a tensor of channel vectors. */
  function Flatten(p: seq<Vec>): (f: seq<real>)
  {
    if p == [] then [] else Flatten(p[..|p| - 1]) + p[|p| - 1]
  }

  lemma {:induction false} FlattenLength(p: seq<Vec>, k: nat)
    requires forall s :: 0 <= s < |p| ==> |p[s]| == k
    ensures |Flatten(p)| == |p| * k
  {
    if p != [] {
      FlattenLength(p[..|p| - 1], k);
      assert (|p| - 1) * k + k == |p| * k;
    }
  }

  lemma Regroup(n: nat, d: nat, k: nat)
    ensures (n * d) * k == d * (n * k)
  {
  }

  lemma RowSlice(row: nat, rows: nat, width: nat)
    requires row < rows
    ensures (row + 1) * width <= rows * width
  {
  }

  /** The sums of the consecutive rows of width `width` of `flat`. */
  function RowSums(flat: seq<real>, rows: nat, width: nat): (r: seq<real>)
    requires |flat| == rows * width
    ensures |r| == rows
  {
    seq(rows, row requires 0 <= row < rows =>
      RowSlice(row, rows, width);
      Sum(flat[row * width .. (row + 1) * width]))
  }

  /** The products of one batch element in memory order: `n (m - 1) k`
      numbers, that is `m - 1` rows of `n k`. */
  lemma FlatProductsLength(w: seq<seq<Vec>>, z: seq<Vec>, n: nat, m: nat, k: nat)
    requires Shaped(w, z, n, m, k) && 0 < m && n <= m
    ensures |Flatten(Products(w, z, n, m, k))| == (m - 1) * (n * k)
  {
    FlattenLength(Products(w, z, n, m, k), k);
    Regroup(n, m - 1, k);
  }

  /** The electrons whose pairs `i[:n (m - 1)]` keeps: all of them when there
      are no more electrons than particles; otherwise the slice runs past
      the `m (m - 1)` off-diagonal pairs and keeps them all, which are the
      pairs of the first `m` electrons. */
  function KeptElectrons(n: nat, m: nat): (e: nat)
    ensures e <= n && e <= m && (e == n || e == m)
  {
    if n <= m then n else m
  }

  /** The first `e` electrons' kernels, with the features, are shaped for `e`. */
  lemma ShapedPrefix(w: seq<seq<Vec>>, z: seq<Vec>, n: nat, m: nat, k: nat, e: nat)
    requires Shaped(w, z, n, m, k) && e <= n
    ensures Shaped(w[..e], z, e, m, k)
  {
    assert forall i :: 0 <= i < e ==> w[..e][i] == w[i];
  }

  /** `schnet_conv` as written: the views `(batch, m - 1, -1)` of
      `Ws.shape[:1]` lay the products of the kept pairs of one batch element
      out in memory order as `m - 1` rows, and the sum over the last axis
      adds each row up: one number per row, mixing electrons and channels.
      The views fail only when `m - 1` is not positive: with `m == 1` the
      inferred size of an empty tensor is ambiguous, and with `m == 0` two
      sizes would be inferred. With no channels every row is empty and sums
      to zero. */
  function SchnetConvAsWritten(w: seq<seq<Vec>>, z: seq<Vec>, n: nat, m: nat, k: nat): (r: Option<seq<real>>)
    requires Shaped(w, z, n, m, k)
    ensures r.Some? <==> 2 <= m
    ensures r.Some? ==> |r.value| == m - 1
  {
    if m < 2 then None
    else
      var e := KeptElectrons(n, m);
      ShapedPrefix(w, z, n, m, k, e);
      FlatProductsLength(w[..e], z, e, m, k);
      Some(RowSums(Flatten(Products(w[..e], z, e, m, k)), m - 1, e * k))
  }

  /** With more electrons than particles the code as written reads only the
      pairs of the first `m` electrons. */
  lemma SchnetConvAsWrittenBeyondParticles(w: seq<seq<Vec>>, z: seq<Vec>, n: nat, m: nat, k: nat)
    requires Shaped(w, z, n, m, k) && m < n
    ensures Shaped(w[..m], z, m, m, k)
    ensures SchnetConvAsWritten(w, z, n, m, k) == SchnetConvAsWritten(w[..m], z, m, m, k)
  {
    ShapedPrefix(w, z, n, m, k, m);
    assert w[..m][..m] == w[..m];
  }

  /** With no channels the code as written yields `m - 1` zeros. */
  lemma SchnetConvAsWrittenNoChannels(w: seq<seq<Vec>>, z: seq<Vec>, n: nat, m: nat)
    requires Shaped(w, z, n, m, 0) && 2 <= m
    ensures forall row :: 0 <= row < m - 1 ==> SchnetConvAsWritten(w, z, n, m, 0).value[row] == 0.0
  {
    var e := KeptElectrons(n, m);
    ShapedPrefix(w, z, n, m, 0, e);
    FlatProductsLength(w[..e], z, e, m, 0);
    forall row | 0 <= row < m - 1
      ensures SchnetConvAsWritten(w, z, n, m, 0).value[row] == 0.0
    {
      var flat := Flatten(Products(w[..e], z, e, m, 0));
      assert flat[row * 0 .. (row + 1) * 0] == [];
    }
  }

  /** The products at the two selected pairs of the example below. */
  lemma ExampleProducts(w: seq<seq<Vec>>, z: seq<Vec>)
    requires w == [[[0.0], [2.0]], [[3.0], [0.0]]] && z == [[1.0], [1.0]]
    ensures Shaped(w, z, 2, 2, 1) && Products(w, z, 2, 2, 1) == [[2.0], [3.0]]
  {
    assert Shaped(w, z, 2, 2, 1);
    SelectedPairs(2, 2, 0, 0);
    SelectedPairs(2, 2, 1, 0);
    var p := Products(w, z, 2, 2, 1);
    assert Selected(2, 2)[0] == (0, 1) && Selected(2, 2)[1] == (1, 0);
    assert p[0] == [2.0] && p[1] == [3.0];
  }

  /** The example below, as the code is evidently meant: electron 0
      receives `2 * 1` and electron 1 receives `3 * 1`. */
  lemma ExampleIntended(w: seq<seq<Vec>>, z: seq<Vec>)
    requires w == [[[0.0], [2.0]], [[3.0], [0.0]]] && z == [[1.0], [1.0]]
    ensures Shaped(w, z, 2, 2, 1) && SchnetConv(w, z, 2, 2, 1) == Some([[2.0], [3.0]])
  {
    assert Shaped(w, z, 2, 2, 1);
    var sc := SchnetConv(w, z, 2, 2, 1).value;
    SchnetConvExcludesSelf(w, z, 2, 2, 1, 0, 0);
    SchnetConvExcludesSelf(w, z, 2, 2, 1, 1, 0);
    assert Gathered(w, z, 2, 2, 1, 0, 0) == [2.0];
    assert Gathered(w, z, 2, 2, 1, 1, 0) == [3.0];
    assert Sum([2.0]) == 2.0 && Sum([3.0]) == 3.0;
    assert sc[0] == [2.0] && sc[1] == [3.0];
    assert sc == [[2.0], [3.0]];
  }

  /** The example below, as the code is written: one number, `2 + 3`. */
  lemma ExampleAsWritten(w: seq<seq<Vec>>, z: seq<Vec>)
    requires w == [[[0.0], [2.0]], [[3.0], [0.0]]] && z == [[1.0], [1.0]]
    ensures Shaped(w, z, 2, 2, 1) && SchnetConvAsWritten(w, z, 2, 2, 1) == Some([5.0])
  {
    ExampleProducts(w, z);
    assert w[..KeptElectrons(2, 2)] == w;
    var p := Products(w, z, 2, 2, 1);
    FlattenLength(p, 1);
    assert Flatten(p) == [2.0, 3.0] by {
      assert p[..1] == [[2.0]];
      assert p[..1][..0] == [];
    }
    assert Sum([2.0, 3.0]) == 5.0 by {
      assert [2.0, 3.0][..1] == [2.0];
    }
    assert Flatten(p)[0 * (2 * 1) .. (0 + 1) * (2 * 1)] == [2.0, 3.0];
    var r := SchnetConvAsWritten(w, z, 2, 2, 1).value;
    assert r == RowSums(Flatten(p), 1, 2);
    assert r[0] == Sum(Flatten(p)[0 * 2 .. (0 + 1) * 2]);
    assert r == [5.0];
  }

  /** Two electrons and two particles with one channel: electron 0 receives
      `2 * 1` and electron 1 receives `3 * 1`, but the code as written
      returns the single number `5`. */
  lemma SchnetConvAsWrittenMixesElectrons(w: seq<seq<Vec>>, z: seq<Vec>)
    requires w == [[[0.0], [2.0]], [[3.0], [0.0]]] && z == [[1.0], [1.0]]
    ensures Shaped(w, z, 2, 2, 1)
    ensures SchnetConv(w, z, 2, 2, 1) == Some([[2.0], [3.0]])
    ensures SchnetConvAsWritten(w, z, 2, 2, 1) == Some([5.0])
  {
    ExampleIntended(w, z);
    ExampleAsWritten(w, z);
  }
}

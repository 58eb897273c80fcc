/** Array, index and string helpers of `src/dlqmc/utils.py`: the masked merge
    behind the sampler's accept/reject step, the row-major index selections
    used by the networks, key selection from dictionaries, integer powers,
    one-dimensional displacement of a walker, and weighted statistics. */
module Utils {
  import opened Wrappers
  import opened Numerics

  // ---------------------------------------------------------------------
  // assign_where: masked in-place merge
  // ---------------------------------------------------------------------

  /** The value `x[where] = y[where]` leaves in `x`: the mask picks `y`'s entry. */
  function Merge<T>(x: seq<T>, y: seq<T>, mask: seq<bool>): (r: seq<T>)
    requires |x| == |y| == |mask|
    ensures |r| == |x|
    ensures forall k :: 0 <= k < |x| ==> r[k] == (if mask[k] then y[k] else x[k])
  {
    seq(|x|, k requires 0 <= k < |x| => if mask[k] then y[k] else x[k])
  }

  /** Merging twice with the same mask changes nothing more. */
  lemma MergeIdempotent<T>(x: seq<T>, y: seq<T>, mask: seq<bool>)
    requires |x| == |y| == |mask|
    ensures Merge(Merge(x, y, mask), y, mask) == Merge(x, y, mask)
  {
  }

  /** An all-true mask takes `y` whole, an all-false mask keeps `x` whole. */
  lemma MergeExtremes<T>(x: seq<T>, y: seq<T>, mask: seq<bool>)
    requires |x| == |y| == |mask|
    ensures (forall k :: 0 <= k < |mask| ==> mask[k]) ==> Merge(x, y, mask) == y
    ensures (forall k :: 0 <= k < |mask| ==> !mask[k]) ==> Merge(x, y, mask) == x
  {
  }

  /** `x[where] = y[where]` for one tensor: a masked write into `x`. */
  method MaskedAssign<T>(x: array<T>, y: seq<T>, mask: seq<bool>)
    requires x.Length == |y| == |mask|
    modifies x
    ensures x[..] == Merge(old(x[..]), y, mask)
  {
    forall k | 0 <= k < x.Length && mask[k] {
      x[k] := y[k];
    }
  }

  /** `assign_where(xs, ys, where)`: the same mask applied to every pair of
      `zip(xs, ys)`; targets beyond the shorter list are left alone. */
  method AssignWhere<T>(xs: seq<array<T>>, ys: seq<seq<T>>, mask: seq<bool>)
    requires forall p, q :: 0 <= p < q < |xs| ==> xs[p] != xs[q]
    requires forall p :: 0 <= p < |xs| && p < |ys| ==> xs[p].Length == |ys[p]| == |mask|
    modifies set p | 0 <= p < |xs| :: xs[p]
    ensures forall p :: 0 <= p < |xs| ==>
      xs[p][..] == if p < |ys| then Merge(old(xs[p][..]), ys[p], mask) else old(xs[p][..])
  {
    var p := 0;
    while p < |xs| && p < |ys|
      invariant 0 <= p <= |xs| && p <= |ys|
      invariant forall q :: 0 <= q < p ==> xs[q][..] == Merge(old(xs[q][..]), ys[q], mask)
      invariant forall q :: p <= q < |xs| ==> xs[q][..] == old(xs[q][..])
    {
      MaskedAssign(xs[p], ys[p], mask);
      p := p + 1;
    }
  }

  // ---------------------------------------------------------------------
  // Row-major index selection: `nonzero` of a boolean mask matrix
  // ---------------------------------------------------------------------

  /** Positions `(i, j)` with `row[j]` true, for `j` from `j0` on, in order. */
  function RowPositions(row: seq<bool>, i: nat, j0: nat): seq<(nat, nat)>
    decreases |row| - j0
  {
    if j0 >= |row| then []
    else (if row[j0] then [(i, j0)] else []) + RowPositions(row, i, j0 + 1)
  }

  /** `mask[i0:i1].nonzero()` in row-major order, with row indices of `mask`. */
  function Nonzero(mask: seq<seq<bool>>, i0: nat, i1: nat): seq<(nat, nat)>
    requires i1 <= |mask|
    decreases i1 - i0
  {
    if i0 >= i1 then [] else RowPositions(mask[i0], i0, 0) + Nonzero(mask, i0 + 1, i1)
  }

  /** Row-major (lexicographic) order of index pairs. */
  predicate RowMajorBefore(p: (nat, nat), q: (nat, nat))
  {
    p.0 < q.0 || (p.0 == q.0 && p.1 < q.1)
  }

  predicate StrictlyRowMajor(s: seq<(nat, nat)>)
  {
    forall a, b :: 0 <= a < b < |s| ==> RowMajorBefore(s[a], s[b])
  }

  function CountFrom(row: seq<bool>, j0: nat): nat
    decreases |row| - j0
  {
    if j0 >= |row| then 0 else (if row[j0] then 1 else 0) + CountFrom(row, j0 + 1)
  }

  lemma {:induction false} RowPositionsFacts(row: seq<bool>, i: nat, j0: nat)
    ensures forall p: (nat, nat) :: p in RowPositions(row, i, j0) <==> p.0 == i && j0 <= p.1 < |row| && row[p.1]
    ensures StrictlyRowMajor(RowPositions(row, i, j0))
    ensures |RowPositions(row, i, j0)| == CountFrom(row, j0)
    decreases |row| - j0
  {
    if j0 < |row| {
      RowPositionsFacts(row, i, j0 + 1);
    }
  }

  /** The selected positions are exactly the true entries of the rows
      `i0 .. i1 - 1`, listed strictly in row-major order. */
  lemma {:induction false} NonzeroFacts(mask: seq<seq<bool>>, i0: nat, i1: nat)
    requires i1 <= |mask|
    ensures forall p: (nat, nat) :: p in Nonzero(mask, i0, i1) <==>
      i0 <= p.0 < i1 && p.1 < |mask[p.0]| && mask[p.0][p.1]
    ensures StrictlyRowMajor(Nonzero(mask, i0, i1))
    decreases i1 - i0
  {
    if i0 < i1 {
      RowPositionsFacts(mask[i0], i0, 0);
      NonzeroFacts(mask, i0 + 1, i1);
      var r, t := RowPositions(mask[i0], i0, 0), Nonzero(mask, i0 + 1, i1);
      forall a, b | 0 <= a < b < |r + t| ensures RowMajorBefore((r + t)[a], (r + t)[b]) {
        if b >= |r| && a < |r| {
          assert r[a] in r;
          assert t[b - |r|] in t;
        }
      }
    }
  }

  /** Selecting rows `i0 .. i1` is row `i0`, then rows `i0 + 1 .. i1`. */
  lemma NonzeroUnfold(mask: seq<seq<bool>>, i0: nat, i1: nat)
    requires i0 < i1 <= |mask|
    ensures Nonzero(mask, i0, i1) == RowPositions(mask[i0], i0, 0) + Nonzero(mask, i0 + 1, i1)
  {
  }

  /** Selecting rows `i0 .. i2` is selecting `i0 .. i1` and then `i1 .. i2`. */
  lemma {:induction false} NonzeroSplit(mask: seq<seq<bool>>, i0: nat, i1: nat, i2: nat)
    requires i0 <= i1 <= i2 <= |mask|
    ensures Nonzero(mask, i0, i2) == Nonzero(mask, i0, i1) + Nonzero(mask, i1, i2)
    decreases i1 - i0
  {
    if i0 < i1 {
      NonzeroSplit(mask, i0 + 1, i1, i2);
    }
  }

  /** When every row of the selection has `w` true entries, `w` per row are selected. */
  lemma {:induction false} NonzeroLength(mask: seq<seq<bool>>, i0: nat, i1: nat, w: nat)
    requires i0 <= i1 <= |mask|
    requires forall i :: i0 <= i < i1 ==> CountFrom(mask[i], 0) == w
    ensures |Nonzero(mask, i0, i1)| == (i1 - i0) * w
    decreases i1 - i0
  {
    if i0 < i1 {
      RowPositionsFacts(mask[i0], i0, 0);
      NonzeroLength(mask, i0 + 1, i1, w);
      calc {
        |Nonzero(mask, i0, i1)|;
        w + (i1 - (i0 + 1)) * w;
        { assert (i1 - (i0 + 1)) * w + w == (i1 - i0) * w; }
        (i1 - i0) * w;
      }
    }
  }

  // ---------------------------------------------------------------------
  // triu_flat: strictly upper triangle, `np.triu_indices(n, k=1)`
  // ---------------------------------------------------------------------

  /** `np.triu(ones((n, n)), k=1)` as a boolean mask. */
  function TriuMask(n: nat): seq<seq<bool>>
  {
    seq(n, i => seq(n, j => i < j))
  }

  /** `np.triu_indices(n, k=1)`, as a list of pairs. */
  function TriuIndices(n: nat): seq<(nat, nat)>
  {
    Nonzero(TriuMask(n), 0, n)
  }

  lemma {:induction false} TriuRowCount(n: nat, i: nat, j0: nat)
    requires i < n && j0 <= n
    ensures CountFrom(TriuMask(n)[i], j0) == if j0 <= i then n - i - 1 else n - j0
    decreases n - j0
  {
    if j0 < n {
      TriuRowCount(n, i, j0 + 1);
    }
  }

  lemma {:induction false} TriuLength(n: nat, i0: nat)
    requires i0 <= n
    ensures |Nonzero(TriuMask(n), i0, n)| * 2 == (n - i0) * (n - i0 - 1)
    decreases n - i0
  {
    if i0 < n {
      RowPositionsFacts(TriuMask(n)[i0], i0, 0);
      TriuRowCount(n, i0, 0);
      TriuLength(n, i0 + 1);
    }
  }

  /** `np.triu_indices(n, k=1)` lists exactly the pairs `i < j < n`, in
      row-major order, `n (n - 1) / 2` of them. */
  lemma TriuIndicesCorrect(n: nat)
    ensures forall p: (nat, nat) :: p in TriuIndices(n) <==> p.0 < p.1 < n
    ensures StrictlyRowMajor(TriuIndices(n))
    ensures |TriuIndices(n)| == n * (n - 1) / 2
  {
    NonzeroFacts(TriuMask(n), 0, n);
    TriuLength(n, 0);
  }

  /** A matrix of `r` rows of `c` entries each (one batch element of a tensor). */
  predicate Rect<T>(m: seq<seq<T>>, r: nat, c: nat)
  {
    |m| == r && forall i :: 0 <= i < r ==> |m[i]| == c
  }

  /** `triu_flat(x) = x[:, i, j, ...]` for the strict upper triangle of
      `x.shape[1]`; `None` is the index error raised when some column index
      `j < x.shape[1]` of the triangle is not below `x.shape[2]`. With fewer
      than two rows the triangle is empty and nothing is indexed. */
  function TriuFlat<T>(x: seq<seq<seq<T>>>, rows: nat, cols: nat): (r: Option<seq<seq<T>>>)
    requires forall b :: 0 <= b < |x| ==> Rect(x[b], rows, cols)
    ensures r.Some? <==> rows < 2 || rows <= cols
    ensures r.Some? ==> |r.value| == |x| && forall b :: 0 <= b < |x| ==>
      |r.value[b]| == |TriuIndices(rows)| &&
      forall t :: 0 <= t < |TriuIndices(rows)| ==>
        Rect(x[b], rows, cols) && TriuIndices(rows)[t].0 < TriuIndices(rows)[t].1 < rows &&
        r.value[b][t] == x[b][TriuIndices(rows)[t].0][TriuIndices(rows)[t].1]
  {
    var idx := TriuIndices(rows);
    TriuIndicesInRange(rows);
    if rows >= 2 && rows > cols then None
    else
      TriuIndicesCorrect(rows);
      assert rows < 2 ==> |idx| == 0;
      Some(seq(|x|, b requires 0 <= b < |x| =>
        seq(|idx|, t requires 0 <= t < |idx| =>
          assert Rect(x[b], rows, cols); x[b][idx[t].0][idx[t].1])))
  }

  /** A single row has no pair, so even with no columns the selection is
      empty rather than an index error. */
  lemma TriuFlatSingleRow<T>(x: seq<seq<seq<T>>>)
    requires forall b :: 0 <= b < |x| ==> Rect(x[b], 1, 0)
    ensures TriuFlat(x, 1, 0).Some? && |TriuFlat(x, 1, 0).value| == |x|
    ensures forall b :: 0 <= b < |x| ==> TriuFlat(x, 1, 0).value[b] == []
  {
    TriuIndicesCorrect(1);
    assert |TriuIndices(1)| == 0;
  }

  lemma TriuIndicesInRange(n: nat)
    ensures forall t :: 0 <= t < |TriuIndices(n)| ==> TriuIndices(n)[t].0 < TriuIndices(n)[t].1 < n
  {
    TriuIndicesCorrect(n);
    forall t | 0 <= t < |TriuIndices(n)| ensures TriuIndices(n)[t].0 < TriuIndices(n)[t].1 < n {
      assert TriuIndices(n)[t] in TriuIndices(n);
    }
  }

  // ---------------------------------------------------------------------
  // nondiag and `np.mask_indices(n, nondiag)`
  // ---------------------------------------------------------------------

  /** The matrix `nondiag(A)` returns: `A` with its diagonal set to zero. */
  function NonDiagOf(a: seq<seq<real>>): (r: seq<seq<real>>)
    ensures |r| == |a| && forall i :: 0 <= i < |a| ==> |r[i]| == |a[i]|
  {
    seq(|a|, i requires 0 <= i < |a| =>
      seq(|a[i]|, j requires 0 <= j < |a[i]| => if i == j then 0.0 else a[i][j]))
  }

  /** The entries of a two-dimensional array, row by row. */
  function Rows(a: array2<real>): (r: seq<seq<real>>)
    reads a
    ensures Rect(r, a.Length0, a.Length1)
  {
    seq(a.Length0, i requires 0 <= i < a.Length0 reads a =>
      seq(a.Length1, j requires 0 <= j < a.Length1 reads a => a[i, j]))
  }

  /** `nondiag(A)`: copies `A`, fills the copy's diagonal with zero and
      returns it; `A` itself is not modified. */
  method NonDiag(a: array2<real>) returns (b: array2<real>)
    ensures fresh(b)
    ensures Rows(b) == NonDiagOf(Rows(a))
  {
    b := new real[a.Length0, a.Length1];
    forall i, j | 0 <= i < a.Length0 && 0 <= j < a.Length1 {
      b[i, j] := a[i, j];
    }
    forall i | 0 <= i < a.Length0 && i < a.Length1 {
      b[i, i] := 0.0;
    }
    forall i | 0 <= i < a.Length0 ensures Rows(b)[i] == NonDiagOf(Rows(a))[i] {
    }
  }

  /** `np.ones((n, n))`. */
  function Ones(n: nat): seq<seq<real>>
  {
    seq(n, i => seq(n, j => 1.0))
  }

  /** `np.mask_indices(n, nondiag)`: the non-zero positions of `nondiag(ones((n, n)))`. */
  function OffDiagIndices(n: nat): seq<(nat, nat)>
  {
    var m := NonDiagOf(Ones(n));
    Nonzero(seq(n, i requires 0 <= i < n => seq(n, j requires 0 <= j < n => m[i][j] != 0.0)), 0, n)
  }

  function OffDiagMask(n: nat): seq<seq<bool>>
  {
    seq(n, i => seq(n, j => i != j))
  }

  lemma OffDiagIndicesByMask(n: nat)
    ensures OffDiagIndices(n) == Nonzero(OffDiagMask(n), 0, n)
  {
    var m := NonDiagOf(Ones(n));
    var bm := seq(n, i requires 0 <= i < n => seq(n, j requires 0 <= j < n => m[i][j] != 0.0));
    forall i | 0 <= i < n ensures bm[i] == OffDiagMask(n)[i] {
    }
    assert bm == OffDiagMask(n);
  }

  lemma {:induction false} OffDiagRowCount(n: nat, i: nat, j0: nat)
    requires i < n && j0 <= n
    ensures CountFrom(OffDiagMask(n)[i], j0) == if j0 <= i then n - j0 - 1 else n - j0
    decreases n - j0
  {
    if j0 < n {
      OffDiagRowCount(n, i, j0 + 1);
    }
  }

  /** Row `i < r` of the off-diagonal mask has `n - 1` true entries, so the
      first `r` rows select `r (n - 1)` positions. */
  lemma OffDiagRowsLength(n: nat, r: nat)
    requires 0 < n && r <= n
    ensures |Nonzero(OffDiagMask(n), 0, r)| == r * (n - 1)
  {
    forall i | 0 <= i < n ensures CountFrom(OffDiagMask(n)[i], 0) == n - 1 {
      OffDiagRowCount(n, i, 0);
    }
    NonzeroLength(OffDiagMask(n), 0, r, n - 1);
  }

  /** The first `r (n - 1)` selected positions of the off-diagonal mask are
      exactly the off-diagonal pairs of its first `r` rows. */
  lemma OffDiagPrefix(n: nat, r: nat)
    requires 0 < n && r <= n
    ensures |Nonzero(OffDiagMask(n), 0, n)| == n * (n - 1)
    ensures r * (n - 1) <= n * (n - 1)
    ensures forall p: (nat, nat) :: p in Nonzero(OffDiagMask(n), 0, n)[..r * (n - 1)] <==> p.0 < r && p.1 < n && p.0 != p.1
  {
    var mask := OffDiagMask(n);
    OffDiagRowsLength(n, n);
    OffDiagRowsLength(n, r);
    NonzeroSplit(mask, 0, r, n);
    NonzeroFacts(mask, 0, r);
    var pre, suf := Nonzero(mask, 0, r), Nonzero(mask, r, n);
    assert (pre + suf)[..|pre|] == pre;
    assert Nonzero(mask, 0, n)[..r * (n - 1)] == pre;
  }

  /** `np.mask_indices(n, nondiag)` lists exactly the pairs `i != j` below `n`,
      in row-major order, `n (n - 1)` of them; its first `r (n - 1)` entries
      (for `r <= n`) are exactly the off-diagonal pairs of the first `r` rows. */
  lemma OffDiagIndicesCorrect(n: nat, r: nat)
    requires r <= n
    ensures forall p: (nat, nat) :: p in OffDiagIndices(n) <==> p.0 < n && p.1 < n && p.0 != p.1
    ensures StrictlyRowMajor(OffDiagIndices(n))
    ensures |OffDiagIndices(n)| == n * (n - 1)
    ensures r * (n - 1) <= |OffDiagIndices(n)|
    ensures forall p: (nat, nat) :: p in OffDiagIndices(n)[..r * (n - 1)] <==> p.0 < r && p.1 < n && p.0 != p.1
  {
    OffDiagIndicesByMask(n);
    NonzeroFacts(OffDiagMask(n), 0, n);
    if n == 0 {
      assert r == 0 && r * (n - 1) == 0;
      assert OffDiagIndices(n)[..r * (n - 1)] == [];
    } else {
      OffDiagPrefix(n, r);
    }
  }

  // ---------------------------------------------------------------------
  // dctsel and Python's whitespace split
  // ---------------------------------------------------------------------

  /** Python's `str.isspace` for one character. */
  predicate IsSpace(c: char)
  {
    var n := c as int;
    (9 <= n <= 13) || (28 <= n <= 32) || n == 0x85 || n == 0xA0 || n == 0x1680 ||
    (0x2000 <= n <= 0x200A) || n == 0x2028 || n == 0x2029 || n == 0x202F ||
    n == 0x205F || n == 0x3000
  }

  predicate NoSpace(w: string)
  {
    forall k :: 0 <= k < |w| ==> !IsSpace(w[k])
  }

  function DropSpace(s: string): (t: string)
    ensures |t| <= |s| && (t != [] ==> !IsSpace(t[0]))
  {
    if s != [] && IsSpace(s[0]) then DropSpace(s[1..]) else s
  }

  /** The longest prefix of `s` without whitespace. */
  function TakeWord(s: string): (w: string)
    ensures |w| <= |s| && w == s[..|w|] && NoSpace(w)
    ensures |w| < |s| ==> IsSpace(s[|w|])
  {
    if s == [] || IsSpace(s[0]) then [] else [s[0]] + TakeWord(s[1..])
  }

  /** `s.split()`: the maximal runs of non-whitespace characters, in order. */
  function Words(s: string): (ws: seq<string>)
    ensures forall k :: 0 <= k < |ws| ==> ws[k] != [] && NoSpace(ws[k])
    decreases |s|
  {
    var t := DropSpace(s);
    if t == [] then []
    else
      var w := TakeWord(t);
      [w] + Words(t[|w|..])
  }

  /** `' '.join(ws)`. */
  function JoinSpace(ws: seq<string>): string
  {
    if ws == [] then "" else if |ws| == 1 then ws[0] else ws[0] + " " + JoinSpace(ws[1..])
  }

  lemma {:induction false} TakeWordOfJoin(w: string, rest: string)
    requires NoSpace(w) && (rest == [] || IsSpace(rest[0]))
    ensures TakeWord(w + rest) == w
  {
    if w != [] {
      assert (w + rest)[1..] == w[1..] + rest;
      TakeWordOfJoin(w[1..], rest);
    }
  }

  /** Splitting words joined by single spaces gives the words back, for words
      that are non-empty and hold no whitespace. */
  lemma {:induction false} WordsOfJoin(ws: seq<string>)
    requires forall k :: 0 <= k < |ws| ==> ws[k] != [] && NoSpace(ws[k])
    ensures Words(JoinSpace(ws)) == ws
  {
    if ws == [] {
    } else if |ws| == 1 {
      TakeWordOfJoin(ws[0], "");
      assert ws[0] + "" == ws[0];
      assert ws[0][|ws[0]|..] == "";
    } else {
      var s := JoinSpace(ws);
      var rest := " " + JoinSpace(ws[1..]);
      assert s == ws[0] + rest;
      TakeWordOfJoin(ws[0], rest);
      assert s[|ws[0]|..] == rest;
      assert DropSpace(rest) == DropSpace(JoinSpace(ws[1..]));
      WordsOfJoin(ws[1..]);
      calc {
        Words(rest);
        { WordsAfterSpace(JoinSpace(ws[1..])); }
        Words(JoinSpace(ws[1..]));
      }
    }
  }

  lemma WordsAfterSpace(s: string)
    ensures Words(" " + s) == Words(s)
  {
    assert (" " + s)[1..] == s;
  }

  /** The key list `dctsel` uses: a string is split on whitespace. */
  datatype Keys = Text(s: string) | KeyList(ks: seq<string>)

  function KeySeq(keys: Keys): seq<string>
  {
    match keys
    case Text(s) => Words(s)
    case KeyList(ks) => ks
  }

  /** `dctsel(dct, keys)`: exactly the requested keys present in `dct`, with
      `dct`'s values; requested keys that are missing are skipped. */
  function DctSel<V>(dct: map<string, V>, keys: Keys): (r: map<string, V>)
    ensures forall k :: k in r <==> k in dct && k in KeySeq(keys)
    ensures forall k :: k in r ==> r[k] == dct[k]
  {
    var ks := KeySeq(keys);
    map k | k in ks && k in dct :: dct[k]
  }

  /** A whitespace-separated key string selects what the list of its words selects. */
  lemma DctSelTextIsList<V>(dct: map<string, V>, ws: seq<string>)
    requires forall k :: 0 <= k < |ws| ==> ws[k] != [] && NoSpace(ws[k])
    ensures DctSel(dct, Text(JoinSpace(ws))) == DctSel(dct, KeyList(ws))
  {
    WordsOfJoin(ws);
  }

  /** Selecting again with the same keys changes nothing. */
  lemma DctSelIdempotent<V>(dct: map<string, V>, keys: Keys)
    ensures DctSel(DctSel(dct, keys), keys) == DctSel(dct, keys)
  {
  }

  // ---------------------------------------------------------------------
  // pow_int: integer powers, one unique exponent at a time
  // ---------------------------------------------------------------------

  /** A non-empty set has an element (a witness for choosing from it). */
  lemma NonEmptyHasElement(s: set<int>)
    requires s != {}
    ensures exists e :: e in s
  {
    if forall e :: e !in s {
      assert false;
    }
  }

  /** `pow_int(xs, exps)` for one batch row (`xs` already expanded to the
      shape of `exps`); `power(x, e)` is the tensor power `x ** e`. The
      output starts as zeros and each unique exponent writes the positions
      it masks. Every position ends up written exactly once, with the power
      for its own exponent, whatever order the unique exponents come in. */
  method PowInt(xs: seq<real>, exps: seq<int>, power: (real, int) -> real)
    returns (zs: seq<real>, ghost writes: seq<nat>)
    requires |xs| == |exps|
    ensures |zs| == |exps| && forall k :: 0 <= k < |exps| ==> zs[k] == power(xs[k], exps[k])
    ensures |writes| == |exps| && forall k :: 0 <= k < |exps| ==> writes[k] == 1
  {
    var n := |exps|;
    var z := new real[n](_ => 0.0);
    writes := seq(n, _ => 0);
    var remaining := set k | 0 <= k < n :: exps[k];
    ghost var done: set<int> := {};
    while remaining != {}
      invariant |writes| == n
      invariant remaining !! done
      invariant forall k :: 0 <= k < n ==> exps[k] in remaining || exps[k] in done
      invariant forall k :: 0 <= k < n && exps[k] in done ==> z[k] == power(xs[k], exps[k]) && writes[k] == 1
      invariant forall k :: 0 <= k < n && exps[k] !in done ==> z[k] == 0.0 && writes[k] == 0
      decreases remaining
    {
      NonEmptyHasElement(remaining);
      var e: int :| e in remaining;
      forall k | 0 <= k < n && exps[k] == e {
        z[k] := power(xs[k], e);
      }
      writes := seq(n, k requires 0 <= k < n => if exps[k] == e then writes[k] + 1 else writes[k]);
      remaining, done := remaining - {e}, done + {e};
    }
    zs := z[..];
  }

  // ---------------------------------------------------------------------
  // expand_1d: displace one coordinate of copies of a configuration
  // ---------------------------------------------------------------------

  /** Python's normalisation of a possibly negative index into a dimension of length `n`. */
  function PyIndex(k: int, n: nat): (r: Option<nat>)
    ensures r.Some? <==> -(n as int) <= k < n
    ensures r.Some? ==> r.value < n && (r.value == k || r.value == k + n)
  {
    if 0 <= k < n then Some(k) else if -(n as int) <= k < 0 then Some(k + n) else None
  }

  /** `expand_1d(r, x, k, i)`: `len(x)` copies of the configuration `r`, copy
      `m` with coordinate `[k, i]` displaced by `x[m]`; `None` is the index
      error for `k` or `i` out of range. */
  method Expand1d(r: seq<seq<real>>, x: seq<real>, k: int, i: int) returns (res: Option<seq<seq<seq<real>>>>)
    ensures res.Some? <==> PyIndex(k, |r|).Some? && PyIndex(i, |r[PyIndex(k, |r|).value]|).Some?
    ensures res.Some? ==>
      var kk := PyIndex(k, |r|).value;
      var ii := PyIndex(i, |r[kk]|).value;
      |res.value| == |x| &&
      forall m :: 0 <= m < |x| ==>
        |res.value[m]| == |r| &&
        (forall a :: 0 <= a < |r| ==> |res.value[m][a]| == |r[a]|) &&
        (forall a, c :: 0 <= a < |r| && 0 <= c < |r[a]| ==>
          res.value[m][a][c] == if a == kk && c == ii then r[a][c] + x[m] else r[a][c])
  {
    var ko := PyIndex(k, |r|);
    if ko.None? {
      return None;
    }
    var kk := ko.value;
    var io := PyIndex(i, |r[kk]|);
    if io.None? {
      return None;
    }
    var ii := io.value;
    var rs := new seq<seq<real>>[|x|](_ => r);
    forall m | 0 <= m < |x| {
      rs[m] := rs[m][kk := rs[m][kk][ii := rs[m][kk][ii] + x[m]]];
    }
    res := Some(rs[..]);
  }

  // ---------------------------------------------------------------------
  // normalize_mean and weighted_mean_var
  // ---------------------------------------------------------------------

  /** `normalize_mean(x) = x / x.mean()`; `None` stands for the non-finite
      result of an empty input or a zero mean. */
  function NormalizeMean(x: seq<real>): (r: Option<seq<real>>)
    ensures r.Some? <==> |x| > 0 && Mean(x) != 0.0
    ensures r.Some? ==> |r.value| == |x| && forall k :: 0 <= k < |x| ==> r.value[k] == x[k] / Mean(x)
  {
    if |x| == 0 || Mean(x) == 0.0 then None
    else Some(seq(|x|, k requires 0 <= k < |x| => x[k] / Mean(x)))
  }

  /** The normalised weights have mean one. */
  lemma NormalizedMeanIsOne(x: seq<real>)
    requires NormalizeMean(x).Some?
    ensures Mean(NormalizeMean(x).value) == 1.0
  {
    SumDivideByMean(x, NormalizeMean(x).value, x);
    MeanOfQuotient(NormalizeMean(x).value, x);
  }

  /** Dividing every entry by the mean of `ws` divides the sum by it. */
  lemma {:induction false} SumDivideByMean(s: seq<real>, t: seq<real>, ws: seq<real>)
    requires |s| == |t| && |ws| > 0 && Mean(ws) != 0.0
    requires forall k :: 0 <= k < |s| ==> t[k] == s[k] / Mean(ws)
    ensures Sum(t) == Sum(s) / Mean(ws)
  {
    if s != [] {
      SumDivideByMean(s[..|s| - 1], t[..|t| - 1], ws);
    }
  }

  /** A sequence summing to sum(x) / mean(x), of the length of `x`, has mean one. */
  lemma MeanOfQuotient(r: seq<real>, x: seq<real>)
    requires |r| == |x| > 0 && Mean(x) != 0.0 && Sum(r) == Sum(x) / Mean(x)
    ensures Mean(r) == 1.0
  {
    QuotientOne(Sum(r), Sum(x), Mean(x), |r| as real);
  }

  /** Real-arithmetic core of `MeanOfQuotient`. */
  lemma QuotientOne(sr: real, sx: real, m: real, n: real)
    requires n != 0.0 && m != 0.0 && m == sx / n && sr == sx / m
    ensures sr / n == 1.0
  {
    assert sx == m * n;
  }

  /** Entrywise product. */
  function Times(a: seq<real>, b: seq<real>): (r: seq<real>)
    requires |a| == |b|
    ensures |r| == |a| && forall k :: 0 <= k < |a| ==> r[k] == a[k] * b[k]
  {
    seq(|a|, k requires 0 <= k < |a| => a[k] * b[k])
  }

  /** Squared deviations from `m`. */
  function SquaredDeviations(xs: seq<real>, m: real): (r: seq<real>)
    ensures |r| == |xs| && forall k :: 0 <= k < |xs| ==> r[k] == (xs[k] - m) * (xs[k] - m)
  {
    seq(|xs|, k requires 0 <= k < |xs| => (xs[k] - m) * (xs[k] - m))
  }

  /** `weighted_mean_var(xs, ws)` for one-dimensional samples and weights of
      the same length: the weights are normalised to mean one, then the
      weighted mean and the weighted mean squared deviation are taken;
      `None` is the non-finite result of empty or zero-mean weights. */
  function WeightedMeanVar(xs: seq<real>, ws: seq<real>): (r: Option<(real, real)>)
    requires |xs| == |ws|
    ensures r.Some? <==> |ws| > 0 && Mean(ws) != 0.0
  {
    match NormalizeMean(ws)
    case None => None
    case Some(w) =>
      var mean := Mean(Times(w, xs));
      Some((mean, Mean(Times(w, SquaredDeviations(xs, mean)))))
  }

  /** The mean times the length is the sum. */
  lemma MeanTimesLength(s: seq<real>)
    requires |s| > 0
    ensures Mean(s) * (|s| as real) == Sum(s)
  {
  }

  /** The weighted mean is the weight-averaged sample, sum(ws xs) / sum(ws). */
  lemma WeightedMeanIsRatio(xs: seq<real>, ws: seq<real>)
    requires |xs| == |ws| && WeightedMeanVar(xs, ws).Some?
    ensures WeightedMeanVar(xs, ws).value.0 == Sum(Times(ws, xs)) / Sum(ws)
  {
    NormalizedRatio(xs, ws, NormalizeMean(ws).value);
  }

  /** With `w` the weights `ws` over their mean, the mean of `w xs` is sum(ws xs) / sum(ws). */
  lemma NormalizedRatio(xs: seq<real>, ws: seq<real>, w: seq<real>)
    requires |xs| == |ws| == |w| > 0 && Mean(ws) != 0.0
    requires forall k :: 0 <= k < |ws| ==> w[k] == ws[k] / Mean(ws)
    ensures Mean(Times(w, xs)) == Sum(Times(ws, xs)) / Sum(ws)
  {
    forall k | 0 <= k < |ws| ensures Times(w, xs)[k] == Times(ws, xs)[k] / Mean(ws) {
      NormalizedEntry(xs, ws, w, k);
    }
    SumDivideByMean(Times(ws, xs), Times(w, xs), ws);
    QuotientRatio(Sum(Times(w, xs)), Sum(Times(ws, xs)), Mean(ws), |ws| as real, Sum(ws));
  }

  /** One entry of `NormalizedRatio`: a normalised weighted sample is the raw one over the mean weight. */
  lemma NormalizedEntry(xs: seq<real>, ws: seq<real>, w: seq<real>, k: int)
    requires |xs| == |ws| == |w| > 0 && Mean(ws) != 0.0 && 0 <= k < |ws|
    requires w[k] == ws[k] / Mean(ws)
    ensures Times(w, xs)[k] == Times(ws, xs)[k] / Mean(ws)
  {
    DivideFactor(ws[k], xs[k], Mean(ws));
  }

  /** Real-arithmetic step: a factor divided by m, times q, is the product over m. */
  lemma DivideFactor(p: real, q: real, m: real)
    requires m != 0.0
    ensures (p / m) * q == (p * q) / m
  {
  }

  /** Real-arithmetic core of `NormalizedRatio`. */
  lemma QuotientRatio(sb: real, sa: real, m: real, n: real, sw: real)
    requires n != 0.0 && m != 0.0 && m == sw / n && sb == sa / m
    ensures sb / n == sa / sw
  {
    assert sw == m * n;
  }

  /** Constant samples have that constant as weighted mean and zero variance. */
  lemma WeightedConstant(xs: seq<real>, ws: seq<real>, c: real)
    requires |xs| == |ws| && forall k :: 0 <= k < |xs| ==> xs[k] == c
    requires WeightedMeanVar(xs, ws).Some?
    ensures WeightedMeanVar(xs, ws).value == (c, 0.0)
  {
    NormalizedMeanIsOne(ws);
    WeightedMeanOfConstant(NormalizeMean(ws).value, xs, c);
    WeightedZeroDeviation(NormalizeMean(ws).value, xs, c);
  }

  /** Weights of mean one average a constant sample to that constant. */
  lemma WeightedMeanOfConstant(w: seq<real>, xs: seq<real>, c: real)
    requires |w| == |xs| > 0 && Mean(w) == 1.0 && forall k :: 0 <= k < |xs| ==> xs[k] == c
    ensures Mean(Times(w, xs)) == c
  {
    SumScale(w, Times(w, xs), c);
    MeanTimesLength(w);
    ScaledMean(Sum(Times(w, xs)), Sum(w), c, |w| as real);
  }

  /** Real-arithmetic core of `WeightedMeanOfConstant`. */
  lemma ScaledMean(st: real, sw: real, c: real, n: real)
    requires n != 0.0 && st == sw * c && 1.0 * n == sw
    ensures st / n == c
  {
  }

  /** About a constant sample, every weighted squared deviation from the constant is zero. */
  lemma WeightedZeroDeviation(w: seq<real>, xs: seq<real>, c: real)
    requires |w| == |xs| > 0 && forall k :: 0 <= k < |xs| ==> xs[k] == c
    ensures Mean(Times(w, SquaredDeviations(xs, c))) == 0.0
  {
    var v := Times(w, SquaredDeviations(xs, c));
    forall k | 0 <= k < |v| ensures v[k] == 0.0 {
      assert SquaredDeviations(xs, c)[k] == 0.0;
    }
    SumConstant(v, 0.0);
  }

  /** With non-negative weights the weighted variance is non-negative. */
  lemma WeightedVarianceNonNegative(xs: seq<real>, ws: seq<real>)
    requires |xs| == |ws| && forall k :: 0 <= k < |ws| ==> ws[k] >= 0.0
    requires WeightedMeanVar(xs, ws).Some?
    ensures WeightedMeanVar(xs, ws).value.1 >= 0.0
  {
    var w := NormalizeMean(ws).value;
    SumNonNegative(ws);
    var m := Mean(ws);
    assert m > 0.0;
    var mean := Mean(Times(w, xs));
    var d := SquaredDeviations(xs, mean);
    var v := Times(w, d);
    forall k | 0 <= k < |v| ensures v[k] >= 0.0 {
      assert w[k] >= 0.0;
      assert d[k] >= 0.0;
    }
    SumNonNegative(v);
  }

  // ---------------------------------------------------------------------
  // batch_eval
  // ---------------------------------------------------------------------

  /** `func` on each batch, concatenated in order. */
  function BatchResults<X, Y>(f: seq<X> -> seq<Y>, batches: seq<seq<X>>): seq<Y>
  {
    if batches == [] then [] else BatchResults(f, batches[..|batches| - 1]) + f(batches[|batches| - 1])
  }

  /** `batch_eval(func, batches)`: `torch.cat` of the per-batch results,
      which raises on an empty list of batches. */
  function BatchEval<X, Y>(f: seq<X> -> seq<Y>, batches: seq<seq<X>>): (r: Option<seq<Y>>)
    ensures r.None? <==> batches == []
    ensures |batches| == 1 ==> r == Some(f(batches[0]))
  {
    if batches == [] then None
    else
      assert |batches| == 1 ==> batches[..0] == [] && BatchResults(f, batches) == BatchResults(f, []) + f(batches[0]);
      assert |batches| == 1 ==> BatchResults(f, batches) == f(batches[0]);
      Some(BatchResults(f, batches))
  }
}

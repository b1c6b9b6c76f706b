/** `multimatmul`: a 3-D array of shape (D1, M, B) is a batch of B matrices of
    shape D1 x M stacked along the last axis. The product moves the batch axis
    to the front (`np.rollaxis(a, 2)`), multiplies slice by slice
    (`np.matmul`), and moves the batch axis back (`np.rollaxis(., 0, 3)`).
    Entries are reals; floating-point rounding is not modelled. */
module AuxArrayOps {

  type Matrix = seq<seq<real>>

  /** `x` has `rows` rows of `cols` entries each. */
  predicate IsMatrix(x: Matrix, rows: nat, cols: nat)
  {
    |x| == rows && forall i :: 0 <= i < rows ==> |x[i]| == cols
  }

  /** A 3-D array with its shape; entry `[i, j, k]` is `data[i][j][k]`. The
      shape is kept apart from the data, as numpy keeps it for empty arrays. */
  datatype Array3 = Array3(d0: nat, d1: nat, d2: nat, data: seq<seq<seq<real>>>)

  predicate Valid(a: Array3)
  {
    |a.data| == a.d0 && forall i :: 0 <= i < a.d0 ==> IsMatrix(a.data[i], a.d1, a.d2)
  }

  /** The sum of a sequence of reals. */
  function Sum(s: seq<real>): (r: real)
    decreases |s|
  {
    if |s| == 0 then 0.0 else s[0] + Sum(s[1..])
  }

  /** Inner product of two vectors of equal length. */
  function Dot(u: seq<real>, v: seq<real>): (r: real)
    requires |u| == |v|
    decreases |u|
  {
    if |u| == 0 then 0.0 else u[0] * v[0] + Dot(u[1..], v[1..])
  }

  /** Column `j` of an `m x p` matrix. */
  function Column(y: Matrix, m: nat, p: nat, j: nat): (c: seq<real>)
    requires IsMatrix(y, m, p) && j < p
  {
    seq(m, t requires 0 <= t < m => y[t][j])
  }

  /** The ordinary product of an `n x m` and an `m x p` matrix, entry `[i][j]`
      being the inner product of row `i` and column `j`. */
  function MatMul(x: Matrix, y: Matrix, n: nat, m: nat, p: nat): (z: Matrix)
    requires IsMatrix(x, n, m) && IsMatrix(y, m, p)
    ensures IsMatrix(z, n, p)
  {
    seq(n, i requires 0 <= i < n => seq(p, j requires 0 <= j < p => Dot(x[i], Column(y, m, p, j))))
  }

  /** Slice `k` of the batch: the `d0 x d1` matrix `a[:, :, k]`. */
  function Slice(a: Array3, k: nat): (x: Matrix)
    requires Valid(a) && k < a.d2
    ensures IsMatrix(x, a.d0, a.d1)
  {
    seq(a.d0, i requires 0 <= i < a.d0 => seq(a.d1, t requires 0 <= t < a.d1 => a.data[i][t][k]))
  }

  /** `np.rollaxis(a, 2)`: the batch axis moved to the front. */
  function BatchFirst(a: Array3): (c: seq<Matrix>)
    requires Valid(a)
    ensures |c| == a.d2 && forall k :: 0 <= k < a.d2 ==> IsMatrix(c[k], a.d0, a.d1)
  {
    seq(a.d2, k requires 0 <= k < a.d2 => Slice(a, k))
  }

  /** `np.rollaxis(c, 0, 3)`: a batch of `n x p` matrices with the batch axis moved last. */
  function BatchLast(c: seq<Matrix>, n: nat, p: nat): (a: Array3)
    requires forall k :: 0 <= k < |c| ==> IsMatrix(c[k], n, p)
    ensures Valid(a) && a.d0 == n && a.d1 == p && a.d2 == |c|
  {
    Array3(n, p, |c|, seq(n, i requires 0 <= i < n =>
      seq(p, j requires 0 <= j < p => seq(|c|, k requires 0 <= k < |c| => assert IsMatrix(c[k], n, p); c[k][i][j]))))
  }

  /** The products `a[i, t, k] * b[t, j, k]` for `t < M` whose sum is entry
      `[i, j, k]` of the batched product. */
  function EntryTerms(a: Array3, b: Array3, i: nat, j: nat, k: nat): (s: seq<real>)
    requires Valid(a) && Valid(b) && a.d1 == b.d0 && a.d2 == b.d2
    requires i < a.d0 && j < b.d1 && k < a.d2
    ensures |s| == a.d1
  {
    seq(a.d1, t requires 0 <= t < a.d1 => a.data[i][t][k] * b.data[t][j][k])
  }

  /** `multimatmul(a, b)` for `a` of shape (D1, M, B) and `b` of shape
      (M, D2, B): the result has shape (D1, D2, B) and entry `[i, j, k]` is
      the sum over `t < M` of `a[i, t, k] * b[t, j, k]`. */
  function MultiMatMul(a: Array3, b: Array3): (r: Array3)
    requires Valid(a) && Valid(b) && a.d1 == b.d0 && a.d2 == b.d2
    ensures Valid(r) && r.d0 == a.d0 && r.d1 == b.d1 && r.d2 == a.d2
    ensures forall i, j, k :: 0 <= i < r.d0 && 0 <= j < r.d1 && 0 <= k < r.d2 ==>
      r.data[i][j][k] == Sum(EntryTerms(a, b, i, j, k))
  {
    var fa, fb := BatchFirst(a), BatchFirst(b);
    var prods := seq(a.d2, k requires 0 <= k < a.d2 => MatMul(fa[k], fb[k], a.d0, a.d1, b.d1));
    var r := BatchLast(prods, a.d0, b.d1);
    assert forall i, j, k :: 0 <= i < r.d0 && 0 <= j < r.d1 && 0 <= k < r.d2 ==>
      r.data[i][j][k] == Sum(EntryTerms(a, b, i, j, k)) by {
      forall i, j, k | 0 <= i < r.d0 && 0 <= j < r.d1 && 0 <= k < r.d2
        ensures r.data[i][j][k] == Sum(EntryTerms(a, b, i, j, k))
      {
        SliceDot(a, b, i, j, k);
      }
    }
    r
  }

  // ---------------------------------------------------------------------
  // Sums

  /** The recursive inner product is the sum of the pointwise products. */
  lemma {:induction false} DotIsSum(u: seq<real>, v: seq<real>)
    requires |u| == |v|
    ensures Dot(u, v) == Sum(seq(|u|, t requires 0 <= t < |u| => u[t] * v[t]))
    decreases |u|
  {
    if |u| > 0 {
      var s := seq(|u|, t requires 0 <= t < |u| => u[t] * v[t]);
      DotIsSum(u[1..], v[1..]);
      var s' := seq(|u| - 1, t requires 0 <= t < |u| - 1 => u[1..][t] * v[1..][t]);
      forall t | 0 <= t < |u| - 1 ensures s[1..][t] == s'[t] {
        assert s[1..][t] == s[t + 1];
      }
      assert s[1..] == s';
    }
  }

  /** Row `i` of slice `k` of `a` times column `j` of slice `k` of `b` is the
      sum of the entry terms. */
  lemma SliceDot(a: Array3, b: Array3, i: nat, j: nat, k: nat)
    requires Valid(a) && Valid(b) && a.d1 == b.d0 && a.d2 == b.d2
    requires i < a.d0 && j < b.d1 && k < a.d2
    ensures Dot(Slice(a, k)[i], Column(Slice(b, k), a.d1, b.d1, j)) == Sum(EntryTerms(a, b, i, j, k))
  {
    var u, v := Slice(a, k)[i], Column(Slice(b, k), a.d1, b.d1, j);
    DotIsSum(u, v);
    var s := seq(|u|, t requires 0 <= t < |u| => u[t] * v[t]);
    forall t | 0 <= t < |u| ensures s[t] == EntryTerms(a, b, i, j, k)[t] {
      assert u[t] == a.data[i][t][k] && v[t] == b.data[t][j][k];
    }
    assert s == EntryTerms(a, b, i, j, k);
  }

  /** A sum whose terms are all zero except the one at `j` equals that term. */
  lemma {:induction false} SumOneHot(s: seq<real>, j: nat)
    requires j < |s|
    requires forall t :: 0 <= t < |s| && t != j ==> s[t] == 0.0
    ensures Sum(s) == s[j]
    decreases |s|
  {
    if j == 0 {
      SumZero(s[1..]);
    } else {
      SumOneHot(s[1..], j - 1);
    }
  }

  lemma {:induction false} SumZero(s: seq<real>)
    requires forall t :: 0 <= t < |s| ==> s[t] == 0.0
    ensures Sum(s) == 0.0
    decreases |s|
  {
    if |s| > 0 {
      SumZero(s[1..]);
    }
  }

  /** Pulling a common factor out of a sum, on either side. */
  lemma {:induction false} SumScale(s: seq<real>, c: real, cs: seq<real>, sc: seq<real>)
    requires |cs| == |s| && |sc| == |s|
    requires forall t :: 0 <= t < |s| ==> cs[t] == c * s[t] && sc[t] == s[t] * c
    ensures Sum(cs) == c * Sum(s) && Sum(sc) == Sum(s) * c
    decreases |s|
  {
    if |s| > 0 {
      SumScale(s[1..], c, cs[1..], sc[1..]);
    }
  }

  /** The sum of pointwise sums is the sum of the two sums. */
  lemma {:induction false} SumAdd(u: seq<real>, v: seq<real>, w: seq<real>)
    requires |u| == |v| == |w|
    requires forall t :: 0 <= t < |w| ==> w[t] == u[t] + v[t]
    ensures Sum(w) == Sum(u) + Sum(v)
    decreases |w|
  {
    if |w| > 0 {
      SumAdd(u[1..], v[1..], w[1..]);
    }
  }

  /** The row sums of an `n x m` table. */
  function RowSums(g: Matrix, n: nat, m: nat): (s: seq<real>)
    requires IsMatrix(g, n, m)
    ensures |s| == n
  {
    seq(n, i requires 0 <= i < n => Sum(g[i]))
  }

  /** The column sums of an `n x m` table. */
  function ColSums(g: Matrix, n: nat, m: nat): (s: seq<real>)
    requires IsMatrix(g, n, m)
    ensures |s| == m
  {
    seq(m, j requires 0 <= j < m => Sum(Column(g, n, m, j)))
  }

  /** A finite double sum may be taken in either order. */
  lemma {:induction false} SumSwap(g: Matrix, n: nat, m: nat)
    requires IsMatrix(g, n, m)
    ensures Sum(RowSums(g, n, m)) == Sum(ColSums(g, n, m))
    decreases n
  {
    if n == 0 {
      SumZero(ColSums(g, n, m));
    } else {
      var rest := g[1..];
      SumSwap(rest, n - 1, m);
      assert RowSums(g, n, m)[1..] == RowSums(rest, n - 1, m);
      forall j | 0 <= j < m
        ensures ColSums(g, n, m)[j] == g[0][j] + ColSums(rest, n - 1, m)[j]
      {
        assert Column(g, n, m, j)[1..] == Column(rest, n - 1, m, j);
      }
      SumAdd(g[0], ColSums(rest, n - 1, m), ColSums(g, n, m));
    }
  }

  // ---------------------------------------------------------------------
  // Properties of the batched product

  /** Rolling the batch axis to the front and back again changes nothing, and
      neither does the converse. */
  lemma RollAxisRoundTrip(a: Array3, c: seq<Matrix>, n: nat, p: nat)
    requires Valid(a)
    requires forall k :: 0 <= k < |c| ==> IsMatrix(c[k], n, p)
    ensures BatchLast(BatchFirst(a), a.d0, a.d1) == a
    ensures BatchFirst(BatchLast(c, n, p)) == c
  {
    var a' := BatchLast(BatchFirst(a), a.d0, a.d1);
    forall i | 0 <= i < a.d0 ensures a'.data[i] == a.data[i] {
      forall j | 0 <= j < a.d1 ensures a'.data[i][j] == a.data[i][j] {
      }
    }
    assert a'.data == a.data;
    var c' := BatchFirst(BatchLast(c, n, p));
    forall k | 0 <= k < |c| ensures c'[k] == c[k] {
      forall i | 0 <= i < n ensures c'[k][i] == c[k][i] {
      }
    }
  }

  /** Two arrays of one shape that agree on every entry are equal. */
  lemma ArrayExt(a: Array3, b: Array3)
    requires Valid(a) && Valid(b) && a.d0 == b.d0 && a.d1 == b.d1 && a.d2 == b.d2
    requires forall i, j, k :: 0 <= i < a.d0 && 0 <= j < a.d1 && 0 <= k < a.d2 ==>
      a.data[i][j][k] == b.data[i][j][k]
    ensures a == b
  {
    forall i | 0 <= i < a.d0 ensures a.data[i] == b.data[i] {
      forall j | 0 <= j < a.d1 ensures a.data[i][j] == b.data[i][j] {
      }
    }
  }

  /** Slice `k` of the batched product is the ordinary product of slice `k`
      of `a` and slice `k` of `b`. */
  lemma SliceProduct(a: Array3, b: Array3, k: nat)
    requires Valid(a) && Valid(b) && a.d1 == b.d0 && a.d2 == b.d2 && k < a.d2
    ensures Slice(MultiMatMul(a, b), k) == MatMul(Slice(a, k), Slice(b, k), a.d0, a.d1, b.d1)
  {
    var r := MultiMatMul(a, b);
    var z := MatMul(Slice(a, k), Slice(b, k), a.d0, a.d1, b.d1);
    forall i | 0 <= i < a.d0 ensures Slice(r, k)[i] == z[i] {
      forall j | 0 <= j < b.d1 ensures Slice(r, k)[i][j] == z[i][j] {
        SliceDot(a, b, i, j, k);
      }
    }
  }

  /** Batch independence: slice `k` of the product depends only on slice `k`
      of each operand, whatever the other slices hold. */
  lemma BatchIndependence(a: Array3, b: Array3, a': Array3, b': Array3, k: nat)
    requires Valid(a) && Valid(b) && a.d1 == b.d0 && a.d2 == b.d2 && k < a.d2
    requires Valid(a') && Valid(b') && a'.d1 == b'.d0 && a'.d2 == b'.d2 && k < a'.d2
    requires a'.d0 == a.d0 && a'.d1 == a.d1 && b'.d1 == b.d1
    requires Slice(a', k) == Slice(a, k) && Slice(b', k) == Slice(b, k)
    ensures Slice(MultiMatMul(a', b'), k) == Slice(MultiMatMul(a, b), k)
  {
    SliceProduct(a, b, k);
    SliceProduct(a', b', k);
  }

  /** An empty batch yields the empty (D1, D2, 0) array. */
  lemma EmptyBatch(a: Array3, b: Array3)
    requires Valid(a) && Valid(b) && a.d1 == b.d0 && a.d2 == b.d2 == 0
    ensures MultiMatMul(a, b) == Array3(a.d0, b.d1, 0, seq(a.d0, i => seq(b.d1, j => [])))
  {
    var r := MultiMatMul(a, b);
    forall i | 0 <= i < a.d0 ensures r.data[i] == seq(b.d1, j => []) {
      forall j | 0 <= j < b.d1 ensures r.data[i][j] == [] {
      }
    }
  }

  /** A batch of `B` identity matrices of order `m`. */
  function Identity(m: nat, B: nat): (e: Array3)
    ensures Valid(e) && e.d0 == m && e.d1 == m && e.d2 == B
  {
    Array3(m, m, B, seq(m, i => seq(m, j => seq(B, k => if i == j then 1.0 else 0.0))))
  }

  /** Multiplying by identity matrices, on the right or on the left, returns
      `a` unchanged. */
  lemma IdentityNeutral(a: Array3)
    requires Valid(a)
    ensures MultiMatMul(a, Identity(a.d1, a.d2)) == a
    ensures MultiMatMul(Identity(a.d0, a.d2), a) == a
  {
    var r := MultiMatMul(a, Identity(a.d1, a.d2));
    forall i, j, k | 0 <= i < a.d0 && 0 <= j < a.d1 && 0 <= k < a.d2
      ensures r.data[i][j][k] == a.data[i][j][k]
    {
      IdentityRightEntry(a, i, j, k);
    }
    ArrayExt(r, a);
    var l := MultiMatMul(Identity(a.d0, a.d2), a);
    forall i, j, k | 0 <= i < a.d0 && 0 <= j < a.d1 && 0 <= k < a.d2
      ensures l.data[i][j][k] == a.data[i][j][k]
    {
      IdentityLeftEntry(a, i, j, k);
    }
    ArrayExt(l, a);
  }

  /** Entry `[i, j, k]` of `a` times identity matrices is `a[i, j, k]`. */
  lemma IdentityRightEntry(a: Array3, i: nat, j: nat, k: nat)
    requires Valid(a) && i < a.d0 && j < a.d1 && k < a.d2
    ensures MultiMatMul(a, Identity(a.d1, a.d2)).data[i][j][k] == a.data[i][j][k]
  {
    var e := Identity(a.d1, a.d2);
    var terms := EntryTerms(a, e, i, j, k);
    forall t | 0 <= t < a.d1 && t != j ensures terms[t] == 0.0 {
      assert e.data[t][j][k] == 0.0;
    }
    assert terms[j] == a.data[i][j][k] * e.data[j][j][k];
    SumOneHot(terms, j);
  }

  /** Entry `[i, j, k]` of identity matrices times `a` is `a[i, j, k]`. */
  lemma IdentityLeftEntry(a: Array3, i: nat, j: nat, k: nat)
    requires Valid(a) && i < a.d0 && j < a.d1 && k < a.d2
    ensures MultiMatMul(Identity(a.d0, a.d2), a).data[i][j][k] == a.data[i][j][k]
  {
    var e := Identity(a.d0, a.d2);
    var terms := EntryTerms(e, a, i, j, k);
    forall t | 0 <= t < a.d0 && t != i ensures terms[t] == 0.0 {
      assert e.data[i][t][k] == 0.0;
    }
    assert terms[i] == e.data[i][i][k] * a.data[i][j][k];
    SumOneHot(terms, i);
  }

  /** The batched product is associative, as each slice is an ordinary
      matrix product. */
  lemma Associative(a: Array3, b: Array3, c: Array3)
    requires Valid(a) && Valid(b) && Valid(c)
    requires a.d1 == b.d0 && b.d1 == c.d0 && a.d2 == b.d2 == c.d2
    ensures MultiMatMul(MultiMatMul(a, b), c) == MultiMatMul(a, MultiMatMul(b, c))
  {
    var ab, bc := MultiMatMul(a, b), MultiMatMul(b, c);
    var lhs, rhs := MultiMatMul(ab, c), MultiMatMul(a, bc);
    forall i, l, k | 0 <= i < a.d0 && 0 <= l < c.d1 && 0 <= k < a.d2
      ensures lhs.data[i][l][k] == rhs.data[i][l][k]
    {
      AssociativeEntry(a, b, c, i, l, k);
    }
    ArrayExt(lhs, rhs);
  }

  /** The terms `a[i, t, k] * b[t, j, k] * c[j, l, k]` of entry `[i, l, k]`
      of a triple product, one row per `j` and one column per `t`. */
  function TripleTerms(a: Array3, b: Array3, c: Array3, i: nat, l: nat, k: nat): (g: Matrix)
    requires Valid(a) && Valid(b) && Valid(c)
    requires a.d1 == b.d0 && b.d1 == c.d0 && a.d2 == b.d2 == c.d2
    requires i < a.d0 && l < c.d1 && k < a.d2
    ensures IsMatrix(g, b.d1, a.d1)
  {
    seq(b.d1, j requires 0 <= j < b.d1 =>
      seq(a.d1, t requires 0 <= t < a.d1 => a.data[i][t][k] * b.data[t][j][k] * c.data[j][l][k]))
  }

  /** Summing the triple terms row by row gives the entry of `(a b) c`. */
  lemma TripleRows(a: Array3, b: Array3, c: Array3, i: nat, l: nat, k: nat)
    requires Valid(a) && Valid(b) && Valid(c)
    requires a.d1 == b.d0 && b.d1 == c.d0 && a.d2 == b.d2 == c.d2
    requires i < a.d0 && l < c.d1 && k < a.d2
    ensures MultiMatMul(MultiMatMul(a, b), c).data[i][l][k] == Sum(RowSums(TripleTerms(a, b, c, i, l, k), b.d1, a.d1))
  {
    var ab := MultiMatMul(a, b);
    var g := TripleTerms(a, b, c, i, l, k);
    var m, p := a.d1, b.d1;
    forall j | 0 <= j < p ensures EntryTerms(ab, c, i, l, k)[j] == RowSums(g, p, m)[j] {
      TripleRow(a, b, c, i, l, k, j);
    }
    assert EntryTerms(ab, c, i, l, k) == RowSums(g, p, m);
  }

  /** Each term of an entry of `(a b) c` is a row sum of the triple terms. */
  lemma TripleRow(a: Array3, b: Array3, c: Array3, i: nat, l: nat, k: nat, j: nat)
    requires Valid(a) && Valid(b) && Valid(c)
    requires a.d1 == b.d0 && b.d1 == c.d0 && a.d2 == b.d2 == c.d2
    requires i < a.d0 && l < c.d1 && k < a.d2 && j < b.d1
    ensures EntryTerms(MultiMatMul(a, b), c, i, l, k)[j] == Sum(TripleTerms(a, b, c, i, l, k)[j])
  {
    var m := a.d1;
    var cj := c.data[j][l][k];
    var row := TripleTerms(a, b, c, i, l, k)[j];
    var terms := EntryTerms(a, b, i, j, k);
    forall t | 0 <= t < m ensures row[t] == terms[t] * cj {
      assert row[t] == a.data[i][t][k] * b.data[t][j][k] * cj;
    }
    SumScale(terms, cj, seq(m, t requires 0 <= t < m => cj * terms[t]), row);
  }

  /** Summing the triple terms column by column gives the entry of `a (b c)`. */
  lemma TripleColumns(a: Array3, b: Array3, c: Array3, i: nat, l: nat, k: nat)
    requires Valid(a) && Valid(b) && Valid(c)
    requires a.d1 == b.d0 && b.d1 == c.d0 && a.d2 == b.d2 == c.d2
    requires i < a.d0 && l < c.d1 && k < a.d2
    ensures MultiMatMul(a, MultiMatMul(b, c)).data[i][l][k] == Sum(ColSums(TripleTerms(a, b, c, i, l, k), b.d1, a.d1))
  {
    var bc := MultiMatMul(b, c);
    var g := TripleTerms(a, b, c, i, l, k);
    var m, p := a.d1, b.d1;
    forall t | 0 <= t < m ensures EntryTerms(a, bc, i, l, k)[t] == ColSums(g, p, m)[t] {
      TripleColumn(a, b, c, i, l, k, t);
    }
    assert EntryTerms(a, bc, i, l, k) == ColSums(g, p, m);
  }

  lemma TripleColumn(a: Array3, b: Array3, c: Array3, i: nat, l: nat, k: nat, t: nat)
    requires Valid(a) && Valid(b) && Valid(c)
    requires a.d1 == b.d0 && b.d1 == c.d0 && a.d2 == b.d2 == c.d2
    requires i < a.d0 && l < c.d1 && k < a.d2 && t < a.d1
    ensures EntryTerms(a, MultiMatMul(b, c), i, l, k)[t] == Sum(Column(TripleTerms(a, b, c, i, l, k), b.d1, a.d1, t))
  {
    var g := TripleTerms(a, b, c, i, l, k);
    var m, p := a.d1, b.d1;
    var at := a.data[i][t][k];
    var col := Column(g, p, m, t);
    var terms := EntryTerms(b, c, t, l, k);
    forall j | 0 <= j < p ensures col[j] == terms[j] * at {
      assert col[j] == g[j][t];
    }
    SumScale(terms, at, seq(p, j requires 0 <= j < p => at * terms[j]), col);
  }

  /** Entry `[i, l, k]` of `(a b) c` equals that of `a (b c)`. */
  lemma AssociativeEntry(a: Array3, b: Array3, c: Array3, i: nat, l: nat, k: nat)
    requires Valid(a) && Valid(b) && Valid(c)
    requires a.d1 == b.d0 && b.d1 == c.d0 && a.d2 == b.d2 == c.d2
    requires i < a.d0 && l < c.d1 && k < a.d2
    ensures MultiMatMul(MultiMatMul(a, b), c).data[i][l][k] == MultiMatMul(a, MultiMatMul(b, c)).data[i][l][k]
  {
    SumSwap(TripleTerms(a, b, c, i, l, k), b.d1, a.d1);
    TripleRows(a, b, c, i, l, k);
    TripleColumns(a, b, c, i, l, k);
  }

  /** A `d0 x d1 x d2` array whose entries all equal `c`. */
  function Constant(d0: nat, d1: nat, d2: nat, c: real): (a: Array3)
    ensures Valid(a) && a.d0 == d0 && a.d1 == d1 && a.d2 == d2
    ensures forall i, j, k :: 0 <= i < d0 && 0 <= j < d1 && 0 <= k < d2 ==> a.data[i][j][k] == c
  {
    Array3(d0, d1, d2, seq(d0, i => seq(d1, j => seq(d2, k => c))))
  }

  /** `M` equal terms sum to `M` times the term. */
  lemma {:induction false} SumConstant(s: seq<real>, c: real)
    requires forall t :: 0 <= t < |s| ==> s[t] == c
    ensures Sum(s) == |s| as real * c
    decreases |s|
  {
    if |s| > 0 {
      SumConstant(s[1..], c);
    }
  }

  /** Constant batches multiply to a constant batch: every entry of the
      product of a `(D1, M, B)` array of `x` and an `(M, D2, B)` array of `y`
      is `M x y`. */
  lemma ConstantProduct(d1: nat, m: nat, d2: nat, batch: nat, x: real, y: real)
    ensures MultiMatMul(Constant(d1, m, batch, x), Constant(m, d2, batch, y)) == Constant(d1, d2, batch, m as real * (x * y))
  {
    var r := MultiMatMul(Constant(d1, m, batch, x), Constant(m, d2, batch, y));
    forall i, j, k | 0 <= i < d1 && 0 <= j < d2 && 0 <= k < batch
      ensures r.data[i][j][k] == m as real * (x * y)
    {
      ConstantEntry(d1, m, d2, batch, x, y, i, j, k);
    }
    ArrayExt(r, Constant(d1, d2, batch, m as real * (x * y)));
  }

  lemma ConstantEntry(d1: nat, m: nat, d2: nat, batch: nat, x: real, y: real, i: nat, j: nat, k: nat)
    requires i < d1 && j < d2 && k < batch
    ensures MultiMatMul(Constant(d1, m, batch, x), Constant(m, d2, batch, y)).data[i][j][k] == m as real * (x * y)
  {
    var terms := EntryTerms(Constant(d1, m, batch, x), Constant(m, d2, batch, y), i, j, k);
    ConstantTerms(d1, m, d2, batch, x, y, i, j, k);
    SumConstant(terms, x * y);
  }

  /** Every product summed for an entry of constant batches is `x y`. */
  lemma ConstantTerms(d1: nat, m: nat, d2: nat, batch: nat, x: real, y: real, i: nat, j: nat, k: nat)
    requires i < d1 && j < d2 && k < batch
    ensures forall t :: 0 <= t < m ==>
      EntryTerms(Constant(d1, m, batch, x), Constant(m, d2, batch, y), i, j, k)[t] == x * y
  {
    var a, b := Constant(d1, m, batch, x), Constant(m, d2, batch, y);
    forall t | 0 <= t < m ensures EntryTerms(a, b, i, j, k)[t] == x * y {
      assert a.data[i][t][k] == x && b.data[t][j][k] == y;
    }
  }

  /** A batch of four 2x3 all-ones matrices times a batch of four 3x2
      all-ones matrices is a batch of four 2x2 matrices of threes. */
  lemma OnesExample()
    ensures MultiMatMul(Constant(2, 3, 4, 1.0), Constant(3, 2, 4, 1.0)) == Constant(2, 2, 4, 3.0)
  {
    ConstantProduct(2, 3, 2, 4, 1.0, 1.0);
  }
}

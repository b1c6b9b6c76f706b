/** The deterministic cube-surface sampler of Yershova and LaValle as the
    `SNSampler` constructor builds it, before the final radial normalisation.

    Coordinates are integers: `np.linspace(-1, 1, n)` is scaled by `n - 1`,
    so axis value `k` becomes `2k - (n - 1)` and the cube faces sit at
    `-(n - 1)` and `+(n - 1)`. For `n == 1` linspace yields the single value
    `-1` and the scale is 1, so the faces stay at `-1` and `+1`. The scaling is
    strictly increasing and every axis holds an identical linspace result, so equality and
    lexicographic order of columns are exactly those of the floating-point
    columns. */
module SNSampler {
  import opened Unique
  import opened Grid

  datatype Result<T, E> = Ok(value: T) | Err(error: E)

  /** Why the constructor raises. */
  datatype SampleError =
    | NoAxes               // fewer than two dimensions: meshgrid gets no axis, concatenate nothing
    | NegativeSampleCount  // linspace refuses a negative number of samples

  /** The scaled image of the face coordinate `+1.0`. */
  function Face(n: nat): (f: int)
    ensures f >= 1
    ensures n >= 2 ==> f == n - 1
  {
    if n >= 2 then n - 1 else 1
  }

  /** `np.linspace(-1., 1., n)` in scaled integer coordinates. */
  function AxisValues(n: nat): (vals: seq<int>)
    ensures |vals| == n
    ensures n >= 1 ==> vals[0] == -Face(n)
    ensures n >= 2 ==> vals[n - 1] == Face(n)
  {
    if n == 1 then [-1] else seq(n, k => 2 * k - (n - 1))
  }

  /** The axis values increase strictly, as linspace's do. */
  lemma AxisValuesIncreasing(n: nat)
    ensures forall i, j :: 0 <= i < j < n ==> AxisValues(n)[i] < AxisValues(n)[j]
  {
  }

  /** The axis values strictly between the two faces. */
  function Inner(n: nat): (vs: seq<int>)
    requires n >= 2
  {
    AxisValues(n)[1..n - 1]
  }

  /** The points of the `N`-dimensional grid over `vals`, as a set. */
  function GridSet(N: nat, vals: seq<int>): (g: set<seq<int>>)
  {
    set v | v in Product(N, vals)
  }

  /** Some coordinate of `q` lies on a face: it equals `-f` or `+f`. */
  predicate OnBoundary(q: seq<int>, f: int)
  {
    f in q || -f in q
  }

  /** The grid columns placed on the two opposite faces `x_N = -f` and
      `x_N = +f`. */
  function Faces(g: seq<seq<int>>, f: int): (r: seq<seq<int>>)
    ensures |r| == 2 * |g|
  {
    seq(|g|, j requires 0 <= j < |g| => g[j] + [-f]) + seq(|g|, j requires 0 <= j < |g| => g[j] + [f])
  }

  /** Column `j` of the face set copies grid column `j mod |g|` into its first
      coordinates; its last coordinate is `-f` in the first half and `+f` in
      the second. */
  lemma FacesLayout(g: seq<seq<int>>, f: int, j: int)
    requires 0 <= j < 2 * |g|
    ensures var x := Faces(g, f)[j];
      |x| > 0 &&
      x[..|x| - 1] == (if j < |g| then g[j] else g[j - |g|]) &&
      x[|x| - 1] == (if j < |g| then -f else f)
  {
  }

  /** A column is on one of the two faces exactly when it is a grid column
      followed by `-f` or `+f`. */
  lemma FacesMembers(g: seq<seq<int>>, f: int, x: seq<int>)
    ensures x in Faces(g, f) <==> |x| > 0 && x[..|x| - 1] in g && (x[|x| - 1] == -f || x[|x| - 1] == f)
  {
    var r := Faces(g, f);
    if |x| > 0 && x[..|x| - 1] in g && (x[|x| - 1] == -f || x[|x| - 1] == f) {
      var j :| 0 <= j < |g| && g[j] == x[..|x| - 1];
      assert x == x[..|x| - 1] + [x[|x| - 1]];
      if x[|x| - 1] == -f {
        assert r[j] == x;
      } else {
        assert r[|g| + j] == x;
      }
    }
    if x in r {
      var j :| 0 <= j < |r| && r[j] == x;
    }
  }

  /** `np.roll(p, r)` on one column: the last `r mod |p|` coordinates move to the front. */
  function Roll(p: seq<int>, r: int): (q: seq<int>)
    ensures |q| == |p|
  {
    if |p| == 0 then p
    else p[|p| - r % |p|..] + p[..|p| - r % |p|]
  }

  /** Every coordinate moves `r` places forward, cyclically: coordinate `i`
      of the rolled column is coordinate `(i - r) mod |p|` of the original. */
  lemma RollAt(p: seq<int>, r: int, i: int)
    requires 0 <= i < |p|
    ensures Roll(p, r)[i] == p[(i - r) % |p|]
  {
    var n := |p|;
    var s := r % n;
    ModShift(i - s, r / n, n);
    assert i - r == (i - s) - (r / n) * n;
    if i < s {
      ModLow(i - s, n);
    } else {
      ModHigh(i - s, n);
    }
  }

  lemma ModShift(x: int, t: int, n: int)
    requires n > 0
    ensures (x - t * n) % n == x % n
  {
    var y := x - t * n;
    assert x == y + t * n;
    assert y == (y / n) * n + y % n;
    assert x == (y / n + t) * n + y % n;
    assert 0 <= y % n < n;
    DivModUnique(x, y / n + t, y % n, n);
  }

  lemma DivModUnique(x: int, a: int, b: int, n: int)
    requires n > 0 && 0 <= b < n && x == a * n + b
    ensures x % n == b
  {
    var a', b' := x / n, x % n;
    assert x == a' * n + b' && 0 <= b' < n;
    if a' < a {
      MulGrows(a - a', n);
    } else if a' > a {
      MulGrows(a' - a, n);
    }
  }

  lemma MulGrows(k: int, n: int)
    requires k >= 1 && n > 0
    ensures k * n >= n
  {
  }

  lemma ModLow(x: int, n: int)
    requires n > 0 && -n <= x < 0
    ensures x % n == x + n
  {
  }

  lemma ModHigh(x: int, n: int)
    requires n > 0 && 0 <= x < n
    ensures x % n == x
  {
  }

  /** Rolling only reorders coordinates. */
  lemma RollPermutes(p: seq<int>, r: int)
    ensures multiset(Roll(p, r)) == multiset(p)
  {
    if |p| > 0 {
      var n := |p|;
      var s := r % n;
      assert p == p[..n - s] + p[n - s..];
      assert Roll(p, r) == p[n - s..] + p[..n - s];
    }
  }

  /** The `k` rolls `np.roll(fs, 0)`, ..., `np.roll(fs, k - 1)` of the
      columns `fs`, concatenated. */
  function RollCopies(fs: seq<seq<int>>, k: nat): (cs: seq<seq<int>>)
    decreases k
  {
    if k == 0 then [] else RollCopies(fs, k - 1) + RolledCopy(fs, k - 1)
  }

  /** `np.roll(fs, r, axis=0)`: every column of `fs` rolled by `r`. */
  function RolledCopy(fs: seq<seq<int>>, r: int): (cs: seq<seq<int>>)
  {
    seq(|fs|, j requires 0 <= j < |fs| => Roll(fs[j], r))
  }

  /** The concatenation of `k` rolled copies has `k` times as many columns. */
  lemma {:induction false} RollCopiesLength(fs: seq<seq<int>>, k: nat)
    ensures |RollCopies(fs, k)| == k * |fs|
    decreases k
  {
    if k > 0 {
      RollCopiesLength(fs, k - 1);
      assert (k - 1) * |fs| + |fs| == k * |fs|;
    }
  }

  /** A column of the concatenation is a roll by less than `k` of a column of `fs`, and conversely. */
  lemma RollCopiesMembers(fs: seq<seq<int>>, k: nat, q: seq<int>)
    ensures q in RollCopies(fs, k) <==> exists s, x :: 0 <= s < k && x in fs && q == Roll(x, s)
  {
    if q in RollCopies(fs, k) {
      var s, x := RollCopiesSource(fs, k, q);
    }
    if exists s, x :: 0 <= s < k && x in fs && q == Roll(x, s) {
      var s, x :| 0 <= s < k && x in fs && q == Roll(x, s);
      RollCopiesComplete(fs, k, s, x);
    }
  }

  /** Every column of the concatenation is a roll by less than `k` of a column of `fs`. */
  lemma RollCopiesSource(fs: seq<seq<int>>, k: nat, q: seq<int>) returns (s: nat, x: seq<int>)
    requires q in RollCopies(fs, k)
    ensures s < k && x in fs && q == Roll(x, s)
  {
    var i :| 0 <= i < |RollCopies(fs, k)| && RollCopies(fs, k)[i] == q;
    s, x := RollCopiesAt(fs, k, i);
  }

  /** Column `i` of the concatenation is a roll by less than `k` of a column of `fs`. */
  lemma {:induction false} RollCopiesAt(fs: seq<seq<int>>, k: nat, i: nat) returns (s: nat, x: seq<int>)
    requires i < |RollCopies(fs, k)|
    ensures s < k && x in fs && RollCopies(fs, k)[i] == Roll(x, s)
    decreases k
  {
    var prev := RollCopies(fs, k - 1);
    var last := RolledCopy(fs, k - 1);
    assert RollCopies(fs, k) == prev + last;
    if i < |prev| {
      s, x := RollCopiesAt(fs, k - 1, i);
    } else {
      var j := i - |prev|;
      assert last[j] == Roll(fs[j], k - 1);
      s, x := k - 1, fs[j];
    }
  }

  /** Every roll by less than `k` of a column of `fs` is a column of the concatenation. */
  lemma {:induction false} RollCopiesComplete(fs: seq<seq<int>>, k: nat, s: nat, x: seq<int>)
    requires s < k && x in fs
    ensures Roll(x, s) in RollCopies(fs, k)
    decreases k
  {
    var prev := RollCopies(fs, k - 1);
    var last := RolledCopy(fs, k - 1);
    assert RollCopies(fs, k) == prev + last;
    if s < k - 1 {
      RollCopiesComplete(fs, k - 1, s, x);
    } else {
      var j :| 0 <= j < |fs| && fs[j] == x;
      assert last[j] == Roll(x, s);
    }
  }

  /** The constructor's point set before normalisation: grid, two faces, all
      `N` rolls, then `np.unique` over columns. */
  function Points(N: nat, n: nat): (pts: seq<seq<int>>)
    requires N >= 2
    ensures StrictlySorted(pts)
  {
    Unique.Unique(RollCopies(Faces(Product(N - 1, AxisValues(n)), Face(n)), N))
  }

  /** The constructor, `n_dims = N` and `n_samples = n`: of the error cases
      modelled, it raises when there are fewer than two dimensions or a
      negative sample count (numpy's dimension and memory limits are not
      modelled), and otherwise yields sorted, distinct columns of `N`
      coordinates on the cube surface. */
  function Sample(N: int, n: int): (r: Result<seq<seq<int>>, SampleError>)
    ensures r.Err? <==> N < 2 || n < 0
    ensures r == Err(NoAxes) <==> N < 2
    ensures r.Ok? ==> StrictlySorted(r.value)
    ensures r.Ok? ==> forall q :: q in r.value ==> |q| == N && OnBoundary(q, Face(n))
  {
    if N < 2 then Err(NoAxes)
    else if n < 0 then Err(NegativeSampleCount)
    else
      PointsOnBoundary(N, n);
      Ok(Points(N, n))
  }

  /** Squared Euclidean norm of a column. */
  function SqNorm(q: seq<int>): (s: int)
    decreases |q|
  {
    if |q| == 0 then 0 else q[0] * q[0] + SqNorm(q[1..])
  }

  // ---------------------------------------------------------------------
  // Properties of the point set

  /** A column is an output point exactly when it is a roll of a face column. */
  lemma PointsMembers(N: nat, n: nat, q: seq<int>)
    requires N >= 2
    ensures q in Points(N, n) <==>
      exists s, x :: 0 <= s < N && x in Faces(Product(N - 1, AxisValues(n)), Face(n)) && q == Roll(x, s)
  {
    RollCopiesMembers(Faces(Product(N - 1, AxisValues(n)), Face(n)), N, q);
  }

  /** The face column and roll that an output column comes from. */
  lemma PointSource(N: nat, n: nat, q: seq<int>) returns (s: int, x: seq<int>)
    requires N >= 2 && q in Points(N, n)
    ensures 0 <= s < N && x in Faces(Product(N - 1, AxisValues(n)), Face(n)) && q == Roll(x, s)
  {
    PointsMembers(N, n, q);
    s, x :| 0 <= s < N && x in Faces(Product(N - 1, AxisValues(n)), Face(n)) && q == Roll(x, s);
  }

  lemma AxisValuesDistinct(n: nat)
    ensures Distinct(AxisValues(n))
  {
    AxisValuesIncreasing(n);
  }

  /** The `(N-1)`-dimensional grid has `n^(N-1)` columns and holds every
      combination of axis values exactly once. */
  lemma GridExactlyOnce(N: nat, n: nat)
    requires N >= 2
    ensures |Product(N - 1, AxisValues(n))| == Power(n, N - 1)
    ensures Distinct(Product(N - 1, AxisValues(n)))
    ensures forall v :: v in Product(N - 1, AxisValues(n)) <==> |v| == N - 1 && OnGrid(v, AxisValues(n))
  {
    AxisValuesDistinct(n);
    ProductExactlyOnce(N - 1, AxisValues(n));
  }

  /** The face set has `2 n^(N-1)` columns of `N` coordinates each. */
  lemma FacesShape(N: nat, n: nat)
    requires N >= 2
    ensures |Faces(Product(N - 1, AxisValues(n)), Face(n))| == 2 * Power(n, N - 1)
    ensures forall x :: x in Faces(Product(N - 1, AxisValues(n)), Face(n)) ==> |x| == N
  {
    var vals := AxisValues(n);
    var g := Product(N - 1, vals);
    ProductLength(N - 1, vals);
    forall x | x in Faces(g, Face(n)) ensures |x| == N {
      FacesMembers(g, Face(n), x);
      ProductMembers(N - 1, vals, x[..|x| - 1]);
    }
  }

  /** The `N` rolled copies of the face set hold `2N n^(N-1)` columns. */
  lemma RolledShape(N: nat, n: nat)
    requires N >= 2
    ensures |RollCopies(Faces(Product(N - 1, AxisValues(n)), Face(n)), N)| == 2 * N * Power(n, N - 1)
  {
    var p := Power(n, N - 1);
    assert N * (2 * p) == 2 * N * p;
    var fs := Faces(Product(N - 1, AxisValues(n)), Face(n));
    FacesShape(N, n);
    RollCopiesLength(fs, N);
  }

  /** Every output column has `N` coordinates, one of which is a face value. */
  lemma PointsOnBoundary(N: nat, n: nat)
    requires N >= 2
    ensures forall q :: q in Points(N, n) ==> |q| == N && OnBoundary(q, Face(n))
  {
    var g := Product(N - 1, AxisValues(n));
    var f := Face(n);
    FacesShape(N, n);
    forall q | q in Points(N, n) ensures |q| == N && OnBoundary(q, f) {
      var s, x := PointSource(N, n, q);
      FacesMembers(g, f, x);
      assert x[|x| - 1] in multiset(x);
      RollPermutes(x, s);
    }
  }

  /** With at least two samples per axis, both face values are axis values. */
  lemma FaceIsAxisValue(n: nat)
    requires n >= 2
    ensures Face(n) in AxisValues(n) && -Face(n) in AxisValues(n)
  {
    var vals := AxisValues(n);
    assert vals[0] == -Face(n) && vals[n - 1] == Face(n);
  }

  /** A roll of a grid point is a grid point. */
  lemma RollOnGrid(x: seq<int>, s: int, vals: seq<int>)
    requires OnGrid(x, vals)
    ensures OnGrid(Roll(x, s), vals)
  {
    var q := Roll(x, s);
    RollPermutes(x, s);
    forall i | 0 <= i < |q| ensures q[i] in vals {
      assert q[i] in multiset(x);
      var j :| 0 <= j < |x| && x[j] == q[i];
    }
  }

  /** A face column is a grid point when both face values are axis values. */
  lemma FaceColumnOnGrid(d: nat, vals: seq<int>, f: int, x: seq<int>)
    requires f in vals && -f in vals
    requires x in Faces(Product(d, vals), f)
    ensures OnGrid(x, vals)
  {
    FacesMembers(Product(d, vals), f, x);
    var y := x[..|x| - 1];
    ProductMembers(d, vals, y);
    forall i | 0 <= i < |x| ensures x[i] in vals {
      if i < |x| - 1 {
        assert x[i] == y[i];
      }
    }
  }

  /** With at least two samples per axis, every output column is a point of
      the `N`-dimensional grid. */
  lemma PointsOnGrid(N: nat, n: nat)
    requires N >= 2 && n >= 2
    ensures forall q :: q in Points(N, n) ==> OnGrid(q, AxisValues(n))
  {
    forall q | q in Points(N, n) ensures OnGrid(q, AxisValues(n)) {
      var s, x := PointSource(N, n, q);
      RolledFaceOnGrid(N, n, x, s);
    }
  }

  lemma RolledFaceOnGrid(N: nat, n: nat, x: seq<int>, s: int)
    requires N >= 2 && n >= 2 && x in Faces(Product(N - 1, AxisValues(n)), Face(n))
    ensures OnGrid(Roll(x, s), AxisValues(n))
  {
    FaceIsAxisValue(n);
    FaceColumnOnGrid(N - 1, AxisValues(n), Face(n), x);
    RollOnGrid(x, s, AxisValues(n));
  }

  /** Rolling forward by `r` undoes rotating left by `r`. */
  lemma RollUndoesRotation(q: seq<int>, r: int)
    requires 0 <= r < |q|
    ensures Roll(q[r..] + q[..r], r) == q
  {
    var x := q[r..] + q[..r];
    var n := |q|;
    ModHigh(r, n);
    assert x[n - r..] == q[..r] && x[..n - r] == q[r..];
    assert q == q[..r] + q[r..];
  }

  /** Rotating `q` left by one place past coordinate `i` brings that
      coordinate last and keeps the others on the grid. */
  lemma RotationBringsLast(q: seq<int>, i: nat, vals: seq<int>)
    requires i < |q| && OnGrid(q, vals)
    ensures var r := if i == |q| - 1 then 0 else i + 1;
            var x := q[r..] + q[..r];
            |x| == |q| && x[|q| - 1] == q[i] && OnGrid(x[..|q| - 1], vals)
  {
    var N := |q|;
    var r := if i == N - 1 then 0 else i + 1;
    var x := q[r..] + q[..r];
    var y := x[..N - 1];
    forall k | 0 <= k < N - 1 ensures y[k] in vals {
      if k < N - r { assert y[k] == q[r + k]; } else { assert y[k] == q[k - (N - r)]; }
    }
  }

  /** A face column that carries `f` or `-f` last lies in the face set. */
  lemma FaceColumnIn(N: nat, n: nat, x: seq<int>)
    requires N >= 2 && |x| == N
    requires OnGrid(x[..N - 1], AxisValues(n))
    requires x[N - 1] == Face(n) || x[N - 1] == -Face(n)
    ensures x in Faces(Product(N - 1, AxisValues(n)), Face(n))
  {
    ProductMembers(N - 1, AxisValues(n), x[..N - 1]);
    FacesMembers(Product(N - 1, AxisValues(n)), Face(n), x);
  }

  lemma RollOfFaceIsPoint(N: nat, n: nat, x: seq<int>, r: int)
    requires N >= 2 && 0 <= r < N
    requires x in Faces(Product(N - 1, AxisValues(n)), Face(n))
    ensures Roll(x, r) in Points(N, n)
  {
    PointsMembers(N, n, Roll(x, r));
  }

  /** Coverage: every grid point of the `N`-cube that has a face coordinate is
      an output column. */
  lemma PointsCover(N: nat, n: nat, q: seq<int>)
    requires N >= 2
    requires |q| == N && OnGrid(q, AxisValues(n)) && OnBoundary(q, Face(n))
    ensures q in Points(N, n)
  {
    var vals := AxisValues(n);
    var f := Face(n);
    var i :| 0 <= i < N && (q[i] == f || q[i] == -f);
    var r := if i == N - 1 then 0 else i + 1;
    var x := q[r..] + q[..r];
    RotationBringsLast(q, i, vals);
    FaceColumnIn(N, n, x);
    RollUndoesRotation(q, r);
    RollOfFaceIsPoint(N, n, x, r);
  }

  /** With `n >= 2`, an axis value is a face value exactly when it is not
      one of the `n - 2` inner values. */
  lemma InnerValues(n: nat)
    requires n >= 2
    ensures |Inner(n)| == n - 2
    ensures Distinct(Inner(n))
    ensures forall c :: c in AxisValues(n) ==>
      (c in Inner(n) <==> c != Face(n) && c != -Face(n))
    ensures forall c :: c in Inner(n) ==> c in AxisValues(n)
  {
    var vals := AxisValues(n);
    var inner := Inner(n);
    var f := Face(n);
    AxisValuesIncreasing(n);
    forall a, b | 0 <= a < b < |inner| ensures inner[a] != inner[b] {
      assert inner[a] == vals[a + 1] && inner[b] == vals[b + 1];
    }
    forall c | c in vals ensures c in inner <==> c != f && c != -f {
      var k :| 0 <= k < n && vals[k] == c;
      if 0 < k < n - 1 { assert inner[k - 1] == c; }
      if c in inner {
        var m :| 0 <= m < |inner| && inner[m] == c;
        assert vals[m + 1] == c;
      }
    }
  }

  /** A grid over distinct axis values has `|vals|^N` distinct points. */
  lemma GridSetSize(N: nat, vals: seq<int>)
    requires Distinct(vals)
    ensures |GridSet(N, vals)| == Power(|vals|, N)
  {
    ProductLength(N, vals);
    ProductDistinct(N, vals);
    DistinctCardinality(Product(N, vals));
  }

  /** The inner grid (no face coordinate) lies inside the full grid. */
  lemma InteriorInCube(N: nat, n: nat)
    requires n >= 2
    ensures GridSet(N, Inner(n)) <= GridSet(N, AxisValues(n))
  {
    var vals := AxisValues(n);
    var inner := Inner(n);
    InnerValues(n);
    forall v | v in Product(N, inner) ensures v in Product(N, vals) {
      ProductMembers(N, inner, v);
      ProductMembers(N, vals, v);
    }
  }

  /** Every output column is a cube grid point outside the inner grid. */
  lemma SurfaceInCubeMinusInterior(N: nat, n: nat, q: seq<int>)
    requires N >= 2 && n >= 2 && q in Points(N, n)
    ensures q in Product(N, AxisValues(n)) && q !in Product(N, Inner(n))
  {
    var f := Face(n);
    var s, x := PointSource(N, n, q);
    RolledFaceOnGrid(N, n, x, s);
    PointsOnBoundary(N, n);
    ProductMembers(N, AxisValues(n), q);
    InnerValues(n);
    ProductMembers(N, Inner(n), q);
    var k :| 0 <= k < N && (q[k] == f || q[k] == -f);
  }

  /** Every cube grid point outside the inner grid is an output column. */
  lemma CubeMinusInteriorInSurface(N: nat, n: nat, q: seq<int>)
    requires N >= 2 && n >= 2
    requires q in Product(N, AxisValues(n)) && q !in Product(N, Inner(n))
    ensures q in Points(N, n)
  {
    var vals := AxisValues(n);
    var inner := Inner(n);
    ProductMembers(N, vals, q);
    ProductMembers(N, inner, q);
    var k :| 0 <= k < N && q[k] !in inner;
    assert q[k] in vals;
    InnerValues(n);
    PointsCover(N, n, q);
  }

  /** The output columns are exactly the grid points of the cube that are not
      inner grid points. */
  lemma SurfaceIsCubeMinusInterior(N: nat, n: nat)
    requires N >= 2 && n >= 2
    ensures (set q | q in Points(N, n)) ==
      GridSet(N, AxisValues(n)) - GridSet(N, Inner(n))
  {
    forall q | q in Points(N, n)
      ensures q in Product(N, AxisValues(n)) && q !in Product(N, Inner(n))
    {
      SurfaceInCubeMinusInterior(N, n, q);
    }
    forall q | q in Product(N, AxisValues(n)) && q !in Product(N, Inner(n))
      ensures q in Points(N, n)
    {
      CubeMinusInteriorInSurface(N, n, q);
    }
  }

  /** Counting: with `n >= 2` samples per axis the output holds exactly the
      `n^N - (n-2)^N` grid points of the cube surface. */
  lemma PointsCount(N: nat, n: nat)
    requires N >= 2 && n >= 2
    ensures |Points(N, n)| == Power(n, N) - Power(n - 2, N)
  {
    var vals := AxisValues(n);
    var inner := Inner(n);
    var pts := Points(N, n);
    var cube := GridSet(N, vals);
    var interior := GridSet(N, inner);
    var surface := set q | q in pts;
    AxisValuesDistinct(n);
    InnerValues(n);
    GridSetSize(N, vals);
    GridSetSize(N, inner);
    SortedIsDistinct(pts);
    DistinctCardinality(pts);
    InteriorInCube(N, n);
    SurfaceIsCubeMinusInterior(N, n);
    assert cube == (cube - interior) + interior;
    assert (cube - interior) * interior == {};
  }

  /** The output never has more columns than the `2N n^(N-1)` rolled face
      columns it was deduplicated from. */
  lemma PointsCountBound(N: nat, n: nat)
    requires N >= 2
    ensures |Points(N, n)| <= 2 * N * Power(n, N - 1)
  {
    var rolled := RollCopies(Faces(Product(N - 1, AxisValues(n)), Face(n)), N);
    UniqueLength(rolled);
    RolledShape(N, n);
  }

  /** A column with a face coordinate `±f` has squared norm at least `f^2`. */
  lemma {:induction false} SqNormOnBoundary(q: seq<int>, f: int)
    requires OnBoundary(q, f)
    ensures SqNorm(q) >= f * f
    decreases |q|
  {
    SqNormNonNegative(q[1..]);
    if q[0] != f && q[0] != -f {
      assert q == [q[0]] + q[1..];
      SqNormOnBoundary(q[1..], f);
    }
  }

  lemma {:induction false} SqNormNonNegative(q: seq<int>)
    ensures SqNorm(q) >= 0
    decreases |q|
  {
    if |q| > 0 {
      SqNormNonNegative(q[1..]);
    }
  }

  /** No output column is the origin, so the normaliser never divides by zero:
      each column has `N` coordinates and a squared norm at least the squared
      face value, which is positive. */
  lemma PointsNonZeroNorm(N: nat, n: nat)
    requires N >= 2
    ensures forall q :: q in Points(N, n) ==> |q| == N && SqNorm(q) >= Face(n) * Face(n) > 0
  {
    var f := Face(n);
    assert f * f >= f * 1 > 0;
    PointsOnBoundary(N, n);
    forall q | q in Points(N, n) ensures SqNorm(q) >= Face(n) * Face(n) {
      SqNormOnBoundary(q, Face(n));
    }
  }

  /** The default sampler (`n_dims = 3`, `n_samples = 5`) yields the 98 grid
      points on the six faces of a 5x5x5 cube. */
  lemma DefaultSampleCount()
    ensures |Points(3, 5)| == 98
  {
    PointsCount(3, 5);
    assert Power(5, 3) == 125 && Power(3, 3) == 27;
  }
}

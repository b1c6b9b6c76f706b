# SNSampler core in Dafny

This project models the two computational pieces of the `snsampler` package.

- **`SNSampler.__init__`**: the deterministic sphere sampler of Yershova and LaValle.
  - It builds an `(N-1)`-dimensional grid of `n` evenly spaced values per axis on `[-1, 1]`.
  - It places that grid on the two opposite faces `x_N = -1` and `x_N = +1` of the `N`-cube.
  - It rolls the coordinates of the face points `N` times, once per axis.
  - It deduplicates the columns with `np.unique(axis=1)`.
  - It divides each column by its Euclidean norm.

  The model covers everything up to the division. It also covers the fact that makes the division safe: no column is the origin.
- **`multimatmul`**: the batched matrix product.
  - A `(D1, M, B)` array is a batch of `B` matrices of size `D1 x M`, stacked along the last axis.
  - The batch axis is moved to the front, `np.matmul` multiplies slice by slice, and the batch axis is moved back.

Modules:

- `Unique` (`unique.dfy`): column deduplication as `np.unique(..., axis=1)` does it. The result is the distinct columns in strictly increasing lexicographic order.
- `Grid` (`grid.dfy`): the regular grid that `np.meshgrid` and the reshape/concatenate steps produce. It is written as the `d`-fold product of one sequence of axis values, as each axis holds the same linspace values.
- `SNSampler` (`sn_sampler.dfy`): axis values, the two faces, `np.roll`, the constructor pipeline, and its properties.
- `AuxArrayOps` (`aux_array_ops.dfy`): 3-D arrays with an explicit shape, `rollaxis`, `matmul` and `multimatmul`, and their properties.

## Encoding of the sampler's coordinates

`np.linspace(-1., 1., n)` is represented by scaled integers:

- axis value `k` becomes `2k - (n - 1)`, so the faces sit at `±(n - 1)`;
- for `n == 1`, linspace yields the single value `-1.0`, which is kept as `-1` with faces at `±1`.

The scaling is strictly increasing. Line 26 calls `np.linspace` once per axis with the same arguments, and the call is deterministic, so every axis holds a bitwise-identical array. Equality and lexicographic order of columns are therefore those of the floating-point columns. Three facts make this exact:

- linspace returns its end points exactly;
- the face values are `±1.0 * ones`, so they also equal the end points exactly;
- equal axis values on different axes are bitwise-identical results of the same deterministic linspace call.

The model covers two of the constructor's error cases, as `Err` results (numpy's own resource limits are listed under "## Left out"):

- `n_dims < 2`: the list comprehension over `range(n_dims - 1)` is empty, `np.meshgrid()` returns nothing, and `np.concatenate` of an empty tuple raises. This is `NoAxes`.
- `n_samples < 0`: `np.linspace` raises. This is `NegativeSampleCount`.

Two cases that might look like errors are not:

- `n == 1` raises nothing in the code.
  - The single grid value `-1.0` coincides with the lower face value.
  - The output holds the `-1/+1` columns that the rolls produce.
  - The model computes exactly that, so it does not require `n >= 2`.
  - The counting lemmas (`PointsCount`, `PointsOnGrid`) do need `n >= 2`: with `n == 1`, the face value `+1` is not an axis value.
- `n == 0` gives an empty linspace, hence an empty grid and no points. The model returns `Ok([])`, as recent numpy does; see `SNSampler.Sample` under "## Left out" for older numpy.

## Model

| member | source | states |
|---|---|---|
| Unique.Unique | SNSampler.py:43-49 | the result of deduplication is strictly lexicographically increasing, and a column is in it exactly when it is a column of the input: nothing added, nothing lost |
| Unique.Insert | SNSampler.py:43-49 | inserting a column into a strictly sorted sequence keeps it strictly sorted, and its column set becomes the old set plus the new column |
| Unique.UniqueLength | SNSampler.py:43-49 | the deduplicated columns are pairwise distinct, and their number is the number of distinct input columns, at most the input's length |
| Unique.LexLess | SNSampler.py:43-49 | the order `np.unique` sorts columns by: coordinate by coordinate, a proper prefix first; `LexIrreflexive`, `LexTransitive` and `LexTotal` prove it a strict total order |
| Unique.LexTransitive | SNSampler.py:43-49 | the lexicographic order that `np.unique` sorts by is transitive |
| Unique.LexTotal | SNSampler.py:43-49 | any two different columns are ordered one way or the other |
| Unique.LexIrreflexive | SNSampler.py:43-49 | no column is lexicographically smaller than itself |
| Unique.SortedIsDistinct | SNSampler.py:43-49 | strictly sorted columns are pairwise distinct |
| Unique.DistinctCardinality | SNSampler.py:43-49 | a sequence without repeats has as many distinct values as entries |
| Unique.CardinalityBound | SNSampler.py:43-49 | a sequence has at most as many distinct values as entries |
| Grid.Extend | SNSampler.py:25-31 | one more meshgrid axis: each grid column followed by each axis value; `ExtendLength`, `ExtendMembers` and `ExtendDistinct` give its size, its members and the absence of repeats |
| Grid.ExtendLength | SNSampler.py:25-31 | adding one grid axis multiplies the number of columns by the number of axis values |
| Grid.ExtendMembers | SNSampler.py:25-31 | a column of the extended grid is a column of the smaller grid followed by an axis value, and conversely |
| Grid.ExtendDistinct | SNSampler.py:25-31 | adding an axis of distinct values to a grid without repeats creates no repeats |
| Grid.Product | SNSampler.py:25-31 | the meshgrid over `d` axes, flattened to columns; `ProductLength`, `ProductMembers`, `ProductDistinct` and `ProductExactlyOnce` prove it holds each of the `n^d` combinations of axis values exactly once |
| Grid.ProductLength | SNSampler.py:25-31 | the `d`-dimensional grid has `n^d` columns |
| Grid.ProductMembers | SNSampler.py:25-31 | the grid columns are exactly the length-`d` vectors whose coordinates are all axis values |
| Grid.ProductDistinct | SNSampler.py:25-31 | with distinct axis values no grid column repeats |
| Grid.ProductExactlyOnce | SNSampler.py:25-31 | the grid has `n^d` columns and holds every combination of axis values exactly once |
| SNSampler.Face | SNSampler.py:36-38 | the face coordinate `+1.0` in scaled form is positive, and is `n - 1` when `n >= 2` |
| SNSampler.AxisValues | SNSampler.py:26 | linspace yields `n` values, the first `-1` and the last `+1` in scaled form |
| SNSampler.AxisValuesIncreasing | SNSampler.py:26 | the axis values increase strictly |
| SNSampler.AxisValuesDistinct | SNSampler.py:26 | the axis values are pairwise distinct |
| SNSampler.GridExactlyOnce | SNSampler.py:25-31 | the `(N-1)`-grid has `n^(N-1)` columns, each combination of axis values exactly once |
| SNSampler.Faces | SNSampler.py:32-42 | the two faces together hold twice as many columns as the grid |
| SNSampler.FacesLayout | SNSampler.py:32-42 | face column `j` copies grid column `j` (first half) or `j - |g|` (second half) and ends in `-1` in the first half and `+1` in the second |
| SNSampler.FacesMembers | SNSampler.py:32-42 | a column is a face column exactly when it is a grid column followed by `-1` or `+1` |
| SNSampler.FacesShape | SNSampler.py:32-42 | the face set has `2 n^(N-1)` columns of length `N` |
| SNSampler.Roll | SNSampler.py:45 | a roll keeps the column's length |
| SNSampler.RollAt | SNSampler.py:45 | coordinate `i` of `np.roll(p, r)` is coordinate `(i - r) mod N` of `p` |
| SNSampler.RollPermutes | SNSampler.py:45 | a roll permutes the coordinates: same multiset |
| SNSampler.RolledCopy | SNSampler.py:45 | `np.roll(pts, r, axis=0)`: every column rolled by `r`; `RollAt` gives each rolled coordinate and `RollPermutes` the preserved multiset |
| SNSampler.RollCopies | SNSampler.py:44-46 | the concatenation of the rolls by `0 .. k-1` of the face columns; `RollCopiesLength` and `RollCopiesMembers` give its size and exactly its members |
| SNSampler.RollCopiesLength | SNSampler.py:44-46 | concatenating `N` rolled copies gives `N` times the columns |
| SNSampler.RollCopiesMembers | SNSampler.py:44-46 | a column of the concatenation is exactly a roll by some `s < N` of a face column |
| SNSampler.RollCopiesSource | SNSampler.py:44-46 | every column of the concatenation is a roll by some `s < N` of a face column, with that roll and column as witnesses |
| SNSampler.RollCopiesAt | SNSampler.py:44-46 | column `i` of the concatenation is a roll by some `s < N` of a face column |
| SNSampler.RollCopiesComplete | SNSampler.py:44-46 | every roll by `s < N` of a face column is a column of the concatenation |
| SNSampler.RolledShape | SNSampler.py:44-46 | the `N` rolls together hold `2N n^(N-1)` columns |
| SNSampler.Points | SNSampler.py:25-49 | the constructor's point set, before normalisation, is strictly lexicographically sorted |
| SNSampler.PointsMembers | SNSampler.py:43-49 | a column is an output point exactly when it is a roll by some `s < N` of a face column |
| SNSampler.PointSource | SNSampler.py:43-49 | every output point comes from a face column and a roll by `s < N` |
| SNSampler.Sample | SNSampler.py:23-51 | of the error cases the model covers, the constructor fails exactly when `n_dims < 2` (no axes) or `n_samples < 0`; otherwise it yields sorted distinct columns of `n_dims` coordinates, each with a face coordinate |
| SNSampler.PointsOnBoundary | SNSampler.py:32-49 | every output column has `N` coordinates, one of them exactly `-1` or `+1` |
| SNSampler.FaceIsAxisValue | SNSampler.py:25-38 | with `n >= 2` both face values are linspace values |
| SNSampler.RollOnGrid | SNSampler.py:45 | a roll of a grid point is a grid point |
| SNSampler.FaceColumnOnGrid | SNSampler.py:32-42 | with face values among the axis values, every face column is a grid point |
| SNSampler.RolledFaceOnGrid | SNSampler.py:32-45 | with `n >= 2`, a rolled face column is a point of the `N`-dimensional grid |
| SNSampler.PointsOnGrid | SNSampler.py:25-49 | with `n >= 2`, every output column is a point of the `N`-dimensional grid |
| SNSampler.RollUndoesRotation | SNSampler.py:45 | rolling by `r` undoes a left rotation by `r` |
| SNSampler.RotationBringsLast | SNSampler.py:45 | a suitable rotation brings coordinate `i` last and keeps the rest on the grid |
| SNSampler.FaceColumnIn | SNSampler.py:32-42 | a grid point of length `N-1` followed by a face value is a face column |
| SNSampler.RollOfFaceIsPoint | SNSampler.py:43-49 | every roll by `r < N` of a face column is an output point |
| SNSampler.PointsCover | SNSampler.py:43-49 | coverage: every point of the `N`-cube grid with a face coordinate is an output point |
| SNSampler.InnerValues | SNSampler.py:26 | with `n >= 2`, the `n - 2` inner axis values are distinct, and an axis value is inner exactly when it is not a face value |
| SNSampler.GridSetSize | SNSampler.py:25-31 | a grid over `n` distinct values in `N` dimensions has `n^N` distinct points |
| SNSampler.InteriorInCube | SNSampler.py:25-31 | the grid without face coordinates lies inside the full grid |
| SNSampler.SurfaceInCubeMinusInterior | SNSampler.py:43-49 | every output column is a cube grid point with some coordinate outside the inner values |
| SNSampler.CubeMinusInteriorInSurface | SNSampler.py:43-49 | every cube grid point with some coordinate outside the inner values is an output column |
| SNSampler.SurfaceIsCubeMinusInterior | SNSampler.py:43-49 | the output set is exactly the `N`-cube grid minus its interior grid |
| SNSampler.PointsCount | SNSampler.py:43-49 | with `n >= 2` the output has exactly `n^N - (n-2)^N` columns |
| SNSampler.PointsCountBound | SNSampler.py:43-49 | the output has at most `2N n^(N-1)` columns |
| SNSampler.SqNorm | SNSampler.py:50 | `(pts**2).sum(axis=0)` for one column; `SqNormNonNegative` and `SqNormOnBoundary` bound it below, by zero and by the squared face value |
| SNSampler.SqNormOnBoundary | SNSampler.py:50 | a column with a face coordinate has squared norm at least the squared face value |
| SNSampler.SqNormNonNegative | SNSampler.py:50 | a squared norm is never negative |
| SNSampler.PointsNonZeroNorm | SNSampler.py:50-51 | every output column has `N` coordinates and a positive squared norm, so the normaliser never divides by zero |
| SNSampler.DefaultSampleCount | SNSampler.py:23 | the default sampler (`n_dims = 3`, `n_samples = 5`) yields 98 points |
| AuxArrayOps.Sum | AuxArrayOps.py:37-43 | the sum that every entry of the product is; `SumZero`, `SumOneHot`, `SumScale`, `SumAdd`, `SumSwap` and `SumConstant` prove the algebra the product lemmas use |
| AuxArrayOps.Dot | AuxArrayOps.py:38-41 | the row-by-column inner product inside `np.matmul`; `DotIsSum` proves it equal to the sum of the pointwise products |
| AuxArrayOps.Column | AuxArrayOps.py:38-41 | column `j` of a matrix, the right operand of each inner product; `SliceDot` ties row times column of two slices to the entry terms |
| AuxArrayOps.MatMul | AuxArrayOps.py:38-41 | the product of an `n x m` and an `m x p` matrix is `n x p` |
| AuxArrayOps.Slice | AuxArrayOps.py:27-30 | slice `k` of a `(D1, M, B)` array is a `D1 x M` matrix |
| AuxArrayOps.BatchFirst | AuxArrayOps.py:39-40 | `np.rollaxis(a, 2)` gives `B` matrices of size `D1 x M` |
| AuxArrayOps.BatchLast | AuxArrayOps.py:37-43 | `np.rollaxis(c, 0, 3)` of `B` matrices of size `n x p` is a valid `(n, p, B)` array |
| AuxArrayOps.EntryTerms | AuxArrayOps.py:22 | the products summed for one entry are `M` in number |
| AuxArrayOps.MultiMatMul | AuxArrayOps.py:18-43 | the result has shape `(D1, D2, B)`, and entry `[i, j, k]` is the sum over `m < M` of `a[i, m, k] * b[m, j, k]` |
| AuxArrayOps.DotIsSum | AuxArrayOps.py:38-41 | the row-by-column inner product is the sum of the pointwise products |
| AuxArrayOps.SliceDot | AuxArrayOps.py:38-41 | row `i` of slice `k` of `a` times column `j` of slice `k` of `b` is the entry sum |
| AuxArrayOps.SumOneHot | AuxArrayOps.py:22 | a sum with a single nonzero term equals that term |
| AuxArrayOps.SumZero | AuxArrayOps.py:22 | a sum of zeros is zero |
| AuxArrayOps.SumScale | AuxArrayOps.py:22 | a common factor comes out of a sum on either side |
| AuxArrayOps.SumAdd | AuxArrayOps.py:22 | the sum of pointwise sums is the sum of the sums |
| AuxArrayOps.RowSums | AuxArrayOps.py:22 | a table of `n` rows has `n` row sums |
| AuxArrayOps.ColSums | AuxArrayOps.py:22 | a table of `m` columns has `m` column sums |
| AuxArrayOps.SumSwap | AuxArrayOps.py:22 | a finite double sum may be taken in either order |
| AuxArrayOps.RollAxisRoundTrip | AuxArrayOps.py:37-43 | moving the batch axis to the front and back again is the identity, and so is the converse |
| AuxArrayOps.ArrayExt | AuxArrayOps.py:32-34 | two arrays of one shape that agree entrywise are equal |
| AuxArrayOps.SliceProduct | AuxArrayOps.py:37-43 | slice `k` of the result is the ordinary matrix product of slice `k` of `a` and slice `k` of `b` |
| AuxArrayOps.BatchIndependence | AuxArrayOps.py:37-43 | slice `k` of the result depends only on slice `k` of each operand |
| AuxArrayOps.EmptyBatch | AuxArrayOps.py:37-43 | with `B = 0` the result is the empty `(D1, D2, 0)` array |
| AuxArrayOps.Identity | AuxArrayOps.py:22 | a batch of `B` identity matrices of order `m` has shape `(m, m, B)` |
| AuxArrayOps.IdentityNeutral | AuxArrayOps.py:22-43 | multiplying by a batch of identity matrices, on either side, returns `a` unchanged |
| AuxArrayOps.IdentityRightEntry | AuxArrayOps.py:22-43 | each entry of `a` times identity matrices is the same entry of `a` |
| AuxArrayOps.IdentityLeftEntry | AuxArrayOps.py:22-43 | each entry of identity matrices times `a` is the same entry of `a` |
| AuxArrayOps.TripleTerms | AuxArrayOps.py:22 | the terms of an entry of a triple product form a `D2 x M` table |
| AuxArrayOps.TripleRows | AuxArrayOps.py:22-43 | an entry of `(a b) c` is the sum of the row sums of the triple terms |
| AuxArrayOps.TripleRow | AuxArrayOps.py:22-43 | each term of an entry of `(a b) c` is a row sum of the triple terms |
| AuxArrayOps.TripleColumns | AuxArrayOps.py:22-43 | an entry of `a (b c)` is the sum of the column sums of the triple terms |
| AuxArrayOps.TripleColumn | AuxArrayOps.py:22-43 | each term of an entry of `a (b c)` is a column sum of the triple terms |
| AuxArrayOps.AssociativeEntry | AuxArrayOps.py:22-43 | each entry of `(a b) c` equals that of `a (b c)` |
| AuxArrayOps.Associative | AuxArrayOps.py:22-43 | the batched product is associative |
| AuxArrayOps.Constant | AuxArrayOps.py:27-34 | a `(d0, d1, d2)` array all of whose entries equal `c` |
| AuxArrayOps.SumConstant | AuxArrayOps.py:22 | `M` equal terms sum to `M` times the term |
| AuxArrayOps.ConstantProduct | AuxArrayOps.py:18-43 | the product of a `(D1, M, B)` array of `x` and an `(M, D2, B)` array of `y` is the `(D1, D2, B)` array of `M x y` |
| AuxArrayOps.ConstantEntry | AuxArrayOps.py:18-43 | each entry of the product of constant batches of `x` and `y` with inner size `M` is `M x y` |
| AuxArrayOps.ConstantTerms | AuxArrayOps.py:22 | every product summed for an entry of constant batches of `x` and `y` is `x y` |
| AuxArrayOps.OnesExample | AuxArrayOps.py:27-34 | four `2 x 3` all-ones matrices times four `3 x 2` all-ones matrices give four `2 x 2` matrices of threes |

## Left out

- The division by the norm and the `np.sqrt` at SNSampler.py:50-51 are floating-point numerics and are not modelled. Only the positivity of the squared norm, which makes the division defined, is proved (`PointsNonZeroNorm`).
- The floating-point values of `np.linspace` are replaced by the scaled integers described above. This is exact for equality and order, which are all the pipeline uses before the division.
- The column order of `np.meshgrid` (its `'xy'` indexing) is not modelled. The grid is built in an order of the model's own, and `np.unique` sorts, so the output does not depend on it.
- The sorting algorithm inside `np.unique` is not modelled. `Unique.Unique` specifies its result (strictly sorted, same column set) and computes it by insertion.
- `self.sample_points` is an attribute written once. `SNSampler.Sample` returns the point set instead of storing it.
- SNSampler.Sample: for `n_samples == 0` the model returns `Ok([])`, following numpy versions whose `np.unique(..., axis=1)` accepts an empty `(N, 0)` array and returns it unchanged. Older numpy versions raise `ValueError` at SNSampler.py:43 there, because the `axis` path reshapes the zero-size array with `-1`. That version-dependent error is not modelled.
- SNSampler.Sample: failures that come from numpy's resource limits are not modelled. SNSampler.py:25-26 hands `n_dims - 1` arrays to `np.meshgrid`, which reshapes each to an `(n_dims - 1)`-dimensional shape; numpy caps the number of dimensions (32 in numpy 1.x, 64 in 2.x), so large `n_dims` raises `ValueError` there, while the model returns `Ok`. Grids too large for memory raise `MemoryError`, which the model, working on unbounded sequences, does not show either.
- Non-integer `n_samples` (which `np.linspace` rejects) and non-integer `n_dims` (which `range` rejects) are outside the model, whose parameters are integers.
- AuxArrayOps.MultiMatMul: `np.matmul` broadcasts a batch of size 1 against a larger batch. The model instead requires equal batch sizes and a matching inner dimension `M`, the shapes its docstring demands. Other shapes, which numpy rejects or broadcasts, are not modelled.
- AuxArrayOps.MultiMatMul: entries are mathematical reals; floating-point rounding, and hence the exact float results of associativity, are not modelled.
- Quaternion-to-rotation conversion, antipodal filtering, skew matrices and transformation sequences are not part of this model: they lie outside the two kernels it covers, the constructor's point construction and the batched product.

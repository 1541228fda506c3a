# SparseUtils bookkeeping, modelled in Dafny

This project models the index and bookkeeping layer of `SparseUtils` (`exp/util/SparseUtils.py`), a helper
class for sparse low-rank matrix experiments. The numerical work is done by external solvers and is
not modelled. What is modelled is the code around those solvers:

- partial reconstruction of `U diag(s) Vᵀ` and of `P Qᵀ` at chosen positions, which turns flat
  indices into `(row, col)` pairs, with deduplication (`reconstructLowRank`, `reconstructLowRankPQ`);
- centring the stored nonzeros by row or column mean, and undoing it (`centerRows`, `centerCols`,
  `uncenterRows`, `uncenter`);
- choosing stored entries by position (`submatrix`);
- per-line nonzero shares (`nonzeroRowColsProbs`);
- keeping only the well-filled rows and columns (`pruneMatrix`);
- the selection and soft threshold that end `svdSoft`, the `k`/`kmax` defaults of `svdPropack` and
  `svdArpack`, and the rank clamp of `generateLowRank`.

A sparse matrix is a shape `(m, n)` plus the sequence of its stored `(row, col, value)` triples; for an
input matrix they are in the order of `X.data` (`Sparse.Matrix`). Values are exact `real`s. `Sparse.Valid` says every triple lies
inside the shape and no position is stored twice. `X.nnz` is the number of stored triples. `X.nonzero()`
yields the triples whose value is not zero (`Sparse.NonzeroCoords`). Explicit stored zeros are a
separate condition (`Sparse.NoStoredZeros`), because centring can create them.

The compiled kernels are modelled by what they compute:
- `partialOuterProduct(rows, cols, u, v)` gives `u[rows[i]] * v[cols[i]]`;
- `partialReconstructPQ` stores `P[r] · Q[c]` at each requested `(r, c)`.

Random draws are parameters, each carrying its generator's promise as a precondition:
- `numpy.random.randint(0, m*n, k)` yields `k` indices in range;
- `numpy.random.permutation(nnz)` yields a permutation.

Errors are `Wrappers.Result` values. `ValueError` carries the message the source raises; `IndexError`
stands for an index past the end of `X.data`.

Modules follow the source's concerns:
- `Wrappers`: `Option` and `Result`.
- `Sparse`: the matrix, its lines and the `nonzero()` view.
- `Counting`: `bincount`, `nonzeroRowColsProbs`.
- `Centering`: the centring operations and their round trips.
- `Indexing`: `unravel_index`, `unique`.
- `Reconstruct`: the two reconstructions.
- `Selection`: `submatrix`, `pruneMatrix`.
- `Spectral`: the `svdSoft` tail, SVD defaults and the rank clamp.

The docstring of `reconstructLowRank` gives the index range as `[0, U.shape[0]*V.shape[0]]`, inclusive.
`numpy.unravel_index` rejects `m*n` itself, and the model follows the code: such an index is a
`ValueError`.

## Model

| member | source | states |
|---|---|---|
| Sparse.NonzeroCoordsCount | exp/util/SparseUtils.py:298 | the number of times line `k` occurs in the `nonzero()` coordinates is the number of stored nonzeros on line `k` |
| Sparse.LineSumOfNonzeros | exp/util/SparseUtils.py:306 | the sum of a line's stored values (`X.sum(1)`) equals the sum of its stored nonzeros |
| Sparse.NonzeroCoordsAligned | exp/util/SparseUtils.py:344-352 | without stored zeros, `X.nonzero()` lists every stored entry, position for position with `X.data` |
| Sparse.NonzeroCoords | exp/util/SparseUtils.py:289 | one component of `X.nonzero()`: no longer than the stored entries; which lines occur is stated by `Sparse.NonzeroCoordsMembers` |
| Sparse.NonzeroCoordsMembers | exp/util/SparseUtils.py:289 | a line occurs in the `nonzero()` coordinates exactly when some stored nonzero lies on it |
| Sparse.LineSum | exp/util/SparseUtils.py:306 | `X.sum(1)[k]` (or `X.sum(0)[k]` at line 332) adds the stored values on line `k`; a line with no stored entry sums to zero |
| Counting.Bincount | exp/util/SparseUtils.py:412-413 | bin `b` of the count is the multiplicity of `b` among the indices, for every `b` below the minimum length |
| Counting.NonzeroCounts | exp/util/SparseUtils.py:411-413 | one count per row (or column); count `k` is the number of stored nonzeros on line `k`; the counts add up to the number of nonzeros |
| Counting.Proportion | exp/util/SparseUtils.py:415-416 | a count divided by `nnz` lies in `[0, 1]` and multiplies back to the count; `0/0` is undefined (NaN) exactly when `nnz` is zero |
| Counting.Proportions | exp/util/SparseUtils.py:415-416 | the element-wise division of a count vector by `nnz`: one share per count, element `k` being count `k` over `nnz` |
| Counting.NonzeroRowColsProbs | exp/util/SparseUtils.py:407-418 | `u` has one element per row and `v` one per column; `u[r]` is row `r`'s nonzero count over `nnz`, and `v[c]` likewise per column |
| Counting.ProbsSumToOne | exp/util/SparseUtils.py:407-418 | with at least one stored entry and no stored zeros, every share is defined, and `u` and `v` each sum to one |
| Counting.SumProportions | exp/util/SparseUtils.py:415-416 | dividing each count by the total and adding up gives the sum of the counts over the total |
| Centering.PartialOuterProduct | exp/util/SparseUtils.py:310 | the compiled kernel returns exactly one element per coordinate pair |
| Centering.PartialOuterProductEntries | exp/util/SparseUtils.py:310 | the documented contract of the compiled kernel: element `i` is `u[rows[i]] * v[cols[i]]` |
| Centering.LineOffsets | exp/util/SparseUtils.py:310 | `partialOuterProduct` over `X.nonzero()` with `mu` and a vector of ones (lines 310, 335, 354, 369-370): without stored zeros, offset `i` is the `mu` of stored entry `i`'s row (or column) |
| Centering.NonzeroMeans | exp/util/SparseUtils.py:296-308 | computed as the source does it (empty lines get divisor one, then mean zero); `mu[k]` equals the mean of line `k`'s stored nonzeros, and zero for an empty line |
| Centering.CenterRows | exp/util/SparseUtils.py:284-313 | shape and stored positions unchanged, still canonical; each stored value loses `mu[row]`; a supplied `mu` is returned as is, otherwise `mu[r]` is row `r`'s nonzero mean |
| Centering.CenterCols | exp/util/SparseUtils.py:316-338 | the same per column: each stored value loses `mu[col]`; a supplied `mu` is kept, otherwise `mu[c]` is column `c`'s nonzero mean |
| Centering.UncenterRows | exp/util/SparseUtils.py:342-357 | `ValueError("Invalid number of rows")` exactly when `len(mu)` differs from the row count; otherwise each stored value gains `mu[row]`, and pattern and shape are unchanged |
| Centering.Uncenter | exp/util/SparseUtils.py:360-373 | each stored value gains `mu1[row] + mu2[col]`; shape, positions and order are unchanged |
| Centering.UncenterRowsAfterCenterRows | exp/util/SparseUtils.py:343-355 | `uncenterRows` with the means `centerRows` used gives back the original matrix, when no centred entry became zero and a supplied `mu` has one mean per row |
| Centering.UncenterAfterDoubleCentring | exp/util/SparseUtils.py:360-371 | `uncenter` with the row means of `centerRows` and the column means of the `centerCols` that followed gives back the original matrix, when neither step left a stored zero |
| Indexing.Unravel | exp/util/SparseUtils.py:104 | the row-major position `(i / n, i % n)` has a column below `n` and ravels back to `i` |
| Indexing.UnravelInShape | exp/util/SparseUtils.py:104 | every flat index below `m*n` unravels to a row below `m` |
| Indexing.UnravelRavel | exp/util/SparseUtils.py:104 | unravelling inverts ravelling on positions with a column below `n` |
| Indexing.RavelOrder | exp/util/SparseUtils.py:103-104 | a smaller flat index is an earlier position in row-major order |
| Indexing.Unique | exp/util/SparseUtils.py:103 | the result is strictly increasing, holds exactly the values of the input, and is no longer than it |
| Indexing.UnravelAll | exp/util/SparseUtils.py:104 | `ValueError` exactly when some index lies outside `[0, m*n)`; otherwise one in-shape position per index, each ravelling back to its index |
| Indexing.UniquePositions | exp/util/SparseUtils.py:101-110 | an error exactly when some index is out of range; otherwise distinct in-shape positions in row-major order, no more than the indices, each the unravelling of some index, and every index's unravelling among them |
| Reconstruct.PartialReconstructPQ | exp/util/SparseUtils.py:114 | the documented contract of the compiled kernel: one stored entry per requested position, holding `P[r] · Q[c]` |
| Reconstruct.ScaleColumns | exp/util/SparseUtils.py:114 | `U*s`: as many rows as `U`, each of width `len(s)`, row `i` being row `i` of `U` with element `j` scaled by `s[j]` |
| Reconstruct.ScaledDot | exp/util/SparseUtils.py:114 | `(U*s)[r] · V[c]` equals the `(r, c)` entry of `U diag(s) Vᵀ` |
| Reconstruct.SelectedPlaces | exp/util/SparseUtils.py:99-110 | an index array or a count of draws gives distinct in-shape positions, at most as many as indices or draws; a tuple is used position for position; an out-of-range index or a count on an empty shape is a `ValueError` |
| Reconstruct.ReconstructLowRank | exp/util/SparseUtils.py:93-116 | an `m × n` result whose every stored value is the `(row, col)` entry of `U diag(s) Vᵀ`, stored exactly at the selected positions; with an index array or a count it is canonical, and a count of `k` stores at most `k` entries |
| Reconstruct.ReconstructLowRankCoverage | exp/util/SparseUtils.py:101-104 | with an index array, every stored position ravels to one of the indices, and every index's position is stored |
| Reconstruct.ReconstructLowRankPQ | exp/util/SparseUtils.py:119-135 | entries of `P Qᵀ` at the requested positions; distinct flat indices give one canonical entry per index that ravels back to it, and an out-of-range index is a `ValueError`; a tuple gives its positions in order |
| Selection.Submatrix | exp/util/SparseUtils.py:376-389 | `IndexError` exactly when an index is past the last stored entry; otherwise the same shape, entry `j` is the stored entry at `inds[j]` with its row, column and value, and distinct indices give a canonical matrix |
| Selection.SliceStop | exp/util/SparseUtils.py:382 | the stop of `a[0:k]`: at most the length; for `k >= 0`, `k` capped at the length; for negative `k`, counted back from the end, floored at zero |
| Selection.SubmatrixSample | exp/util/SparseUtils.py:381-389 | for a count, the first `k` positions of a permutation give a canonical matrix of the same shape, holding distinct stored entries of the input: `min(k, nnz)` of them for `k >= 0`, and `max(nnz + k, 0)` for `k < 0`; entry `j` is stored entry `perm[j]` of the input |
| Selection.KeptFrom | exp/util/SparseUtils.py:430-431 | `arange(len)[counts >= min]` holds exactly the lines whose count reaches the minimum, in strictly increasing order |
| Selection.PruneMatrix | exp/util/SparseUtils.py:421-438 | keeps exactly the rows (columns) whose input nonzero count reaches `minNnzRows` (`minNnzCols`), in increasing order; the result is canonical with one row per kept row and one column per kept column; its entries are exactly the input entries at kept rows and columns, renumbered |
| Selection.PruneIsSinglePass | exp/util/SparseUtils.py:426-433 | counts are taken once on the input: for a 3-entry `2 × 2` matrix and minimum 2, row 1 and column 0 are kept, and the kept row then holds fewer than 2 nonzeros |
| Spectral.Argsort | exp/util/SparseUtils.py:257 | a permutation of the indices with non-decreasing values |
| Spectral.Reverse | exp/util/SparseUtils.py:257 | `numpy.flipud`: the same length, and element `j` is element `|p| - 1 - j` |
| Spectral.ReverseReverse | exp/util/SparseUtils.py:257 | flipping an index list twice gives it back |
| Spectral.KeepAtLeast | exp/util/SparseUtils.py:258 | `inds[s[inds] >= lmbda]` holds exactly the indices of `inds` whose value reaches `lmbda`, all of them valid indices of `s` |
| Spectral.KeepAtLeastInOrder | exp/util/SparseUtils.py:258 | the kept indices are a subsequence of `inds`: they occur there in the same order |
| Spectral.KeepAtLeastCounts | exp/util/SparseUtils.py:258 | an index whose value reaches `lmbda` is kept as often as it occurs in `inds`, any other index not at all |
| Spectral.KeepAtLeastOrdered | exp/util/SparseUtils.py:258 | filtering a repeat-free index list sorted by non-increasing value leaves it repeat-free and sorted |
| Spectral.SelectedIndices | exp/util/SparseUtils.py:257-258 | distinct indices, exactly those whose value reaches `lmbda`, by non-increasing value |
| Spectral.ClipAll | exp/util/SparseUtils.py:264 | `numpy.clip`: with `lo <= hi` every result lies in `[lo, hi]`, and a value already in `[lo, hi]` is unchanged |
| Spectral.ClipNoEffect | exp/util/SparseUtils.py:262-264 | clipping nonnegative values to `[0, max]` changes none of them |
| Spectral.ThresholdValues | exp/util/SparseUtils.py:262-264 | the thresholded values are the kept values minus `lmbda`, nonnegative and non-increasing |
| Spectral.Shifted | exp/util/SparseUtils.py:263 | `s - lmbda` on the kept values: one value per kept index, element `j` being `s[inds[j]] - lmbda` |
| Spectral.Max | exp/util/SparseUtils.py:264 | `numpy.max` of a nonempty sequence: an element of it that no element exceeds |
| Spectral.SoftThreshold | exp/util/SparseUtils.py:257-266 | kept indices are exactly those with `s[i] >= lmbda`, without repeats and by non-increasing value; each result is `s[i] - lmbda`, nonnegative and non-increasing; the result is empty exactly when every value is below `lmbda` |
| Spectral.SvdDefaults | exp/util/SparseUtils.py:181-184 | a missing `k` becomes the smaller dimension (at most either and equal to one); a missing `kmax` becomes 15 times `k`; given values are kept |
| Spectral.SvdSoftParams | exp/util/SparseUtils.py:247-251 | `svdSoft` asks for the smaller dimension as `k`, with `kmax` given or 15 times `k` |
| Spectral.SvdSoftRequestsDefault | exp/util/SparseUtils.py:248-251 | the `k` that `svdSoft` passes equals the default `svdPropack` would choose |
| Spectral.ClampRank | exp/util/SparseUtils.py:70 | the clamped rank is at most each of `n`, `m` and `r`, and equals one of them |

## Left out

- The SVD and eigen solvers are not modelled, because they are external numerical libraries. This covers the bodies of `svdPropack`/`svdArpack` past their defaults, the dense branch of `svdSoft`, `svdSparseLowRank` and `svdSoft2`. The singular values are an input of `Spectral.SoftThreshold`.
- `Util.indSvd` is reduced to the kept indices, because picking the matching columns of `U` and `V` is the same index list.
- `generateSparseLowRank`, `generateSparseLowRank2` and the random/QR part of `generateLowRank` are not modelled, because they are random generation and dense linear algebra. Only the rank clamp at line 70 is modelled.
- `cscToArrays` is not modelled, because it is shared-memory packing for worker processes.
- The `uint8` branch at lines 303-304 is not modelled. In exact arithmetic it computes the same row sums as `X.sum(1)`. Float rounding and the `int32` index casts are not modelled either: values are reals and indices are unbounded.
- The `inds` parameter of `centerRows`/`centerCols`, which supplies the `(rows, cols)` pair in place of `X.nonzero()`, is not modelled. The default path is modelled.
- `mu == None` and `type(k)` tests are modelled with the numpy behaviour the code was written for: an array compares as "not None". Which of the three forms `reconstructLowRank` received is explicit in `Reconstruct.Selection`.
- The storage order of results is not modelled. The source returns `csc_matrix` objects, which store entries column-major. The model keeps the order in which entries are produced. So the results of `ReconstructLowRank`, `ReconstructLowRankPQ`, `Submatrix`, `SubmatrixSample` and `PruneMatrix` are not in the source's `X.data` order. An operation that picks entries by their position in `X.data`, such as `submatrix` with an index array, picks different entries from a model result unless those entries are first put in column-major order.
- Input matrices are canonical (`Sparse.Valid`): no position is stored twice. SciPy COO matrices and non-canonical CSC matrices can hold a position more than once. Each member below that takes a matrix says so on its own line.
- NonzeroCounts: requires a canonical matrix.
- NonzeroRowColsProbs: requires a canonical matrix.
- NonzeroMeans: requires a canonical matrix.
- CenterRows: requires a canonical matrix without explicit stored zeros. The source pairs `X.nonzero()` position for position with `X.data`, and the two line up only without stored zeros.
- CenterRows: asks a supplied `mu` for at least one mean per row. The kernel only reads `mu[row]` for rows holding a nonzero.
- CenterRows: the source overwrites `X.data` of the caller's matrix and returns that same object. The model returns a new matrix and leaves its argument unchanged. The returned matrix is what the caller's `X` holds afterwards in the source.
- CenterCols: requires a canonical matrix without explicit stored zeros, for the same reason as `CenterRows`.
- CenterCols: asks a supplied `mu` for at least one mean per column, for the same reason as `CenterRows`.
- CenterCols: the in-place update of `X.data` is modelled as the returned matrix, as for `CenterRows`.
- UncenterRows: requires a canonical matrix without explicit stored zeros. Its docstring asks callers to call `eliminate_zeros()` first.
- UncenterRows: the in-place update `X.data += vals` is modelled as the returned matrix, which is what the caller's `X` holds afterwards in the source.
- Uncenter: requires a canonical matrix without explicit stored zeros, for the same reason as `CenterRows`.
- Uncenter: asks `mu1` and `mu2` to cover every row and column. The source has no length guard here.
- Uncenter: the in-place update `X.data += vals1 + vals2` is modelled as the returned matrix, which is what the caller's `X` holds afterwards in the source.
- Submatrix: requires a canonical matrix without explicit stored zeros. Its docstring asks for COO input, which may hold a position twice.
- Submatrix: repeated indices are allowed, but then the result is not claimed canonical. The `csc_matrix` constructor would sum the duplicates into one entry; the model lists them separately.
- Submatrix: negative (wrap-around) numpy indices are not modelled; indices are natural numbers.
- SubmatrixSample: requires a canonical matrix without explicit stored zeros, for the same reason as `Submatrix`.
- PruneMatrix: requires a canonical matrix.
- PruneMatrix: with `verbose=False` the source returns only the matrix, which is the `x` field of the result. The defaults `minNnzRows = minNnzCols = 5` are call-site values and not a separate member.
- ReconstructLowRankPQ: requires distinct flat indices, as its docstring demands of callers. Repeated indices would give repeated positions, which the `csc_matrix` result would sum.
- ReconstructLowRankPQ: a `(rowInds, colInds)` tuple is used as it is. A position repeated in the tuple is listed once per occurrence, each time with the entry of `P Qᵀ`. The source's `csc_matrix` would store one entry holding the sum, and the model does not promise that sum. With a tuple, the result is not claimed canonical.
- ReconstructLowRankPQ: a tuple is required to have equally long index lists, with indices inside `|P| × |Q|`. The source passes the tuple to the compiled kernel unchecked.
- ReconstructLowRank: a `(rowInds, colInds)` tuple is used as it is. A position repeated in the tuple is listed once per occurrence, each time with the entry of `U diag(s) Vᵀ`. The source's `csc_matrix` would store one entry holding the sum, and the model does not promise that sum. With a tuple, the result is not claimed canonical.
- ReconstructLowRank: indices in a tuple are required to lie inside the shape.
- ReconstructLowRank: the count of draws is a natural number, because `randint` rejects a negative size before anything here runs.
- SoftThreshold: `numpy.argsort` does not promise an order among equal singular values. The model breaks ties by index, and the contract holds for any tie order.

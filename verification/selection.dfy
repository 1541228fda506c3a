/** Choosing stored entries or whole rows and columns: `submatrix` and `pruneMatrix`. */
module Selection {
  import opened Wrappers
  import opened Sparse
  import opened Counting

  /** `submatrix(X, inds)` with an index array: the stored entries at positions `inds`
      of `X.data`, with their original row, column and value, in a matrix of the same
      shape. An index past the last stored entry is an `IndexError`. */
  function Submatrix(x: Matrix, inds: seq<nat>): (r: Result<Matrix>)
    requires Valid(x) && NoStoredZeros(x)
    ensures r.Err? <==> exists j :: 0 <= j < |inds| && inds[j] >= Nnz(x)
    ensures r.Err? ==> r.error == IndexError
    ensures r.Ok? ==> r.value.m == x.m && r.value.n == x.n && |r.value.entries| == |inds|
    ensures r.Ok? ==> forall j :: 0 <= j < |inds| ==> inds[j] < Nnz(x) && r.value.entries[j] == x.entries[inds[j]]
    ensures r.Ok? && Distinct(inds) ==> Valid(r.value) && NoStoredZeros(r.value)
  {
    if exists j :: 0 <= j < |inds| && inds[j] >= Nnz(x) then Err(IndexError)
    else
      NonzeroCoordsAligned(x.entries, Rows);
      NonzeroCoordsAligned(x.entries, Cols);
      var rowInds, colInds, vals := NonzeroCoords(x.entries, Rows), NonzeroCoords(x.entries, Cols), Data(x);
      var y := Matrix(x.m, x.n, seq(|inds|, j requires 0 <= j < |inds| =>
        Entry(rowInds[inds[j]], colInds[inds[j]], vals[inds[j]])));
      PickedValid(x, inds, y);
      Ok(y)
  }

  /** Picking distinct stored entries of a canonical matrix gives a canonical matrix. */
  lemma PickedValid(x: Matrix, inds: seq<nat>, y: Matrix)
    requires Valid(x) && NoStoredZeros(x)
    requires y.m == x.m && y.n == x.n && |y.entries| == |inds|
    requires forall j :: 0 <= j < |inds| ==> inds[j] < |x.entries| && y.entries[j] == x.entries[inds[j]]
    ensures Distinct(inds) ==> Valid(y) && NoStoredZeros(y)
  {
    if Distinct(inds) {
      forall j, l | 0 <= j < l < |inds| ensures !SamePlace(y.entries[j], y.entries[l]) {
        if inds[j] < inds[l] {
          assert !SamePlace(x.entries[inds[j]], x.entries[inds[l]]);
        } else {
          assert !SamePlace(x.entries[inds[l]], x.entries[inds[j]]);
        }
      }
      forall j | 0 <= j < |inds| ensures InShape(y.entries[j], y.m, y.n) {
        assert InShape(x.entries[inds[j]], x.m, x.n);
      }
    }
  }

  /** The stop of Python's slice `a[0:k]` on a sequence of length `len`: `k` clamped to
      the length, and a negative `k` counted back from the end. */
  function SliceStop(k: int, len: nat): (stop: nat)
    ensures stop <= len
    ensures 0 <= k ==> stop <= k && (stop == k || stop == len)
    ensures k < 0 ==> stop + (-k) == len || (stop == 0 && len <= -k)
  {
    if k >= 0 then (if k < len then k else len)
    else if len + k > 0 then len + k else 0
  }

  /** `perm` is a permutation of `0..len-1`. */
  predicate IsPermutation(perm: seq<nat>, len: nat)
  {
    |perm| == len && Distinct(perm) && forall j :: 0 <= j < |perm| ==> perm[j] < len
  }

  /** `submatrix(X, k)` with a count: the entries at the first `k` positions of a random
      permutation of `0..nnz-1` (`perm`, which stands for `numpy.random.permutation(X.nnz)`).
      The result is canonical and holds `SliceStop(k, nnz)` distinct stored entries of `X`:
      `min(k, nnz)` for `k >= 0` and `max(nnz + k, 0)` for `k < 0`; entry `j` is stored
      entry `perm[j]` of `X`. */
  function SubmatrixSample(x: Matrix, k: int, perm: seq<nat>): (y: Matrix)
    requires Valid(x) && NoStoredZeros(x)
    requires IsPermutation(perm, Nnz(x))
    ensures y.m == x.m && y.n == x.n
    ensures Valid(y) && NoStoredZeros(y)
    ensures |y.entries| == SliceStop(k, Nnz(x))
    ensures forall e :: e in y.entries ==> e in x.entries
    ensures forall j :: 0 <= j < |y.entries| ==> y.entries[j] == x.entries[perm[j]]
  {
    var inds := perm[..SliceStop(k, Nnz(x))];
    var r := Submatrix(x, inds);
    assert r.Ok?;
    assert forall e :: e in r.value.entries ==> e in x.entries by {
      forall e | e in r.value.entries ensures e in x.entries {
        var j :| 0 <= j < |r.value.entries| && r.value.entries[j] == e;
        assert x.entries[inds[j]] in x.entries;
      }
    }
    r.value
  }

  /** `numpy.arange(0, len)[counts >= min]`, from line `from` on: the lines whose count
      reaches `min`, in increasing order. */
  function KeptFrom(counts: seq<nat>, min: int, from: nat): (ks: seq<nat>)
    requires from <= |counts|
    decreases |counts| - from
    ensures forall k :: k in ks <==> from <= k < |counts| && counts[k] >= min
    ensures forall j :: 0 <= j < |ks| ==> from <= ks[j]
    ensures StrictlyIncreasing(ks)
  {
    if from == |counts| then []
    else (if counts[from] >= min then [from] else []) + KeptFrom(counts, min, from + 1)
  }

  /** The position of `k` in `ks`. */
  function IndexOf(ks: seq<nat>, k: nat): (i: nat)
    requires k in ks
    ensures i < |ks| && ks[i] == k
  {
    if ks[0] == k then 0 else 1 + IndexOf(ks[1..], k)
  }

  /** The stored entries whose row is in `rows` and whose column is in `cols`, in storage order. */
  function Inside(es: seq<Entry>, rows: seq<nat>, cols: seq<nat>): (ks: seq<Entry>)
    ensures forall e :: e in ks <==> e in es && e.row in rows && e.col in cols
    ensures DistinctPlaces(es) ==> DistinctPlaces(ks)
  {
    if es == [] then []
    else
      var rest := Inside(es[1..], rows, cols);
      if es[0].row in rows && es[0].col in cols then
        assert DistinctPlaces(es) ==> forall e :: e in rest ==> !SamePlace(es[0], e) by {
          if DistinctPlaces(es) {
            forall e | e in rest ensures !SamePlace(es[0], e) {
              var j :| 0 <= j < |es[1..]| && es[1..][j] == e;
              assert es[j + 1] == e;
            }
          }
        }
        [es[0]] + rest
      else
        rest
  }

  /** The result of `pruneMatrix(X, minNnzRows, minNnzCols, verbose=True)`. */
  datatype Pruned = Pruned(x: Matrix, rows: seq<nat>, cols: seq<nat>)

  /** `pruneMatrix`: keeps exactly the rows with at least `minNnzRows` stored nonzeros and
      the columns with at least `minNnzCols`, counted once on the input, in increasing
      original order, and renumbers them from zero. Every entry of the result is an
      entry of the input at a kept row and column, and every such input entry appears. */
  function PruneMatrix(x: Matrix, minNnzRows: int, minNnzCols: int): (p: Pruned)
    requires Valid(x)
    ensures forall r: nat :: r in p.rows <==> r < x.m && |NonzeroLine(x.entries, Rows, r)| >= minNnzRows
    ensures forall c: nat :: c in p.cols <==> c < x.n && |NonzeroLine(x.entries, Cols, c)| >= minNnzCols
    ensures StrictlyIncreasing(p.rows) && StrictlyIncreasing(p.cols)
    ensures p.x.m == |p.rows| && p.x.n == |p.cols| && Valid(p.x)
    ensures forall e :: e in p.x.entries ==>
      e.row < |p.rows| && e.col < |p.cols| && Entry(p.rows[e.row], p.cols[e.col], e.value) in x.entries
    ensures forall e :: e in x.entries && e.row in p.rows && e.col in p.cols ==>
      Entry(IndexOf(p.rows, e.row), IndexOf(p.cols, e.col), e.value) in p.x.entries
  {
    var rows := KeptFrom(NonzeroCounts(x, Rows), minNnzRows, 0);
    var cols := KeptFrom(NonzeroCounts(x, Cols), minNnzCols, 0);
    var kept := Inside(x.entries, rows, cols);
    var es := seq(|kept|, j requires 0 <= j < |kept| =>
      assert kept[j] in kept;
      Entry(IndexOf(rows, kept[j].row), IndexOf(cols, kept[j].col), kept[j].value));
    var y := Matrix(|rows|, |cols|, es);
    RenumberedFacts(x, rows, cols, kept, y);
    Pruned(y, rows, cols)
  }

  /** The counts are taken once, on the input: pruning the `2 × 2` matrix with stored
      entries at `(0, 0)`, `(1, 0)` and `(1, 1)` to two nonzeros per row and per column
      keeps row 1 and column 0, and the kept row then holds a single nonzero. */
  lemma PruneIsSinglePass(x: Matrix)
    requires x == Matrix(2, 2, [Entry(0, 0, 1.0), Entry(1, 0, 1.0), Entry(1, 1, 1.0)])
    ensures PruneMatrix(x, 2, 2).rows == [1] && PruneMatrix(x, 2, 2).cols == [0]
    ensures |NonzeroLine(PruneMatrix(x, 2, 2).x.entries, Rows, 0)| < 2
  {
    assert Valid(x);
    var p := PruneMatrix(x, 2, 2);
    ExampleCounts(x);
    assert forall r: nat :: r in p.rows <==> r == 1;
    assert forall c: nat :: c in p.cols <==> c == 0;
    SingleMember(p.rows, 1);
    SingleMember(p.cols, 0);
  }

  lemma ExampleCounts(x: Matrix)
    requires x == Matrix(2, 2, [Entry(0, 0, 1.0), Entry(1, 0, 1.0), Entry(1, 1, 1.0)])
    ensures |NonzeroLine(x.entries, Rows, 0)| == 1 && |NonzeroLine(x.entries, Rows, 1)| == 2
    ensures |NonzeroLine(x.entries, Cols, 0)| == 2 && |NonzeroLine(x.entries, Cols, 1)| == 1
  {
    var es := x.entries;
    assert es[1..][1..][1..] == [];
  }

  /** An increasing sequence whose only member is `k` is `[k]`. */
  lemma SingleMember(s: seq<nat>, k: nat)
    requires StrictlyIncreasing(s)
    requires forall y: nat :: y in s <==> y == k
    ensures s == [k]
  {
    assert k in s;
    assert s[0] in s && s[|s| - 1] in s;
  }

  /** Shared hypotheses of the three facts about the renumbered entries. */
  ghost predicate Renumbered(x: Matrix, rows: seq<nat>, cols: seq<nat>, kept: seq<Entry>, y: Matrix)
  {
    && (forall e :: e in kept <==> e in x.entries && e.row in rows && e.col in cols)
    && y.m == |rows| && y.n == |cols| && |y.entries| == |kept|
    && (forall j :: 0 <= j < |kept| ==> kept[j].row in rows && kept[j].col in cols)
    && (forall j :: 0 <= j < |kept| ==>
          y.entries[j] == Entry(IndexOf(rows, kept[j].row), IndexOf(cols, kept[j].col), kept[j].value))
  }

  lemma RenumberedFacts(x: Matrix, rows: seq<nat>, cols: seq<nat>, kept: seq<Entry>, y: Matrix)
    requires DistinctPlaces(kept)
    requires Renumbered(x, rows, cols, kept, y)
    ensures Valid(y)
    ensures forall e :: e in y.entries ==>
      e.row < |rows| && e.col < |cols| && Entry(rows[e.row], cols[e.col], e.value) in x.entries
    ensures forall e :: e in x.entries && e.row in rows && e.col in cols ==>
      Entry(IndexOf(rows, e.row), IndexOf(cols, e.col), e.value) in y.entries
  {
    RenumberedValid(x, rows, cols, kept, y);
    RenumberedSound(x, rows, cols, kept, y);
    RenumberedComplete(x, rows, cols, kept, y);
  }

  lemma RenumberedValid(x: Matrix, rows: seq<nat>, cols: seq<nat>, kept: seq<Entry>, y: Matrix)
    requires DistinctPlaces(kept)
    requires Renumbered(x, rows, cols, kept, y)
    ensures Valid(y)
  {
    forall j, l | 0 <= j < l < |kept| ensures !SamePlace(y.entries[j], y.entries[l]) {
      assert !SamePlace(kept[j], kept[l]);
    }
  }

  lemma RenumberedSound(x: Matrix, rows: seq<nat>, cols: seq<nat>, kept: seq<Entry>, y: Matrix)
    requires Renumbered(x, rows, cols, kept, y)
    ensures forall e :: e in y.entries ==>
      e.row < |rows| && e.col < |cols| && Entry(rows[e.row], cols[e.col], e.value) in x.entries
  {
    forall e | e in y.entries
      ensures e.row < |rows| && e.col < |cols| && Entry(rows[e.row], cols[e.col], e.value) in x.entries
    {
      var j :| 0 <= j < |y.entries| && y.entries[j] == e;
      assert kept[j] in kept;
      assert Entry(rows[e.row], cols[e.col], e.value) == kept[j];
    }
  }

  lemma RenumberedComplete(x: Matrix, rows: seq<nat>, cols: seq<nat>, kept: seq<Entry>, y: Matrix)
    requires Renumbered(x, rows, cols, kept, y)
    ensures forall e :: e in x.entries && e.row in rows && e.col in cols ==>
      Entry(IndexOf(rows, e.row), IndexOf(cols, e.col), e.value) in y.entries
  {
    forall e | e in x.entries && e.row in rows && e.col in cols
      ensures Entry(IndexOf(rows, e.row), IndexOf(cols, e.col), e.value) in y.entries
    {
      assert e in kept;
      var j :| 0 <= j < |kept| && kept[j] == e;
      assert y.entries[j] == Entry(IndexOf(rows, e.row), IndexOf(cols, e.col), e.value);
    }
  }
}

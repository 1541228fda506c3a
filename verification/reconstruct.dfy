/** Partial reconstruction of a low-rank matrix at chosen positions:
    `reconstructLowRank` and `reconstructLowRankPQ`. */
module Reconstruct {
  import opened Wrappers
  import opened Sparse
  import opened Indexing

  /** A dense matrix as its sequence of rows. */
  type Dense = seq<seq<real>>

  /** Every row of `p` has as many elements as every row of `q`: `P Qᵀ` is defined. */
  predicate SameWidth(p: Dense, q: Dense)
  {
    forall r, c :: 0 <= r < |p| && 0 <= c < |q| ==> |p[r]| == |q[c]|
  }

  predicate Rectangular(a: Dense, w: nat)
  {
    forall i :: 0 <= i < |a| ==> |a[i]| == w
  }

  function Dot(p: seq<real>, q: seq<real>): real
    requires |p| == |q|
  {
    if p == [] then 0.0 else p[0] * q[0] + Dot(p[1..], q[1..])
  }

  /** Entry `(r, c)` of `U diag(s) Vᵀ` given row `r` of `U` and row `c` of `V`:
      the sum over `j` of `U[r][j] * s[j] * V[c][j]`. */
  function LowRankEntry(ur: seq<real>, s: seq<real>, vc: seq<real>): real
    requires |ur| == |s| == |vc|
  {
    if s == [] then 0.0 else ur[0] * s[0] * vc[0] + LowRankEntry(ur[1..], s[1..], vc[1..])
  }

  /** One row of `U*s`: element `j` scaled by `s[j]`. */
  function ScaleRow(ur: seq<real>, s: seq<real>): (pr: seq<real>)
    requires |ur| == |s|
    ensures |pr| == |s|
  {
    if s == [] then [] else [ur[0] * s[0]] + ScaleRow(ur[1..], s[1..])
  }

  /** `U*s` in numpy: column `j` of `U` scaled by `s[j]`. */
  function ScaleColumns(u: Dense, s: seq<real>): (p: Dense)
    requires Rectangular(u, |s|)
    ensures |p| == |u| && Rectangular(p, |s|)
    ensures forall i :: 0 <= i < |u| ==> p[i] == ScaleRow(u[i], s)
  {
    seq(|u|, i requires 0 <= i < |u| => ScaleRow(u[i], s))
  }

  /** A dot product with a row of `U*s` is an entry of `U diag(s) Vᵀ`. */
  lemma {:induction false} ScaledDot(ur: seq<real>, s: seq<real>, vc: seq<real>)
    requires |ur| == |s| == |vc|
    ensures Dot(ScaleRow(ur, s), vc) == LowRankEntry(ur, s, vc)
  {
    if s != [] {
      ScaledDot(ur[1..], s[1..], vc[1..]);
      assert ScaleRow(ur, s)[1..] == ScaleRow(ur[1..], s[1..]);
    }
  }

  /** The documented contract of the compiled kernel `partialReconstructPQ`: one stored
      entry per position, holding entry `(r, c)` of `P Qᵀ`. */
  function PartialReconstructPQ(ps: seq<Place>, p: Dense, q: Dense): (x: Matrix)
    requires SameWidth(p, q)
    requires forall j :: 0 <= j < |ps| ==> ps[j].0 < |p| && ps[j].1 < |q|
    ensures x.m == |p| && x.n == |q| && |x.entries| == |ps|
    ensures forall j :: 0 <= j < |ps| ==>
      x.entries[j] == Entry(ps[j].0, ps[j].1, Dot(p[ps[j].0], q[ps[j].1]))
  {
    Matrix(|p|, |q|, seq(|ps|, j requires 0 <= j < |ps| =>
      Entry(ps[j].0, ps[j].1, Dot(p[ps[j].0], q[ps[j].1]))))
  }

  /** Distinct positions give a canonical matrix. */
  lemma DistinctPlacesValid(ps: seq<Place>, x: Matrix)
    requires |x.entries| == |ps|
    requires forall j :: 0 <= j < |ps| ==>
      x.entries[j].row == ps[j].0 && x.entries[j].col == ps[j].1 && ps[j].0 < x.m && ps[j].1 < x.n
    requires forall j, l :: 0 <= j < l < |ps| ==> ps[j] != ps[l]
    ensures Valid(x)
  {
    forall j, l | 0 <= j < l < |ps| ensures !SamePlace(x.entries[j], x.entries[l]) {
      assert ps[j] != ps[l];
    }
  }

  /** How `reconstructLowRank` is told where to reconstruct: an index array, a
      `(rowInds, colInds)` tuple, or a count of flat indices to draw. `draws` stands for
      the indices `numpy.random.randint(0, m*n, k)` returned. */
  datatype Selection =
    | FlatIndices(inds: seq<int>)
    | RowsCols(rows: seq<nat>, cols: seq<nat>)
    | Count(k: nat, draws: seq<int>)

  /** The generator's promise about `draws` and the compiled kernel's demand on a tuple:
      indices inside the matrix. On an empty shape `randint` raises before drawing, so
      the draws are then unconstrained. */
  predicate WellChosen(sel: Selection, m: nat, n: nat)
  {
    match sel
    case FlatIndices(_) => true
    case RowsCols(rows, cols) =>
      |rows| == |cols| && forall j :: 0 <= j < |rows| ==> rows[j] < m && cols[j] < n
    case Count(k, draws) =>
      m * n > 0 ==> |draws| == k && forall j :: 0 <= j < |draws| ==> InRange(draws[j], m, n)
  }

  /** The positions `reconstructLowRank` reconstructs: index arrays and draws are
      deduplicated and unravelled, a tuple is used as it is. */
  function SelectedPlaces(sel: Selection, m: nat, n: nat): (r: Result<seq<Place>>)
    requires WellChosen(sel, m, n)
    ensures r.Err? <==>
      || (sel.FlatIndices? && exists j :: 0 <= j < |sel.inds| && !InRange(sel.inds[j], m, n))
      || (sel.Count? && m * n == 0)
    ensures r.Ok? ==> forall j :: 0 <= j < |r.value| ==> r.value[j].0 < m && r.value[j].1 < n
    ensures r.Ok? && !sel.RowsCols? ==> forall j, l :: 0 <= j < l < |r.value| ==> r.value[j] != r.value[l]
    ensures r.Ok? && sel.FlatIndices? ==> |r.value| <= |sel.inds|
    ensures r.Ok? && sel.Count? ==> |r.value| <= sel.k
    ensures r.Ok? && sel.RowsCols? ==> |r.value| == |sel.rows|
    ensures r.Ok? && sel.RowsCols? ==>
      forall j :: 0 <= j < |r.value| ==> r.value[j] == (sel.rows[j], sel.cols[j])
  {
    match sel
    case FlatIndices(inds) =>
      var r := UniquePositions(inds, m, n);
      if r.Ok? then OrderedDistinct(r.value); r else r
    case RowsCols(rows, cols) =>
      Ok(seq(|rows|, j requires 0 <= j < |rows| => (rows[j], cols[j])))
    case Count(k, draws) =>
      if m * n == 0 then Err(ValueError("low >= high"))
      else
        var r := UniquePositions(draws, m, n);
        if r.Ok? then OrderedDistinct(r.value); r else r
  }

  /** Positions in strictly row-major order are distinct. */
  lemma OrderedDistinct(ps: seq<Place>)
    requires forall j, l :: 0 <= j < l < |ps| ==> RowMajorBefore(ps[j], ps[l])
    ensures forall j, l :: 0 <= j < l < |ps| ==> ps[j] != ps[l]
  {
    forall j, l | 0 <= j < l < |ps| ensures ps[j] != ps[l] {
      assert RowMajorBefore(ps[j], ps[l]);
    }
  }

  /** `reconstructLowRank(U, s, V, k)`: the entries of `U diag(s) Vᵀ` at the selected
      positions, as a sparse `|U| × |V|` matrix. With an index array or a count the
      positions are distinct, so at most that many entries are stored. */
  function ReconstructLowRank(u: Dense, s: seq<real>, v: Dense, sel: Selection): (r: Result<Matrix>)
    requires Rectangular(u, |s|) && Rectangular(v, |s|)
    requires WellChosen(sel, |u|, |v|)
    ensures r.Err? <==>
      || (sel.FlatIndices? && exists j :: 0 <= j < |sel.inds| && !InRange(sel.inds[j], |u|, |v|))
      || (sel.Count? && |u| * |v| == 0)
    ensures r.Ok? ==> r.value.m == |u| && r.value.n == |v|
    ensures r.Ok? ==> forall j :: 0 <= j < |r.value.entries| ==>
      var e := r.value.entries[j];
      e.row < |u| && e.col < |v| && e.value == LowRankEntry(u[e.row], s, v[e.col])
    ensures r.Ok? && !sel.RowsCols? ==> Valid(r.value)
    ensures r.Ok? && sel.Count? ==> |r.value.entries| <= sel.k
    ensures r.Ok? ==> SelectedPlaces(sel, |u|, |v|) == Ok(Places(r.value))
  {
    var places := SelectedPlaces(sel, |u|, |v|);
    if places.Err? then Err(places.error)
    else
      var p := ScaleColumns(u, s);
      var x := PartialReconstructPQ(places.value, p, v);
      ReconstructedValues(u, s, v, p, places.value, x);
      if !sel.RowsCols? then
        DistinctPlacesValid(places.value, x);
        Ok(x)
      else
        Ok(x)
  }

  /** The positions of the stored entries, in storage order. */
  function Places(x: Matrix): (ps: seq<Place>)
    ensures |ps| == |x.entries|
    ensures forall j :: 0 <= j < |ps| ==> ps[j] == (x.entries[j].row, x.entries[j].col)
  {
    seq(|x.entries|, j requires 0 <= j < |x.entries| => (x.entries[j].row, x.entries[j].col))
  }

  lemma ReconstructedValues(u: Dense, s: seq<real>, v: Dense, p: Dense, ps: seq<Place>, x: Matrix)
    requires Rectangular(u, |s|) && Rectangular(v, |s|)
    requires |p| == |u| && Rectangular(p, |s|)
    requires forall i :: 0 <= i < |u| ==> p[i] == ScaleRow(u[i], s)
    requires forall j :: 0 <= j < |ps| ==> ps[j].0 < |u| && ps[j].1 < |v|
    requires |x.entries| == |ps|
    requires forall j :: 0 <= j < |ps| ==>
      x.entries[j] == Entry(ps[j].0, ps[j].1, Dot(p[ps[j].0], v[ps[j].1]))
    ensures Places(x) == ps
    ensures forall j :: 0 <= j < |x.entries| ==>
      x.entries[j].row < |u| && x.entries[j].col < |v|
      && x.entries[j].value == LowRankEntry(u[x.entries[j].row], s, v[x.entries[j].col])
  {
    forall j | 0 <= j < |x.entries|
      ensures x.entries[j].value == LowRankEntry(u[ps[j].0], s, v[ps[j].1])
    {
      ScaledDot(u[ps[j].0], s, v[ps[j].1]);
    }
  }

  /** With an index array, the reconstructed positions are exactly the unravelled indices:
      each stored entry comes from some index, and each index gives some stored entry. */
  lemma ReconstructLowRankCoverage(u: Dense, s: seq<real>, v: Dense, inds: seq<int>)
    requires Rectangular(u, |s|) && Rectangular(v, |s|)
    requires forall j :: 0 <= j < |inds| ==> InRange(inds[j], |u|, |v|)
    ensures var x := ReconstructLowRank(u, s, v, FlatIndices(inds)).value;
      forall j :: 0 <= j < |x.entries| ==> Ravel((x.entries[j].row, x.entries[j].col), |v|) in inds
    ensures |v| > 0 ==>
      var x := ReconstructLowRank(u, s, v, FlatIndices(inds)).value;
      forall i :: i in inds ==> Unravel(i, |v|) in Places(x)
  {
    assert ReconstructLowRank(u, s, v, FlatIndices(inds)).Ok?;
    var x := ReconstructLowRank(u, s, v, FlatIndices(inds)).value;
    var ps := Places(x);
    assert UniquePositions(inds, |u|, |v|) == Ok(ps);
    forall j | 0 <= j < |x.entries| ensures Ravel((x.entries[j].row, x.entries[j].col), |v|) in inds {
      assert ps[j] in ps;
    }
    if |v| > 0 {
      forall i | i in inds ensures Unravel(i, |v|) in ps {
        var j :| 0 <= j < |inds| && inds[j] == i;
      }
    }
  }

  /** How `reconstructLowRankPQ` is told where to reconstruct: an array of distinct flat
      indices, or a `(rowInds, colInds)` tuple. */
  datatype PQSelection =
    | UniqueFlat(flat: seq<int>)
    | PQRowsCols(prows: seq<nat>, pcols: seq<nat>)

  /** `reconstructLowRankPQ(P, Q, inds)`: the entries of `P Qᵀ` at the given positions.
      Flat indices are unravelled without deduplication (the caller promises distinct
      ones); an index outside `[0, |P|*|Q|)` is a `ValueError`. */
  function ReconstructLowRankPQ(p: Dense, q: Dense, sel: PQSelection): (r: Result<Matrix>)
    requires SameWidth(p, q)
    requires sel.UniqueFlat? ==> forall j, l :: 0 <= j < l < |sel.flat| ==> sel.flat[j] != sel.flat[l]
    requires sel.PQRowsCols? ==> |sel.prows| == |sel.pcols|
    requires sel.PQRowsCols? ==>
      forall j :: 0 <= j < |sel.prows| ==> sel.prows[j] < |p| && sel.pcols[j] < |q|
    ensures r.Err? <==> sel.UniqueFlat? && exists j :: 0 <= j < |sel.flat| && !InRange(sel.flat[j], |p|, |q|)
    ensures r.Ok? ==> r.value.m == |p| && r.value.n == |q|
    ensures r.Ok? ==> forall j :: 0 <= j < |r.value.entries| ==>
      var e := r.value.entries[j];
      e.row < |p| && e.col < |q| && e.value == Dot(p[e.row], q[e.col])
    ensures r.Ok? && sel.UniqueFlat? ==> Valid(r.value) && |r.value.entries| == |sel.flat|
    ensures r.Ok? && sel.UniqueFlat? ==>
      forall j :: 0 <= j < |sel.flat| ==>
        Ravel((r.value.entries[j].row, r.value.entries[j].col), |q|) == sel.flat[j]
    ensures r.Ok? && sel.PQRowsCols? ==> |r.value.entries| == |sel.prows|
    ensures r.Ok? && sel.PQRowsCols? ==>
      forall j :: 0 <= j < |sel.prows| ==>
        r.value.entries[j].row == sel.prows[j] && r.value.entries[j].col == sel.pcols[j]
  {
    match sel
    case PQRowsCols(rows, cols) =>
      Ok(PartialReconstructPQ(seq(|rows|, j requires 0 <= j < |rows| => (rows[j], cols[j])), p, q))
    case UniqueFlat(inds) =>
      var places := UnravelAll(inds, |p|, |q|);
      if places.Err? then Err(places.error)
      else
        var ps := places.value;
        var x := PartialReconstructPQ(ps, p, q);
        assert forall j, l :: 0 <= j < l < |ps| ==> ps[j] != ps[l] by {
          forall j, l | 0 <= j < l < |ps| ensures ps[j] != ps[l] {
            assert Ravel(ps[j], |q|) == inds[j] && Ravel(ps[l], |q|) == inds[l];
          }
        }
        DistinctPlacesValid(ps, x);
        Ok(x)
  }
}

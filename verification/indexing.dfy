/** Flat-index conversion: `numpy.unravel_index` and `numpy.unique` as
    `reconstructLowRank` and `reconstructLowRankPQ` use them. */
module Indexing {
  import opened Wrappers
  import opened Sparse

  /** A position `(row, col)` of a matrix. */
  type Place = (nat, nat)

  /** `numpy.unravel_index(i, (m, n))` for one index: the row-major position of flat index `i`. */
  function Unravel(i: nat, n: nat): (p: Place)
    requires n > 0
    ensures p.1 < n
    ensures Ravel(p, n) == i
  {
    (i / n, i % n)
  }

  /** The flat row-major index of a position. */
  function Ravel(p: Place, n: nat): nat
  {
    p.0 * n + p.1
  }

  /** Every index below `m * n` unravels to a position inside `m × n`. */
  lemma UnravelInShape(i: nat, m: nat, n: nat)
    requires i < m * n
    ensures n > 0 && Unravel(i, n).0 < m
  {
    var p := Unravel(i, n);
    if p.0 >= m {
      MulMono(m, p.0, n);
    }
  }

  lemma MulMono(a: nat, b: nat, n: nat)
    requires a <= b
    ensures a * n <= b * n
  {
  }

  /** Comparing flat indices compares positions row-major: an earlier row, or the same row and an
      earlier column. */
  lemma {:induction false} RavelOrder(p: Place, q: Place, n: nat)
    requires p.1 < n && q.1 < n
    requires Ravel(p, n) < Ravel(q, n)
    ensures RowMajorBefore(p, q)
  {
    if p.0 > q.0 {
      MulMono(q.0 + 1, p.0, n);
      assert false;
    } else if p.0 == q.0 {
    }
  }

  /** Unravelling inverts ravelling on positions with a column below `n`. */
  lemma {:induction false} UnravelRavel(p: Place, n: nat)
    requires p.1 < n
    ensures Unravel(Ravel(p, n), n) == p
  {
    var q := Unravel(Ravel(p, n), n);
    if Ravel(p, n) < Ravel(q, n) || Ravel(q, n) < Ravel(p, n) {
      assert false;
    }
    if q.0 < p.0 {
      MulMono(q.0 + 1, p.0, n);
    } else if q.0 > p.0 {
      MulMono(p.0 + 1, q.0, n);
    }
  }

  predicate RowMajorBefore(p: Place, q: Place)
  {
    p.0 < q.0 || (p.0 == q.0 && p.1 < q.1)
  }

  function InsertUnique(x: int, s: seq<int>): (r: seq<int>)
    requires StrictlyIncreasing(s)
    ensures StrictlyIncreasing(r)
    ensures forall y :: y in r <==> y in s || y == x
    ensures |r| <= |s| + 1
  {
    if s == [] then [x]
    else if x < s[0] then [x] + s
    else if x == s[0] then s
    else
      var rest := InsertUnique(x, s[1..]);
      assert forall y :: y in rest ==> s[0] < y;
      var r := [s[0]] + rest;
      assert forall y :: y in r <==> y == s[0] || y in rest;
      assert forall j :: 0 < j < |r| ==> r[j] == rest[j - 1] && rest[j - 1] in rest;
      r
  }

  /** `numpy.unique`: the distinct values of `s` in increasing order. */
  function Unique(s: seq<int>): (u: seq<int>)
    ensures StrictlyIncreasing(u)
    ensures forall y :: y in u <==> y in s
    ensures |u| <= |s|
  {
    if s == [] then [] else InsertUnique(s[0], Unique(s[1..]))
  }

  predicate InRange(i: int, m: nat, n: nat)
  {
    0 <= i < m * n
  }

  /** `numpy.unravel_index(inds, (m, n))`: a `ValueError` when some index falls outside
      `[0, m*n)`, otherwise the row-major position of each index, in order. */
  function UnravelAll(inds: seq<int>, m: nat, n: nat): (r: Result<seq<Place>>)
    ensures r.Err? <==> exists j :: 0 <= j < |inds| && !InRange(inds[j], m, n)
    ensures r.Err? ==> r.error.ValueError?
    ensures r.Ok? ==> |r.value| == |inds|
    ensures r.Ok? ==> forall j :: 0 <= j < |inds| ==>
      r.value[j].0 < m && r.value[j].1 < n && Ravel(r.value[j], n) == inds[j]
  {
    if exists j :: 0 <= j < |inds| && !InRange(inds[j], m, n) then
      Err(ValueError("invalid entry in index array"))
    else if inds == [] then
      Ok([])
    else
      assert InRange(inds[0], m, n);
      var ps := seq(|inds|, j requires 0 <= j < |inds| => Unravel(inds[j], n));
      assert forall j :: 0 <= j < |inds| ==> ps[j].0 < m by {
        forall j | 0 <= j < |inds| ensures ps[j].0 < m {
          assert InRange(inds[j], m, n);
          UnravelInShape(inds[j], m, n);
        }
      }
      Ok(ps)
  }

  /** Deduplicated flat indices, unravelled: the path `reconstructLowRank` takes for an
      index array and for sampled indices. The positions come out distinct, in row-major
      order, one for each distinct index and no other. */
  function UniquePositions(inds: seq<int>, m: nat, n: nat): (r: Result<seq<Place>>)
    ensures r.Err? <==> exists j :: 0 <= j < |inds| && !InRange(inds[j], m, n)
    ensures r.Ok? ==> |r.value| <= |inds|
    ensures r.Ok? ==> forall j :: 0 <= j < |r.value| ==> r.value[j].0 < m && r.value[j].1 < n
    ensures r.Ok? ==> forall j, l :: 0 <= j < l < |r.value| ==> RowMajorBefore(r.value[j], r.value[l])
    ensures r.Ok? ==> forall p :: p in r.value ==> Ravel(p, n) in inds
    ensures r.Ok? ==> n > 0 ==> forall j :: 0 <= j < |inds| ==> Unravel(inds[j], n) in r.value
  {
    var u := Unique(inds);
    UniqueKeepsRange(inds, u, m, n);
    var r := UnravelAll(u, m, n);
    if r.Ok? then
      UnravelledUnique(inds, u, r.value, m, n);
      r
    else
      r
  }

  lemma UniqueKeepsRange(inds: seq<int>, u: seq<int>, m: nat, n: nat)
    requires forall y :: y in u <==> y in inds
    ensures (exists j :: 0 <= j < |inds| && !InRange(inds[j], m, n))
        <==> (exists j :: 0 <= j < |u| && !InRange(u[j], m, n))
  {
    if exists j :: 0 <= j < |inds| && !InRange(inds[j], m, n) {
      var j :| 0 <= j < |inds| && !InRange(inds[j], m, n);
      assert inds[j] in u;
    }
    if exists j :: 0 <= j < |u| && !InRange(u[j], m, n) {
      var j :| 0 <= j < |u| && !InRange(u[j], m, n);
      assert u[j] in inds;
    }
  }

  lemma UnravelledUnique(inds: seq<int>, u: seq<int>, ps: seq<Place>, m: nat, n: nat)
    requires StrictlyIncreasing(u)
    requires forall y :: y in u <==> y in inds
    requires forall j :: 0 <= j < |inds| ==> 0 <= inds[j] < m * n
    requires |ps| == |u|
    requires forall j :: 0 <= j < |u| ==> ps[j].0 < m && ps[j].1 < n && Ravel(ps[j], n) == u[j]
    ensures forall j, l :: 0 <= j < l < |ps| ==> RowMajorBefore(ps[j], ps[l])
    ensures forall p :: p in ps ==> Ravel(p, n) in inds
    ensures n > 0 ==> forall j :: 0 <= j < |inds| ==> Unravel(inds[j], n) in ps
  {
    forall j, l | 0 <= j < l < |ps| ensures RowMajorBefore(ps[j], ps[l]) {
      RavelOrder(ps[j], ps[l], n);
    }
    forall p | p in ps ensures Ravel(p, n) in inds {
      var j :| 0 <= j < |ps| && ps[j] == p;
      assert u[j] in inds;
    }
    if n > 0 {
      forall j | 0 <= j < |inds| ensures Unravel(inds[j], n) in ps {
        assert inds[j] in u;
        var l :| 0 <= l < |u| && u[l] == inds[j];
        UnravelRavel(ps[l], n);
      }
    }
  }
}

/** The data model: a sparse matrix as a shape plus its stored entries. */
module Sparse {

  /** One stored element: its position and its value. */
  datatype Entry = Entry(row: nat, col: nat, value: real)

  /** A sparse matrix of shape (m, n); for an input matrix `entries` lists the stored
      elements in storage order, so `entries[i].value` is `X.data[i]`. A matrix the model
      builds lists its entries in the order they are produced, not column-major. */
  datatype Matrix = Matrix(m: nat, n: nat, entries: seq<Entry>)

  /** Which index of an entry a per-line operation looks at. */
  datatype Axis = Rows | Cols

  function Coord(e: Entry, a: Axis): nat
  {
    match a
    case Rows => e.row
    case Cols => e.col
  }

  /** The number of lines along an axis: `X.shape[0]` or `X.shape[1]`. */
  function Extent(x: Matrix, a: Axis): nat
  {
    match a
    case Rows => x.m
    case Cols => x.n
  }

  predicate InShape(e: Entry, m: nat, n: nat)
  {
    e.row < m && e.col < n
  }

  predicate SamePlace(e: Entry, f: Entry)
  {
    e.row == f.row && e.col == f.col
  }

  /** A canonical matrix: every entry lies inside the shape and no position is stored twice. */
  predicate Valid(x: Matrix)
  {
    && (forall i :: 0 <= i < |x.entries| ==> InShape(x.entries[i], x.m, x.n))
    && DistinctPlaces(x.entries)
  }

  predicate DistinctPlaces(es: seq<Entry>)
  {
    forall i, j :: 0 <= i < j < |es| ==> !SamePlace(es[i], es[j])
  }

  /** No explicit zero is stored, as after `X.eliminate_zeros()`. */
  predicate NoStoredZeros(x: Matrix)
  {
    forall i :: 0 <= i < |x.entries| ==> x.entries[i].value != 0.0
  }

  /** `X.data`: the stored values in storage order. */
  function Data(x: Matrix): (d: seq<real>)
    ensures |d| == |x.entries|
    ensures forall i :: 0 <= i < |d| ==> d[i] == x.entries[i].value
  {
    seq(|x.entries|, i requires 0 <= i < |x.entries| => x.entries[i].value)
  }

  /** `X.nnz`: the number of stored entries, explicit zeros included. */
  function Nnz(x: Matrix): nat
  {
    |x.entries|
  }

  /** Both matrices have the same shape and store the same positions in the same order;
      only the values may differ. */
  predicate SamePattern(x: Matrix, y: Matrix)
  {
    && x.m == y.m
    && x.n == y.n
    && |x.entries| == |y.entries|
    && forall i :: 0 <= i < |x.entries| ==> SamePlace(x.entries[i], y.entries[i])
  }

  /** One component of `X.nonzero()`: the coordinate along `a` of every stored
      nonzero, in storage order. */
  function NonzeroCoords(es: seq<Entry>, a: Axis): (cs: seq<nat>)
    ensures |cs| <= |es|
  {
    if es == [] then []
    else (if es[0].value != 0.0 then [Coord(es[0], a)] else []) + NonzeroCoords(es[1..], a)
  }

  /** A line occurs in `X.nonzero()` exactly when it holds a stored nonzero. */
  lemma {:induction false} NonzeroCoordsMembers(es: seq<Entry>, a: Axis)
    ensures forall i :: 0 <= i < |es| && es[i].value != 0.0 ==> Coord(es[i], a) in NonzeroCoords(es, a)
    ensures forall c :: c in NonzeroCoords(es, a) ==>
      exists i :: 0 <= i < |es| && es[i].value != 0.0 && Coord(es[i], a) == c
  {
    if es != [] {
      NonzeroCoordsMembers(es[1..], a);
      forall c | c in NonzeroCoords(es[1..], a)
        ensures exists i :: 0 <= i < |es| && es[i].value != 0.0 && Coord(es[i], a) == c
      {
        var i :| 0 <= i < |es[1..]| && es[1..][i].value != 0.0 && Coord(es[1..][i], a) == c;
        assert es[i + 1] == es[1..][i];
      }
    }
  }

  /** The stored nonzero values on line `k` along `a`: the values a per-line mean averages. */
  function NonzeroLine(es: seq<Entry>, a: Axis, k: nat): (vs: seq<real>)
    ensures |vs| <= |es|
  {
    if es == [] then []
    else (if es[0].value != 0.0 && Coord(es[0], a) == k then [es[0].value] else [])
         + NonzeroLine(es[1..], a, k)
  }

  /** `X.sum(1)[k]` (or `X.sum(0)[k]`): the sum of every stored value on line `k`. */
  function LineSum(es: seq<Entry>, a: Axis, k: nat): (s: real)
    ensures (forall i :: 0 <= i < |es| ==> Coord(es[i], a) != k) ==> s == 0.0
  {
    if es == [] then 0.0
    else (if Coord(es[0], a) == k then es[0].value else 0.0) + LineSum(es[1..], a, k)
  }

  predicate Distinct(s: seq<nat>)
  {
    forall j, l :: 0 <= j < l < |s| ==> s[j] != s[l]
  }

  predicate StrictlyIncreasing(s: seq<int>)
  {
    forall i, j :: 0 <= i < j < |s| ==> s[i] < s[j]
  }

  function Sum(s: seq<real>): real
  {
    if s == [] then 0.0 else s[0] + Sum(s[1..])
  }

  /** The mean of a line of stored values, zero for an empty line. */
  function Mean(s: seq<real>): real
  {
    if |s| == 0 then 0.0 else Sum(s) / (|s| as real)
  }

  lemma {:induction false} NonzeroCoordsCount(es: seq<Entry>, a: Axis, k: nat)
    ensures multiset(NonzeroCoords(es, a))[k] == |NonzeroLine(es, a, k)|
  {
    if es != [] {
      NonzeroCoordsCount(es[1..], a, k);
    }
  }

  lemma {:induction false} LineSumOfNonzeros(es: seq<Entry>, a: Axis, k: nat)
    ensures LineSum(es, a, k) == Sum(NonzeroLine(es, a, k))
  {
    if es != [] {
      LineSumOfNonzeros(es[1..], a, k);
      var head := if es[0].value != 0.0 && Coord(es[0], a) == k then [es[0].value] else [];
      SumAppend(head, NonzeroLine(es[1..], a, k));
    }
  }

  lemma {:induction false} SumAppend(s: seq<real>, t: seq<real>)
    ensures Sum(s + t) == Sum(s) + Sum(t)
  {
    if s != [] {
      assert (s + t)[1..] == s[1..] + t;
      SumAppend(s[1..], t);
    } else {
      assert s + t == t;
    }
  }

  /** Without stored zeros, `X.nonzero()` lists every stored entry, aligned with `X.data`. */
  lemma {:induction false} NonzeroCoordsAligned(es: seq<Entry>, a: Axis)
    requires forall i :: 0 <= i < |es| ==> es[i].value != 0.0
    ensures |NonzeroCoords(es, a)| == |es|
    ensures forall i :: 0 <= i < |es| ==> NonzeroCoords(es, a)[i] == Coord(es[i], a)
  {
    if es != [] {
      NonzeroCoordsAligned(es[1..], a);
    }
  }

  /** Changing only the values keeps a matrix canonical. */
  lemma SamePatternValid(x: Matrix, y: Matrix)
    requires Valid(x) && SamePattern(x, y)
    ensures Valid(y)
  {
    forall i, j | 0 <= i < j < |y.entries| ensures !SamePlace(y.entries[i], y.entries[j]) {
      assert SamePlace(x.entries[i], y.entries[i]) && SamePlace(x.entries[j], y.entries[j]);
    }
    forall i | 0 <= i < |y.entries| ensures InShape(y.entries[i], y.m, y.n) {
      assert SamePlace(x.entries[i], y.entries[i]) && InShape(x.entries[i], x.m, x.n);
    }
  }
}

/** Per-row and per-column counts of stored nonzeros: `nonzeroRowColsProbs` and the
    counting step shared by centring and pruning. */
module Counting {
  import opened Wrappers
  import opened Sparse

  /** `numpy.bincount(idx, minlength=len)` when every index is below `len`:
      bin `b` holds the number of occurrences of `b`. */
  function Bincount(idx: seq<nat>, len: nat): (c: seq<nat>)
    requires forall i :: 0 <= i < |idx| ==> idx[i] < len
    ensures |c| == len
    ensures forall b :: 0 <= b < len ==> c[b] == multiset(idx)[b]
  {
    if idx == [] then seq(len, _ => 0)
    else
      var init, last := idx[..|idx| - 1], idx[|idx| - 1];
      assert idx == init + [last];
      var c' := Bincount(init, len);
      c'[last := c'[last] + 1]
  }

  function Total(c: seq<nat>): nat
  {
    if c == [] then 0 else c[0] + Total(c[1..])
  }

  lemma {:induction false} TotalIncrement(c: seq<nat>, b: nat)
    requires b < |c|
    ensures Total(c[b := c[b] + 1]) == Total(c) + 1
  {
    if b > 0 {
      assert c[b := c[b] + 1][1..] == c[1..][b - 1 := c[b] + 1];
      TotalIncrement(c[1..], b - 1);
    }
  }

  lemma {:induction false} TotalZeros(len: nat)
    ensures Total(seq(len, _ => 0)) == 0
  {
    if len > 0 {
      assert seq(len, _ => 0)[1..] == seq(len - 1, _ => 0);
      TotalZeros(len - 1);
    }
  }

  /** The bins of a bincount add up to the number of indices counted. */
  lemma {:induction false} BincountTotal(idx: seq<nat>, len: nat)
    requires forall i :: 0 <= i < |idx| ==> idx[i] < len
    ensures Total(Bincount(idx, len)) == |idx|
  {
    if idx == [] {
      TotalZeros(len);
    } else {
      var init, last := idx[..|idx| - 1], idx[|idx| - 1];
      BincountTotal(init, len);
      TotalIncrement(Bincount(init, len), last);
    }
  }

  lemma {:induction false} NonzeroCoordsBounded(es: seq<Entry>, a: Axis, bound: nat)
    requires forall i :: 0 <= i < |es| ==> Coord(es[i], a) < bound
    ensures forall j :: 0 <= j < |NonzeroCoords(es, a)| ==> NonzeroCoords(es, a)[j] < bound
  {
    if es != [] {
      NonzeroCoordsBounded(es[1..], a, bound);
    }
  }

  lemma NonzeroLineCounts(es: seq<Entry>, a: Axis)
    ensures forall k: nat :: multiset(NonzeroCoords(es, a))[k] == |NonzeroLine(es, a, k)|
  {
    forall k: nat {
      NonzeroCoordsCount(es, a, k);
    }
  }

  lemma CoordsInExtent(x: Matrix, a: Axis)
    requires Valid(x)
    ensures forall j :: 0 <= j < |NonzeroCoords(x.entries, a)| ==> NonzeroCoords(x.entries, a)[j] < Extent(x, a)
  {
    forall i | 0 <= i < |x.entries|
      ensures Coord(x.entries[i], a) < Extent(x, a)
    {
      assert InShape(x.entries[i], x.m, x.n);
    }
    NonzeroCoordsBounded(x.entries, a, Extent(x, a));
  }

  /** `numpy.bincount` of one component of `X.nonzero()` with `minlength` the extent:
      line `k` gets the number of stored nonzeros on it. */
  function NonzeroCounts(x: Matrix, a: Axis): (c: seq<nat>)
    requires Valid(x)
    ensures |c| == Extent(x, a)
    ensures forall k :: 0 <= k < |c| ==> c[k] == |NonzeroLine(x.entries, a, k)|
    ensures Total(c) == |NonzeroCoords(x.entries, a)|
  {
    CoordsInExtent(x, a);
    NonzeroLineCounts(x.entries, a);
    BincountTotal(NonzeroCoords(x.entries, a), Extent(x, a));
    Bincount(NonzeroCoords(x.entries, a), Extent(x, a))
  }

  /** A count divided by a total in floating point; 0/0 is NaN, written None. */
  function Proportion(count: nat, total: nat): (p: Option<real>)
    requires count <= total
    ensures p.None? <==> total == 0
    ensures p.Some? ==> 0.0 <= p.value <= 1.0 && p.value * (total as real) == count as real
  {
    if total == 0 then None else Some((count as real) / (total as real))
  }

  function Proportions(c: seq<nat>, total: nat): (p: seq<Option<real>>)
    requires forall k :: 0 <= k < |c| ==> c[k] <= total
    ensures |p| == |c|
    ensures forall k :: 0 <= k < |c| ==> p[k] == Proportion(c[k], total)
  {
    if c == [] then [] else [Proportion(c[0], total)] + Proportions(c[1..], total)
  }

  /** The sum of the defined (non-NaN) elements. */
  function SumDefined(s: seq<Option<real>>): real
  {
    if s == [] then 0.0 else (if s[0].Some? then s[0].value else 0.0) + SumDefined(s[1..])
  }

  lemma {:induction false} SumProportions(c: seq<nat>, total: nat)
    requires total > 0
    requires forall k :: 0 <= k < |c| ==> c[k] <= total
    ensures SumDefined(Proportions(c, total)) == (Total(c) as real) / (total as real)
  {
    if c != [] {
      SumProportions(c[1..], total);
      assert Proportions(c, total)[1..] == Proportions(c[1..], total);
      var t, a, b := total as real, c[0] as real, Total(c[1..]) as real;
      DivAdd(a, b, t);
    }
  }

  lemma DivAdd(a: real, b: real, t: real)
    requires t > 0.0
    ensures a / t + b / t == (a + b) / t
  {
    var q := a / t + b / t;
    assert q * t == (a / t) * t + (b / t) * t;
    assert (a / t) * t == a && (b / t) * t == b;
  }

  datatype RowColProbs = RowColProbs(u: seq<Option<real>>, v: seq<Option<real>>)

  /** `nonzeroRowColsProbs`: the share of the stored entries that are nonzeros of
      each row (`u`) and of each column (`v`). */
  function NonzeroRowColsProbs(x: Matrix): (p: RowColProbs)
    requires Valid(x)
    ensures |p.u| == x.m && |p.v| == x.n
    ensures forall r :: 0 <= r < x.m ==> p.u[r] == Proportion(|NonzeroLine(x.entries, Rows, r)|, Nnz(x))
    ensures forall c :: 0 <= c < x.n ==> p.v[c] == Proportion(|NonzeroLine(x.entries, Cols, c)|, Nnz(x))
  {
    var u, v := NonzeroCounts(x, Rows), NonzeroCounts(x, Cols);
    RowColProbs(Proportions(u, Nnz(x)), Proportions(v, Nnz(x)))
  }

  /** Without stored zeros and with at least one entry, each of `u` and `v` is a
      distribution: its elements are defined and add up to one. */
  lemma ProbsSumToOne(x: Matrix)
    requires Valid(x) && NoStoredZeros(x) && Nnz(x) > 0
    ensures forall r :: 0 <= r < x.m ==> NonzeroRowColsProbs(x).u[r].Some?
    ensures forall c :: 0 <= c < x.n ==> NonzeroRowColsProbs(x).v[c].Some?
    ensures SumDefined(NonzeroRowColsProbs(x).u) == 1.0
    ensures SumDefined(NonzeroRowColsProbs(x).v) == 1.0
  {
    var N := Nnz(x);
    assert (N as real) / (N as real) == 1.0;
    NonzeroCoordsAligned(x.entries, Rows);
    NonzeroCoordsAligned(x.entries, Cols);
    SumProportions(NonzeroCounts(x, Rows), N);
    SumProportions(NonzeroCounts(x, Cols), N);
  }
}

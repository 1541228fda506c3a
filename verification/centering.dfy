/** Centring the stored values of a sparse matrix by row or column means, and
    undoing it: `centerRows`, `centerCols`, `uncenterRows`, `uncenter`. */
module Centering {
  import opened Wrappers
  import opened Sparse
  import opened Counting

  /** The documented contract of the compiled kernel `partialOuterProduct`:
      element `i` is entry `(rows[i], cols[i])` of the outer product `u vᵀ`. */
  function PartialOuterProduct(rows: seq<nat>, cols: seq<nat>, u: seq<real>, v: seq<real>): (vals: seq<real>)
    requires |rows| == |cols|
    requires forall i :: 0 <= i < |rows| ==> rows[i] < |u| && cols[i] < |v|
    ensures |vals| == |rows|
  {
    seq(|rows|, i requires 0 <= i < |rows| => u[rows[i]] * v[cols[i]])
  }

  /** Element `i` of the kernel's result is `u[rows[i]] * v[cols[i]]`; kept apart from the
      function so that callers unfold it only where they need it. */
  lemma PartialOuterProductEntries(rows: seq<nat>, cols: seq<nat>, u: seq<real>, v: seq<real>)
    requires |rows| == |cols|
    requires forall i :: 0 <= i < |rows| ==> rows[i] < |u| && cols[i] < |v|
    ensures forall i :: 0 <= i < |rows| ==> PartialOuterProduct(rows, cols, u, v)[i] == u[rows[i]] * v[cols[i]]
  {
  }

  function Ones(len: nat): (s: seq<real>)
    ensures |s| == len && forall i :: 0 <= i < len ==> s[i] == 1.0
  {
    seq(len, _ => 1.0)
  }

  /** `mu` has an element for every line along `a`. */
  predicate Covers(x: Matrix, a: Axis, mu: seq<real>)
  {
    |mu| >= Extent(x, a)
  }

  /** The same matrix with `X.data` replaced by `data`. */
  function WithData(x: Matrix, data: seq<real>): (y: Matrix)
    requires |data| == |x.entries|
    ensures SamePattern(x, y)
    ensures Valid(x) ==> Valid(y)
    ensures forall i :: 0 <= i < |data| ==> y.entries[i].value == data[i]
  {
    var y := Matrix(x.m, x.n, seq(|x.entries|, i requires 0 <= i < |x.entries| => x.entries[i].(value := data[i])));
    if Valid(x) then SamePatternValid(x, y); y else y
  }

  /** The per-entry offsets `partialOuterProduct(rowInds, colInds, mu, ones)` (rows) or
      `partialOuterProduct(rowInds, colInds, ones, mu)` (columns), over `X.nonzero()`.
      Without stored zeros, element `i` is the `mu` of the line of stored entry `i`. */
  function LineOffsets(x: Matrix, a: Axis, mu: seq<real>): (vals: seq<real>)
    requires Valid(x) && NoStoredZeros(x) && Covers(x, a, mu)
    ensures |vals| == |x.entries|
    ensures forall i :: 0 <= i < |vals| ==>
      Coord(x.entries[i], a) < |mu| && vals[i] == mu[Coord(x.entries[i], a)]
  {
    NonzeroCoordsAligned(x.entries, Rows);
    NonzeroCoordsAligned(x.entries, Cols);
    CoordsInExtent(x, Rows);
    CoordsInExtent(x, Cols);
    var rowInds, colInds := NonzeroCoords(x.entries, Rows), NonzeroCoords(x.entries, Cols);
    match a
    case Rows => PartialOuterProduct(rowInds, colInds, mu, Ones(x.n))
    case Cols => PartialOuterProduct(rowInds, colInds, Ones(x.m), mu)
  }

  lemma LineSums(x: Matrix, a: Axis)
    ensures forall k: nat :: LineSum(x.entries, a, k) == Sum(NonzeroLine(x.entries, a, k))
  {
    forall k: nat {
      LineSumOfNonzeros(x.entries, a, k);
    }
  }

  /** The means computed when no `mu` is given: the line sum over the nonzero count,
      with the count of an empty line raised to one before dividing and the mean of
      such a line then overwritten with zero. It is the mean of the stored nonzeros
      of each line, and zero for a line without any. */
  function NonzeroMeans(x: Matrix, a: Axis): (mu: seq<real>)
    requires Valid(x)
    ensures |mu| == Extent(x, a)
    ensures forall k :: 0 <= k < |mu| ==> mu[k] == Mean(NonzeroLine(x.entries, a, k))
  {
    LineSums(x, a);
    var counts := NonzeroCounts(x, a);
    seq(|counts|, k requires 0 <= k < |counts| =>
      var empty := counts[k] == 0;
      var divisor := counts[k] + (if empty then 1 else 0);
      var quotient := LineSum(x.entries, a, k) / (divisor as real);
      if empty then 0.0 else quotient)
  }

  /** The result of a centring call: the centred matrix and the means used. */
  datatype Centred = Centred(x: Matrix, mu: seq<real>)

  /** Centring along either axis; a supplied `mu` is used as it is. */
  function Center(x: Matrix, a: Axis, mu: Option<seq<real>>): (r: Centred)
    requires Valid(x) && NoStoredZeros(x)
    requires mu.Some? ==> Covers(x, a, mu.value)
    ensures SamePattern(x, r.x) && Valid(r.x)
    ensures mu.Some? ==> r.mu == mu.value
    ensures mu.None? ==> r.mu == NonzeroMeans(x, a)
    ensures Covers(x, a, r.mu)
    ensures forall i :: 0 <= i < |x.entries| ==>
      Coord(x.entries[i], a) < |r.mu|
      && r.x.entries[i].value == x.entries[i].value - r.mu[Coord(x.entries[i], a)]
  {
    var means := if mu.Some? then mu.value else NonzeroMeans(x, a);
    var vals := LineOffsets(x, a, means);
    var data := Data(x);
    Centred(WithData(x, seq(|data|, i requires 0 <= i < |data| => data[i] - vals[i])), means)
  }

  /** `centerRows`: subtracts from every stored entry the mean of its row. Without a
      supplied `mu`, `mu[r]` is the mean of row `r`'s stored nonzeros (zero for an empty
      row); shape and stored positions are unchanged. */
  function CenterRows(x: Matrix, mu: Option<seq<real>>): (r: Centred)
    requires Valid(x) && NoStoredZeros(x)
    requires mu.Some? ==> |mu.value| >= x.m
    ensures SamePattern(x, r.x) && Valid(r.x)
    ensures mu.Some? ==> r.mu == mu.value
    ensures mu.None? ==> |r.mu| == x.m
    ensures mu.None? ==> forall k :: 0 <= k < x.m ==> r.mu[k] == Mean(NonzeroLine(x.entries, Rows, k))
    ensures |r.mu| >= x.m
    ensures forall i :: 0 <= i < |x.entries| ==>
      x.entries[i].row < |r.mu| && r.x.entries[i].value == x.entries[i].value - r.mu[x.entries[i].row]
  {
    Center(x, Rows, mu)
  }

  /** `centerCols`: the same per column. */
  function CenterCols(x: Matrix, mu: Option<seq<real>>): (r: Centred)
    requires Valid(x) && NoStoredZeros(x)
    requires mu.Some? ==> |mu.value| >= x.n
    ensures SamePattern(x, r.x) && Valid(r.x)
    ensures mu.Some? ==> r.mu == mu.value
    ensures mu.None? ==> |r.mu| == x.n
    ensures mu.None? ==> forall k :: 0 <= k < x.n ==> r.mu[k] == Mean(NonzeroLine(x.entries, Cols, k))
    ensures |r.mu| >= x.n
    ensures forall i :: 0 <= i < |x.entries| ==>
      x.entries[i].col < |r.mu| && r.x.entries[i].value == x.entries[i].value - r.mu[x.entries[i].col]
  {
    Center(x, Cols, mu)
  }

  /** `uncenterRows`: rejects a `mu` whose length is not the row count, and otherwise
      adds `mu[row]` back to every stored entry. */
  function UncenterRows(x: Matrix, mu: seq<real>): (r: Result<Matrix>)
    requires Valid(x) && NoStoredZeros(x)
    ensures r.Err? <==> |mu| != x.m
    ensures r.Err? ==> r.error.ValueError?
    ensures r.Ok? ==> SamePattern(x, r.value) && Valid(r.value)
    ensures r.Ok? ==> forall i :: 0 <= i < |x.entries| ==>
      x.entries[i].row < |mu| && r.value.entries[i].value == x.entries[i].value + mu[x.entries[i].row]
  {
    if x.m != |mu| then Err(ValueError("Invalid number of rows"))
    else
      var vals := LineOffsets(x, Rows, mu);
      var data := Data(x);
      Ok(WithData(x, seq(|data|, i requires 0 <= i < |data| => data[i] + vals[i])))
  }

  /** `uncenter`: adds `mu1[row] + mu2[col]` to every stored entry; nothing else changes. */
  function Uncenter(x: Matrix, mu1: seq<real>, mu2: seq<real>): (y: Matrix)
    requires Valid(x) && NoStoredZeros(x)
    requires |mu1| >= x.m && |mu2| >= x.n
    ensures SamePattern(x, y) && Valid(y)
    ensures forall i :: 0 <= i < |x.entries| ==>
      x.entries[i].row < |mu1| && x.entries[i].col < |mu2|
      && y.entries[i].value == x.entries[i].value + (mu1[x.entries[i].row] + mu2[x.entries[i].col])
  {
    var vals1, vals2 := LineOffsets(x, Rows, mu1), LineOffsets(x, Cols, mu2);
    var data := Data(x);
    WithData(x, seq(|data|, i requires 0 <= i < |data| => data[i] + (vals1[i] + vals2[i])))
  }

  /** Two matrices with the same pattern and the same values are equal. */
  lemma SamePatternAndValues(x: Matrix, y: Matrix)
    requires SamePattern(x, y)
    requires forall i :: 0 <= i < |x.entries| ==> x.entries[i].value == y.entries[i].value
    ensures x == y
  {
    assert x.entries == y.entries by {
      forall i | 0 <= i < |x.entries| ensures x.entries[i] == y.entries[i] {
        assert SamePlace(x.entries[i], y.entries[i]);
      }
    }
  }

  /** Uncentring rows with the means a row centring used gives back the original matrix,
      provided centring left no stored entry equal to zero. */
  lemma UncenterRowsAfterCenterRows(x: Matrix, mu: Option<seq<real>>)
    requires Valid(x) && NoStoredZeros(x)
    requires mu.Some? ==> |mu.value| == x.m
    requires NoStoredZeros(CenterRows(x, mu).x)
    ensures UncenterRows(CenterRows(x, mu).x, CenterRows(x, mu).mu) == Ok(x)
  {
    var c := CenterRows(x, mu);
    var u := UncenterRows(c.x, c.mu);
    CancelRowOffsets(x, c.x, u.value, c.mu);
  }

  lemma CancelRowOffsets(x: Matrix, x1: Matrix, y: Matrix, mu: seq<real>)
    requires SamePattern(x, x1) && SamePattern(x1, y)
    requires forall i :: 0 <= i < |x.entries| ==>
      x.entries[i].row < |mu| && x1.entries[i].value == x.entries[i].value - mu[x.entries[i].row]
    requires forall i :: 0 <= i < |x1.entries| ==>
      x1.entries[i].row < |mu| && y.entries[i].value == x1.entries[i].value + mu[x1.entries[i].row]
    ensures y == x
  {
    forall i | 0 <= i < |x.entries| ensures y.entries[i].value == x.entries[i].value {
      assert SamePlace(x.entries[i], x1.entries[i]);
    }
    SamePatternAndValues(x, y);
  }

  /** `uncenter` with the row means of a row centring and the column means of the
      column centring that followed it gives back the original matrix, provided
      neither centring left a stored entry equal to zero. */
  lemma UncenterAfterDoubleCentring(x: Matrix, mu1: Option<seq<real>>, mu2: Option<seq<real>>)
    requires Valid(x) && NoStoredZeros(x)
    requires mu1.Some? ==> |mu1.value| >= x.m
    requires mu2.Some? ==> |mu2.value| >= x.n
    requires NoStoredZeros(CenterRows(x, mu1).x)
    requires NoStoredZeros(CenterCols(CenterRows(x, mu1).x, mu2).x)
    ensures var r := CenterRows(x, mu1);
            var c := CenterCols(r.x, mu2);
            Uncenter(c.x, r.mu, c.mu) == x
  {
    var r := CenterRows(x, mu1);
    var c := CenterCols(r.x, mu2);
    UncenterCancels(x, r, c);
  }

  /** The round trip for any row centring `r` of `x` and column centring `c` of `r.x`,
      described by what the centrings promise. */
  lemma UncenterCancels(x: Matrix, r: Centred, c: Centred)
    requires Valid(x) && NoStoredZeros(x)
    requires SamePattern(x, r.x) && Valid(r.x) && NoStoredZeros(r.x)
    requires SamePattern(r.x, c.x) && Valid(c.x) && NoStoredZeros(c.x)
    requires |r.mu| >= x.m && |c.mu| >= r.x.n
    requires forall i :: 0 <= i < |x.entries| ==>
      x.entries[i].row < |r.mu| && r.x.entries[i].value == x.entries[i].value - r.mu[x.entries[i].row]
    requires forall i :: 0 <= i < |r.x.entries| ==>
      r.x.entries[i].col < |c.mu| && c.x.entries[i].value == r.x.entries[i].value - c.mu[r.x.entries[i].col]
    ensures Uncenter(c.x, r.mu, c.mu) == x
  {
    CancelOffsets(x, r.x, c.x, Uncenter(c.x, r.mu, c.mu), r.mu, c.mu);
  }

  /** Subtracting the row and column offsets one after the other and adding their sum
      back leaves every value as it was. */
  lemma CancelOffsets(x: Matrix, x1: Matrix, x2: Matrix, y: Matrix, mu1: seq<real>, mu2: seq<real>)
    requires SamePattern(x, x1) && SamePattern(x1, x2) && SamePattern(x2, y)
    requires forall i :: 0 <= i < |x.entries| ==>
      x.entries[i].row < |mu1| && x1.entries[i].value == x.entries[i].value - mu1[x.entries[i].row]
    requires forall i :: 0 <= i < |x1.entries| ==>
      x1.entries[i].col < |mu2| && x2.entries[i].value == x1.entries[i].value - mu2[x1.entries[i].col]
    requires forall i :: 0 <= i < |x2.entries| ==>
      x2.entries[i].row < |mu1| && x2.entries[i].col < |mu2|
      && y.entries[i].value == x2.entries[i].value + (mu1[x2.entries[i].row] + mu2[x2.entries[i].col])
    ensures y == x
  {
    forall i | 0 <= i < |x.entries| ensures y.entries[i].value == x.entries[i].value {
      assert SamePlace(x.entries[i], x1.entries[i]) && SamePlace(x1.entries[i], x2.entries[i]);
    }
    SamePatternAndValues(x, y);
  }
}

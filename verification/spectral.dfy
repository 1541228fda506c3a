/** The bookkeeping around the singular value decompositions: the selection and soft
    threshold at the end of `svdSoft`, the parameter defaults of `svdPropack` and
    `svdArpack`, and the rank clamp of `generateLowRank`. The decompositions themselves
    are not modelled: the singular values are an input. */
module Spectral {
  import opened Wrappers
  import opened Sparse

  /** `SparseUtils.kmaxMultiplier`: the default Krylov dimension per requested singular value. */
  const KmaxMultiplier: int := 15

  predicate AllBelow(p: seq<nat>, len: nat)
  {
    forall j :: 0 <= j < |p| ==> p[j] < len
  }

  /** The values of `s` at the indices `p` do not decrease. */
  predicate Ascending(s: seq<real>, p: seq<nat>)
    requires AllBelow(p, |s|)
  {
    forall j, l :: 0 <= j < l < |p| ==> s[p[j]] <= s[p[l]]
  }

  /** The values of `s` at the indices `p` do not increase. */
  predicate Descending(s: seq<real>, p: seq<nat>)
    requires AllBelow(p, |s|)
  {
    forall j, l :: 0 <= j < l < |p| ==> s[p[j]] >= s[p[l]]
  }

  /** Inserts index `i` into the index list `p`, kept in ascending order of value, after
      every index of equal value. */
  function InsertIndex(s: seq<real>, i: nat, p: seq<nat>): (r: seq<nat>)
    requires i < |s| && AllBelow(p, |s|)
    ensures |r| == |p| + 1
    ensures forall k :: k in r <==> k in p || k == i
    ensures AllBelow(r, |s|)
  {
    if p == [] then [i]
    else if s[i] < s[p[0]] then [i] + p
    else [p[0]] + InsertIndex(s, i, p[1..])
  }

  /** Inserting into an ascending list keeps it ascending. */
  lemma {:induction false} InsertAscending(s: seq<real>, i: nat, p: seq<nat>)
    requires i < |s| && AllBelow(p, |s|) && Ascending(s, p)
    ensures Ascending(s, InsertIndex(s, i, p))
  {
    if p != [] {
      var r := InsertIndex(s, i, p);
      if s[i] < s[p[0]] {
        assert forall l :: 0 < l < |p| ==> s[p[0]] <= s[p[l]];
      } else {
        var rest := InsertIndex(s, i, p[1..]);
        InsertAscending(s, i, p[1..]);
        forall l | 0 < l < |r| ensures s[p[0]] <= s[r[l]] {
          assert r[l] == rest[l - 1] && rest[l - 1] in rest;
          if rest[l - 1] != i {
            var h :| 0 <= h < |p[1..]| && p[1..][h] == rest[l - 1];
            assert p[h + 1] == rest[l - 1];
          }
        }
      }
    }
  }

  /** Inserting a new index into a list without repeats leaves no repeats. */
  lemma {:induction false} InsertDistinct(s: seq<real>, i: nat, p: seq<nat>)
    requires i < |s| && AllBelow(p, |s|) && Distinct(p) && i !in p
    ensures Distinct(InsertIndex(s, i, p))
  {
    if p != [] && s[i] >= s[p[0]] {
      InsertDistinct(s, i, p[1..]);
      assert p[0] !in p[1..];
    }
  }

  /** `numpy.argsort(s[..len])`: the indices below `len` ordered by ascending value. */
  function Argsort(s: seq<real>, len: nat): (p: seq<nat>)
    requires len <= |s|
    ensures |p| == len && AllBelow(p, |s|)
    ensures forall k: nat :: k in p <==> k < len
    ensures Distinct(p) && Ascending(s, p)
  {
    if len == 0 then []
    else
      var p := Argsort(s, len - 1);
      assert len - 1 !in p;
      InsertAscending(s, len - 1, p);
      InsertDistinct(s, len - 1, p);
      InsertIndex(s, len - 1, p)
  }

  /** `numpy.flipud` on an index list. */
  function Reverse(p: seq<nat>): (r: seq<nat>)
    ensures |r| == |p|
    ensures forall j :: 0 <= j < |p| ==> r[j] == p[|p| - 1 - j]
  {
    seq(|p|, j requires 0 <= j < |p| => p[|p| - 1 - j])
  }

  /** Flipping twice gives back the original order. */
  lemma ReverseReverse(p: seq<nat>)
    ensures Reverse(Reverse(p)) == p
  {
    assert forall j :: 0 <= j < |p| ==> Reverse(Reverse(p))[j] == Reverse(p)[|p| - 1 - j];
  }

  /** `inds[s[inds] >= lmbda]`: the indices whose value reaches `lmbda`, in their order. */
  function KeepAtLeast(s: seq<real>, p: seq<nat>, lmbda: real): (q: seq<nat>)
    requires AllBelow(p, |s|)
    ensures AllBelow(q, |s|)
    ensures forall k :: k in q <==> k in p && k < |s| && s[k] >= lmbda
  {
    if p == [] then []
    else if s[p[0]] >= lmbda then [p[0]] + KeepAtLeast(s, p[1..], lmbda)
    else KeepAtLeast(s, p[1..], lmbda)
  }

  /** `idx` picks `q` out of `p`: `q[j]` is `p[idx[j]]`, at strictly increasing positions. */
  predicate Embeds(q: seq<nat>, p: seq<nat>, idx: seq<nat>)
  {
    && |idx| == |q|
    && (forall j :: 0 <= j < |idx| ==> idx[j] < |p| && q[j] == p[idx[j]])
    && (forall j, l :: 0 <= j < l < |idx| ==> idx[j] < idx[l])
  }

  /** `q` is a subsequence of `p`: its elements occur in `p` in the same order. */
  ghost predicate SubsequenceOf(q: seq<nat>, p: seq<nat>)
  {
    exists idx :: Embeds(q, p, idx)
  }

  /** A boolean mask keeps the surviving indices in the order of `inds`. */
  lemma {:induction false} KeepAtLeastInOrder(s: seq<real>, p: seq<nat>, lmbda: real)
    requires AllBelow(p, |s|)
    ensures SubsequenceOf(KeepAtLeast(s, p, lmbda), p)
  {
    if p == [] {
      assert Embeds([], p, []);
    } else {
      var rest := KeepAtLeast(s, p[1..], lmbda);
      KeepAtLeastInOrder(s, p[1..], lmbda);
      var idx :| Embeds(rest, p[1..], idx);
      if s[p[0]] >= lmbda {
        EmbedsCons(rest, p, idx);
      } else {
        EmbedsSkip(rest, p, idx);
      }
    }
  }

  /** Every position moved one further on. */
  function Shift(idx: seq<nat>): (r: seq<nat>)
    ensures |r| == |idx| && forall j :: 0 <= j < |idx| ==> r[j] == idx[j] + 1
  {
    seq(|idx|, j requires 0 <= j < |idx| => idx[j] + 1)
  }

  /** A subsequence of the tail is one of the whole list. */
  lemma EmbedsSkip(q: seq<nat>, p: seq<nat>, idx: seq<nat>)
    requires p != [] && Embeds(q, p[1..], idx)
    ensures Embeds(q, p, Shift(idx))
  {
    assert forall j :: 0 <= j < |idx| ==> p[Shift(idx)[j]] == p[1..][idx[j]];
  }

  /** The head of the list followed by a subsequence of its tail is a subsequence. */
  lemma EmbedsCons(q: seq<nat>, p: seq<nat>, idx: seq<nat>)
    requires p != [] && Embeds(q, p[1..], idx)
    ensures Embeds([p[0]] + q, p, [0] + Shift(idx))
  {
    EmbedsSkip(q, p, idx);
    var r := [0] + Shift(idx);
    assert forall j :: 0 < j < |r| ==> r[j] == Shift(idx)[j - 1];
  }

  /** A boolean mask keeps every occurrence of a surviving index and none of the others. */
  lemma {:induction false} KeepAtLeastCounts(s: seq<real>, p: seq<nat>, lmbda: real)
    requires AllBelow(p, |s|)
    ensures forall k: nat ::
              multiset(KeepAtLeast(s, p, lmbda))[k] == (if k < |s| && s[k] >= lmbda then multiset(p)[k] else 0)
  {
    if p != [] {
      KeepAtLeastCounts(s, p[1..], lmbda);
      assert p == [p[0]] + p[1..];
      assert multiset(p) == multiset([p[0]]) + multiset(p[1..]);
    }
  }

  /** Filtering keeps the order and the absence of repeats. */
  lemma KeepAtLeastOrdered(s: seq<real>, p: seq<nat>, lmbda: real)
    requires AllBelow(p, |s|) && Distinct(p) && Descending(s, p)
    ensures Distinct(KeepAtLeast(s, p, lmbda)) && Descending(s, KeepAtLeast(s, p, lmbda))
  {
    KeepAtLeastDistinct(s, p, lmbda);
    KeepAtLeastDescending(s, p, lmbda);
  }

  lemma {:induction false} KeepAtLeastDistinct(s: seq<real>, p: seq<nat>, lmbda: real)
    requires AllBelow(p, |s|) && Distinct(p)
    ensures Distinct(KeepAtLeast(s, p, lmbda))
  {
    if p != [] {
      KeepAtLeastDistinct(s, p[1..], lmbda);
      assert p[0] !in p[1..];
    }
  }

  lemma {:induction false} KeepAtLeastDescending(s: seq<real>, p: seq<nat>, lmbda: real)
    requires AllBelow(p, |s|) && Descending(s, p)
    ensures Descending(s, KeepAtLeast(s, p, lmbda))
  {
    if p != [] {
      var rest := KeepAtLeast(s, p[1..], lmbda);
      KeepAtLeastDescending(s, p[1..], lmbda);
      if s[p[0]] >= lmbda {
        forall y | y in rest ensures s[p[0]] >= s[y] {
          var h :| 0 <= h < |p[1..]| && p[1..][h] == y;
          assert p[h + 1] == y;
        }
        DescendingCons(s, p[0], rest);
      }
    }
  }

  /** An index whose value is at least every value of a descending list can go in front. */
  lemma DescendingCons(s: seq<real>, h: nat, rest: seq<nat>)
    requires h < |s| && AllBelow(rest, |s|) && Descending(s, rest)
    requires forall y :: y in rest ==> s[h] >= s[y]
    ensures AllBelow([h] + rest, |s|) && Descending(s, [h] + rest)
  {
    var q := [h] + rest;
    assert forall l :: 0 < l < |q| ==> q[l] == rest[l - 1] && rest[l - 1] in rest;
  }

  /** The largest value of a nonempty sequence: `numpy.max`. */
  function Max(s: seq<real>): (v: real)
    requires |s| > 0
    ensures v in s
    ensures forall j :: 0 <= j < |s| ==> s[j] <= v
  {
    if |s| == 1 then s[0]
    else
      var rest := Max(s[1..]);
      assert forall j :: 1 <= j < |s| ==> s[j] == s[1..][j - 1];
      if s[0] >= rest then s[0] else rest
  }

  /** `numpy.clip(v, lo, hi)` on one value: `min(hi, max(v, lo))`. */
  function Clip(v: real, lo: real, hi: real): real
  {
    var atLeast := if v < lo then lo else v;
    if atLeast > hi then hi else atLeast
  }

  /** `numpy.clip` on a sequence. */
  function ClipAll(v: seq<real>, lo: real, hi: real): (r: seq<real>)
    ensures |r| == |v|
    ensures forall j :: 0 <= j < |v| ==> r[j] == Clip(v[j], lo, hi)
    ensures lo <= hi ==> forall j :: 0 <= j < |r| ==> lo <= r[j] <= hi
    ensures forall j :: 0 <= j < |v| && lo <= v[j] <= hi ==> r[j] == v[j]
  {
    seq(|v|, j requires 0 <= j < |v| => Clip(v[j], lo, hi))
  }

  /** Clipping nonnegative values to `[0, max]` changes none of them. */
  lemma ClipNoEffect(v: seq<real>)
    requires |v| > 0
    requires forall j :: 0 <= j < |v| ==> v[j] >= 0.0
    ensures ClipAll(v, 0.0, Max(v)) == v
  {
  }

  /** `numpy.flipud(numpy.argsort(s))[s[...] >= lmbda]`: the indices whose value reaches
      `lmbda`, by non-increasing value. */
  function SelectedIndices(s: seq<real>, lmbda: real): (inds: seq<nat>)
    ensures AllBelow(inds, |s|) && Distinct(inds)
    ensures forall i: nat :: i in inds <==> i < |s| && s[i] >= lmbda
    ensures Descending(s, inds)
  {
    var order := Argsort(s, |s|);
    var desc := Reverse(order);
    ReversedOrder(s, order);
    KeepAtLeastOrdered(s, desc, lmbda);
    KeepAtLeast(s, desc, lmbda)
  }

  /** Reversing an ascending permutation of the indices gives a descending one. */
  lemma ReversedOrder(s: seq<real>, order: seq<nat>)
    requires |order| == |s| && AllBelow(order, |s|) && Distinct(order) && Ascending(s, order)
    requires forall k: nat :: k in order <==> k < |s|
    ensures AllBelow(Reverse(order), |s|) && Distinct(Reverse(order)) && Descending(s, Reverse(order))
    ensures forall k: nat :: k in Reverse(order) <==> k < |s|
  {
    var desc := Reverse(order);
    forall j, l | 0 <= j < l < |desc| ensures s[desc[j]] >= s[desc[l]] && desc[j] != desc[l] {
      assert order[|order| - 1 - l] == desc[l] && order[|order| - 1 - j] == desc[j];
    }
    forall k | k in desc ensures k < |s| {
      var j :| 0 <= j < |desc| && desc[j] == k;
      assert order[|order| - 1 - j] == k;
    }
    forall k: nat | k < |s| ensures k in desc {
      assert k in order;
      var j :| 0 <= j < |order| && order[j] == k;
      assert desc[|order| - 1 - j] == k;
    }
  }

  /** `s[inds] - lmbda`. */
  function Shifted(s: seq<real>, inds: seq<nat>, lmbda: real): (v: seq<real>)
    requires AllBelow(inds, |s|)
    ensures |v| == |inds|
    ensures forall j :: 0 <= j < |inds| ==> v[j] == s[inds[j]] - lmbda
  {
    seq(|inds|, j requires 0 <= j < |inds| => s[inds[j]] - lmbda)
  }

  /** The soft-thresholded values `s[inds] - lmbda`, clipped to `[0, max]`, for indices
      by non-increasing value that all reach `lmbda`: the clip changes nothing, so the
      results are the reduced values, nonnegative and non-increasing. */
  function ThresholdValues(s: seq<real>, inds: seq<nat>, lmbda: real): (v: seq<real>)
    requires AllBelow(inds, |s|) && Descending(s, inds)
    requires forall j :: 0 <= j < |inds| ==> s[inds[j]] >= lmbda
    ensures |v| == |inds|
    ensures forall j :: 0 <= j < |inds| ==> v[j] == s[inds[j]] - lmbda
    ensures forall j :: 0 <= j < |v| ==> v[j] >= 0.0
    ensures forall j, l :: 0 <= j < l < |v| ==> v[j] >= v[l]
  {
    var shifted := Shifted(s, inds, lmbda);
    if |shifted| != 0 then
      ClipNoEffect(shifted);
      ClipAll(shifted, 0.0, Max(shifted))
    else
      shifted
  }

  /** The singular values `svdSoft` keeps, as the indices into the decomposition's values
      (what `Util.indSvd` selects with) and the thresholded values. */
  datatype Thresholded = Thresholded(inds: seq<nat>, s: seq<real>)

  /** The tail of `svdSoft` on the singular values `s`: the indices of the values at
      least `lmbda`, by non-increasing value, each value reduced by `lmbda`. Since every
      kept value reaches `lmbda`, the clip to `[0, max]` leaves the reduced values alone;
      nothing is kept exactly when every value is below `lmbda`. */
  function SoftThreshold(s: seq<real>, lmbda: real): (t: Thresholded)
    ensures Distinct(t.inds) && AllBelow(t.inds, |s|)
    ensures forall i: nat :: i in t.inds <==> i < |s| && s[i] >= lmbda
    ensures forall j, l :: 0 <= j < l < |t.inds| ==> s[t.inds[j]] >= s[t.inds[l]]
    ensures |t.s| == |t.inds|
    ensures forall j :: 0 <= j < |t.inds| ==> t.s[j] == s[t.inds[j]] - lmbda
    ensures forall j :: 0 <= j < |t.s| ==> t.s[j] >= 0.0
    ensures forall j, l :: 0 <= j < l < |t.s| ==> t.s[j] >= t.s[l]
    ensures t.inds == [] <==> forall i :: 0 <= i < |s| ==> s[i] < lmbda
  {
    var inds := SelectedIndices(s, lmbda);
    SelectedReach(s, inds, lmbda);
    NoneSelected(s, inds, lmbda);
    Thresholded(inds, ThresholdValues(s, inds, lmbda))
  }

  /** Every selected index has a value reaching the threshold. */
  lemma SelectedReach(s: seq<real>, inds: seq<nat>, lmbda: real)
    requires AllBelow(inds, |s|)
    requires forall i: nat :: i in inds <==> i < |s| && s[i] >= lmbda
    ensures forall j :: 0 <= j < |inds| ==> s[inds[j]] >= lmbda
  {
    assert forall j :: 0 <= j < |inds| ==> inds[j] in inds;
  }

  /** Nothing is selected exactly when every value is below the threshold. */
  lemma NoneSelected(s: seq<real>, inds: seq<nat>, lmbda: real)
    requires forall i: nat :: i in inds <==> i < |s| && s[i] >= lmbda
    ensures inds == [] <==> forall i :: 0 <= i < |s| ==> s[i] < lmbda
  {
    if inds != [] {
      assert inds[0] in inds;
    }
  }

  /** The `k` and `kmax` that `svdPropack` and `svdArpack` pass on. */
  datatype SvdParams = SvdParams(k: int, kmax: int)

  /** The defaults of `svdPropack` and `svdArpack` for a `rows × cols` operator: `k`
      defaults to the smaller dimension, `kmax` to `KmaxMultiplier` times `k`; values
      that are given are kept. */
  function SvdDefaults(rows: nat, cols: nat, k: Option<int>, kmax: Option<int>): (p: SvdParams)
    ensures k.Some? ==> p.k == k.value
    ensures k.None? ==> p.k <= rows && p.k <= cols && (p.k == rows || p.k == cols)
    ensures kmax.Some? ==> p.kmax == kmax.value
    ensures kmax.None? ==> p.kmax == KmaxMultiplier * p.k
  {
    var k' := if k.None? then (if rows <= cols then rows else cols) else k.value;
    var kmax' := if kmax.None? then KmaxMultiplier * k' else kmax.value;
    SvdParams(k', kmax')
  }

  /** The parameters `svdSoft` hands to `svdPropack` for a sparse `rows × cols` matrix: the
      full rank `min(rows, cols)`, with `kmax` given or defaulted. */
  function SvdSoftParams(rows: nat, cols: nat, kmax: Option<int>): (p: SvdParams)
    ensures p.k <= rows && p.k <= cols && (p.k == rows || p.k == cols)
    ensures kmax.None? ==> p.kmax == KmaxMultiplier * p.k
    ensures kmax.Some? ==> p.kmax == kmax.value
  {
    SvdDefaults(rows, cols, Some(if rows <= cols then rows else cols), kmax)
  }

  /** The rank `svdSoft` requests is the one `svdPropack` would choose by default. */
  lemma SvdSoftRequestsDefault(rows: nat, cols: nat, kmax: Option<int>)
    ensures SvdSoftParams(rows, cols, kmax) == SvdDefaults(rows, cols, None, kmax)
  {
  }

  /** `numpy.min([n, m, r])` in `generateLowRank`: the requested rank, clamped to both
      dimensions. */
  function ClampRank(n: int, m: int, r: int): (c: int)
    ensures c <= n && c <= m && c <= r
    ensures c == n || c == m || c == r
  {
    if n <= m && n <= r then n else if m <= r then m else r
  }
}

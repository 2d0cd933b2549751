/**
 * The outlying measure of js/Scagnostics.js: the share of the total edge
 * weight carried by edges longer than the upper Tukey fence
 * `q75 + 1.5 * (q75 - q25)` of the weights.
 *
 * Arithmetic is on exact reals. `None` stands for the values JavaScript
 * produces where no number comes out: `undefined`, `NaN` and the infinities.
 */
module Scagnostics {
  import opened Wrappers
  import opened Sequences
  import Mst

  /**
   * A number itself: the key of the comparator `(a, b) => a - b` (ascending
   * numeric order) and the summand of `reduce((a, b) => a + b, 0)`.
   */
  function Self(x: real): real {
    x
  }

  /** `reduce((a, b) => a + b, 0)`. */
  function Sum(ws: seq<real>): real {
    SumBy(ws, Self)
  }

  /** `(sorted.length - 1) * q`: the fractional rank of the `q`-quantile. */
  function Position(n: nat, q: real): (pos: real)
    ensures 0.0 <= q <= 1.0 && n > 0 ==> 0.0 <= pos <= (n - 1) as real
  {
    assert 0.0 <= q <= 1.0 && n > 0 ==> 0.0 <= (n - 1) as real * q <= (n - 1) as real by {
      if 0.0 <= q <= 1.0 && n > 0 {
        NonNegativeScale((n - 1) as real, q);
        NonNegativeScale((n - 1) as real, 1.0 - q);
      }
    }
    (n - 1) as real * q
  }

  lemma NonNegativeScale(a: real, b: real)
    requires a >= 0.0 && b >= 0.0
    ensures a * b >= 0.0
  {
  }

  /** `lo + rest * (hi - lo)`: the point a fraction `rest` of the way from `lo` to `hi`. */
  function Interpolate(lo: real, hi: real, rest: real): (v: real)
    ensures lo <= hi && 0.0 <= rest <= 1.0 ==> lo <= v <= hi
  {
    assert lo <= hi && 0.0 <= rest <= 1.0 ==> 0.0 <= rest * (hi - lo) <= hi - lo by {
      if lo <= hi && 0.0 <= rest <= 1.0 {
        NonNegativeScale(rest, hi - lo);
        NonNegativeScale(1.0 - rest, hi - lo);
      }
    }
    lo + rest * (hi - lo)
  }

  /** `quantile` on an already ascending array: linear interpolation between the two nearest ranks. */
  function QuantileOf(sorted: seq<real>, q: real): (r: Option<real>)
    ensures sorted == [] ==> r.None?
    ensures 0.0 <= q <= 1.0 && sorted != [] ==> r.Some?
  {
    var pos := Position(|sorted|, q);
    var base := pos.Floor;
    var rest := pos - base as real;
    if 0 <= base + 1 < |sorted| then
      if 0 <= base then Some(Interpolate(sorted[base], sorted[base + 1], rest)) else None
    else if 0 <= base < |sorted| then
      Some(sorted[base])
    else
      None
  }

  /** `arr.sort((a, b) => a - b)`: sorts the caller's array in place. */
  method SortInPlace(arr: array<real>)
    modifies arr
    ensures arr[..] == SortBy(old(arr[..]), Self)
  {
    var sorted := SortBy(arr[..], Self);
    forall i | 0 <= i < arr.Length {
      arr[i] := sorted[i];
    }
    assert arr[..] == sorted;
  }

  /** `quantile(arr, q)`: sorts the caller's array in place, then reads the quantile off it. */
  method Quantile(arr: array<real>, q: real) returns (r: Option<real>)
    modifies arr
    ensures arr[..] == SortBy(old(arr[..]), Self)
    ensures r == QuantileOf(arr[..], q)
  {
    SortInPlace(arr);
    r := QuantileOf(arr[..], q);
  }

  /** The upper fence `q75 + 1.5 * (q75 - q25)`; `None` when a quartile is `undefined`. */
  function Fence(q25: Option<real>, q75: Option<real>): (fence: Option<real>)
    ensures fence.Some? <==> q25.Some? && q75.Some?
    ensures q25.Some? && q75.Some? && q25.value <= q75.value ==> q75.value <= fence.value
  {
    if q25.Some? && q75.Some? then Some(q75.value + 1.5 * (q75.value - q25.value)) else None
  }

  /** `elem > fence`, which is false when the fence is `NaN`. */
  predicate IsLong(w: real, fence: Option<real>) {
    fence.Some? && w > fence.value
  }

  /** The weights above the fence, in order. */
  function LongWeights(ws: seq<real>, fence: Option<real>): (r: seq<real>)
    ensures |r| <= |ws|
  {
    if ws == [] then []
    else
      var rest := LongWeights(ws[..|ws| - 1], fence);
      var last := ws[|ws| - 1];
      if IsLong(last, fence) then rest + [last] else rest
  }

  /** A weight is kept exactly when it is one of the weights and lies above the fence. */
  lemma {:induction false} LongWeightsMembers(ws: seq<real>, fence: Option<real>)
    ensures forall w :: w in LongWeights(ws, fence) <==> w in ws && IsLong(w, fence)
  {
    if ws != [] {
      LongWeightsMembers(ws[..|ws| - 1], fence);
      assert ws == ws[..|ws| - 1] + [ws[|ws| - 1]];
    }
  }

  /** The weights of the edges, in order. */
  function Weights(data: seq<Mst.Edge>): (ws: seq<real>)
    ensures |ws| == |data| && forall i :: 0 <= i < |data| ==> ws[i] == data[i].weight
  {
    seq(|data|, i requires 0 <= i < |data| => data[i].weight)
  }

  /** The value of `calculateOutlying` on these weights: the long weights' share of the total. */
  function Outlying(ws: seq<real>): Option<real> {
    var sorted := SortBy(ws, Self);
    var fence := Fence(QuantileOf(sorted, 0.25), QuantileOf(sorted, 0.75));
    var total := Sum(sorted);
    if total == 0.0 then None else Some(Sum(LongWeights(sorted, fence)) / total)
  }

  /** `this.data.map((elem) => weights.push(elem['weight']))`: a fresh array of the edge weights. */
  method CollectWeights(data: seq<Mst.Edge>) returns (weights: array<real>)
    ensures fresh(weights) && weights[..] == Weights(data)
  {
    weights := new real[|data|];
    for i := 0 to |data|
      invariant weights[..i] == Weights(data)[..i]
    {
      weights[i] := data[i].weight;
    }
    assert weights[..] == weights[..|data|];
  }

  /** `weights.map(...)` pushing each weight above `q75 + 1.5 * (q75 - q25)`. */
  method CollectLong(weights: array<real>, q25: Option<real>, q75: Option<real>) returns (longEdges: seq<real>)
    ensures longEdges == LongWeights(weights[..], Fence(q25, q75))
  {
    longEdges := [];
    for i := 0 to weights.Length
      invariant longEdges == LongWeights(weights[..i], Fence(q25, q75))
    {
      assert weights[..i + 1][..i] == weights[..i] && weights[..i + 1][i] == weights[i];
      if q25.Some? && q75.Some? && weights[i] > q75.value + 1.5 * (q75.value - q25.value) {
        longEdges := longEdges + [weights[i]];
      }
    }
    assert weights[..] == weights[..weights.Length];
  }

  /** `calculateOutlying` on the links `data`. */
  method CalculateOutlying(data: seq<Mst.Edge>) returns (measure: Option<real>)
    ensures measure == Outlying(Weights(data))
  {
    var weights := CollectWeights(data);
    var q25 := Quantile(weights, 0.25);
    var q75 := Quantile(weights, 0.75);
    assert weights[..] == SortBy(Weights(data), Self) by {
      SortSorted(SortBy(Weights(data), Self), Self);
    }
    var longEdges := CollectLong(weights, q25, q75);
    var overallEdgesSum := Sum(weights[..]);
    var longEdgesSum := Sum(longEdges);
    if overallEdgesSum == 0.0 {
      measure := None;
    } else {
      measure := Some(longEdgesSum / overallEdgesSum);
    }
  }

  // ------------------------------------------------------------ properties

  /** Worked values: a single weight, the median of four, the lower quartile of four, and no weights. */
  lemma QuantileExamples(q: real)
    ensures QuantileOf([5.0], 0.25) == Some(5.0)
    ensures QuantileOf([1.0, 2.0, 3.0, 4.0], 0.5) == Some(2.5)
    ensures QuantileOf([1.0, 2.0, 3.0, 4.0], 0.25) == Some(1.75)
    ensures QuantileOf([], q) == None
  {
    assert Position(1, 0.25) == 0.0;
    assert Position(4, 0.5) == 1.5 && (1.5).Floor == 1;
    assert Position(4, 0.25) == 0.75 && (0.75).Floor == 0;
  }

  lemma InterpolateMonotone(lo: real, hi: real, r1: real, r2: real)
    requires lo <= hi && r1 <= r2
    ensures Interpolate(lo, hi, r1) <= Interpolate(lo, hi, r2)
  {
    NonNegativeScale(r2 - r1, hi - lo);
    assert r2 * (hi - lo) - r1 * (hi - lo) == (r2 - r1) * (hi - lo);
  }

  /** The rank used for `q`, and the quantile lying between that rank's value and the next one's. */
  lemma QuantileNear(sorted: seq<real>, q: real)
    requires SortedBy(sorted, Self) && sorted != [] && 0.0 <= q <= 1.0
    ensures var b := Position(|sorted|, q).Floor;
      && 0 <= b < |sorted|
      && sorted[b] <= QuantileOf(sorted, q).value <= sorted[if b + 1 < |sorted| then b + 1 else b]
  {
    var pos := Position(|sorted|, q);
    var b := pos.Floor;
    if b + 1 < |sorted| {
      assert Self(sorted[b]) <= Self(sorted[b + 1]);
    }
  }

  /** The quantile lies between the smallest and the largest weight. */
  lemma QuantileBounds(sorted: seq<real>, q: real)
    requires SortedBy(sorted, Self) && sorted != [] && 0.0 <= q <= 1.0
    ensures sorted[0] <= QuantileOf(sorted, q).value <= sorted[|sorted| - 1]
  {
    QuantileNear(sorted, q);
    var b := Position(|sorted|, q).Floor;
    var up := if b + 1 < |sorted| then b + 1 else b;
    assert Self(sorted[0]) <= Self(sorted[b]);
    assert Self(sorted[up]) <= Self(sorted[|sorted| - 1]);
  }

  /** Where `(n - 1) * q` is a whole rank `k`, the quantile is exactly the `k`-th smallest weight. */
  lemma QuantileAtRank(sorted: seq<real>, q: real, k: nat)
    requires k < |sorted| && Position(|sorted|, q) == k as real
    ensures QuantileOf(sorted, q) == Some(sorted[k])
  {
    assert (k as real).Floor == k;
  }

  /** A larger `q` never gives a smaller quantile. */
  lemma QuantileMonotone(sorted: seq<real>, q1: real, q2: real)
    requires SortedBy(sorted, Self) && sorted != [] && 0.0 <= q1 <= q2 <= 1.0
    ensures QuantileOf(sorted, q1).value <= QuantileOf(sorted, q2).value
  {
    var n := |sorted|;
    var p1, p2 := Position(n, q1), Position(n, q2);
    assert p1 <= p2 by {
      NonNegativeScale((n - 1) as real, q2 - q1);
      assert (n - 1) as real * q2 - (n - 1) as real * q1 == (n - 1) as real * (q2 - q1);
    }
    var b1, b2 := p1.Floor, p2.Floor;
    QuantileNear(sorted, q1);
    QuantileNear(sorted, q2);
    if b1 < b2 {
      var up := if b1 + 1 < n then b1 + 1 else b1;
      assert Self(sorted[up]) <= Self(sorted[b2]);
    } else if b1 + 1 < n {
      InterpolateMonotone(sorted[b1], sorted[b1 + 1], p1 - b1 as real, p2 - b2 as real);
    }
  }

  /** Every long weight lies above the upper quartile, since the fence does. */
  lemma LongAboveUpperQuartile(ws: seq<real>)
    requires ws != []
    ensures var sorted := SortBy(ws, Self);
      var fence := Fence(QuantileOf(sorted, 0.25), QuantileOf(sorted, 0.75));
      forall w :: w in LongWeights(sorted, fence) ==> w > QuantileOf(sorted, 0.75).value
  {
    var sorted := SortBy(ws, Self);
    QuantileMonotone(sorted, 0.25, 0.75);
    LongWeightsMembers(sorted, Fence(QuantileOf(sorted, 0.25), QuantileOf(sorted, 0.75)));
  }

  /** With no negative weight, the long weights sum to between zero and the total. */
  lemma {:induction false} LongSumBounded(ws: seq<real>, fence: Option<real>)
    requires forall i :: 0 <= i < |ws| ==> ws[i] >= 0.0
    ensures 0.0 <= Sum(LongWeights(ws, fence)) <= Sum(ws)
  {
    if ws != [] {
      LongSumBounded(ws[..|ws| - 1], fence);
      var rest := LongWeights(ws[..|ws| - 1], fence);
      assert (rest + [ws[|ws| - 1]])[..|rest|] == rest;
    }
  }

  /** `calculateOutlying` yields no number exactly when the weights sum to zero, as with no edges at all. */
  lemma OutlyingUndefined(ws: seq<real>)
    ensures Outlying(ws).None? <==> Sum(ws) == 0.0
    ensures Outlying([]) == None
  {
    SortBySum(ws, Self, Self);
  }

  /** For non-negative weights with a positive total, the measure is a share in `[0, 1]`. */
  lemma OutlyingShare(ws: seq<real>)
    requires forall i :: 0 <= i < |ws| ==> ws[i] >= 0.0
    requires Sum(ws) > 0.0
    ensures Outlying(ws).Some? && 0.0 <= Outlying(ws).value <= 1.0
  {
    var sorted := SortBy(ws, Self);
    SortBySum(ws, Self, Self);
    forall i | 0 <= i < |sorted| ensures sorted[i] >= 0.0 {
      assert sorted[i] in multiset(ws);
    }
    var fence := Fence(QuantileOf(sorted, 0.25), QuantileOf(sorted, 0.75));
    LongSumBounded(sorted, fence);
    ShareBounded(Sum(LongWeights(sorted, fence)), Sum(sorted));
  }

  lemma ShareBounded(part: real, total: real)
    requires 0.0 <= part <= total && total > 0.0
    ensures 0.0 <= part / total <= 1.0
  {
    assert part / total * total == part;
  }

  /** Zero is a zero share of any non-zero total. */
  lemma ZeroShare(part: real, total: real)
    requires part == 0.0 && total != 0.0
    ensures part / total == 0.0
  {
  }

  /** With no weight above the fence, nothing is kept. */
  lemma {:induction false} NoLongWeights(ws: seq<real>, fence: Option<real>)
    requires forall i :: 0 <= i < |ws| ==> !IsLong(ws[i], fence)
    ensures LongWeights(ws, fence) == []
  {
    if ws != [] {
      NoLongWeights(ws[..|ws| - 1], fence);
    }
  }

  /** When all weights are equal to `c`, both quartiles and the fence are `c`. */
  lemma UniformFence(sorted: seq<real>, c: real)
    requires sorted != [] && forall i :: 0 <= i < |sorted| ==> sorted[i] == c
    ensures QuantileOf(sorted, 0.25) == Some(c) && QuantileOf(sorted, 0.75) == Some(c)
    ensures Fence(QuantileOf(sorted, 0.25), QuantileOf(sorted, 0.75)) == Some(c)
  {
    QuantileNear(sorted, 0.25);
    QuantileNear(sorted, 0.75);
  }

  /** Sorting copies of `c` gives copies of `c`. */
  lemma SortedCopies(ws: seq<real>, c: real)
    requires forall i :: 0 <= i < |ws| ==> ws[i] == c
    ensures forall i :: 0 <= i < |SortBy(ws, Self)| ==> SortBy(ws, Self)[i] == c
  {
    var sorted := SortBy(ws, Self);
    forall i | 0 <= i < |sorted| ensures sorted[i] == c {
      assert sorted[i] in multiset(ws);
    }
  }

  /** Copies of a positive `c` have a positive total. */
  lemma CopiesTotal(s: seq<real>, c: real)
    requires s != [] && c > 0.0 && forall i :: 0 <= i < |s| ==> s[i] == c
    ensures Sum(s) > 0.0
  {
    SumByNonNegative(s[..|s| - 1], Self);
    assert Sum(s) == Sum(s[..|s| - 1]) + c;
  }

  /** When every edge has the same positive weight, no edge is long and the measure is zero. */
  lemma UniformNotOutlying(ws: seq<real>, c: real)
    requires ws != [] && c > 0.0 && forall i :: 0 <= i < |ws| ==> ws[i] == c
    ensures LongWeights(SortBy(ws, Self), Fence(QuantileOf(SortBy(ws, Self), 0.25), QuantileOf(SortBy(ws, Self), 0.75))) == []
    ensures Outlying(ws) == Some(0.0)
  {
    var sorted := SortBy(ws, Self);
    var total := Sum(sorted);
    var long := LongWeights(sorted, Fence(QuantileOf(sorted, 0.25), QuantileOf(sorted, 0.75)));
    assert total > 0.0 by {
      SortedCopies(ws, c);
      CopiesTotal(sorted, c);
    }
    assert long == [] by {
      SortedCopies(ws, c);
      UniformFence(sorted, c);
      NoLongWeights(sorted, Some(c));
    }
    ZeroShare(Sum(long), total);
  }
}

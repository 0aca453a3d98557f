/**
 Projecting a tensor to the coordinates of another shape
 (reference/diffusers/model_merge_tensor.py, projection_transform, _coordinates and project_tensor).
 Coordinates are exact rationals here, rounded half to even as the tensor library rounds.
 */
module TensorProjection {
  import opened Options
  import opened RowMajor
  import opened Sorting

  datatype Transform = EmptyPreserve | Identity | Transpose | Reshape | FlattenResample | AxisResample

  function ProjectionTransform(source: Shape, target: Shape): Transform {
    if Product(source) == 0 || Product(target) == 0 then EmptyPreserve
    else if source == target then Identity
    else if |source| == 2 && |target| == 2 && source == [target[1], target[0]] then Transpose
    else if Product(source) == Product(target) then Reshape
    else if |source| != |target| then FlattenResample
    else AxisResample
  }

  /** n/d rounded to the nearest integer, and to the even one of two equally near. */
  function RoundHalfEven(n: nat, d: nat): nat
    requires d > 0
  {
    var q, r := n / d, n % d;
    if 2 * r < d || (2 * r == d && q % 2 == 0) then q else q + 1
  }

  /** The source coordinate that target coordinate i reads, when an axis is resampled. */
  function Coordinate(source: nat, target: nat, i: nat): nat {
    if target <= 1 || source == 0 then 0 else RoundHalfEven(i * (source - 1), target - 1)
  }

  /** c is the integer nearest to n/d, and even when another one is as near. */
  predicate Nearest(c: nat, n: nat, d: nat) {
    && 2 * n - d <= 2 * (c * d) <= 2 * n + d
    && (2 * (c * d) == 2 * n - d || 2 * (c * d) == 2 * n + d ==> c % 2 == 0)
  }

  /** Evenly spaced coordinates from the first to the last element of the source, rounded. */
  predicate NearestCoordinate(c: nat, source: nat, target: nat, i: nat) {
    if target <= 1 || source == 0 then c == 0 else Nearest(c, i * (source - 1), target - 1)
  }

  lemma RoundedIsNearest(n: nat, d: nat)
    requires d > 0
    ensures Nearest(RoundHalfEven(n, d), n, d)
  {
    var q, r := n / d, n % d;
    assert n == q * d + r;
    assert (q + 1) * d == q * d + d;
  }

  /** There is one nearest integer. */
  lemma NearestIsUnique(a: nat, b: nat, n: nat, d: nat)
    requires d > 0 && Nearest(a, n, d) && Nearest(b, n, d)
    ensures a == b
  {
    if a < b {
      GapOfProducts(a, b, d);
    } else if b < a {
      GapOfProducts(b, a, d);
    }
  }

  lemma GapOfProducts(a: nat, b: nat, d: nat)
    requires a < b && d > 0
    ensures b * d >= a * d + d && (b > a + 1 ==> b * d > a * d + d)
  {
    var gap := b - a - 1;
    assert b * d == a * d + d + gap * d;
    assert gap * d >= 0 && (gap > 0 ==> gap * d > 0);
  }

  /** Every coordinate is the nearest one. */
  lemma CoordinateIsNearest(source: nat, target: nat, i: nat)
    ensures NearestCoordinate(Coordinate(source, target, i), source, target, i)
  {
    hide RoundHalfEven, Nearest;
    if target > 1 && source > 0 {
      RoundedIsNearest(i * (source - 1), target - 1);
    }
  }

  lemma OnlyCoordinate(source: nat, target: nat, i: nat, c: nat)
    requires NearestCoordinate(c, source, target, i)
    ensures c == Coordinate(source, target, i)
  {
    CoordinateIsNearest(source, target, i);
    hide RoundHalfEven, Nearest;
    if target > 1 && source > 0 {
      NearestIsUnique(c, Coordinate(source, target, i), i * (source - 1), target - 1);
    }
  }

  lemma NearestIsRead(source: nat, target: nat)
    ensures forall k: nat, c: nat :: NearestCoordinate(c, source, target, k) ==> c == Coordinate(source, target, k)
  {
    hide NearestCoordinate, Coordinate;
    forall k: nat, c: nat | NearestCoordinate(c, source, target, k) ensures c == Coordinate(source, target, k) {
      OnlyCoordinate(source, target, k, c);
    }
  }

  lemma SmallerProduct(a: nat, b: nat, c: nat)
    requires a <= b
    ensures a * c <= b * c
  {
    assert (b - a) * c >= 0;
  }

  lemma RoundingIsNearest(n: nat, d: nat, m: nat)
    requires d > 0
    ensures n <= d * m ==> RoundHalfEven(n, d) <= m
    ensures n >= d * m ==> RoundHalfEven(n, d) >= m
  {
    var q, r := n / d, n % d;
    QuotientAgainst(q, r, d, m);
  }

  lemma QuotientAgainst(q: nat, r: nat, d: nat, m: nat)
    requires r < d
    ensures q * d + r <= d * m ==> q <= m && (q == m ==> r == 0)
    ensures q * d + r >= d * m ==> q >= m
  {
    if q > m {
      SmallerProduct(m + 1, q, d);
    } else if q < m {
      SmallerProduct(q + 1, m, d);
    }
  }

  lemma DivisionMonotone(n: nat, n': nat, d: nat)
    requires d > 0 && n <= n'
    ensures n / d < n' / d || (n / d == n' / d && n % d <= n' % d)
    ensures n' >= d * (n' / d)
  {
    var q, q' := n / d, n' / d;
    assert n == q * d + n % d && n' == q' * d + n' % d;
    assert q' < q ==> (q' + 1) * d <= q * d;
  }

  lemma RoundingMonotone(n: nat, n': nat, d: nat)
    requires d > 0 && n <= n'
    ensures RoundHalfEven(n, d) <= RoundHalfEven(n', d)
  {
    DivisionMonotone(n, n', d);
    if n / d < n' / d {
      RoundingIsNearest(n', d, n' / d);
    }
  }

  lemma CoordinateBelow(source: nat, target: nat, i: nat)
    requires source > 0 && i < target
    ensures Coordinate(source, target, i) < source
  {
    hide RoundHalfEven;
    if target > 1 {
      SmallerProduct(i, target - 1, source - 1);
      RoundingIsNearest(i * (source - 1), target - 1, source - 1);
    }
  }

  lemma CoordinateMonotone(source: nat, target: nat, i: nat, j: nat)
    requires i <= j < target
    ensures Coordinate(source, target, i) <= Coordinate(source, target, j)
  {
    hide RoundHalfEven;
    if target > 1 && source > 0 {
      SmallerProduct(i, j, source - 1);
      RoundingMonotone(i * (source - 1), j * (source - 1), target - 1);
    }
  }

  /** The ends meet, and resampling to the same size changes nothing. */
  lemma CoordinateFixedPoints(source: nat, target: nat)
    requires source > 0 && target > 0
    ensures Coordinate(source, target, 0) == 0
    ensures target > 1 ==> Coordinate(source, target, target - 1) == source - 1
    ensures source == target ==> forall i :: 0 <= i < target ==> Coordinate(source, target, i) == i
  {
    hide RoundHalfEven;
    if target > 1 {
      RoundingIsNearest(0, target - 1, 0);
      RoundingIsNearest((target - 1) * (source - 1), target - 1, source - 1);
      if source == target {
        forall i | 0 <= i < target ensures Coordinate(source, target, i) == i {
          RoundingIsNearest(i * (source - 1), target - 1, i);
        }
      }
    }
  }

  // ---- One axis ----

  /** index_select: picks slices along one axis. */
  function Select<T>(t: Tensor<T>, axis: nat, picks: seq<nat>): (selected: Tensor<T>)
    requires t.Valid() && axis < |t.shape| && forall pick <- picks :: pick < t.shape[axis]
    ensures selected.shape == t.shape[axis := |picks|] && selected.Valid()
  {
    var shape := t.shape[axis := |picks|];
    Tensor(shape, seq(Product(shape), k requires 0 <= k < Product(shape) =>
      FlatUnflat(shape, k);
      var index := Unflat(shape, k);
      PickedWithin(t.shape, axis, picks, index);
      t.At(index[axis := picks[index[axis]]])))
  }

  lemma PickedWithin(shape: Shape, axis: nat, picks: seq<nat>, index: seq<nat>)
    requires axis < |shape| && Within(shape[axis := |picks|], index) && forall pick <- picks :: pick < shape[axis]
    ensures index[axis] < |picks| && Within(shape, index[axis := picks[index[axis]]])
  {
    assert index[axis] < shape[axis := |picks|][axis];
    var moved := index[axis := picks[index[axis]]];
    forall k | 0 <= k < |shape| ensures moved[k] < shape[k] {
      assert index[k] < shape[axis := |picks|][k];
      assert picks[index[axis]] in picks;
    }
  }

  lemma SelectAt<T>(t: Tensor<T>, axis: nat, picks: seq<nat>, index: seq<nat>)
    requires t.Valid() && axis < |t.shape| && forall pick <- picks :: pick < t.shape[axis]
    requires Within(t.shape[axis := |picks|], index)
    ensures index[axis] < |picks| && Within(t.shape, index[axis := picks[index[axis]]])
    ensures Select(t, axis, picks).At(index) == t.At(index[axis := picks[index[axis]]])
  {
    PickedWithin(t.shape, axis, picks, index);
    UnflatFlat(t.shape[axis := |picks|], index);
  }

  lemma CoordinatesBelow(source: nat, target: nat)
    requires source > 0
    ensures forall i :: 0 <= i < target ==> Coordinate(source, target, i) < source
  {
    hide Coordinate;
    forall i | 0 <= i < target ensures Coordinate(source, target, i) < source {
      CoordinateBelow(source, target, i);
    }
  }

  function Coordinates(source: nat, target: nat): (coordinates: seq<nat>)
    requires source > 0
    ensures |coordinates| == target && forall c <- coordinates :: c < source
  {
    CoordinatesBelow(source, target);
    seq(target, i requires 0 <= i < target => Coordinate(source, target, i))
  }

  // ---- All axes ----

  /** The sizes after the axes in `done` have been resampled. */
  function Mixed(source: Shape, target: Shape, done: set<int>): (shape: Shape)
    requires |source| == |target|
    ensures |shape| == |source|
  {
    seq(|source|, k requires 0 <= k < |source| => if k in done then target[k] else source[k])
  }

  /** Where an element of the partly resampled tensor comes from. */
  function Origin(source: Shape, target: Shape, done: set<int>, index: seq<nat>): (origin: seq<nat>)
    requires |source| == |target| == |index|
    ensures |origin| == |source|
  {
    seq(|source|, k requires 0 <= k < |source| => if k in done then Coordinate(source[k], target[k], index[k]) else index[k])
  }

  lemma OriginWithin(source: Shape, target: Shape, done: set<int>, index: seq<nat>)
    requires |source| == |target| && Product(source) > 0 && Within(Mixed(source, target, done), index)
    ensures Within(source, Origin(source, target, done, index))
  {
    PositiveProduct(source);
    forall k | 0 <= k < |source| ensures Origin(source, target, done, index)[k] < source[k] {
      assert index[k] < Mixed(source, target, done)[k];
      if k in done {
        CoordinateBelow(source[k], target[k], index[k]);
      }
    }
  }

  /** A tensor resampled along the axes in `done`, whatever the order they were taken in. */
  ghost predicate ResampledAlong<T>(value: Tensor<T>, source: Tensor<T>, target: Shape, done: set<int>)
    requires source.Valid() && |source.shape| == |target| && Product(source.shape) > 0
  {
    && value.Valid() && value.shape == Mixed(source.shape, target, done)
    && forall index :: Within(value.shape, index) ==>
         (OriginWithin(source.shape, target, done, index);
          value.At(index) == source.At(Origin(source.shape, target, done, index)))
  }

  /** Resampling one more axis. */
  lemma ResampleOneMore<T>(value: Tensor<T>, source: Tensor<T>, target: Shape, done: set<int>, axis: nat)
    requires source.Valid() && |source.shape| == |target| && Product(source.shape) > 0
    requires ResampledAlong(value, source, target, done) && axis < |target| && axis !in done
    ensures value.shape[axis] == source.shape[axis] > 0
    ensures ResampledAlong(Select(value, axis, Coordinates(source.shape[axis], target[axis])), source, target, done + {axis})
  {
    hide Product, Coordinate, Select;
    PositiveProduct(source.shape);
    var picks := Coordinates(source.shape[axis], target[axis]);
    var selected, after := Select(value, axis, picks), done + {axis};
    assert selected.shape == Mixed(source.shape, target, after);
    forall index | Within(selected.shape, index)
      ensures Within(source.shape, Origin(source.shape, target, after, index))
      ensures selected.At(index) == source.At(Origin(source.shape, target, after, index))
    {
      OriginWithin(source.shape, target, after, index);
      SelectAt(value, axis, picks, index);
      var moved := index[axis := picks[index[axis]]];
      assert Origin(source.shape, target, done, moved) == Origin(source.shape, target, after, index);
    }
  }

  /** Resampling an axis to its own size can be skipped. */
  lemma ResampleSkipped<T>(value: Tensor<T>, source: Tensor<T>, target: Shape, done: set<int>, axis: nat)
    requires source.Valid() && |source.shape| == |target| && Product(source.shape) > 0
    requires ResampledAlong(value, source, target, done) && axis < |target| && axis !in done
    requires source.shape[axis] == target[axis]
    ensures ResampledAlong(value, source, target, done + {axis})
  {
    hide Product, Coordinate;
    PositiveProduct(source.shape);
    var after := done + {axis};
    CoordinateFixedPoints(source.shape[axis], target[axis]);
    assert value.shape == Mixed(source.shape, target, after);
    forall index | Within(value.shape, index)
      ensures Within(source.shape, Origin(source.shape, target, after, index))
      ensures value.At(index) == source.At(Origin(source.shape, target, after, index))
    {
      assert index[axis] < value.shape[axis];
      assert Origin(source.shape, target, done, index) == Origin(source.shape, target, after, index);
      OriginWithin(source.shape, target, after, index);
    }
  }

  /** Two tensors that agree at every coordinate are the same tensor. */
  lemma SameAtAllCoordinates<T>(a: Tensor<T>, b: Tensor<T>)
    requires a.Valid() && b.Valid() && a.shape == b.shape
    requires forall index :: Within(a.shape, index) ==> a.At(index) == b.At(index)
    ensures a == b
  {
    forall k | 0 <= k < |a.data| ensures a.data[k] == b.data[k] {
      FlatUnflat(a.shape, k);
      assert a.At(Unflat(a.shape, k)) == b.At(Unflat(a.shape, k));
    }
  }

  /** What has been resampled along the same axes from the same source is the same tensor. */
  lemma ResampledIsUnique<T>(a: Tensor<T>, b: Tensor<T>, source: Tensor<T>, target: Shape, done: set<int>)
    requires source.Valid() && |source.shape| == |target| && Product(source.shape) > 0
    requires ResampledAlong(a, source, target, done) && ResampledAlong(b, source, target, done)
    ensures a == b
  {
    SameAtAllCoordinates(a, b);
  }

  // ---- The order of the axes, and what it is for ----

  function Ratio(source: Shape, target: Shape, axis: int): real {
    if 0 <= axis < |source| && axis < |target| && source[axis] > 0 then target[axis] as real / source[axis] as real else 0.0
  }

  function ByRatio(source: Shape, target: Shape): (int, int) -> bool {
    (a: int, b: int) => Ratio(source, target, a) <= Ratio(source, target, b)
  }

  function Range(n: nat): seq<int> {
    if n == 0 then [] else Range(n - 1) + [n - 1]
  }

  /** All axes by ascending ratio of target to source size. */
  function SortedAxes(source: Shape, target: Shape): seq<int> {
    Sort(ByRatio(source, target), Range(|source|))
  }

  /** Every axis, once each. */
  ghost predicate AllAxes(axes: seq<int>, n: nat) {
    && (forall k :: k in axes <==> 0 <= k < n)
    && forall i, j :: 0 <= i < j < |axes| ==> axes[i] != axes[j]
  }

  lemma {:induction false} RangeCounts(n: nat)
    ensures |Range(n)| == n && forall k :: 0 <= k < n ==> Range(n)[k] == k
  {
    if n > 0 {
      RangeCounts(n - 1);
    }
  }

  lemma RangeHolds(n: nat)
    ensures |Range(n)| == n && Distinct(Range(n)) && forall k :: k in Range(n) <==> 0 <= k < n
  {
    RangeCounts(n);
    forall k | 0 <= k < n ensures k in Range(n) {
      assert Range(n)[k] == k;
    }
  }

  lemma ByRatioIsTotal(source: Shape, target: Shape)
    ensures TotalPreorder(ByRatio(source, target))
  {
    hide Ratio;
  }

  lemma SortedAxesAreAscending(source: Shape, target: Shape)
    ensures AllAxes(SortedAxes(source, target), |source|) && |SortedAxes(source, target)| == |source|
    ensures Sorted(ByRatio(source, target), SortedAxes(source, target))
  {
    ByRatioIsTotal(source, target);
    RangeHolds(|source|);
    hide ByRatio, Range, Sort, Sorted, TotalPreorder;
    SortKeepsDistinct(ByRatio(source, target), Range(|source|));
  }

  ghost function FirstOf(axes: seq<int>, n: nat): set<int>
    requires n <= |axes|
  {
    set k | k in axes[..n]
  }

  function Max(a: nat, b: nat): nat { if a >= b then a else b }

  lemma ShrunkOnly(source: Shape, target: Shape, done: set<int>)
    requires |source| == |target| && forall k <- done :: 0 <= k < |source| ==> target[k] <= source[k]
    ensures Product(Mixed(source, target, done)) <= Product(source)
  {
    ProductMonotone(Mixed(source, target, done), source);
  }

  lemma GrowthOnlyLeft(source: Shape, target: Shape, done: set<int>)
    requires |source| == |target| && forall k :: 0 <= k < |source| && k !in done ==> source[k] <= target[k]
    ensures Product(Mixed(source, target, done)) <= Product(target)
  {
    ProductMonotone(Mixed(source, target, done), target);
  }

  /** Once some axis has grown, every axis still to come grows too. */
  lemma LaterAxesGrow(source: Shape, target: Shape, axes: seq<int>, i: nat, axis: int)
    requires |source| == |target| && (forall k :: 0 <= k < |source| ==> source[k] > 0)
    requires AllAxes(axes, |source|) && Sorted(ByRatio(source, target), axes)
    requires i < |axes| && axis in axes[i + 1..] && axes[i] in axes && target[axes[i]] > source[axes[i]]
    ensures 0 <= axis < |source| && source[axis] <= target[axis]
  {
    hide Ratio;
    var j :| 0 <= j < |axes[i + 1..]| && axes[i + 1..][j] == axis;
    assert axes[i + 1 + j] == axis && axis in axes;
    assert ByRatio(source, target)(axes[i], axes[i + 1 + j]);
    RatioAboveOne(source, target, axes[i]);
    RatioAboveOne(source, target, axis);
  }

  /** Shrinking before growing: no tensor in between has more elements than both ends. */
  lemma IntermediateIsBounded(source: Shape, target: Shape, axes: seq<int>, n: nat)
    requires |source| == |target| && Product(source) > 0 && n <= |axes|
    requires AllAxes(axes, |source|) && Sorted(ByRatio(source, target), axes)
    ensures Product(Mixed(source, target, FirstOf(axes, n))) <= Max(Product(source), Product(target))
  {
    hide Ratio, Product, Sorted, Mixed;
    var done := FirstOf(axes, n);
    PositiveProduct(source);
    assert forall k :: 0 <= k < |axes| ==> axes[k] in axes;
    if forall i :: 0 <= i < n ==> target[axes[i]] <= source[axes[i]] {
      ShrunkOnly(source, target, done);
    } else {
      var i :| 0 <= i < n && target[axes[i]] > source[axes[i]];
      assert axes == axes[..n] + axes[n..];
      forall k | 0 <= k < |source| && k !in done ensures source[k] <= target[k] {
        assert k in axes && k in axes[n..] && k in axes[i + 1..];
        LaterAxesGrow(source, target, axes, i, k);
      }
      GrowthOnlyLeft(source, target, done);
    }
  }

  lemma RatioAboveOne(source: Shape, target: Shape, axis: int)
    requires 0 <= axis < |source| == |target| && source[axis] > 0
    ensures Ratio(source, target, axis) > 1.0 <==> target[axis] > source[axis]
  {
    var t, s := target[axis] as real, source[axis] as real;
    assert t / s * s == t;
    if t / s > 1.0 {
      assert t / s * s > 1.0 * s;
    } else {
      assert t / s * s <= 1.0 * s;
    }
  }

  // ---- Any order of the axes ----

  /** One turn of the loop over the axes: an axis of the right size is skipped. */
  function NextTensor<T>(value: Tensor<T>, target: Shape, axis: int): Tensor<T> {
    if 0 <= axis < |value.shape| == |target| && value.Valid() && 0 < value.shape[axis] != target[axis] then
      Select(value, axis, Coordinates(value.shape[axis], target[axis]))
    else value
  }

  /** The loop over the axes, for axes in any order. */
  function ResampledInOrder<T>(source: Tensor<T>, target: Shape, axes: seq<int>): Tensor<T> {
    if axes == [] then source
    else NextTensor(ResampledInOrder(source, target, axes[..|axes| - 1]), target, axes[|axes| - 1])
  }

  lemma NextAxis<T>(value: Tensor<T>, source: Tensor<T>, target: Shape, done: set<int>, axis: int)
    requires source.Valid() && |source.shape| == |target| && Product(source.shape) > 0
    requires ResampledAlong(value, source, target, done) && 0 <= axis < |target| && axis !in done
    ensures ResampledAlong(NextTensor(value, target, axis), source, target, done + {axis})
  {
    hide Product, Coordinate, Select, ResampledAlong;
    ResampledShape(value, source, target, done);
    ResampleOneMore(value, source, target, done, axis);
    if value.shape[axis] == target[axis] {
      ResampleSkipped(value, source, target, done, axis);
    }
  }

  /** Different axes, taken in any order, are resampled. */
  lemma {:induction false} AnyOrderResamples<T>(source: Tensor<T>, target: Shape, axes: seq<int>)
    requires source.Valid() && |source.shape| == |target| && Product(source.shape) > 0
    requires (forall axis <- axes :: 0 <= axis < |target|) && Distinct(axes)
    ensures ResampledAlong(ResampledInOrder(source, target, axes), source, target, FirstOf(axes, |axes|))
  {
    hide Product, ResampledAlong, NextTensor;
    if axes == [] {
      NothingResampled(source, target);
      assert FirstOf(axes, 0) == {};
    } else {
      var init, axis := axes[..|axes| - 1], axes[|axes| - 1];
      assert axes == init + [axis] && axis in axes && axis !in init;
      assert forall k <- init :: k in axes;
      AnyOrderResamples(source, target, init);
      assert init[..|init|] == init && axes[..|axes|] == axes;
      assert FirstOf(axes, |axes|) == FirstOf(init, |init|) + {axis};
      NextAxis(ResampledInOrder(source, target, init), source, target, FirstOf(init, |init|), axis);
    }
  }

  /** Every order of all axes gives the same tensor. */
  lemma OrderMakesNoDifference<T>(source: Tensor<T>, target: Shape, a: seq<int>, b: seq<int>)
    requires source.Valid() && |source.shape| == |target| && Product(source.shape) > 0
    requires AllAxes(a, |target|) && AllAxes(b, |target|)
    ensures ResampledInOrder(source, target, a) == ResampledInOrder(source, target, b)
  {
    hide Product, ResampledAlong, ResampledInOrder;
    AnyOrderResamples(source, target, a);
    AnyOrderResamples(source, target, b);
    assert a[..|a|] == a && b[..|b|] == b;
    assert FirstOf(a, |a|) == FirstOf(b, |b|);
    ResampledIsUnique(ResampledInOrder(source, target, a), ResampledInOrder(source, target, b), source, target, FirstOf(a, |a|));
  }

  // ---- project_tensor ----

  const COORDINATE_CHUNK: nat := 1048576

  /** Chunk by chunk, each element reads its rounded coordinate; where the chunks end does not matter. */
  method ResampleFlattened<T>(flattened: seq<T>, count: nat) returns (result: array<T>)
    requires flattened != [] && count > 0
    ensures fresh(result) && result.Length == count
    ensures forall k :: 0 <= k < count ==> Coordinate(|flattened|, count, k) < |flattened|
    ensures forall k :: 0 <= k < count ==> result[k] == flattened[Coordinate(|flattened|, count, k)]
    // Coordinates are rounded to the nearest, and to the even one of two equally near.
    ensures forall k :: 0 <= k < count ==> NearestCoordinate(Coordinate(|flattened|, count, k), |flattened|, count, k)
  {
    hide Coordinate, NearestCoordinate;
    CoordinatesBelow(|flattened|, count);
    forall k | 0 <= k < count ensures NearestCoordinate(Coordinate(|flattened|, count, k), |flattened|, count, k) {
      CoordinateIsNearest(|flattened|, count, k);
    }
    result := new T[count](_ => flattened[0]);
    var start := 0;
    while start < count
      invariant 0 <= start
      invariant forall k :: 0 <= k < start && k < count ==> result[k] == flattened[Coordinate(|flattened|, count, k)]
    {
      var end := if count < start + COORDINATE_CHUNK then count else start + COORDINATE_CHUNK;
      forall k | start <= k < end {
        result[k] := flattened[Coordinate(|flattened|, count, k)];
      }
      start := start + COORDINATE_CHUNK;
    }
  }

  /**
   Axis by axis, in ascending order of growth; every element is the source's at its rounded coordinates,
   and no tensor on the way is larger than both ends.
   */
  method ResampleAxes<T>(source: Tensor<T>, target: Shape) returns (value: Tensor<T>, ghost steps: seq<Tensor<T>>)
    requires source.Valid() && |source.shape| == |target| && Product(source.shape) > 0
    ensures value.Valid() && value.shape == target
    ensures forall index :: Within(target, index) ==>
      Within(source.shape, ReadFrom(source.shape, target, index)) && value.At(index) == source.At(ReadFrom(source.shape, target, index))
    ensures forall index :: Within(target, index) ==> ReadsNearest(source.shape, target, index, ReadFrom(source.shape, target, index))
    ensures |steps| == |target| + 1 && steps[0] == source && steps[|target|] == value
    ensures forall step <- steps :: Product(step.shape) <= Max(Product(source.shape), Product(target))
    // Any other order would have given the same tensor.
    ensures forall axes: seq<int> :: AllAxes(axes, |target|) ==> value == ResampledInOrder(source, target, axes)
  {
    hide Product, Coordinate, Select, ResampledAlong, Sorted, ReadFrom, ReadsNearest;
    AllReadNearest(source.shape, target);
    value := source;
    var axes := SortedAxes(source.shape, target);
    SortedAxesAreAscending(source.shape, target);
    NothingResampled(source, target);
    assert FirstOf(axes, 0) == {};
    steps := [source];
    for j := 0 to |axes|
      invariant ResampledAlong(value, source, target, FirstOf(axes, j))
      invariant |steps| == j + 1 && steps[0] == source && steps[j] == value
      invariant forall step <- steps :: Product(step.shape) <= Max(Product(source.shape), Product(target))
    {
      var axis := axes[j];
      assert axis in axes && axis !in FirstOf(axes, j);
      assert FirstOf(axes, j + 1) == FirstOf(axes, j) + {axis};
      ResampledShape(value, source, target, FirstOf(axes, j));
      ResampleOneMore(value, source, target, FirstOf(axes, j), axis);
      if value.shape[axis] != target[axis] {
        value := Select(value, axis, Coordinates(value.shape[axis], target[axis]));
      } else {
        ResampleSkipped(value, source, target, FirstOf(axes, j), axis);
      }
      ResampledShape(value, source, target, FirstOf(axes, j + 1));
      IntermediateIsBounded(source.shape, target, axes, j + 1);
      steps := steps + [value];
    }
    assert axes[..|axes|] == axes;
    FullyResampled(value, source, target, FirstOf(axes, |axes|));
    AgreesWithAnyOrder(value, source, target, axes);
  }

  lemma AgreesWithAnyOrder<T>(value: Tensor<T>, source: Tensor<T>, target: Shape, axes: seq<int>)
    requires source.Valid() && |source.shape| == |target| && Product(source.shape) > 0
    requires AllAxes(axes, |target|) && ResampledAlong(value, source, target, FirstOf(axes, |axes|))
    ensures forall other: seq<int> :: AllAxes(other, |target|) ==> value == ResampledInOrder(source, target, other)
  {
    hide Product, ResampledAlong, ResampledInOrder;
    AnyOrderResamples(source, target, axes);
    ResampledIsUnique(value, ResampledInOrder(source, target, axes), source, target, FirstOf(axes, |axes|));
    forall other: seq<int> | AllAxes(other, |target|) ensures value == ResampledInOrder(source, target, other) {
      OrderMakesNoDifference(source, target, axes, other);
    }
  }

  lemma NothingResampled<T>(source: Tensor<T>, target: Shape)
    requires source.Valid() && |source.shape| == |target| && Product(source.shape) > 0
    ensures ResampledAlong(source, source, target, {})
  {
    assert Mixed(source.shape, target, {}) == source.shape;
    forall index | Within(source.shape, index) ensures Origin(source.shape, target, {}, index) == index {
    }
  }

  lemma ResampledShape<T>(value: Tensor<T>, source: Tensor<T>, target: Shape, done: set<int>)
    requires source.Valid() && |source.shape| == |target| && Product(source.shape) > 0
    requires ResampledAlong(value, source, target, done)
    ensures value.Valid() && value.shape == Mixed(source.shape, target, done)
  {
  }

  /** The coordinate of the source that each coordinate of a resampled tensor reads. */
  function ReadFrom(source: Shape, target: Shape, index: seq<nat>): seq<nat>
    requires |source| == |target| == |index|
  {
    seq(|source|, k requires 0 <= k < |source| => Coordinate(source[k], target[k], index[k]))
  }

  /** In every axis the nearest coordinate is read. */
  ghost predicate ReadsNearest(source: Shape, target: Shape, index: seq<nat>, origin: seq<nat>) {
    && |source| == |target| == |index| == |origin|
    && forall k :: 0 <= k < |source| ==> NearestCoordinate(origin[k], source[k], target[k], index[k])
  }

  /** What is nearest in every axis is what is read. */
  lemma OnlyOrigin(source: Shape, target: Shape)
    requires |source| == |target|
    ensures forall index, origin :: Within(target, index) && ReadsNearest(source, target, index, origin) ==>
      origin == ReadFrom(source, target, index)
  {
    hide Coordinate, NearestCoordinate;
    forall index, origin | Within(target, index) && ReadsNearest(source, target, index, origin)
      ensures origin == ReadFrom(source, target, index)
    {
      forall k | 0 <= k < |source| ensures origin[k] == Coordinate(source[k], target[k], index[k]) {
        OnlyCoordinate(source[k], target[k], index[k], origin[k]);
      }
    }
  }

  lemma AllReadNearest(source: Shape, target: Shape)
    requires |source| == |target|
    ensures forall index :: Within(target, index) ==> ReadsNearest(source, target, index, ReadFrom(source, target, index))
  {
    hide Coordinate, NearestCoordinate;
    forall index | Within(target, index) ensures ReadsNearest(source, target, index, ReadFrom(source, target, index)) {
      forall k | 0 <= k < |source| ensures NearestCoordinate(Coordinate(source[k], target[k], index[k]), source[k], target[k], index[k]) {
        CoordinateIsNearest(source[k], target[k], index[k]);
      }
    }
  }

  lemma FullyResampled<T>(value: Tensor<T>, source: Tensor<T>, target: Shape, done: set<int>)
    requires source.Valid() && |source.shape| == |target| && Product(source.shape) > 0
    requires ResampledAlong(value, source, target, done) && forall k :: 0 <= k < |target| ==> k in done
    ensures value.Valid() && value.shape == target
    ensures forall index :: Within(target, index) ==>
      Within(source.shape, ReadFrom(source.shape, target, index)) && value.At(index) == source.At(ReadFrom(source.shape, target, index))
  {
    hide Coordinate, Product;
    assert Mixed(source.shape, target, done) == target;
    forall index | Within(target, index)
      ensures Within(source.shape, ReadFrom(source.shape, target, index)) && value.At(index) == source.At(ReadFrom(source.shape, target, index))
    {
      OriginWithin(source.shape, target, done, index);
      assert Origin(source.shape, target, done, index) == ReadFrom(source.shape, target, index);
    }
  }

  function Transposed<T>(t: Tensor<T>): Tensor<T>
    requires t.Valid() && |t.shape| == 2
  {
    var shape: Shape := [t.shape[1], t.shape[0]];
    Tensor(shape, seq(Product(shape), k requires 0 <= k < Product(shape) =>
      SwappedWithin(t.shape, k);
      t.At([Unflat(shape, k)[1], Unflat(shape, k)[0]])))
  }

  lemma SwappedWithin(shape: Shape, k: nat)
    requires |shape| == 2 && k < Product([shape[1], shape[0]])
    ensures var index := Unflat([shape[1], shape[0]], k);
      |index| == 2 && Within(shape, [index[1], index[0]])
  {
    FlatUnflat([shape[1], shape[0]], k);
    hide Product, Unflat, Flat;
    var index := Unflat([shape[1], shape[0]], k);
    assert index[0] < [shape[1], shape[0]][0] && index[1] < [shape[1], shape[0]][1];
  }

  lemma TransposedAt<T>(t: Tensor<T>, i: nat, j: nat)
    requires t.Valid() && |t.shape| == 2 && i < t.shape[1] && j < t.shape[0]
    ensures Transposed(t).Valid() && Transposed(t).shape == [t.shape[1], t.shape[0]]
    ensures Transposed(t).At([i, j]) == t.At([j, i])
  {
    UnflatFlat([t.shape[1], t.shape[0]], [i, j]);
  }

  /** The two axes of a matrix are exchanged. */
  predicate Swapped(source: Shape, target: Shape) {
    |target| == 2 && source == [target[1], target[0]]
  }

  /** What every element of a projected tensor is. */
  ghost predicate Projected<T>(value: Tensor<T>, source: Tensor<T>, target: Shape)
    requires source.Valid() && Product(source.shape) > 0 && Product(target) > 0
  {
    && value.Valid() && value.shape == target
    && if source.shape == target then value == source
       else if Swapped(source.shape, target) then
         forall i: nat, j: nat :: i < target[0] && j < target[1] ==> value.At([i, j]) == source.At([j, i])
       else if |value.data| == |source.data| then value.data == source.data
       else if |source.shape| != |target| then
         forall k: nat, c: nat :: k < |value.data| && NearestCoordinate(c, |source.data|, |value.data|, k) ==>
           c < |source.data| && value.data[k] == source.data[c]
       else
         forall index, origin :: Within(target, index) && ReadsNearest(source.shape, target, index, origin) ==>
           Within(source.shape, origin) && value.At(index) == source.At(origin)
  }

  method ProjectTensor<T>(source: Tensor<T>, target: Shape) returns (result: Option<Tensor<T>>)
    requires source.Valid()
    ensures result.Some? <==> Product(source.shape) > 0 && Product(target) > 0
    ensures result.Some? ==> Projected(result.value, source, target)
  {
    hide Coordinate, ResampledAlong, NearestCoordinate, ReadFrom, Product;
    var transform := ProjectionTransform(source.shape, target);
    match transform
    case EmptyPreserve =>
      return None;
    case Transpose =>
      forall i: nat, j: nat | i < target[0] && j < target[1]
        ensures Transposed(source).At([i, j]) == source.At([j, i])
      {
        TransposedAt(source, i, j);
      }
      return Some(Transposed(source));
    case Identity =>
      return Some(source);
    case Reshape =>
      return Some(Tensor(target, source.data));
    case FlattenResample =>
      var resampled := ResampleFlattened(source.data, Product(target));
      NearestIsRead(|source.data|, Product(target));
      return Some(Tensor(target, resampled[..]));
    case AxisResample =>
      var resampled, _ := ResampleAxes(source, target);
      OnlyOrigin(source.shape, target);
      return Some(resampled);
  }
}

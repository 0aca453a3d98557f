/**
 Repairing invalid values and reporting where they were
 (reference/diffusers/model_merge_tensor.py, repair_nonfinite_material).
 */
module TensorRepair {
  import opened Numbers
  import opened RowMajor

  const SCAN_CHUNK: nat := 65536
  const REPORTED: nat := 8

  /** The offsets below n that hold invalid values, in ascending order. */
  function Invalid(data: seq<Number>, n: nat): seq<nat>
    requires n <= |data|
  {
    if n == 0 then []
    else Invalid(data, n - 1) + if data[n - 1].Finite? then [] else [n - 1]
  }

  lemma {:induction false} InvalidIsExact(data: seq<Number>, n: nat)
    requires n <= |data|
    ensures forall k :: k in Invalid(data, n) <==> 0 <= k < n && !data[k].Finite?
    ensures forall i, j :: 0 <= i < j < |Invalid(data, n)| ==> Invalid(data, n)[i] < Invalid(data, n)[j]
    ensures |Invalid(data, n)| <= n
  {
    if n > 0 {
      InvalidIsExact(data, n - 1);
      var rest := Invalid(data, n - 1);
      forall i | 0 <= i < |rest| ensures rest[i] < n - 1 {
        assert rest[i] in rest;
      }
    }
  }

  lemma {:induction false} InvalidGrows(data: seq<Number>, m: nat, n: nat)
    requires m <= n <= |data|
    ensures Invalid(data, m) <= Invalid(data, n)
  {
    if m < n {
      InvalidGrows(data, m, n - 1);
    }
  }

  function Count(data: seq<Number>, kind: Number): nat {
    if data == [] then 0 else Count(data[..|data| - 1], kind) + if data[|data| - 1] == kind then 1 else 0
  }

  lemma {:induction false} CountIsMultiplicity(data: seq<Number>, kind: Number)
    ensures Count(data, kind) == multiset(data)[kind]
  {
    if data != [] {
      var init, last := data[..|data| - 1], data[|data| - 1];
      CountIsMultiplicity(init, kind);
      assert data == init + [last];
    }
  }

  lemma {:induction false} KindsAddUp(data: seq<Number>, n: nat)
    requires n <= |data|
    ensures Count(data[..n], NaN) + Count(data[..n], PositiveInfinity) + Count(data[..n], NegativeInfinity) == |Invalid(data, n)|
  {
    if n > 0 {
      assert data[..n][..n - 1] == data[..n - 1];
      KindsAddUp(data, n - 1);
    }
  }

  function Reversed(xs: seq<nat>): seq<nat> {
    if xs == [] then [] else Reversed(xs[1..]) + [xs[0]]
  }

  /** Lines 153-158: the coordinate of a flat offset, digit by digit from the last axis. */
  method Decode(shape: Shape, position: nat) returns (coordinate: seq<nat>)
    requires position < Product(shape)
    ensures coordinate == Unflat(shape, position)
    ensures Within(shape, coordinate) && Flat(shape, coordinate) == position
  {
    hide Flat, Within, Unflat, Product, Reversed;
    FlatUnflat(shape, position);
    var offset: nat := position;
    var digits: seq<nat> := [];
    var axis: nat := |shape|;
    assert shape[..axis] == shape && Reversed(digits) == [] by {
      ReversedNothing();
    }
    while axis > 0
      invariant axis <= |shape| && offset < Product(shape[..axis])
      invariant Unflat(shape[..axis], offset) + Reversed(digits) == Unflat(shape, position)
    {
      var size := shape[axis - 1];
      LastDigit(shape[..axis], offset);
      assert |shape[..axis]| == axis && shape[..axis][axis - 1] == size && shape[..axis][..axis - 1] == shape[..axis - 1];
      ReversedAppend(digits, offset % size);
      ghost var rest: seq<nat>, digit: nat := Unflat(shape[..axis - 1], offset / size), offset % size;
      assert Unflat(shape[..axis], offset) == rest + [digit];
      assert rest + [digit] + Reversed(digits) == rest + ([digit] + Reversed(digits));
      axis, digits, offset := axis - 1, digits + [offset % size], offset / size;
    }
    coordinate := Reversed(digits);
    NoAxes(offset);
    assert shape[..0] == [];
  }

  lemma ReversedNothing()
    ensures Reversed([]) == []
  {
  }

  lemma NoAxes(offset: nat)
    ensures Product([]) == 1 && Unflat([], offset) == []
  {
  }

  lemma LastDigit(shape: Shape, offset: nat)
    requires shape != [] && offset < Product(shape)
    ensures shape[|shape| - 1] > 0 && offset / shape[|shape| - 1] < Product(shape[..|shape| - 1])
    ensures Unflat(shape, offset) ==
      Unflat(shape[..|shape| - 1], offset / shape[|shape| - 1]) + [offset % shape[|shape| - 1]]
  {
    assert shape[|shape| - 1] > 0;
    DivideBelow(Product(shape[..|shape| - 1]), shape[|shape| - 1], offset);
  }

  lemma {:induction false} ReversedAppend(xs: seq<nat>, x: nat)
    ensures Reversed(xs + [x]) == [x] + Reversed(xs)
  {
    if xs != [] {
      assert (xs + [x])[1..] == xs[1..] + [x];
      ReversedAppend(xs[1..], x);
    }
  }

  function Least(a: nat, b: nat): nat { if a <= b then a else b }

  function Head<T>(xs: seq<T>, n: nat): seq<T> { xs[..Least(|xs|, n)] }

  lemma HeadOfSum<T>(xs: seq<T>, ys: seq<T>, n: nat)
    ensures Head(xs + ys, n) == Head(xs, n) + Head(ys, n - |Head(xs, n)|)
  {
  }

  lemma HeadStable<T>(xs: seq<T>, ys: seq<T>, n: nat)
    requires xs <= ys && |Head(xs, n)| == n
    ensures Head(ys, n) == Head(xs, n)
  {
  }

  function Shifted(offsets: seq<nat>, start: nat): (shifted: seq<nat>)
    ensures |shifted| == |offsets|
  {
    seq(|offsets|, i requires 0 <= i < |offsets| => offsets[i] + start)
  }

  lemma {:induction false} InvalidOfPrefix(a: seq<Number>, b: seq<Number>, n: nat)
    requires n <= |a| && n <= |b| && a[..n] == b[..n]
    ensures Invalid(a, n) == Invalid(b, n)
  {
    if n > 0 {
      assert a[..n - 1] == a[..n][..n - 1] && b[..n - 1] == b[..n][..n - 1];
      assert a[n - 1] == a[..n][n - 1] && b[n - 1] == b[..n][n - 1];
      InvalidOfPrefix(a, b, n - 1);
    }
  }

  function InvalidAt(data: seq<Number>, k: nat): seq<nat>
    requires k < |data|
  {
    if data[k].Finite? then [] else [k]
  }

  lemma InvalidOneMore(data: seq<Number>, n: nat)
    requires n < |data|
    ensures Invalid(data, n + 1) == Invalid(data, n) + InvalidAt(data, n)
  {
  }

  lemma ShiftedSum(a: seq<nat>, b: seq<nat>, start: nat)
    ensures Shifted(a + b, start) == Shifted(a, start) + Shifted(b, start)
  {
  }

  /** Scanning one more chunk. */
  lemma {:induction false} ChunkContinues(data: seq<Number>, start: nat, end: nat)
    requires start <= end <= |data|
    ensures Invalid(data, end) == Invalid(data, start) + Shifted(Invalid(data[start..end], end - start), start)
  {
    if start == end {
      assert Invalid(data[start..end], 0) == [];
    } else {
      hide Invalid, Shifted, InvalidAt;
      var n, chunk := end - 1 - start, data[start..end];
      ChunkContinues(data, start, end - 1);
      assert chunk[..n] == data[start..end - 1][..n];
      InvalidOfPrefix(chunk, data[start..end - 1], n);
      InvalidOneMore(data, end - 1);
      InvalidOneMore(chunk, n);
      LastOfChunk(data, start, end);
      ShiftedSum(Invalid(chunk, n), InvalidAt(chunk, n), start);
      Regroup(Invalid(data, start), Shifted(Invalid(chunk, n), start), InvalidAt(data, end - 1));
    }
  }

  lemma LastOfChunk(data: seq<Number>, start: nat, end: nat)
    requires start < end <= |data|
    ensures InvalidAt(data, end - 1) == Shifted(InvalidAt(data[start..end], end - 1 - start), start)
  {
  }

  lemma Regroup(a: seq<nat>, b: seq<nat>, c: seq<nat>)
    ensures (a + b) + c == a + (b + c)
  {
  }

  ghost predicate Below(offsets: seq<nat>, n: nat) {
    forall i :: 0 <= i < |offsets| ==> offsets[i] < n
  }

  ghost function Decoded(shape: Shape, offsets: seq<nat>): seq<seq<nat>>
    requires Below(offsets, Product(shape))
  {
    seq(|offsets|, i requires 0 <= i < |offsets| => Unflat(shape, offsets[i]))
  }

  datatype Details = Details(nonfinite: nat, nan: nat, positive: nat, negative: nat, coordinates: seq<seq<nat>>)

  lemma DecodedSum(shape: Shape, a: seq<nat>, b: seq<nat>)
    requires Below(a, Product(shape)) && Below(b, Product(shape))
    ensures Below(a + b, Product(shape)) && Decoded(shape, a + b) == Decoded(shape, a) + Decoded(shape, b)
  {
    hide Product, Unflat;
  }

  /** Lines 151-158: one coordinate after another. */
  method DecodeEach(shape: Shape, start: nat, indexes: seq<nat>, coordinates: seq<seq<nat>>) returns (longer: seq<seq<nat>>)
    requires Below(Shifted(indexes, start), Product(shape))
    ensures longer == coordinates + Decoded(shape, Shifted(indexes, start))
  {
    hide Product, Unflat, Flat;
    longer := coordinates;
    for j := 0 to |indexes|
      invariant longer == coordinates + Decoded(shape, Shifted(indexes, start))[..j]
    {
      assert Shifted(indexes, start)[j] == start + indexes[j];
      var coordinate := Decode(shape, start + indexes[j]);
      longer := longer + [coordinate];
    }
  }

  /** Lines 150-158 for one chunk: decodes what it holds, as far as there is room. */
  method ScanChunk(value: Tensor<Number>, start: nat, end: nat, coordinates: seq<seq<nat>>)
      returns (longer: seq<seq<nat>>)
    requires value.Valid() && start <= end <= |value.data|
    requires Below(Head(Invalid(value.data, start), REPORTED), |value.data|)
    requires coordinates == Decoded(value.shape, Head(Invalid(value.data, start), REPORTED))
    ensures Below(Head(Invalid(value.data, end), REPORTED), |value.data|)
    ensures longer == Decoded(value.shape, Head(Invalid(value.data, end), REPORTED))
  {
    hide Product, Invalid, Decoded;
    ghost var taken := Head(Invalid(value.data, start), REPORTED);
    DecodedLength(value.shape, taken);
    var found := Invalid(value.data[start..end], end - start);
    var indexes := Head(found, REPORTED - |coordinates|);
    InvalidIsExact(value.data[start..end], end - start);
    assert forall j :: 0 <= j < |indexes| ==> indexes[j] == found[j] && found[j] in found;
    longer := DecodeEach(value.shape, start, indexes, coordinates);
    DecodedSum(value.shape, taken, Shifted(indexes, start));
    ScannedChunk(value.data, start, end, taken, found, indexes);
  }

  lemma ScannedChunk(data: seq<Number>, start: nat, end: nat, taken: seq<nat>, found: seq<nat>, indexes: seq<nat>)
    requires start <= end <= |data| && taken == Head(Invalid(data, start), REPORTED)
    requires found == Invalid(data[start..end], end - start) && indexes == Head(found, REPORTED - |taken|)
    ensures taken + Shifted(indexes, start) == Head(Invalid(data, end), REPORTED)
  {
    hide Invalid;
    ChunkContinues(data, start, end);
    HeadOfSum(Invalid(data, start), Shifted(found, start), REPORTED);
    assert Head(Shifted(found, start), REPORTED - |taken|) == Shifted(indexes, start);
  }

  /** The bounded diagnostic: the first invalid offsets in row-major order, decoded. */
  method ReportPositions(value: Tensor<Number>) returns (coordinates: seq<seq<nat>>)
    requires value.Valid()
    ensures Below(Head(Invalid(value.data, |value.data|), REPORTED), Product(value.shape))
    ensures coordinates == Decoded(value.shape, Head(Invalid(value.data, |value.data|), REPORTED))
  {
    hide Invalid, Decoded;
    coordinates := [];
    NothingScanned(value);
    var start := 0;
    while start < |value.data|
      invariant Below(Head(Invalid(value.data, Least(start, |value.data|)), REPORTED), |value.data|)
      invariant coordinates == Decoded(value.shape, Head(Invalid(value.data, Least(start, |value.data|)), REPORTED))
    {
      var end := Least(start + SCAN_CHUNK, |value.data|);
      coordinates := ScanChunk(value, start, end, coordinates);
      DecodedLength(value.shape, Head(Invalid(value.data, end), REPORTED));
      if |coordinates| == REPORTED {
        InvalidGrows(value.data, end, |value.data|);
        HeadStable(Invalid(value.data, end), Invalid(value.data, |value.data|), REPORTED);
        return;
      }
      start := start + SCAN_CHUNK;
    }
  }

  lemma NothingScanned(value: Tensor<Number>)
    ensures Invalid(value.data, 0) == [] && Below([], Product(value.shape)) && Decoded(value.shape, []) == []
  {
  }

  lemma DecodedLength(shape: Shape, offsets: seq<nat>)
    requires Below(offsets, Product(shape))
    ensures |Decoded(shape, offsets)| == |offsets|
  {
  }

  /** The value with every invalid coordinate replaced, and what was found. */
  method Repair(value: Tensor<Number>, replacement: seq<Number>) returns (repaired: Tensor<Number>, details: Details)
    requires value.Valid() && |replacement| == |value.data|
    ensures repaired.Valid() && repaired.shape == value.shape
    ensures forall k :: 0 <= k < |value.data| ==>
      repaired.data[k] == if value.data[k].Finite? then value.data[k] else replacement[k]
    ensures details.nonfinite == |Invalid(value.data, |value.data|)| == details.nan + details.positive + details.negative
    ensures details.nan == multiset(value.data)[NaN] && details.positive == multiset(value.data)[PositiveInfinity]
    ensures details.negative == multiset(value.data)[NegativeInfinity]
    ensures |details.coordinates| == if details.nonfinite < 8 then details.nonfinite else 8
    ensures forall i :: 0 <= i < |details.coordinates| ==>
      && Within(value.shape, details.coordinates[i])
      && Flat(value.shape, details.coordinates[i]) == Invalid(value.data, |value.data|)[i]
  {
    var data := value.data;
    var coordinates := ReportPositions(value);
    repaired := Tensor(value.shape, seq(|data|, k requires 0 <= k < |data| => if data[k].Finite? then data[k] else replacement[k]));
    details := Details(|Invalid(data, |data|)|, Count(data, NaN), Count(data, PositiveInfinity), Count(data, NegativeInfinity), coordinates);
    KindsAddUp(data, |data|);
    assert data[..|data|] == data;
    CountIsMultiplicity(data, NaN);
    CountIsMultiplicity(data, PositiveInfinity);
    CountIsMultiplicity(data, NegativeInfinity);
    forall i | 0 <= i < |coordinates|
      ensures Within(value.shape, coordinates[i]) && Flat(value.shape, coordinates[i]) == Invalid(data, |data|)[i]
    {
      FlatUnflat(value.shape, Head(Invalid(data, |data|), REPORTED)[i]);
    }
  }
}

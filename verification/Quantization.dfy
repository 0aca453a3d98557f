/**
 Scales and zero points of quantized tensors (reference/diffusers/model_merge_tensor.py,
 _expand_parameter and decode_tensor; requantization as in model_merge.py, _merge_tensor).
 Arithmetic is exact.
 */
module Quantization {
  import opened Numbers
  import opened Options
  import opened RowMajor
  import opened TensorProjection

  datatype Failure = EmptyOrNonfinite | BlocksDoNotDivide | NotPositive

  // ---- Broadcasting ----

  /** The shape stretches to another one: trailing axes agree or have one element. */
  predicate Broadcasts(small: Shape, shape: Shape) {
    |small| <= |shape| && forall i :: 0 <= i < |small| ==> small[i] == 1 || small[i] == shape[|shape| - |small| + i]
  }

  /** The element a stretched tensor shows at a coordinate. */
  function Aligned(small: Shape, index: seq<nat>): (aligned: seq<nat>)
    requires |small| <= |index|
    ensures |aligned| == |small|
  {
    seq(|small|, i requires 0 <= i < |small| => if small[i] == 1 then 0 else index[|index| - |small| + i])
  }

  lemma AlignedWithin(small: Shape, shape: Shape, index: seq<nat>)
    requires Broadcasts(small, shape) && Within(shape, index)
    ensures Within(small, Aligned(small, index))
  {
  }

  function Shown<T>(t: Tensor<T>, shape: Shape, index: seq<nat>): T
    requires t.Valid() && Broadcasts(t.shape, shape) && Within(shape, index)
  {
    AlignedWithin(t.shape, shape, index);
    t.At(Aligned(t.shape, index))
  }

  // ---- How a parameter covers a tensor ----

  datatype Cover = Scalar | Channels | Stretched | Blocks | Runs | Nothing

  predicate Divides(small: Shape, shape: Shape) {
    |small| == |shape| && forall k :: 0 <= k < |small| ==> small[k] > 0 && shape[k] % small[k] == 0
  }

  /** The first rule that applies. */
  function CoverOf(parameter: Shape, shape: Shape): Cover {
    if Product(parameter) == 1 then Scalar
    else if |parameter| == 1 && shape != [] && parameter[0] == shape[0] then Channels
    else if Broadcasts(parameter, shape) then Stretched
    else if Divides(parameter, shape) then Blocks
    else if Product(parameter) > 0 && Product(shape) > 0 && Product(shape) % Product(parameter) == 0 then Runs
    else Nothing
  }

  /** The block of a coordinate. */
  function BlockOf(parameter: Shape, shape: Shape, index: seq<nat>): (block: seq<nat>)
    requires Divides(parameter, shape) && Within(shape, index)
    ensures Within(parameter, block)
  {
    seq(|shape|, k requires 0 <= k < |shape| => RunOf(index[k], shape[k], parameter[k]))
  }

  lemma BlockBelow(blocks: nat, size: nat, i: nat)
    requires blocks > 0 && size % blocks == 0 && i < size
    ensures size / blocks > 0 && i / (size / blocks) < blocks
  {
    assert size == blocks * (size / blocks);
    DivideBelow(blocks, size / blocks, i);
  }

  /** The run of k, when count positions are cut into equal runs, one for each part. */
  function RunOf(k: nat, count: nat, parts: nat): (run: nat)
    requires parts > 0 && count % parts == 0 && k < count
    ensures run < parts
  {
    BlockBelow(parts, count, k);
    k / (count / parts)
  }

  function FlatWithin(shape: Shape, index: seq<nat>): (offset: nat)
    requires Within(shape, index)
    ensures offset < Product(shape)
  {
    UnflatFlat(shape, index);
    Flat(shape, index)
  }

  function AlignedFlat(parameter: Shape, shape: Shape, index: seq<nat>): (offset: nat)
    requires Broadcasts(parameter, shape) && Within(shape, index)
    ensures offset < Product(parameter)
  {
    AlignedWithin(parameter, shape, index);
    FlatWithin(parameter, Aligned(parameter, index))
  }

  function ChannelFlat(parameter: Shape, shape: Shape, index: seq<nat>): (offset: nat)
    requires |parameter| == 1 && shape != [] && parameter[0] == shape[0] && Within(shape, index)
    ensures offset < Product(parameter)
  {
    OneAxis(parameter[0]);
    assert parameter == [parameter[0]];
    index[0]
  }

  /** The parameter element that scales a coordinate. */
  function SourceOf(parameter: Shape, shape: Shape, index: seq<nat>): (offset: nat)
    requires Product(parameter) > 0 && CoverOf(parameter, shape) != Nothing && Within(shape, index)
    ensures offset < Product(parameter)
  {
    match CoverOf(parameter, shape)
    case Scalar => 0
    case Channels => ChannelFlat(parameter, shape, index)
    case Stretched => AlignedFlat(parameter, shape, index)
    case Blocks => FlatWithin(parameter, BlockOf(parameter, shape, index))
    case Runs => RunOf(FlatWithin(shape, index), Product(shape), Product(parameter))
  }

  /** One element covers everything. */
  lemma ScalarSource(parameter: Shape, shape: Shape, index: seq<nat>)
    requires Product(parameter) == 1 && Within(shape, index)
    ensures CoverOf(parameter, shape) == Scalar && SourceOf(parameter, shape, index) == 0
  {
  }

  /** As many elements as the first axis has positions: one for each of them, even where the last axis has as many. */
  lemma ChannelIsFirst(parameter: Shape, shape: Shape, index: seq<nat>)
    requires |parameter| == 1 && parameter[0] > 1 && shape != [] && parameter[0] == shape[0] && Within(shape, index)
    ensures Product(parameter) > 1 && CoverOf(parameter, shape) == Channels && SourceOf(parameter, shape, index) == index[0]
  {
    OneAxis(parameter[0]);
    assert parameter == [parameter[0]];
  }

  /** Blocks have equal lengths along each axis: whole blocks of source positions share an element. */
  lemma BlockSource(parameter: Shape, shape: Shape, index: seq<nat>)
    requires Product(parameter) > 1 && |parameter| != 1 && !Broadcasts(parameter, shape)
    requires Divides(parameter, shape) && Within(shape, index)
    ensures CoverOf(parameter, shape) == Blocks
    ensures var block := BlockOf(parameter, shape, index);
      && SourceOf(parameter, shape, index) == Flat(parameter, block)
      && forall k :: 0 <= k < |shape| ==> InRun(index[k], block[k], shape[k], parameter[k])
  {
    hide Product, Flat, RunOf, InRun;
    forall k | 0 <= k < |shape| ensures InRun(index[k], BlockOf(parameter, shape, index)[k], shape[k], parameter[k]) {
      RunHolds(index[k], shape[k], parameter[k]);
    }
  }

  /** The position lies in the run. */
  predicate InRun(k: nat, run: nat, count: nat, parts: nat)
    requires parts > 0
  {
    run * (count / parts) <= k < (run + 1) * (count / parts)
  }

  /** A position lies in its run. */
  lemma RunHolds(k: nat, count: nat, parts: nat)
    requires parts > 0 && count % parts == 0 && k < count
    ensures InRun(k, RunOf(k, count, parts), count, parts)
  {
    BlockBelow(parts, count, k);
    var size := count / parts;
    assert k == k / size * size + k % size;
    assert (k / size + 1) * size == k / size * size + size;
  }

  /** A parameter is refused only when it neither stretches nor divides the tensor, by axes or in all. */
  lemma CoveredExactly(parameter: Shape, shape: Shape)
    ensures CoverOf(parameter, shape) == Nothing <==>
      && Product(parameter) != 1 && !(|parameter| == 1 && shape != [] && parameter == [shape[0]])
      && !Broadcasts(parameter, shape)
      && !(|parameter| == |shape| && forall k :: 0 <= k < |shape| ==> parameter[k] > 0 && shape[k] % parameter[k] == 0)
      && (Product(parameter) == 0 || Product(shape) == 0 || Product(shape) % Product(parameter) != 0)
  {
  }

  // ---- One element per channel ----

  function Ones(n: nat): Shape { if n == 0 then [] else Ones(n - 1) + [1] }

  lemma {:induction false} ChannelShape(channels: nat, n: nat)
    ensures |Ones(n)| == n && Product([channels] + Ones(n)) == channels
    ensures forall k :: 0 <= k < n ==> Ones(n)[k] == 1
  {
    var shape := [channels] + Ones(n);
    if n == 0 {
      OneAxis(channels);
      assert shape == [channels];
    } else {
      ChannelShape(channels, n - 1);
      assert shape[..|shape| - 1] == [channels] + Ones(n - 1);
    }
  }

  lemma {:induction false} FirstAxisFlat(channels: nat, n: nat, index: seq<nat>)
    requires |index| == n + 1 && index[0] < channels
    requires forall k :: 1 <= k <= n ==> index[k] == 0
    ensures |Ones(n)| == n && Flat([channels] + Ones(n), index) == index[0]
  {
    ChannelShape(channels, n);
    var shape := [channels] + Ones(n);
    if n == 0 {
      assert shape == [channels] && index[..0] == [] && shape[..0] == [];
    } else {
      FirstAxisFlat(channels, n - 1, index[..n]);
      assert shape[..n] == [channels] + Ones(n - 1);
    }
  }

  // ---- One element per block ----

  /** repeat_interleave along one axis. */
  function Repeated(size: nat, times: nat): (picks: seq<nat>)
    ensures |picks| == size * times && forall pick <- picks :: pick < size
    ensures times > 0 ==> forall i :: 0 <= i < size * times ==> picks[i] == i / times
  {
    if times == 0 then []
    else
      forall i | 0 <= i < size * times ensures i / times < size {
        DivideBelow(size, times, i);
      }
      seq(size * times, i requires 0 <= i < size * times => i / times)
  }

  /** The sizes after the first n axes have been repeated. */
  function PartShape(parameter: Shape, shape: Shape, n: nat): (part: Shape)
    requires |parameter| == |shape|
    ensures |part| == |shape|
  {
    seq(|shape|, k requires 0 <= k < |shape| => if k < n then shape[k] else parameter[k])
  }

  function PartOrigin(parameter: Shape, shape: Shape, n: nat, index: seq<nat>): (origin: seq<nat>)
    requires Divides(parameter, shape) && Within(PartShape(parameter, shape, n), index)
    ensures Within(parameter, origin)
  {
    PartWithin(parameter, shape, n, index);
    seq(|shape|, k requires 0 <= k < |shape| => if k < n then RunOf(index[k], shape[k], parameter[k]) else index[k])
  }

  lemma PartWithin(parameter: Shape, shape: Shape, n: nat, index: seq<nat>)
    requires Divides(parameter, shape) && Within(PartShape(parameter, shape, n), index)
    ensures forall k :: 0 <= k < |shape| ==> index[k] < if k < n then shape[k] else parameter[k]
  {
    assert forall k :: 0 <= k < |shape| ==> index[k] < PartShape(parameter, shape, n)[k];
  }

  ghost predicate RepeatedAlong<T>(value: Tensor<T>, parameter: Tensor<T>, shape: Shape, n: nat)
    requires parameter.Valid() && Divides(parameter.shape, shape)
  {
    && value.Valid() && value.shape == PartShape(parameter.shape, shape, n)
    && forall index :: Within(value.shape, index) ==>
         value.At(index) == parameter.At(PartOrigin(parameter.shape, shape, n, index))
  }

  lemma RepeatOneMore<T>(value: Tensor<T>, parameter: Tensor<T>, shape: Shape, n: nat)
    requires parameter.Valid() && Divides(parameter.shape, shape) && n < |shape|
    requires RepeatedAlong(value, parameter, shape, n)
    ensures value.shape[n] == parameter.shape[n]
    ensures RepeatedAlong(Select(value, n, Repeated(value.shape[n], shape[n] / value.shape[n])), parameter, shape, n + 1)
  {
    hide Product, Select, Repeated;
    var size, times := parameter.shape[n], shape[n] / parameter.shape[n];
    assert value.shape[n] == size;
    var picks := Repeated(size, times);
    assert shape[n] == size * times;
    var selected := Select(value, n, picks);
    assert selected.shape == PartShape(parameter.shape, shape, n + 1);
    forall index | Within(selected.shape, index)
      ensures selected.At(index) == parameter.At(PartOrigin(parameter.shape, shape, n + 1, index))
    {
      assert index[n] < selected.shape[n];
      BlockBelow(size, shape[n], index[n]);
      SelectAt(value, n, picks, index);
      var moved := index[n := picks[index[n]]];
      assert PartOrigin(parameter.shape, shape, n, moved) == PartOrigin(parameter.shape, shape, n + 1, index);
    }
  }

  lemma NothingRepeated<T>(parameter: Tensor<T>, shape: Shape)
    requires parameter.Valid() && Divides(parameter.shape, shape)
    ensures RepeatedAlong(parameter, parameter, shape, 0)
  {
    assert PartShape(parameter.shape, shape, 0) == parameter.shape;
    forall index | Within(parameter.shape, index) ensures PartOrigin(parameter.shape, shape, 0, index) == index {
    }
  }

  /** The loop over the axes. */
  method RepeatBlocks<T>(parameter: Tensor<T>, shape: Shape) returns (value: Tensor<T>)
    requires parameter.Valid() && Divides(parameter.shape, shape)
    ensures value.Valid() && value.shape == shape
    ensures forall index :: Within(shape, index) ==> value.At(index) == parameter.At(BlockOf(parameter.shape, shape, index))
  {
    hide Product, Select, Repeated, RepeatedAlong;
    value := parameter;
    NothingRepeated(parameter, shape);
    for axis := 0 to |shape|
      invariant value.Valid() && |value.shape| == |shape| && RepeatedAlong(value, parameter, shape, axis)
    {
      RepeatOneMore(value, parameter, shape, axis);
      value := Select(value, axis, Repeated(value.shape[axis], shape[axis] / value.shape[axis]));
    }
    AllRepeated(value, parameter, shape);
  }

  lemma AllRepeated<T>(value: Tensor<T>, parameter: Tensor<T>, shape: Shape)
    requires parameter.Valid() && Divides(parameter.shape, shape) && RepeatedAlong(value, parameter, shape, |shape|)
    ensures value.Valid() && value.shape == shape
    ensures forall index :: Within(shape, index) ==> value.At(index) == parameter.At(BlockOf(parameter.shape, shape, index))
  {
    assert PartShape(parameter.shape, shape, |shape|) == shape;
    forall index | Within(shape, index) ensures value.At(index) == parameter.At(BlockOf(parameter.shape, shape, index)) {
      assert PartOrigin(parameter.shape, shape, |shape|, index) == BlockOf(parameter.shape, shape, index);
    }
  }

  // ---- Expanding ----

  function Reals(data: seq<Number>): (values: seq<real>)
    requires AllFinite(data)
    ensures |values| == |data|
  {
    seq(|data|, k requires 0 <= k < |data| => data[k].value)
  }

  /** Finite, not empty, and covering the tensor by some rule. */
  predicate Usable(parameter: Tensor<Number>, shape: Shape) {
    Product(parameter.shape) > 0 && AllFinite(parameter.data) && CoverOf(parameter.shape, shape) != Nothing
  }

  /** Blocks repeated into a tensor without elements: nothing is left of the parameter. */
  predicate Hollow(parameter: Shape, shape: Shape) {
    CoverOf(parameter, shape) == Blocks && Product(shape) == 0
  }

  /** The expanded parameter has the elements of the parameter, or none. */
  ghost predicate SameElements(values: seq<real>, data: seq<Number>, hollow: bool) {
    if hollow then values == [] else forall x: real :: x in values <==> Finite(x) in data
  }

  /** At every coordinate the expanded parameter shows the element that covers it. */
  ghost predicate Expands(value: Tensor<real>, parameter: Tensor<Number>, shape: Shape) {
    && parameter.Valid() && Usable(parameter, shape)
    && value.Valid() && Broadcasts(value.shape, shape)
    && SameElements(value.data, parameter.data, Hollow(parameter.shape, shape))
    && forall index :: Within(shape, index) ==>
         Shown(value, shape, index) == parameter.data[SourceOf(parameter.shape, shape, index)].value
  }

  method Expand(parameter: Tensor<Number>, shape: Shape) returns (result: Result<Tensor<real>, Failure>)
    requires parameter.Valid()
    ensures result == Err(EmptyOrNonfinite) <==> Product(parameter.shape) == 0 || !AllFinite(parameter.data)
    ensures result.Ok? <==> Usable(parameter, shape)
    ensures result.Ok? ==> Expands(result.value, parameter, shape)
    ensures result != Err(NotPositive)
  {
    if Product(parameter.shape) == 0 || !AllFinite(parameter.data) {
      return Err(EmptyOrNonfinite);
    }
    hide Product, Expands;
    var numbers := Tensor(parameter.shape, Reals(parameter.data));
    match CoverOf(parameter.shape, shape)
    case Scalar =>
      ScalarExpands(parameter, shape);
      return Ok(Tensor([], numbers.data));
    case Channels =>
      ChannelsExpand(parameter, shape);
      return Ok(Tensor([shape[0]] + Ones(|shape| - 1), numbers.data));
    case Stretched =>
      StretchedExpands(parameter, shape);
      return Ok(numbers);
    case Blocks =>
      var repeated := RepeatBlocks(numbers, shape);
      BlocksExpand(repeated, parameter, shape);
      return Ok(repeated);
    case Runs =>
      RunsExpand(parameter, shape);
      return Ok(Tensor(shape, Spread(numbers.data, Product(shape))));
    case Nothing =>
      return Err(BlocksDoNotDivide);
  }

  lemma ScalarExpands(parameter: Tensor<Number>, shape: Shape)
    requires parameter.Valid() && AllFinite(parameter.data) && CoverOf(parameter.shape, shape) == Scalar
    ensures Expands(Tensor([], Reals(parameter.data)), parameter, shape)
  {
    var value := Tensor([], Reals(parameter.data));
    RealsAreElements(value, parameter);
    forall index | Within(shape, index) ensures Shown(value, shape, index) == parameter.data[0].value {
      assert Aligned([], index) == [];
    }
  }

  lemma RealsAreElements(value: Tensor<real>, parameter: Tensor<Number>)
    requires AllFinite(parameter.data) && value.data == Reals(parameter.data)
    ensures SameElements(value.data, parameter.data, false)
  {
    forall k | 0 <= k < |value.data| ensures Finite(value.data[k]) in parameter.data && parameter.data[k].value in value.data {
      assert parameter.data[k] == Finite(value.data[k]);
    }
  }

  /** Every block is that of some coordinate. */
  lemma BlockReached(parameter: Shape, shape: Shape, block: seq<nat>) returns (index: seq<nat>)
    requires Divides(parameter, shape) && Within(parameter, block) && Product(shape) > 0
    ensures Within(shape, index) && BlockOf(parameter, shape, index) == block
  {
    PositiveProduct(shape);
    hide Product, RunOf;
    index := seq(|shape|, k requires 0 <= k < |shape| => RunStart(block[k], shape[k], parameter[k]));
  }

  /** Where a run begins. */
  function RunStart(run: nat, count: nat, parts: nat): (k: nat)
    requires parts > 0 && count > 0 && count % parts == 0 && run < parts
    ensures k < count && RunOf(k, count, parts) == run
  {
    FirstOfBlock(parts, count, run);
    run * (count / parts)
  }

  lemma FirstOfBlock(blocks: nat, size: nat, block: nat)
    requires blocks > 0 && size > 0 && size % blocks == 0 && block < blocks
    ensures size / blocks > 0 && block * (size / blocks) < size
    ensures block * (size / blocks) / (size / blocks) == block
  {
    BlockBelow(blocks, size, 0);
    assert size == blocks * (size / blocks);
    ComposeBelow(blocks, size / blocks, block, 0);
  }

  lemma ChannelsExpand(parameter: Tensor<Number>, shape: Shape)
    requires parameter.Valid() && AllFinite(parameter.data) && Product(parameter.shape) > 0
    requires CoverOf(parameter.shape, shape) == Channels
    ensures Expands(Tensor([shape[0]] + Ones(|shape| - 1), Reals(parameter.data)), parameter, shape)
  {
    var value := Tensor([shape[0]] + Ones(|shape| - 1), Reals(parameter.data));
    ChannelValid(parameter, shape);
    ChannelBroadcasts(shape);
    RealsAreElements(value, parameter);
    hide Product, SourceOf, Shown, Broadcasts, Ones, CoverOf, Reals, SameElements;
    forall index | Within(shape, index)
      ensures Shown(value, shape, index) == parameter.data[SourceOf(parameter.shape, shape, index)].value
    {
      ChannelSource(parameter.shape, shape, index);
      ChannelShown(value, shape, index);
      RealAt(parameter.data, index[0]);
    }
  }

  lemma RealAt(data: seq<Number>, k: nat)
    requires AllFinite(data) && k < |data|
    ensures Reals(data)[k] == data[k].value
  {
  }

  lemma ChannelValid(parameter: Tensor<Number>, shape: Shape)
    requires parameter.Valid() && AllFinite(parameter.data) && CoverOf(parameter.shape, shape) == Channels
    ensures shape != [] && Tensor([shape[0]] + Ones(|shape| - 1), Reals(parameter.data)).Valid()
  {
    hide Broadcasts, Divides;
    OneAxis(parameter.shape[0]);
    assert parameter.shape == [parameter.shape[0]];
    ChannelShape(shape[0], |shape| - 1);
  }

  lemma ChannelSource(parameter: Shape, shape: Shape, index: seq<nat>)
    requires Product(parameter) > 0 && CoverOf(parameter, shape) == Channels && Within(shape, index)
    ensures SourceOf(parameter, shape, index) == index[0]
  {
    hide Product, Broadcasts, Divides;
  }

  lemma ChannelBroadcasts(shape: Shape)
    requires shape != []
    ensures |Ones(|shape| - 1)| == |shape| - 1 && Broadcasts([shape[0]] + Ones(|shape| - 1), shape)
  {
    ChannelShape(shape[0], |shape| - 1);
  }

  lemma ChannelShown(value: Tensor<real>, shape: Shape, index: seq<nat>)
    requires shape != [] && |Ones(|shape| - 1)| == |shape| - 1 && value.shape == [shape[0]] + Ones(|shape| - 1)
    requires value.Valid() && Broadcasts(value.shape, shape) && Within(shape, index)
    ensures index[0] < |value.data| && Shown(value, shape, index) == value.data[index[0]]
  {
    hide Product, Flat;
    AlignedWithin(value.shape, shape, index);
    ChannelShape(shape[0], |shape| - 1);
    FirstAxisFlat(shape[0], |shape| - 1, Aligned(value.shape, index));
  }

  lemma StretchedExpands(parameter: Tensor<Number>, shape: Shape)
    requires parameter.Valid() && AllFinite(parameter.data) && Product(parameter.shape) > 0
    requires CoverOf(parameter.shape, shape) == Stretched
    ensures Expands(Tensor(parameter.shape, Reals(parameter.data)), parameter, shape)
  {
    var value := Tensor(parameter.shape, Reals(parameter.data));
    RealsAreElements(value, parameter);
    forall index | Within(shape, index)
      ensures Shown(value, shape, index) == parameter.data[SourceOf(parameter.shape, shape, index)].value
    {
      AlignedWithin(parameter.shape, shape, index);
      UnflatFlat(parameter.shape, Aligned(parameter.shape, index));
    }
  }

  /** A tensor of the full shape shows itself. */
  lemma FullShown<T>(t: Tensor<T>, index: seq<nat>)
    requires t.Valid() && Within(t.shape, index)
    ensures Broadcasts(t.shape, t.shape) && Shown(t, t.shape, index) == t.At(index)
  {
    assert Aligned(t.shape, index) == index;
  }

  lemma BlocksExpand(repeated: Tensor<real>, parameter: Tensor<Number>, shape: Shape)
    requires parameter.Valid() && AllFinite(parameter.data) && Product(parameter.shape) > 0
    requires CoverOf(parameter.shape, shape) == Blocks && repeated.Valid() && repeated.shape == shape
    requires var numbers := Tensor(parameter.shape, Reals(parameter.data));
      forall index :: Within(shape, index) ==> repeated.At(index) == numbers.At(BlockOf(parameter.shape, shape, index))
    ensures Expands(repeated, parameter, shape)
  {
    hide Product, BlockOf;
    forall index | Within(shape, index)
      ensures Shown(repeated, shape, index) == parameter.data[SourceOf(parameter.shape, shape, index)].value
    {
      FullShown(repeated, index);
      UnflatFlat(parameter.shape, BlockOf(parameter.shape, shape, index));
    }
    BlockElements(repeated, parameter, shape);
  }

  lemma BlockElements(repeated: Tensor<real>, parameter: Tensor<Number>, shape: Shape)
    requires parameter.Valid() && AllFinite(parameter.data) && Product(parameter.shape) > 0
    requires CoverOf(parameter.shape, shape) == Blocks && repeated.Valid() && repeated.shape == shape
    requires var numbers := Tensor(parameter.shape, Reals(parameter.data));
      forall index :: Within(shape, index) ==> repeated.At(index) == numbers.At(BlockOf(parameter.shape, shape, index))
    ensures SameElements(repeated.data, parameter.data, Hollow(parameter.shape, shape))
  {
    hide Product, BlockOf;
    forall k | 0 <= k < |repeated.data| ensures Finite(repeated.data[k]) in parameter.data {
      FlatUnflat(shape, k);
      var block := BlockOf(parameter.shape, shape, Unflat(shape, k));
      assert repeated.At(Unflat(shape, k)) == repeated.data[k];
      UnflatFlat(parameter.shape, block);
      assert parameter.data[Flat(parameter.shape, block)] == Finite(repeated.data[k]);
    }
    if Product(shape) > 0 {
      forall j | 0 <= j < |parameter.data| ensures parameter.data[j].value in repeated.data {
        BlockHolds(repeated, parameter, shape, j);
      }
    }
  }

  lemma BlockHolds(repeated: Tensor<real>, parameter: Tensor<Number>, shape: Shape, j: nat)
    requires parameter.Valid() && AllFinite(parameter.data) && j < |parameter.data| && Product(shape) > 0
    requires Divides(parameter.shape, shape) && repeated.Valid() && repeated.shape == shape
    requires var numbers := Tensor(parameter.shape, Reals(parameter.data));
      forall index :: Within(shape, index) ==> repeated.At(index) == numbers.At(BlockOf(parameter.shape, shape, index))
    ensures parameter.data[j].value in repeated.data
  {
    hide Product, BlockOf;
    FlatUnflat(parameter.shape, j);
    var index := BlockReached(parameter.shape, shape, Unflat(parameter.shape, j));
    UnflatFlat(shape, index);
    assert repeated.At(index) == parameter.data[j].value;
    assert repeated.data[Flat(shape, index)] == parameter.data[j].value;
  }

  /** repeat_interleave of a flat tensor up to a multiple of its size. */
  function Spread<T>(data: seq<T>, count: nat): (repeated: seq<T>)
    requires |data| > 0 && count % |data| == 0
    ensures |repeated| == count && forall k :: 0 <= k < count ==> repeated[k] == data[RunOf(k, count, |data|)]
  {
    seq(count, k requires 0 <= k < count => data[RunOf(k, count, |data|)])
  }

  lemma RunsExpand(parameter: Tensor<Number>, shape: Shape)
    requires parameter.Valid() && AllFinite(parameter.data) && Product(parameter.shape) > 0
    requires CoverOf(parameter.shape, shape) == Runs
    ensures Expands(Tensor(shape, Spread(Reals(parameter.data), Product(shape))), parameter, shape)
  {
    hide Product, Spread, RunOf, Shown;
    var count := Product(shape);
    var value := Tensor(shape, Spread(Reals(parameter.data), count));
    forall index | Within(shape, index)
      ensures Shown(value, shape, index) == parameter.data[SourceOf(parameter.shape, shape, index)].value
    {
      FullShown(value, index);
    }
    forall k | 0 <= k < count ensures Finite(value.data[k]) in parameter.data {
      assert parameter.data[RunOf(k, count, |parameter.data|)] == Finite(value.data[k]);
    }
    forall j | 0 <= j < |parameter.data| ensures parameter.data[j].value in value.data {
      var k := RunStart(j, count, |parameter.data|);
      assert value.data[k] == parameter.data[j].value;
    }
  }

  // ---- Decoding ----

  function Dequantized(stored: Number, scale: real, zero: real): Number {
    if stored.Finite? then Finite((stored.value - zero) * scale) else stored
  }

  function Requantized(value: Number, scale: real, zero: real): Number
    requires scale != 0.0
  {
    if value.Finite? then Finite(value.value / scale + zero) else value
  }

  /** The reversible storage parameters of a tensor. */
  datatype Scheme = Scheme(scale: Tensor<real>, zero: Tensor<real>) {
    ghost predicate Fits(shape: Shape) {
      && scale.Valid() && Broadcasts(scale.shape, shape) && zero.Valid() && Broadcasts(zero.shape, shape)
      && forall x <- scale.data :: x > 0.0
    }
  }

  lemma ShownIsElement<T>(t: Tensor<T>, shape: Shape, index: seq<nat>)
    requires t.Valid() && Broadcasts(t.shape, shape) && Within(shape, index)
    ensures Shown(t, shape, index) in t.data
  {
    AlignedWithin(t.shape, shape, index);
    UnflatFlat(t.shape, Aligned(t.shape, index));
  }

  /** Decoded elements, invalid ones as they were. */
  ghost predicate Decodes(decoded: Tensor<Number>, stored: Tensor<Number>, scheme: Scheme)
    requires stored.Valid() && scheme.Fits(stored.shape)
  {
    && decoded.Valid() && decoded.shape == stored.shape
    && forall index :: Within(stored.shape, index) ==>
         decoded.At(index)
         == Dequantized(stored.At(index), Shown(scheme.scale, stored.shape, index), Shown(scheme.zero, stored.shape, index))
  }

  function Elementwise(stored: Tensor<Number>, scheme: Scheme): (decoded: Tensor<Number>)
    requires stored.Valid() && scheme.scale.Valid() && scheme.zero.Valid()
    requires Broadcasts(scheme.scale.shape, stored.shape) && Broadcasts(scheme.zero.shape, stored.shape)
    ensures decoded.shape == stored.shape && decoded.Valid()
  {
    var shape := stored.shape;
    Tensor(shape, seq(Product(shape), k requires 0 <= k < Product(shape) =>
      FlatUnflat(shape, k);
      var index := Unflat(shape, k);
      Dequantized(stored.data[k], Shown(scheme.scale, shape, index), Shown(scheme.zero, shape, index))))
  }

  lemma ElementwiseDecodes(stored: Tensor<Number>, scheme: Scheme)
    requires stored.Valid() && scheme.Fits(stored.shape)
    ensures Decodes(Elementwise(stored, scheme), stored, scheme)
  {
    hide Product, Dequantized, Shown;
    forall index | Within(stored.shape, index)
      ensures Elementwise(stored, scheme).At(index)
           == Dequantized(stored.At(index), Shown(scheme.scale, stored.shape, index), Shown(scheme.zero, stored.shape, index))
    {
      UnflatFlat(stored.shape, index);
    }
  }

  predicate AllPositive(parameter: Tensor<Number>) {
    forall x <- parameter.data :: x.Finite? ==> x.value > 0.0
  }

  /** Every scale that is used is positive. */
  predicate Positive(scale: Tensor<Number>, shape: Shape) { AllPositive(scale) || Hollow(scale.shape, shape) }

  /** What decoding demands of the parameters found. */
  predicate Decodable(scale: Option<Tensor<Number>>, zero: Option<Tensor<Number>>, shape: Shape) {
    scale.Some? ==>
      && Usable(scale.value, shape) && Positive(scale.value, shape)
      && (zero.Some? ==> Usable(zero.value, shape))
  }

  /** What the parameters found beside a tensor decode it to; without a scale it is taken as it is. */
  method Decode(stored: Tensor<Number>, scale: Option<Tensor<Number>>, zero: Option<Tensor<Number>>)
      returns (result: Result<(Tensor<Number>, Option<Scheme>), Failure>)
    requires stored.Valid() && (scale.Some? ==> scale.value.Valid()) && (zero.Some? ==> zero.value.Valid())
    ensures scale.None? ==> result == Ok((stored, None))
    ensures result.Ok? && scale.Some? ==>
      result.value.1.Some? && var scheme := result.value.1.value;
      && scheme.Fits(stored.shape) && Decodes(result.value.0, stored, scheme)
      && Expands(scheme.scale, scale.value, stored.shape)
      && if zero.Some? then Expands(scheme.zero, zero.value, stored.shape) else scheme.zero == Tensor([], [0.0])
    ensures result.Ok? <==> Decodable(scale, zero, stored.shape)
    ensures result == Err(NotPositive) <==> scale.Some? && Usable(scale.value, stored.shape) && !Positive(scale.value, stored.shape)
  {
    if scale.None? {
      return Ok((stored, None));
    }
    hide Product, Expands, Decodes, Elementwise, CoverOf;
    var expanded := Expand(scale.value, stored.shape);
    if expanded.Err? {
      return Err(expanded.error);
    }
    ExpandsFacts(expanded.value, scale.value, stored.shape);
    if exists x <- expanded.value.data :: x <= 0.0 {
      return Err(NotPositive);
    }
    var offset := Tensor([], [0.0]);
    if zero.Some? {
      var expandedZero := Expand(zero.value, stored.shape);
      if expandedZero.Err? {
        return Err(expandedZero.error);
      }
      offset := expandedZero.value;
      ExpandsFacts(offset, zero.value, stored.shape);
    }
    assert Tensor([], [0.0]).Valid() by { EmptyProduct(); }
    var scheme := Scheme(expanded.value, offset);
    ElementwiseDecodes(stored, scheme);
    return Ok((Elementwise(stored, scheme), Some(scheme)));
  }

  lemma ExpandsFacts(value: Tensor<real>, parameter: Tensor<Number>, shape: Shape)
    requires Expands(value, parameter, shape)
    ensures value.Valid() && Broadcasts(value.shape, shape)
    ensures SameElements(value.data, parameter.data, Hollow(parameter.shape, shape)) && Usable(parameter, shape)
  {
  }

  /** Storing a decoded element again gives what was stored, and decoding a stored one gives the value. */
  lemma QuantizationRoundTrip(number: Number, scale: real, zero: real)
    requires scale > 0.0
    ensures Requantized(Dequantized(number, scale, zero), scale, zero) == number
    ensures Dequantized(Requantized(number, scale, zero), scale, zero) == number
  {
    if number.Finite? {
      ProductQuotient(number.value - zero, scale);
      assert number.value / scale * scale == number.value;
    }
  }

  /** The scale is positive wherever it is shown. */
  lemma ShownScaleIsPositive(scheme: Scheme, shape: Shape, index: seq<nat>)
    requires scheme.Fits(shape) && Within(shape, index)
    ensures Shown(scheme.scale, shape, index) > 0.0
  {
    hide Shown;
    ShownIsElement(scheme.scale, shape, index);
  }

  /** Requantizing a tensor, element by element; invalid elements stay as they are. */
  function Restored(decoded: Tensor<Number>, scheme: Scheme): (stored: Tensor<Number>)
    requires decoded.Valid() && scheme.Fits(decoded.shape)
    ensures stored.shape == decoded.shape && stored.Valid()
  {
    var shape := decoded.shape;
    Tensor(shape, seq(Product(shape), k requires 0 <= k < Product(shape) =>
      FlatUnflat(shape, k);
      var index := Unflat(shape, k);
      ShownScaleIsPositive(scheme, shape, index);
      Requantized(decoded.data[k], Shown(scheme.scale, shape, index), Shown(scheme.zero, shape, index))))
  }

  lemma RestoredAt(decoded: Tensor<Number>, scheme: Scheme, index: seq<nat>)
    requires decoded.Valid() && scheme.Fits(decoded.shape) && Within(decoded.shape, index)
    ensures Shown(scheme.scale, decoded.shape, index) > 0.0
    ensures Restored(decoded, scheme).At(index)
         == Requantized(decoded.At(index), Shown(scheme.scale, decoded.shape, index), Shown(scheme.zero, decoded.shape, index))
  {
    hide Product, Requantized, Shown;
    ShownScaleIsPositive(scheme, decoded.shape, index);
    UnflatFlat(decoded.shape, index);
  }

  lemma RestoredAreFinite(values: Tensor<Number>, scheme: Scheme)
    requires values.Valid() && scheme.Fits(values.shape) && AllFinite(values.data)
    ensures AllFinite(Restored(values, scheme).data)
  {
    hide Product, Shown, Restored;
    var stored := Restored(values, scheme);
    forall k | 0 <= k < |stored.data| ensures stored.data[k].Finite? {
      FlatUnflat(values.shape, k);
      RestoredAt(values, scheme, Unflat(values.shape, k));
      assert stored.At(Unflat(values.shape, k)) == stored.data[k] && values.At(Unflat(values.shape, k)) == values.data[k];
    }
  }

  /** Decoding what was requantized gives the values. */
  lemma RestoredDecodes(values: Tensor<Number>, scheme: Scheme)
    requires values.Valid() && scheme.Fits(values.shape)
    ensures Decodes(values, Restored(values, scheme), scheme)
  {
    hide Product, Requantized, Dequantized, Shown, Restored;
    forall index | Within(values.shape, index)
      ensures values.At(index) == Dequantized(Restored(values, scheme).At(index),
                                              Shown(scheme.scale, values.shape, index), Shown(scheme.zero, values.shape, index))
    {
      RestoredAt(values, scheme, index);
      QuantizationRoundTrip(values.At(index), Shown(scheme.scale, values.shape, index), Shown(scheme.zero, values.shape, index));
    }
  }

  /** Requantizing what was decoded gives the stored tensor. */
  lemma DecodedRestores(decoded: Tensor<Number>, stored: Tensor<Number>, scheme: Scheme)
    requires stored.Valid() && scheme.Fits(stored.shape) && Decodes(decoded, stored, scheme)
    ensures Restored(decoded, scheme) == stored
  {
    hide Product, Requantized, Dequantized, Shown, Restored;
    forall index | Within(stored.shape, index) ensures Restored(decoded, scheme).At(index) == stored.At(index) {
      RestoredAt(decoded, scheme, index);
      QuantizationRoundTrip(stored.At(index), Shown(scheme.scale, stored.shape, index), Shown(scheme.zero, stored.shape, index));
    }
    SameAtAllCoordinates(Restored(decoded, scheme), stored);
  }

  lemma ProductQuotient(a: real, b: real)
    requires b != 0.0
    ensures a * b / b == a
  {
  }

  /** Decoding keeps the order of stored values and moves none between finite and invalid. */
  lemma DecodingKeepsOrder(a: real, b: real, scale: real, zero: real)
    requires scale > 0.0
    ensures a <= b <==> Dequantized(Finite(a), scale, zero).value <= Dequantized(Finite(b), scale, zero).value
  {
    if a <= b {
      assert (b - a) * scale >= 0.0;
    } else {
      assert (a - b) * scale > 0.0;
    }
  }
}

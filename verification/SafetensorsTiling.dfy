/**
 The descriptor and interval checks of a safetensors header
 (reference/diffusers/downloaded_model.py, _safetensors).
 */
module SafetensorsTiling {
  import opened Json
  import opened Options
  import opened RowMajor
  import opened Sorting

  const MAX_ITEMS := 200000
  const MAX_DIMENSION := 0x7fff_ffff_ffff_ffff

  const DTYPE_BITS: map<string, nat> := map[
    "BOOL" := 8, "U8" := 8, "I8" := 8, "I16" := 16, "U16" := 16,
    "F16" := 16, "BF16" := 16, "I32" := 32, "U32" := 32, "F32" := 32,
    "F64" := 64, "I64" := 64, "U64" := 64, "F8_E4M3" := 8,
    "F8_E5M2" := 8, "F8_E8M0" := 8, "F4" := 4, "F6_E2M3" := 6,
    "F6_E3M2" := 6]

  /** The bytes start .. end - 1 of the payload. */
  datatype Extent = Extent(start: nat, end: nat) {
    predicate Covers(byte: nat) { start <= byte < end }

    predicate Empty() { start == end }
  }

  datatype Refusal = ItemCount | Malformed(key: string) | Overlapping | Trailing

  type Entry = (string, Json)

  // ---- One descriptor ----

  function Field(descriptor: Json, name: string): Json {
    if descriptor.Object? && name in descriptor.fields then descriptor.fields[name] else Null
  }

  predicate IsShape(value: Json) {
    && value.List? && |value.items| <= 16
    && forall n <- value.items :: n.Int? && 0 <= n.number <= MAX_DIMENSION
  }

  function ShapeOf(value: Json): Shape
    requires IsShape(value)
  {
    seq(|value.items|, k requires 0 <= k < |value.items| => assert value.items[k] in value.items; value.items[k].number)
  }

  predicate AreOffsets(value: Json, size: nat) {
    && value.List? && |value.items| == 2 && value.items[0].Int? && value.items[1].Int?
    && 0 <= value.items[0].number <= value.items[1].number <= size
  }

  /** The shape and extent of a descriptor whose byte extent its shape and element width account for. */
  function Describe(descriptor: Json, size: nat): Option<(Shape, Extent)> {
    var shape, offsets, dtype := Field(descriptor, "shape"), Field(descriptor, "data_offsets"), Field(descriptor, "dtype");
    if !descriptor.Object? || !IsShape(shape) || !AreOffsets(offsets, size) then None
    else if !dtype.Text? || dtype.text !in DTYPE_BITS then None
    else
      var extent := Extent(offsets.items[0].number, offsets.items[1].number);
      var bits := Product(ShapeOf(shape)) * DTYPE_BITS[dtype.text];
      if bits % 8 != 0 || bits / 8 != extent.end - extent.start then None else Some((ShapeOf(shape), extent))
  }

  /** Numbers as the header writes them, in their order. */
  function Written(numbers: seq<nat>): (value: Json)
    ensures value.List? && |value.items| == |numbers| && forall k :: 0 <= k < |numbers| ==> value.items[k] == Int(numbers[k])
  {
    List(seq(|numbers|, k requires 0 <= k < |numbers| => Int(numbers[k])))
  }

  lemma WrittenShape(value: Json, shape: Shape)
    ensures IsShape(value) && ShapeOf(value) == shape <==>
      value == Written(shape) && |shape| <= 16 && forall n <- shape :: n <= MAX_DIMENSION
  {
    if value == Written(shape) && |shape| <= 16 && forall n <- shape :: n <= MAX_DIMENSION {
      forall n | n in value.items ensures n.Int? && 0 <= n.number <= MAX_DIMENSION {
        var k :| 0 <= k < |value.items| && value.items[k] == n;
        assert shape[k] in shape;
      }
      assert ShapeOf(value) == shape;
    }
    if IsShape(value) && ShapeOf(value) == shape {
      forall k | 0 <= k < |shape| ensures value.items[k] == Int(shape[k]) && shape[k] <= MAX_DIMENSION {
        assert value.items[k] in value.items;
      }
      assert value.items == Written(shape).items;
    }
  }

  lemma WrittenOffsets(value: Json, size: nat, extent: Extent)
    ensures AreOffsets(value, size) && value.items[0].number == extent.start && value.items[1].number == extent.end <==>
      value == Written([extent.start, extent.end]) && extent.start <= extent.end <= size
  {
    var written := Written([extent.start, extent.end]);
    assert written.items == [Int(extent.start), Int(extent.end)];
  }

  /** A descriptor is described exactly by the shape and the extent written in it, if they account for each other. */
  lemma DescribedExactly(descriptor: Json, size: nat, shape: Shape, extent: Extent)
    ensures Describe(descriptor, size) == Some((shape, extent)) <==>
      && descriptor.Object?
      && "shape" in descriptor.fields && descriptor.fields["shape"] == Written(shape)
      && "data_offsets" in descriptor.fields && descriptor.fields["data_offsets"] == Written([extent.start, extent.end])
      && "dtype" in descriptor.fields && descriptor.fields["dtype"].Text? && descriptor.fields["dtype"].text in DTYPE_BITS
      && |shape| <= 16 && (forall n <- shape :: n <= MAX_DIMENSION) && extent.start <= extent.end <= size
      && Product(shape) * DTYPE_BITS[descriptor.fields["dtype"].text] == 8 * (extent.end - extent.start)
  {
    DescribesExactly(descriptor, size, shape, extent);
    WrittenShape(Field(descriptor, "shape"), shape);
    WrittenOffsets(Field(descriptor, "data_offsets"), size, extent);
    hide Describe, Product, Written, IsShape, AreOffsets, ShapeOf;
  }

  lemma DescribesExactly(descriptor: Json, size: nat, shape: Shape, extent: Extent)
    ensures Describe(descriptor, size) == Some((shape, extent)) <==>
      var offsets, dtype := Field(descriptor, "data_offsets"), Field(descriptor, "dtype");
      && descriptor.Object? && IsShape(Field(descriptor, "shape")) && ShapeOf(Field(descriptor, "shape")) == shape
      && AreOffsets(offsets, size) && offsets.items[0].number == extent.start && offsets.items[1].number == extent.end
      && dtype.Text? && dtype.text in DTYPE_BITS && Product(shape) * DTYPE_BITS[dtype.text] == 8 * (extent.end - extent.start)
  {
    hide Product, IsShape, ShapeOf;
    var dtype := Field(descriptor, "dtype");
    if dtype.Text? && dtype.text in DTYPE_BITS {
      WholeBytes(Product(shape) * DTYPE_BITS[dtype.text], extent.end - extent.start);
    }
  }

  lemma WholeBytes(bits: nat, bytes: int)
    ensures bits % 8 == 0 && bits / 8 == bytes <==> bits == 8 * bytes
  {
  }

  predicate AllDescribed(entries: seq<Entry>, size: nat) {
    forall entry <- entries :: Describe(entry.1, size).Some?
  }

  function Extents(entries: seq<Entry>, size: nat): (extents: seq<Extent>)
    requires AllDescribed(entries, size)
    ensures |extents| == |entries|
  {
    if entries == [] then []
    else Extents(entries[..|entries| - 1], size) + [Describe(entries[|entries| - 1].1, size).value.1]
  }

  function Shapes(entries: seq<Entry>, size: nat): map<string, Shape>
    requires AllDescribed(entries, size)
  {
    if entries == [] then map[]
    else
      var last := entries[|entries| - 1];
      Shapes(entries[..|entries| - 1], size)[last.0 := Describe(last.1, size).value.0]
  }

  // ---- Chains ----

  /** Each extent begins where the one before it ended. */
  ghost predicate Chain(extents: seq<Extent>, start: nat, end: nat) {
    if extents == [] then start == end
    else extents[0].start == start <= extents[0].end && Chain(extents[1..], extents[0].end, end)
  }

  /** Some order of the extents is a chain over the whole payload. */
  ghost predicate Tiles(extents: seq<Extent>, size: nat) {
    exists order: seq<Extent> :: multiset(order) == multiset(extents) && Chain(order, 0, size)
  }

  predicate Before(a: Extent, b: Extent) {
    a.start < b.start || (a.start == b.start && a.end <= b.end)
  }

  lemma BeforeIsAnOrder()
    ensures TotalPreorder(Before)
    ensures forall a, b :: Before(a, b) && Before(b, a) ==> a == b
  {
  }

  lemma {:induction false} ChainStartsBefore(extents: seq<Extent>, start: nat, end: nat)
    requires Chain(extents, start, end)
    ensures start <= end && forall e <- extents :: start <= e.start <= e.end <= end
  {
    if extents != [] {
      ChainStartsBefore(extents[1..], extents[0].end, end);
      assert extents == [extents[0]] + extents[1..];
    }
  }

  /** A chain is in sorted order, so sorting finds the only chain there can be. */
  lemma {:induction false} ChainIsSorted(extents: seq<Extent>, start: nat, end: nat)
    requires Chain(extents, start, end)
    ensures Sorted(Before, extents)
  {
    if extents != [] {
      ChainIsSorted(extents[1..], extents[0].end, end);
      ChainStartsBefore(extents[1..], extents[0].end, end);
      forall j | 1 <= j < |extents| ensures Before(extents[0], extents[j]) {
        assert extents[j] == extents[1..][j - 1];
      }
      forall i, j | 1 <= i < j < |extents| ensures Before(extents[i], extents[j]) {
        assert extents[i] == extents[1..][i - 1] && extents[j] == extents[1..][j - 1];
      }
    }
  }

  lemma TilesWhenSortedChains(extents: seq<Extent>, size: nat)
    ensures Tiles(extents, size) <==> Chain(Sort(Before, extents), 0, size)
  {
    BeforeIsAnOrder();
    SortSorts(Before, extents);
    if Tiles(extents, size) {
      var order :| multiset(order) == multiset(extents) && Chain(order, 0, size);
      ChainIsSorted(order, 0, size);
      SortedIsUnique(Before, order, Sort(Before, extents));
    }
  }

  lemma {:induction false} ChainExtends(extents: seq<Extent>, e: Extent, start: nat, end: nat)
    requires e.start <= e.end
    ensures Chain(extents + [e], start, end) <==> Chain(extents, start, e.start) && e.end == end
  {
    if extents == [] {
      assert extents + [e] == [e] && [e][1..] == [];
    } else {
      assert (extents + [e])[1..] == extents[1..] + [e];
      if extents[0].start == start <= extents[0].end {
        ChainExtends(extents[1..], e, extents[0].end, end);
      }
    }
  }

  // ---- The two loops ----

  /** Whether the sorted extents leave no gap and no overlap, by one cursor. */
  method CheckExtents(extents: seq<Extent>, size: nat) returns (refusal: Option<Refusal>)
    requires forall e <- extents :: e.start <= e.end
    ensures refusal.None? <==> Tiles(extents, size)
    ensures refusal.Some? ==> refusal.value.Overlapping? || refusal.value.Trailing?
  {
    var sorted := Sort(Before, extents);
    BeforeIsAnOrder();
    SortSorts(Before, extents);
    TilesWhenSortedChains(extents, size);
    assert Chain(sorted[..0], 0, 0);
    hide Sort, Sorted, TotalPreorder, Tiles, Chain;
    var cursor := 0;
    for i := 0 to |sorted|
      invariant Chain(sorted[..i], 0, cursor)
    {
      assert sorted[..i + 1] == sorted[..i] + [sorted[i]];
      assert sorted[i] in sorted;
      ChainExtends(sorted[..i], sorted[i], 0, sorted[i].end);
      if sorted[i].start != cursor {
        if Chain(sorted, 0, size) {
          ChainPrefix(sorted, i, cursor, size);
        }
        return Some(Overlapping);
      }
      cursor := sorted[i].end;
    }
    assert sorted[..|sorted|] == sorted;
    if cursor != size {
      if Chain(sorted, 0, size) {
        ChainEnd(sorted, 0, cursor, size);
      }
      return Some(Trailing);
    }
    return None;
  }

  lemma {:induction false} ChainEnd(extents: seq<Extent>, start: nat, a: nat, b: nat)
    requires Chain(extents, start, a) && Chain(extents, start, b)
    ensures a == b
  {
    if extents != [] {
      ChainEnd(extents[1..], extents[0].end, a, b);
    }
  }

  lemma ChainPrefix(extents: seq<Extent>, i: nat, cursor: nat, size: nat)
    requires i < |extents| && Chain(extents[..i], 0, cursor) && Chain(extents, 0, size)
    ensures extents[i].start == cursor
  {
    ChainSplits(extents, i, 0, size);
    ChainEnd(extents[..i], 0, cursor, extents[i].start);
  }

  lemma {:induction false} ChainSplits(extents: seq<Extent>, i: nat, start: nat, end: nat)
    requires i < |extents| && Chain(extents, start, end)
    ensures Chain(extents[..i], start, extents[i].start)
  {
    if i > 0 {
      ChainSplits(extents[1..], i - 1, extents[0].end, end);
      assert extents[..i][1..] == extents[1..][..i - 1];
    }
  }

  /** The shapes of a header whose tensors account for every payload byte. */
  method ReadDescriptors(entries: seq<Entry>, size: nat) returns (result: Result<map<string, Shape>, Refusal>)
    ensures result.Ok? <==>
      0 < |entries| <= 200000 && AllDescribed(entries, size) && Tiles(Extents(entries, size), size)
    ensures result.Ok? ==> result.value == Shapes(entries, size)
    // Under each name stands the shape its descriptor writes.
    ensures result.Ok? ==> forall i :: Last(entries, i) ==>
      entries[i].0 in result.value && Field(entries[i].1, "shape") == Written(result.value[entries[i].0])
    ensures result.Err? && result.error.Malformed? ==> !AllDescribed(entries, size)
  {
    if entries == [] || |entries| > MAX_ITEMS {
      return Err(ItemCount);
    }
    hide AllDescribed, Describe, Tiles, Shapes, Extents, Last, Written, Field;
    var described := DescribeEach(entries, size);
    if described.Err? {
      return Err(described.error);
    }
    var (shapes, intervals) := described.value;
    var refusal := CheckExtents(intervals, size);
    if refusal.Some? {
      return Err(refusal.value);
    }
    AllWritten(entries, size);
    return Ok(shapes);
  }

  /** No later entry has the same name. */
  ghost predicate Last(entries: seq<Entry>, i: int) {
    0 <= i < |entries| && forall j :: i < j < |entries| ==> entries[j].0 != entries[i].0
  }

  lemma {:induction false} ShapeIsWritten(entries: seq<Entry>, size: nat, i: nat)
    requires AllDescribed(entries, size) && Last(entries, i)
    ensures entries[i].0 in Shapes(entries, size)
    ensures Field(entries[i].1, "shape") == Written(Shapes(entries, size)[entries[i].0])
  {
    hide Describe;
    if i == |entries| - 1 {
      assert entries[i] in entries;
      var (shape, extent) := Describe(entries[i].1, size).value;
      DescribedExactly(entries[i].1, size, shape, extent);
    } else {
      assert forall j :: 0 <= j < |entries| - 1 ==> entries[..|entries| - 1][j] == entries[j];
      ShapeIsWritten(entries[..|entries| - 1], size, i);
    }
  }

  lemma AllWritten(entries: seq<Entry>, size: nat)
    requires AllDescribed(entries, size)
    ensures forall i :: Last(entries, i) ==>
      entries[i].0 in Shapes(entries, size) && Field(entries[i].1, "shape") == Written(Shapes(entries, size)[entries[i].0])
  {
    hide AllDescribed, Shapes, Written, Field;
    forall i | Last(entries, i)
      ensures entries[i].0 in Shapes(entries, size) && Field(entries[i].1, "shape") == Written(Shapes(entries, size)[entries[i].0])
    {
      ShapeIsWritten(entries, size, i);
    }
  }

  /** The loop over the descriptors. */
  method DescribeEach(entries: seq<Entry>, size: nat) returns (result: Result<(map<string, Shape>, seq<Extent>), Refusal>)
    ensures result.Ok? <==> AllDescribed(entries, size)
    ensures result.Ok? ==> result.value == (Shapes(entries, size), Extents(entries, size))
    ensures result.Ok? ==> forall e <- result.value.1 :: e.start <= e.end
    ensures result.Err? ==> result.error.Malformed?
  {
    hide Describe;
    var shapes: map<string, Shape>, intervals: seq<Extent> := map[], [];
    for i := 0 to |entries|
      invariant AllDescribed(entries[..i], size)
      invariant shapes == Shapes(entries[..i], size) && intervals == Extents(entries[..i], size)
      invariant forall e <- intervals :: e.start <= e.end
    {
      var description := Describe(entries[i].1, size);
      if description.None? {
        assert entries[i] in entries;
        return Err(Malformed(entries[i].0));
      }
      DescribedIsOrdered(entries[i].1, size);
      OneMoreDescribed(entries, i, size);
      shapes := shapes[entries[i].0 := description.value.0];
      intervals := intervals + [description.value.1];
    }
    assert entries[..|entries|] == entries;
    return Ok((shapes, intervals));
  }

  lemma OneMoreDescribed(entries: seq<Entry>, i: nat, size: nat)
    requires i < |entries| && AllDescribed(entries[..i], size) && Describe(entries[i].1, size).Some?
    ensures AllDescribed(entries[..i + 1], size)
    ensures Shapes(entries[..i + 1], size) == Shapes(entries[..i], size)[entries[i].0 := Describe(entries[i].1, size).value.0]
    ensures Extents(entries[..i + 1], size) == Extents(entries[..i], size) + [Describe(entries[i].1, size).value.1]
  {
    hide Describe;
    assert entries[..i + 1][..i] == entries[..i];
  }

  lemma DescribedIsOrdered(descriptor: Json, size: nat)
    ensures Describe(descriptor, size).Some? ==>
              Describe(descriptor, size).value.1.start <= Describe(descriptor, size).value.1.end <= size
  {
    hide Product, ShapeOf;
  }

  // ---- What tiling means for the bytes ----

  /** How many of the extents hold a byte. */
  ghost function Holders(extents: seq<Extent>, byte: nat): nat {
    if extents == [] then 0 else (if extents[0].Covers(byte) then 1 else 0) + Holders(extents[1..], byte)
  }

  ghost function TotalSize(extents: seq<Extent>): int {
    if extents == [] then 0 else extents[0].end - extents[0].start + TotalSize(extents[1..])
  }

  lemma {:induction false} Removed(extents: seq<Extent>, k: nat, byte: nat)
    requires k < |extents|
    ensures Holders(extents, byte)
         == (if extents[k].Covers(byte) then 1 else 0) + Holders(extents[..k] + extents[k + 1..], byte)
    ensures TotalSize(extents) == extents[k].end - extents[k].start + TotalSize(extents[..k] + extents[k + 1..])
  {
    if k == 0 {
      assert extents[..0] + extents[1..] == extents[1..];
    } else {
      Removed(extents[1..], k - 1, byte);
      var rest := extents[..k] + extents[k + 1..];
      assert rest[1..] == extents[1..][..k - 1] + extents[1..][k..];
    }
  }

  lemma RestReordered(xs: seq<Extent>, ys: seq<Extent>, k: nat)
    requires xs != [] && k < |ys| && ys[k] == xs[0] && multiset(xs) == multiset(ys)
    ensures multiset(xs[1..]) == multiset(ys[..k] + ys[k + 1..])
  {
    hide *;
    WithoutElement(xs, 0);
    WithoutElement(ys, k);
    assert xs[..0] + xs[1..] == xs[1..];
  }

  lemma WithoutElement(xs: seq<Extent>, k: nat)
    requires k < |xs|
    ensures multiset(xs[..k] + xs[k + 1..]) == multiset(xs) - multiset{xs[k]}
  {
    var front, back := xs[..k], xs[k + 1..];
    assert xs == front + [xs[k]] + back;
    assert multiset(xs) == multiset(front) + multiset{xs[k]} + multiset(back);
  }

  /** Neither count depends on the order. */
  lemma {:induction false} Reordered(xs: seq<Extent>, ys: seq<Extent>, byte: nat)
    requires multiset(xs) == multiset(ys)
    ensures Holders(xs, byte) == Holders(ys, byte) && TotalSize(xs) == TotalSize(ys)
  {
    assert |xs| == |multiset(xs)| == |multiset(ys)| == |ys|;
    if xs != [] {
      assert xs[0] in multiset(xs);
      var k :| 0 <= k < |ys| && ys[k] == xs[0];
      RestReordered(xs, ys, k);
      Reordered(xs[1..], ys[..k] + ys[k + 1..], byte);
      Removed(ys, k, byte);
    }
  }

  lemma {:induction false} ChainHolds(extents: seq<Extent>, start: nat, end: nat, byte: nat)
    requires Chain(extents, start, end)
    ensures Holders(extents, byte) == if start <= byte < end then 1 else 0
    ensures TotalSize(extents) == end - start
  {
    if extents != [] {
      ChainStartsBefore(extents[1..], extents[0].end, end);
      ChainHolds(extents[1..], extents[0].end, end, byte);
    }
  }

  /** Every extent lies in the payload, every byte has one holder, and nothing empty lies inside another. */
  ghost predicate Partition(extents: seq<Extent>, start: nat, size: nat) {
    && (forall e <- extents :: start <= e.start <= e.end <= size)
    && (forall byte: nat :: start <= byte < size ==> Holders(extents, byte) == 1)
    && forall e <- extents, f <- extents :: e.Empty() ==> !(f.start < e.start < f.end)
  }

  lemma {:induction false} HasHolder(extents: seq<Extent>, byte: nat)
    ensures Holders(extents, byte) > 0 <==> exists e <- extents :: e.Covers(byte)
  {
    if extents != [] {
      HasHolder(extents[1..], byte);
      assert extents == [extents[0]] + extents[1..];
    }
  }

  lemma {:induction false} PartitionChains(extents: seq<Extent>, start: nat, size: nat)
    requires Partition(extents, start, size) && Sorted(Before, extents) && start <= size
    ensures Chain(extents, start, size)
  {
    if start < size {
      assert Holders(extents, start) == 1;
      HasHolder(extents, start);
    }
    if extents != [] {
      var first, rest := extents[0], extents[1..];
      assert extents == [first] + rest && first in extents;
      assert first.start == start;
      forall e <- rest ensures first.end <= e.start {
        FirstEndsBefore(extents, start, size, e);
      }
      forall byte: nat | first.end <= byte < size ensures Holders(rest, byte) == 1 {
        assert Holders(extents, byte) == 1;
      }
      PartitionChains(rest, first.end, size);
    }
  }

  lemma FirstEndsBefore(extents: seq<Extent>, start: nat, size: nat, e: Extent)
    requires Partition(extents, start, size) && Sorted(Before, extents)
    requires extents != [] && extents[0].start == start && e in extents[1..]
    ensures extents[0].end <= e.start
  {
    var first := extents[0];
    assert e in extents && first in extents && Before(first, e);
    HasHolder(extents[1..], e.start);
    assert e.start < first.end ==> !e.Empty() && e.Covers(e.start) && first.Covers(e.start);
    HoldersOfFirst(extents, e.start);
  }

  lemma HoldersOfFirst(extents: seq<Extent>, byte: nat)
    requires extents != []
    ensures Holders(extents, byte) == (if extents[0].Covers(byte) then 1 else 0) + Holders(extents[1..], byte)
  {
  }

  lemma {:induction false} ChainHasSeams(extents: seq<Extent>, start: nat, size: nat)
    requires Chain(extents, start, size)
    ensures forall e <- extents, f <- extents :: e.Empty() ==> !(f.start < e.start < f.end)
  {
    if extents != [] {
      ChainHasSeams(extents[1..], extents[0].end, size);
      ChainStartsBefore(extents[1..], extents[0].end, size);
      assert extents == [extents[0]] + extents[1..];
    }
  }

  /**
   The cursor check is exact: it accepts when and only when every payload byte lies in one tensor, no
   tensor reaches outside, and empty tensors sit at the seams. The extents then sum to the payload.
   */
  lemma TilesExactly(extents: seq<Extent>, size: nat)
    ensures Tiles(extents, size) <==> Partition(extents, 0, size)
    ensures Tiles(extents, size) ==> TotalSize(extents) == size
  {
    hide Chain, Holders, TotalSize, Partition;
    if Tiles(extents, size) {
      var order :| multiset(order) == multiset(extents) && Chain(order, 0, size);
      ChainPartitions(order, extents, size);
    }
    if Partition(extents, 0, size) {
      PartitionTiles(extents, size);
    }
  }

  lemma ChainPartitions(order: seq<Extent>, extents: seq<Extent>, size: nat)
    requires multiset(order) == multiset(extents) && Chain(order, 0, size)
    ensures Partition(extents, 0, size) && TotalSize(extents) == size
  {
    hide Chain, Holders, TotalSize;
    assert forall e :: e in extents <==> e in multiset(extents);
    assert forall e :: e in order <==> e in multiset(order);
    ChainStartsBefore(order, 0, size);
    ChainHasSeams(order, 0, size);
    forall byte: nat ensures Holders(extents, byte) == if byte < size then 1 else 0 {
      ChainHolds(order, 0, size, byte);
      Reordered(order, extents, byte);
    }
    ChainHolds(order, 0, size, 0);
    Reordered(order, extents, 0);
  }

  lemma PartitionTiles(extents: seq<Extent>, size: nat)
    requires Partition(extents, 0, size)
    ensures Tiles(extents, size)
  {
    hide Chain, Holders, Sort;
    BeforeIsAnOrder();
    SortSorts(Before, extents);
    var sorted := Sort(Before, extents);
    forall byte: nat | byte < size ensures Holders(sorted, byte) == 1 {
      Reordered(sorted, extents, byte);
    }
    PartitionChains(sorted, 0, size);
  }

  /** One holder is one index. */
  lemma {:induction false} OneHolder(extents: seq<Extent>, byte: nat) returns (k: nat)
    requires Holders(extents, byte) == 1
    ensures k < |extents| && forall i :: 0 <= i < |extents| ==> (extents[i].Covers(byte) <==> i == k)
  {
    HasHolder(extents[1..], byte);
    if extents[0].Covers(byte) {
      k := 0;
      forall i | 1 <= i < |extents| ensures !extents[i].Covers(byte) {
        assert extents[i] in extents[1..];
      }
    } else {
      var rest := OneHolder(extents[1..], byte);
      k := rest + 1;
      forall i | 1 <= i < |extents| ensures extents[i].Covers(byte) <==> i == k {
        assert extents[i] == extents[1..][i - 1];
      }
    }
  }
}

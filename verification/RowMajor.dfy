/** Tensors as a shape and their elements in row-major order, and the two ways to name an element. */
module RowMajor {
  type Shape = seq<nat>

  function Product(shape: Shape): nat {
    if shape == [] then 1 else Product(shape[..|shape| - 1]) * shape[|shape| - 1]
  }

  lemma EmptyProduct()
    ensures Product([]) == 1
  {
  }

  lemma OneAxis(n: nat)
    ensures Product([n]) == n
  {
    assert [n][..0] == [];
  }

  /** One coordinate per axis, each below the axis' size. */
  predicate Within(shape: Shape, index: seq<nat>) {
    |index| == |shape| && forall k :: 0 <= k < |shape| ==> index[k] < shape[k]
  }

  /** The flat offset of a coordinate. */
  function Flat(shape: Shape, index: seq<nat>): nat
    requires |index| == |shape|
  {
    if shape == [] then 0
    else Flat(shape[..|shape| - 1], index[..|shape| - 1]) * shape[|shape| - 1] + index[|shape| - 1]
  }

  /** The coordinate of a flat offset. */
  function Unflat(shape: Shape, offset: nat): seq<nat>
    requires Product(shape) > 0
  {
    if shape == [] then []
    else
      assert Product(shape[..|shape| - 1]) > 0 && shape[|shape| - 1] > 0;
      Unflat(shape[..|shape| - 1], offset / shape[|shape| - 1]) + [offset % shape[|shape| - 1]]
  }

  lemma DivideBelow(a: nat, b: nat, n: nat)
    requires n < a * b && b > 0
    ensures n / b < a && n % b < b && n / b * b + n % b == n
  {
    BelowProduct(n / b, a, b, n);
  }

  lemma BelowProduct(q: nat, a: nat, b: nat, n: nat)
    requires q * b <= n < a * b
    ensures q < a
  {
    assert q >= a ==> (q - a) * b >= 0;
  }

  lemma ComposeBelow(a: nat, b: nat, q: nat, r: nat)
    requires q < a && r < b
    ensures q * b + r < a * b && (q * b + r) / b == q && (q * b + r) % b == r
  {
    assert (q + 1) * b <= a * b;
    QuotientIs(q * b + r, b, q, r);
  }

  lemma QuotientIs(n: nat, b: nat, q: nat, r: nat)
    requires r < b && n == q * b + r
    ensures n / b == q && n % b == r
  {
    SameQuotient(n / b, n % b, q, r, b);
  }

  lemma SameQuotient(p: nat, s: nat, q: nat, r: nat, b: nat)
    requires r < b && s < b && p * b + s == q * b + r
    ensures p == q && s == r
  {
    var d := p - q;
    assert d * b == r - s;
    assert d >= 1 ==> d * b >= b;
    assert d <= -1 ==> d * b <= -(b as int);
  }

  lemma {:induction false} UnflatFlat(shape: Shape, index: seq<nat>)
    requires Within(shape, index)
    ensures Flat(shape, index) < Product(shape) && Unflat(shape, Flat(shape, index)) == index
  {
    if shape != [] {
      var n := |shape| - 1;
      UnflatFlat(shape[..n], index[..n]);
      ComposeBelow(Product(shape[..n]), shape[n], Flat(shape[..n], index[..n]), index[n]);
      assert index == index[..n] + [index[n]];
    }
  }

  lemma {:induction false} FlatUnflat(shape: Shape, offset: nat)
    requires offset < Product(shape)
    ensures Within(shape, Unflat(shape, offset)) && Flat(shape, Unflat(shape, offset)) == offset
  {
    if shape != [] {
      var n := |shape| - 1;
      DivideBelow(Product(shape[..n]), shape[n], offset);
      FlatUnflat(shape[..n], offset / shape[n]);
      assert Unflat(shape, offset)[..n] == Unflat(shape[..n], offset / shape[n]);
    }
  }

  lemma {:induction false} ProductMonotone(small: Shape, large: Shape)
    requires |small| == |large| && forall k :: 0 <= k < |small| ==> small[k] <= large[k]
    ensures Product(small) <= Product(large)
  {
    if small != [] {
      var n := |small| - 1;
      ProductMonotone(small[..n], large[..n]);
      assert Product(small[..n]) * small[n] <= Product(large[..n]) * large[n] by {
        MultiplyMonotone(Product(small[..n]), Product(large[..n]), small[n], large[n]);
      }
    }
  }

  lemma MultiplyMonotone(a: nat, b: nat, x: nat, y: nat)
    requires a <= b && x <= y
    ensures a * x <= b * y
  {
    assert a * x <= a * y <= b * y;
  }

  lemma {:induction false} PositiveProduct(shape: Shape)
    ensures Product(shape) > 0 <==> forall k :: 0 <= k < |shape| ==> shape[k] > 0
  {
    if shape != [] {
      var n := |shape| - 1;
      PositiveProduct(shape[..n]);
      assert Product(shape) > 0 <==> Product(shape[..n]) > 0 && shape[n] > 0;
    }
  }

  datatype Tensor<T> = Tensor(shape: Shape, data: seq<T>) {
    predicate Valid() { |data| == Product(shape) }

    function At(index: seq<nat>): T
      requires Valid() && Within(shape, index)
    {
      UnflatFlat(shape, index);
      data[Flat(shape, index)]
    }
  }
}

/** Numbers as floating-point tensors hold them, with exact reals for the finite ones. */
module Numbers {
  datatype Number = Finite(value: real) | NaN | PositiveInfinity | NegativeInfinity

  predicate AllFinite(values: seq<Number>) {
    forall k :: 0 <= k < |values| ==> values[k].Finite?
  }
}

/** JSON values as the workflow checks see them, with the source language's equality. */
module Json {
  datatype Json =
    | Null
    | Bool(value: bool)
    | Int(number: int)
    | Float(decimal: real)
    | NonFinite
    | Text(text: string)
    | List(items: seq<Json>)
    | Object(fields: map<string, Json>)

  predicate IsNumeric(value: Json) { value.Bool? || value.Int? || value.Float? }

  /** Booleans count as 0 and 1, and integers equal the floats they denote. */
  function Numeric(value: Json): real
    requires IsNumeric(value)
  {
    match value
    case Bool(b) => if b then 1.0 else 0.0
    case Int(n) => n as real
    case Float(x) => x
  }

  predicate Same(a: Json, b: Json) {
    if IsNumeric(a) && IsNumeric(b) then Numeric(a) == Numeric(b)
    else if a.List? && b.List? then
      |a.items| == |b.items| && forall i :: 0 <= i < |a.items| ==> Same(a.items[i], b.items[i])
    else a == b && !a.NonFinite?
  }

  predicate Among(value: Json, items: seq<Json>) {
    exists item <- items :: Same(value, item)
  }

  /** Equality of values: symmetric, by number across integers, decimals and booleans, by text, and never for what is not finite. */
  lemma {:induction false} SameExactly(a: Json, b: Json)
    ensures Same(a, b) == Same(b, a)
    ensures a.Text? || a.Null? ==> (Same(a, b) <==> a == b)
    ensures a.Int? && b.Int? ==> (Same(a, b) <==> a.number == b.number)
    ensures a.Int? && b.Float? ==> (Same(a, b) <==> a.number as real == b.decimal)
    ensures a.Int? && b.Bool? ==> (Same(a, b) <==> a.number == if b.value then 1 else 0)
    ensures a.NonFinite? ==> !Same(a, b)
    decreases a
  {
    if a.List? && b.List? && |a.items| == |b.items| {
      forall i | 0 <= i < |a.items| ensures Same(a.items[i], b.items[i]) == Same(b.items[i], a.items[i]) {
        SameExactly(a.items[i], b.items[i]);
      }
    }
  }
}

/**
 Named host-value ports of heterogeneous generation stages
 (reference/diffusers/generation_composition.py, class Port).
 */
module HostPorts {
  import opened Numbers
  import opened Options
  import opened RowMajor
  import opened Texts

  const DTYPES := {"float16", "bfloat16", "float32", "float64", "int8", "int16", "int32", "int64", "uint8", "bool"}
  const SEMANTICS := {"sample", "latent", "noise", "epsilon", "v_prediction", "velocity",
                      "embedding", "pixels", "mask", "token_ids", "logits", "timestep", "tensor"}
  const FLOATING := {"sample", "latent", "noise", "epsilon", "v_prediction", "velocity", "embedding", "logits"}

  datatype Item = Str(text: string) | NotText

  /** A host array: its element type and its numbers. */
  datatype TypedArray = TypedArray(dtype: string, tensor: Tensor<Number>)

  /** The contents of a host value: text, a batch, an array, or something no port accepts. */
  datatype Value = Text(text: string) | Batch(items: seq<Item>) | Array(typed: TypedArray) | Foreign

  /** None in a shape is a dynamic dimension. */
  datatype Port = Port(kind: string, dtype: string, shape: seq<Option<nat>>, layout: string, semantic: string, space: string) {

    /** What __post_init__ lets through. */
    predicate WellFormed() {
      && (forall dim <- shape :: dim.Some? ==> dim.value > 0)
      && |layout| == |shape| && (forall axis <- layout :: 'A' <= axis <= 'Z')
      && !IsBlank(space) && space !in {"unspecified", "unknown", "auto"}
      && if kind == "text" then
           && dtype == "utf8" && semantic == "text" && space == "utf8"
           && ((shape == [] && layout == "") || (shape == [None] && layout == "B"))
         else
           && kind == "tensor" && dtype in DTYPES && semantic in SEMANTICS
           && (semantic == "token_ids" ==>
                 ("int" <= dtype || "uint" <= dtype) && (layout == "S" || layout == "BS"))
           && (semantic in FLOATING ==> "float" <= dtype || dtype == "bfloat16")
    }

    /** require_compatible: the same kind of value, and no two fixed dimensions that differ. */
    predicate CanFeed(destination: Port) {
      && kind == destination.kind && dtype == destination.dtype && layout == destination.layout
      && semantic == destination.semantic && space == destination.space
      && |shape| == |destination.shape|
      && forall i :: 0 <= i < |shape| ==>
           shape[i].Some? && destination.shape[i].Some? ==> shape[i] == destination.shape[i]
    }

    /** validate: does a concrete value satisfy this port? */
    predicate Accepts(value: Value) {
      if kind == "text" then
        if shape == [] then value.Text?
        else value.Batch? && value.items != [] && forall item <- value.items :: item.Str?
      else
        && value.Array? && value.typed.dtype == dtype
        && |value.typed.tensor.shape| == |shape|
        && (forall i :: 0 <= i < |shape| ==>
              value.typed.tensor.shape[i] > 0 && (shape[i].Some? ==> shape[i].value == value.typed.tensor.shape[i]))
        && (forall element <- value.typed.tensor.data ::
              element.Finite? && (semantic == "token_ids" ==> element.value >= 0.0))
    }

    /** A dimension the source left open and the destination fixed turned out to have another size. */
    ghost predicate SizedDifferently(destination: Port, value: Value) {
      && value.Array? && |value.typed.tensor.shape| == |shape| == |destination.shape|
      && exists i :: 0 <= i < |shape| && shape[i].None? && destination.shape[i].Some?
                     && destination.shape[i].value != value.typed.tensor.shape[i]
    }

    /** Every dimension the destination fixes is fixed by the source already. */
    predicate Fixes(destination: Port) {
      |shape| == |destination.shape| && forall i :: 0 <= i < |shape| ==> destination.shape[i].Some? ==> shape[i].Some?
    }
  }

  /** Which numbers a meaning can have: whole ones for tokens, floating ones for states, any for the rest. */
  predicate Admissible(semantic: string, dtype: string) {
    || (semantic == "token_ids" && dtype in ["int8", "int16", "int32", "int64", "uint8"])
    || (semantic in ["sample", "latent", "noise", "epsilon", "v_prediction", "velocity", "embedding", "logits"]
        && dtype in ["float16", "bfloat16", "float32", "float64"])
    || (semantic in ["pixels", "mask", "timestep", "tensor"]
        && dtype in ["float16", "bfloat16", "float32", "float64", "int8", "int16", "int32", "int64", "uint8", "bool"])
  }

  /** The element types whose names begin with int or uint, and with float or bfloat16. */
  lemma Prefixes(dtype: string)
    requires dtype in DTYPES
    ensures ("int" <= dtype || "uint" <= dtype) <==> dtype in ["int8", "int16", "int32", "int64", "uint8"]
    ensures ("float" <= dtype || dtype == "bfloat16") <==> dtype in ["float16", "bfloat16", "float32", "float64"]
  {
    assert "int" <= "int8" && "int" <= "int16" && "int" <= "int32" && "int" <= "int64" && "uint" <= "uint8";
    assert "float" <= "float16" && "float" <= "float32" && "float" <= "float64";
    assert dtype[0] == 'b' || dtype[0] == 'u' || dtype[0] == 'f' || dtype[0] == 'i';
  }

  lemma AdmissibleExactly(semantic: string, dtype: string)
    ensures Admissible(semantic, dtype) <==>
      && dtype in DTYPES && semantic in SEMANTICS
      && (semantic == "token_ids" ==> "int" <= dtype || "uint" <= dtype)
      && (semantic in FLOATING ==> "float" <= dtype || dtype == "bfloat16")
  {
    if dtype in DTYPES {
      Prefixes(dtype);
    }
  }

  /**
   The two text ports, and tensor ports with a capital letter and a positive or open size for each axis,
   numbers their meaning can have, tokens by sequence, and a representation space of their own.
   */
  lemma WellFormedExactly(port: Port)
    ensures port.WellFormed() <==>
      || port == Port("text", "utf8", [], "", "text", "utf8")
      || port == Port("text", "utf8", [None], "B", "text", "utf8")
      || (port.kind == "tensor" && Admissible(port.semantic, port.dtype) && Labelled(port)
          && (port.semantic == "token_ids" ==> port.layout in ["S", "BS"]))
  {
    LabelledExactly(port);
    AdmissibleExactly(port.semantic, port.dtype);
    Utf8IsNotBlank();
    hide Admissible, Labelled, IsBlank;
    if port.kind == "text" {
      assert port.layout == "" || port.layout == "B" ==> forall axis <- port.layout :: 'A' <= axis <= 'Z';
    }
  }

  lemma Utf8IsNotBlank()
    ensures !IsBlank("utf8")
  {
    var space := "utf8";
    assert space[0] == 'u' && space[0] in space;
  }

  ghost predicate Labelled(port: Port) {
    && |port.layout| == |port.shape| && (forall axis <- port.layout :: 'A' <= axis <= 'Z')
    && Some(0) !in port.shape
    && (exists c <- port.space :: !IsSpace(c)) && port.space !in ["unspecified", "unknown", "auto"]
  }

  lemma LabelledExactly(port: Port)
    ensures Labelled(port) <==>
      && (forall dim <- port.shape :: dim.Some? ==> dim.value > 0)
      && |port.layout| == |port.shape| && (forall axis <- port.layout :: 'A' <= axis <= 'Z')
      && !IsBlank(port.space) && port.space !in {"unspecified", "unknown", "auto"}
  {
    assert Some(0) !in port.shape <==> forall dim <- port.shape :: dim.Some? ==> dim.value > 0 by {
      PositiveSizes(port.shape);
    }
    assert (exists c <- port.space :: !IsSpace(c)) <==> !IsBlank(port.space);
  }

  lemma PositiveSizes(shape: seq<Option<nat>>)
    ensures Some(0) !in shape <==> forall dim <- shape :: dim.Some? ==> dim.value > 0
  {
    forall dim | dim in shape && dim.Some? ensures dim.value > 0 || Some(0) in shape {
      assert dim == Some(dim.value);
    }
  }

  /** The one check of an argument that preflight cannot make, exactly. */
  lemma ArgumentCheckIsSize(source: Port, destination: Port, value: Value)
    requires source.WellFormed() && destination.WellFormed()
    requires source.CanFeed(destination) && source.Accepts(value)
    ensures destination.Accepts(value) <==> !source.SizedDifferently(destination, value)
    ensures source.Fixes(destination) ==> destination.Accepts(value)
  {
    if source.kind != "text" && !source.SizedDifferently(destination, value) {
      forall i | 0 <= i < |source.shape| && destination.shape[i].Some?
        ensures destination.shape[i].value == value.typed.tensor.shape[i]
      {
        assert source.shape[i].Some? ==> source.shape[i] == destination.shape[i];
      }
    }
  }

  /** What an array port accepts: the declared type and sizes, nothing that is not finite, and no negative token. */
  ghost predicate Fitting(port: Port, typed: TypedArray) {
    && typed.dtype == port.dtype && |typed.tensor.shape| == |port.shape|
    && (forall i :: 0 <= i < |port.shape| ==> 0 < typed.tensor.shape[i] && (port.shape[i] == None || port.shape[i] == Some(typed.tensor.shape[i])))
    && NaN !in typed.tensor.data && PositiveInfinity !in typed.tensor.data && NegativeInfinity !in typed.tensor.data
    && (port.semantic == "token_ids" ==> forall x: real :: Finite(x) in typed.tensor.data ==> x >= 0.0)
  }

  /** What a port accepts, by the kind of value: text, a batch of texts, an array of the declared numbers, nothing else. */
  lemma AcceptedByKind(port: Port, value: Value)
    requires port.WellFormed()
    ensures port.Accepts(value) <==>
      match value
      case Text(_) => port.kind == "text" && port.layout == ""
      case Batch(items) => port.kind == "text" && port.layout == "B" && items != [] && NotText !in items
      case Array(typed) => port.kind == "tensor" && Fitting(port, typed)
      case Foreign => false
  {
    match value
    case Batch(items) =>
      assert forall item <- items :: item.Str? <==> item != NotText;
    case Array(typed) =>
      if port.kind == "tensor" {
        FittingExactly(port, typed);
      }
      hide Fitting;
    case _ =>
  }

  lemma FittingExactly(port: Port, typed: TypedArray)
    requires port.kind != "text"
    ensures port.Accepts(Array(typed)) <==> Fitting(port, typed)
  {
    FiniteElements(typed.tensor.data, port.semantic);
  }

  lemma FiniteElements(data: seq<Number>, semantic: string)
    ensures (forall element <- data :: element.Finite? && (semantic == "token_ids" ==> element.value >= 0.0)) <==>
      && NaN !in data && PositiveInfinity !in data && NegativeInfinity !in data
      && (semantic == "token_ids" ==> forall x: real :: Finite(x) in data ==> x >= 0.0)
  {
    if NaN !in data && PositiveInfinity !in data && NegativeInfinity !in data {
      forall element | element in data ensures element.Finite? && element == Finite(element.value) {
        assert element != NaN && element != PositiveInfinity && element != NegativeInfinity;
      }
    }
  }

  /** A size that both dimensions allow, when one fixes it. */
  function CommonSize(a: Option<nat>, b: Option<nat>): nat {
    if a.Some? then a.value else if b.Some? then b.value else 1
  }

  /** A value for two ports: an empty text, one empty text in a batch, or zeros. */
  function Sample(a: Port, b: Port): Value
    requires |a.shape| == |b.shape|
  {
    if a.kind == "text" then (if a.layout == "" then Text("") else Batch([Str("")]))
    else
      var shape: Shape := seq(|a.shape|, i requires 0 <= i < |a.shape| => CommonSize(a.shape[i], b.shape[i]));
      Array(TypedArray(a.dtype, Tensor(shape, seq(Product(shape), _ => Finite(0.0)))))
  }

  /** Compatible ports are those of the same layout, semantic and space that accept some value in common. */
  lemma FeedsExactly(a: Port, b: Port)
    requires a.WellFormed() && b.WellFormed()
    ensures a.CanFeed(b) <==>
      a.layout == b.layout && a.semantic == b.semantic && a.space == b.space && exists value :: a.Accepts(value) && b.Accepts(value)
  {
    hide Product;
    if a.CanFeed(b) {
      assert a.Accepts(Sample(a, b)) && b.Accepts(Sample(a, b));
    }
  }

  /** A well-formed port accepts something, so that a pipeline of such ports is never refused for want of values. */
  lemma WellFormedAcceptsSome(port: Port)
    requires port.WellFormed()
    ensures port.Accepts(Sample(port, port))
  {
    hide Product;
  }
}

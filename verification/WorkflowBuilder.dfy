/**
 The incremental builder of image workflows, with checks of its own
 (reference/diffusers/comfyui_image_workflow.py, _schema, _check_scalar and _Graph).
 */
module WorkflowBuilder {
  import opened Options
  import opened Sequences
  import opened Texts
  import opened Json
  import opened WorkflowGraph
  import opened WorkflowValidation

  predicate HasSchema(objects: Objects, className: string) {
    className in objects && !objects[className].hosted
  }

  /** {**required, **optional}: the optional schema wins, unlike in the validator. */
  function Available(spec: Specification): map<string, Schema> {
    spec.required + spec.optional
  }

  /** _check_scalar returns without an exception. */
  predicate ScalarAccepted(value: Json, schema: Schema) {
    var kind := if schema == [] then Null else schema[0];
    var settings := SettingsOf(schema);
    if kind == Text("COMBO") && !("options" in settings && settings["options"].List?) then false
    else
      var kind := if kind == Text("COMBO") then settings["options"] else kind;
      if kind.List? then Among(value, kind.items)
      else if kind == Text("INT") then value.Int? && InRange(value, settings)
      else if kind == Text("FLOAT") then (value.Int? || value.Float?) && InRange(value, settings)
      else if kind == Text("BOOLEAN") then value.Bool?
      else kind == Text("STRING") && value.Text?
  }

  /** Whole numbers are held against the bounds that are given. */
  lemma RangeExactly(n: int, low: int, high: int)
    ensures ScalarAccepted(Int(n), [Text("INT"), Object(map["min" := Int(low), "max" := Int(high)])]) <==> low <= n <= high
    ensures ScalarAccepted(Int(n), [Text("FLOAT"), Object(map["min" := Float(low as real), "max" := Float(high as real)])])
       <==> low <= n <= high
    ensures ScalarAccepted(Int(n), [Text("INT")])
  {
    var settings := map["min" := Int(low), "max" := Int(high)];
    var decimals := map["min" := Float(low as real), "max" := Float(high as real)];
    assert SettingsOf([Text("INT"), Object(settings)]) == settings && SettingsOf([Text("FLOAT"), Object(decimals)]) == decimals;
  }

  predicate InRange(value: Json, settings: map<string, Json>)
    requires IsNumeric(value)
  {
    && ("min" in settings ==> IsNumeric(settings["min"]) && Numeric(settings["min"]) <= Numeric(value))
    && ("max" in settings ==> IsNumeric(settings["max"]) && Numeric(value) <= Numeric(settings["max"]))
  }

  /** Anything shaped like a link must be one; the slot is not looked at to decide. */
  predicate LooksLikeLink(value: Json) {
    value.List? && |value.items| == 2 && value.items[0].Text?
  }

  predicate InputBuilds(objects: Objects, nodes: Graph, schema: Schema, value: Json) {
    if LooksLikeLink(value) then
      var source, slot := value.items[0].text, value.items[1];
      && source in nodes && slot.Int? && slot.number >= 0
      && HasSchema(objects, nodes[source].className)
      && var outputs := objects[nodes[source].className].output;
         slot.number < |outputs| && schema != [] && Same(outputs[slot.number], schema[0])
    else
      ScalarAccepted(value, schema)
  }

  predicate HasDefault(schema: Schema) {
    schema != [] && "default" in SettingsOf(schema)
  }

  function DefaultOf(schema: Schema): Json
    requires HasDefault(schema)
  {
    SettingsOf(schema)["default"]
  }

  predicate TakesDefault(spec: Specification, values: map<string, Json>, name: string)
    requires name in spec.required
  {
    name !in values && !MayBeAbsent(spec.required[name]) && HasDefault(spec.required[name])
  }

  /** The inputs of the new node: what the caller gave, and defaults for what is required and missing. */
  function WithDefaults(spec: Specification, values: map<string, Json>): map<string, Json> {
    values + map name | name in spec.required && TakesDefault(spec, values, name) :: DefaultOf(spec.required[name])
  }

  predicate NodeBuilds(objects: Objects, nodes: Graph, className: string, inputs: map<string, Json>) {
    && HasSchema(objects, className)
    && var spec := objects[className];
       && (forall name <- spec.required :: name in inputs || MayBeAbsent(spec.required[name]))
       && (forall name <- inputs :: name in Available(spec) && InputBuilds(objects, nodes, Available(spec)[name], inputs[name]))
  }

  /** The nodes that stand before number n. */
  ghost function Earlier(nodes: Graph, order: seq<string>, n: nat): Graph
    requires n <= |order| && forall id <- order :: id in nodes
  {
    map id | id in order[..n] :: nodes[id]
  }

  /** What any sequence of add calls leaves behind: each node was right for the nodes before it. */
  ghost predicate Built(objects: Objects, nodes: Graph, order: seq<string>) {
    && (forall id :: id in nodes <==> id in order)
    && (forall i, j :: 0 <= i < j < |order| ==> order[i] != order[j])
    && forall i :: 0 <= i < |order| ==>
         NodeBuilds(objects, Earlier(nodes, order, i), nodes[order[i]].className, nodes[order[i]].inputs)
  }

  lemma DefaultsPointwise(spec: Specification, values: map<string, Json>)
    ensures var all := WithDefaults(spec, values);
      && values.Keys <= all.Keys <= values.Keys + spec.required.Keys
      && (forall name <- values :: all[name] == values[name])
      && forall name <- spec.required :: name !in values ==>
           (name in all <==> !MayBeAbsent(spec.required[name]) && HasDefault(spec.required[name]))
           && (name in all ==> all[name] == DefaultOf(spec.required[name]))
  {
  }

  lemma DefaultIsSetting(spec: Specification)
    ensures forall name <- spec.required :: HasDefault(spec.required[name]) <==>
      |spec.required[name]| > 1 && spec.required[name][1].Object? && "default" in spec.required[name][1].fields
    ensures forall name <- spec.required ::
      HasDefault(spec.required[name]) ==> DefaultOf(spec.required[name]) == spec.required[name][1].fields["default"]
  {
  }

  /** Completes the inputs of a new node; nothing, when a required input is missing and has no default. */
  method FillDefaults(spec: Specification, values: map<string, Json>) returns (inputs: Option<map<string, Json>>)
    ensures inputs.Some? <==> forall name <- spec.required ::
      name in WithDefaults(spec, values) || MayBeAbsent(spec.required[name])
    ensures inputs.Some? ==> inputs.value == WithDefaults(spec, values)
  {
    DefaultsPointwise(spec, values);
    DefaultIsSetting(spec);
    hide MayBeAbsent, WithDefaults, HasDefault, DefaultOf;
    ghost var all := WithDefaults(spec, values);
    var filled := values;
    var left := spec.required.Keys;
    while left != {}
      invariant left <= spec.required.Keys
      invariant forall name <- filled :: name in all && filled[name] == all[name]
      invariant forall name <- all :: name in filled || (name in left && name !in values)
      invariant forall name <- spec.required.Keys - left :: name in all || MayBeAbsent(spec.required[name])
      decreases |left|
    {
      var name :| name in left;
      if name !in values && !MayBeAbsent(spec.required[name]) {
        var schema := spec.required[name];
        if !(|schema| > 1 && schema[1].Object? && "default" in schema[1].fields) {
          return None;
        }
        filled := filled[name := schema[1].fields["default"]];
      }
      left := left - {name};
    }
    assert filled == all;
    return Some(filled);
  }

  /** _check_scalar, kind by kind; false stands for the exception. */
  method CheckScalar(value: Json, schema: Schema) returns (ok: bool)
    ensures ok <==> ScalarAccepted(value, schema)
  {
    hide Among;
    var kind := if schema == [] then Null else schema[0];
    var settings: map<string, Json> := if |schema| > 1 && schema[1].Object? then schema[1].fields else map[];
    if kind == Text("COMBO") {
      if "options" !in settings || !settings["options"].List? {
        return false;
      }
      kind := settings["options"];
    }
    if kind.List? {
      return Among(value, kind.items);
    } else if kind == Text("INT") {
      if !value.Int? {
        return false;
      }
    } else if kind == Text("FLOAT") {
      if !value.Int? && !value.Float? {
        return false;
      }
    } else {
      return (kind == Text("BOOLEAN") && value.Bool?) || (kind == Text("STRING") && value.Text?);
    }
    if "min" in settings && (!IsNumeric(settings["min"]) || Numeric(value) < Numeric(settings["min"])) {
      return false;
    }
    if "max" in settings && (!IsNumeric(settings["max"]) || Numeric(value) > Numeric(settings["max"])) {
      return false;
    }
    return true;
  }

  /** Lines 214-224 for one input. */
  method CheckBuilt(objects: Objects, nodes: Graph, schema: Schema, value: Json) returns (ok: bool)
    ensures ok <==> InputBuilds(objects, nodes, schema, value)
  {
    hide ScalarAccepted, Same;
    if value.List? && |value.items| == 2 && value.items[0].Text? {
      var source, slot := value.items[0].text, value.items[1];
      if source !in nodes || !slot.Int? || slot.number < 0 {
        return false;
      }
      var className := nodes[source].className;
      if className !in objects || objects[className].hosted {
        return false;
      }
      var outputs := objects[className].output;
      return slot.number < |outputs| && schema != [] && Same(outputs[slot.number], schema[0]);
    }
    ok := CheckScalar(value, schema);
  }

  /** The loop over all inputs of a new node. */
  method CheckInputs(objects: Objects, nodes: Graph, available: map<string, Schema>, inputs: map<string, Json>) returns (ok: bool)
    requires inputs.Keys <= available.Keys
    ensures ok <==> forall name <- inputs :: InputBuilds(objects, nodes, available[name], inputs[name])
  {
    hide InputBuilds;
    var left := inputs.Keys;
    while left != {}
      invariant left <= inputs.Keys
      invariant forall name <- inputs.Keys - left :: InputBuilds(objects, nodes, available[name], inputs[name])
      decreases |left|
    {
      var name :| name in left;
      ok := CheckBuilt(objects, nodes, available[name], inputs[name]);
      if !ok {
        return false;
      }
      left := left - {name};
    }
    return true;
  }

  class GraphBuilder {
    const objects: Objects
    var nodes: Graph
    ghost var order: seq<string>

    constructor (objects: Objects)
      ensures this.objects == objects && nodes == map[] && Valid()
    {
      this.objects := objects;
      nodes, order := map[], [];
    }

    ghost predicate Valid()
      reads this
    {
      && Built(objects, nodes, order) && |nodes| == |order|
      && forall i :: 0 <= i < |order| ==> order[i] == Decimal(i + 1)
    }

    /** Returns the link to the new node's first output, or nothing when an exception is raised. */
    method Add(className: string, values: map<string, Json>) returns (link: Option<Json>)
      requires Valid()
      modifies this
      ensures Valid()
      ensures link.Some? <==>
        && HasSchema(objects, className)
        && values.Keys <= Available(objects[className]).Keys
        && NodeBuilds(objects, old(nodes), className, WithDefaults(objects[className], values))
      ensures link.None? ==> nodes == old(nodes)
      ensures link.Some? ==>
        var key := Decimal(|old(nodes)| + 1);
        && link.value == List([Text(key), Int(0)]) && key !in old(nodes)
        && nodes == old(nodes)[key := Node(className, WithDefaults(objects[className], values))]
    {
      hide ScalarAccepted, Built, InputBuilds, MayBeAbsent;
      if !HasSchema(objects, className) {
        return None;
      }
      var spec := objects[className];
      if exists name <- values :: name !in Available(spec) {
        return None;
      }
      var filled := FillDefaults(spec, values);
      if filled.None? {
        return None;
      }
      var inputs := filled.value;
      DefaultsPointwise(spec, values);
      var ok := CheckInputs(objects, nodes, Available(spec), inputs);
      if !ok {
        return None;
      }
      var key := Append(Node(className, inputs));
      return Some(List([Text(key), Int(0)]));
    }

    /** Numbers the node and keeps it. */
    method Append(node: Node) returns (key: string)
      requires Valid() && NodeBuilds(objects, nodes, node.className, node.inputs)
      modifies `nodes, `order
      ensures Valid() && key == Decimal(|old(nodes)| + 1) && key !in old(nodes) && nodes == old(nodes)[key := node]
    {
      hide Built, NodeBuilds, Decimal;
      key := Decimal(|nodes| + 1);
      NextKeyIsNew(order);
      AddingKeepsBuilt(objects, nodes, order, key, node);
      nodes, order := nodes[key := node], order + [key];
    }
  }

  lemma EarlierStays(nodes: Graph, order: seq<string>, key: string, node: Node, n: nat)
    requires forall id :: id in nodes <==> id in order
    requires key !in nodes && n <= |order|
    ensures Earlier(nodes[key := node], order + [key], n) == Earlier(nodes, order, n)
  {
    assert (order + [key])[..n] == order[..n];
  }

  lemma NextKeyIsNew(order: seq<string>)
    requires forall i :: 0 <= i < |order| ==> order[i] == Decimal(i + 1)
    ensures Decimal(|order| + 1) !in order
  {
    forall i | 0 <= i < |order| ensures order[i] != Decimal(|order| + 1) {
      if order[i] == Decimal(|order| + 1) {
        DecimalIsInjective(i + 1, |order| + 1);
      }
    }
  }

  lemma AddingKeepsBuilt(objects: Objects, nodes: Graph, order: seq<string>, key: string, node: Node)
    requires Built(objects, nodes, order) && key !in order
    requires NodeBuilds(objects, nodes, node.className, node.inputs)
    ensures key !in nodes && Built(objects, nodes[key := node], order + [key])
  {
    hide NodeBuilds;
    var after, longer := nodes[key := node], order + [key];
    forall i | 0 <= i < |longer|
      ensures NodeBuilds(objects, Earlier(after, longer, i), after[longer[i]].className, after[longer[i]].inputs)
    {
      EarlierStays(nodes, order, key, node, if i < |order| then i else |order|);
      assert Earlier(nodes, order, |order|) == nodes;
    }
  }

  // ---- What the builder makes, the validator accepts ----

  /** Names that are required and optional at once are also right by the schema the validator uses. */
  ghost predicate ClashesHarmless(graph: Graph, objects: Objects) {
    forall id <- graph :: graph[id].className in objects ==>
      var spec := objects[graph[id].className];
      forall name <- graph[id].inputs :: name in spec.required && name in spec.optional ==>
        ValueAccepted(graph, objects, spec.required[name], graph[id].inputs[name])
  }

  ghost predicate NoClashes(objects: Objects) {
    forall className <- objects :: objects[className].required.Keys !! objects[className].optional.Keys
  }

  /** An input the builder took by some schema passes the validator's check by the same schema. */
  lemma BuiltInputIsAccepted(objects: Objects, earlier: Graph, graph: Graph, schema: Schema, value: Json)
    requires InputBuilds(objects, earlier, schema, value)
    requires forall id <- earlier :: id in graph && graph[id] == earlier[id]
    ensures ValueAccepted(graph, objects, schema, value)
    ensures IsLink(value) ==> value.items[0].text in earlier
  {
    if IsLink(value) && KindOf(schema).Text? {
      var output := objects[graph[value.items[0].text].className].output[value.items[1].number];
      if output.Text? {
        assert KindOf(schema).text == output.text;
        SameTypesAreCompatible(output.text);
      }
    }
  }

  lemma BuiltNodeIsAccepted(objects: Objects, earlier: Graph, graph: Graph, node: Node)
    requires NodeBuilds(objects, earlier, node.className, node.inputs)
    requires forall id <- earlier :: id in graph && graph[id] == earlier[id]
    ensures var spec := objects[node.className];
      NodeAccepted(graph, objects, node) <==>
        forall name <- node.inputs :: name in spec.required && name in spec.optional ==>
          ValueAccepted(graph, objects, spec.required[name], node.inputs[name])
    ensures Sources(objects, node) <= earlier.Keys
  {
    forall name | name in node.inputs
      ensures ValueAccepted(graph, objects, Available(objects[node.className])[name], node.inputs[name])
      ensures IsLink(node.inputs[name]) ==> node.inputs[name].items[0].text in earlier
    {
      BuiltInputIsAccepted(objects, earlier, graph, Available(objects[node.className])[name], node.inputs[name]);
    }
  }

  /** Nodes link only to nodes added before them. */
  lemma BuiltLinksBackwards(objects: Objects, graph: Graph, order: seq<string>, id: string, source: string)
    requires Built(objects, graph, order) && id in graph && source in Sources(objects, graph[id])
    ensures source in graph && source in order && IndexOf(order, source) < IndexOf(order, id)
  {
    hide NodeAccepted, Sources, NodeBuilds;
    var i := IndexOf(order, id);
    BuiltNodeIsAccepted(objects, Earlier(graph, order, i), graph, graph[id]);
    assert source in order[..i];
    var k :| 0 <= k < i && order[..i][k] == source;
    FirstIndex(order, source, k);
  }

  lemma BuiltIsAcyclic(objects: Objects, graph: Graph, order: seq<string>)
    requires Built(objects, graph, order)
    ensures !HasCycle(DependenciesOf(graph, objects))
  {
    assert forall id :: id in graph <==> id in order;
    hide Built, Sources, HasCycle, IndexOf, Ranked, DependenciesOf;
    var rank := map id | id in graph :: IndexOf(order, id);
    forall id, source | id in graph && source in Sources(objects, graph[id])
      ensures source in graph && rank[source] < rank[id]
    {
      BuiltLinksBackwards(objects, graph, order, id, source);
    }
    RanksSources(objects, graph, rank);
    RankedIsAcyclic(DependenciesOf(graph, objects), rank);
  }

  lemma RanksSources(objects: Objects, graph: Graph, rank: map<string, nat>)
    requires rank.Keys == graph.Keys
    requires forall id, source | id in graph && source in Sources(objects, graph[id]) :: source in graph && rank[source] < rank[id]
    ensures DependenciesOf(graph, objects).Keys == graph.Keys
    ensures Ranked(DependenciesOf(graph, objects), graph.Keys, rank)
  {
    hide Sources;
  }

  /**
   A graph made by add calls alone is accepted if and only if some node is an output node and
   names that are required and optional at once do no harm; without such names, the first is enough.
   */
  lemma BuilderRefinesValidator(objects: Objects, graph: Graph, order: seq<string>)
    requires Built(objects, graph, order)
    ensures ValidWorkflow(graph, objects) <==>
      (exists id <- graph :: IsOutputNode(objects, graph[id])) && ClashesHarmless(graph, objects)
    ensures NoClashes(objects) ==> ClashesHarmless(graph, objects)
  {
    forall id | id in graph
      ensures graph[id].className in objects
      ensures var spec := objects[graph[id].className];
        NodeAccepted(graph, objects, graph[id]) <==>
          forall name <- graph[id].inputs :: name in spec.required && name in spec.optional ==>
            ValueAccepted(graph, objects, spec.required[name], graph[id].inputs[name])
    {
      BuiltNodeIsAccepted(objects, Earlier(graph, order, IndexOf(order, id)), graph, graph[id]);
    }
    BuiltIsAcyclic(objects, graph, order);
  }

  /** A name that is required and optional at once can make the validator refuse what the builder made. */
  lemma ClashCanBeRefused()
    ensures var spec := Specification(false, true, map["x" := [List([Text("a")])]], map["x" := [List([Text("b")])]], []);
      var objects, graph := map["Save" := spec], map["1" := Node("Save", map["x" := Text("b")])];
      && Built(objects, graph, ["1"]) && IsOutputNode(objects, graph["1"])
      && !ValidWorkflow(graph, objects)
  {
    var spec := Specification(false, true, map["x" := [List([Text("a")])]], map["x" := [List([Text("b")])]], []);
    var objects, graph := map["Save" := spec], map["1" := Node("Save", map["x" := Text("b")])];
    var optional: seq<Json> := [Text("b")];
    assert Among(Text("b"), optional) by {
      assert Same(Text("b"), optional[0]);
    }
    assert !ValueAccepted(graph, objects, spec.required["x"], Text("b"));
    assert SchemaFor(spec, "x") == Some(spec.required["x"]);
    assert !NodeAccepted(graph, objects, graph["1"]);
  }
}

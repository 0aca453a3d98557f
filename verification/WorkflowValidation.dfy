/**
 The checks a workflow graph must pass before it is submitted
 (reference/diffusers/comfyui_runtime.py, validate_workflow).
 */
module WorkflowValidation {
  import opened Options
  import opened Texts
  import opened Json
  import opened WorkflowGraph

  /** A schema is the JSON list that describes one input: its kind, then optional settings. */
  type Schema = seq<Json>

  datatype Specification = Specification(
    hosted: bool, outputNode: bool,
    required: map<string, Schema>, optional: map<string, Schema>, output: seq<Json>)

  /** The installed node classes. */
  type Objects = map<string, Specification>

  datatype Node = Node(className: string, inputs: map<string, Json>)

  type Graph = map<string, Node>

  function SettingsOf(schema: Schema): map<string, Json> {
    if |schema| > 1 && schema[1].Object? then schema[1].fields else map[]
  }

  /** A required input that expands into optional numbered inputs may be absent. */
  predicate MayBeAbsent(schema: Schema) {
    && |schema| > 1 && schema[0] == Text("COMFY_AUTOGROW_V3") && schema[1].Object?
    && "template" in schema[1].fields && schema[1].fields["template"].Object?
    && "min" in schema[1].fields["template"].fields
    && Same(schema[1].fields["template"].fields["min"], Int(0))
  }

  /** required.get(name, optional.get(name)) */
  function SchemaFor(spec: Specification, name: string): Option<Schema> {
    if name in spec.required then Some(spec.required[name])
    else if name in spec.optional then Some(spec.optional[name])
    else None
  }

  /** The kind an input is checked against; a combo box with listed options is those options. */
  function KindOf(schema: Schema): Json {
    if schema == [] then Null
    else if schema[0] == Text("COMBO") && "options" in SettingsOf(schema) && SettingsOf(schema)["options"].List? then
      SettingsOf(schema)["options"]
    else schema[0]
  }

  predicate IsLink(value: Json) {
    value.List? && |value.items| == 2 && value.items[0].Text? && (value.items[1].Int? || value.items[1].Bool?)
  }

  // ---- Comma-separated type lists ----

  function Split(text: string, separator: char): (parts: seq<string>)
    ensures parts != []
  {
    if text == "" then [""]
    else
      var rest := Split(text[1..], separator);
      if text[0] == separator then [""] + rest else [[text[0]] + rest[0]] + rest[1..]
  }

  function Types(text: string): set<string> {
    set part | part in Split(text, ',') :: Strip(part)
  }

  /** Two type lists are compatible when they share a type or either holds the wildcard. */
  predicate Compatible(expected: string, supplied: string) {
    "*" in Types(expected) + Types(supplied) || Types(expected) * Types(supplied) != {}
  }

  lemma SameTypesAreCompatible(text: string)
    ensures Compatible(text, text)
  {
    var part := Split(text, ',')[0];
    assert Strip(part) in Types(text) * Types(text);
  }

  lemma {:induction false} SplitWithout(text: string)
    requires ',' !in text
    ensures Split(text, ',') == [text]
  {
    if text != "" {
      SplitWithout(text[1..]);
      assert text == [text[0]] + text[1..];
    }
  }

  lemma {:induction false} SplitAtComma(front: string, back: string)
    ensures Split(front + "," + back, ',') == Split(front, ',') + Split(back, ',')
  {
    var text := front + "," + back;
    if front == "" {
      assert text[1..] == back;
    } else {
      assert text[1..] == front[1..] + "," + back;
      SplitAtComma(front[1..], back);
    }
  }

  /** Splitting undoes joining. */
  lemma {:induction false} SplitJoined(names: seq<string>)
    requires names != [] && forall name <- names :: ',' !in name
    ensures Split(Join(names), ',') == names
  {
    var init, last := names[..|names| - 1], names[|names| - 1];
    assert last in names && names == init + [last];
    SplitWithout(last);
    if |names| > 1 {
      assert forall name <- init :: name in names;
      SplitJoined(init);
      SplitAtComma(Join(init), last);
    }
  }

  lemma TypesOfNames(names: seq<string>)
    requires names != [] && forall name <- names :: ',' !in name
    ensures forall kind :: kind in Types(Join(names)) <==> exists name <- names :: Strip(name) == kind
  {
    SplitJoined(names);
    hide Strip, Split, Join;
  }

  lemma CompatibleMeans(expected: string, supplied: string)
    ensures Compatible(expected, supplied) <==>
      "*" in Types(expected) || "*" in Types(supplied) || exists kind :: kind in Types(expected) && kind in Types(supplied)
  {
    hide Types;
    if Types(expected) * Types(supplied) != {} {
      var kind :| kind in Types(expected) * Types(supplied);
    }
    if kind :| kind in Types(expected) && kind in Types(supplied) {
      assert kind in Types(expected) * Types(supplied);
    }
  }

  /** Lists of type names are compatible exactly when they share a name or one of them holds the wildcard. */
  lemma CompatibleExactly(expected: seq<string>, supplied: seq<string>)
    requires expected != [] && supplied != []
    requires (forall name <- expected :: ',' !in name) && forall name <- supplied :: ',' !in name
    ensures Compatible(Join(expected), Join(supplied)) <==>
      || (exists a <- expected, b <- supplied :: Strip(a) == Strip(b))
      || (exists name <- expected :: Strip(name) == "*")
      || (exists name <- supplied :: Strip(name) == "*")
  {
    TypesOfNames(expected);
    TypesOfNames(supplied);
    hide Strip, Types, Join;
    hide Compatible;
    CompatibleMeans(Join(expected), Join(supplied));
    if kind :| kind in Types(Join(expected)) && kind in Types(Join(supplied)) {
      var a :| a in expected && Strip(a) == kind;
      var b :| b in supplied && Strip(b) == kind;
      assert Strip(a) == Strip(b);
    }
    if a, b :| a in expected && b in supplied && Strip(a) == Strip(b) {
      assert Strip(a) in Types(Join(expected)) && Strip(a) in Types(Join(supplied));
    }
    if name :| name in expected && Strip(name) == "*" {
      assert "*" in Types(Join(expected));
    }
    if name :| name in supplied && Strip(name) == "*" {
      assert "*" in Types(Join(supplied));
    }
  }

  lemma OneType(text: string)
    requires ',' !in text && Strip(text) == text
    ensures forall kind :: kind in Types(text) <==> kind == text
  {
    SplitWithout(text);
    hide Split, Strip;
  }

  /** One name fits another only if they are equal or one is the wildcard. */
  lemma NamesCompatibleExactly(expected: string, supplied: string)
    requires ',' !in expected && ',' !in supplied && Strip(expected) == expected && Strip(supplied) == supplied
    ensures Compatible(expected, supplied) <==> expected == supplied || expected == "*" || supplied == "*"
  {
    OneType(expected);
    OneType(supplied);
    CompatibleMeans(expected, supplied);
    hide Compatible, Types, Strip;
    assert expected in Types(expected) && supplied in Types(supplied);
    assert "*" in Types(expected) <==> expected == "*";
    assert "*" in Types(supplied) <==> supplied == "*";
    if kind :| kind in Types(expected) && kind in Types(supplied) {
      assert kind == expected && kind == supplied;
    }
  }

  // ---- One node ----

  predicate LinkAccepted(graph: Graph, objects: Objects, kind: Json, link: Json)
    requires IsLink(link)
  {
    var source, slot := link.items[0].text, link.items[1];
    && source in graph && slot.Int? && slot.number >= 0
    && graph[source].className in objects
    && var outputs := objects[graph[source].className].output;
       slot.number < |outputs|
       && (kind.Text? && outputs[slot.number].Text? ==> Compatible(kind.text, outputs[slot.number].text))
  }

  predicate ValueAccepted(graph: Graph, objects: Objects, schema: Schema, value: Json) {
    var kind := KindOf(schema);
    if IsLink(value) then LinkAccepted(graph, objects, kind, value)
    else kind.List? ==> Among(value, kind.items)
  }

  predicate NodeAccepted(graph: Graph, objects: Objects, node: Node) {
    && node.className in objects
    && var spec := objects[node.className];
       && !spec.hosted
       && (forall name <- spec.required :: name in node.inputs || MayBeAbsent(spec.required[name]))
       && (forall name <- node.inputs :: SchemaFor(spec, name).Some? ==>
             ValueAccepted(graph, objects, SchemaFor(spec, name).value, node.inputs[name]))
  }

  predicate IsOutputNode(objects: Objects, node: Node) {
    node.className in objects && objects[node.className].outputNode
  }

  /** The nodes an accepted node takes declared inputs from; undeclared inputs are not looked at. */
  function Sources(objects: Objects, node: Node): set<string> {
    if node.className !in objects then {}
    else
      set name | name in node.inputs && SchemaFor(objects[node.className], name).Some? && IsLink(node.inputs[name])
        :: node.inputs[name].items[0].text
  }

  function DependenciesOf(graph: Graph, objects: Objects): Dependencies {
    map id | id in graph :: Sources(objects, graph[id])
  }

  lemma AcceptedNodesAreClosed(graph: Graph, objects: Objects)
    requires forall id <- graph :: NodeAccepted(graph, objects, graph[id])
    ensures Closed(DependenciesOf(graph, objects))
  {
    forall id, source | id in graph && source in Sources(objects, graph[id])
      ensures source in graph
    {
      var name :| name in graph[id].inputs && SchemaFor(objects[graph[id].className], name).Some?
        && IsLink(graph[id].inputs[name]) && graph[id].inputs[name].items[0].text == source;
      assert ValueAccepted(graph, objects, SchemaFor(objects[graph[id].className], name).value, graph[id].inputs[name]);
    }
  }

  // ---- The loops over one node ----

  /** Lines 149-176 for one input with a schema; false stands for the exception. */
  method CheckInput(graph: Graph, objects: Objects, schema: Schema, value: Json) returns (ok: bool)
    ensures ok <==> ValueAccepted(graph, objects, schema, value)
  {
    hide Compatible, Among;
    var kind := if schema == [] then Null else schema[0];
    if kind == Text("COMBO") && |schema| > 1 && schema[1].Object? && "options" in schema[1].fields
       && schema[1].fields["options"].List? {
      kind := schema[1].fields["options"];
    }
    if value.List? && |value.items| == 2 && value.items[0].Text? && (value.items[1].Int? || value.items[1].Bool?) {
      var source, slot := value.items[0].text, value.items[1];
      if source !in graph || slot.Bool? || slot.number < 0 {
        return false;
      }
      if graph[source].className !in objects {
        return false;
      }
      var outputs := objects[graph[source].className].output;
      if slot.number >= |outputs| {
        return false;
      }
      var supplied := outputs[slot.number];
      return !(kind.Text? && supplied.Text?) || Compatible(kind.text, supplied.text);
    }
    return !kind.List? || Among(value, kind.items);
  }

  /** Whether every required input is there or may be absent. */
  method CheckRequired(spec: Specification, node: Node) returns (ok: bool)
    ensures ok <==> forall name <- spec.required :: name in node.inputs || MayBeAbsent(spec.required[name])
  {
    hide Same;
    var left := spec.required.Keys;
    while left != {}
      invariant left <= spec.required.Keys
      invariant forall name <- spec.required.Keys - left :: name in node.inputs || MayBeAbsent(spec.required[name])
      decreases |left|
    {
      var name :| name in left;
      if name !in node.inputs {
        var schema := spec.required[name];
        if !(|schema| > 1 && schema[0] == Text("COMFY_AUTOGROW_V3") && schema[1].Object?) {
          return false;
        }
        var settings := schema[1].fields;
        if !("template" in settings && settings["template"].Object? && "min" in settings["template"].fields
             && Same(settings["template"].fields["min"], Int(0))) {
          return false;
        }
      }
      left := left - {name};
    }
    return true;
  }

  /** Lines 133-176 for one node: its sources, or nothing when an exception is raised. */
  method CheckNode(graph: Graph, objects: Objects, node: Node) returns (sources: Option<set<string>>)
    ensures sources.Some? <==> NodeAccepted(graph, objects, node)
    ensures sources.Some? ==> sources.value == Sources(objects, node)
  {
    hide ValueAccepted, MayBeAbsent;
    if node.className !in objects || objects[node.className].hosted {
      return None;
    }
    var spec := objects[node.className];
    var complete := CheckRequired(spec, node);
    if !complete {
      return None;
    }
    var found: set<string> := {};
    var left := node.inputs.Keys;
    while left != {}
      invariant left <= node.inputs.Keys
      invariant forall name <- node.inputs.Keys - left :: SchemaFor(spec, name).Some? ==>
        ValueAccepted(graph, objects, SchemaFor(spec, name).value, node.inputs[name])
      invariant found == set name | name in node.inputs.Keys - left && SchemaFor(spec, name).Some? && IsLink(node.inputs[name])
        :: node.inputs[name].items[0].text
      decreases |left|
    {
      var name :| name in left;
      var value := node.inputs[name];
      var schema := if name in spec.required then Some(spec.required[name])
                    else if name in spec.optional then Some(spec.optional[name]) else None;
      if schema.Some? {
        var ok := CheckInput(graph, objects, schema.value, value);
        if !ok {
          return None;
        }
        if value.List? && |value.items| == 2 && value.items[0].Text? && (value.items[1].Int? || value.items[1].Bool?) {
          found := found + {value.items[0].text};
        }
      }
      left := left - {name};
    }
    return Some(found);
  }

  // ---- The whole graph ----

  datatype Verdict = Accepted | InvalidNode | NoOutput | Cyclic

  ghost predicate ValidWorkflow(graph: Graph, objects: Objects) {
    && (forall id <- graph :: NodeAccepted(graph, objects, graph[id]))
    && (exists id <- graph :: IsOutputNode(objects, graph[id]))
    && !HasCycle(DependenciesOf(graph, objects))
  }

  lemma KnownClass(graph: Graph, objects: Objects, node: Node)
    requires NodeAccepted(graph, objects, node)
    ensures node.className in objects && (IsOutputNode(objects, node) <==> objects[node.className].outputNode)
  {
  }

  method ValidateWorkflow(graph: Graph, objects: Objects) returns (verdict: Verdict)
    ensures verdict == Accepted <==> ValidWorkflow(graph, objects)
    ensures verdict == InvalidNode <==> exists id <- graph :: !NodeAccepted(graph, objects, graph[id])
    ensures verdict == NoOutput ==> !exists id <- graph :: IsOutputNode(objects, graph[id])
    ensures verdict == Cyclic ==> HasCycle(DependenciesOf(graph, objects))
  {
    hide NodeAccepted, Sources, IsOutputNode, HasCycle;
    var dependencies: Dependencies := map[];
    var outputs := 0;
    var left := graph.Keys;
    while left != {}
      invariant left <= graph.Keys && dependencies.Keys == graph.Keys - left
      invariant forall id <- dependencies :: NodeAccepted(graph, objects, graph[id])
      invariant forall id <- dependencies :: dependencies[id] == Sources(objects, graph[id])
      invariant outputs > 0 <==> exists id <- dependencies :: IsOutputNode(objects, graph[id])
      invariant outputs >= 0
      decreases |left|
    {
      var id :| id in left;
      var sources := CheckNode(graph, objects, graph[id]);
      if sources.None? {
        return InvalidNode;
      }
      KnownClass(graph, objects, graph[id]);
      if objects[graph[id].className].outputNode {
        outputs := outputs + 1;
      }
      dependencies := dependencies[id := sources.value];
      left := left - {id};
    }
    assert dependencies == DependenciesOf(graph, objects);
    if outputs == 0 {
      return NoOutput;
    }
    AcceptedNodesAreClosed(graph, objects);
    var acyclic := CheckAcyclic(dependencies);
    return if acyclic then Accepted else Cyclic;
  }
}

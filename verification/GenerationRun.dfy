/**
 Running a pipeline over mutable host lists and arrays
 (reference/diffusers/generation_composition.py, _snapshot and GenerationPipeline.run).
 */
module GenerationRun {
  import opened Options
  import opened HostPorts
  import opened GenerationComposition

  /** What a mutable host object holds: a list of texts or an array. */
  datatype Content = Listed(items: seq<Item>) | Typed(typed: TypedArray)

  /** A list or an array in memory: everything about it, its shape and type included, can be overwritten. */
  class HostObject {
    var content: Content

    constructor (content: Content)
      ensures this.content == content
    {
      this.content := content;
    }
  }

  /** Texts and tuples of texts are immutable. */
  datatype HostValue = HText(text: string) | HTuple(items: seq<Item>) | HObject(ref: HostObject) | HForeign

  type Named = map<string, HostValue>

  function ContentOf(value: HostValue): Value
    reads if value.HObject? then {value.ref} else {}
  {
    match value
    case HText(text) => Text(text)
    case HTuple(items) => Batch(items)
    case HObject(ref) => if ref.content.Listed? then Batch(ref.content.items) else Array(ref.content.typed)
    case HForeign => Foreign
  }

  function ObjectsOf(values: Named): set<HostObject> {
    set name | name in values && values[name].HObject? :: values[name].ref
  }

  function ContentsOf(values: Named): map<string, Value>
    reads ObjectsOf(values)
  {
    map name | name in values :: ContentOf(values[name])
  }

  ghost function StoredObjects(store: Store<HostValue>): set<HostObject> {
    set stage, name | stage in store && name in store[stage] && store[stage][name].HObject? :: store[stage][name].ref
  }

  ghost function StoredContents(store: Store<HostValue>): Store<Value>
    reads StoredObjects(store)
  {
    map stage | stage in store :: map name | name in store[stage] :: ContentOf(store[stage][name])
  }

  method Snapshot(value: HostValue) returns (copy: HostValue)
    ensures ContentOf(copy) == ContentOf(value)
    ensures copy.HObject? ==> fresh(copy.ref)
  {
    match value
    case HObject(ref) =>
      var made := new HostObject(ref.content);
      copy := HObject(made);
    case _ =>
      copy := value;
  }

  /** A snapshot of every value; no object in it existed before. */
  method SnapshotAll(values: Named) returns (copies: Named)
    ensures ContentsOf(copies) == old(ContentsOf(values))
    ensures fresh(ObjectsOf(copies))
  {
    copies := map[];
    ghost var contents := ContentsOf(values);
    var left := values.Keys;
    while left != {}
      invariant copies.Keys == values.Keys - left && left <= values.Keys
      invariant forall name <- copies :: copies[name].HObject? ==> fresh(copies[name].ref)
      invariant forall name <- copies :: ContentOf(copies[name]) == contents[name]
      decreases |left|
    {
      var name :| name in left;
      var copy := Snapshot(values[name]);
      assert ContentOf(copy) == contents[name];
      copies := copies[name := copy];
      left := left - {name};
    }
  }

  /**
   A callback. What it returns has the contents its stage's function gives for the arguments'
   contents at the call, but it may write anything into the objects it was given now or has held
   before, may keep all of them, and may return any of them, the same one twice included.
   */
  method Invoke(stage: Stage, arguments: Named, held: set<HostObject>) returns (produced: Option<Named>, nowHeld: set<HostObject>)
    modifies held, ObjectsOf(arguments)
    ensures held + ObjectsOf(arguments) <= nowHeld && fresh(nowHeld - held - ObjectsOf(arguments))
    ensures var result := stage.execute(old(ContentsOf(arguments)));
      if result.None? then produced.None?
      else produced.Some? && ObjectsOf(produced.value) <= nowHeld && ContentsOf(produced.value) == result.value
  {
    var result := stage.execute(ContentsOf(arguments));
    Scribble(held + ObjectsOf(arguments));
    nowHeld := held + ObjectsOf(arguments);
    if result.None? {
      return None, nowHeld;
    }
    var made := Materialize(result.value);
    produced, nowHeld := Some(made), nowHeld + ObjectsOf(made);
  }

  method Scribble(objects: set<HostObject>)
    modifies objects
  {
    var left := objects;
    while left != {}
      invariant left <= objects
      decreases |left|
    {
      var target: HostObject :| target in left;
      target.content := *;
      left := left - {target};
    }
  }

  method Materialize(contents: map<string, Value>) returns (made: Named)
    ensures ContentsOf(made) == contents && fresh(ObjectsOf(made))
  {
    made := map[];
    var left := contents.Keys;
    while left != {}
      invariant made.Keys == contents.Keys - left && left <= contents.Keys
      invariant forall name <- made :: made[name].HObject? ==> fresh(made[name].ref)
      invariant forall name <- made :: ContentOf(made[name]) == contents[name]
      decreases |left|
    {
      var name :| name in left;
      var value: HostValue;
      match contents[name] {
        case Text(text) => value := HText(text);
        case Foreign => value := HForeign;
        case Batch(items) =>
          var mutable: bool := *;
          if mutable {
            var list := new HostObject(Listed(items));
            value := HObject(list);
          } else {
            value := HTuple(items);
          }
        case Array(typed) =>
          var copy := new HostObject(Typed(typed));
          value := HObject(copy);
      }
      made := made[name := value];
      left := left - {name};
    }
  }

  /** Nothing the stages can write to is stored on an edge. */
  ghost predicate Isolated(store: Store<HostValue>, held: set<HostObject>) {
    StoredObjects(store) !! held
  }

  lemma StoringContents(store: Store<HostValue>, stage: Option<string>, named: Named)
    ensures StoredContents(store[stage := named]) == StoredContents(store)[stage := ContentsOf(named)]
    ensures StoredObjects(store[stage := named]) <= StoredObjects(store) + ObjectsOf(named)
  {
  }

  lemma CallerContents(named: Named)
    ensures StoredContents(map[None := named]) == map[None := ContentsOf(named)]
    ensures StoredObjects(map[None := named]) <= ObjectsOf(named)
  {
  }

  lemma ResolvingContents(store: Store<HostValue>, source: Source)
    ensures Resolves(StoredContents(store), source) <==> Resolves(store, source)
    ensures Resolves(store, source) ==> Resolve(StoredContents(store), source) == ContentOf(Resolve(store, source))
  {
  }

  lemma PickedContents(values: Store<HostValue>, bindings: map<string, Source>)
    ensures AllResolve(StoredContents(values), bindings) <==> AllResolve(values, bindings)
    ensures AllResolve(values, bindings) ==>
      ContentsOf(Picked(values, bindings)) == Picked(StoredContents(values), bindings)
  {
    forall name | name in bindings
      ensures Resolves(StoredContents(values), bindings[name]) <==> Resolves(values, bindings[name])
      ensures Resolves(values, bindings[name]) ==>
        Resolve(StoredContents(values), bindings[name]) == ContentOf(Resolve(values, bindings[name]))
    {
      ResolvingContents(values, bindings[name]);
    }
  }

  /**
   One stage of run. The callback's writes reach neither the stored values nor, through a value
   it keeps, any later stage.
   */
  method RunStage(values: Store<HostValue>, stage: Stage, index: nat, held: set<HostObject>)
      returns (result: Result<Store<HostValue>, Failure>, nowHeld: set<HostObject>)
    requires Isolated(values, held)
    modifies held
    ensures held <= nowHeld && fresh(nowHeld - held)
    ensures StepFlow(old(StoredContents(values)), stage, index).Err? ==>
      result == Err(StepFlow(old(StoredContents(values)), stage, index).error)
    ensures StepFlow(old(StoredContents(values)), stage, index).Ok? ==>
      && result.Ok? && Isolated(result.value, nowHeld)
      && StoredContents(result.value) == StepFlow(old(StoredContents(values)), stage, index).value
    // The callback was called with exactly what the stage is bound to, and what it returned is stored.
    ensures result.Ok? ==>
      && Some(stage.name) in StoredContents(result.value)
      && Produces(old(StoredContents(values)), stage, StoredContents(result.value)[Some(stage.name)])
  {
    StepProduces(StoredContents(values), stage, index);
    hide AllAccept, AllResolve, Produces;
    PickedContents(values, stage.bindings);
    if !AllResolve(values, stage.bindings) {
      return Err(Unresolved(index)), held;
    }
    var arguments := SnapshotAll(Picked(values, stage.bindings));
    if !AllAccept(stage.inputs, ContentsOf(arguments)) {
      return Err(ArgumentRejected(index)), held;
    }
    var produced;
    produced, nowHeld := Invoke(stage, arguments, held);
    if produced.None? {
      return Err(StageRaised(index)), nowHeld;
    }
    if produced.value.Keys != stage.outputs.Keys {
      return Err(ProducedMismatch(index)), nowHeld;
    }
    if !AllAccept(stage.outputs, ContentsOf(produced.value)) {
      return Err(ProducedRejected(index)), nowHeld;
    }
    assert Isolated(values, nowHeld);
    var copies := SnapshotAll(produced.value);
    StoringContents(values, Some(stage.name), copies);
    result := Ok(values[Some(stage.name) := copies]);
  }

  /** The start of run: the caller's values are checked, then copied. */
  method Receive(p: Pipeline, inputs: Named) returns (result: Result<Store<HostValue>, Failure>)
    ensures match Flow(p, old(ContentsOf(inputs)), 0)
      case Err(failure) => result == Err(failure)
      case Ok(values) => result.Ok? && StoredContents(result.value) == values
    ensures result.Ok? ==> fresh(StoredObjects(result.value))
  {
    if inputs.Keys != p.inputs.Keys {
      return Err(InputsMismatch);
    }
    if !AllAccept(p.inputs, ContentsOf(inputs)) {
      return Err(InputRejected);
    }
    var copies := SnapshotAll(inputs);
    CallerContents(copies);
    result := Ok(map[None := copies]);
  }

  /** The end of run: every output is checked against the port it was declared with, and copied once more. */
  method Export(p: Pipeline, values: Store<HostValue>) returns (result: Result<Named, Failure>)
    ensures result.Ok? ==> fresh(ObjectsOf(result.value))
    ensures match Exported(p, old(StoredContents(values)))
      case Err(failure) => result == Err(failure)
      case Ok(outputs) => result.Ok? && ContentsOf(result.value) == outputs
  {
    hide AllAccept, AllResolve;
    var specs := Known(p, |p.stages|);
    PickedContents(values, p.outputs);
    if !AllResolve(values, p.outputs) || !AllResolve(specs, p.outputs) {
      return Err(OutputUnresolved);
    }
    var chosen := Picked(values, p.outputs);
    if !AllAccept(Picked(specs, p.outputs), ContentsOf(chosen)) {
      return Err(OutputRejected);
    }
    var copies := SnapshotAll(chosen);
    result := Ok(copies);
  }

  /**
   run, for a pipeline that validate accepted. Whatever the callbacks do to the objects in `held`,
   which may include the caller's own, to their arguments and to what they return, the outcome is
   the copy-free meaning of the pipeline on the inputs' contents at the call, and no stage holds
   an object of the result.
   */
  method Run(p: Pipeline, inputs: Named, held: set<HostObject>) returns (result: Result<Named, Failure>, nowHeld: set<HostObject>)
    requires Preflight(p)
    modifies held
    ensures Evaluate(p, old(ContentsOf(inputs))).Err? ==> result == Err(Evaluate(p, old(ContentsOf(inputs))).error)
    ensures Evaluate(p, old(ContentsOf(inputs))).Ok? ==>
      result.Ok? && ContentsOf(result.value) == Evaluate(p, old(ContentsOf(inputs))).value
    // It succeeds exactly when the pipeline's equations have an admitted solution, and returns that one's outputs.
    ensures result.Ok? ==> exists store :: IsRun(p, old(ContentsOf(inputs)), store, ContentsOf(result.value))
    ensures forall store, outputs ::
      IsRun(p, old(ContentsOf(inputs)), store, outputs) ==> result.Ok? && ContentsOf(result.value) == outputs
    ensures result.Ok? ==> fresh(ObjectsOf(result.value)) && ObjectsOf(result.value) !! nowHeld
    ensures held <= nowHeld && fresh(nowHeld - held)
  {
    hide StepFlow, Preflight, ContentsOf, StoredContents, AllAccept, Exported, IsRun, Produces;
    nowHeld := held;
    ghost var contents := ContentsOf(inputs);
    EvaluatesExactly(p, contents);
    var received := Receive(p, inputs);
    if received.Err? {
      FlowFails(p, contents, 0, |p.stages|);
      return Err(received.error), nowHeld;
    }
    var values := received.value;
    for i := 0 to |p.stages|
      invariant held <= nowHeld && fresh(nowHeld - held)
      invariant Flow(p, contents, i).Ok? && StoredContents(values) == Flow(p, contents, i).value
      invariant Isolated(values, nowHeld)
    {
      var stage;
      stage, nowHeld := RunStage(values, p.stages[i], i, nowHeld);
      if stage.Err? {
        FlowFails(p, contents, i + 1, |p.stages|);
        return Err(stage.error), nowHeld;
      }
      values := stage.value;
    }
    result := Export(p, values);
  }
}

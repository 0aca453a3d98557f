/**
 An ordered list of generation stages with named, typed edges
 (reference/diffusers/generation_composition.py, class GenerationPipeline).

 What a run means without a heap: every edge carries a value. That runs over mutable arrays mean
 the same is proved in the module GenerationRun.
 */
module GenerationComposition {
  import opened Options
  import opened Texts
  import opened HostPorts

  const ARCHITECTURES := {"diffusion", "rectified-flow", "flow-matching", "autoregressive", "hybrid", "adapter"}

  /** A named output of a stage, or of the caller when there is no stage. */
  datatype Source = Source(stage: Option<string>, port: string)

  /**
   A stage runs once per run, so what its callback returns is a function of the contents it is
   given; None is an exception. What the callback does to arrays meanwhile is left open.
   */
  datatype Stage = Stage(
    name: string, architecture: string,
    inputs: map<string, Port>, outputs: map<string, Port>, bindings: map<string, Source>,
    execute: map<string, Value> -> Option<map<string, Value>>)

  datatype Pipeline = Pipeline(inputs: map<string, Port>, stages: seq<Stage>, outputs: map<string, Source>)

  datatype Failure =
    | InputsMismatch
    | InputRejected
    | Unresolved(stage: nat)
    | ArgumentRejected(stage: nat)
    | StageRaised(stage: nat)
    | ProducedMismatch(stage: nat)
    | ProducedRejected(stage: nat)
    | OutputUnresolved
    | OutputRejected

  /** What has been published so far, by stage name; None stands for the caller. */
  type Store<V> = map<Option<string>, map<string, V>>

  /** The membership half of _resolve. */
  predicate Resolves<V>(store: Store<V>, source: Source) {
    source.stage in store && source.port in store[source.stage]
  }

  function Resolve<V>(store: Store<V>, source: Source): V
    requires Resolves(store, source)
  {
    store[source.stage][source.port]
  }

  predicate PortsOk(ports: map<string, Port>) {
    forall name <- ports :: !IsBlank(name) && ports[name].WellFormed()
  }

  predicate AllAccept(ports: map<string, Port>, values: map<string, Value>) {
    forall name <- ports :: name in values && ports[name].Accepts(values[name])
  }

  // ---- Preflight ----

  predicate StageOk(known: Store<Port>, stage: Stage) {
    && !IsBlank(stage.name) && Some(stage.name) !in known
    && stage.architecture in ARCHITECTURES
    && PortsOk(stage.inputs) && PortsOk(stage.outputs) && stage.outputs != map[]
    && stage.bindings.Keys == stage.inputs.Keys
    && forall name <- stage.bindings ::
         Resolves(known, stage.bindings[name]) && Resolve(known, stage.bindings[name]).CanFeed(stage.inputs[name])
  }

  /** The ports that stages from number n on can bind to. */
  function Known(p: Pipeline, n: nat): Store<Port>
    requires n <= |p.stages|
  {
    if n == 0 then map[None := p.inputs]
    else Known(p, n - 1)[Some(p.stages[n - 1].name) := p.stages[n - 1].outputs]
  }

  /** Each of the first n stages binds only to what comes before it. */
  ghost predicate Bound(p: Pipeline, n: nat)
    requires n <= |p.stages|
  {
    n == 0 || (Bound(p, n - 1) && StageOk(Known(p, n - 1), p.stages[n - 1]))
  }

  lemma {:induction false} BoundPrefix(p: Pipeline, n: nat, i: nat)
    requires i <= n <= |p.stages| && Bound(p, n)
    ensures Bound(p, i)
  {
    hide StageOk;
    if i < n {
      BoundPrefix(p, n - 1, i);
    }
  }

  /** What validate accepts. */
  ghost predicate Preflight(p: Pipeline) {
    && PortsOk(p.inputs) && p.stages != [] && p.outputs != map[]
    && Bound(p, |p.stages|)
    && forall name <- p.outputs :: !IsBlank(name) && Resolves(Known(p, |p.stages|), p.outputs[name])
  }

  method Validate(p: Pipeline) returns (ok: bool)
    ensures ok <==> Preflight(p)
    ensures ok <==> WellComposed(p)
  {
    PreflightExactly(p);
    hide StageOk, Port.WellFormed, WellComposed;
    if !PortsOk(p.inputs) || p.stages == [] || p.outputs == map[] {
      return false;
    }
    var known: Store<Port> := map[None := p.inputs];
    for i := 0 to |p.stages|
      invariant known == Known(p, i)
      invariant Bound(p, i)
    {
      var stage := p.stages[i];
      if !StageOk(known, stage) {
        if Bound(p, |p.stages|) {
          BoundPrefix(p, |p.stages|, i + 1);
        }
        return false;
      }
      known := known[Some(stage.name) := stage.outputs];
    }
    ok := forall name <- p.outputs :: !IsBlank(name) && Resolves(known, p.outputs[name]);
  }

  // ---- What preflight means ----

  /** A port of the caller, or of one of the first n stages. */
  ghost predicate Offers(p: Pipeline, n: nat, source: Source, port: Port)
    requires n <= |p.stages|
  {
    || (source.stage == None && source.port in p.inputs && p.inputs[source.port] == port)
    || exists i :: 0 <= i < n && source.stage == Some(p.stages[i].name)
                   && source.port in p.stages[i].outputs && p.stages[i].outputs[source.port] == port
  }

  ghost predicate DifferentNames(p: Pipeline, n: nat)
    requires n <= |p.stages|
  {
    forall i, j :: 0 <= i < j < n ==> p.stages[i].name != p.stages[j].name
  }

  /** Every port is well formed and has a name that is not blank. */
  ghost predicate Declared(ports: map<string, Port>) {
    forall name <- ports :: (exists c <- name :: !IsSpace(c)) && ports[name].WellFormed()
  }

  lemma DeclaredExactly(ports: map<string, Port>)
    ensures Declared(ports) <==> PortsOk(ports)
  {
    hide Port.WellFormed;
  }

  /** Stage i is fed by compatible ports of the caller and of earlier stages. */
  ghost predicate Fed(p: Pipeline, i: nat)
    requires i < |p.stages|
  {
    var stage := p.stages[i];
    && !IsBlank(stage.name) && stage.architecture in ARCHITECTURES
    && Declared(stage.inputs) && Declared(stage.outputs) && stage.outputs != map[]
    && (forall name :: name in stage.bindings <==> name in stage.inputs)
    && forall name <- stage.bindings :: exists port :: Offers(p, i, stage.bindings[name], port) && port.CanFeed(stage.inputs[name])
  }

  /** Names of different stages differ, and every stage and every output is fed. */
  ghost predicate WellComposed(p: Pipeline) {
    && Declared(p.inputs) && p.stages != [] && p.outputs != map[]
    && DifferentNames(p, |p.stages|) && (forall i :: 0 <= i < |p.stages| ==> Fed(p, i))
    && forall name <- p.outputs :: !IsBlank(name) && exists port :: Offers(p, |p.stages|, p.outputs[name], port)
  }

  lemma {:induction false} KnownStages(p: Pipeline, n: nat, stage: Option<string>)
    requires n <= |p.stages|
    ensures stage in Known(p, n) <==> stage == None || exists i :: 0 <= i < n && stage == Some(p.stages[i].name)
  {
    if n > 0 {
      KnownStages(p, n - 1, stage);
      assert stage == Some(p.stages[n - 1].name) ==> exists i :: 0 <= i < n && stage == Some(p.stages[i].name);
    }
  }

  /** With different names, the table of known ports holds what is offered. */
  lemma {:induction false} KnownOffers(p: Pipeline, n: nat, source: Source, port: Port)
    requires n <= |p.stages| && DifferentNames(p, n)
    ensures Offers(p, n, source, port) <==> Resolves(Known(p, n), source) && Resolve(Known(p, n), source) == port
  {
    if n > 0 {
      KnownOffers(p, n - 1, source, port);
      assert source.stage == Some(p.stages[n - 1].name) ==> !Offers(p, n - 1, source, port);
    }
  }

  lemma NewName(p: Pipeline, i: nat)
    requires i < |p.stages| && DifferentNames(p, i)
    ensures Some(p.stages[i].name) !in Known(p, i) <==> DifferentNames(p, i + 1)
  {
    KnownStages(p, i, Some(p.stages[i].name));
    hide Known;
  }

  lemma FedExactly(p: Pipeline, i: nat)
    requires i < |p.stages| && DifferentNames(p, i)
    ensures StageOk(Known(p, i), p.stages[i]) <==> Fed(p, i) && DifferentNames(p, i + 1)
  {
    hide PortsOk, Declared, Port.CanFeed, Known, Offers;
    var stage := p.stages[i];
    NewName(p, i);
    DeclaredExactly(stage.inputs);
    DeclaredExactly(stage.outputs);
    hide DifferentNames;
    forall name | name in stage.bindings && name in stage.inputs
      ensures (Resolves(Known(p, i), stage.bindings[name]) && Resolve(Known(p, i), stage.bindings[name]).CanFeed(stage.inputs[name]))
         <==> exists port :: Offers(p, i, stage.bindings[name], port) && port.CanFeed(stage.inputs[name])
    {
      FeedsWhenOffered(p, i, stage.bindings[name], stage.inputs[name]);
    }
  }

  lemma FeedsWhenOffered(p: Pipeline, i: nat, source: Source, input: Port)
    requires i <= |p.stages| && DifferentNames(p, i)
    ensures (Resolves(Known(p, i), source) && Resolve(Known(p, i), source).CanFeed(input))
       <==> exists port :: Offers(p, i, source, port) && port.CanFeed(input)
    ensures Resolves(Known(p, i), source) <==> exists port :: Offers(p, i, source, port)
  {
    forall port ensures Offers(p, i, source, port) <==> Resolves(Known(p, i), source) && Resolve(Known(p, i), source) == port {
      KnownOffers(p, i, source, port);
    }
    hide Offers, Port.CanFeed, DifferentNames, Known;
    if Resolves(Known(p, i), source) {
      assert Offers(p, i, source, Resolve(Known(p, i), source));
    }
  }

  lemma {:induction false} BoundExactly(p: Pipeline, n: nat)
    requires n <= |p.stages|
    ensures Bound(p, n) <==> DifferentNames(p, n) && forall i :: 0 <= i < n ==> Fed(p, i)
  {
    hide StageOk, Fed;
    if n > 0 {
      BoundExactly(p, n - 1);
      if DifferentNames(p, n - 1) {
        FedExactly(p, n - 1);
      }
    }
  }

  /** The loop over the stages accepts exactly the well-composed pipelines. */
  lemma PreflightExactly(p: Pipeline)
    ensures Preflight(p) <==> WellComposed(p)
  {
    BoundExactly(p, |p.stages|);
    DeclaredExactly(p.inputs);
    hide Bound, Fed, PortsOk, Declared, Offers;
    if DifferentNames(p, |p.stages|) {
      forall name | name in p.outputs
        ensures Resolves(Known(p, |p.stages|), p.outputs[name]) <==> exists port :: Offers(p, |p.stages|, p.outputs[name], port)
      {
        FeedsWhenOffered(p, |p.stages|, p.outputs[name], Port("", "", [], "", "", ""));
      }
    }
  }

  // ---- What a run means ----

  predicate AllResolve<V>(store: Store<V>, bindings: map<string, Source>) {
    forall name <- bindings :: Resolves(store, bindings[name])
  }

  /** The values a set of bindings names. */
  function Picked<V>(store: Store<V>, bindings: map<string, Source>): map<string, V>
    requires AllResolve(store, bindings)
  {
    map name | name in bindings :: Resolve(store, bindings[name])
  }

  function StepFlow(values: Store<Value>, stage: Stage, index: nat): Result<Store<Value>, Failure> {
    if !AllResolve(values, stage.bindings) then Err(Unresolved(index))
    else
      var arguments := Picked(values, stage.bindings);
      if !AllAccept(stage.inputs, arguments) then Err(ArgumentRejected(index))
      else match stage.execute(arguments)
        case None => Err(StageRaised(index))
        case Some(produced) =>
          if produced.Keys != stage.outputs.Keys then Err(ProducedMismatch(index))
          else if !AllAccept(stage.outputs, produced) then Err(ProducedRejected(index))
          else Ok(values[Some(stage.name) := produced])
  }

  /** The values on all edges after the first n stages. */
  function Flow(p: Pipeline, inputs: map<string, Value>, n: nat): Result<Store<Value>, Failure>
    requires n <= |p.stages|
  {
    if n == 0 then
      if inputs.Keys != p.inputs.Keys then Err(InputsMismatch)
      else if !AllAccept(p.inputs, inputs) then Err(InputRejected)
      else Ok(map[None := inputs])
    else match Flow(p, inputs, n - 1)
      case Err(failure) => Err(failure)
      case Ok(values) => StepFlow(values, p.stages[n - 1], n - 1)
  }

  /** The pipeline's outputs, from the values on all edges. */
  function Exported(p: Pipeline, values: Store<Value>): Result<map<string, Value>, Failure> {
    var specs := Known(p, |p.stages|);
    if !AllResolve(values, p.outputs) || !AllResolve(specs, p.outputs) then
      Err(OutputUnresolved)
    else if !AllAccept(Picked(specs, p.outputs), Picked(values, p.outputs)) then
      Err(OutputRejected)
    else
      Ok(Picked(values, p.outputs))
  }

  /** The copy-free meaning of a run. */
  function Evaluate(p: Pipeline, inputs: map<string, Value>): Result<map<string, Value>, Failure> {
    match Flow(p, inputs, |p.stages|)
    case Err(failure) => Err(failure)
    case Ok(values) => Exported(p, values)
  }

  // ---- Preflight is sound ----

  /** Every published value is one its declared port accepts. */
  ghost predicate Typed(known: Store<Port>, values: Store<Value>) {
    && known.Keys == values.Keys
    && forall stage <- known :: known[stage].Keys == values[stage].Keys && AllAccept(known[stage], values[stage])
  }

  ghost predicate WellFormedPorts(known: Store<Port>) {
    forall stage <- known :: PortsOk(known[stage])
  }

  lemma {:induction false} KnownPortsWellFormed(p: Pipeline, n: nat)
    requires n <= |p.stages| && PortsOk(p.inputs) && Bound(p, n)
    ensures WellFormedPorts(Known(p, n))
  {
    hide Port.WellFormed, Port.CanFeed;
    if n > 0 {
      KnownPortsWellFormed(p, n - 1);
    }
  }

  /** Some argument has a size that its source left open and the stage does not take. */
  ghost predicate Narrowed(known: Store<Port>, values: Store<Value>, stage: Stage) {
    exists name <- stage.bindings ::
      && Resolves(known, stage.bindings[name]) && Resolves(values, stage.bindings[name]) && name in stage.inputs
      && Resolve(known, stage.bindings[name]).SizedDifferently(stage.inputs[name], Resolve(values, stage.bindings[name]))
  }

  lemma ArgumentIsTyped(known: Store<Port>, values: Store<Value>, source: Source, input: Port)
    requires WellFormedPorts(known) && Typed(known, values) && input.WellFormed()
    requires Resolves(known, source) && Resolve(known, source).CanFeed(input)
    ensures Resolves(values, source)
    ensures input.Accepts(Resolve(values, source)) <==> !Resolve(known, source).SizedDifferently(input, Resolve(values, source))
  {
    assert Resolve(known, source).WellFormed() && Resolve(known, source).Accepts(Resolve(values, source));
    ArgumentCheckIsSize(Resolve(known, source), input, Resolve(values, source));
  }

  /** The arguments of a preflighted stage resolve, and are refused exactly when one of them is narrowed. */
  lemma ArgumentsAreTyped(known: Store<Port>, values: Store<Value>, stage: Stage)
    requires StageOk(known, stage) && WellFormedPorts(known) && Typed(known, values)
    ensures AllResolve(values, stage.bindings)
    ensures AllAccept(stage.inputs, Picked(values, stage.bindings))
       <==> !Narrowed(known, values, stage)
  {
    hide Port.WellFormed, Port.Accepts, Port.CanFeed, Port.SizedDifferently;
    forall name | name in stage.bindings
      ensures Resolves(values, stage.bindings[name])
      ensures var source, value := Resolve(known, stage.bindings[name]), Resolve(values, stage.bindings[name]);
        stage.inputs[name].Accepts(value) <==> !source.SizedDifferently(stage.inputs[name], value)
    {
      ArgumentIsTyped(known, values, stage.bindings[name], stage.inputs[name]);
    }
  }

  lemma PublishedIsTyped(known: Store<Port>, values: Store<Value>, stage: Option<string>, ports: map<string, Port>, produced: map<string, Value>)
    requires Typed(known, values) && produced.Keys == ports.Keys && AllAccept(ports, produced)
    ensures Typed(known[stage := ports], values[stage := produced])
  {
  }

  /** One stage of a preflighted pipeline, given typed values, fails only for reasons preflight cannot see. */
  lemma StepIsTyped(known: Store<Port>, values: Store<Value>, stage: Stage, index: nat)
    requires StageOk(known, stage) && WellFormedPorts(known) && Typed(known, values)
    ensures StepFlow(values, stage, index).Ok? ==>
      Typed(known[Some(stage.name) := stage.outputs], StepFlow(values, stage, index).value)
    ensures StepFlow(values, stage, index).Err? ==>
      StepFlow(values, stage, index).error
        in {ArgumentRejected(index), StageRaised(index), ProducedMismatch(index), ProducedRejected(index)}
    ensures StepFlow(values, stage, index) == Err(ArgumentRejected(index)) <==> Narrowed(known, values, stage)
  {
    hide Port.WellFormed, Port.Accepts, Port.CanFeed;
    ArgumentsAreTyped(known, values, stage);
    if StepFlow(values, stage, index).Ok? {
      var arguments := Picked(values, stage.bindings);
      PublishedIsTyped(known, values, Some(stage.name), stage.outputs, stage.execute(arguments).value);
    }
  }

  /** After preflight a run never fails to resolve a binding, and every edge carries what its port declares. */
  lemma {:induction false} FlowIsTyped(p: Pipeline, inputs: map<string, Value>, n: nat)
    requires n <= |p.stages| && PortsOk(p.inputs) && Bound(p, n)
    ensures Flow(p, inputs, n).Ok? ==> Typed(Known(p, n), Flow(p, inputs, n).value)
    ensures Flow(p, inputs, n).Err? ==> var failure := Flow(p, inputs, n).error;
      !failure.Unresolved? && !failure.OutputUnresolved? && !failure.OutputRejected?
  {
    hide Port.WellFormed, Port.Accepts, Port.CanFeed, AllAccept, StepFlow;
    if n > 0 {
      FlowIsTyped(p, inputs, n - 1);
      KnownPortsWellFormed(p, n - 1);
      if Flow(p, inputs, n - 1).Ok? {
        var stage, values := p.stages[n - 1], Flow(p, inputs, n - 1).value;
        StepIsTyped(Known(p, n - 1), values, stage, n - 1);
        assert Flow(p, inputs, n) == StepFlow(values, stage, n - 1);
        assert Known(p, n) == Known(p, n - 1)[Some(stage.name) := stage.outputs];
      }
    }
  }

  lemma {:induction false} FlowFails(p: Pipeline, inputs: map<string, Value>, n: nat, i: nat)
    requires n <= i <= |p.stages| && Flow(p, inputs, n).Err?
    ensures Flow(p, inputs, i) == Err(Flow(p, inputs, n).error)
    decreases i - n
  {
    hide StepFlow, AllAccept;
    if n < i {
      FlowFails(p, inputs, n + 1, i);
    }
  }

  /** An argument is refused exactly where it is narrowed: the refusal names the stage that does so. */
  lemma {:induction false} RefusalIsNarrowing(p: Pipeline, inputs: map<string, Value>, n: nat, i: nat)
    requires n <= |p.stages| && PortsOk(p.inputs) && Bound(p, n)
    requires Flow(p, inputs, n) == Err(ArgumentRejected(i))
    ensures i < n && Flow(p, inputs, i).Ok? && Narrowed(Known(p, i), Flow(p, inputs, i).value, p.stages[i])
  {
    hide Port.WellFormed, Port.Accepts, Port.CanFeed, AllAccept, StepFlow, Narrowed;
    if n > 0 {
      if Flow(p, inputs, n - 1).Ok? {
        FlowIsTyped(p, inputs, n - 1);
        KnownPortsWellFormed(p, n - 1);
        StepIsTyped(Known(p, n - 1), Flow(p, inputs, n - 1).value, p.stages[n - 1], n - 1);
      } else {
        RefusalIsNarrowing(p, inputs, n - 1, i);
      }
    }
  }

  /** Every dimension that a stage fixes is already fixed by what feeds it. */
  predicate NeverNarrows(known: Store<Port>, stage: Stage) {
    forall name <- stage.bindings ::
      Resolves(known, stage.bindings[name]) && name in stage.inputs ==>
        Resolve(known, stage.bindings[name]).Fixes(stage.inputs[name])
  }

  /** After preflight only the caller's inputs, a stage's own output or a size left open can fail a run. */
  lemma PreflightIsSound(p: Pipeline, inputs: map<string, Value>)
    requires Preflight(p)
    ensures AllResolve(Known(p, |p.stages|), p.outputs)
    ensures Evaluate(p, inputs).Ok? ==> Evaluate(p, inputs).value.Keys == p.outputs.Keys
    ensures Evaluate(p, inputs).Ok? ==> AllAccept(Picked(Known(p, |p.stages|), p.outputs), Evaluate(p, inputs).value)
    ensures Evaluate(p, inputs).Err? ==> var failure := Evaluate(p, inputs).error;
      && !failure.Unresolved? && !failure.OutputUnresolved? && !failure.OutputRejected?
      && (failure.ArgumentRejected? ==>
            && failure.stage < |p.stages| && Flow(p, inputs, failure.stage).Ok?
            && Narrowed(Known(p, failure.stage), Flow(p, inputs, failure.stage).value, p.stages[failure.stage])
            && !NeverNarrows(Known(p, failure.stage), p.stages[failure.stage]))
  {
    hide Port.WellFormed, Port.Accepts, Port.CanFeed, StepFlow, Bound;
    FlowIsTyped(p, inputs, |p.stages|);
    if Flow(p, inputs, |p.stages|).Ok? {
      var known, values := Known(p, |p.stages|), Flow(p, inputs, |p.stages|).value;
      forall name | name in p.outputs
        ensures Resolves(values, p.outputs[name])
        ensures Resolve(known, p.outputs[name]).Accepts(Resolve(values, p.outputs[name]))
      {
        assert Resolves(known, p.outputs[name]);
      }
    } else if Flow(p, inputs, |p.stages|).error.ArgumentRejected? {
      RefusalIsNarrowing(p, inputs, |p.stages|, Flow(p, inputs, |p.stages|).error.stage);
    }
  }

  // ---- The equations of a run ----

  /** Called with exactly the values that its bindings name in the store, the stage returns this. */
  ghost predicate Produces(store: Store<Value>, stage: Stage, produced: map<string, Value>) {
    && (forall name <- stage.bindings ::
          stage.bindings[name].stage in store && stage.bindings[name].port in store[stage.bindings[name].stage])
    && stage.execute(map name | name in stage.bindings :: store[stage.bindings[name].stage][stage.bindings[name].port])
       == Some(produced)
  }

  /** The caller's inputs, and for every stage what it makes of the values it is bound to. */
  ghost predicate Solves(p: Pipeline, inputs: map<string, Value>, store: Store<Value>, n: nat)
    requires n <= |p.stages|
  {
    && (forall stage :: stage in store <==> stage == None || exists i :: 0 <= i < n && stage == Some(p.stages[i].name))
    && store[None] == inputs
    && forall i :: 0 <= i < n ==> Produces(store, p.stages[i], store[Some(p.stages[i].name)])
  }

  /** What is called `name` outside is what its source holds. */
  ghost predicate Outputs(p: Pipeline, store: Store<Value>, outputs: map<string, Value>) {
    && (forall name :: name in outputs <==> name in p.outputs)
    && forall name <- p.outputs ::
         && p.outputs[name].stage in store && p.outputs[name].port in store[p.outputs[name].stage]
         && outputs[name] == store[p.outputs[name].stage][p.outputs[name].port]
  }

  /** The stage is given what its ports accept, and returns what they accept. */
  ghost predicate StageAdmitted(store: Store<Value>, stage: Stage) {
    && (forall name <- stage.bindings :: name in stage.inputs && Resolves(store, stage.bindings[name])
                                         && stage.inputs[name].Accepts(Resolve(store, stage.bindings[name])))
    && Some(stage.name) in store
    && store[Some(stage.name)].Keys == stage.outputs.Keys && AllAccept(stage.outputs, store[Some(stage.name)])
  }

  /** The ports accept what the first n stages are given and what they return. */
  ghost predicate Admitted(p: Pipeline, inputs: map<string, Value>, store: Store<Value>, n: nat)
    requires n <= |p.stages|
  {
    && inputs.Keys == p.inputs.Keys && AllAccept(p.inputs, inputs)
    && forall i :: 0 <= i < n ==> StageAdmitted(store, p.stages[i])
  }

  /** What one stage adds to a store. */
  lemma StepProduces(values: Store<Value>, stage: Stage, index: nat)
    ensures StepFlow(values, stage, index).Ok? ==> var after := StepFlow(values, stage, index).value;
      && Some(stage.name) in after && after == values[Some(stage.name) := after[Some(stage.name)]]
      && Produces(values, stage, after[Some(stage.name)])
  {
    if StepFlow(values, stage, index).Ok? {
      SameArguments(values, stage);
    }
  }

  lemma SameArguments(values: Store<Value>, stage: Stage)
    requires AllResolve(values, stage.bindings)
    ensures Picked(values, stage.bindings)
         == map name | name in stage.bindings :: values[stage.bindings[name].stage][stage.bindings[name].port]
  {
  }

  /** Values under a new name change nothing for stages that were fed before. */
  lemma ProducesStays(store: Store<Value>, stage: Stage, produced: map<string, Value>, name: Option<string>, values: map<string, Value>)
    requires name !in store
    requires Produces(store, stage, produced)
    ensures Produces(store[name := values], stage, produced)
  {
    var larger := store[name := values];
    assert (map b | b in stage.bindings :: larger[stage.bindings[b].stage][stage.bindings[b].port])
        == (map b | b in stage.bindings :: store[stage.bindings[b].stage][stage.bindings[b].port]);
  }

  /** The values on the edges solve the equations of the stages that have run. */
  lemma {:induction false} FlowSolves(p: Pipeline, inputs: map<string, Value>, n: nat)
    requires n <= |p.stages| && DifferentNames(p, n)
    ensures Flow(p, inputs, n).Ok? ==> Solves(p, inputs, Flow(p, inputs, n).value, n)
  {
    hide StepFlow, AllAccept, Produces;
    if n > 0 && Flow(p, inputs, n).Ok? {
      FlowSolves(p, inputs, n - 1);
      var before, after, stage := Flow(p, inputs, n - 1).value, Flow(p, inputs, n).value, p.stages[n - 1];
      StepProduces(before, stage, n - 1);
      var produced := after[Some(stage.name)];
      assert Some(stage.name) !in before;
      ProducesStays(before, stage, produced, Some(stage.name), produced);
      forall i | 0 <= i < n - 1 ensures Produces(after, p.stages[i], after[Some(p.stages[i].name)]) {
        assert Some(p.stages[i].name) in before;
        ProducesStays(before, p.stages[i], before[Some(p.stages[i].name)], Some(stage.name), produced);
      }
    }
  }

  /** Stages that bind only backwards are determined one after another. */
  lemma {:induction false} SolutionsAgree(p: Pipeline, inputs: map<string, Value>, a: Store<Value>, b: Store<Value>, n: nat)
    requires n <= |p.stages| && Bound(p, n) && Solves(p, inputs, a, |p.stages|) && Solves(p, inputs, b, |p.stages|)
    ensures forall stage <- Known(p, n) :: stage in a && stage in b && a[stage] == b[stage]
  {
    hide StageOk, Produces, DifferentNames;
    if n > 0 {
      SolutionsAgree(p, inputs, a, b, n - 1);
      assert Produces(a, p.stages[n - 1], a[Some(p.stages[n - 1].name)]);
      assert Produces(b, p.stages[n - 1], b[Some(p.stages[n - 1].name)]);
      SameProduct(Known(p, n - 1), p.stages[n - 1], a, b);
    }
  }

  lemma SameProduct(known: Store<Port>, stage: Stage, a: Store<Value>, b: Store<Value>)
    requires StageOk(known, stage) && Some(stage.name) in a && Some(stage.name) in b
    requires forall other <- known :: other in a && other in b && a[other] == b[other]
    requires Produces(a, stage, a[Some(stage.name)]) && Produces(b, stage, b[Some(stage.name)])
    ensures a[Some(stage.name)] == b[Some(stage.name)]
  {
    hide Port.CanFeed, PortsOk;
    assert (map name | name in stage.bindings :: a[stage.bindings[name].stage][stage.bindings[name].port])
        == (map name | name in stage.bindings :: b[stage.bindings[name].stage][stage.bindings[name].port]);
  }

  /** The equations of a well-composed pipeline have at most one solution, and so have its outputs. */
  lemma SolutionIsUnique(p: Pipeline, inputs: map<string, Value>, a: Store<Value>, b: Store<Value>)
    requires Preflight(p) && Solves(p, inputs, a, |p.stages|) && Solves(p, inputs, b, |p.stages|)
    ensures a == b
    ensures forall x, y :: Outputs(p, a, x) && Outputs(p, b, y) ==> x == y
  {
    SolutionsAgree(p, inputs, a, b, |p.stages|);
    hide Bound, Produces, Known;
    forall stage | stage in a ensures stage in b && a[stage] == b[stage] {
      KnownStages(p, |p.stages|, stage);
    }
    SameStore(p, a, b);
  }

  lemma SameStore(p: Pipeline, a: Store<Value>, b: Store<Value>)
    requires (forall stage <- a :: stage in b && a[stage] == b[stage]) && forall stage <- b :: stage in a
    ensures a == b && forall x, y :: Outputs(p, a, x) && Outputs(p, b, y) ==> x == y
  {
    assert a.Keys == b.Keys;
    forall x, y | Outputs(p, a, x) && Outputs(p, b, y) ensures x == y {
      assert x.Keys == y.Keys;
    }
  }

  lemma StepAdmits(values: Store<Value>, stage: Stage, index: nat)
    ensures StepFlow(values, stage, index).Ok? ==> var produced := StepFlow(values, stage, index).value[Some(stage.name)];
      && AllResolve(values, stage.bindings) && AllAccept(stage.inputs, Picked(values, stage.bindings))
      && produced.Keys == stage.outputs.Keys && AllAccept(stage.outputs, produced)
  {
  }

  lemma StageAdmittedAfter(values: Store<Value>, stage: Stage, produced: map<string, Value>)
    requires Some(stage.name) !in values && stage.bindings.Keys == stage.inputs.Keys
    requires AllResolve(values, stage.bindings) && AllAccept(stage.inputs, Picked(values, stage.bindings))
    requires produced.Keys == stage.outputs.Keys && AllAccept(stage.outputs, produced)
    ensures StageAdmitted(values[Some(stage.name) := produced], stage)
  {
    hide Port.Accepts;
  }

  lemma AdmittedStays(store: Store<Value>, stage: Stage, name: Option<string>, values: map<string, Value>)
    requires StageAdmitted(store, stage) && name !in store
    ensures StageAdmitted(store[name := values], stage)
  {
    hide Port.Accepts;
  }

  lemma AdmittedGrows(p: Pipeline, inputs: map<string, Value>, before: Store<Value>, n: nat, produced: map<string, Value>)
    requires n < |p.stages| && Admitted(p, inputs, before, n) && Some(p.stages[n].name) !in before
    requires p.stages[n].bindings.Keys == p.stages[n].inputs.Keys && AllResolve(before, p.stages[n].bindings)
    requires AllAccept(p.stages[n].inputs, Picked(before, p.stages[n].bindings))
    requires produced.Keys == p.stages[n].outputs.Keys && AllAccept(p.stages[n].outputs, produced)
    ensures Admitted(p, inputs, before[Some(p.stages[n].name) := produced], n + 1)
  {
    var after, stage := before[Some(p.stages[n].name) := produced], p.stages[n];
    StageAdmittedAfter(before, stage, produced);
    hide StageAdmitted, AllAccept, AllResolve;
    forall i | 0 <= i < n ensures StageAdmitted(after, p.stages[i]) {
      AdmittedStays(before, p.stages[i], Some(stage.name), produced);
    }
  }

  lemma {:induction false} FlowStages(p: Pipeline, inputs: map<string, Value>, n: nat)
    requires n <= |p.stages|
    ensures Flow(p, inputs, n).Ok? ==> Flow(p, inputs, n).value.Keys == Known(p, n).Keys
  {
    hide StepFlow, AllAccept;
    if n > 0 && Flow(p, inputs, n).Ok? {
      FlowStages(p, inputs, n - 1);
      StepProduces(Flow(p, inputs, n - 1).value, p.stages[n - 1], n - 1);
    }
  }

  lemma LastBound(p: Pipeline, n: nat)
    requires 0 < n <= |p.stages| && Bound(p, n)
    ensures Bound(p, n - 1) && StageOk(Known(p, n - 1), p.stages[n - 1])
    ensures Some(p.stages[n - 1].name) !in Known(p, n - 1) && p.stages[n - 1].bindings.Keys == p.stages[n - 1].inputs.Keys
  {
    hide PortsOk, Port.CanFeed;
  }

  lemma LastStep(p: Pipeline, inputs: map<string, Value>, n: nat)
    requires 0 < n <= |p.stages| && Flow(p, inputs, n).Ok?
    ensures Flow(p, inputs, n - 1).Ok? && Flow(p, inputs, n) == StepFlow(Flow(p, inputs, n - 1).value, p.stages[n - 1], n - 1)
  {
    hide StepFlow, AllAccept;
  }

  lemma NothingRun(p: Pipeline, inputs: map<string, Value>)
    ensures Flow(p, inputs, 0).Ok? ==> Admitted(p, inputs, Flow(p, inputs, 0).value, 0)
  {
    hide AllAccept, StageAdmitted;
  }

  lemma {:induction false} FlowAdmits(p: Pipeline, inputs: map<string, Value>, n: nat)
    requires n <= |p.stages| && Bound(p, n)
    ensures Flow(p, inputs, n).Ok? ==> Admitted(p, inputs, Flow(p, inputs, n).value, n)
  {
    hide *;
    if n == 0 {
      NothingRun(p, inputs);
    } else if Flow(p, inputs, n).Ok? {
      LastBound(p, n);
      LastStep(p, inputs, n);
      FlowAdmits(p, inputs, n - 1);
      FlowStages(p, inputs, n - 1);
      var before, stage := Flow(p, inputs, n - 1).value, p.stages[n - 1];
      StepProduces(before, stage, n - 1);
      StepAdmits(before, stage, n - 1);
      AdmittedGrows(p, inputs, before, n - 1, Flow(p, inputs, n).value[Some(stage.name)]);
    }
  }

  /** A step from values that agree with a solution gives what the solution has. */
  lemma StepReached(values: Store<Value>, store: Store<Value>, stage: Stage, index: nat)
    requires stage.bindings.Keys == stage.inputs.Keys && StageAdmitted(store, stage)
    requires forall name <- stage.bindings ::
      stage.bindings[name].stage in values && stage.bindings[name].stage in store
      && values[stage.bindings[name].stage] == store[stage.bindings[name].stage]
    requires Produces(store, stage, store[Some(stage.name)])
    ensures StepFlow(values, stage, index) == Ok(values[Some(stage.name) := store[Some(stage.name)]])
  {
    hide Port.Accepts;
    assert AllResolve(values, stage.bindings);
    assert Picked(values, stage.bindings)
        == map name | name in stage.bindings :: store[stage.bindings[name].stage][stage.bindings[name].port];
    assert AllAccept(stage.inputs, Picked(values, stage.bindings));
  }

  /** A solution that the ports admit is what the run reaches. */
  lemma {:induction false} SolutionIsReached(p: Pipeline, inputs: map<string, Value>, store: Store<Value>, n: nat)
    requires n <= |p.stages| && Bound(p, n)
    requires Solves(p, inputs, store, |p.stages|) && Admitted(p, inputs, store, |p.stages|)
    ensures Flow(p, inputs, n).Ok? && Flow(p, inputs, n).value.Keys == Known(p, n).Keys
    ensures forall stage <- Known(p, n) :: stage in store && Flow(p, inputs, n).value[stage] == store[stage]
  {
    hide StepFlow, AllAccept, StageAdmitted, Produces, StageOk, Bound;
    if n > 0 {
      LastBound(p, n);
      SolutionIsReached(p, inputs, store, n - 1);
      var values, stage := Flow(p, inputs, n - 1).value, p.stages[n - 1];
      assert StageAdmitted(store, stage) && Produces(store, stage, store[Some(stage.name)]);
      BindsToKnown(Known(p, n - 1), stage);
      StepReached(values, store, stage, n - 1);
    }
  }

  lemma BindsToKnown(known: Store<Port>, stage: Stage)
    requires StageOk(known, stage)
    ensures forall name <- stage.bindings :: stage.bindings[name].stage in known
  {
    hide PortsOk, Port.CanFeed;
  }

  /** The caller's inputs, everything on the edges and the outputs, as one admitted run has them. */
  ghost predicate IsRun(p: Pipeline, inputs: map<string, Value>, store: Store<Value>, outputs: map<string, Value>) {
    Solves(p, inputs, store, |p.stages|) && Admitted(p, inputs, store, |p.stages|) && Outputs(p, store, outputs)
  }

  lemma ExportedOutputs(p: Pipeline, values: Store<Value>)
    ensures Exported(p, values).Ok? ==> Outputs(p, values, Exported(p, values).value)
  {
    hide Port.Accepts;
  }

  lemma EvaluatedIsRun(p: Pipeline, inputs: map<string, Value>)
    requires Preflight(p) && Evaluate(p, inputs).Ok?
    ensures exists store :: IsRun(p, inputs, store, Evaluate(p, inputs).value)
  {
    var n := |p.stages|;
    BoundExactly(p, n);
    FlowSolves(p, inputs, n);
    FlowAdmits(p, inputs, n);
    hide Bound, Fed, Solves, Admitted, Flow, Exported, Outputs;
    var values := Flow(p, inputs, n).value;
    ExportedOutputs(p, values);
    assert IsRun(p, inputs, values, Evaluate(p, inputs).value);
  }

  /** After preflight nothing is refused once all stages have run. */
  lemma ReachedIsExported(p: Pipeline, inputs: map<string, Value>)
    requires Preflight(p) && Flow(p, inputs, |p.stages|).Ok?
    ensures Evaluate(p, inputs).Ok?
  {
    PreflightIsSound(p, inputs);
    hide Flow, AllAccept, AllResolve;
  }

  lemma RunIsEvaluated(p: Pipeline, inputs: map<string, Value>, store: Store<Value>, outputs: map<string, Value>)
    requires Preflight(p) && IsRun(p, inputs, store, outputs)
    ensures Evaluate(p, inputs) == Ok(outputs)
  {
    var n := |p.stages|;
    PreflightIsSound(p, inputs);
    SolutionIsReached(p, inputs, store, n);
    hide Bound, Admitted, AllAccept, Flow, Exported, Solves, Outputs;
    assert Evaluate(p, inputs).Ok? by { ReachedIsExported(p, inputs); }
    hide Evaluate;
    EvaluatedIsRun(p, inputs);
    var reached :| IsRun(p, inputs, reached, Evaluate(p, inputs).value);
    SolutionIsUnique(p, inputs, reached, store);
  }

  /** A run succeeds exactly when its equations have an admitted solution, and returns what the solution says. */
  lemma EvaluatesExactly(p: Pipeline, inputs: map<string, Value>)
    requires Preflight(p)
    ensures Evaluate(p, inputs).Ok? ==> exists store :: IsRun(p, inputs, store, Evaluate(p, inputs).value)
    ensures forall store, outputs :: IsRun(p, inputs, store, outputs) ==> Evaluate(p, inputs) == Ok(outputs)
  {
    hide Evaluate, Preflight, IsRun;
    if Evaluate(p, inputs).Ok? {
      EvaluatedIsRun(p, inputs);
    }
    forall store, outputs | IsRun(p, inputs, store, outputs) ensures Evaluate(p, inputs) == Ok(outputs) {
      RunIsEvaluated(p, inputs, store, outputs);
    }
  }

  // ---- What a failure says ----

  /** Why one stage, on these values, failed. */
  ghost predicate StageFailed(values: Store<Value>, stage: Stage, failure: Failure, index: nat) {
    if !AllResolve(values, stage.bindings) then failure == Unresolved(index)
    else
      var given := map name | name in stage.bindings :: values[stage.bindings[name].stage][stage.bindings[name].port];
      match failure
      case ArgumentRejected(i) => i == index && exists name <- stage.inputs :: name !in given || !stage.inputs[name].Accepts(given[name])
      case StageRaised(i) => i == index && stage.execute(given) == None
      case ProducedMismatch(i) => i == index && stage.execute(given).Some? && stage.execute(given).value.Keys != stage.outputs.Keys
      case ProducedRejected(i) =>
        && i == index && stage.execute(given).Some? && stage.execute(given).value.Keys == stage.outputs.Keys
        && exists name <- stage.outputs :: !stage.outputs[name].Accepts(stage.execute(given).value[name])
      case _ => false
  }

  lemma StepFails(values: Store<Value>, stage: Stage, index: nat)
    ensures StepFlow(values, stage, index).Err? ==> StageFailed(values, stage, StepFlow(values, stage, index).error, index)
  {
    hide Port.Accepts;
    if AllResolve(values, stage.bindings) {
      SameArguments(values, stage);
    }
  }

  /** Everything before the failing stage ran, and the stage failed for the reason that is named. */
  lemma {:induction false} FailureIsStages(p: Pipeline, inputs: map<string, Value>, n: nat) returns (i: nat)
    requires n <= |p.stages| && Bound(p, n) && Flow(p, inputs, n).Err?
    ensures Flow(p, inputs, n).error.InputsMismatch? <==> inputs.Keys != p.inputs.Keys
    ensures Flow(p, inputs, n).error.InputRejected? <==> inputs.Keys == p.inputs.Keys && !AllAccept(p.inputs, inputs)
    ensures inputs.Keys == p.inputs.Keys && AllAccept(p.inputs, inputs) ==>
      i < n && exists store ::
        Solves(p, inputs, store, i) && Admitted(p, inputs, store, i) && StageFailed(store, p.stages[i], Flow(p, inputs, n).error, i)
  {
    hide StepFlow, AllAccept, StageFailed, Solves, Admitted, StageOk, Bound;
    i := 0;
    if n > 0 {
      LastBound(p, n);
      if Flow(p, inputs, n - 1).Err? {
        i := FailureIsStages(p, inputs, n - 1);
      } else {
        i := n - 1;
        BoundExactly(p, i);
        FlowSolves(p, inputs, i);
        FlowAdmits(p, inputs, i);
        StepFails(Flow(p, inputs, i).value, p.stages[i], i);
        StageErrors(Flow(p, inputs, i).value, p.stages[i], i);
        FlowInputs(p, inputs, i);
      }
    }
  }

  lemma StageErrors(values: Store<Value>, stage: Stage, index: nat)
    ensures StepFlow(values, stage, index).Err? ==>
      !StepFlow(values, stage, index).error.InputsMismatch? && !StepFlow(values, stage, index).error.InputRejected?
  {
  }

  lemma {:induction false} FlowInputs(p: Pipeline, inputs: map<string, Value>, n: nat)
    requires n <= |p.stages|
    ensures Flow(p, inputs, n).Ok? ==> inputs.Keys == p.inputs.Keys && AllAccept(p.inputs, inputs)
  {
    hide StepFlow, AllAccept;
    if n > 0 {
      FlowInputs(p, inputs, n - 1);
    }
  }

  /** A failure of a run names what is wrong with the inputs, or the stage that failed and why. */
  lemma FailureNamesReason(p: Pipeline, inputs: map<string, Value>) returns (i: nat)
    requires Preflight(p) && Evaluate(p, inputs).Err?
    ensures Evaluate(p, inputs).error.InputsMismatch? <==> inputs.Keys != p.inputs.Keys
    ensures Evaluate(p, inputs).error.InputRejected? <==> inputs.Keys == p.inputs.Keys && !AllAccept(p.inputs, inputs)
    ensures inputs.Keys == p.inputs.Keys && AllAccept(p.inputs, inputs) ==>
      i < |p.stages| && exists store ::
        Solves(p, inputs, store, i) && Admitted(p, inputs, store, i) && StageFailed(store, p.stages[i], Evaluate(p, inputs).error, i)
  {
    if Flow(p, inputs, |p.stages|).Ok? {
      ReachedIsExported(p, inputs);
    } else {
      i := FailureIsStages(p, inputs, |p.stages|);
    }
  }
}

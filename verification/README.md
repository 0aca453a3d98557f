# Proofs about the inference tools in reference/diffusers

This project models the stateful and arithmetic parts of the Python tools under
`reference/diffusers` in Dafny and proves what they promise. `dafny verify dfyconfig.toml` checks
all of it. Each module states the source file it follows in its heading.

- **Publication of animations** (`AnimationDisk`, `AnimationOutput`). The disk is an object whose
  operations take effect or fail (on a healthy disk, only when they are impossible); it records whether
  every state so far has kept a promise about what a report vouches for. The commit is proved
  all-or-nothing at every failure point.
- **Generation pipelines** (`HostPorts`, `GenerationComposition`, `GenerationRun`). Ports and preflight on
  values; runs over a heap of mutable lists and arrays, against callbacks that may write to every array they
  ever got hold of.
- **Workflow graphs** (`WorkflowGraph`, `WorkflowValidation`, `WorkflowBuilder`). The cycle search with its
  visited and active sets, the validator around it, and the builder with its own checks.
- **The resident session** (`SourceFiles`, `ConfigurationLru`, `InferenceSession`, `InferenceWorker`). The
  session keeps a ghost log of what happened to it; its fields are proved to be what the log says,
  over all interleavings of requests, edits and failures.
- **Model merging** (`RowMajor`, `TensorProjection`, `TensorRepair`, `Quantization`, `MergeWeights`,
  `MergeTensor`, `LoraDeltas`). Tensors are a shape and their elements in row-major order; numbers
  are reals, NaN or infinities.
- **Arithmetic and parsing loops** (`HiresStages`, `SafetensorsTiling`, `ScheduleExpressions`,
  `ScheduleEntries`, `KeyframeSchedules`, `PromptSchedules`).

`Options`, `Texts`, `Json`, `Numbers`, `Sequences` and `Sorting` are shared.

## What the proofs found

- An output with the suffix `.json` is its own report: it can never be committed, and if linking the
  report fails after the video was linked there, the video stands for a moment where a report would
  vouch for it (`AnimationOutput.Commit`, `JsonOutputMisleads`). Callers exclude this:
  `reference/diffusers/animation_options.py:20-21` allows only `.mp4` and `.gif`.
- Entering an output leaves its lock behind exactly when writing the process id into it fails
  (`AnimationOutput.Enter`).
- The builder takes the optional schema and the validator the required one when a class lists a name in
  both; only then can they disagree (`BuilderRefinesValidator`, `ClashCanBeRefused`).
- The comment at `reference/diffusers/hires_options.py:143-144` says growth never shrinks. That holds from
  the second pass on, and from the first pass for base sizes on the grid; off the grid the early
  refusal can refuse a chain that fits (`EarlyRefusalCanBeWrong`). `AcceptedExactly` and
  `GridRequestsAcceptedExactly` state what is accepted. Generation refuses base sizes off the grid in any
  case (`reference/diffusers/generate.py:697-706`, `reference/diffusers/comfyui_image_workflow.py:313-316`).
- A branch exported twice under two names is applied twice when it was adapted to another shape, because
  the adaptation report carries the name, and when a tensor holds NaN or the row range is empty
  (`AliasIsDroppedExactly`).
- Shares of a weighted sum may exceed one by the 1e-12 the resolver tolerates; the hull statements
  are about weights outside that slack (`ResolveMergeWeights`, `ResolvedBlendInHull`).
- The configuration cache compares signatures before and after reading and allows missing sources
  (`reference/diffusers/inference_session.py:119-128`). A source that is missing, appears, is read and
  vanishes during the reading leaves equal signatures, and every later hit returns what it said
  (`AppearingSourceMisleads`). Sidecars that may be absent are such sources
  (`reference/diffusers/downloaded_model.py:343-349`). The comparison is reliable against all runs exactly
  when all sources are present at the first signature (`ReliableExactly`). The pipeline cache demands that.
- A foreground preparation can succeed and leave the session not ready, when another model is loaded after
  the execution was recorded (`PreparedButNotReady`, `ReadyExactly`).
- A request that ends with `SystemExit(0)` is reported as a success although the sources of the held
  pipeline are not verified after it (`reference/diffusers/inference_worker.py:77-81`).
- `docs/inference-worker.md` says that a foreground request without arguments releases the model; the code
  only hides readiness and keeps the weights. The model follows the code (`SetForeground`).

## Model

| member | source | states |
|---|---|---|
| `AnimationOutput.TargetsDistinctUnlessJson` | reference/diffusers/animation_video.py:23-24 | The frames directory never coincides with the video or the report, and the video coincides with the report if and only if the output's suffix is `.json`. |
| `AnimationOutput.LockPerOutput` | reference/diffusers/animation_video.py:168 | Two outputs share a lock exactly if they are the same output, and no lock is a target. |
| `AnimationOutput.CheckedExactly` | reference/diffusers/animation_video.py:31-45 | The checks accept exactly nothing at all or, when overwriting is asked for, two plain files and a frames directory whose marker names this schema and this video. |
| `AnimationOutput.PublishedMayBeReplaced` | reference/diffusers/animation_video.py:31-45 | What a run publishes is accepted by the ownership check of a later run of the same schema that may overwrite, and by no other. |
| `AnimationOutput.AnimationOutput.Enter` | reference/diffusers/animation_video.py:171-185 | Without a request to overwrite nobody enters where a target exists. When no possible operation fails, entry succeeds exactly if there is no lock and what stands at the targets may be replaced, said by their contents; it adds exactly the lock and the private directory with its frames directory; a refused entry leaves every path, another run's lock included, as it was, except for an empty private directory when no frames directory could be made in it; the lock is left behind exactly when writing the process id into it fails. |
| `AnimationOutput.AnimationOutput.Commit` | reference/diffusers/animation_video.py:187-218 | All or nothing at every failure point: committed means all three targets hold the staged bundle, otherwise video, report and frames are what they were; no other public path changes. Without a request to overwrite nothing that exists is replaced, and with one only files and a frames directory marked for this schema and video; when no possible operation fails the outcome is committed exactly if this holds, a video is staged and it is not its own report. Between any two file operations, rollback included, a report in place stands beside exactly the old or exactly the new bundle, with one exactly stated exception (suffix `.json`, the last link fails, and the bundle standing there is neither). |
| `AnimationOutput.AnimationOutput.Exchange` | reference/diffusers/animation_video.py:195-218 | The same for everything inside the try statement, from any subset of old targets. |
| `AnimationOutput.AnimationOutput.RetireOld` | reference/diffusers/animation_video.py:196-202 | Old targets are renamed to backups, report first, so that the tree is the old one with a reversible list of renames; no intermediate tree breaks the report's promise. |
| `AnimationOutput.AnimationOutput.RetireTarget` | reference/diffusers/animation_video.py:198-202 | One target, if it exists, becomes a backup; the list of backups stays reversible and the report goes first. |
| `AnimationOutput.AnimationOutput.PublishNew` | reference/diffusers/animation_video.py:203-209 | Frames, video and report appear in that order; what has been published is listed exactly, and removing it gives back the retired tree with the unmoved frames. |
| `AnimationOutput.AnimationOutput.MoveFrames` | reference/diffusers/animation_video.py:205-206 | Whatever the order and wherever it stops, moved and unmoved frames together are the staged frames. |
| `AnimationOutput.AnimationOutput.Rollback` | reference/diffusers/animation_video.py:211-217 | Removing what was published, newest first, and restoring backups in reverse gives the original tree, the report last. |
| `AnimationOutput.RestoreNewest` | reference/diffusers/animation_video.py:216-217 | Undoing the newest of any list of retirements gives the tree retired by the rest of the list. |
| `AnimationOutput.JsonOutputMisleads` | reference/diffusers/animation_video.py:23-24 | A concrete bundle for which a video named like its report breaks the report's promise. |
| `AnimationOutput.AnimationOutput.Exit` | reference/diffusers/animation_video.py:220-225 | Leaving removes the lock and changes no other public path; when no possible operation fails nothing private is left. |
| `HostPorts.ArgumentCheckIsSize` | reference/diffusers/generation_composition.py:75-113 | A value its source port accepts is accepted by every compatible destination port, unless a dimension the source left open and the destination fixes has another size; if and only if. |
| `HostPorts.AcceptedByKind` | reference/diffusers/generation_composition.py:84-113 | Scalar text ports accept a text, batch ports a nonempty batch of texts, tensor ports an array of the declared type, rank and sizes without anything that is not finite and without negative tokens, and no port anything else. |
| `HostPorts.FeedsExactly` | reference/diffusers/generation_composition.py:75-82 | Two well-formed ports are compatible exactly if layout, semantic and space are the same and some value is accepted by both. |
| `HostPorts.WellFormedExactly` | reference/diffusers/generation_composition.py:53-73 | The well-formed ports are the two text ports and the tensor ports with a capital letter and a positive or open size for each axis, an element type their meaning can have, tokens by sequence, and a representation space of their own. |
| `HostPorts.WellFormedAcceptsSome` | reference/diffusers/generation_composition.py:53-73 | Every well-formed port accepts some value. |
| `GenerationComposition.Validate` | reference/diffusers/generation_composition.py:183-204 | The loop over the stages accepts exactly the pipelines in which stage names differ, everything is declared, and every stage and output is fed by a compatible port of the caller or of an earlier stage. |
| `GenerationComposition.PreflightExactly` | reference/diffusers/generation_composition.py:183-204 | Checking stage by stage against a growing table of known ports accepts exactly the pipelines described, without table and order, by different names and by ports of the caller and of earlier stages that feed each stage and output. |
| `GenerationComposition.StepIsTyped` | reference/diffusers/generation_composition.py:217-231 | A stage of a preflighted pipeline on typed values fails only by a narrowed dimension (exactly then), by raising, or by producing undeclared or ill-typed outputs. |
| `GenerationComposition.FlowIsTyped` | reference/diffusers/generation_composition.py:212-231 | After preflight every edge carries a value its declared port accepts, after any number of stages and for any inputs and callbacks. |
| `GenerationComposition.RefusalIsNarrowing` | reference/diffusers/generation_composition.py:220-223 | A refused argument is one whose size its source port left open; the refusal names the stage that fixes it. |
| `GenerationComposition.PreflightIsSound` | reference/diffusers/generation_composition.py:183-236 | After preflight a run never fails to resolve a binding or an output, and its outputs satisfy their declared ports; an argument is refused only at a stage that narrows a dimension. |
| `GenerationComposition.EvaluatesExactly` | reference/diffusers/generation_composition.py:212-236 | The copy-free evaluation succeeds exactly when the pipeline's equations (the caller's inputs, and for each stage what its callback returns for exactly the values its bindings name) have a solution that the ports admit, and its outputs are what that solution holds at their sources. |
| `GenerationComposition.SolutionIsUnique` | reference/diffusers/generation_composition.py:212-236 | The equations have at most one solution, and so have the outputs. |
| `GenerationComposition.FailureNamesReason` | reference/diffusers/generation_composition.py:214-226 | A failure names what is wrong with the caller's inputs, or a stage before which everything ran, and why that stage failed on exactly the values it is bound to. |
| `GenerationRun.SnapshotAll` | reference/diffusers/generation_composition.py:162-171 | Copies have the contents of the originals at the call and share no list or array with anything that existed. |
| `GenerationRun.RunStage` | reference/diffusers/generation_composition.py:217-231 | One stage refines its copy-free step, whatever its callback writes into lists and arrays it holds now or has ever held: the callback is called with exactly the contents its bindings name, and what it returns is stored. |
| `GenerationRun.Run` | reference/diffusers/generation_composition.py:212-236 | Isolation: against callbacks that overwrite, keep and return lists and arrays at will, a run succeeds exactly when the pipeline's equations on the inputs' contents at the call have an admitted solution, and returns that solution's outputs in fresh objects no stage holds. |
| `Json.SameExactly` | reference/diffusers/comfyui_runtime.py:175-176 | Equality of values is symmetric, goes by number across integers, decimals and booleans, and never holds for what is not finite. |
| `WorkflowGraph.CycleCheck.Visit` | reference/diffusers/comfyui_runtime.py:179-188 | The depth-first visit terminates; failing means the dependency relation has a cycle, succeeding leaves a rank in which every visited node is above what it depends on. |
| `WorkflowGraph.CheckAcyclic` | reference/diffusers/comfyui_runtime.py:189-191 | The search over all nodes accepts a closed dependency relation if and only if it has no cycle. |
| `WorkflowGraph.RankedIsAcyclic` | reference/diffusers/comfyui_runtime.py:179-191 | A relation whose every edge lowers a rank has no cycle. |
| `WorkflowGraph.BackEdgeIsCycle` | reference/diffusers/comfyui_runtime.py:181-183 | Meeting an active node again exhibits a cycle. |
| `WorkflowValidation.AcceptedNodesAreClosed` | reference/diffusers/comfyui_runtime.py:148-174 | When every node passes its checks, every link resolves, so that the search never leaves the graph. |
| `WorkflowValidation.SameTypesAreCompatible` | reference/diffusers/comfyui_runtime.py:168-173 | The comma-separated type comparison accepts equal type lists. |
| `WorkflowValidation.CompatibleExactly` | reference/diffusers/comfyui_runtime.py:168-173 | Lists of type names joined by commas are compatible exactly if they share a name, up to white space around it, or one of them holds the wildcard. |
| `WorkflowValidation.NamesCompatibleExactly` | reference/diffusers/comfyui_runtime.py:168-173 | Two single names are compatible exactly if they are equal or one is the wildcard. |
| `WorkflowValidation.CheckInput` | reference/diffusers/comfyui_runtime.py:149-176 | The branches for one input decide whether a link resolves to an existing slot of a compatible type, or a value is among the choices. |
| `WorkflowValidation.CheckNode` | reference/diffusers/comfyui_runtime.py:133-176 | The loops over one node decide whether class, required inputs and every declared input are right, and collect exactly the nodes it takes inputs from. |
| `WorkflowValidation.ValidateWorkflow` | reference/diffusers/comfyui_runtime.py:129-191 | The validator accepts exactly the graphs whose nodes are right by their schemas, that contain an output node and that are acyclic, and its verdict names a reason that holds. |
| `WorkflowBuilder.FillDefaults` | reference/diffusers/comfyui_image_workflow.py:203-212 | The loop over required inputs gives exactly the values with their missing defaults, and fails exactly when a required input has none. |
| `WorkflowBuilder.CheckScalar` | reference/diffusers/comfyui_image_workflow.py:164-188 | The branches of the scalar check accept exactly listed choices, numbers of the right kind within their bounds, booleans and texts. |
| `WorkflowBuilder.RangeExactly` | reference/diffusers/comfyui_image_workflow.py:174-188 | A whole number is accepted exactly between its minimum and its maximum. |
| `WorkflowBuilder.CheckInputs` | reference/diffusers/comfyui_image_workflow.py:213-224 | The loop over the inputs accepts exactly if each is a right link or a right value. |
| `WorkflowBuilder.GraphBuilder.Add` | reference/diffusers/comfyui_image_workflow.py:195-227 | A node is added, under the next number and never over an existing one, if and only if its class, its names and all of its inputs are right for the nodes before it; otherwise nothing changes. |
| `WorkflowBuilder.BuiltIsAcyclic` | reference/diffusers/comfyui_image_workflow.py:195-227 | Whatever calls built a graph, its nodes link only backwards, so it has no cycle. |
| `WorkflowBuilder.BuilderRefinesValidator` | reference/diffusers/comfyui_image_workflow.py:155-227 | The validator accepts a graph made by any sequence of add calls if and only if it has an output node and no name that is both required and optional is wrong by the required schema; schemas without such names always pass. |
| `WorkflowBuilder.ClashCanBeRefused` | reference/diffusers/comfyui_image_workflow.py:195-227 | A concrete object table and one add call whose graph the validator refuses. |
| `ConfigurationLru.HitRefines` | reference/diffusers/inference_session.py:121-124 | Moving a found entry to the end of the ordered dictionary refines touching it in a cache that keeps times of use. |
| `ConfigurationLru.DropRefines` | reference/diffusers/inference_session.py:125 | Popping a stale entry refines dropping it from that cache. |
| `ConfigurationLru.PutRefines` | reference/diffusers/inference_session.py:130-132 | Storing an entry refines storing and, above sixteen, evicting the entry used longest ago; sixteen is never exceeded. |
| `ConfigurationLru.SixteenAreKept` | reference/diffusers/inference_session.py:130-132 | Never more than sixteen entries, and one goes, the first, only when there are sixteen. |
| `ConfigurationLru.FoundIsCached` | reference/diffusers/inference_session.py:120-121 | The dictionary finds a key exactly when the abstract cache holds it, with the same value. |
| `SourceFiles.UndetectedAgrees` | reference/diffusers/inference_session.py:118-129 | Equal signatures before and after a reading, with every source read at some moment between, guarantee what was read of each source they show as present, and of all sources when none that was missing appears meanwhile. |
| `SourceFiles.AppearingSourceMisleads` | reference/diffusers/inference_session.py:118-129 | For any missing source there is a run in which it appears, is read and vanishes, and both signatures are the same although something else was read. |
| `SourceFiles.ReliableExactly` | reference/diffusers/inference_session.py:118-129 | Comparing signatures makes a reading right in every run if and only if all sources are present when it begins. |
| `InferenceSession.InferenceSession.RunReader` | reference/diffusers/inference_session.py:127 | What a reader returns is built from what each source was at some moment of the reading. |
| `InferenceSession.InferenceSession.Configuration` | reference/diffusers/inference_session.py:118-133 | Whatever is returned is what reading would give now whenever all sources are present, and whenever the reading behind it met no missing source that came and went; a hit returns the stored value, touches the entry and reads nothing, anything else drops the old entry and stores at most the new one; hits plus reads grow by one per call. |
| `InferenceSession.InferenceSession.Pipeline` | reference/diffusers/inference_session.py:88-101 | A call is a hit exactly when the held pipeline has this key and the sources are as they were; with a key, whatever is returned is what the loader would return for the sources now, and is what the session holds; a call that fails after looking at the sources leaves nothing held. |
| `InferenceSession.InferenceSession.Place` | reference/diffusers/inference_session.py:103-116 | A call is a hit exactly when a pipeline is held and the key is that of the placement; a hit returns the placement current since the last clear or invalidation; a miss keeps the new placement exactly when there is a key and a pipeline; a failure leaves nothing held. |
| `InferenceSession.InferenceSession.Clear` | reference/diffusers/inference_session.py:72-80 | Nothing stays held, no counter, mode or configuration changes, and the session stays consistent with its log. |
| `InferenceSession.InferenceSession.Verify` | reference/diffusers/inference_session.py:140-143 | Verification fails exactly when the held sources are missing or changed, and then nothing stays held if they are all present. |
| `InferenceSession.InferenceSession.InvalidatePlacement` | reference/diffusers/inference_session.py:199-203 | The placement goes, pipeline, configurations and readiness stay. |
| `InferenceSession.InferenceSession.SetForeground` | reference/diffusers/inference_session.py:145-165 | Without a preparation the weights stay and readiness goes; a preparation that succeeds has recorded an execution meanwhile and leaves a pipeline, and the session is ready exactly if its log has a current execution; one that fails leaves nothing held; preparing is over in every case. |
| `InferenceSession.ReadyExactly` | reference/diffusers/inference_session.py:145-173 | A log has a current execution exactly when nothing was cleared or hidden since the last recorded one. |
| `InferenceSession.PreparedButNotReady` | reference/diffusers/inference_session.py:145-165 | Recording an execution and then loading another model is a run that leaves a pipeline and no readiness. |
| `InferenceSession.HeldMeansLoaded` | reference/diffusers/inference_session.py:72-101 | Over every run, what is held was loaded and neither cleared nor replaced since. |
| `InferenceSession.CurrentMeansPrepared` | reference/diffusers/inference_session.py:103-116 | Over every run, the current placement was prepared from the pipeline held now, and nothing was cleared, loaded, invalidated or placed since. |
| `InferenceWorker.Perform` | reference/diffusers/inference_worker.py:46-78 | Invalid requests fail before anything runs; releases and foreground changes without a preparation succeed; only a valid foreground request changes the mode; a successful release leaves nothing held; a generation or preparation that returns successfully leaves no pipeline whose sources are missing or have changed; one that ends with `SystemExit(0)` is reported as a success and is not verified. |
| `InferenceWorker.ValidExactly` | reference/diffusers/inference_worker.py:47-69 | Which requests are acceptable, action by action. |
| `InferenceWorker.Handle` | reference/diffusers/inference_worker.py:41-95 | One line, one result. The exit code is that of the request's own ending: a status of `SystemExit`, 1 for anything raised or refused, 0 for a code that returned 0 with unchanged sources and, for a preparation, an execution recorded for a held pipeline, and 1 otherwise; a request runs generation code once or not at all. `ok` iff the exit code is 0, nothing held and not ready after a failure; the reported counters are the numbers of cache events logged during the request. |
| `InferenceWorker.Serve` | reference/diffusers/inference_worker.py:35-97 | Exactly one result in order for each line up to and including an overlong one, status 2 iff there was one; every result answers for the ending of its own request, and there was no other run of generation code; all reported changes add up to the total change and to the events logged; nothing stays held at the end. |
| `InferenceWorker.TotalOneMore` | reference/diffusers/inference_worker.py:88-95 | Counter changes of consecutive requests add up to the change over all of them. |
| `RowMajor.UnflatFlat` | reference/diffusers/model_merge_tensor.py:153-158 | Decoding a flat offset gives back the coordinate it came from. |
| `RowMajor.FlatUnflat` | reference/diffusers/model_merge_tensor.py:153-158 | A decoded coordinate lies within the shape and encodes to its offset. |
| `TensorProjection.CoordinateBelow` | reference/diffusers/model_merge_tensor.py:101-104 | Every rounded coordinate lies within the source axis. |
| `TensorProjection.CoordinateMonotone` | reference/diffusers/model_merge_tensor.py:101-104 | Rounded coordinates keep their order. |
| `TensorProjection.CoordinateFixedPoints` | reference/diffusers/model_merge_tensor.py:101-104 | The ends of an axis map to its ends, and an axis of the same size to itself. |
| `TensorProjection.CoordinateIsNearest` | reference/diffusers/model_merge_tensor.py:101-104 | Every coordinate is the integer nearest to its evenly spaced position, and the even one of two equally near. |
| `TensorProjection.NearestIsUnique` | reference/diffusers/model_merge_tensor.py:101-104 | There is only one such integer. |
| `TensorProjection.SelectAt` | reference/diffusers/model_merge_tensor.py:135 | Selecting along one axis moves just that coordinate. |
| `TensorProjection.ResampleOneMore` | reference/diffusers/model_merge_tensor.py:133-135 | Resampling one more axis of a partly resampled tensor reads every element from where the source has it. |
| `TensorProjection.AnyOrderResamples` | reference/diffusers/model_merge_tensor.py:133-135 | The loop over different axes in any order resamples along exactly these axes. |
| `TensorProjection.ResampledIsUnique` | reference/diffusers/model_merge_tensor.py:133-135 | Resampling along the same axes determines the tensor. |
| `TensorProjection.OrderMakesNoDifference` | reference/diffusers/model_merge_tensor.py:130-136 | The loop over all axes gives the same tensor in every order. |
| `TensorProjection.IntermediateIsBounded` | reference/diffusers/model_merge_tensor.py:130-135 | In ascending order of target to source ratio no intermediate tensor has more elements than the larger of source and target. |
| `TensorProjection.ResampleAxes` | reference/diffusers/model_merge_tensor.py:132-136 | The loop over the axes gives `out[i1..in] = in[c1(i1)..cn(in)]` with every `c` the nearest integer (half to even), through one tensor per axis, none with more elements than the larger of source and target; any other order would have given the same tensor. |
| `TensorProjection.ResampleFlattened` | reference/diffusers/model_merge_tensor.py:119-129 | Chunked resampling of a flattened tensor reads, at every position, the coordinate nearest to its evenly spaced position, half to even, whatever the chunk size. |
| `TensorProjection.FullyResampled` | reference/diffusers/model_merge_tensor.py:130-136 | A tensor resampled along every axis reads each element at its rounded coordinates, all in range. |
| `TensorProjection.ProjectTensor` | reference/diffusers/model_merge_tensor.py:107-136 | A tensor of its own shape stays, exchanged axes transpose, the same number of elements reshapes, another rank resamples the flattened tensor and the same rank every axis, each element read at the nearest coordinates; empty tensors alone are refused. |
| `TensorRepair.InvalidIsExact` | reference/diffusers/model_merge_tensor.py:148-153 | The scanned offsets are exactly those of invalid values, ascending. |
| `TensorRepair.KindsAddUp` | reference/diffusers/model_merge_tensor.py:161-164 | NaN and infinity counts add up to the number of invalid values. |
| `TensorRepair.CountIsMultiplicity` | reference/diffusers/model_merge_tensor.py:161-164 | Each count is the number of times its kind of value occurs. |
| `TensorRepair.Decode` | reference/diffusers/model_merge_tensor.py:154-158 | The digit loop over the reversed shape decodes a flat offset. |
| `TensorRepair.ScanChunk` | reference/diffusers/model_merge_tensor.py:150-158 | Scanning one more chunk extends the reported positions to the first eight invalid ones up to its end. |
| `TensorRepair.ReportPositions` | reference/diffusers/model_merge_tensor.py:147-160 | The chunked scan reports exactly the first eight invalid positions, or all when there are fewer, in row-major order. |
| `TensorRepair.Repair` | reference/diffusers/model_merge_tensor.py:139-166 | Only invalid coordinates change; the counts are right; each reported coordinate lies within the shape and encodes to the invalid offset of its rank. |
| `Quantization.RepeatBlocks` | reference/diffusers/model_merge_tensor.py:53-56 | Repeating axis by axis gives every coordinate the element of its block. |
| `Quantization.Expand` | reference/diffusers/model_merge_tensor.py:40-60 | An expanded parameter shows, at every coordinate, the element that the first applicable rule assigns (scalar, channel, broadcast, block, run); it has the parameter's elements, and fails exactly when the parameter is empty, not finite or covered by no rule. |
| `Quantization.ChannelIsFirst` | reference/diffusers/model_merge_tensor.py:46-47 | A parameter with one element for each position of the first axis belongs to that axis, even where the last axis has as many. |
| `Quantization.BlockSource` | reference/diffusers/model_merge_tensor.py:53-56 | Along every axis a coordinate reads the element whose block it lies in. |
| `Quantization.CoveredExactly` | reference/diffusers/model_merge_tensor.py:40-60 | A parameter covers nothing exactly when it is no scalar, does not match the first axis, does not stretch, and neither its axes nor its number of elements divide the tensor's. |
| `Quantization.Decode` | reference/diffusers/model_merge_tensor.py:63-83 | Decoding is elementwise with the expanded scale and zero point and keeps invalid values as they are; it succeeds exactly when the parameters found are usable and every scale that is used is positive. |
| `Quantization.QuantizationRoundTrip` | reference/diffusers/model_merge.py:359 | For one element: requantizing a decoded number gives the stored one and decoding a requantized one gives the value, invalid numbers included. |
| `Quantization.DecodedRestores` | reference/diffusers/model_merge.py:359 | Requantizing a decoded tensor with its scheme gives the stored tensor. |
| `Quantization.RestoredDecodes` | reference/diffusers/model_merge.py:359 | Decoding a requantized tensor gives its values; the scale is positive wherever it is shown. |
| `Quantization.DecodingKeepsOrder` | reference/diffusers/model_merge_tensor.py:74-83 | Decoding keeps the order of stored values. |
| `MergeWeights.Normalize` | reference/diffusers/model_merge_options.py:203-206 | The doubly divided weights add up to exactly one, keep all ratios between checkpoints and leave adapters alone. |
| `MergeWeights.ResolveMergeWeights` | reference/diffusers/model_merge_options.py:184-211 | Weights are refused exactly when a strength or, without repair, their sum is above its bound; accepted shares of base and checkpoints add up to one, or to at most the allowed 1e-12 more, exactly when the requested sum lies in that slack. |
| `MergeWeights.RequestedExactly` | reference/diffusers/model_merge_options.py:190 | Given weights are the requested ones; without them the defaults are. |
| `MergeWeights.DefaultsResolve` | reference/diffusers/model_merge_options.py:188-211 | Default weights are neither refused nor normalized: adapters apply in full, base and checkpoints have equal shares of a sum, and strengths are 0.5 and 0.35 otherwise. |
| `MergeTensor.AddMaterial` | reference/diffusers/model_merge.py:292-333 | One material adds its weighted value where it has one, or takes it away in a difference, and elsewhere gives its share of a sum to the base; it fails exactly when a strict merge meets an unreadable or invalid material. |
| `MergeTensor.AddMaterials` | reference/diffusers/model_merge.py:291-333 | The loop over the checkpoints gives, at every coordinate, the blend by effective shares for a sum and the weighted base less the weighted values for a difference, or fails exactly when one is refused. |
| `MergeTensor.AddAdapters` | reference/diffusers/model_merge.py:334-353 | The loop over the adapters adds their weighted updates on the rows they cover, or takes them away in a difference; it fails exactly when a strict merge meets one that cannot be computed, whatever its weight. |
| `MergeTensor.MergeTensor` | reference/diffusers/model_merge.py:285-355 | At every coordinate a sum is the blend of base and materials by effective shares plus the adapters' updates, and a difference is the weighted base less materials and updates; or, exactly when nothing applied, the result is the base with its invalid values zeroed (a strict merge has refused them before). |
| `MergeTensor.MergeStored` | reference/diffusers/model_merge.py:257-359 | A merge that repairs returns no invalid element. It applies exactly when the parameters found decode the base and something was added; then what is returned decodes, with the scale and the zero point that were found, to the arithmetic result on the decoded, cleaned base. Otherwise it is the cleaned base. |
| `MergeTensor.DifferenceSubtracts` | reference/diffusers/model_merge.py:331-332 | A difference subtracts every weighted value there is and nothing else. |
| `MergeTensor.AdaptersAdd` | reference/diffusers/model_merge.py:350-352 | The adapters' contribution is the sum of their weighted updates, and its negative in a difference. |
| `MergeTensor.AppliesExactly` | reference/diffusers/model_merge.py:318-333 | A material counts as applied exactly if it has a weight and a valid value somewhere, or no element to have a value for. |
| `MergeTensor.ActsExactly` | reference/diffusers/model_merge.py:344-353 | While repairing, an update counts as applied exactly if it changes some element; otherwise if it has a weight. |
| `MergeTensor.SharesAreConserved` | reference/diffusers/model_merge.py:289-333 | Whatever is missing, unreadable or repaired, the effective coefficients at every coordinate are nonnegative, add up to what the weights add up to, and the result is the blend by them. |
| `MergeTensor.ResultInHull` | reference/diffusers/model_merge.py:289-333 | Each element lies between the least and the greatest value blended there, scaled by the sum of the weights. |
| `MergeTensor.ResolvedShares` | reference/diffusers/model_merge_options.py:184-211 | With resolved weights the coefficients add up to one at every coordinate, or into the slack. |
| `MergeTensor.ResolvedBlendInHull` | reference/diffusers/model_merge.py:289-333 | With resolved weights and no slack each element lies in the hull of the values blended there. |
| `MergeTensor.EqualTensorsGiveTheBase` | reference/diffusers/model_merge.py:289-333 | Merging equal tensors gives the base. |
| `MergeTensor.NothingAppliedIsTheBase` | reference/diffusers/model_merge.py:354-355 | When nothing applied, adapters included, the sum would have given the base too. |
| `LoraDeltas.PairKeys` | reference/diffusers/model_merge_lora.py:111-150 | The reading loop accepts exactly the adapters in which no key repeats, nothing is unknown, every projection has both sides and every alpha a projection. |
| `LoraDeltas.IdenticalIsPartialEquivalence` | reference/diffusers/model_merge_lora.py:198-209 | Being the same branch is symmetric and transitive, and reflexive for whatever is the same as anything. |
| `LoraDeltas.IdenticalExactly` | reference/diffusers/model_merge_lora.py:192-209 | Two deltas count as the same exactly if they agree in everything but the module name, hold no NaN and touch some row. |
| `LoraDeltas.KeptRepresentsAll` | reference/diffusers/model_merge_lora.py:190-213 | Comparing a delta with the kept ones only decides whether any earlier one is the same branch. |
| `LoraDeltas.DropRepeated` | reference/diffusers/model_merge_lora.py:188-213 | The loop with break and else keeps exactly the deltas no earlier one is the same as. |
| `LoraDeltas.KeptAreDistinct` | reference/diffusers/model_merge_lora.py:188-213 | No branch is kept twice. |
| `LoraDeltas.RepeatingChangesNothing` | reference/diffusers/model_merge_lora.py:194-197 | Exporting branches again that are there already changes nothing. |
| `LoraDeltas.DifferentBranchesAllAdd` | reference/diffusers/model_merge_lora.py:194-197 | Branches that differ in anything are all kept. |
| `LoraDeltas.EachBranchCountsOnce` | reference/diffusers/model_merge_lora.py:188-213 | Any additive effect counts each distinct branch once. |
| `LoraDeltas.AliasIsDroppedExactly` | reference/diffusers/model_merge_lora.py:198-213 | After any deltas that contain a branch, its second export under another module name is dropped exactly when the branch needed no adaptation, its tensors hold no NaN and its row range is not empty, or another earlier delta is identical to that export; with NaN or an empty row range nothing is. |
| `HiresStages.HalfUpQuotient` | reference/diffusers/hires_options.py:88-92 | The integer quotient rounds half up like the floor of the real quotient plus one half. |
| `HiresStages.ProportionalIsScaled` | reference/diffusers/hires_options.py:81-92 | Scaling by a ratio of integers and scaling by the real ratio round to the same size. |
| `HiresStages.NearestMultipleIsNearest` | reference/diffusers/hires_options.py:75-78 | Rounding to the grid moves by at most half a cell, and up where two multiples are equally near. |
| `HiresStages.FirstSizesMean` | reference/diffusers/hires_options.py:118-125 | First sizes are those asked for; a size not asked for keeps the ratio of width to height, and a scale, two by default, multiplies both, each up to half a grid cell. |
| `HiresStages.PassFromGrid` | reference/diffusers/hires_options.py:126-149 | From a size on the grid one pass adds a nonnegative number of whole cells. |
| `HiresStages.GrowthNeverDecreases` | reference/diffusers/hires_options.py:143-144 | From the second pass on, growth per axis never decreases and is never negative. |
| `HiresStages.GridGrowthNeverDecreases` | reference/diffusers/hires_options.py:143-144 | From a base size on the grid this holds from the very first pass. |
| `HiresStages.LinearLowerBound` | reference/diffusers/hires_options.py:143-146 | When the second pass grows by no less than the first, every size is at least the linear bound. |
| `HiresStages.NextDimension` | reference/diffusers/hires_options.py:127-134 | Either rule of the loop computes the next size of the chain. |
| `HiresStages.ResolveStageSizes` | reference/diffusers/hires_options.py:95-151 | The loop returns the sizes of the chain, one for each pass, and succeeds exactly when every pass fits and enlarges and the first-pass bound does not refuse; malformed requests are exactly the listed ones, and every other refusal names what is wrong with the first pass that is not right. |
| `HiresStages.AcceptedExactly` | reference/diffusers/hires_options.py:126-149 | For every request: accepted iff the first two passes enlarge, the last size fits and the bound does not refuse; no later pass ever fails the enlargement check. |
| `HiresStages.GridRequestsAcceptedExactly` | reference/diffusers/hires_options.py:126-149 | For base sizes on the grid: accepted iff the first pass enlarges and the last size fits, so the early refusal refuses nothing that would fit. |
| `HiresStages.EarlyRefusalIsSafe` | reference/diffusers/hires_options.py:143-147 | For any base size, the early refusal is right when neither axis grows less on the second pass than on the first. |
| `HiresStages.WrongRefusalIsUnsteady` | reference/diffusers/hires_options.py:143-147 | A chain that would have been built is refused only off the grid, and only when some axis grows less on the second pass than on the first. |
| `HiresStages.EarlyRefusalCanBeWrong` | reference/diffusers/hires_options.py:143-147 | A request off the grid whose four passes all fit and enlarge and which is refused early. |
| `HiresStages.AcceptedPassesAreFew` | reference/diffusers/hires_options.py:143-147 | An accepted chain has at most (2^31 - 1 - base) / grid passes for each grid axis that grows. |
| `SafetensorsTiling.CheckExtents` | reference/diffusers/downloaded_model.py:128-134 | Sorting and one cursor accept exactly the extents that in some order form a chain over the payload. |
| `SafetensorsTiling.TilesWhenSortedChains` | reference/diffusers/downloaded_model.py:129 | If any order is a chain, the sorted one is. |
| `SafetensorsTiling.TilesExactly` | reference/diffusers/downloaded_model.py:128-134 | There is such a chain if and only if every payload byte lies in exactly one tensor, no tensor reaches outside and no empty tensor lies inside another; the extents then sum to the payload size. |
| `SafetensorsTiling.OneHolder` | reference/diffusers/downloaded_model.py:128-134 | Being held once means one index of the header. |
| `SafetensorsTiling.DescribedExactly` | reference/diffusers/downloaded_model.py:110-127 | A descriptor gives a shape and an extent exactly if it writes them, in their order and within bounds, beside a known element type, and the number of elements times the width is the extent in bits. |
| `SafetensorsTiling.ReadDescriptors` | reference/diffusers/downloaded_model.py:106-135 | A header is accepted exactly when it has an allowed number of entries, every descriptor's shape and width account for its extent, and the extents tile the payload; under each name stands the shape its descriptor writes. |
| `ScheduleExpressions.Evaluate` | reference/diffusers/deforum_schedules.py:32-56 | Every value of every node is within the bound. |
| `ScheduleExpressions.StaticIsConstant` | reference/diffusers/deforum_schedules.py:30-56 | An expression that does not mention t has one value, or one failure, for all frames. |
| `ScheduleExpressions.DynamicExactly` | reference/diffusers/deforum_schedules.py:30 | An expression is dynamic exactly if t is among its names. |
| `ScheduleExpressions.SumLaws` | reference/diffusers/deforum_schedules.py:15-46 | Subtraction undoes addition. |
| `ScheduleExpressions.ProductLaws` | reference/diffusers/deforum_schedules.py:15-46 | Multiplication is repeated addition. |
| `ScheduleExpressions.DivisionLaw` | reference/diffusers/deforum_schedules.py:15-46 | Division undoes multiplication, and fails exactly for zero. |
| `ScheduleExpressions.RemainderLaw` | reference/diffusers/deforum_schedules.py:15-46 | A remainder is left by a whole multiple of the divisor, is smaller than it and has its sign. |
| `ScheduleExpressions.SignLaws` | reference/diffusers/deforum_schedules.py:36-54 | A minus sign twice is none, a difference adds the negated operand, and a constant has a value exactly within 1e12. |
| `ScheduleExpressions.CallExactly` | reference/diffusers/deforum_schedules.py:47-52 | A call has a value exactly if its function is known, it has one to four arguments and no named ones, and the function gives a value within the bound for the arguments' values in their order. |
| `ScheduleExpressions.CompiledExactly` | reference/diffusers/deforum_schedules.py:20-29 | A text compiles exactly if it has at most 1024 characters and its tree walk at most 128 nodes. |
| `ScheduleEntries.DecomposedIsBalanced` | reference/diffusers/deforum_schedules.py:62-77 | In a text that splits into balanced pieces no prefix closes more than it opened and nothing stays open. |
| `ScheduleEntries.DepthCounts` | reference/diffusers/deforum_schedules.py:64-68 | The depth is the number of opening less the number of closing parentheses. |
| `ScheduleEntries.BalancedExactly` | reference/diffusers/deforum_schedules.py:62-77 | A text splits at its top-level commas into balanced pieces if and only if no prefix closes more than it opened and nothing stays open. |
| `ScheduleEntries.DecompositionIsUnique` | reference/diffusers/deforum_schedules.py:62-77 | A text splits at its top-level commas into balanced pieces in at most one way. |
| `ScheduleEntries.Entries` | reference/diffusers/deforum_schedules.py:62-77 | The scan returns the stripped pieces of the only such split, and succeeds exactly when the parentheses are balanced and no piece is blank. |
| `KeyframeSchedules.BisectFinds` | reference/diffusers/deforum_schedules.py:108-115 | Bisection finds the last key not after a frame, or else the first, and the key that follows. |
| `KeyframeSchedules.AtMeans` | reference/diffusers/deforum_schedules.py:105-116 | The lookup equals a description by keys alone: dynamic expressions are evaluated at the frame, static ones are held before the first and after the last key and move linearly to the next key's own value between. |
| `KeyframeSchedules.ExactAtKeys` | reference/diffusers/deforum_schedules.py:105-112 | At every key the schedule has exactly that key's value. |
| `KeyframeSchedules.BetweenIsBetween` | reference/diffusers/deforum_schedules.py:116 | An interpolated value lies between the two values it joins. |
| `KeyframeSchedules.AtIsLinear` | reference/diffusers/deforum_schedules.py:110-116 | From a key whose expression does not use t, the values lie on the straight line to the next key's value. |
| `KeyframeSchedules.AtIsHeld` | reference/diffusers/deforum_schedules.py:108-113 | Before the first and after the last key a value that does not use t is held. |
| `KeyframeSchedules.AtIsEvaluated` | reference/diffusers/deforum_schedules.py:111-113 | An expression that uses t is evaluated at every frame its key governs. |
| `KeyframeSchedules.FrameExactly` | reference/diffusers/deforum_schedules.py:94-99 | A text names a frame exactly if it is a static expression whose value is that frame of the animation. |
| `KeyframeSchedules.KeyframeExactly` | reference/diffusers/deforum_schedules.py:91-102 | An entry is a keyframe exactly if it is a frame, the first colon and an expression in parentheses that has a value at that frame. |
| `KeyframeSchedules.PlainTextIsOneKey` | reference/diffusers/deforum_schedules.py:88-103 | A text without a colon is one expression for frame 0; any other is read as it is. |
| `KeyframeSchedules.AtIsBounded` | reference/diffusers/deforum_schedules.py:52-116 | Every value at every frame is within 1e12. |
| `KeyframeSchedules.AtFailsExactly` | reference/diffusers/deforum_schedules.py:105-116 | A lookup in a valid schedule fails exactly outside the animation or where the governing expression uses t and fails at that frame. |
| `KeyframeSchedules.ReadKeyframes` | reference/diffusers/deforum_schedules.py:89-102 | The constructor's loop reads the entries exactly when each is a keyframe and no frame repeats, and keeps exactly those keyframes. |
| `KeyframeSchedules.ReadNumeric` | reference/diffusers/deforum_schedules.py:83-103 | A text is accepted exactly when its pieces are keyframes of different frames within the animation; the schedule then is valid. |
| `PromptSchedules.CanonicalIsDecimal` | reference/diffusers/deforum_schedules.py:126-131 | A canonical key is the decimal form of its frame number. |
| `PromptSchedules.DecimalIsCanonical` | reference/diffusers/deforum_schedules.py:126 | Every decimal form is canonical, so the keys are exactly the numbers. |
| `PromptSchedules.UsableExactly` | reference/diffusers/deforum_schedules.py:126-128 | An item is usable exactly if it is a text under the decimal form of a frame of the animation below ten million. |
| `PromptSchedules.NumbersDiffer` | reference/diffusers/deforum_schedules.py:131 | Different canonical keys are different frames, so no prompt is lost. |
| `PromptSchedules.ReadPrompts` | reference/diffusers/deforum_schedules.py:123-133 | Objects are accepted exactly by their keys and values, and every prompt is kept under its frame. |
| `PromptSchedules.PromptOfLastKey` | reference/diffusers/deforum_schedules.py:134-137 | Every frame has the prompt of the last key not after it. |
| `Sorting.SortSorts` | reference/diffusers/downloaded_model.py:129 | The stable sort used by the models is sorted and a permutation. |
| `Sorting.SortKeepsDistinct` | reference/diffusers/deforum_schedules.py:103 | Sorting different keys keeps them different and keeps them all. |

## Left out

- Floating-point rounding: scales, weights, ratios, coordinates and expression values are exact reals; half-up and half-to-even rounding to integers is kept. Overflow of floats to infinity is not modelled.
- Publication: operations of the rollback itself succeed, nobody else writes the targets, and power loss is not modelled; asynchronous interrupts between an operation and its bookkeeping are not either. Which temporary name the private directory gets is abstracted.
- Texts: stripping removes ASCII white space only.
- Encoding of frames, FFmpeg, image codecs and the contents of metadata.
- Pipelines: device tensors, array subclasses and object arrays are values no port accepts; a callback's result is a function of the contents of its arguments; the list of architectures in a result is not returned.
- WorkflowGraph.CycleCheck.Visit: Python's recursion limit is not modelled.
- Workflow schemas: JSON parsing, HTTP, polling and downloads, and the recipes of particular model families.
- Sessions: a signature is a list of paths with versions and identifies content; directories, hashing and device selection are abstracted. A callback reads each source at one moment. Loaders that call the pipeline cache again are not modelled, deep copies of configurations are values, and what a preparation reuses of the previous placement is left open. Configuration readers do not call the cache again, runtime release callbacks and their exceptions are left out, and so is what requests change inside a held pipeline object and what restoring its scheduler undoes.
- InferenceWorker.Handle: elapsed time, error texts and model-hash counters of a result are not modelled, and decoding a line is a case distinction. Files are not edited between the end of the generation code and the verification after it.
- MergeTensor.MergeTensor: storage dtypes, `safe_storage`, clamping, the final finiteness check and reports are not modelled; how an adapter's delta is computed and repaired is a parameter, and so is the rows' offset.
- MergeTensor.MergeStored: covers merges with repair; tensors kept as they are by their role and integer buffers of strict merges return before it.
- LoraDeltas.PairKeys: matching of key spellings, scalar alphas, rank and scaling configuration, and resolution of targets come before and are not modelled; mixed adapter names are not either.
- HiresStages.ResolveStageSizes: scales that are not finite and products that overflow a float are refused in the source and cannot be written here.
- SafetensorsTiling.ReadDescriptors: reading the header bytes, JSON parsing, duplicate keys and the metadata entry come before it; entries are the remaining key and descriptor pairs.
- ScheduleExpressions.Evaluate: parsing is a parameter, as are powers and the named functions, which may fail.
- GGUF and pickle readers, catalogue and preset data, option parsing, remote generation, role and family tables, and the plumbing between them.

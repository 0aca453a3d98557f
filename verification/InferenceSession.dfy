/**
 The resident inference session: one pipeline, one placement of it, and a bounded configuration
 cache, over any run of requests, failures and file edits
 (reference/diffusers/inference_session.py).

 A session keeps the log of what happened to it. The fields are proved to be what the log says
 they should be, and what the log says is explained by the lemmas at the end.
 */
module InferenceSession {
  import opened Options
  import opened SourceFiles
  import opened ConfigurationLru

  /** A prepared placement; the serial number tells two preparations apart. */
  datatype Placement = Placement(key: Option<string>, serial: nat)

  datatype Execution = Execution(device: string, offload: string, model: string)

  datatype Event =
    | Cleared
    | LoadStarted
    | Loaded(key: string, sources: seq<string>, model: Model)
    | PipelineHit
    | Invalidated
    | PlacementStarted
    | Placed(key: string, placement: Placement, model: Model)
    | PlacementHit
    | ConfigurationRead
    | ConfigurationHit
    | DevicePlaced
    | Recorded(execution: Execution)
    | Hidden

  datatype Held = Held(key: string, sources: seq<string>, model: Model)

  datatype PlacedAs = PlacedAs(key: string, placement: Placement)

  /** The pipeline the log says is held: the last one loaded, unless it was cleared since. */
  ghost function HeldPipeline(log: seq<Event>): Option<Held> {
    if log == [] then None
    else match log[|log| - 1]
      case Cleared => None
      case Loaded(key, sources, model) => Some(Held(key, sources, model))
      case _ => HeldPipeline(log[..|log| - 1])
  }

  /** The placement the log says is current: the last one made, unless it was dropped since. */
  ghost function CurrentPlacement(log: seq<Event>): Option<PlacedAs> {
    if log == [] then None
    else match log[|log| - 1]
      case Cleared => None
      case Invalidated => None
      case PlacementStarted => None
      case Placed(key, placement, model) => Some(PlacedAs(key, placement))
      case _ => CurrentPlacement(log[..|log| - 1])
  }

  /** The execution the log says makes the session ready: the last one recorded, unless cleared or hidden since. */
  ghost function CurrentExecution(log: seq<Event>): Option<Execution> {
    if log == [] then None
    else match log[|log| - 1]
      case Cleared => None
      case Hidden => None
      case Recorded(execution) => Some(execution)
      case _ => CurrentExecution(log[..|log| - 1])
  }

  ghost function Count(log: seq<Event>, event: Event): nat {
    if log == [] then 0 else Count(log[..|log| - 1], event) + if log[|log| - 1] == event then 1 else 0
  }

  lemma {:induction false} CountSplits(log: seq<Event>, n: nat, event: Event)
    requires n <= |log|
    ensures Count(log, event) == Count(log[..n], event) + Count(log[n..], event)
  {
    if n < |log| {
      assert log[..|log| - 1][..n] == log[..n] && log[..|log| - 1][n..] == log[n..][..|log[n..]| - 1];
      CountSplits(log[..|log| - 1], n, event);
    } else {
      assert log[..n] == log;
    }
  }

  /** A pipeline is loaded only into a cleared session, and placed only while it is held. */
  ghost predicate Orderly(log: seq<Event>) {
    log != [] ==>
      var before := log[..|log| - 1];
      && Orderly(before)
      && match log[|log| - 1]
         case Loaded(key, sources, model) => HeldPipeline(before).None? && CurrentPlacement(before).None?
         case Placed(key, placement, model) => HeldPipeline(before).Some? && HeldPipeline(before).value.model == model
         case _ => true
  }

  /**
   The dictionary is a least-recently-used cache of what reading gave for its entries' signatures:
   of all present sources always, and of all sources unless the reading glimpsed a missing one.
   */
  ghost predicate CachesParsed(configurations: Ordered<Cached>, recency: Timed<Cached>, glimpsed: set<string>) {
    && Refines(configurations, recency)
    && forall entry <- configurations :: RightFor(entry.1.parsed, entry.0, entry.1.signature, glimpsed)
  }

  /** The keys whose last reading met a source that was missing when it began and when it ended. */
  ghost function GlimpsedAfter(
    glimpsed: set<string>, key: string, history: seq<Moment>, start: nat, paths: seq<string>): set<string>
    requires start < |history|
  {
    if Appears(history, start, paths) then glimpsed + {key} else glimpsed - {key}
  }

  /** Only the key that was read is judged anew, by whether a source that was missing appeared. */
  lemma GlimpsedExactly(glimpsed: set<string>, key: string, history: seq<Moment>, start: nat, paths: seq<string>)
    requires start < |history|
    ensures forall other: string :: other in GlimpsedAfter(glimpsed, key, history, start, paths) <==>
      if other != key then other in glimpsed
      else exists m: nat, path: string :: start <= m < |history| && path in paths
             && path !in history[start].versions && path in history[m].versions
  {
  }

  /** A configuration is what reading its sources gives when they have this signature. */
  ghost predicate RightFor(parsed: Parsed, key: string, signature: Signature, glimpsed: set<string>) {
    && parsed.key == key && Agrees(parsed.content, signature)
    && (key !in glimpsed ==> parsed.content == signature)
  }

  /** The pipeline fields are what the log says is held, and what its signature's content gives. */
  ghost predicate HoldsPipeline(
    value: Option<Model>, key: Option<string>, sources: seq<string>, signature: Option<Signature>,
    execution: Option<Execution>, log: seq<Event>)
  {
    && (value.Some? <==> key.Some? && signature.Some?)
    && CurrentExecution(log) == execution && (execution.Some? ==> value.Some?)
    && (value.Some? ==> value.value == Model(key.value, signature.value))
    && (value.Some? ==> Paths(signature.value) == sources)
    && HeldPipeline(log) == if value.Some? then Some(Held(key.value, sources, value.value)) else None
  }

  /** The placement fields are what the log says is current; there is one only with a pipeline. */
  ghost predicate HoldsPlacement(key: Option<string>, placement: Option<Placement>, held: bool, log: seq<Event>) {
    && (key.Some? <==> placement.Some?) && (key.Some? ==> held)
    && CurrentPlacement(log) == if key.Some? then Some(PlacedAs(key.value, placement.value)) else None
  }

  datatype Counters = Counters(
    hits: nat, loads: nat, configurationReads: nat, configurationHits: nat, devicePlacements: nat, placementHits: nat)

  ghost predicate Counts(c: Counters, log: seq<Event>) {
    && c.hits == Count(log, PipelineHit) && c.loads == Count(log, LoadStarted)
    && c.configurationReads == Count(log, ConfigurationRead) && c.configurationHits == Count(log, ConfigurationHit)
    && c.devicePlacements == Count(log, DevicePlaced) && c.placementHits == Count(log, PlacementHit)
  }

  /** What one event adds to the counters. */
  ghost function Counted(c: Counters, event: Event): Counters {
    match event
    case PipelineHit => c.(hits := c.hits + 1)
    case LoadStarted => c.(loads := c.loads + 1)
    case ConfigurationRead => c.(configurationReads := c.configurationReads + 1)
    case ConfigurationHit => c.(configurationHits := c.configurationHits + 1)
    case DevicePlaced => c.(devicePlacements := c.devicePlacements + 1)
    case PlacementHit => c.(placementHits := c.placementHits + 1)
    case _ => c
  }

  datatype Cached = Cached(signature: Signature, parsed: Parsed)

  /** How a callback ends: with a code, with SystemExit and its code when that is an integer, or with an exception. */
  datatype Outcome = Returned(code: int) | SystemExit(status: Option<int>) | Raised

  /**
   How the generation code of one request ended, whether the sources of what was held were then as they
   were when it was loaded, and whether an execution had been recorded for a pipeline that was held.
   */
  datatype Ending = Ending(outcome: Outcome, intact: bool, prepared: bool)

  class InferenceSession {
    const files: Files
    var value: Option<Model>
    var key: Option<string>
    var sources: seq<string>
    var signature: Option<Signature>
    var hits: nat
    var loads: nat
    var placementKey: Option<string>
    var placementValue: Option<Placement>
    var devicePlacements: nat
    var devicePlacementHits: nat
    var configurations: Ordered<Cached>
    var configurationReads: nat
    var configurationHits: nat
    var foreground: bool
    var preparing: bool
    var execution: Option<Execution>
    var preparationRecorded: bool
    var serial: nat
    ghost var log: seq<Event>
    ghost var recency: Timed<Cached>
    ghost var ended: seq<Ending>  // every run of generation code so far
    ghost var glimpsed: set<string>  // keys whose last reading met a source that was missing before and after

    constructor (files: Files)
      requires files.Valid()
      ensures this.files == files && fresh(this) && Valid() && log == [] && configurations == [] && ended == []
    {
      this.files := files;
      value, key, sources, signature := None, None, [], None;
      hits, loads, devicePlacements, devicePlacementHits, configurationReads, configurationHits := 0, 0, 0, 0, 0, 0;
      placementKey, placementValue, execution := None, None, None;
      configurations, serial := [], 0;
      foreground, preparing, preparationRecorded := false, false, false;
      log, recency, glimpsed, ended := [], Timed(map[], map[], 0), {}, [];
      new;
      EmptyRefines<Cached>();
    }

    ghost predicate Valid()
      reads this, files
    {
      && files.Valid() && Orderly(log)
      && HoldsPipeline(value, key, sources, signature, execution, log)
      && HoldsPlacement(placementKey, placementValue, value.Some?, log)
      && Counts(Statistics(), log) && CachesParsed(configurations, recency, glimpsed)
    }

    /** The session holds a pipeline, a placement or readiness. */
    ghost predicate Nonempty()
      reads this
    {
      value.Some? || placementKey.Some? || placementValue.Some? || execution.Some?
    }

    /** The sources of what is held are what they were when it was loaded. */
    ghost predicate Intact()
      requires files.history != []
      reads this, files
    {
      value.Some? ==> files.AllPresent(sources) && signature == Some(files.SignatureOf(sources))
    }

    twostate predicate KeepsPipeline()
      reads this
    {
      && value == old(value) && key == old(key) && sources == old(sources) && signature == old(signature)
      && hits == old(hits) && loads == old(loads)
    }

    twostate predicate KeepsPlacement()
      reads this
    {
      && placementKey == old(placementKey) && placementValue == old(placementValue)
      && devicePlacements == old(devicePlacements) && devicePlacementHits == old(devicePlacementHits)
    }

    twostate predicate KeepsConfigurations()
      reads this
    {
      && configurations == old(configurations) && recency == old(recency) && glimpsed == old(glimpsed)
      && configurationReads == old(configurationReads) && configurationHits == old(configurationHits)
    }

    twostate predicate KeepsMode()
      reads this
    {
      && foreground == old(foreground) && preparing == old(preparing) && preparationRecorded == old(preparationRecorded)
      && ended == old(ended)
    }

    function Statistics(): Counters
      reads this
    {
      Counters(hits, loads, configurationReads, configurationHits, devicePlacements, devicePlacementHits)
    }

    method Clear()
      requires Valid()
      modifies this
      ensures Valid() && !Nonempty() && log == old(log) + [Cleared]
      ensures KeepsConfigurations() && KeepsMode() && Statistics() == old(Statistics())
    {
      hide HeldPipeline, CurrentPlacement, CurrentExecution, Count, Orderly, HoldsPipeline, HoldsPlacement, Counts, CachesParsed, Paths,
           History, Moment.SignatureOf, Moment.AllPresent;
      AfterCleared(Statistics(), log);
      Forget();
      log := log + [Cleared];
    }

    method Forget()
      modifies `value, `key, `signature, `sources, `placementKey, `placementValue, `execution
      ensures !Nonempty() && key.None? && signature.None? && sources == []
    {
      value, key, signature := None, None, None;
      placementKey, placementValue := None, None;
      sources := [];
      execution := None;
    }

    // ---- Configurations ----

    /**
     The bounded configuration cache. Whatever is returned is what reading would give now of every
     source that is present; of missing ones too, unless the reading met one that came and went. The
     dictionary stays the least-recently-used cache its recency says it is.
     */
    method Configuration(key: string, paths: seq<string>) returns (parsed: Option<Parsed>)
      requires Valid()
      modifies this, files
      ensures Valid() && old(files.history) <= files.history && old(log) <= log
      ensures parsed.Some? ==> RightFor(parsed.value, key, files.SignatureOf(paths), glimpsed)
      ensures parsed.Some? && files.AllPresent(paths) ==> parsed.value == Parsed(key, files.SignatureOf(paths))
      ensures KeepsPipeline() && KeepsPlacement() && KeepsMode() && execution == old(execution)
      // A hit only reads the files; anything else counts as a read, and each call counts once.
      ensures configurationHits + configurationReads == old(configurationHits + configurationReads) + 1
      ensures if key in old(recency).values && old(recency).values[key].signature == old(files.SignatureOf(paths)) then
          && configurationHits == old(configurationHits) + 1 && glimpsed == old(glimpsed)
          && parsed == Some(old(recency).values[key].parsed)
          && recency == Touched(old(recency), key) && files.history == old(files.history)
        else
          && configurationReads == old(configurationReads) + 1
          && glimpsed == GlimpsedAfter(old(glimpsed), key, files.history, |old(files.history)| - 1, paths)
          && if parsed.None? then recency == Dropped(old(recency), key)
             else Puts(Dropped(old(recency), key), key, Cached(files.SignatureOf(paths), parsed.value), recency)
    {
      hide HeldPipeline, CurrentPlacement, CurrentExecution, Count, Orderly, HoldsPipeline, HoldsPlacement, Counts, CachesParsed, RightFor,
           MovedToEnd, Touched, Dropped, Puts, Paths,
           History, Moment.SignatureOf, Moment.AllPresent;
      var now := files.SignatureOf(paths);
      CachedIsRight(configurations, recency, glimpsed, key);
      var found := Position(configurations, key);
      if found.None? || configurations[found.value].1.signature != now {
        parsed := ReadConfiguration(key, paths);
        return;
      }
      parsed := Some(configurations[found.value].1.parsed);
      RightWhenPresent(files, paths, parsed.value, key, glimpsed);
      UseConfiguration(key);
    }

    /** A hit: the entry moves to the end. */
    method UseConfiguration(key: string)
      requires Valid() && key in recency.values
      modifies `configurations, `configurationHits, `recency, `log
      ensures Valid() && recency == Touched(old(recency), key) && configurationHits == old(configurationHits) + 1
      ensures old(log) <= log
    {
      hide HeldPipeline, CurrentPlacement, CurrentExecution, Count, Orderly, HoldsPipeline, HoldsPlacement, Counts, CachesParsed, MovedToEnd,
           Touched, Paths,
           History, Moment.SignatureOf, Moment.AllPresent;
      MovedIsRight(configurations, recency, glimpsed, key);
      AfterCounted(value, this.key, this.sources, signature, execution, placementKey, placementValue, Statistics(), log, ConfigurationHit);
      configurations, configurationHits := MovedToEnd(configurations, key), configurationHits + 1;
      recency, log := Touched(recency, key), log + [ConfigurationHit];
    }

    /** Lines 125-133: the entry that was there goes first, whether or not reading succeeds. */
    method ReadConfiguration(key: string, paths: seq<string>) returns (parsed: Option<Parsed>)
      requires Valid()
      modifies this, files
      ensures Valid() && old(files.history) <= files.history && old(log) <= log
      ensures parsed.Some? ==> RightFor(parsed.value, key, files.SignatureOf(paths), glimpsed)
      ensures parsed.Some? && files.AllPresent(paths) ==> parsed.value == Parsed(key, files.SignatureOf(paths))
      ensures KeepsPipeline() && KeepsPlacement() && KeepsMode() && execution == old(execution)
      ensures configurationHits == old(configurationHits) && configurationReads == old(configurationReads) + 1
      ensures glimpsed == GlimpsedAfter(old(glimpsed), key, files.history, |old(files.history)| - 1, paths)
      ensures if parsed.None? then recency == Dropped(old(recency), key)
        else Puts(Dropped(old(recency), key), key, Cached(files.SignatureOf(paths), parsed.value), recency)
    {
      hide HeldPipeline, CurrentPlacement, CurrentExecution, Count, Orderly, HoldsPipeline, HoldsPlacement, Counts, CachesParsed, RightFor,
           Stored, Without, Dropped, Puts, GlimpsedAfter, Paths,
           History, Moment.SignatureOf, Moment.AllPresent;
      var now := files.SignatureOf(paths);
      DropConfiguration(key);
      parsed := RunReader(key, paths);
      ghost var before := glimpsed;
      NewlyGlimpsed(configurations, recency, glimpsed, key, files.history, |old(files.history)| - 1, paths);
      glimpsed := GlimpsedAfter(glimpsed, key, files.history, |old(files.history)| - 1, paths);
      if parsed.None? || files.SignatureOf(paths) != now {
        return None;
      }
      ReadIsRight(files.history, |old(files.history)| - 1, paths, parsed.value, key, before);
      RightWhenPresent(files, paths, parsed.value, key, glimpsed);
      KeepConfiguration(key, Cached(now, parsed.value));
    }

    method DropConfiguration(key: string)
      requires Valid()
      modifies `configurations, `configurationReads, `recency, `log
      ensures Valid() && recency == Dropped(old(recency), key) && configurationReads == old(configurationReads) + 1
      ensures Position(configurations, key).None? && key !in recency.values && old(log) <= log
    {
      hide HeldPipeline, CurrentPlacement, CurrentExecution, Count, Orderly, HoldsPipeline, HoldsPlacement, Counts, CachesParsed, Without,
           Dropped, Paths,
           History, Moment.SignatureOf, Moment.AllPresent;
      WithoutIsRight(configurations, recency, glimpsed, key);
      AfterCounted(value, this.key, this.sources, signature, execution, placementKey, placementValue, Statistics(), log, ConfigurationRead);
      configurations, configurationReads := Without(configurations, key), configurationReads + 1;
      recency, log := Dropped(recency, key), log + [ConfigurationRead];
    }

    method KeepConfiguration(key: string, cached: Cached)
      requires Valid() && key !in recency.values && RightFor(cached.parsed, key, cached.signature, glimpsed)
      modifies `configurations, `recency
      ensures Valid() && Puts(old(recency), key, cached, recency)
    {
      hide HeldPipeline, CurrentPlacement, CurrentExecution, Count, Orderly, HoldsPipeline, HoldsPlacement, Counts, CachesParsed, RightFor,
           Stored, Puts, Paths,
           History, Moment.SignatureOf, Moment.AllPresent;
      ghost var after := StoredIsRight(configurations, recency, glimpsed, key, cached);
      configurations := Stored(configurations, key, cached);
      recency := after;
    }

    /**
     A reader runs while files may be edited, and reads each source at some moment meanwhile. It
     can fail.
     */
    method RunReader(key: string, paths: seq<string>) returns (parsed: Option<Parsed>)
      requires files.Valid()
      modifies files
      ensures files.Valid() && old(files.history) <= files.history
      ensures parsed.Some? ==> parsed.value.key == key && exists at: seq<nat> ::
        Reads(files.history, |old(files.history)| - 1, paths, at)
        && parsed.value.content == Seen(files.history, paths, at)
    {
      var start := |files.history| - 1;
      files.Edit();
      var seen := files.Read(paths, start);
      var fails: bool := *;
      if fails {
        return None;
      }
      return Some(Parsed(key, seen));
    }

    // ---- The pipeline ----

    /** A loader reads its sources like a reader does; it may itself read configurations. */
    method RunLoader(key: Option<string>, sources: seq<string>) returns (model: Option<Model>)
      requires Valid() && !Nonempty()
      modifies this, files
      ensures Valid() && !Nonempty() && old(files.history) <= files.history && old(log) <= log
      ensures KeepsPipeline() && KeepsPlacement() && KeepsMode()
      ensures model.Some? && key.Some? ==> model.value.key == key.value && exists at: seq<nat> ::
        Reads(files.history, |old(files.history)| - 1, sources, at)
        && model.value.content == Seen(files.history, sources, at)
    {
      hide HeldPipeline, CurrentPlacement, CurrentExecution, Count, Orderly, HoldsPipeline, HoldsPlacement, Counts,
           CachesParsed, RightFor, Touched, Dropped, Puts, Paths, History, Moment.SignatureOf, Moment.AllPresent;
      var start := |files.history| - 1;
      ConfigureOnce();
      files.Edit();
      ConfigureOnce();
      var seen := files.Read(sources, start);
      var fails: bool, name: string := *, *;
      if fails {
        return None;
      }
      return Some(Model(if key.Some? then key.value else name, seen));
    }

    /** A loader's use of the configuration cache, or none. */
    method ConfigureOnce()
      requires Valid() && !Nonempty()
      modifies this, files
      ensures Valid() && !Nonempty() && old(files.history) <= files.history && old(log) <= log
      ensures KeepsPipeline() && KeepsPlacement() && KeepsMode()
    {
      hide HeldPipeline, CurrentPlacement, CurrentExecution, Count, Orderly, HoldsPipeline, HoldsPlacement, Counts,
           CachesParsed, RightFor, Touched, Dropped, Puts, Paths, History, Moment.SignatureOf, Moment.AllPresent;
      var configures: bool := *;
      if configures {
        var configuration: string, paths: seq<string> := *, *;
        var _ := Configuration(configuration, paths);
      }
    }

    /**
     The one-slot pipeline cache. With a key, whatever is returned is what the loader would return
     now; a call that fails after it looked at the sources leaves nothing held.
     */
    method Pipeline(key: Option<string>, sources: seq<string>) returns (result: Option<(Model, bool)>)
      requires Valid()
      modifies this, files
      ensures Valid() && old(files.history) <= files.history && old(log) <= log
      ensures KeepsMode() && devicePlacements == old(devicePlacements) && devicePlacementHits == old(devicePlacementHits)
      ensures result.Some? && key.Some? ==>
        && result.value.0 == Model(key.value, files.SignatureOf(sources))
        && value == Some(result.value.0) && this.key == key && this.sources == sources
      // It is a hit exactly when the held pipeline was built under this key from what the sources are now.
      ensures (result.Some? && result.value.1) == old(
        key.Some? && files.AllPresent(sources) && value.Some? && this.key == key && signature == Some(files.SignatureOf(sources)))
      ensures result.Some? && result.value.1 ==>
        hits == old(hits) + 1 && loads == old(loads) && KeepsPlacement() && KeepsConfigurations() && execution == old(execution)
      ensures result.Some? && !result.value.1 ==>
        hits == old(hits) && loads == old(loads) + 1 && placementValue.None? && execution.None?
      ensures result.None? ==>
        if key.Some? && !old(files.AllPresent(sources)) then log == old(log) && value == old(value)
        else !Nonempty() && loads == old(loads) + 1
    {
      hide HeldPipeline, CurrentPlacement, CurrentExecution, Count, Orderly, HoldsPipeline, HoldsPlacement, Counts, CachesParsed, Paths,
           History, Moment.SignatureOf, Moment.AllPresent;
      if key.Some? && !files.AllPresent(sources) {
        return None;
      }
      var now := files.SignatureOf(sources);
      if key.Some? && value.Some? && this.key == key && signature == Some(now) {
        PathsOfSignature(files, sources);
        PipelineFacts(value, this.key, this.sources, signature, execution, log);
        AfterCounted(value, this.key, this.sources, signature, execution, placementKey, placementValue, Statistics(), log, PipelineHit);
        hits, log := hits + 1, log + [PipelineHit];
        return Some((value.value, true));
      }
      result := Load(key, sources);
    }

    /** Lines 93-101: the previous model is released before its replacement is built. */
    method Load(key: Option<string>, sources: seq<string>) returns (result: Option<(Model, bool)>)
      requires Valid()
      modifies this, files
      ensures Valid() && old(files.history) <= files.history && old(log) <= log
      ensures KeepsMode() && devicePlacements == old(devicePlacements) && devicePlacementHits == old(devicePlacementHits)
      ensures hits == old(hits) && loads == old(loads) + 1 && placementValue.None? && execution.None?
      ensures result.Some? ==> !result.value.1
      ensures result.Some? && key.Some? ==>
        && result.value.0 == Model(key.value, files.SignatureOf(sources))
        && value == Some(result.value.0) && this.key == key && this.sources == sources
      ensures result.None? ==> !Nonempty()
    {
      hide HeldPipeline, CurrentPlacement, CurrentExecution, Count, Orderly, HoldsPipeline, HoldsPlacement, Counts, CachesParsed, Paths,
           History, Moment.SignatureOf, Moment.AllPresent;
      var now := files.SignatureOf(sources);
      Clear();
      AfterCounted(value, this.key, this.sources, signature, execution, placementKey, placementValue, Statistics(), log, LoadStarted);
      loads, log := loads + 1, log + [LoadStarted];
      var model := RunLoader(key, sources);
      if model.None? {
        return None;
      }
      if key.Some? {
        if !files.AllPresent(sources) || files.SignatureOf(sources) != now {
          return None;
        }
        LoadIsCurrent(files.history, |old(files.history)| - 1, sources, model.value);
        Keep(key.value, sources);
      }
      return Some((model.value, false));
    }

    /** The last line of a successful load: what was built is what these sources give now. */
    method Keep(key: string, sources: seq<string>)
      requires Valid() && !Nonempty()
      modifies this`key, this`sources, this`signature, this`value, this`log
      ensures Valid() && value == Some(Model(key, files.SignatureOf(sources))) && this.key == Some(key) && this.sources == sources
      ensures log == old(log) + [Loaded(key, sources, Model(key, files.SignatureOf(sources)))]
    {
      hide HeldPipeline, CurrentPlacement, CurrentExecution, Count, Orderly, HoldsPipeline, HoldsPlacement, Counts, CachesParsed, Paths,
           History, Moment.SignatureOf, Moment.AllPresent;
      PathsOfSignature(files, sources);
      var now := files.SignatureOf(sources);
      PipelineFacts(value, this.key, this.sources, signature, execution, log);
      PlacementFacts(placementKey, placementValue, false, log);
      AfterLoaded(key, sources, now, Statistics(), log);
      this.key, this.sources, signature, value := Some(key), sources, Some(now), Some(Model(key, now));
      log := log + [Loaded(key, sources, Model(key, now))];
    }

    /** Sources that changed under a held pipeline make verification fail and the pipeline go. */
    method Verify() returns (ok: bool)
      requires Valid()
      modifies this
      ensures Valid() && KeepsConfigurations() && KeepsMode() && Statistics() == old(Statistics()) && old(log) <= log
      ensures ok <==> (old(value).Some? ==> files.AllPresent(old(sources)) && Some(files.SignatureOf(old(sources))) == old(signature))
      ensures ok ==> KeepsPipeline() && KeepsPlacement() && execution == old(execution)
      ensures !ok && files.AllPresent(old(sources)) ==> !Nonempty()
    {
      if value.Some? {
        if !files.AllPresent(sources) {
          return false;
        }
        if signature != Some(files.SignatureOf(sources)) {
          Clear();
          return false;
        }
      }
      return true;
    }

    // ---- The placement ----

    /**
     A placement is prepared from the held pipeline, perhaps with parts of the previous one; it may
     fail, and may count device placements.
     */
    method RunPrepare(key: Option<string>) returns (placement: Option<Placement>)
      requires Valid() && placementKey.None?
      modifies this`devicePlacements, this`log, this`serial
      ensures Valid() && CurrentPlacement(log).None? && old(log) <= log
      ensures placement.Some? ==> placement.value.key == key && old(serial) == placement.value.serial < serial
      ensures placement.None? ==> old(serial) <= serial
    {
      hide HeldPipeline, CurrentPlacement, CurrentExecution, Count, Orderly, HoldsPipeline, HoldsPlacement, Counts, CachesParsed, Paths,
           History, Moment.SignatureOf, Moment.AllPresent;
      var placements: int :| 0 <= placements;
      for i := 0 to placements
        invariant Valid() && serial == old(serial) && old(log) <= log
      {
        RecordDevicePlacement();
      }
      PlacementFacts(placementKey, placementValue, value.Some?, log);
      var fails: bool := *;
      if fails {
        return None;
      }
      placement := Some(Placement(key, serial));
      serial := serial + 1;
    }

    method RecordDevicePlacement()
      requires Valid()
      modifies this`devicePlacements, this`log
      ensures Valid() && devicePlacements == old(devicePlacements) + 1 && old(log) <= log
    {
      hide HeldPipeline, CurrentPlacement, CurrentExecution, Count, Orderly, HoldsPipeline, HoldsPlacement, Counts, CachesParsed, Paths,
           History, Moment.SignatureOf, Moment.AllPresent;
      AfterCounted(value, this.key, this.sources, signature, execution, placementKey, placementValue, Statistics(), log, DevicePlaced);
      devicePlacements, log := devicePlacements + 1, log + [DevicePlaced];
    }

    /** The placement cache; a placement that fails half way takes the pipeline with it. */
    method Place(key: Option<string>) returns (result: Option<(Placement, bool)>)
      requires Valid()
      modifies this
      ensures Valid() && KeepsConfigurations() && KeepsMode() && hits == old(hits) && loads == old(loads) && old(log) <= log
      ensures (result.Some? && result.value.1) == old(key.Some? && value.Some? && placementKey == key)
      ensures result.Some? && result.value.1 ==>
        && key.Some? && value.Some? && value == old(value)
        && old(CurrentPlacement(log)) == Some(PlacedAs(key.value, result.value.0))
        && devicePlacementHits == old(devicePlacementHits) + 1 && placementValue == old(placementValue)
      ensures result.Some? && !result.value.1 ==>
        && value == old(value) && result.value.0.key == key && devicePlacementHits == old(devicePlacementHits)
        && (key.Some? && value.Some? ==> CurrentPlacement(log) == Some(PlacedAs(key.value, result.value.0)))
        && (key.None? || value.None? ==> CurrentPlacement(log).None?)
      ensures result.None? ==> !Nonempty()
    {
      hide HeldPipeline, CurrentPlacement, CurrentExecution, Count, Orderly, HoldsPipeline, HoldsPlacement, Counts, CachesParsed, Paths,
           History, Moment.SignatureOf, Moment.AllPresent;
      PlacementFacts(placementKey, placementValue, value.Some?, log);
      if key.Some? && value.Some? && placementKey == key {
        UsePlacement();
        return Some((placementValue.value, true));
      }
      DropPlacement();
      var placement := RunPrepare(key);
      if placement.None? {
        Clear();
        return None;
      }
      if key.Some? && value.Some? {
        SetPlacement(key.value, placement.value);
      }
      return Some((placement.value, false));
    }

    /** A hit counts and changes nothing else. */
    method UsePlacement()
      requires Valid()
      modifies `devicePlacementHits, `log
      ensures Valid() && devicePlacementHits == old(devicePlacementHits) + 1 && old(log) <= log
    {
      hide HeldPipeline, CurrentPlacement, CurrentExecution, Count, Orderly, HoldsPipeline, HoldsPlacement, Counts,
           CachesParsed, Paths, History, Moment.SignatureOf, Moment.AllPresent;
      AfterCounted(value, this.key, this.sources, signature, execution, placementKey, placementValue, Statistics(), log, PlacementHit);
      devicePlacementHits, log := devicePlacementHits + 1, log + [PlacementHit];
    }

    /** What a preparation begins with. */
    method DropPlacement()
      requires Valid()
      modifies `placementKey, `placementValue, `log
      ensures Valid() && placementKey.None? && old(log) <= log
    {
      hide HeldPipeline, CurrentPlacement, CurrentExecution, Count, Orderly, HoldsPipeline, HoldsPlacement, Counts, CachesParsed, Paths,
           History, Moment.SignatureOf, Moment.AllPresent;
      AfterDropped(value, key, sources, signature, execution, Statistics(), log, PlacementStarted);
      placementKey, placementValue, log := None, None, log + [PlacementStarted];
    }

    /** What a preparation ends with, when there is a key and a pipeline to keep it for. */
    method SetPlacement(key: string, placement: Placement)
      requires Valid() && value.Some?
      modifies `placementKey, `placementValue, `log
      ensures Valid() && CurrentPlacement(log) == Some(PlacedAs(key, placement)) && old(log) <= log
    {
      hide HeldPipeline, CurrentPlacement, CurrentExecution, Count, Orderly, HoldsPipeline, HoldsPlacement, Counts, CachesParsed, Paths,
           History, Moment.SignatureOf, Moment.AllPresent;
      AfterPlaced(value, this.key, sources, signature, execution, Statistics(), log, key, placement);
      placementKey, placementValue := Some(key), Some(placement);
      log := log + [Placed(key, placement, value.value)];
    }

    method InvalidatePlacement()
      requires Valid()
      modifies this
      ensures Valid() && KeepsPipeline() && KeepsConfigurations() && KeepsMode() && old(log) <= log
      ensures placementKey.None? && CurrentPlacement(log).None? && execution == old(execution)
    {
      hide HeldPipeline, CurrentPlacement, CurrentExecution, Count, Orderly, HoldsPipeline, HoldsPlacement, Counts, CachesParsed, Paths,
           History, Moment.SignatureOf, Moment.AllPresent;
      AfterDropped(value, key, sources, signature, execution, Statistics(), log, Invalidated);
      placementKey, placementValue, log := None, None, log + [Invalidated];
    }

    // ---- Readiness ----

    method RecordExecution(device: string, offload: string, model: string)
      requires Valid()
      modifies this`execution, this`preparationRecorded, this`log
      ensures Valid()
      ensures if value.Some? then
          && execution == Some(Execution(device, offload, model)) && preparationRecorded
          && log == old(log) + [Recorded(Execution(device, offload, model))]
        else execution == old(execution) && preparationRecorded == old(preparationRecorded) && log == old(log)
    {
      hide HeldPipeline, CurrentPlacement, CurrentExecution, Count, Orderly, HoldsPipeline, HoldsPlacement, Counts,
           CachesParsed, Paths, History, Moment.SignatureOf, Moment.AllPresent;
      if value.Some? {
        var recorded := Execution(device, offload, model);
        AfterReadiness(value, key, sources, signature, execution, placementKey, placementValue, Statistics(), log, Recorded(recorded));
        execution, preparationRecorded, log := Some(recorded), true, log + [Recorded(recorded)];
      }
    }

    method HideReadiness()
      requires Valid()
      modifies this`execution, this`log
      ensures Valid() && execution.None? && log == old(log) + [Hidden]
    {
      hide HeldPipeline, CurrentPlacement, CurrentExecution, Count, Orderly, HoldsPipeline, HoldsPlacement, Counts,
           CachesParsed, Paths, History, Moment.SignatureOf, Moment.AllPresent;
      AfterReadiness(value, key, sources, signature, execution, placementKey, placementValue, Statistics(), log, Hidden);
      execution, log := None, log + [Hidden];
    }

    /** Explicit release; the runtime's own release callbacks are not part of this model. */
    method Release()
      requires Valid()
      modifies this
      ensures Valid() && !Nonempty() && KeepsConfigurations() && KeepsMode() && Statistics() == old(Statistics())
      ensures old(log) <= log
    {
      Clear();
    }

    /** Leaving the session releases what it holds and empties the configuration cache. */
    method Exit()
      requires Valid()
      modifies this
      ensures Valid() && !Nonempty() && configurations == [] && KeepsMode() && Statistics() == old(Statistics())
      ensures old(log) <= log
    {
      hide HeldPipeline, CurrentPlacement, CurrentExecution, Count, Orderly, HoldsPipeline, HoldsPlacement, Counts, CachesParsed, Paths,
           History, Moment.SignatureOf, Moment.AllPresent;
      Release();
      DropConfigurations();
    }

    method DropConfigurations()
      requires Valid()
      modifies this`configurations, this`recency
      ensures Valid() && configurations == []
    {
      hide HeldPipeline, CurrentPlacement, CurrentExecution, Count, Orderly, HoldsPipeline, HoldsPlacement, Counts, Refines, Paths,
           History, Moment.SignatureOf, Moment.AllPresent;
      EmptyRefines<Cached>();
      configurations, recency := [], Timed(map[], map[], 0);
    }

    method EditFiles()
      requires Valid()
      modifies files
      ensures Valid()
    {
      files.Edit();
    }

    /**
     What generation code may do with the session during one request: any calls in any order,
     with any outcome. Exceptions of these calls may escape or be caught.
     */
    method RunRequest() returns (outcome: Outcome)
      requires Valid()
      modifies this, files
      ensures Valid() && foreground == old(foreground) && preparing == old(preparing) && old(log) <= log
      ensures preparationRecorded ==> old(preparationRecorded) || RecordedSince(log, |old(log)|)
      ensures files.history != [] && ended == old(ended) + [Ending(outcome, Intact(), preparationRecorded && value.Some?)]
    {
      hide Valid;
      var calls: int :| 0 <= calls;
      for i := 0 to calls
        invariant Valid() && foreground == old(foreground) && preparing == old(preparing) && old(log) <= log
        invariant preparationRecorded ==> old(preparationRecorded) || RecordedSince(log, |old(log)|)
        invariant ended == old(ended)
      {
        RunCall();
      }
      outcome := *;
      End(outcome);
    }

    /** Writes down how the generation code ended. */
    method End(outcome: Outcome)
      requires Valid()
      modifies `ended
      ensures Valid() && files.history != [] && Intact() == old(Intact())
      ensures ended == old(ended) + [Ending(outcome, Intact(), preparationRecorded && value.Some?)]
    {
      hide HeldPipeline, CurrentPlacement, CurrentExecution, Count, Orderly, HoldsPipeline, HoldsPlacement, Counts,
           CachesParsed, Paths, History, Moment.SignatureOf, Moment.AllPresent;
      ended := ended + [Ending(outcome, Intact(), preparationRecorded && value.Some?)];
    }

    /** Any one call. */
    method RunCall()
      requires Valid()
      modifies this, files
      ensures Valid() && foreground == old(foreground) && preparing == old(preparing) && old(log) <= log
      ensures preparationRecorded ==> old(preparationRecorded) || RecordedSince(log, |old(log)|)
      ensures forall n: nat :: old(RecordedSince(log, n)) ==> RecordedSince(log, n)
      ensures ended == old(ended)
    {
      hide Valid;
      var call: int, name: Option<string>, text: string, paths: seq<string> := *, *, *, *;
      match call
      case 0 => var _ := Pipeline(name, paths);
      case 1 => var _ := Place(name);
      case 2 => var _ := Configuration(text, paths);
      case 3 => var _ := Verify();
      case 4 => InvalidatePlacement();
      case 5 => RecordDevicePlacement();
      case 6 =>
        RecordExecution(text, text, text);
        assert |log| > |old(log)| ==> log[|old(log)|].Recorded?;
      case _ => EditFiles();
    }

    /** A foreground change, with a preparation when a model is selected. */
    method SetForeground(enabled: bool, prepares: bool) returns (outcome: Outcome)
      requires Valid()
      modifies this, files
      ensures Valid() && foreground == enabled
      ensures !enabled ==> outcome == Returned(0) && KeepsPipeline() && KeepsPlacement() && KeepsConfigurations() && execution == old(execution)
      // Without a selection the weights stay and only readiness goes.
      ensures enabled && !prepares ==>
        outcome == Returned(0) && KeepsPipeline() && KeepsPlacement() && KeepsConfigurations() && !Ready()
      ensures enabled && prepares ==> !preparing && (outcome != Returned(0) ==> !Nonempty())
      // A preparation that succeeds has recorded an execution; the session is ready unless it was cleared since.
      ensures enabled && prepares && outcome == Returned(0) ==>
        && value.Some? && RecordedSince(log, |old(log)|)
        && (Ready() <==> CurrentExecution(log).Some?)
      ensures old(log) <= log && (!(enabled && prepares) ==> ended == old(ended))
      ensures enabled && prepares ==> PreparedAs(outcome)
    {
      hide HeldPipeline, CurrentPlacement, CurrentExecution, Count, Orderly, HoldsPipeline, HoldsPlacement, Counts,
           CachesParsed, Paths, History, Moment.SignatureOf, Moment.AllPresent;
      foreground := enabled;
      if !enabled {
        return Returned(0);
      }
      if !prepares {
        HideReadiness();
        return Returned(0);
      }
      outcome := Prepare();
    }

    /** The preparation ran once; without an execution recorded for a held pipeline its success is an error. */
    twostate predicate PreparedAs(outcome: Outcome)
      reads this, files
    {
      && files.history != [] && |ended| == |old(ended)| + 1 && ended[..|old(ended)|] == old(ended)
      && var ending := ended[|old(ended)|];
         && outcome == (if ending.outcome == Returned(0) && !ending.prepared then Raised else ending.outcome)
         && (outcome == Returned(0) ==> (Intact() <==> ending.intact))
    }

    /** Lines 153-165: a preparation that fails, or prepares nothing that is kept, leaves nothing held. */
    method Prepare() returns (outcome: Outcome)
      requires Valid()
      modifies this, files
      ensures Valid() && foreground == old(foreground) && !preparing && old(log) <= log
      ensures outcome == Returned(0) ==>
        value.Some? && RecordedSince(log, |old(log)|) && (Ready() <==> CurrentExecution(log).Some?)
      ensures outcome != Returned(0) ==> !Nonempty()
      ensures PreparedAs(outcome)
    {
      hide Valid, CurrentExecution;
      BeginPreparing();
      outcome := RunRequest();
      if outcome == Returned(0) && (!preparationRecorded || value.None?) {
        outcome := Raised;
      }
      if outcome != Returned(0) {
        Clear();
      }
      EndPreparing();
      ReadyIsCurrent();
    }

    lemma ReadyIsCurrent()
      requires Valid()
      ensures Ready() <==> CurrentExecution(log).Some?
    {
    }

    method BeginPreparing()
      requires Valid()
      modifies this`preparing, this`preparationRecorded
      ensures Valid() && preparing && !preparationRecorded
    {
      hide HeldPipeline, CurrentPlacement, CurrentExecution, Count, Orderly, HoldsPipeline, HoldsPlacement, Counts, CachesParsed, Paths,
           History, Moment.SignatureOf, Moment.AllPresent;
      preparing, preparationRecorded := true, false;
    }

    method EndPreparing()
      requires Valid()
      modifies this`preparing
      ensures Valid() && !preparing
    {
      hide HeldPipeline, CurrentPlacement, CurrentExecution, Count, Orderly, HoldsPipeline, HoldsPlacement, Counts, CachesParsed, Paths,
           History, Moment.SignatureOf, Moment.AllPresent;
      preparing := false;
    }

    /** residency()["ready"] */
    predicate Ready()
      reads this
    {
      value.Some? && execution.Some?
    }
  }

  lemma PathsOfSignature(files: Files, sources: seq<string>)
    requires files.history != []
    ensures Paths(files.SignatureOf(sources)) == sources
  {
    assert |Paths(files.SignatureOf(sources))| == |sources|;
  }

  lemma Logged(log: seq<Event>, event: Event)
    ensures HeldPipeline(log + [event]) ==
      if event.Cleared? then None
      else if event.Loaded? then Some(Held(event.key, event.sources, event.model))
      else HeldPipeline(log)
    ensures CurrentPlacement(log + [event]) ==
      if event.Cleared? || event.Invalidated? || event.PlacementStarted? then None
      else if event.Placed? then Some(PlacedAs(event.key, event.placement))
      else CurrentPlacement(log)
    ensures CurrentExecution(log + [event]) ==
      if event.Cleared? || event.Hidden? then None
      else if event.Recorded? then Some(event.execution)
      else CurrentExecution(log)
    ensures forall other: Event :: Count(log + [event], other) == Count(log, other) + if event == other then 1 else 0
    ensures Orderly(log + [event]) <==>
      && Orderly(log)
      && (event.Loaded? ==> HeldPipeline(log).None? && CurrentPlacement(log).None?)
      && (event.Placed? ==> HeldPipeline(log).Some? && HeldPipeline(log).value.model == event.model)
  {
    assert (log + [event])[..|log|] == log;
  }

  lemma PipelineFacts(
    value: Option<Model>, key: Option<string>, sources: seq<string>, signature: Option<Signature>,
    execution: Option<Execution>, log: seq<Event>)
    requires HoldsPipeline(value, key, sources, signature, execution, log)
    ensures value.Some? ==> key.Some? && signature.Some? && value.value == Model(key.value, signature.value)
    ensures value.Some? ==> Paths(signature.value) == sources
    ensures value.None? ==> HeldPipeline(log).None? && CurrentExecution(log).None?
    ensures CurrentExecution(log) == execution
  {
  }

  lemma PlacementFacts(key: Option<string>, placement: Option<Placement>, held: bool, log: seq<Event>)
    requires HoldsPlacement(key, placement, held, log)
    ensures key.Some? <==> placement.Some?
    ensures CurrentPlacement(log) == if key.Some? then Some(PlacedAs(key.value, placement.value)) else None
  {
  }

  lemma Recounted(c: Counters, log: seq<Event>, event: Event)
    requires Counts(c, log)
    ensures Counts(Counted(c, event), log + [event])
  {
    hide Count;
    Logged(log, event);
  }

  lemma AfterCleared(c: Counters, log: seq<Event>)
    requires Orderly(log) && Counts(c, log)
    ensures Orderly(log + [Cleared]) && Counts(c, log + [Cleared])
    ensures HoldsPipeline(None, None, [], None, None, log + [Cleared]) && HoldsPlacement(None, None, false, log + [Cleared])
  {
    hide Counts;
    Logged(log, Cleared);
    Recounted(c, log, Cleared);
  }

  /** Events that only count change nothing else. */
  lemma AfterCounted(
    value: Option<Model>, key: Option<string>, sources: seq<string>, signature: Option<Signature>,
    execution: Option<Execution>, placementKey: Option<string>, placement: Option<Placement>, c: Counters, log: seq<Event>, event: Event)
    requires !event.Cleared? && !event.Loaded? && !event.Placed? && !event.Invalidated? && !event.PlacementStarted?
    requires !event.Recorded? && !event.Hidden?
    requires Orderly(log) && Counts(c, log)
    requires HoldsPipeline(value, key, sources, signature, execution, log) && HoldsPlacement(placementKey, placement, value.Some?, log)
    ensures Orderly(log + [event]) && Counts(Counted(c, event), log + [event])
    ensures HoldsPipeline(value, key, sources, signature, execution, log + [event])
    ensures HoldsPlacement(placementKey, placement, value.Some?, log + [event])
  {
    hide Counts, Counted;
    Logged(log, event);
    Recounted(c, log, event);
  }

  lemma AfterLoaded(key: string, sources: seq<string>, now: Signature, c: Counters, log: seq<Event>)
    requires Orderly(log) && Counts(c, log) && Paths(now) == sources
    requires HeldPipeline(log).None? && CurrentPlacement(log).None? && CurrentExecution(log).None?
    ensures var after := log + [Loaded(key, sources, Model(key, now))];
      && Orderly(after) && Counts(c, after)
      && HoldsPipeline(Some(Model(key, now)), Some(key), sources, Some(now), None, after) && HoldsPlacement(None, None, true, after)
  {
    hide Counts;
    Logged(log, Loaded(key, sources, Model(key, now)));
    Recounted(c, log, Loaded(key, sources, Model(key, now)));
  }

  /** The placement goes and the pipeline stays. */
  lemma AfterDropped(
    value: Option<Model>, key: Option<string>, sources: seq<string>, signature: Option<Signature>,
    execution: Option<Execution>, c: Counters, log: seq<Event>, event: Event)
    requires event.Invalidated? || event.PlacementStarted?
    requires Orderly(log) && Counts(c, log) && HoldsPipeline(value, key, sources, signature, execution, log)
    ensures Orderly(log + [event]) && Counts(c, log + [event])
    ensures HoldsPipeline(value, key, sources, signature, execution, log + [event])
    ensures HoldsPlacement(None, None, value.Some?, log + [event]) && CurrentPlacement(log + [event]).None?
  {
    hide Counts;
    Logged(log, event);
    Recounted(c, log, event);
  }

  /** Readiness changes and nothing else. */
  lemma AfterReadiness(
    value: Option<Model>, key: Option<string>, sources: seq<string>, signature: Option<Signature>,
    execution: Option<Execution>, placementKey: Option<string>, placement: Option<Placement>, c: Counters,
    log: seq<Event>, event: Event)
    requires event.Recorded? || event.Hidden?
    requires event.Recorded? ==> value.Some?
    requires Orderly(log) && Counts(c, log)
    requires HoldsPipeline(value, key, sources, signature, execution, log)
    requires HoldsPlacement(placementKey, placement, value.Some?, log)
    ensures Orderly(log + [event]) && Counts(c, log + [event])
    ensures HoldsPipeline(value, key, sources, signature, if event.Recorded? then Some(event.execution) else None, log + [event])
    ensures HoldsPlacement(placementKey, placement, value.Some?, log + [event])
  {
    hide Counts;
    Logged(log, event);
    Recounted(c, log, event);
  }

  lemma AfterPlaced(
    value: Option<Model>, key: Option<string>, sources: seq<string>, signature: Option<Signature>,
    execution: Option<Execution>, c: Counters, log: seq<Event>, placementKey: string, placement: Placement)
    requires value.Some? && Orderly(log) && Counts(c, log) && HoldsPipeline(value, key, sources, signature, execution, log)
    ensures var after := log + [Placed(placementKey, placement, value.value)];
      && Orderly(after) && Counts(c, after) && HoldsPipeline(value, key, sources, signature, execution, after)
      && HoldsPlacement(Some(placementKey), Some(placement), true, after)
      && CurrentPlacement(after) == Some(PlacedAs(placementKey, placement))
  {
    hide Counts;
    Logged(log, Placed(placementKey, placement, value.value));
    Recounted(c, log, Placed(placementKey, placement, value.value));
  }

  // ---- Configurations ----

  lemma RightWhenPresent(files: Files, paths: seq<string>, parsed: Parsed, key: string, glimpsed: set<string>)
    requires files.history != [] && RightFor(parsed, key, files.SignatureOf(paths), glimpsed)
    ensures files.AllPresent(paths) ==> parsed == Parsed(key, files.SignatureOf(paths))
  {
    assert forall i :: 0 <= i < |paths| ==> paths[i] in paths;
    assert files.AllPresent(paths) ==> parsed.content == files.SignatureOf(paths);
  }

  /** A reading between equal signatures is right for them, and remembers a missing source it may have met. */
  lemma ReadIsRight(history: seq<Moment>, start: nat, paths: seq<string>, parsed: Parsed, key: string, glimpsed: set<string>)
    requires History(history) && start < |history| && parsed.key == key
    requires exists at: seq<nat> :: Reads(history, start, paths, at) && parsed.content == Seen(history, paths, at)
    requires history[start].SignatureOf(paths) == history[|history| - 1].SignatureOf(paths)
    ensures RightFor(parsed, key, history[start].SignatureOf(paths), GlimpsedAfter(glimpsed, key, history, start, paths))
  {
    var at: seq<nat> :| Reads(history, start, paths, at) && parsed.content == Seen(history, paths, at);
    hide History, Seen, Agrees, Appears;
    UndetectedAgrees(history, start, paths, at);
  }

  lemma LoadIsCurrent(history: seq<Moment>, start: nat, sources: seq<string>, model: Model)
    requires History(history) && start < |history|
    requires exists at: seq<nat> :: Reads(history, start, sources, at) && model.content == Seen(history, sources, at)
    requires history[start].SignatureOf(sources) == history[|history| - 1].SignatureOf(sources)
    requires history[|history| - 1].AllPresent(sources)
    ensures model.content == history[|history| - 1].SignatureOf(sources)
  {
    var at: seq<nat> :| Reads(history, start, sources, at) && model.content == Seen(history, sources, at);
    SamePresence(history[start], history[|history| - 1], sources);
    hide History, Seen, Agrees, Appears;
    UndetectedAgrees(history, start, sources, at);
  }

  lemma SamePresence(a: Moment, b: Moment, sources: seq<string>)
    requires a.SignatureOf(sources) == b.SignatureOf(sources)
    ensures a.AllPresent(sources) <==> b.AllPresent(sources)
  {
    forall i | 0 <= i < |sources| ensures sources[i] in a.versions <==> sources[i] in b.versions {
      assert a.SignatureOf(sources)[i] == b.SignatureOf(sources)[i];
    }
  }

  lemma CachedIsRight(configurations: Ordered<Cached>, recency: Timed<Cached>, glimpsed: set<string>, key: string)
    requires CachesParsed(configurations, recency, glimpsed)
    ensures Position(configurations, key).Some? <==> key in recency.values
    ensures Position(configurations, key).Some? ==>
      var i := Position(configurations, key).value;
      && i < |configurations| && configurations[i] == (key, recency.values[key])
      && RightFor(recency.values[key].parsed, key, recency.values[key].signature, glimpsed)
  {
    hide Refines, RightFor;
    FoundIsCached(configurations, recency, key);
  }

  lemma MovedIsRight(configurations: Ordered<Cached>, recency: Timed<Cached>, glimpsed: set<string>, key: string)
    requires CachesParsed(configurations, recency, glimpsed) && key in recency.values
    ensures CachesParsed(MovedToEnd(configurations, key), Touched(recency, key), glimpsed)
  {
    hide Refines, RightFor, MovedToEnd, Touched;
    HitRefines(configurations, recency, key);
    MovingKeeps(configurations, key);
  }

  lemma WithoutIsRight(configurations: Ordered<Cached>, recency: Timed<Cached>, glimpsed: set<string>, key: string)
    requires CachesParsed(configurations, recency, glimpsed)
    ensures CachesParsed(Without(configurations, key), Dropped(recency, key), glimpsed)
    ensures Position(Without(configurations, key), key).None? && key !in Dropped(recency, key).values
  {
    hide Refines, RightFor, Without, Dropped, Position;
    DropRefines(configurations, recency, key);
    MovingKeeps(configurations, key);
    FoundIsCached(Without(configurations, key), Dropped(recency, key), key);
  }

  lemma StoredIsRight(configurations: Ordered<Cached>, recency: Timed<Cached>, glimpsed: set<string>, key: string, cached: Cached)
      returns (after: Timed<Cached>)
    requires CachesParsed(configurations, recency, glimpsed) && key !in recency.values
    requires RightFor(cached.parsed, key, cached.signature, glimpsed)
    ensures Puts(recency, key, cached, after) && CachesParsed(Stored(configurations, key, cached), after, glimpsed)
  {
    hide Refines, RightFor, Stored, Puts;
    after := PutRefines(configurations, recency, key, cached);
    StoringKeeps(configurations, key, cached);
  }

  /** What a reading met says nothing about the entries of other keys. */
  lemma NewlyGlimpsed(
    configurations: Ordered<Cached>, recency: Timed<Cached>, glimpsed: set<string>, key: string,
    history: seq<Moment>, start: nat, paths: seq<string>)
    requires CachesParsed(configurations, recency, glimpsed) && Position(configurations, key).None? && start < |history|
    ensures CachesParsed(configurations, recency, GlimpsedAfter(glimpsed, key, history, start, paths))
  {
    hide Refines, Position, Appears;
    PositionFinds(configurations, key);
  }

  // ---- What the log means ----

  /** An execution was recorded at or after this point of the log. */
  ghost predicate RecordedSince(log: seq<Event>, n: nat) {
    exists i :: n <= i < |log| && log[i].Recorded?
  }

  /** The session is ready exactly when nothing was cleared or hidden since the last recorded execution. */
  lemma {:induction false} ReadyExactly(log: seq<Event>)
    ensures CurrentExecution(log).Some? <==>
      exists i :: 0 <= i < |log| && log[i].Recorded? && forall j :: i < j < |log| ==> !log[j].Cleared? && !log[j].Hidden?
  {
    if log != [] {
      var n := |log| - 1;
      ReadyExactly(log[..n]);
      if CurrentExecution(log).Some? && !log[n].Recorded? {
        var i :| 0 <= i < n && log[..n][i].Recorded? && forall j :: i < j < n ==> !log[..n][j].Cleared? && !log[..n][j].Hidden?;
        assert log[i].Recorded? && forall j :: i < j < |log| ==> !log[j].Cleared? && !log[j].Hidden? by {
          assert forall j :: 0 <= j < n ==> log[j] == log[..n][j];
        }
      }
      if i :| 0 <= i < |log| && log[i].Recorded? && forall j :: i < j < |log| ==> !log[j].Cleared? && !log[j].Hidden? {
        if i < n {
          assert log[..n][i].Recorded? && forall j :: i < j < n ==> !log[..n][j].Cleared? && !log[..n][j].Hidden?;
        }
      }
    }
  }

  /** What loading a model without sources writes. */
  ghost function LoadEvents(key: string): seq<Event> {
    [Cleared, LoadStarted, Loaded(key, [], Model(key, []))]
  }

  /**
   Recording an execution and then loading another model leaves a pipeline that is not ready. A
   preparation writes this log when it calls Pipeline with one key, RecordExecution, and Pipeline with
   another key, and both loaders succeed; it returns 0 and SetForeground reports success.
   */
  lemma PreparedButNotReady(execution: Execution, first: string, second: string)
    ensures var log := LoadEvents(first) + [Recorded(execution)] + LoadEvents(second);
      Orderly(log) && RecordedSince(log, 0) && HeldPipeline(log).Some? && CurrentExecution(log).None?
  {
    var before := LoadEvents(first) + [Recorded(execution)];
    assert Orderly([]) by { EmptyLog(); }
    LoadKeepsOrder([], first);
    assert [] + LoadEvents(first) == LoadEvents(first);
    Logged(LoadEvents(first), Recorded(execution));
    LoadKeepsOrder(before, second);
    assert (before + LoadEvents(second))[3] == Recorded(execution);
  }

  lemma LoadKeepsOrder(log: seq<Event>, key: string)
    requires Orderly(log)
    ensures Orderly(log + LoadEvents(key)) && HeldPipeline(log + LoadEvents(key)).Some?
    ensures CurrentExecution(log + LoadEvents(key)).None?
  {
    hide HeldPipeline, CurrentPlacement, CurrentExecution, Count, Orderly;
    var a := log + [Cleared];
    var b := a + [LoadStarted];
    Logged(log, Cleared);
    Logged(a, LoadStarted);
    Logged(b, Loaded(key, [], Model(key, [])));
    assert log + LoadEvents(key) == b + [Loaded(key, [], Model(key, []))];
  }

  lemma EmptyLog()
    ensures Orderly([]) && HeldPipeline([]).None? && CurrentPlacement([]).None? && CurrentExecution([]).None?
  {
  }

  ghost predicate Drops(event: Event) {
    event.Cleared? || event.Invalidated? || event.PlacementStarted?
  }

  /** The held pipeline was loaded at some point and nothing has cleared or replaced it since. */
  lemma {:induction false} HeldMeansLoaded(log: seq<Event>) returns (i: nat)
    requires HeldPipeline(log).Some?
    ensures i < |log| && log[i].Loaded?
    ensures HeldPipeline(log).value == Held(log[i].key, log[i].sources, log[i].model)
    ensures forall j :: i < j < |log| ==> !log[j].Cleared? && !log[j].Loaded?
  {
    var before := log[..|log| - 1];
    if log[|log| - 1].Loaded? {
      i := |log| - 1;
    } else {
      i := HeldMeansLoaded(before);
      assert forall j :: 0 <= j < |before| ==> log[j] == before[j];
    }
  }

  /**
   The current placement was prepared at some point from the pipeline that is held now, and since
   then nothing was cleared, loaded, invalidated or placed anew.
   */
  lemma {:induction false} CurrentMeansPrepared(log: seq<Event>) returns (i: nat)
    requires Orderly(log) && CurrentPlacement(log).Some?
    ensures i < |log| && log[i].Placed?
    ensures CurrentPlacement(log).value == PlacedAs(log[i].key, log[i].placement)
    ensures HeldPipeline(log).Some? && HeldPipeline(log).value.model == log[i].model
    ensures forall j :: i < j < |log| ==> !Drops(log[j]) && !log[j].Placed? && !log[j].Loaded?
  {
    var before := log[..|log| - 1];
    if log[|log| - 1].Placed? {
      i := |log| - 1;
    } else {
      i := CurrentMeansPrepared(before);
      assert forall j :: 0 <= j < |before| ==> log[j] == before[j];
    }
  }
}

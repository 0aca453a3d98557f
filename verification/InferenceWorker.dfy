/**
 The request loop of the inference worker (reference/diffusers/inference_worker.py, serve).
 */
module InferenceWorker {
  import opened Options
  import opened InferenceSession

  datatype Action = Generate | Foreground | Release | Unknown

  /**
   One line of input. A line is too long, is not a JSON object, carries no usable id, or is a
   request whose remaining fields follow the schema or not. The foreground field is None when it
   is not a boolean.
   */
  datatype Line =
    | TooLong
    | NotAnObject
    | NoIdentifier
    | Request(id: string, action: Action, wellFormed: bool, arguments: seq<string>, foreground: Option<bool>)

  /** What the worker prints for one line. */
  datatype Result = Result(
    id: Option<string>, ok: bool, exitCode: int, action: Action, ready: bool, foreground: bool, cache: Delta)

  /** Counter changes during one request. */
  datatype Delta = Delta(hits: int, loads: int, configurationReads: int, configurationHits: int, devicePlacements: int, placementHits: int)

  function Change(before: Counters, after: Counters): Delta {
    Delta(after.hits - before.hits, after.loads - before.loads,
          after.configurationReads - before.configurationReads, after.configurationHits - before.configurationHits,
          after.devicePlacements - before.devicePlacements, after.placementHits - before.placementHits)
  }

  function Plus(a: Delta, b: Delta): Delta {
    Delta(a.hits + b.hits, a.loads + b.loads, a.configurationReads + b.configurationReads,
          a.configurationHits + b.configurationHits, a.devicePlacements + b.devicePlacements, a.placementHits + b.placementHits)
  }

  function Total(results: seq<Result>): Delta {
    if results == [] then Delta(0, 0, 0, 0, 0, 0)
    else Plus(Total(results[..|results| - 1]), results[|results| - 1].cache)
  }

  function IdentifierOf(line: Line): Option<string> {
    if line.Request? then Some(line.id) else None
  }

  function ActionOf(line: Line): Action {
    if line.Request? then line.action else Generate
  }

  /** The request is refused before anything runs. */
  predicate Invalid(line: Line) {
    || !line.Request? || !line.wellFormed || line.action == Unknown
    || (line.action == Generate && line.arguments == [])
    || (line.action == Release && line.arguments != [])
    || (line.action == Foreground && (line.foreground.None? || (!line.foreground.value && line.arguments != [])))
  }

  function ForegroundAfter(line: Line, before: bool): bool {
    if !Invalid(line) && line.action == Foreground then line.foreground.value else before
  }

  /** Up to and including a line that is too long, after which the worker stops. */
  function Consumed(lines: seq<Line>): nat {
    if lines == [] then 0 else if lines[0].TooLong? then 1 else 1 + Consumed(lines[1..])
  }

  /** What makes a request acceptable, action by action. */
  lemma ValidExactly(line: Line)
    ensures !line.Request? || !line.wellFormed ==> Invalid(line)
    ensures line.Request? && line.wellFormed ==>
      match line.action
      case Generate => Invalid(line) <==> line.arguments == []
      case Foreground => !Invalid(line) <==> line.foreground == Some(true) || (line.foreground == Some(false) && line.arguments == [])
      case Release => Invalid(line) <==> line.arguments != []
      case Unknown => Invalid(line)
  {
  }

  /** The request runs generation code: every generation does, and a foreground change that selects a model. */
  predicate Runs(line: Line) {
    line.Request? && !Invalid(line) && line.arguments != []
  }

  /** What the exit code of a line says about how its generation code ended. */
  ghost predicate Answers(exitCode: int, line: Line, ending: Ending) {
    match ending.outcome
    case SystemExit(status) => exitCode == if status.Some? then status.value else 1
    case Raised => exitCode == 1
    case Returned(code) =>
      exitCode == if code == 0 && ending.intact && (line.Request? && line.action == Foreground ==> ending.prepared) then 0 else 1
  }

  /** The generation code of one line ran once and is answered for, or none ran. */
  ghost predicate Accounted(exitCode: int, line: Line, before: seq<Ending>, after: seq<Ending>) {
    if Runs(line) then
      |after| == |before| + 1 && after[..|before|] == before && Answers(exitCode, line, after[|before|])
    else
      after == before && exitCode == if Invalid(line) then 1 else 0
  }

  /** The delta counts these events. */
  ghost predicate Reports(delta: Delta, events: seq<Event>) {
    && delta.hits == Count(events, PipelineHit) && delta.loads == Count(events, LoadStarted)
    && delta.configurationReads == Count(events, ConfigurationRead) && delta.configurationHits == Count(events, ConfigurationHit)
    && delta.devicePlacements == Count(events, DevicePlaced) && delta.placementHits == Count(events, PlacementHit)
  }

  /** Counter changes count what was logged meanwhile. */
  lemma ChangeReports(before: Counters, log: seq<Event>, after: Counters, longer: seq<Event>)
    requires Counts(before, log) && Counts(after, longer) && log <= longer
    ensures Reports(Change(before, after), longer[|log|..])
  {
    hide Count;
    assert longer[..|log|] == log;
    forall event: Event ensures Count(longer, event) == Count(log, event) + Count(longer[|log|..], event) {
      CountSplits(longer, |log|, event);
    }
  }

  /** How many of the lines run generation code. */
  ghost function RunCount(lines: seq<Line>): nat {
    if lines == [] then 0 else RunCount(lines[..|lines| - 1]) + if Runs(lines[|lines| - 1]) then 1 else 0
  }

  /** Every result answers for the run of its own line, and there was no other run. */
  ghost predicate AllAnswered(results: seq<Result>, lines: seq<Line>, endings: seq<Ending>) {
    && |results| <= |lines| && |endings| == RunCount(lines[..|results|])
    && forall i :: 0 <= i < |results| ==>
         if Runs(lines[i]) then
           RunCount(lines[..i]) < |endings| && Answers(results[i].exitCode, lines[i], endings[RunCount(lines[..i])])
         else
           results[i].exitCode == if Invalid(lines[i]) then 1 else 0
  }

  lemma AnsweredMore(results: seq<Result>, result: Result, lines: seq<Line>, start: seq<Ending>, before: seq<Ending>, after: seq<Ending>)
    requires |results| < |lines| && start <= before && AllAnswered(results, lines, before[|start|..])
    requires Accounted(result.exitCode, lines[|results|], before, after)
    ensures start <= after && AllAnswered(results + [result], lines, after[|start|..])
  {
    hide Answers, Runs, Invalid;
    var n := |results|;
    assert lines[..n + 1][..n] == lines[..n];
    if Runs(lines[n]) {
      assert before == after[..|before|];
    }
    assert after[|start|..][..|before| - |start|] == before[|start|..];
  }

  ghost function ExitCodeOf(outcome: Outcome): int {
    match outcome
    case Returned(code) => code
    case SystemExit(status) => if status.Some? then status.value else 1
    case Raised => 1
  }

  /** The body of the try statement: how the request ended, before an exit code is made of it. */
  method Perform(session: InferenceSession, line: Line) returns (outcome: Outcome)
    requires session.Valid()
    modifies session, session.files
    ensures session.Valid()
    ensures Invalid(line) ==> outcome == Raised && session.Statistics() == old(session.Statistics()) && session.log == old(session.log)
    ensures outcome.Returned? ==> outcome.code == 0
    // Releasing, and foreground control without a preparation, cannot fail.
    ensures !Invalid(line) && line.arguments == [] && line.action != Generate ==> outcome == Returned(0)
    ensures session.foreground == ForegroundAfter(line, old(session.foreground))
    ensures outcome.Returned? && line.Request? && line.action == Release ==> !session.Nonempty()
    // After a generation or a preparation the sources of what is held are what they were when it was loaded.
    ensures outcome.Returned? && line.Request? && line.arguments != [] && session.value.Some? ==>
      session.files.AllPresent(session.sources) && session.signature == Some(session.files.SignatureOf(session.sources))
    ensures old(session.log) <= session.log
    ensures Accounted(ExitCodeOf(outcome), line, old(session.ended), session.ended)
  {
    hide InferenceSession.Valid;
    if Invalid(line) {
      return Raised;
    }
    if line.action == Release {
      session.Release();
      return Returned(0);
    }
    if line.action == Foreground {
      outcome := session.SetForeground(line.foreground.value, line.arguments != []);
    } else {
      outcome := session.RunRequest();
    }
    if outcome.Returned? && outcome.code != 0 {
      return Raised;
    }
    if outcome.Returned? && line.arguments != [] {
      var verified := session.Verify();
      if !verified {
        return Raised;
      }
    }
  }

  /** One line: exactly one result, and nothing stays held after a failure. */
  method Handle(session: InferenceSession, line: Line) returns (result: Result)
    requires session.Valid()
    modifies session, session.files
    ensures session.Valid()
    ensures result.id == IdentifierOf(line) && result.action == ActionOf(line)
    ensures result.ok <==> result.exitCode == 0
    // The exit code is 0 exactly for a request that ended well, and 1 for what raised or was refused.
    ensures Accounted(result.exitCode, line, old(session.ended), session.ended)
    ensures Invalid(line) ==> result.exitCode == 1
    ensures !Invalid(line) && line.arguments == [] && line.action != Generate ==> result.ok
    ensures result.foreground == ForegroundAfter(line, old(session.foreground))
    ensures !result.ok ==> !session.Nonempty() && !result.ready
    ensures result.ready == session.Ready() && result.foreground == session.foreground
    ensures result.cache == Change(old(session.Statistics()), session.Statistics())
    ensures old(session.log) <= session.log && Reports(result.cache, session.log[|old(session.log)|..])
  {
    CountersAreCounts(session);
    hide InferenceSession.Valid, InferenceSession.Statistics, Counts, Change, Reports;
    var before := session.Statistics();
    var outcome := Perform(session, line);
    var code :=
      match outcome
      case Returned(code) => code
      case SystemExit(status) => if status.Some? then status.value else 1
      case Raised => 1;
    if code != 0 {
      session.Clear();
    }
    CountersAreCounts(session);
    ChangeReports(before, old(session.log), session.Statistics(), session.log);
    result := Result(IdentifierOf(line), code == 0, code, ActionOf(line), session.Ready(), session.foreground,
                     Change(before, session.Statistics()));
  }

  lemma CountersAreCounts(session: InferenceSession)
    requires session.Valid()
    ensures Counts(session.Statistics(), session.log)
  {
  }

  /** The result of a line carries its id and action, and says ok exactly with exit code 0; a refused line is not ok. */
  ghost predicate ResultFor(result: Result, line: Line) {
    && (if line.Request? then result.id == Some(line.id) && result.action == line.action
        else result.id == None && result.action == Generate)
    && (result.ok <==> result.exitCode == 0)
    && (Invalid(line) ==> !result.ok) && (!result.ok ==> !result.ready)
  }

  /** With status 2 the last line read, and no other one, was too long; with status 0 there was none and all were read. */
  ghost predicate Stopped(lines: seq<Line>, read: nat, status: int) {
    && read <= |lines|
    && (forall i :: 0 <= i < read - 1 ==> !lines[i].TooLong?)
    && if read > 0 && lines[read - 1].TooLong? then status == 2 else status == 0 && read == |lines|
  }

  /** The loop. Status 2 tells that an overlong line ended it, 0 that the input did. */
  method Serve(session: InferenceSession, lines: seq<Line>) returns (results: seq<Result>, status: int)
    requires session.Valid()
    modifies session, session.files
    ensures session.Valid() && !session.Nonempty() && session.configurations == []
    ensures |results| == Consumed(lines) <= |lines| && Stopped(lines, |results|, status)
    ensures forall i :: 0 <= i < |results| ==> ResultFor(results[i], lines[i])
    // Each result answers for how its own request ended.
    ensures old(session.ended) <= session.ended && AllAnswered(results, lines, session.ended[|old(session.ended)|..])
    ensures status == if exists line <- lines :: line.TooLong? then 2 else 0
    // What was reported adds up to what was counted, and to what was logged.
    ensures Total(results) == Change(old(session.Statistics()), session.Statistics())
    ensures old(session.log) <= session.log && Reports(Total(results), session.log[|old(session.log)|..])
  {
    CountersAreCounts(session);
    hide InferenceSession.Valid, InferenceSession.Statistics, Change, AllAnswered, ResultFor, Reports, Counts, Stopped;
    results, status := ServeLines(session, lines);
    ConsumedStops(lines, |results|, status);
    session.Exit();
    CountersAreCounts(session);
    ChangeReports(old(session.Statistics()), old(session.log), session.Statistics(), session.log);
  }

  /** Line after line, until the input ends or a line is too long. */
  method ServeLines(session: InferenceSession, lines: seq<Line>) returns (results: seq<Result>, status: int)
    requires session.Valid()
    modifies session, session.files
    ensures session.Valid() && Stopped(lines, |results|, status)
    ensures |results| <= |lines| && forall i :: 0 <= i < |results| ==> ResultFor(results[i], lines[i])
    ensures old(session.ended) <= session.ended && AllAnswered(results, lines, session.ended[|old(session.ended)|..])
    ensures Total(results) == Change(old(session.Statistics()), session.Statistics()) && old(session.log) <= session.log
  {
    hide InferenceSession.Valid, InferenceSession.Statistics, Change, Plus, Total, Accounted, AllAnswered, Runs, Invalid, Reports, Counts;
    results, status := [], 0;
    NoChange(session.Statistics());
    NoneAnswered(lines);
    assert session.ended[|session.ended|..] == [];
    var next := 0;
    while next < |lines|
      invariant next == |results| <= |lines|
      invariant session.Valid()
      invariant forall i :: 0 <= i < |results| ==> ResultFor(results[i], lines[i])
      invariant status == 0 && forall i :: 0 <= i < next ==> !lines[i].TooLong?
      invariant old(session.log) <= session.log && old(session.ended) <= session.ended
      invariant AllAnswered(results, lines, session.ended[|old(session.ended)|..])
      invariant Total(results) == Change(old(session.Statistics()), session.Statistics())
    {
      ghost var begun, endings := session.Statistics(), session.ended;
      var result := Handle(session, lines[next]);
      TotalOneMore(results, result, old(session.Statistics()), begun, session.Statistics());
      AnsweredMore(results, result, lines, old(session.ended), endings, session.ended);
      results := results + [result];
      next := next + 1;
      if lines[next - 1].TooLong? {
        status := 2;
        break;
      }
    }
  }

  lemma NoneAnswered(lines: seq<Line>)
    ensures AllAnswered([], lines, [])
  {
  }

  lemma NoChange(counters: Counters)
    ensures Total([]) == Change(counters, counters)
  {
  }

  /** Deltas of consecutive requests add up. */
  lemma TotalOneMore(results: seq<Result>, result: Result, start: Counters, before: Counters, after: Counters)
    requires Total(results) == Change(start, before) && result.cache == Change(before, after)
    ensures Total(results + [result]) == Change(start, after)
  {
    assert (results + [result])[..|results|] == results;
  }

  lemma {:induction false} ConsumedStops(lines: seq<Line>, n: nat, status: int)
    requires Stopped(lines, n, status)
    ensures Consumed(lines) == n
    ensures status == if exists line <- lines :: line.TooLong? then 2 else 0
  {
    if n > 0 && !lines[0].TooLong? {
      assert lines == [lines[0]] + lines[1..];
      ConsumedStops(lines[1..], n - 1, status);
    }
  }
}

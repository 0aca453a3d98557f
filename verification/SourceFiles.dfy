/**
 The files a model is loaded from, as their signatures show them
 (reference/diffusers/inference_session.py, source_signature).

 A signature identifies content: every edit gives a file a version no file had before. What is
 built from some files is a function of a key and of the versions that were read; the datatypes
 below are that function in its most general form. Reading takes time: each file is read at some
 moment, and files may be edited between the moments.
 */
module SourceFiles {
  import opened Options

  /** One record per source, in order: its path, and its version or None when it is missing. */
  type Signature = seq<(string, Option<nat>)>

  function Paths(signature: Signature): seq<string> {
    seq(|signature|, i requires 0 <= i < |signature| => signature[i].0)
  }

  /** What a loader makes of what it read. */
  datatype Model = Model(key: string, content: Signature)

  /** What a configuration reader makes of what it read. */
  datatype Parsed = Parsed(key: string, content: Signature)

  /** All files at one moment; the clock gives the next version. */
  datatype Moment = Moment(versions: map<string, nat>, clock: nat) {
    ghost predicate Sound() { forall path <- versions :: versions[path] < clock }

    function Version(path: string): Option<nat> {
      if path in versions then Some(versions[path]) else None
    }

    function SignatureOf(sources: seq<string>): Signature {
      seq(|sources|, i requires 0 <= i < |sources| => (sources[i], Version(sources[i])))
    }

    predicate AllPresent(sources: seq<string>) {
      forall path <- sources :: path in versions
    }

    /** One file is written or removed. */
    function Edited(path: string, present: bool): Moment {
      Moment(if present then versions[path := clock] else versions - {path}, clock + 1)
    }
  }

  /** Every moment comes from the one before it by one edit. */
  ghost predicate History(moments: seq<Moment>) {
    && moments != [] && moments[0].Sound()
    && forall k :: 0 < k < |moments| ==> Follows(moments[k - 1], moments[k])
  }

  ghost predicate Follows(before: Moment, after: Moment) {
    exists path: string, present: bool :: after == before.Edited(path, present)
  }

  lemma {:induction false} HistorySound(moments: seq<Moment>, k: nat)
    requires History(moments) && k < |moments|
    ensures moments[k].Sound() && moments[0].clock <= moments[k].clock
  {
    if k > 0 {
      HistorySound(moments, k - 1);
      assert Follows(moments[k - 1], moments[k]);
    }
  }

  lemma HistoryGrows(moments: seq<Moment>, path: string, present: bool)
    requires History(moments)
    ensures History(moments + [moments[|moments| - 1].Edited(path, present)])
  {
    var longer := moments + [moments[|moments| - 1].Edited(path, present)];
    forall k | 0 < k < |longer| ensures Follows(longer[k - 1], longer[k]) {
      if k < |moments| {
        assert Follows(moments[k - 1], moments[k]);
      }
    }
  }

  /** A version that a file has lost never comes back. */
  lemma {:induction false} LostForGood(moments: seq<Moment>, m: nat, n: nat, path: string, version: nat)
    requires History(moments) && m <= n < |moments|
    requires version < moments[m].clock && moments[m].Version(path) != Some(version)
    ensures moments[n].Version(path) != Some(version) && version < moments[n].clock
  {
    if m < n {
      LostForGood(moments, m, n - 1, path, version);
      assert Follows(moments[n - 1], moments[n]);
    }
  }

  /** A file with the same version at two moments had it at every moment between. */
  lemma SameVersionBetween(moments: seq<Moment>, start: nat, m: nat, end: nat, path: string)
    requires History(moments) && start <= m <= end < |moments|
    requires moments[start].Version(path) == moments[end].Version(path) != None
    ensures moments[m].Version(path) == moments[start].Version(path)
  {
    var version := moments[start].Version(path).value;
    HistorySound(moments, start);
    ClockAscends(moments, start, m);
    if moments[m].Version(path) != Some(version) {
      LostForGood(moments, m, end, path, version);
    }
  }

  lemma {:induction false} ClockAscends(moments: seq<Moment>, m: nat, n: nat)
    requires History(moments) && m <= n < |moments|
    ensures moments[m].clock <= moments[n].clock
  {
    if m < n {
      ClockAscends(moments, m, n - 1);
      assert Follows(moments[n - 1], moments[n]);
    }
  }

  // ---- Reading ----

  /** One moment for every source, from `start` to the last. */
  ghost predicate Reads(moments: seq<Moment>, start: nat, sources: seq<string>, at: seq<nat>) {
    |at| == |sources| && forall i :: 0 <= i < |at| ==> start <= at[i] < |moments|
  }

  /** What is read of each source at its moment. */
  function Seen(moments: seq<Moment>, sources: seq<string>, at: seq<nat>): Signature
    requires |at| == |sources| && forall i :: 0 <= i < |at| ==> at[i] < |moments|
  {
    seq(|sources|, i requires 0 <= i < |sources| => (sources[i], moments[at[i]].Version(sources[i])))
  }

  /** The signatures before and after the reading are the same. */
  ghost predicate Undetected(moments: seq<Moment>, start: nat, sources: seq<string>, at: seq<nat>) {
    && History(moments) && start < |moments| && Reads(moments, start, sources, at)
    && moments[start].SignatureOf(sources) == moments[|moments| - 1].SignatureOf(sources)
  }

  /** The same sources, and the same versions wherever the signature has one. */
  ghost predicate Agrees(seen: Signature, signature: Signature) {
    && |seen| == |signature|
    && forall i :: 0 <= i < |seen| ==>
         seen[i].0 == signature[i].0 && (signature[i].1.Some? ==> seen[i] == signature[i])
  }

  /** A source that is missing at the start is there at some later moment. */
  ghost predicate Appears(moments: seq<Moment>, start: nat, sources: seq<string>)
    requires start < |moments|
  {
    exists m: nat, path: string :: start <= m < |moments| && path in sources
      && path !in moments[start].versions && path in moments[m].versions
  }

  /** Equal signatures before and after guarantee what was read of the sources they show as present. */
  lemma UndetectedAgrees(moments: seq<Moment>, start: nat, sources: seq<string>, at: seq<nat>)
    requires Undetected(moments, start, sources, at)
    ensures Agrees(Seen(moments, sources, at), moments[start].SignatureOf(sources))
    ensures moments[start].AllPresent(sources) || !Appears(moments, start, sources) ==>
      Seen(moments, sources, at) == moments[start].SignatureOf(sources)
  {
    var end := |moments| - 1;
    forall i | 0 <= i < |sources|
      ensures sources[i] in moments[start].versions ==> moments[at[i]].Version(sources[i]) == moments[start].Version(sources[i])
    {
      assert moments[start].SignatureOf(sources)[i] == moments[end].SignatureOf(sources)[i];
      if sources[i] in moments[start].versions {
        SameVersionBetween(moments, start, at[i], end, sources[i]);
      }
    }
    assert forall i :: 0 <= i < |sources| ==> sources[i] in sources;
  }

  /** A missing source that appears, is read and vanishes leaves no trace in the signatures. */
  lemma AppearingSourceMisleads(now: Moment, sources: seq<string>, i: nat) returns (moments: seq<Moment>, at: seq<nat>)
    requires now.Sound() && i < |sources| && sources[i] !in now.versions
    ensures moments != [] && moments[0] == now && Undetected(moments, 0, sources, at)
    ensures Seen(moments, sources, at) != now.SignatureOf(sources)
  {
    var path := sources[i];
    var there, gone := now.Edited(path, true), now.Edited(path, true).Edited(path, false);
    moments := [now, there, gone];
    assert Follows(now, there) && Follows(there, gone);
    assert gone.versions == now.versions;
    at := seq(|sources|, k => 1);
    assert Seen(moments, sources, at)[i] == (path, Some(now.clock));
    assert now.SignatureOf(sources)[i] == (path, None);
  }

  /**
   Comparing signatures before and after makes a reading reliable, against every edit by others,
   if and only if all sources are present when it begins.
   */
  lemma ReliableExactly(now: Moment, sources: seq<string>)
    requires now.Sound()
    ensures (forall moments: seq<Moment>, at: seq<nat> ::
               Undetected(moments, 0, sources, at) && moments[0] == now ==>
                 Seen(moments, sources, at) == now.SignatureOf(sources))
       <==> now.AllPresent(sources)
  {
    if now.AllPresent(sources) {
      forall moments: seq<Moment>, at: seq<nat> | Undetected(moments, 0, sources, at) && moments[0] == now
        ensures Seen(moments, sources, at) == now.SignatureOf(sources)
      {
        UndetectedAgrees(moments, 0, sources, at);
      }
    } else {
      var path :| path in sources && path !in now.versions;
      var i :| 0 <= i < |sources| && sources[i] == path;
      var moments, at := AppearingSourceMisleads(now, sources, i);
    }
  }

  class Files {
    /** All moments so far; the last one is now. */
    var history: seq<Moment>

    ghost predicate Valid()
      reads this
    {
      history != [] && History(history)
    }

    constructor ()
      ensures Valid()
    {
      history := [Moment(map[], 0)];
    }

    function Now(): Moment
      requires history != []
      reads this
    {
      history[|history| - 1]
    }

    function SignatureOf(sources: seq<string>): Signature
      requires history != []
      reads this
    {
      Now().SignatureOf(sources)
    }

    /** Without missing_ok a missing source is an exception. */
    predicate AllPresent(sources: seq<string>)
      requires history != []
      reads this
    {
      Now().AllPresent(sources)
    }

    /** Someone else edits, adds and removes files while a callback runs. */
    method Edit()
      requires Valid()
      modifies this
      ensures Valid() && old(history) <= history
    {
      var edits: int :| 0 <= edits;
      for i := 0 to edits
        invariant Valid() && old(history) <= history
      {
        var path: string, present: bool := *, *;
        HistoryGrows(history, path, present);
        history := history + [Now().Edited(path, present)];
      }
    }

    /** A callback that began at the moment `start` has read each source at some moment since. */
    method Read(sources: seq<string>, start: nat) returns (seen: Signature)
      requires Valid() && start < |history|
      ensures exists at: seq<nat> :: Reads(history, start, sources, at) && seen == Seen(history, sources, at)
    {
      ghost var at: seq<nat> := [];
      seen := [];
      for i := 0 to |sources|
        invariant |at| == i && forall k :: 0 <= k < i ==> start <= at[k] < |history|
        invariant seen == Seen(history, sources[..i], at)
      {
        var moment: int :| start <= moment < |history|;
        assert sources[..i + 1] == sources[..i] + [sources[i]];
        seen, at := seen + [(sources[i], history[moment].Version(sources[i]))], at + [moment];
      }
      assert sources[..|sources|] == sources;
    }
  }
}

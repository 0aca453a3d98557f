/**
 Preparing the deltas of an adapter: pairing its projections and dropping branches that are
 exported twice (reference/diffusers/model_merge_lora.py, prepare_lora).
 */
module LoraDeltas {
  import opened Numbers
  import opened Options

  // ---- Pairing ----

  datatype Side = Down | Up

  /** A tensor name of the adapter, after matching it against the known spellings. */
  datatype Key = Projection(moduleName: string, side: Side) | Alpha(moduleName: string) | Unsupported

  datatype Refusal = DuplicateProjection | DuplicateAlpha | UnsupportedTensor | NoPairs | UnmatchedAlpha | Unpaired

  /** The sides found for each module. */
  type Pairs = map<string, set<Side>>

  /** No key twice, nothing unknown. */
  ghost predicate Readable(keys: seq<Key>) {
    && Unsupported !in keys
    && forall i, j :: 0 <= i < j < |keys| ==> keys[i] != keys[j]
  }

  ghost predicate Records(keys: seq<Key>, pairs: Pairs, alphas: set<string>) {
    && (forall name, side :: Projection(name, side) in keys <==> name in pairs && side in pairs[name])
    && (forall name <- pairs :: pairs[name] != {})
    && forall name :: Alpha(name) in keys <==> name in alphas
  }

  /** Every projection has both sides, at least one exists, and every alpha belongs to one. */
  ghost predicate Paired(keys: seq<Key>) {
    && (exists key <- keys :: key.Projection?)
    && (forall name, side :: Projection(name, side) in keys ==> Projection(name, Down) in keys && Projection(name, Up) in keys)
    && forall name :: Alpha(name) in keys ==> Projection(name, Down) in keys || Projection(name, Up) in keys
  }

  lemma ReadableStep(keys: seq<Key>, key: Key)
    ensures Readable(keys + [key]) <==> Readable(keys) && key != Unsupported && key !in keys
  {
    var longer := keys + [key];
    if Readable(longer) {
      assert forall i :: 0 <= i < |keys| ==> longer[i] == keys[i] && longer[i] != longer[|keys|];
      assert forall other <- keys :: other in longer;
      assert longer[|keys|] == key && key in longer;
    }
  }

  lemma {:induction false} ReadablePrefix(keys: seq<Key>, n: nat)
    requires n <= |keys| && Readable(keys)
    ensures Readable(keys[..n])
  {
    assert forall key <- keys[..n] :: key in keys;
  }

  lemma RecordsStep(keys: seq<Key>, key: Key, pairs: Pairs, alphas: set<string>)
    requires Records(keys, pairs, alphas)
    ensures key.Projection? ==> var pair := if key.moduleName in pairs then pairs[key.moduleName] else {};
      (key in keys <==> key.side in pair) && Records(keys + [key], pairs[key.moduleName := pair + {key.side}], alphas)
    ensures key.Alpha? ==> (key in keys <==> key.moduleName in alphas) && Records(keys + [key], pairs, alphas + {key.moduleName})
  {
    assert forall other :: other in keys + [key] <==> other in keys || other == key;
  }

  /** The reading loop and the checks after it. */
  method PairKeys(keys: seq<Key>) returns (result: Result<Pairs, Refusal>)
    ensures result.Ok? <==> Readable(keys) && Paired(keys)
    ensures result.Ok? ==> forall name, side :: Projection(name, side) in keys <==> name in result.value
  {
    hide Readable, Records;
    var pairs: Pairs := map[];
    var alphas: set<string> := {};
    NothingRead();
    for i := 0 to |keys|
      invariant Readable(keys[..i]) && Records(keys[..i], pairs, alphas)
    {
      assert keys[..i + 1] == keys[..i] + [keys[i]];
      ReadableStep(keys[..i], keys[i]);
      RecordsStep(keys[..i], keys[i], pairs, alphas);
      if Readable(keys) {
        ReadablePrefix(keys, i + 1);
      }
      match keys[i]
      case Projection(name, side) =>
        var pair := if name in pairs then pairs[name] else {};
        if side in pair {
          return Err(DuplicateProjection);
        }
        pairs := pairs[name := pair + {side}];
      case Alpha(name) =>
        if name in alphas {
          return Err(DuplicateAlpha);
        }
        alphas := alphas + {name};
      case Unsupported =>
        return Err(UnsupportedTensor);
    }
    assert keys[..|keys|] == keys;
    result := CheckPairs(keys, pairs, alphas);
  }

  lemma NothingRead()
    ensures Readable([]) && Records([], map[], {})
  {
  }

  method CheckPairs(ghost keys: seq<Key>, pairs: Pairs, alphas: set<string>) returns (result: Result<Pairs, Refusal>)
    requires Records(keys, pairs, alphas)
    ensures result.Ok? <==> Paired(keys)
    ensures result.Ok? ==> forall name, side :: Projection(name, side) in keys <==> name in result.value
  {
    assert forall sides: set<Side> :: Down in sides && Up in sides ==> sides == {Down, Up} by {
      BothSides();
    }
    if pairs == map[] {
      return Err(NoPairs);
    }
    var some :| some in pairs;
    var side :| side in pairs[some];
    assert Projection(some, side) in keys;
    if exists name <- alphas :: name !in pairs {
      return Err(UnmatchedAlpha);
    }
    if exists name <- pairs :: pairs[name] != {Down, Up} {
      var name :| name in pairs && pairs[name] != {Down, Up};
      var side :| side in pairs[name];
      assert Projection(name, side) in keys;
      return Err(Unpaired);
    }
    forall name, side ensures Projection(name, side) in keys <==> name in pairs {
      assert side == Down || side == Up;
    }
    return Ok(pairs);
  }

  lemma BothSides()
    ensures forall sides: set<Side> :: Down in sides && Up in sides ==> sides == {Down, Up}
  {
    forall sides: set<Side> | Down in sides && Up in sides ensures sides == {Down, Up} {
      forall side | side in sides ensures side == Down || side == Up {
        match side case Down => case Up =>
      }
    }
  }

  // ---- Duplicate branches ----

  /** A tensor as read: its dtype and values. Two tensors are equal only if no value is NaN. */
  datatype Stored = Stored(dtype: string, shape: seq<nat>, values: seq<Number>)

  predicate HasNaN(tensor: Stored) { NaN in tensor.values }

  predicate TensorEqual(a: Stored, b: Stored) {
    a.dtype == b.dtype && a.shape == b.shape && |a.values| == |b.values|
    && forall i :: 0 <= i < |a.values| ==> a.values[i] == b.values[i] && a.values[i] != NaN
  }

  datatype Target = Target(address: (string, string), rows: Option<(nat, nat)>, transpose: bool)

  /** How a delta was fitted to another shape; it names the module it came from. */
  datatype Adaptation = Adaptation(sourceModule: string, sourceShape: seq<nat>, targetShape: seq<nat>, remapped: bool)

  datatype Delta = Delta(
    target: Target, down: Stored, up: Stored, scale: real, fanInFanOut: bool,
    moduleName: string, adaptation: Option<Adaptation>)

  /** The two deltas touch common rows of one tensor. */
  predicate Overlap(a: Target, b: Target) {
    && a.address == b.address
    && (a.rows.None? || b.rows.None? || Larger(a.rows.value.0, b.rows.value.0) < Smaller(a.rows.value.1, b.rows.value.1))
  }

  function Larger(a: nat, b: nat): nat { if a > b then a else b }
  function Smaller(a: nat, b: nat): nat { if a < b then a else b }

  /** The same branch, exported under another name. */
  predicate Identical(prior: Delta, delta: Delta) {
    && Overlap(prior.target, delta.target)
    && prior.target == delta.target && prior.scale == delta.scale && prior.fanInFanOut == delta.fanInFanOut
    && prior.adaptation == delta.adaptation
    && TensorEqual(prior.down, delta.down) && TensorEqual(prior.up, delta.up)
  }

  /** Two deltas count as one exactly when they differ at most in the module's name and can be compared at all. */
  lemma IdenticalExactly(prior: Delta, delta: Delta)
    ensures Identical(prior, delta) <==>
      && prior.(moduleName := delta.moduleName) == delta
      && NaN !in delta.down.values && NaN !in delta.up.values
      && (delta.target.rows.Some? ==> delta.target.rows.value.0 < delta.target.rows.value.1)
  {
    SameTensor(prior.down, delta.down);
    SameTensor(prior.up, delta.up);
  }

  lemma SameTensor(a: Stored, b: Stored)
    ensures TensorEqual(a, b) <==> a == b && NaN !in b.values
  {
    if TensorEqual(a, b) {
      assert a.values == b.values;
    }
  }

  /** The deltas that no earlier one is identical to. */
  function Distinct(deltas: seq<Delta>): seq<Delta> {
    if deltas == [] then []
    else
      var n := |deltas| - 1;
      if exists i :: 0 <= i < n && Identical(deltas[i], deltas[n]) then Distinct(deltas[..n])
      else Distinct(deltas[..n]) + [deltas[n]]
  }

  lemma IdenticalIsPartialEquivalence(a: Delta, b: Delta, c: Delta)
    ensures Identical(a, b) ==> Identical(b, a) && Identical(a, a)
    ensures Identical(a, b) && Identical(b, c) ==> Identical(a, c)
  {
  }

  /** Among the kept deltas there is one identical to a new delta just when there is one among all before it. */
  lemma {:induction false} KeptRepresentsAll(deltas: seq<Delta>, delta: Delta)
    ensures (exists prior <- Distinct(deltas) :: Identical(prior, delta)) <==> (exists prior <- deltas :: Identical(prior, delta))
  {
    if deltas != [] {
      var n := |deltas| - 1;
      var last := deltas[n];
      assert deltas == deltas[..n] + [last];
      KeptRepresentsAll(deltas[..n], delta);
      if exists i :: 0 <= i < n && Identical(deltas[i], last) {
        var i :| 0 <= i < n && Identical(deltas[i], last);
        if Identical(last, delta) {
          IdenticalIsPartialEquivalence(deltas[i], last, delta);
          assert deltas[i] in deltas[..n];
        }
      }
    }
  }

  /** The loop that drops repeated branches: it compares a delta with the kept ones only. */
  method DropRepeated(prepared: seq<Delta>) returns (deltas: seq<Delta>)
    ensures deltas == Distinct(prepared)
  {
    deltas := [];
    for n := 0 to |prepared|
      invariant deltas == Distinct(prepared[..n])
    {
      var delta := prepared[n];
      var repeated := false;
      for i := 0 to |deltas|
        invariant !repeated && forall k :: 0 <= k < i ==> !Identical(deltas[k], delta)
      {
        var prior := deltas[i];
        if !Overlap(prior.target, delta.target) {
          continue;
        }
        if Identical(prior, delta) {
          repeated := true;
          break;
        }
      }
      assert repeated <==> exists prior <- Distinct(prepared[..n]) :: Identical(prior, delta);
      KeptRepresentsAll(prepared[..n], delta);
      assert prepared[..n + 1][..n] == prepared[..n];
      if !repeated {
        deltas := deltas + [delta];
      }
    }
    assert prepared[..|prepared|] == prepared;
  }

  // ---- What is kept ----

  lemma {:induction false} KeptArePrepared(deltas: seq<Delta>)
    ensures forall delta <- Distinct(deltas) :: delta in deltas
  {
    if deltas != [] {
      KeptArePrepared(deltas[..|deltas| - 1]);
      assert forall delta <- deltas[..|deltas| - 1] :: delta in deltas;
    }
  }

  /** No branch is kept twice. */
  lemma {:induction false} KeptAreDistinct(deltas: seq<Delta>)
    ensures forall i, j :: 0 <= i < j < |Distinct(deltas)| ==> !Identical(Distinct(deltas)[i], Distinct(deltas)[j])
  {
    hide Identical;
    if deltas != [] {
      var n := |deltas| - 1;
      KeptAreDistinct(deltas[..n]);
      if !exists i :: 0 <= i < n && Identical(deltas[i], deltas[n]) {
        KeptArePrepared(deltas[..n]);
        var kept := Distinct(deltas[..n]);
        forall i | 0 <= i < |kept| ensures !Identical(kept[i], deltas[n]) {
          assert kept[i] in deltas[..n];
          var k :| 0 <= k < n && deltas[..n][k] == kept[i];
        }
      }
    }
  }

  /** Exporting branches again that are there already changes nothing. */
  lemma {:induction false} RepeatingChangesNothing(deltas: seq<Delta>, again: seq<Delta>)
    requires forall delta <- again :: exists prior <- deltas :: Identical(prior, delta)
    ensures Distinct(deltas + again) == Distinct(deltas)
  {
    hide Identical;
    if again == [] {
      assert deltas + again == deltas;
    } else {
      var m := |again| - 1;
      assert forall delta <- again[..m] :: delta in again;
      RepeatingChangesNothing(deltas, again[..m]);
      assert (deltas + again)[..|deltas| + m] == deltas + again[..m];
      assert again[m] in again;
      var prior :| prior in deltas && Identical(prior, again[m]);
      var i :| 0 <= i < |deltas| && deltas[i] == prior;
      assert (deltas + again)[i] == prior;
    }
  }

  /** Branches that differ in anything are all kept, on whatever rows they meet. */
  lemma {:induction false} DifferentBranchesAllAdd(deltas: seq<Delta>)
    requires forall i, j :: 0 <= i < j < |deltas| ==> !Identical(deltas[i], deltas[j])
    ensures Distinct(deltas) == deltas
  {
    if deltas != [] {
      DifferentBranchesAllAdd(deltas[..|deltas| - 1]);
    }
  }

  function Total(deltas: seq<Delta>, effect: Delta -> real): real {
    if deltas == [] then 0.0 else Total(deltas[..|deltas| - 1], effect) + effect(deltas[|deltas| - 1])
  }

  /** An effect counts once: adding a delta changes the total update exactly when it is a new branch. */
  lemma EachBranchCountsOnce(deltas: seq<Delta>, delta: Delta, effect: Delta -> real)
    ensures Total(Distinct(deltas + [delta]), effect) == Total(Distinct(deltas), effect)
      + if exists prior <- Distinct(deltas) :: Identical(prior, delta) then 0.0 else effect(delta)
  {
    hide Identical;
    KeptRepresentsAll(deltas, delta);
    var longer := deltas + [delta];
    assert longer[..|deltas|] == deltas;
    if exists prior <- deltas :: Identical(prior, delta) {
      var prior :| prior in deltas && Identical(prior, delta);
      var i :| 0 <= i < |deltas| && deltas[i] == prior;
      assert longer[i] == prior;
    } else {
      assert forall i :: 0 <= i < |deltas| ==> longer[i] == deltas[i] && deltas[i] in deltas;
      assert (Distinct(deltas) + [delta])[..|Distinct(deltas)|] == Distinct(deltas);
    }
  }

  // ---- Which second exports are recognised ----

  /** The same branch under another module name; an adaptation report carries that name too. */
  function Renamed(delta: Delta, alias: string): Delta {
    delta.(moduleName := alias,
           adaptation := if delta.adaptation.Some? then Some(delta.adaptation.value.(sourceModule := alias)) else None)
  }

  predicate HasRows(target: Target) {
    target.rows.Some? ==> target.rows.value.0 < target.rows.value.1
  }

  /** What makes a second export of a branch under another name recognisable. */
  predicate Recognisable(delta: Delta) {
    delta.adaptation.None? && !HasNaN(delta.down) && !HasNaN(delta.up) && HasRows(delta.target)
  }

  /** The adaptation report names the module it was made for. */
  predicate NamesModule(delta: Delta) {
    delta.adaptation.Some? ==> delta.adaptation.value.sourceModule == delta.moduleName
  }

  lemma RenamedIsIdenticalExactly(delta: Delta, alias: string)
    requires NamesModule(delta) && alias != delta.moduleName
    ensures Identical(delta, Renamed(delta, alias)) <==> Recognisable(delta)
  {
    assert Overlap(delta.target, delta.target) <==> HasRows(delta.target);
  }

  /**
   After any deltas that contain a branch, its second export under another name is dropped exactly
   when the branch needed no adaptation, its tensors hold no NaN and its row range is not empty, or
   another delta is identical to that export. With NaN or no rows nothing is, and it is applied twice.
   */
  lemma AliasIsDroppedExactly(deltas: seq<Delta>, delta: Delta, alias: string)
    requires delta in deltas && NamesModule(delta) && alias != delta.moduleName
    ensures var copy := Renamed(delta, alias);
      Distinct(deltas + [copy]) == Distinct(deltas) +
        if Recognisable(delta) || exists prior <- deltas :: prior != delta && Identical(prior, copy) then [] else [copy]
    ensures HasNaN(delta.down) || HasNaN(delta.up) || !HasRows(delta.target) ==>
      Distinct(deltas + [Renamed(delta, alias)]) == Distinct(deltas) + [Renamed(delta, alias)]
  {
    var copy := Renamed(delta, alias);
    RenamedIsIdenticalExactly(delta, alias);
    AppendedBranch(deltas, copy);
    NeverIdentical(delta, copy);
    hide Identical, Distinct;
  }

  lemma AppendedBranch(deltas: seq<Delta>, delta: Delta)
    ensures Distinct(deltas + [delta]) ==
      Distinct(deltas) + if exists prior <- deltas :: Identical(prior, delta) then [] else [delta]
  {
    hide Identical;
    var longer := deltas + [delta];
    assert longer[..|deltas|] == deltas;
    if prior :| prior in deltas && Identical(prior, delta) {
      var i :| 0 <= i < |deltas| && deltas[i] == prior;
      assert longer[i] == prior;
    }
    assert forall i :: 0 <= i < |deltas| ==> longer[i] == deltas[i] && deltas[i] in deltas;
  }

  /** What holds NaN or touches no rows is identical to nothing. */
  lemma NeverIdentical(delta: Delta, copy: Delta)
    requires copy.target == delta.target && copy.down == delta.down && copy.up == delta.up
    ensures HasNaN(delta.down) || HasNaN(delta.up) || !HasRows(delta.target) ==> forall prior: Delta :: !Identical(prior, copy)
  {
    forall prior: Delta | Identical(prior, copy)
      ensures !HasNaN(copy.down) && !HasNaN(copy.up) && HasRows(copy.target)
    {
      NoNaN(prior.down, copy.down);
      NoNaN(prior.up, copy.up);
    }
  }

  lemma NoNaN(a: Stored, b: Stored)
    requires TensorEqual(a, b)
    ensures !HasNaN(b)
  {
  }
}

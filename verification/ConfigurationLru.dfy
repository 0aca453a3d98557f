/**
 The bounded configuration cache: an ordered dictionary whose order is its only bookkeeping
 (reference/diffusers/inference_session.py, the configurations field), against a cache that
 keeps the time of every use and drops the entry used longest ago.
 */
module ConfigurationLru {
  import opened Options

  const LIMIT := 16

  // ---- The ordered dictionary ----

  type Ordered<V> = seq<(string, V)>

  function Position<V>(entries: Ordered<V>, key: string): Option<nat> {
    if entries == [] then None
    else if entries[0].0 == key then Some(0)
    else
      var rest := Position(entries[1..], key);
      if rest.None? then None else Some(rest.value + 1)
  }

  lemma {:induction false} PositionFinds<V>(entries: Ordered<V>, key: string)
    ensures match Position(entries, key)
      case None => forall entry <- entries :: entry.0 != key
      case Some(i) => i < |entries| && entries[i].0 == key
  {
    if entries != [] {
      PositionFinds(entries[1..], key);
      assert entries == [entries[0]] + entries[1..];
    }
  }

  function Without<V>(entries: Ordered<V>, key: string): Ordered<V> {
    match Position(entries, key)
    case None => entries
    case Some(i) => if i < |entries| then entries[..i] + entries[i + 1..] else entries
  }

  function MovedToEnd<V>(entries: Ordered<V>, key: string): Ordered<V> {
    match Position(entries, key)
    case None => entries
    case Some(i) => if i < |entries| then Without(entries, key) + [entries[i]] else entries
  }

  /** Stores a key that is absent, and drops the first entry when there are too many. */
  function Stored<V>(entries: Ordered<V>, key: string, value: V): Ordered<V> {
    var longer := entries + [(key, value)];
    if |longer| > LIMIT then longer[1..] else longer
  }

  // ---- The cache that keeps times ----

  datatype Timed<V> = Timed(values: map<string, V>, used: map<string, nat>, now: nat)

  ghost predicate Consistent<V>(cache: Timed<V>) {
    && cache.values.Keys == cache.used.Keys
    && (forall key <- cache.used :: cache.used[key] < cache.now)
    && forall a, b | a in cache.used && b in cache.used && a != b :: cache.used[a] != cache.used[b]
  }

  ghost function Touched<V>(cache: Timed<V>, key: string): Timed<V> {
    cache.(used := cache.used[key := cache.now], now := cache.now + 1)
  }

  ghost function Dropped<V>(cache: Timed<V>, key: string): Timed<V> {
    cache.(values := cache.values - {key}, used := cache.used - {key})
  }

  ghost predicate LeastRecent<V>(cache: Timed<V>, key: string) {
    key in cache.used && forall other <- cache.used :: cache.used[key] <= cache.used[other]
  }

  /** Stores a value; when that makes too many, the least recently used entry goes. */
  ghost predicate Puts<V>(before: Timed<V>, key: string, value: V, after: Timed<V>) {
    var full := Touched(before.(values := before.values[key := value]), key);
    if |full.values| <= LIMIT then after == full
    else exists oldest :: LeastRecent(full, oldest) && after == Dropped(full, oldest)
  }

  // ---- The refinement ----

  /** The dictionary lists exactly the cached entries, from the least to the most recently used. */
  ghost predicate Lists<V>(entries: Ordered<V>, cache: Timed<V>) {
    && Consistent(cache) && |cache.values| == |entries|
    && (forall entry <- entries :: entry.0 in cache.values && cache.values[entry.0] == entry.1)
    && (forall i, j :: 0 <= i < j < |entries| ==>
          entries[i].0 in cache.used && entries[j].0 in cache.used && cache.used[entries[i].0] < cache.used[entries[j].0])
    && forall key <- cache.values :: Position(entries, key).Some?
  }

  ghost predicate Refines<V>(entries: Ordered<V>, cache: Timed<V>) {
    Lists(entries, cache) && |entries| <= LIMIT
  }

  lemma EmptyRefines<V>()
    ensures Refines<V>([], Timed(map[], map[], 0))
  {
  }

  lemma {:induction false} PositionAfterAppend<V>(entries: Ordered<V>, entry: (string, V), key: string)
    ensures Position(entries + [entry], key).Some? <==> Position(entries, key).Some? || key == entry.0
  {
    if entries == [] {
      assert entries + [entry] == [entry];
    } else {
      PositionAfterAppend(entries[1..], entry, key);
      assert (entries + [entry])[1..] == entries[1..] + [entry];
    }
  }

  lemma {:induction false} PositionAfterRemoval<V>(entries: Ordered<V>, k: nat, key: string)
    requires k < |entries| && key != entries[k].0 && Position(entries, key).Some?
    ensures Position(entries[..k] + entries[k + 1..], key).Some?
  {
    var after := entries[..k] + entries[k + 1..];
    if k == 0 {
      assert after == entries[1..];
    } else if entries[0].0 != key {
      PositionAfterRemoval(entries[1..], k - 1, key);
      assert after[1..] == entries[1..][..k - 1] + entries[1..][k..];
    }
  }

  lemma TouchedConsistent<V>(cache: Timed<V>, key: string, value: V)
    requires Consistent(cache) && key !in cache.values
    ensures Consistent(Touched(cache.(values := cache.values[key := value]), key))
    ensures |cache.values[key := value]| == |cache.values| + 1
  {
    assert cache.values[key := value].Keys == cache.values.Keys + {key};
    assert cache.used[key := cache.now].Keys == cache.used.Keys + {key};
  }

  lemma AppendKeepsOrder<V>(entries: Ordered<V>, cache: Timed<V>, key: string, value: V)
    requires Lists(entries, cache) && key !in cache.values
    ensures var longer, after := entries + [(key, value)], Touched(cache.(values := cache.values[key := value]), key);
      forall i, j :: 0 <= i < j < |longer| ==>
        longer[i].0 in after.used && longer[j].0 in after.used && after.used[longer[i].0] < after.used[longer[j].0]
  {
    hide Position;
    assert forall i :: 0 <= i < |entries| ==> entries[i] in entries;
  }

  /** Appending a key that is absent, as used now. */
  lemma AppendLists<V>(entries: Ordered<V>, cache: Timed<V>, key: string, value: V)
    requires Lists(entries, cache) && key !in cache.values
    ensures Lists(entries + [(key, value)], Touched(cache.(values := cache.values[key := value]), key))
  {
    hide Position;
    var longer, after := entries + [(key, value)], Touched(cache.(values := cache.values[key := value]), key);
    TouchedConsistent(cache, key, value);
    AppendKeepsOrder(entries, cache, key, value);
    hide Consistent;
    forall other | other in after.values ensures Position(longer, other).Some? {
      PositionAfterAppend(entries, (key, value), other);
    }
    forall entry | entry in longer ensures entry.0 in after.values && after.values[entry.0] == entry.1 {
      assert entry in entries || entry == (key, value);
    }
  }

  lemma RemovalKeepsOrder<V>(entries: Ordered<V>, cache: Timed<V>, k: nat)
    requires Lists(entries, cache) && k < |entries|
    ensures var after, dropped := entries[..k] + entries[k + 1..], Dropped(cache, entries[k].0);
      && (forall entry <- after :: entry.0 in dropped.values && dropped.values[entry.0] == entry.1)
      && forall i, j :: 0 <= i < j < |after| ==>
           after[i].0 in dropped.used && after[j].0 in dropped.used && dropped.used[after[i].0] < dropped.used[after[j].0]
  {
    hide Position;
    var after := entries[..k] + entries[k + 1..];
    forall i | 0 <= i < |after|
      ensures after[i] == entries[if i < k then i else i + 1] && after[i] in entries && after[i].0 != entries[k].0
    {
    }
  }

  lemma RemovalCovers<V>(entries: Ordered<V>, cache: Timed<V>, k: nat)
    requires Lists(entries, cache) && k < |entries|
    ensures forall key <- Dropped(cache, entries[k].0).values :: Position(entries[..k] + entries[k + 1..], key).Some?
  {
    hide Position, Consistent;
    forall key | key in Dropped(cache, entries[k].0).values
      ensures Position(entries[..k] + entries[k + 1..], key).Some?
    {
      PositionAfterRemoval(entries, k, key);
    }
  }

  lemma DropConsistent<V>(cache: Timed<V>, key: string)
    requires Consistent(cache)
    ensures Consistent(Dropped(cache, key)) && key !in Dropped(cache, key).values
    ensures |Dropped(cache, key).values| == |cache.values| - if key in cache.values then 1 else 0
    ensures key !in cache.values ==> Dropped(cache, key) == cache
  {
    FewerKeys(cache.values, key);
    FewerKeys(cache.used, key);
  }

  lemma FewerKeys<X>(entries: map<string, X>, key: string)
    ensures |entries - {key}| == |entries| - if key in entries then 1 else 0
    ensures (entries - {key}).Keys == entries.Keys - {key}
    ensures key !in entries ==> entries - {key} == entries
  {
    assert (entries - {key}).Keys == entries.Keys - {key};
    assert |entries - {key}| == |(entries - {key}).Keys| && |entries| == |entries.Keys|;
  }

  lemma DropAt<V>(entries: Ordered<V>, cache: Timed<V>, k: nat)
    requires Lists(entries, cache) && k < |entries|
    ensures Lists(entries[..k] + entries[k + 1..], Dropped(cache, entries[k].0)) && entries[k].0 in cache.values
  {
    hide Position, Dropped, Consistent;
    DropConsistent(cache, entries[k].0);
    assert entries[k] in entries;
    RemovalKeepsOrder(entries, cache, k);
    RemovalCovers(entries, cache, k);
  }

  lemma DropLists<V>(entries: Ordered<V>, cache: Timed<V>, key: string)
    requires Lists(entries, cache)
    ensures Lists(Without(entries, key), Dropped(cache, key)) && key !in Dropped(cache, key).values
    ensures key in cache.values ==> |Without(entries, key)| == |entries| - 1
    ensures key !in cache.values ==> Without(entries, key) == entries
  {
    hide Position, Dropped, Consistent;
    PositionFinds(entries, key);
    DropConsistent(cache, key);
    assert key in cache.values ==> Position(entries, key).Some?;
    hide Lists;
    if Position(entries, key).Some? {
      DropAt(entries, cache, Position(entries, key).value);
    }
  }

  lemma HitRefines<V>(entries: Ordered<V>, cache: Timed<V>, key: string)
    requires Refines(entries, cache) && key in cache.values
    ensures Refines(MovedToEnd(entries, key), Touched(cache, key))
  {
    hide Lists, Position, Consistent;
    ListedKey(entries, cache, key);
    DropLists(entries, cache, key);
    var value, dropped := cache.values[key], Dropped(cache, key);
    AppendLists(Without(entries, key), dropped, key, value);
    assert dropped.values[key := value] == cache.values && dropped.used[key := cache.now] == cache.used[key := cache.now];
  }

  lemma ListedKey<V>(entries: Ordered<V>, cache: Timed<V>, key: string)
    requires Lists(entries, cache) && key in cache.values
    ensures Position(entries, key).Some? && Position(entries, key).value < |entries|
    ensures entries[Position(entries, key).value] == (key, cache.values[key]) && key in cache.used
  {
    PositionFinds(entries, key);
    assert entries[Position(entries, key).value] in entries;
  }

  lemma DropRefines<V>(entries: Ordered<V>, cache: Timed<V>, key: string)
    requires Refines(entries, cache)
    ensures Refines(Without(entries, key), Dropped(cache, key)) && key !in Dropped(cache, key).values
  {
    DropLists(entries, cache, key);
  }

  lemma PutRefines<V>(entries: Ordered<V>, cache: Timed<V>, key: string, value: V) returns (after: Timed<V>)
    requires Refines(entries, cache) && key !in cache.values
    ensures Puts(cache, key, value, after) && Refines(Stored(entries, key, value), after)
  {
    hide Consistent;
    var longer, full := entries + [(key, value)], Touched(cache.(values := cache.values[key := value]), key);
    AppendLists(entries, cache, key, value);
    if |longer| <= LIMIT {
      after := full;
    } else {
      var oldest := longer[0].0;
      after := Dropped(full, oldest);
      FirstIsLeastRecent(longer, full);
      DropLists(longer, full, oldest);
      assert Without(longer, oldest) == longer[1..];
    }
  }

  /** Sixteen are kept, and the first of them goes only when there are sixteen already. */
  lemma SixteenAreKept<V>(entries: Ordered<V>, cache: Timed<V>, key: string, value: V)
    requires Refines(entries, cache)
    ensures |entries| <= 16 && |Stored(entries, key, value)| <= 16
    ensures Stored(entries, key, value) == (if |entries| < 16 then entries else entries[1..]) + [(key, value)]
  {
    hide Lists;
  }

  lemma FirstIsLeastRecent<V>(entries: Ordered<V>, cache: Timed<V>)
    requires Lists(entries, cache) && entries != []
    ensures LeastRecent(cache, entries[0].0) && entries[0].0 in cache.values
  {
    assert entries[0] in entries;
    forall other | other in cache.used ensures cache.used[entries[0].0] <= cache.used[other] {
      ListedKey(entries, cache, other);
    }
  }

  /** Looking a key up in the dictionary is looking it up in the cache. */
  lemma FoundIsCached<V>(entries: Ordered<V>, cache: Timed<V>, key: string)
    requires Refines(entries, cache)
    ensures Position(entries, key).Some? <==> key in cache.values
    ensures Position(entries, key).Some? ==>
      Position(entries, key).value < |entries| && entries[Position(entries, key).value] in entries
      && entries[Position(entries, key).value] == (key, cache.values[key])
  {
    hide Position, Consistent;
    PositionFinds(entries, key);
    if Position(entries, key).Some? {
      assert entries[Position(entries, key).value] in entries;
    }
  }

  lemma MovingKeeps<V>(entries: Ordered<V>, key: string)
    ensures forall entry <- MovedToEnd(entries, key) :: entry in entries
    ensures forall entry <- Without(entries, key) :: entry in entries
  {
  }

  lemma StoringKeeps<V>(entries: Ordered<V>, key: string, value: V)
    ensures forall entry <- Stored(entries, key, value) :: entry in entries || entry == (key, value)
  {
  }
}

/**
 Keyframe lookups (reference/diffusers/deforum_schedules.py, NumericSchedule):
 bisection over sorted frame numbers, against an order-free description of the governing key.
 */
module KeyframeSchedules {
  import opened Options
  import opened ScheduleEntries
  import opened ScheduleExpressions
  import opened Sequences
  import opened Sorting
  import opened Texts

  predicate AtMost(a: int, b: int) { a <= b }

  ghost predicate Ascending(keys: seq<int>) {
    forall i, j :: 0 <= i < j < |keys| ==> keys[i] < keys[j]
  }

  function SortedKeys(keys: seq<int>): seq<int> { Sort(AtMost, keys) }

  lemma SortedKeysAscend(keys: seq<int>)
    requires Distinct(keys)
    ensures Ascending(SortedKeys(keys)) && forall k :: k in SortedKeys(keys) <==> k in keys
    ensures |SortedKeys(keys)| == |keys|
  {
    SortKeepsDistinct(AtMost, keys);
    var sorted := SortedKeys(keys);
    forall i, j | 0 <= i < j < |sorted| ensures sorted[i] < sorted[j] {
      assert AtMost(sorted[i], sorted[j]) && sorted[i] != sorted[j];
    }
  }

  /** The first position whose key is greater, by halving. */
  function BisectRight(keys: seq<int>, x: int, low: nat, high: nat): (position: nat)
    requires low <= high <= |keys| && Ascending(keys)
    requires forall i :: 0 <= i < low ==> keys[i] <= x
    requires forall i :: high <= i < |keys| ==> x < keys[i]
    ensures position <= |keys|
    ensures forall i :: 0 <= i < position ==> keys[i] <= x
    ensures forall i :: position <= i < |keys| ==> x < keys[i]
    decreases high - low
  {
    if low == high then low
    else
      var middle := (low + high) / 2;
      if x < keys[middle] then BisectRight(keys, x, low, middle) else BisectRight(keys, x, middle + 1, high)
  }

  // ---- Keys without an order ----

  /** The key a frame is governed by: the last one not after it, or the first one of all. */
  ghost predicate Governs(keys: set<int>, key: int, frame: int) {
    && key in keys
    && if key <= frame then forall k <- keys :: k <= frame ==> k <= key
       else forall k <- keys :: key <= k
  }

  /** The first key after a frame. */
  ghost predicate Follows(keys: set<int>, key: int, frame: int) {
    key in keys && key > frame && forall k <- keys :: k > frame ==> key <= k
  }

  lemma GovernorIsUnique(keys: set<int>, a: int, b: int, frame: int)
    requires Governs(keys, a, frame) && Governs(keys, b, frame)
    ensures a == b
  {
  }

  // ---- Numeric schedules ----

  datatype Numeric = Numeric(maxFrames: int, fps: real, keyframes: map<int, Node>, keys: seq<int>) {
    function Environment(t: int): Environment { ScheduleExpressions.Environment(t, maxFrames - 1, fps) }

    /** The value of a key's expression at a frame. */
    function Value(key: int, frame: int, lib: Library): Option<real>
      requires key in keyframes
    {
      Evaluate(keyframes[key], Environment(frame), lib)
    }

    ghost predicate Valid(lib: Library) {
      && keys != [] && Ascending(keys)
      && (forall k :: k in keys <==> k in keyframes)
      && forall k <- keyframes :: 0 <= k < maxFrames && Value(k, k, lib).Some?
    }
  }

  /** a parts of x, out of b. */
  function Portion(x: real, a: real, b: real): real
    requires b != 0.0
  {
    x * a / b
  }

  function Between(left: int, right: int, frame: int, from: real, to: real): real
    requires left < right
  {
    from + Portion(to - from, (frame - left) as real, (right - left) as real)
  }

  /** The lookup as the source does it, over the sorted keys. */
  function At(s: Numeric, frame: int, lib: Library): (result: Option<real>)
    requires s.Valid(lib)
  {
    if !(0 <= frame < s.maxFrames) then None
    else
      var found := BisectRight(s.keys, frame, 0, |s.keys|);
      AtPosition(s, frame, if found == 0 then 0 else found - 1, lib)
  }

  function AtPosition(s: Numeric, frame: int, position: nat, lib: Library): (result: Option<real>)
    requires position < |s.keys| && forall k <- s.keys :: k in s.keyframes
    requires Ascending(s.keys)
  {
    var left := s.keys[position];
    var dynamic := Dynamic(s.keyframes[left]);
    var value := s.Value(left, if dynamic then frame else left, lib);
    if value.None? || dynamic || frame <= left || position == |s.keys| - 1 then value
    else
      var right := s.keys[position + 1];
      var target := s.Value(right, right, lib);
      if target.None? then None else Some(Between(left, right, frame, value.value, target.value))
  }

  /** What a schedule means, by keys and not by positions. */
  ghost function Meant(s: Numeric, frame: int, key: int, next: Option<int>, lib: Library): Option<real>
    requires key in s.keyframes && (next.Some? ==> next.value in s.keyframes && key < next.value)
  {
    if Dynamic(s.keyframes[key]) || frame <= key || next.None? then s.Value(key, frame, lib)
    else
      var value, target := s.Value(key, frame, lib), s.Value(next.value, next.value, lib);
      if value.None? || target.None? then None
      else Some(Between(key, next.value, frame, value.value, target.value))
  }

  /** The key that governs a frame and the one after the frame, if there is one. */
  ghost predicate Neighbours(keys: set<int>, frame: int, key: int, next: Option<int>) {
    && Governs(keys, key, frame)
    && match next
       case None => forall k <- keys :: k <= frame
       case Some(right) => Follows(keys, right, frame) && (key > frame || key < right)
  }

  lemma NeighboursAreUnique(keys: set<int>, frame: int, a: int, b: int, aNext: Option<int>, bNext: Option<int>)
    requires Neighbours(keys, frame, a, aNext) && Neighbours(keys, frame, b, bNext)
    ensures a == b && aNext == bNext
  {
  }

  /** Bisection finds the neighbours. */
  lemma BisectFinds(keys: seq<int>, domain: set<int>, frame: int) returns (position: nat, next: Option<int>)
    requires keys != [] && Ascending(keys) && forall k :: k in keys <==> k in domain
    ensures position < |keys|
    ensures position == var found := BisectRight(keys, frame, 0, |keys|); if found == 0 then 0 else found - 1
    ensures Neighbours(domain, frame, keys[position], next)
    ensures keys[position] < frame ==> next == if position + 1 < |keys| then Some(keys[position + 1]) else None
  {
    var found := BisectRight(keys, frame, 0, |keys|);
    position := if found == 0 then 0 else found - 1;
    next := if found < |keys| then Some(keys[found]) else None;
    assert keys[position] in keys;
    forall k | k in domain
      ensures k <= frame ==> k <= keys[position] && found > 0
      ensures found == 0 ==> keys[position] <= k
      ensures k > frame ==> found < |keys| && keys[found] <= k
    {
      var i :| 0 <= i < |keys| && keys[i] == k;
    }
    if found < |keys| {
      assert keys[found] in keys;
    }
  }

  /**
   A schedule's value is what it means: a dynamic expression is evaluated at the frame itself, a static
   one holds its value before the first and after the last key, and between keys the value moves
   linearly to the later key's own value.
   */
  lemma AtMeans(s: Numeric, frame: int, key: int, next: Option<int>, lib: Library)
    requires s.Valid(lib) && 0 <= frame < s.maxFrames && Neighbours(s.keyframes.Keys, frame, key, next)
    ensures next.Some? ==> next.value in s.keyframes && (key < frame ==> key < next.value)
    ensures At(s, frame, lib) == Meant(s, frame, key, if key < frame then next else None, lib)
  {
    hide Evaluate, Dynamic, BisectRight;
    var position, found := BisectFinds(s.keys, s.keyframes.Keys, frame);
    NeighboursAreUnique(s.keyframes.Keys, frame, key, s.keys[position], next, found);
    hide Neighbours, Governs, Follows;
    if !Dynamic(s.keyframes[key]) {
      StaticIsConstant(s.keyframes[key], s.Environment(frame), s.Environment(key), lib);
    }
  }

  /** Every frame has neighbours. */
  lemma NeighboursExist(s: Numeric, frame: int, lib: Library) returns (key: int, next: Option<int>)
    requires s.Valid(lib)
    ensures Neighbours(s.keyframes.Keys, frame, key, next)
  {
    hide Evaluate, Dynamic, BisectRight, Neighbours;
    var position, found := BisectFinds(s.keys, s.keyframes.Keys, frame);
    key, next := s.keys[position], found;
  }

  /** Exact at every key. */
  lemma ExactAtKeys(s: Numeric, key: int, lib: Library)
    requires s.Valid(lib) && key in s.keyframes
    ensures At(s, key, lib) == s.Value(key, key, lib) && At(s, key, lib).Some?
  {
    hide At, Evaluate;
    var same, next := NeighboursExist(s, key, lib);
    AtMeans(s, key, key, next, lib);
  }

  lemma FractionWithin(a: real, b: real)
    requires 0.0 <= a <= b && b > 0.0
    ensures 0.0 <= a / b <= 1.0
  {
  }

  lemma ProductWithin(x: real, f: real)
    requires 0.0 <= f <= 1.0
    ensures x >= 0.0 ==> 0.0 <= x * f <= x
    ensures x <= 0.0 ==> x <= x * f <= 0.0
  {
  }

  lemma PortionIsProduct(x: real, a: real, b: real)
    requires b != 0.0
    ensures Portion(x, a, b) == x * (a / b)
  {
    var f := a / b;
    assert f * b == a;
    assert x * a == x * f * b;
    assert x * f * b / b == x * f;
  }

  /** A portion of a difference lies between nothing and all of it. */
  lemma PortionWithin(x: real, a: real, b: real)
    requires 0.0 <= a <= b && b > 0.0
    ensures x >= 0.0 ==> 0.0 <= Portion(x, a, b) <= x
    ensures x <= 0.0 ==> x <= Portion(x, a, b) <= 0.0
  {
    hide Portion;
    FractionWithin(a, b);
    PortionIsProduct(x, a, b);
    ProductWithin(x, a / b);
  }

  /** An interpolated value lies between the values it joins. */
  lemma BetweenIsBetween(left: int, right: int, frame: int, from: real, to: real)
    requires left <= frame <= right && left < right
    ensures from <= to ==> from <= Between(left, right, frame, from, to) <= to
    ensures from >= to ==> to <= Between(left, right, frame, from, to) <= from
  {
    hide Portion;
    PortionWithin(to - from, (frame - left) as real, (right - left) as real);
  }

  /** The line through both keys. */
  lemma BetweenIsLine(left: int, right: int, frame: int, from: real, to: real)
    requires left < right
    ensures Between(left, right, frame, from, to) * (right - left) as real
         == from * (right - frame) as real + to * (frame - left) as real
  {
    var a, b, x := (frame - left) as real, (right - left) as real, to - from;
    hide Portion;
    PortionTimes(x, a, b);
    Distribute(from, Portion(x, a, b), b);
    assert from * b + x * a == from * (b - a) + to * a;
    assert (right - frame) as real == b - a;
  }

  lemma PortionTimes(x: real, a: real, b: real)
    requires b != 0.0
    ensures Portion(x, a, b) * b == x * a
  {
  }

  lemma Distribute(a: real, b: real, c: real)
    ensures (a + b) * c == a * c + b * c
  {
  }

  /** Two keys with none between them. */
  ghost predicate Consecutive(keys: set<int>, left: int, right: int) {
    left in keys && right in keys && left < right && forall k <- keys :: k <= left || right <= k
  }

  lemma AtInside(s: Numeric, left: int, right: int, frame: int, lib: Library)
    requires s.Valid(lib) && Consecutive(s.keyframes.Keys, left, right) && !Dynamic(s.keyframes[left])
    requires left < frame < right && 0 <= frame < s.maxFrames
    ensures At(s, left, lib).Some? && At(s, right, lib).Some?
    ensures At(s, frame, lib) == Some(Between(left, right, frame, At(s, left, lib).value, At(s, right, lib).value))
  {
    ExactAtKeys(s, left, lib);
    ExactAtKeys(s, right, lib);
    AtMeans(s, frame, left, Some(right), lib);
    StaticIsConstant(s.keyframes[left], s.Environment(frame), s.Environment(left), lib);
    hide At, Evaluate, Dynamic, Between;
  }

  /** From a key whose expression does not use t the values lie on the line to the next key's value. */
  lemma AtIsLinear(s: Numeric, left: int, right: int, frame: int, lib: Library)
    requires s.Valid(lib) && Consecutive(s.keyframes.Keys, left, right) && !Dynamic(s.keyframes[left])
    requires left < frame < right && 0 <= frame < s.maxFrames
    ensures At(s, frame, lib).Some? && At(s, left, lib).Some? && At(s, right, lib).Some?
    ensures At(s, frame, lib).value * (right - left) as real
         == At(s, left, lib).value * (right - frame) as real + At(s, right, lib).value * (frame - left) as real
  {
    hide *;
    AtInside(s, left, right, frame, lib);
    BetweenIsLine(left, right, frame, At(s, left, lib).value, At(s, right, lib).value);
  }

  /** After the last key a value that does not use t is held, and so it is before the first one. */
  lemma AtIsHeld(s: Numeric, key: int, frame: int, lib: Library)
    requires s.Valid(lib) && key in s.keyframes && !Dynamic(s.keyframes[key]) && 0 <= frame < s.maxFrames
    requires (key <= frame && forall k <- s.keyframes :: k <= key) || (frame <= key && forall k <- s.keyframes :: key <= k)
    ensures At(s, frame, lib) == At(s, key, lib)
  {
    var same, next := NeighboursExist(s, frame, lib);
    GovernorIsUnique(s.keyframes.Keys, key, same, frame);
    AtMeans(s, frame, key, next, lib);
    ExactAtKeys(s, key, lib);
    StaticIsConstant(s.keyframes[key], s.Environment(frame), s.Environment(key), lib);
    hide At, Evaluate, Dynamic;
  }

  /** An expression that uses t is evaluated at every frame that its key governs. */
  lemma AtIsEvaluated(s: Numeric, key: int, frame: int, lib: Library)
    requires s.Valid(lib) && Governs(s.keyframes.Keys, key, frame) && Dynamic(s.keyframes[key]) && 0 <= frame < s.maxFrames
    ensures At(s, frame, lib) == Evaluate(s.keyframes[key], s.Environment(frame), lib)
  {
    var same, next := NeighboursExist(s, frame, lib);
    GovernorIsUnique(s.keyframes.Keys, key, same, frame);
    AtMeans(s, frame, key, next, lib);
    hide At, Evaluate, Dynamic;
  }

  /** Every value of a schedule is bounded as every evaluated node is. */
  lemma AtIsBounded(s: Numeric, frame: int, lib: Library)
    requires s.Valid(lib) && At(s, frame, lib).Some?
    ensures -1000000000000.0 <= At(s, frame, lib).value <= 1000000000000.0
  {
    var key, next := NeighboursExist(s, frame, lib);
    AtMeans(s, frame, key, next, lib);
    hide At, Dynamic, Between;
    if key < frame && next.Some? {
      var value, target := s.Value(key, frame, lib), s.Value(next.value, next.value, lib);
      if value.Some? && target.Some? {
        BetweenIsBetween(key, next.value, frame, value.value, target.value);
      }
    }
  }

  /** A lookup fails only outside the animation, or where the governing expression uses t and fails there. */
  lemma AtFailsExactly(s: Numeric, frame: int, key: int, lib: Library)
    requires s.Valid(lib) && Governs(s.keyframes.Keys, key, frame)
    ensures At(s, frame, lib).None?
       <==> !(0 <= frame < s.maxFrames) || (Dynamic(s.keyframes[key]) && s.Value(key, frame, lib).None?)
  {
    if 0 <= frame < s.maxFrames {
      var same, next := NeighboursExist(s, frame, lib);
      GovernorIsUnique(s.keyframes.Keys, key, same, frame);
      AtMeans(s, frame, key, next, lib);
      hide At, Evaluate;
      if !Dynamic(s.keyframes[key]) {
        StaticIsConstant(s.keyframes[key], s.Environment(frame), s.Environment(key), lib);
      }
    }
  }

  // ---- Reading a schedule ----

  function Prepared(text: string): string {
    if ':' in text then text else "0:(" + text + ")"
  }

  predicate Parenthesised(text: string) {
    text != "" && text[0] == '(' && text[|text| - 1] == ')'
  }

  function Start(maxFrames: int, fps: real): Environment { Environment(0, maxFrames - 1, fps) }

  /** The frame an entry names: the value of a static expression, whole and within the animation. */
  function ReadFrame(text: string, maxFrames: int, fps: real, lib: Library): (frame: Option<int>)
    ensures frame.Some? ==> 0 <= frame.value < maxFrames
  {
    var tree := Compile(text, lib);
    if tree.None? || Dynamic(tree.value) then None
    else
      var value := Evaluate(tree.value, Start(maxFrames, fps), lib);
      if value.None? || value.value.Floor as real != value.value then None
      else if !(0 <= value.value.Floor < maxFrames) then None
      else Some(value.value.Floor)
  }

  /** One entry: a frame, a colon and a parenthesised expression that has a value at that frame. */
  function ReadKeyframe(entry: string, maxFrames: int, fps: real, lib: Library): (keyframe: Option<(int, Node)>)
    ensures keyframe.Some? ==>
      0 <= keyframe.value.0 < maxFrames
      && Evaluate(keyframe.value.1, Environment(keyframe.value.0, maxFrames - 1, fps), lib).Some?
  {
    var k := IndexOf(entry, ':');
    if k == |entry| || !Parenthesised(Strip(entry[k + 1..])) then None
    else
      var frame, value := ReadFrame(entry[..k], maxFrames, fps, lib), Strip(entry[k + 1..]);
      var tree := Compile(value[1..|value| - 1], lib);
      if frame.None? || tree.None? then None
      else if Evaluate(tree.value, Environment(frame.value, maxFrames - 1, fps), lib).None? then None
      else Some((frame.value, tree.value))
  }

  /** A text names a frame when it is a static expression whose value is that frame. */
  lemma FrameExactly(text: string, maxFrames: int, fps: real, lib: Library, frame: int)
    ensures ReadFrame(text, maxFrames, fps, lib) == Some(frame) <==>
      && 0 <= frame < maxFrames
      && exists tree :: Compile(text, lib) == Some(tree) && !Dynamic(tree) && Evaluate(tree, Start(maxFrames, fps), lib) == Some(frame as real)
  {
    hide Compile, Dynamic, Evaluate;
  }

  /** The entry is a text without colon, a colon, and a body in parentheses. */
  predicate Parts(entry: string, before: string, after: string, body: string) {
    entry == before + ":" + after && ':' !in before && Strip(after) == "(" + body + ")"
  }

  /** An entry is a frame, the first colon, and an expression in parentheses with a value at that frame. */
  lemma KeyframeExactly(entry: string, maxFrames: int, fps: real, lib: Library, frame: int, tree: Node)
    ensures ReadKeyframe(entry, maxFrames, fps, lib) == Some((frame, tree)) <==>
      exists before: string, after: string, body: string ::
        && Parts(entry, before, after, body)
        && ReadFrame(before, maxFrames, fps, lib) == Some(frame) && Compile(body, lib) == Some(tree)
        && Evaluate(tree, Environment(frame, maxFrames - 1, fps), lib).Some?
  {
    hide ReadFrame, Compile, Evaluate, Strip;
    var k := IndexOf(entry, ':');
    if ReadKeyframe(entry, maxFrames, fps, lib) == Some((frame, tree)) {
      var value := Strip(entry[k + 1..]);
      assert entry == entry[..k] + ":" + entry[k + 1..];
      assert value == "(" + value[1..|value| - 1] + ")";
      assert Parts(entry, entry[..k], entry[k + 1..], value[1..|value| - 1]);
    }
    forall before: string, after: string, body: string | Parts(entry, before, after, body)
      ensures ReadKeyframe(entry, maxFrames, fps, lib) == ReadParts(before, body, maxFrames, fps, lib)
    {
      PartsAreRead(entry, before, after, body, maxFrames, fps, lib);
    }
  }

  function ReadParts(before: string, body: string, maxFrames: int, fps: real, lib: Library): Option<(int, Node)> {
    var frame, tree := ReadFrame(before, maxFrames, fps, lib), Compile(body, lib);
    if frame.None? || tree.None? || Evaluate(tree.value, Environment(frame.value, maxFrames - 1, fps), lib).None? then None
    else Some((frame.value, tree.value))
  }

  lemma PartsAreRead(entry: string, before: string, after: string, body: string, maxFrames: int, fps: real, lib: Library)
    requires Parts(entry, before, after, body)
    ensures ReadKeyframe(entry, maxFrames, fps, lib) == ReadParts(before, body, maxFrames, fps, lib)
  {
    hide ReadFrame, Compile, Evaluate, Strip;
    FirstColon(entry, before, after);
    var value := Strip(after);
    assert Parenthesised(value) && value[1..|value| - 1] == body;
  }

  lemma FirstColon(entry: string, before: string, after: string)
    requires entry == before + ":" + after && ':' !in before
    ensures IndexOf(entry, ':') == |before| && entry[..|before|] == before && entry[|before| + 1..] == after
  {
    FirstIndex(entry, ':', |before|);
    var k := IndexOf(entry, ':');
    assert k == |before|;
  }

  predicate AllRead(entries: seq<string>, maxFrames: int, fps: real, lib: Library) {
    forall entry <- entries :: ReadKeyframe(entry, maxFrames, fps, lib).Some?
  }

  function Frames(entries: seq<string>, maxFrames: int, fps: real, lib: Library): (frames: seq<int>)
    requires AllRead(entries, maxFrames, fps, lib)
    ensures |frames| == |entries|
    ensures forall i :: 0 <= i < |entries| ==> frames[i] == ReadKeyframe(entries[i], maxFrames, fps, lib).value.0
  {
    if entries == [] then []
    else
      Frames(entries[..|entries| - 1], maxFrames, fps, lib)
      + [ReadKeyframe(entries[|entries| - 1], maxFrames, fps, lib).value.0]
  }

  /** The text is a schedule: its pieces are keyframes of different frames. */
  ghost predicate IsSchedule(pieces: seq<string>, maxFrames: int, fps: real, lib: Library) {
    && NoneBlank(pieces) && AllRead(Stripped(pieces), maxFrames, fps, lib)
    && Distinct(Frames(Stripped(pieces), maxFrames, fps, lib))
  }

  /** The schedule holds exactly the keyframes of the entries. */
  ghost predicate Holds(keyframes: map<int, Node>, entries: seq<string>, maxFrames: int, fps: real, lib: Library) {
    && AllRead(entries, maxFrames, fps, lib)
    && (forall k :: k in keyframes <==> k in Frames(entries, maxFrames, fps, lib))
    && forall entry <- entries :: ReadKeyframe(entry, maxFrames, fps, lib).value in keyframes.Items
  }

  lemma FramesGrow(entries: seq<string>, entry: string, maxFrames: int, fps: real, lib: Library)
    requires AllRead(entries, maxFrames, fps, lib) && ReadKeyframe(entry, maxFrames, fps, lib).Some?
    ensures AllRead(entries + [entry], maxFrames, fps, lib)
    ensures Frames(entries + [entry], maxFrames, fps, lib)
         == Frames(entries, maxFrames, fps, lib) + [ReadKeyframe(entry, maxFrames, fps, lib).value.0]
  {
    hide ReadKeyframe;
    assert (entries + [entry])[..|entries|] == entries;
  }

  lemma OneMoreDistinct(frames: seq<int>, frame: int)
    requires Distinct(frames)
    ensures Distinct(frames + [frame]) <==> frame !in frames
  {
    var more := frames + [frame];
    if frame in frames {
      var i :| 0 <= i < |frames| && frames[i] == frame;
      assert more[i] == more[|frames|];
    }
  }

  /** One more entry is one more keyframe, or a frame that was there. */
  lemma HoldsMore(keyframes: map<int, Node>, entries: seq<string>, entry: string, maxFrames: int, fps: real, lib: Library)
    requires Holds(keyframes, entries, maxFrames, fps, lib) && Distinct(Frames(entries, maxFrames, fps, lib))
    requires ReadKeyframe(entry, maxFrames, fps, lib).Some?
    ensures AllRead(entries + [entry], maxFrames, fps, lib)
    ensures Frames(entries + [entry], maxFrames, fps, lib)
         == Frames(entries, maxFrames, fps, lib) + [ReadKeyframe(entry, maxFrames, fps, lib).value.0]
    ensures var (frame, tree) := ReadKeyframe(entry, maxFrames, fps, lib).value;
      if frame in keyframes then !Distinct(Frames(entries + [entry], maxFrames, fps, lib))
      else Holds(keyframes[frame := tree], entries + [entry], maxFrames, fps, lib)
           && Distinct(Frames(entries + [entry], maxFrames, fps, lib))
  {
    hide ReadKeyframe, Frames, Distinct;
    var (frame, tree) := ReadKeyframe(entry, maxFrames, fps, lib).value;
    FramesGrow(entries, entry, maxFrames, fps, lib);
    var before := Frames(entries, maxFrames, fps, lib);
    OneMoreDistinct(before, frame);
    if frame !in keyframes {
      var more := keyframes[frame := tree];
      assert frame in more && more[frame] == tree;
      forall e | e in entries + [entry] ensures ReadKeyframe(e, maxFrames, fps, lib).value in more.Items {
        if e in entries {
          assert ReadKeyframe(e, maxFrames, fps, lib).value in keyframes.Items;
        }
      }
    }
  }

  lemma FewerDistinct(entries: seq<string>, i: nat, maxFrames: int, fps: real, lib: Library)
    requires i <= |entries| && AllRead(entries, maxFrames, fps, lib)
    requires AllRead(entries[..i], maxFrames, fps, lib) && !Distinct(Frames(entries[..i], maxFrames, fps, lib))
    ensures !Distinct(Frames(entries, maxFrames, fps, lib))
  {
    hide ReadKeyframe;
    var frames, fewer := Frames(entries, maxFrames, fps, lib), Frames(entries[..i], maxFrames, fps, lib);
    var a, b :| 0 <= a < b < |fewer| && fewer[a] == fewer[b];
    assert frames[a] == fewer[a] && frames[b] == fewer[b];
  }

  lemma EvaluatedKeyframes(s: Numeric, entries: seq<string>, lib: Library)
    requires Holds(s.keyframes, entries, s.maxFrames, s.fps, lib)
    ensures forall k <- s.keyframes :: 0 <= k < s.maxFrames && s.Value(k, k, lib).Some?
  {
    hide Evaluate;
    forall k | k in s.keyframes ensures 0 <= k < s.maxFrames && s.Value(k, k, lib).Some? {
      var i :| 0 <= i < |entries| && Frames(entries, s.maxFrames, s.fps, lib)[i] == k;
      assert entries[i] in entries;
    }
  }

  /** The keyframes of the entries, and their frames in order. */
  method ReadKeyframes(entries: seq<string>, maxFrames: int, fps: real, lib: Library)
      returns (result: Option<(map<int, Node>, seq<int>)>)
    ensures result.Some? <==> AllRead(entries, maxFrames, fps, lib) && Distinct(Frames(entries, maxFrames, fps, lib))
    ensures result.Some? ==> Holds(result.value.0, entries, maxFrames, fps, lib)
    ensures result.Some? ==> result.value.1 == Frames(entries, maxFrames, fps, lib)
  {
    hide ReadKeyframe, Distinct, Holds, Frames;
    var keyframes: map<int, Node>, frames: seq<int> := map[], [];
    HoldsNone(maxFrames, fps, lib);
    for i := 0 to |entries|
      invariant Holds(keyframes, entries[..i], maxFrames, fps, lib)
      invariant AllRead(entries[..i], maxFrames, fps, lib)
      invariant frames == Frames(entries[..i], maxFrames, fps, lib) && Distinct(frames)
    {
      var keyframe := ReadKeyframe(entries[i], maxFrames, fps, lib);
      assert entries[..i + 1] == entries[..i] + [entries[i]];
      if keyframe.None? {
        assert entries[i] in entries;
        return None;
      }
      HoldsMore(keyframes, entries[..i], entries[i], maxFrames, fps, lib);
      if keyframe.value.0 in keyframes {
        if AllRead(entries, maxFrames, fps, lib) {
          FewerDistinct(entries, i + 1, maxFrames, fps, lib);
        }
        return None;
      }
      keyframes := keyframes[keyframe.value.0 := keyframe.value.1];
      frames := frames + [keyframe.value.0];
    }
    assert entries[..|entries|] == entries;
    return Some((keyframes, frames));
  }

  /** A text is accepted when and only when its pieces are keyframes of different frames. */
  method ReadNumeric(source: string, maxFrames: int, fps: real, lib: Library) returns (result: Option<Numeric>)
    ensures forall pieces :: Decomposes(Prepared(source), pieces) ==>
      (result.Some? <==> !IsBlank(source) && |source| <= 65536 && IsSchedule(pieces, maxFrames, fps, lib))
    ensures result.Some? ==> exists pieces :: Decomposes(Prepared(source), pieces)
                                           && Holds(result.value.keyframes, Stripped(pieces), maxFrames, fps, lib)
    ensures result.Some? ==> result.value.Valid(lib) && result.value.maxFrames == maxFrames && result.value.fps == fps
  {
    if IsBlank(source) || |source| > 65536 {
      return None;
    }
    hide Decomposes, NoneBlank, AllRead, ReadKeyframe, Distinct, Holds, Prepared, Frames, Stripped, SortedKeys, IsBlank, Numeric.Valid;
    var entries := Entries(Prepared(source));
    if entries.None? {
      return None;
    }
    ghost var pieces :| Decomposes(Prepared(source), pieces);
    OnlyPieces(Prepared(source), pieces);
    var read := ReadKeyframes(entries.value, maxFrames, fps, lib);
    if read.None? {
      return None;
    }
    result := Some(Numeric(maxFrames, fps, read.value.0, SortedKeys(read.value.1)));
    FinishedSchedule(result.value, read.value.1, entries.value, pieces, lib);
  }

  /** A text with keys is read as it is; one without keys is a single expression for frame 0. */
  lemma PlainTextIsOneKey(source: string, pieces: seq<string>, maxFrames: int, fps: real, lib: Library)
    requires Decomposes(Prepared(source), pieces)
    ensures ':' in source ==> Prepared(source) == source
    ensures ':' !in source && IsSchedule(pieces, maxFrames, fps, lib) ==>
      |pieces| == 1 && |Stripped(pieces)| == 1
      && ReadKeyframe(Stripped(pieces)[0], maxFrames, fps, lib) == ReadParts("0", source, maxFrames, fps, lib)
  {
    hide ReadKeyframe, Frames, Piece, Strip, ReadParts;
    if ':' !in source && IsSchedule(pieces, maxFrames, fps, lib) {
      var init, last := pieces[..|pieces| - 1], pieces[|pieces| - 1];
      assert Stripped(pieces) == Stripped(init) + [Strip(last)];
      assert Strip(last) in Stripped(pieces);
      if |pieces| > 1 {
        LastHasNoColon(source, Join(init), last);
        NoColonNoKeyframe(Strip(last), maxFrames, fps, lib);
        assert false;
      }
      assert init == [] && Stripped(init) == [] && last == Prepared(source);
      PlainIsRead(source, maxFrames, fps, lib);
    }
  }

  lemma LastHasNoColon(source: string, front: string, last: string)
    requires ':' !in source && "0:(" + source + ")" == front + "," + last
    ensures ':' !in Strip(last)
  {
    hide Strip;
    var text := "0:(" + source + ")";
    var before, after := StripExactly(last);
    forall j | 0 <= j < |last| ensures last[j] != ':' {
      assert last[j] == text[|front| + 1 + j];
      assert front == "" ==> text[0] == ',';
    }
    assert forall c <- Strip(last) :: c in last;
  }

  lemma NoColonNoKeyframe(entry: string, maxFrames: int, fps: real, lib: Library)
    requires ':' !in entry
    ensures ReadKeyframe(entry, maxFrames, fps, lib).None?
  {
    hide Compile, Evaluate, ReadFrame, Strip;
  }

  lemma PlainIsRead(source: string, maxFrames: int, fps: real, lib: Library)
    requires ':' !in source
    ensures ReadKeyframe(Strip("0:(" + source + ")"), maxFrames, fps, lib) == ReadParts("0", source, maxFrames, fps, lib)
  {
    hide ReadKeyframe, ReadParts;
    var text, value := "0:(" + source + ")", "(" + source + ")";
    assert text == "0" + ":" + value;
    assert text[|text| - 1] == ')' && value[|value| - 1] == ')';
    assert Strip(text) == text && Strip(value) == value;
    PartsAreRead(text, "0", value, source, maxFrames, fps, lib);
  }

  lemma OnlyPieces(text: string, pieces: seq<string>)
    requires Decomposes(text, pieces)
    ensures forall other :: Decomposes(text, other) ==> other == pieces
  {
    forall other | Decomposes(text, other) ensures other == pieces {
      DecompositionIsUnique(text, other, pieces);
    }
  }

  lemma HoldsNone(maxFrames: int, fps: real, lib: Library)
    ensures AllRead([], maxFrames, fps, lib) && Holds(map[], [], maxFrames, fps, lib)
    ensures Frames([], maxFrames, fps, lib) == [] && Distinct<int>([])
  {
  }

  lemma FinishedSchedule(s: Numeric, frames: seq<int>, entries: seq<string>, pieces: seq<string>, lib: Library)
    requires Holds(s.keyframes, entries, s.maxFrames, s.fps, lib) && entries == Stripped(pieces)
    requires frames == Frames(entries, s.maxFrames, s.fps, lib) && Distinct(frames)
    requires s.keys == SortedKeys(frames) && Decomposes(Join(pieces), pieces)
    ensures s.Valid(lib)
  {
    hide ReadKeyframe, Evaluate, Decomposes, Join, SortedKeys, Frames;
    PiecesRemain(pieces);
    SortedKeysAscend(frames);
    EvaluatedKeyframes(s, entries, lib);
    hide Distinct, AllRead, Ascending, Numeric.Value;
    SameKeys(s, frames, entries);
  }

  lemma SameKeys(s: Numeric, frames: seq<int>, entries: seq<string>)
    requires |frames| == |entries| > 0 && |s.keys| == |frames|
    requires (forall k :: k in s.keyframes <==> k in frames) && forall k :: k in s.keys <==> k in frames
    ensures s.keys != [] && forall k :: k in s.keys <==> k in s.keyframes
  {
  }

  lemma PiecesRemain(pieces: seq<string>)
    requires Decomposes(Join(pieces), pieces)
    ensures Stripped(pieces) != []
  {
    hide Join, Piece;
  }
}

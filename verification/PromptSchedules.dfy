/** Prompts by frame number (reference/diffusers/deforum_schedules.py, PromptSchedule). */
module PromptSchedules {
  import opened Json
  import opened KeyframeSchedules
  import opened Options
  import opened Sorting
  import opened Texts

  predicate IsDigit(c: char) { '0' <= c <= '9' }

  /** "0", or digits that do not begin with zero. */
  predicate Canonical(text: string) {
    text == "0" || (text != "" && text[0] != '0' && forall c <- text :: IsDigit(c))
  }

  function Number(text: string): nat
    requires forall c <- text :: IsDigit(c)
  {
    if text == "" then 0
    else
      assert IsDigit(text[|text| - 1]);
      Number(text[..|text| - 1]) * 10 + Value(text[|text| - 1])
  }

  function Value(c: char): (d: nat)
    requires IsDigit(c)
    ensures d < 10 && Digit(d) == c
  {
    c as int - '0' as int
  }

  lemma DecimalAppends(n: nat, d: nat)
    requires n > 0 && d < 10
    ensures Decimal(n * 10 + d) == Decimal(n) + [Digit(d)]
  {
    hide Digit;
    assert (n * 10 + d) / 10 == n && (n * 10 + d) % 10 == d;
  }

  /** A canonical text is the decimal form of its number. */
  lemma {:induction false} CanonicalIsDecimal(text: string)
    requires Canonical(text)
    ensures Decimal(Number(text)) == text
    ensures text[0] != '0' ==> Number(text) > 0
  {
    if |text| == 1 {
      OneDigit(text);
    } else {
      hide Digit, Decimal, Number, Value;
      var init, last := text[..|text| - 1], text[|text| - 1];
      assert text == init + [last] && IsDigit(last);
      CanonicalIsDecimal(init);
      NumberSplits(text);
      DecimalAppends(Number(init), Value(last));
    }
  }

  /** And every decimal form is canonical: the accepted keys are exactly the numbers. */
  lemma {:induction false} DecimalIsCanonical(n: nat)
    ensures Decimal(n) != "" && (forall c <- Decimal(n) :: IsDigit(c)) && Canonical(Decimal(n)) && Number(Decimal(n)) == n
    ensures n > 0 ==> Decimal(n)[0] != '0'
  {
    DigitsAreDigits(n % 10);
    if n < 10 {
      assert [Digit(n)][..0] == "" && Number("") == 0;
    } else {
      DecimalIsCanonical(n / 10);
      var text := Decimal(n);
      assert text[..|text| - 1] == Decimal(n / 10);
    }
  }

  lemma DigitsAreDigits(d: nat)
    requires d < 10
    ensures IsDigit(Digit(d)) && Value(Digit(d)) == d && (d > 0 ==> Digit(d) != '0')
  {
  }

  lemma OneDigit(text: string)
    requires |text| == 1 && IsDigit(text[0])
    ensures Decimal(Number(text)) == text && (text[0] != '0' ==> Number(text) > 0)
  {
    hide Digit;
    assert Number(text[..0]) == 0;
    assert text == [text[0]];
  }

  lemma NumberSplits(text: string)
    requires |text| > 1 && forall c <- text :: IsDigit(c)
    ensures Number(text) == Number(text[..|text| - 1]) * 10 + Value(text[|text| - 1])
  {
    hide Value;
  }

  /** Different keys are different frames. */
  lemma NumbersDiffer(a: string, b: string)
    requires Canonical(a) && Canonical(b) && Number(a) == Number(b)
    ensures a == b
  {
    CanonicalIsDecimal(a);
    CanonicalIsDecimal(b);
  }

  type Item = (string, Json)

  predicate Usable(item: Item, maxFrames: int) {
    Canonical(item.0) && |item.0| <= 7 && Number(item.0) < maxFrames && item.1.Text?
  }

  /** Seven digits are enough for exactly the numbers below ten million. */
  lemma {:induction false} DecimalLength(n: nat, digits: nat, bound: nat)
    requires digits > 0 && bound == PowerOfTen(digits)
    ensures |Decimal(n)| <= digits <==> n < bound
  {
    if n >= 10 && digits > 1 {
      DecimalLength(n / 10, digits - 1, PowerOfTen(digits - 1));
    } else if digits == 1 {
      assert PowerOfTen(0) == 1;
      assert n >= 10 ==> |Decimal(n / 10)| > 0;
    } else {
      PowerAtLeastTen(digits);
    }
  }

  function PowerOfTen(digits: nat): nat { if digits == 0 then 1 else 10 * PowerOfTen(digits - 1) }

  lemma {:induction false} PowerAtLeastTen(digits: nat)
    ensures PowerOfTen(digits) >= 1 && (digits > 0 ==> PowerOfTen(digits) >= 10)
  {
    if digits > 0 {
      PowerAtLeastTen(digits - 1);
    }
  }

  /** A usable item is a text under the decimal form of a frame of the animation. */
  lemma UsableExactly(item: Item, maxFrames: int)
    ensures Usable(item, maxFrames) <==>
      item.1.Text? && exists n: nat :: n < maxFrames && n < 10000000 && item.0 == Decimal(n)
  {
    assert PowerOfTen(7) == 10000000;
    if Usable(item, maxFrames) {
      CanonicalIsDecimal(item.0);
      DecimalLength(Number(item.0), 7, 10000000);
    }
    if n: nat :| n < maxFrames && n < 10000000 && item.0 == Decimal(n) {
      DecimalIsCanonical(n);
      DecimalLength(n, 7, 10000000);
    }
  }

  predicate Accepts(items: seq<Item>, maxFrames: int) {
    (exists item <- items :: item.0 == "0") && forall item <- items :: Usable(item, maxFrames)
  }

  /** An object has each key once. */
  ghost predicate DistinctKeys(items: seq<Item>) {
    forall i, j :: 0 <= i < j < |items| ==> items[i].0 != items[j].0
  }

  datatype Prompts = Prompts(maxFrames: int, keyframes: map<int, string>, keys: seq<int>) {
    ghost predicate Valid() {
      && Ascending(keys) && (forall k :: k in keys <==> k in keyframes)
      && 0 in keyframes && forall k <- keyframes :: 0 <= k < maxFrames
    }
  }

  /** The frames of the first items, in order, with their prompts. */
  ghost predicate Reads(items: seq<Item>, frames: seq<int>, keyframes: map<int, string>) {
    && |frames| <= |items|
    && (forall j :: 0 <= j < |frames| ==> Canonical(items[j].0) && items[j].1.Text? && frames[j] == Number(items[j].0))
    && (forall k :: k in frames <==> k in keyframes)
    && forall j :: 0 <= j < |frames| ==> keyframes[frames[j]] == items[j].1.text
  }

  lemma ReadsMore(items: seq<Item>, frames: seq<int>, keyframes: map<int, string>)
    requires DistinctKeys(items) && Reads(items, frames, keyframes) && |frames| < |items|
    requires var item := items[|frames|]; Canonical(item.0) && item.1.Text?
    ensures var item := items[|frames|];
      Reads(items, frames + [Number(item.0)], keyframes[Number(item.0) := item.1.text])
  {
    hide Number;
    var item := items[|frames|];
    forall j | 0 <= j < |frames| ensures frames[j] != Number(item.0) {
      if frames[j] == Number(item.0) {
        NumbersDiffer(items[j].0, item.0);
      }
    }
  }

  /** The accepted items, by frame. */
  method ReadPrompts(items: seq<Item>, maxFrames: int) returns (result: Option<Prompts>)
    requires DistinctKeys(items)
    ensures result.Some? <==> Accepts(items, maxFrames)
    ensures result.Some? ==> result.value.Valid() && result.value.maxFrames == maxFrames
    ensures result.Some? ==> |result.value.keys| == |items|
    ensures result.Some? ==> forall item <- items ::
      Canonical(item.0) && item.1.Text? && Number(item.0) in result.value.keyframes
      && result.value.keyframes[Number(item.0)] == item.1.text
  {
    if !Accepts(items, maxFrames) {
      return None;
    }
    hide Number, Canonical, Reads, DistinctKeys, Prompts.Valid, SortedKeys;
    var keyframes: map<int, string>, frames: seq<int> := map[], [];
    ReadsNone(items);
    for i := 0 to |items|
      invariant |frames| == i && Reads(items, frames, keyframes)
    {
      assert items[i] in items && Usable(items[i], maxFrames);
      ReadsMore(items, frames, keyframes);
      var frame := Number(items[i].0);
      keyframes := keyframes[frame := items[i].1.text];
      frames := frames + [frame];
    }
    hide Accepts;
    result := Some(Prompts(maxFrames, keyframes, SortedKeys(frames)));
    FinishedPrompts(items, frames, result.value);
  }

  lemma ReadsNone(items: seq<Item>)
    ensures Reads(items, [], map[])
  {
  }

  lemma EachItemRead(items: seq<Item>, frames: seq<int>, keyframes: map<int, string>)
    requires Reads(items, frames, keyframes) && |frames| == |items|
    ensures forall item <- items ::
      Canonical(item.0) && item.1.Text? && Number(item.0) in keyframes && keyframes[Number(item.0)] == item.1.text
  {
    hide Number;
    forall item | item in items
      ensures Canonical(item.0) && item.1.Text? && Number(item.0) in keyframes && keyframes[Number(item.0)] == item.1.text
    {
      var j :| 0 <= j < |items| && items[j] == item;
      assert frames[j] in frames;
    }
  }

  lemma FinishedPrompts(items: seq<Item>, frames: seq<int>, p: Prompts)
    requires DistinctKeys(items) && Reads(items, frames, p.keyframes) && |frames| == |items|
    requires Accepts(items, p.maxFrames) && p.keys == SortedKeys(frames)
    ensures p.Valid() && |p.keys| == |items|
    ensures forall item <- items ::
      Canonical(item.0) && item.1.Text? && Number(item.0) in p.keyframes && p.keyframes[Number(item.0)] == item.1.text
  {
    hide Number;
    FramesDistinct(items, frames);
    SortedKeysAscend(frames);
    hide SortedKeys;
    ZeroIncluded(items, frames);
    EachItemRead(items, frames, p.keyframes);
    forall k | k in p.keyframes ensures 0 <= k < p.maxFrames {
      var j :| 0 <= j < |frames| && frames[j] == k;
      assert items[j] in items && Usable(items[j], p.maxFrames);
    }
  }

  lemma FramesDistinct(items: seq<Item>, frames: seq<int>)
    requires DistinctKeys(items) && |frames| == |items|
    requires forall j :: 0 <= j < |items| ==> Canonical(items[j].0) && frames[j] == Number(items[j].0)
    ensures Distinct(frames)
  {
    hide Number;
    forall i, j | 0 <= i < j < |frames| ensures frames[i] != frames[j] {
      if frames[i] == frames[j] {
        NumbersDiffer(items[i].0, items[j].0);
      }
    }
  }

  lemma ZeroIncluded(items: seq<Item>, frames: seq<int>)
    requires |frames| == |items| && exists item <- items :: item.0 == "0"
    requires forall j :: 0 <= j < |items| ==> Canonical(items[j].0) && frames[j] == Number(items[j].0)
    ensures 0 in frames
  {
    var item :| item in items && item.0 == "0";
    var j :| 0 <= j < |items| && items[j] == item;
    assert Number("0") == 0 by {
      assert "0"[..0] == "" && Number("") == 0;
    }
    assert frames[j] == 0;
  }

  function At(p: Prompts, frame: int): Option<string>
    requires p.Valid()
  {
    if !(0 <= frame < p.maxFrames) then None
    else
      var found := BisectRight(p.keys, frame, 0, |p.keys|);
      assert found > 0 by {
        var zero :| 0 <= zero < |p.keys| && p.keys[zero] == 0;
      }
      assert p.keys[found - 1] in p.keys;
      Some(p.keyframes[p.keys[found - 1]])
  }

  /** Every frame of the animation has the prompt of the last key not after it. */
  lemma PromptOfLastKey(p: Prompts, frame: int, key: int)
    requires p.Valid() && 0 <= frame < p.maxFrames
    requires key in p.keyframes && key <= frame && forall k <- p.keyframes :: k <= frame ==> k <= key
    ensures At(p, frame) == Some(p.keyframes[key])
  {
    var position, next := BisectFinds(p.keys, p.keyframes.Keys, frame);
    assert 0 in p.keyframes;
    GovernorIsUnique(p.keyframes.Keys, key, p.keys[position], frame);
  }
}

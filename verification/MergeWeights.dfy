/**
 Resolving the coefficients of a merge (reference/diffusers/model_merge_options.py,
 MergeRequest and resolve_merge_weights), in exact arithmetic.
 */
module MergeWeights {
  import opened Options

  datatype Mode = WeightedSum | WeightedDifference | Unified

  datatype Policy = Strict | CommonLayer | BaseLayout

  datatype Kind = Checkpoint | Lora

  datatype Request = Request(mode: Mode, policy: Policy, weights: Option<seq<real>>) {
    predicate AutomaticRepair() { policy != Strict && mode != Unified }
  }

  datatype Resolved = Resolved(weights: seq<real>, baseWeight: real, normalized: bool)

  datatype Refusal = AboveOne | StrengthAboveOne

  const SLACK := 0.000000000001

  function CheckpointCount(kinds: seq<Kind>): nat {
    if kinds == [] then 0 else CheckpointCount(kinds[..|kinds| - 1]) + if kinds[|kinds| - 1].Checkpoint? then 1 else 0
  }

  /** The sum of the checkpoints' weights; adapters take no share of the base. */
  function CheckpointSum(values: seq<real>, kinds: seq<Kind>): real
    requires |values| == |kinds|
  {
    if kinds == [] then 0.0
    else CheckpointSum(values[..|kinds| - 1], kinds[..|kinds| - 1]) + if kinds[|kinds| - 1].Checkpoint? then values[|kinds| - 1] else 0.0
  }

  function LargestCheckpoint(values: seq<real>, kinds: seq<Kind>): real
    requires |values| == |kinds|
  {
    if kinds == [] then 0.0
    else
      var rest := LargestCheckpoint(values[..|kinds| - 1], kinds[..|kinds| - 1]);
      if kinds[|kinds| - 1].Checkpoint? && values[|kinds| - 1] > rest then values[|kinds| - 1] else rest
  }

  /** Divides every checkpoint weight, and no adapter weight. */
  function Divided(values: seq<real>, kinds: seq<Kind>, divisor: real): (divided: seq<real>)
    requires |values| == |kinds| && divisor != 0.0
    ensures |divided| == |values|
  {
    seq(|values|, i requires 0 <= i < |values| => if kinds[i].Checkpoint? then values[i] / divisor else values[i])
  }

  function Defaults(request: Request, kinds: seq<Kind>): (values: seq<real>)
    ensures |values| == |kinds|
  {
    var share :=
      if request.mode == Unified then 0.35
      else if request.mode == WeightedSum then 1.0 / (CheckpointCount(kinds) as real + 1.0)
      else 0.5;
    seq(|kinds|, i requires 0 <= i < |kinds| => if kinds[i].Lora? then 1.0 else share)
  }

  /** Nonnegative weights, one per material, as the request parser leaves them. */
  ghost predicate WeightsFit(request: Request, kinds: seq<Kind>) {
    request.weights.Some? ==>
      |request.weights.value| == |kinds| && forall i :: 0 <= i < |kinds| ==> request.weights.value[i] >= 0.0
  }

  function Requested(request: Request, kinds: seq<Kind>): (values: seq<real>)
    requires WeightsFit(request, kinds)
    ensures |values| == |kinds|
  {
    if request.weights.Some? && request.weights.value != [] then request.weights.value else Defaults(request, kinds)
  }

  /** Weights in the given ratios that add up to one, through their quotients by the largest. */
  method Normalize(values: seq<real>, kinds: seq<Kind>) returns (normalized: seq<real>)
    requires |values| == |kinds| && (forall i :: 0 <= i < |values| ==> values[i] >= 0.0)
    requires CheckpointSum(values, kinds) > 0.0
    ensures |normalized| == |kinds| && CheckpointSum(normalized, kinds) == 1.0
    ensures forall i :: 0 <= i < |kinds| ==> normalized[i] >= 0.0 && (kinds[i].Lora? ==> normalized[i] == values[i])
    ensures forall i, j :: 0 <= i < |kinds| && 0 <= j < |kinds| && kinds[i].Checkpoint? && kinds[j].Checkpoint? ==>
      normalized[i] * values[j] == normalized[j] * values[i]
  {
    hide CheckpointSum, LargestCheckpoint, Divided;
    var largest := LargestCheckpoint(values, kinds);
    LargestIsPositive(values, kinds);
    var scaled := Divided(values, kinds, largest);
    var denominator := CheckpointSum(scaled, kinds);
    DividedSum(values, kinds, largest);
    QuotientPositive(CheckpointSum(values, kinds), largest);
    DividedSum(scaled, kinds, denominator);
    NormalizedRatios(values, kinds, largest, denominator);
    SelfQuotient(denominator);
    normalized := Divided(scaled, kinds, denominator);
  }

  method ResolveMergeWeights(request: Request, kinds: seq<Kind>) returns (result: Result<Resolved, Refusal>)
    requires WeightsFit(request, kinds)
    ensures result.Err? <==>
      var values := Requested(request, kinds);
      || (request.mode == Unified && exists i :: 0 <= i < |kinds| && kinds[i].Checkpoint? && values[i] > 1.0)
      || (request.mode == WeightedSum && request.policy == Strict && CheckpointSum(values, kinds) > 1.000000000001)
    ensures result.Ok? ==> ResolvedRight(request, kinds, Requested(request, kinds), result.value)
  {
    hide Requested, CheckpointSum, LargestCheckpoint;
    var values := Requested(request, kinds);
    RequestedNonnegative(request, kinds);
    if request.mode == Unified && exists i :: 0 <= i < |kinds| && kinds[i].Checkpoint? && values[i] > 1.0 {
      return Err(StrengthAboveOne);
    }
    if request.mode != WeightedSum {
      return Ok(Resolved(values, 1.0, false));
    }
    var total := CheckpointSum(values, kinds);
    var normalized := false;
    SumNonnegative(values, kinds);
    if total > 1.0 + SLACK {
      if !request.AutomaticRepair() {
        return Err(AboveOne);
      }
      values := Normalize(values, kinds);
      total := 1.0;
      normalized := true;
    }
    return Ok(Resolved(values, if 1.0 - total > 0.0 then 1.0 - total else 0.0, normalized));
  }

  /** Weights that no refusal met: who gets which share, and what they add up to. */
  ghost predicate ResolvedRight(request: Request, kinds: seq<Kind>, values: seq<real>, resolved: Resolved)
    requires |values| == |kinds|
  {
    && |resolved.weights| == |kinds|
    && (forall i :: 0 <= i < |kinds| ==> resolved.weights[i] >= 0.0 && (kinds[i].Lora? ==> resolved.weights[i] == values[i]))
    && (forall i, j :: 0 <= i < |kinds| && 0 <= j < |kinds| && kinds[i].Checkpoint? && kinds[j].Checkpoint? ==>
          resolved.weights[i] * values[j] == resolved.weights[j] * values[i])
    && (!resolved.normalized ==> resolved.weights == values)
    && if request.mode == WeightedSum then
         var requested := CheckpointSum(values, kinds);
         && resolved.baseWeight >= 0.0
         && 1.0 <= resolved.baseWeight + CheckpointSum(resolved.weights, kinds) <= 1.0 + SLACK
         && (resolved.baseWeight + CheckpointSum(resolved.weights, kinds) == 1.0 <==> !(1.0 < requested <= 1.0 + SLACK))
         && (resolved.normalized <==> requested > 1.0 + SLACK)
         && (resolved.normalized ==> request.policy != Strict)
       else
         resolved.baseWeight == 1.0 && !resolved.normalized
  }

  /** Without weights nothing is refused or normalized, and what is resolved is even. */
  lemma DefaultsResolve(request: Request, kinds: seq<Kind>, resolved: Resolved)
    requires request.weights.None? && ResolvedRight(request, kinds, Requested(request, kinds), resolved)
    ensures !resolved.normalized && EvenlyShared(request, kinds, resolved)
    ensures CheckpointSum(Requested(request, kinds), kinds) <= 1.0 || request.mode != WeightedSum
    ensures request.mode == Unified ==>
      forall i :: 0 <= i < |kinds| && kinds[i].Checkpoint? ==> Requested(request, kinds)[i] <= 1.0
  {
    DefaultsAreEven(request, kinds);
    hide Defaults, CheckpointSum, CheckpointCount;
  }

  /** Adapters apply in full; the base and every checkpoint have the same share of a sum, or their mode's strength. */
  ghost predicate EvenlyShared(request: Request, kinds: seq<Kind>, resolved: Resolved) {
    && |resolved.weights| == |kinds|
    && (forall i :: 0 <= i < |kinds| && kinds[i].Lora? ==> resolved.weights[i] == 1.0)
    && (forall i :: 0 <= i < |kinds| && kinds[i].Checkpoint? ==>
          resolved.weights[i] == match request.mode case WeightedSum => resolved.baseWeight case WeightedDifference => 0.5 case Unified => 0.35)
  }

  lemma {:induction false} EqualSum(values: seq<real>, kinds: seq<Kind>, share: real)
    requires |values| == |kinds| && forall i :: 0 <= i < |kinds| && kinds[i].Checkpoint? ==> values[i] == share
    ensures CheckpointSum(values, kinds) == CheckpointCount(kinds) as real * share
  {
    if kinds != [] {
      var n := |kinds| - 1;
      EqualSum(values[..n], kinds[..n], share);
      assert (CheckpointCount(kinds[..n]) as real + 1.0) * share == CheckpointCount(kinds[..n]) as real * share + share;
    }
  }

  /** The default shares of a sum leave the base exactly one of them. */
  lemma DefaultsAreEven(request: Request, kinds: seq<Kind>)
    ensures var values := Defaults(request, kinds);
      && (forall i :: 0 <= i < |kinds| ==> values[i] >= 0.0 && (kinds[i].Lora? ==> values[i] == 1.0))
      && (request.mode == WeightedSum ==>
            CheckpointSum(values, kinds) <= 1.0
            && forall i :: 0 <= i < |kinds| && kinds[i].Checkpoint? ==> values[i] == 1.0 - CheckpointSum(values, kinds))
      && (request.mode == WeightedDifference ==> forall i :: 0 <= i < |kinds| && kinds[i].Checkpoint? ==> values[i] == 0.5)
      && (request.mode == Unified ==> forall i :: 0 <= i < |kinds| && kinds[i].Checkpoint? ==> values[i] == 0.35)
  {
    hide CheckpointSum, CheckpointCount;
    if request.mode == WeightedSum {
      var share := 1.0 / (CheckpointCount(kinds) as real + 1.0);
      EqualSum(Defaults(request, kinds), kinds, share);
      EvenShare(CheckpointCount(kinds) as real, share);
    }
  }

  lemma EvenShare(n: real, share: real)
    requires n >= 0.0 && share == 1.0 / (n + 1.0)
    ensures 0.0 <= share && 0.0 <= n * share == 1.0 - share
  {
    var d := n + 1.0;
    assert share * d == 1.0;
    assert share * d == n * share + share;
  }

  lemma RequestedNonnegative(request: Request, kinds: seq<Kind>)
    requires WeightsFit(request, kinds)
    ensures forall i :: 0 <= i < |kinds| ==> Requested(request, kinds)[i] >= 0.0
  {
  }

  /** Given weights are the requested ones. */
  lemma RequestedExactly(request: Request, kinds: seq<Kind>)
    requires WeightsFit(request, kinds)
    ensures request.weights.Some? ==> Requested(request, kinds) == request.weights.value
    ensures request.weights.None? ==> Requested(request, kinds) == Defaults(request, kinds)
  {
    if request.weights == Some([]) {
      assert Requested(request, kinds) == [];
    }
  }

  lemma {:induction false} SumNonnegative(values: seq<real>, kinds: seq<Kind>)
    requires |values| == |kinds| && forall i :: 0 <= i < |values| ==> values[i] >= 0.0
    ensures CheckpointSum(values, kinds) >= 0.0
  {
    if kinds != [] {
      SumNonnegative(values[..|kinds| - 1], kinds[..|kinds| - 1]);
    }
  }

  lemma {:induction false} LargestIsPositive(values: seq<real>, kinds: seq<Kind>)
    requires |values| == |kinds| && (forall i :: 0 <= i < |values| ==> values[i] >= 0.0)
    requires CheckpointSum(values, kinds) > 0.0
    ensures LargestCheckpoint(values, kinds) > 0.0
  {
    if kinds != [] && CheckpointSum(values[..|kinds| - 1], kinds[..|kinds| - 1]) > 0.0 {
      LargestIsPositive(values[..|kinds| - 1], kinds[..|kinds| - 1]);
    } else if kinds != [] {
      SumNonnegative(values[..|kinds| - 1], kinds[..|kinds| - 1]);
      LargestNonnegative(values[..|kinds| - 1], kinds[..|kinds| - 1]);
    }
  }

  lemma {:induction false} LargestNonnegative(values: seq<real>, kinds: seq<Kind>)
    requires |values| == |kinds|
    ensures LargestCheckpoint(values, kinds) >= 0.0
  {
    if kinds != [] {
      LargestNonnegative(values[..|kinds| - 1], kinds[..|kinds| - 1]);
    }
  }

  lemma {:induction false} DividedSum(values: seq<real>, kinds: seq<Kind>, divisor: real)
    requires |values| == |kinds| && divisor > 0.0
    ensures CheckpointSum(Divided(values, kinds, divisor), kinds) == CheckpointSum(values, kinds) / divisor
  {
    if kinds != [] {
      var n := |kinds| - 1;
      DividedSum(values[..n], kinds[..n], divisor);
      assert Divided(values, kinds, divisor)[..n] == Divided(values[..n], kinds[..n], divisor);
    }
  }

  lemma SelfQuotient(a: real)
    requires a > 0.0
    ensures a / a == 1.0
  {
  }

  lemma QuotientPositive(a: real, b: real)
    requires a > 0.0 && b > 0.0
    ensures a / b > 0.0
  {
  }

  lemma NormalizedRatios(values: seq<real>, kinds: seq<Kind>, largest: real, denominator: real)
    requires |values| == |kinds| && largest > 0.0 && denominator > 0.0
    requires forall i :: 0 <= i < |values| ==> values[i] >= 0.0
    ensures var normalized := Divided(Divided(values, kinds, largest), kinds, denominator);
      && (forall i :: 0 <= i < |kinds| ==> normalized[i] >= 0.0 && (kinds[i].Lora? ==> normalized[i] == values[i]))
      && forall i, j :: 0 <= i < |kinds| && 0 <= j < |kinds| && kinds[i].Checkpoint? && kinds[j].Checkpoint? ==>
           normalized[i] * values[j] == normalized[j] * values[i]
  {
    forall i, j | 0 <= i < |kinds| && 0 <= j < |kinds|
      ensures values[i] / largest / denominator * values[j] == values[j] / largest / denominator * values[i]
      ensures values[i] / largest / denominator >= 0.0
    {
      ScaledProduct(values[i], values[j], largest, denominator);
      DividedNonnegative(values[i], largest);
      DividedNonnegative(values[i] / largest, denominator);
    }
  }

  lemma DividedNonnegative(a: real, b: real)
    requires a >= 0.0 && b > 0.0
    ensures a / b >= 0.0
  {
  }

  lemma ScaledProduct(a: real, b: real, c: real, d: real)
    requires c > 0.0 && d > 0.0
    ensures a / c / d * b == b / c / d * a
  {
    var x, y := a / c, b / c;
    assert x * c == a && y * c == b;
    var u, v := x / d, y / d;
    assert u * d == x && v * d == y;
    assert u * b == u * (v * d * c) == v * (u * d * c);
  }
}

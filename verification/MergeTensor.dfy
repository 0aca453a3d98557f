/**
 Accumulating one tensor of a merge (reference/diffusers/model_merge.py, _merge_tensor) in
 exact arithmetic: checkpoint materials, then adapter deltas, then requantization. What the source
 reads from disk is a parameter.
 */
module MergeTensor {
  import opened Numbers
  import opened Options
  import opened Quantization
  import opened RowMajor
  import opened TensorRepair
  import opened MergeWeights

  /** What reading one material's tensor gave. */
  datatype Reading = Missing | Unreadable | Values(values: seq<Number>)

  datatype Material = Material(weight: real, reading: Reading)

  datatype Failure = BaseNotFinite | MaterialUnreadable | MaterialNotFinite

  ghost predicate SameSize(base: seq<Number>, materials: seq<Material>) {
    forall material <- materials :: material.reading.Values? ==> |material.reading.values| == |base|
  }

  /** zero_nonfinite */
  function Sanitized(base: seq<Number>): (values: seq<real>)
    ensures |values| == |base|
  {
    seq(|base|, k requires 0 <= k < |base| => if base[k].Finite? then base[k].value else 0.0)
  }

  // ---- What an element of the result is made of ----

  /** The material has a value of its own at this coordinate. */
  predicate Contributes(material: Material, k: nat) {
    material.reading.Values? && k < |material.reading.values| && material.reading.values[k].Finite?
  }

  /** What the material adds before weighting; a sum gives a missing share back to the base. */
  function Contribution(mode: Mode, material: Material, base: real, k: nat): real {
    if Contributes(material, k) then material.reading.values[k].value
    else if mode == WeightedSum then base
    else 0.0
  }

  function Coefficient(mode: Mode, weight: real): real {
    if mode == WeightedSum then weight else -weight
  }

  /** One element after the first n materials. */
  function Combined(mode: Mode, baseWeight: real, base: real, materials: seq<Material>, k: nat): real {
    if materials == [] then baseWeight * base
    else
      var last := materials[|materials| - 1];
      Combined(mode, baseWeight, base, materials[..|materials| - 1], k)
      + Coefficient(mode, last.weight) * Contribution(mode, last, base, k)
  }

  /** What computing an adapter's delta gave: its weighted update of some rows, or an exception. */
  datatype AdapterDelta = AdapterDelta(weight: real, values: Option<seq<real>>, start: nat) {
    predicate Fits(size: nat) { values.Some? ==> start + |values.value| <= size }
  }

  /** A delta counts as applied unless it is skipped: by its weight, or by repair that left only zeros. */
  predicate Acts(common: bool, delta: AdapterDelta) {
    delta.values.Some? && delta.weight != 0.0 && !(common && forall x <- delta.values.value :: x == 0.0)
  }

  function AdapterAt(mode: Mode, delta: AdapterDelta, k: nat): real {
    if delta.values.Some? && delta.start <= k < delta.start + |delta.values.value| then
      Coefficient(mode, delta.weight) * delta.values.value[k - delta.start]
    else 0.0
  }

  /** What the adapters add to one element. */
  function AdapterSum(mode: Mode, adapters: seq<AdapterDelta>, k: nat): real {
    if adapters == [] then 0.0
    else AdapterSum(mode, adapters[..|adapters| - 1], k) + AdapterAt(mode, adapters[|adapters| - 1], k)
  }

  // ---- The accumulation ----

  /** A material counts as applied unless every value it has was invalid. */
  predicate Applies(material: Material) {
    && material.weight != 0.0 && material.reading.Values?
    && (AllFinite(material.reading.values) || |Invalid(material.reading.values, |material.reading.values|)| < |material.reading.values|)
  }

  /** What a material with a weight adds to one element. */
  function Addition(mode: Mode, material: Material, base: real, k: nat): real {
    if Contributes(material, k) then
      var value := material.reading.values[k].value;
      if mode == WeightedSum then material.weight * value else -(material.weight * value)
    else
      if mode == WeightedSum then material.weight * base else 0.0
  }

  method AddMaterial(result: array<real>, numeric: seq<real>, mode: Mode, common: bool, material: Material)
      returns (failure: Option<Failure>, applied: bool)
    requires result.Length == |numeric| && mode != Unified && material.weight != 0.0
    requires material.reading.Values? ==> |material.reading.values| == |numeric|
    modifies result
    ensures failure == (
      if material.reading.Unreadable? && !common then Some(MaterialUnreadable)
      else if material.reading.Values? && !AllFinite(material.reading.values) && !common then Some(MaterialNotFinite)
      else None)
    ensures failure.None? ==> applied == Applies(material)
    ensures failure.None? ==> forall k :: 0 <= k < |numeric| ==>
      result[k] == old(result[k]) + Coefficient(mode, material.weight) * Contribution(mode, material, numeric[k], k)
    // What has a value is added, or subtracted in a difference; what has none gives its share of a sum to the base.
    ensures failure.None? ==> forall k :: 0 <= k < |numeric| ==>
      result[k] == old(result[k]) + Addition(mode, material, numeric[k], k)
  {
    WeightedContribution(mode, material);
    hide Invalid, AllFinite, Applies, Contribution, Contributes, Addition;
    MissingGivesBase(mode, material);
    if material.reading.Unreadable? && !common {
      return Some(MaterialUnreadable), false;
    }
    if !material.reading.Values? {
      if mode == WeightedSum {
        forall k | 0 <= k < |numeric| {
          result[k] := result[k] + material.weight * numeric[k];
        }
      }
      return None, false;
    }
    if !AllFinite(material.reading.values) && !common {
      return Some(MaterialNotFinite), false;
    }
    var additional, valid := Clean(numeric, mode, material);
    var coefficient := Coefficient(mode, material.weight);
    forall k | 0 <= k < |numeric| {
      result[k] := result[k] + coefficient * additional[k];
    }
    return None, valid;
  }

  lemma WeightedContribution(mode: Mode, material: Material)
    requires mode != Unified
    ensures forall base: real, k: nat ::
      Coefficient(mode, material.weight) * Contribution(mode, material, base, k) == Addition(mode, material, base, k)
  {
  }

  lemma MissingGivesBase(mode: Mode, material: Material)
    ensures !material.reading.Values? ==> !Applies(material) && forall base: real, k: nat ::
      Contribution(mode, material, base, k) == if mode == WeightedSum then base else 0.0
  {
  }

  /** A material's values with the neutral value of its arithmetic where they are invalid. */
  method Clean(numeric: seq<real>, mode: Mode, material: Material) returns (cleaned: seq<real>, valid: bool)
    requires material.reading.Values? && |material.reading.values| == |numeric| && material.weight != 0.0
    ensures |cleaned| == |numeric| && valid == Applies(material)
    ensures forall k :: 0 <= k < |numeric| ==> cleaned[k] == Contribution(mode, material, numeric[k], k)
  {
    hide Invalid;
    var values := material.reading.values;
    valid := true;
    if !AllFinite(values) {
      var replacement := seq(|numeric|, k requires 0 <= k < |numeric| => Finite(if mode == WeightedSum then numeric[k] else 0.0));
      OneAxis(|values|);
      var repaired, details := Repair(Tensor([|values|], values), replacement);
      valid := details.nonfinite < |values|;
      values := repaired.data;
    }
    cleaned := Sanitized(values);
  }

  predicate Unusable(reading: Reading) {
    reading.Unreadable? || (reading.Values? && !AllFinite(reading.values))
  }

  /** Materials of weight zero are skipped without being read. */
  ghost predicate Refused(common: bool, base: seq<Number>, materials: seq<Material>) {
    !common && (!AllFinite(base) || exists m <- materials :: m.weight != 0.0 && Unusable(m.reading))
  }

  /** The loop over the checkpoints. */
  method AddMaterials(result: array<real>, numeric: seq<real>, baseWeight: real, mode: Mode, common: bool, materials: seq<Material>)
      returns (failure: Option<Failure>, applied: bool)
    requires result.Length == |numeric| && mode != Unified
    requires forall m <- materials :: m.reading.Values? ==> |m.reading.values| == |numeric|
    requires forall k :: 0 <= k < |numeric| ==> result[k] == baseWeight * numeric[k]
    modifies result
    ensures failure.Some? <==> !common && exists m <- materials :: m.weight != 0.0 && Unusable(m.reading)
    ensures failure.None? ==> (applied <==> exists material <- materials :: Applies(material))
    ensures failure.None? ==> forall k :: 0 <= k < |numeric| ==>
      result[k] == Combined(mode, baseWeight, numeric[k], materials, k)
    ensures failure.None? ==> forall k :: 0 <= k < |numeric| ==>
      result[k] == if mode == WeightedSum then BaseShare(baseWeight, materials, k) * numeric[k] + SharedValue(materials, k)
                   else baseWeight * numeric[k] - SharedValue(materials, k)
  {
    hide Invalid, Applies, Contribution, Coefficient, Combined, BaseShare, SharedValue;
    CombinedMeans(mode, baseWeight, materials);
    applied := false;
    assert forall k :: 0 <= k < |numeric| ==> Combined(mode, baseWeight, numeric[k], [], k) == baseWeight * numeric[k] by {
      NothingCombined(mode, baseWeight);
    }
    for j := 0 to |materials|
      invariant common || forall m <- materials[..j] :: m.weight != 0.0 ==> !Unusable(m.reading)
      invariant applied <==> exists material <- materials[..j] :: Applies(material)
      invariant forall k :: 0 <= k < |numeric| ==> result[k] == Combined(mode, baseWeight, numeric[k], materials[..j], k)
    {
      var material := materials[j];
      assert materials[..j + 1] == materials[..j] + [material] && material in materials;
      CombinedOneMore(mode, baseWeight, materials[..j], material);
      WeightlessAddsNothing(mode, material);
      if material.weight != 0.0 {
        var adds;
        failure, adds := AddMaterial(result, numeric, mode, common, material);
        if failure.Some? {
          return;
        }
        applied := applied || adds;
      }
    }
    assert materials[..|materials|] == materials;
    failure := None;
  }

  /** The loop over the adapters' deltas; each is read whether or not its weight is zero. */
  method AddAdapters(result: array<real>, mode: Mode, common: bool, adapters: seq<AdapterDelta>)
      returns (failure: Option<Failure>, applied: bool)
    requires mode != Unified && forall d <- adapters :: d.Fits(result.Length)
    modifies result
    ensures failure.Some? <==> !common && exists d <- adapters :: d.values.None?
    ensures failure.None? ==> (applied <==> exists d <- adapters :: Acts(common, d))
    ensures failure.None? ==> forall k :: 0 <= k < result.Length ==> result[k] == old(result[k]) + AdapterSum(mode, adapters, k)
    ensures failure.None? ==> forall k :: 0 <= k < result.Length ==>
      result[k] == if mode == WeightedDifference then old(result[k]) - Updates(adapters, k) else old(result[k]) + Updates(adapters, k)
  {
    hide Acts, AdapterAt, Updates;
    AdaptersMean(mode, adapters);
    applied := false;
    for j := 0 to |adapters|
      invariant common || forall d <- adapters[..j] :: d.values.Some?
      invariant applied <==> exists d <- adapters[..j] :: Acts(common, d)
      invariant forall k :: 0 <= k < result.Length ==> result[k] == old(result[k]) + AdapterSum(mode, adapters[..j], k)
    {
      var delta := adapters[j];
      assert adapters[..j + 1] == adapters[..j] + [delta] && adapters[..j + 1][..j] == adapters[..j] && delta in adapters;
      if delta.values.None? && !common {
        return Some(MaterialUnreadable), applied;
      }
      InactiveAddsNothing(mode, common, delta);
      if Acts(common, delta) {
        AddDelta(result, mode, delta);
        applied := true;
      }
    }
    assert adapters[..|adapters|] == adapters;
    failure := None;
  }

  /** target.add_ on the rows the delta covers. */
  method AddDelta(result: array<real>, mode: Mode, delta: AdapterDelta)
    requires delta.values.Some? && delta.Fits(result.Length)
    modifies result
    ensures forall k :: 0 <= k < result.Length ==> result[k] == old(result[k]) + AdapterAt(mode, delta, k)
  {
    var values, coefficient := delta.values.value, Coefficient(mode, delta.weight);
    hide Coefficient;
    forall k | delta.start <= k < delta.start + |values| {
      result[k] := result[k] + coefficient * values[k - delta.start];
    }
  }

  /** The arithmetic result at one element. */
  function Blend(mode: Mode, baseWeight: real, base: real, materials: seq<Material>, adapters: seq<AdapterDelta>, k: nat): real {
    if mode == WeightedSum then BaseShare(baseWeight, materials, k) * base + SharedValue(materials, k) + Updates(adapters, k)
    else baseWeight * base - SharedValue(materials, k) - Updates(adapters, k)
  }

  /** Something was added to the base. */
  ghost predicate AnyApplied(common: bool, materials: seq<Material>, adapters: seq<AdapterDelta>) {
    (exists m <- materials :: Applies(m)) || exists d <- adapters :: Acts(common, d)
  }

  /**
   The accumulation, and whether anything was applied. When nothing was, the result is the base with
   its invalid elements zeroed; a strict merge has refused such elements before.
   */
  method MergeTensor(
    base: seq<Number>, baseWeight: real, mode: Mode, common: bool, materials: seq<Material>, adapters: seq<AdapterDelta>)
      returns (result: Result<(seq<real>, bool), Failure>)
    requires SameSize(base, materials) && mode != Unified && forall d <- adapters :: d.Fits(|base|)
    ensures result.Err? <==> Refused(common, base, materials) || (!common && exists d <- adapters :: d.values.None?)
    ensures result.Ok? ==> (result.value.1 <==> AnyApplied(common, materials, adapters)) && |result.value.0| == |base|
    ensures result.Ok? ==> forall k :: 0 <= k < |base| ==>
      result.value.0[k] == if result.value.1
        then Combined(mode, baseWeight, Sanitized(base)[k], materials, k) + AdapterSum(mode, adapters, k)
        else Sanitized(base)[k]
    // A sum is a blend by effective shares; a difference takes materials and updates away from the weighted base.
    ensures result.Ok? && result.value.1 ==> forall k :: 0 <= k < |base| ==>
      result.value.0[k] == Blend(mode, baseWeight, Sanitized(base)[k], materials, adapters, k)
    ensures result.Ok? && !common ==> AllFinite(base)
  {
    hide Invalid, Applies, Acts, Combined, AdapterSum, BaseShare, SharedValue, Updates;
    CombinedMeans(mode, baseWeight, materials);
    AdaptersMean(mode, adapters);
    if !AllFinite(base) && !common {
      return Err(BaseNotFinite);
    }
    var numeric := Sanitized(base);
    var accumulated := new real[|base|](k requires 0 <= k < |base| => baseWeight * numeric[k]);
    var failure, applied := AddMaterials(accumulated, numeric, baseWeight, mode, common, materials);
    if failure.Some? {
      return Err(failure.value);
    }
    var adapted;
    failure, adapted := AddAdapters(accumulated, mode, common, adapters);
    if failure.Some? {
      return Err(failure.value);
    }
    return Ok(if applied || adapted then (accumulated[..], true) else (numeric, false));
  }

  /** The arithmetic result for a decoded base. */
  ghost predicate Merged(
    merged: Tensor<Number>, decoded: Tensor<Number>, baseWeight: real, mode: Mode,
    materials: seq<Material>, adapters: seq<AdapterDelta>)
    requires decoded.Valid()
  {
    && merged.Valid() && merged.shape == decoded.shape
    && forall k :: 0 <= k < |merged.data| ==>
         merged.data[k] == Finite(Blend(mode, baseWeight, Sanitized(decoded.data)[k], materials, adapters, k))
  }

  /** The stored base with its invalid elements zeroed. */
  function Cleaned(stored: Tensor<Number>): (cleaned: Tensor<Number>)
    requires stored.Valid()
    ensures cleaned.Valid() && cleaned.shape == stored.shape && AllFinite(cleaned.data)
    ensures AllFinite(stored.data) ==> cleaned == stored
    ensures forall k :: 0 <= k < |stored.data| ==>
      cleaned.data[k] == if stored.data[k].Finite? then stored.data[k] else Finite(0.0)
  {
    Tensor(stored.shape, Numbered(Sanitized(stored.data)))
  }

  /**
   A merge that repairs, on quantized storage: zero invalid elements, decode, accumulate, requantize.
   The cleaned base is returned when its parameters cannot decode it or nothing applied; otherwise
   what is returned decodes to the arithmetic result on the decoded cleaned base. Nothing returned
   is invalid.
   */
  method MergeStored(
    stored: Tensor<Number>, scale: Option<Tensor<Number>>, zero: Option<Tensor<Number>>,
    baseWeight: real, mode: Mode, materials: seq<Material>, adapters: seq<AdapterDelta>)
      returns (result: Tensor<Number>, applied: bool,
               ghost decoded: Tensor<Number>, ghost merged: Tensor<Number>, ghost scheme: Option<Scheme>)
    requires stored.Valid() && (scale.Some? ==> scale.value.Valid()) && (zero.Some? ==> zero.value.Valid())
    requires SameSize(stored.data, materials) && mode != Unified && forall d <- adapters :: d.Fits(|stored.data|)
    ensures result.Valid() && result.shape == stored.shape && AllFinite(result.data)
    ensures applied <==> Decodable(scale, zero, stored.shape) && AnyApplied(true, materials, adapters)
    ensures !applied ==> result == Cleaned(stored)
    ensures applied ==> decoded.Valid() && decoded.shape == stored.shape
    ensures applied ==> Merged(merged, decoded, baseWeight, mode, materials, adapters)
    ensures applied && scale.None? ==> decoded == Cleaned(stored) && result == merged
    ensures applied && scale.Some? ==>
      && scheme.Some? && scheme.value.Fits(stored.shape)
      && SchemeOf(scheme.value, scale.value, zero, stored.shape)
      && Decodes(decoded, Cleaned(stored), scheme.value) && Decodes(merged, result, scheme.value)
  {
    hide Product, Applies, Acts, Combined, AdapterSum, Blend, Decodes, Expands, Restored, Usable, Positive, AnyApplied, Cleaned, AllFinite;
    var cleaned := Cleaned(stored);
    result, applied, decoded, merged, scheme := cleaned, false, cleaned, cleaned, None;
    var read := Quantization.Decode(cleaned, scale, zero);
    if read.Err? {
      return;
    }
    var base, found := read.value.0, read.value.1;
    decoded, scheme := base, found;
    SameShapeSameSize(base, cleaned, found);
    var sum := MergeTensor(base.data, baseWeight, mode, true, materials, adapters);
    if !sum.value.1 {
      return;
    }
    applied := true;
    var total := Tensor(stored.shape, Numbered(sum.value.0));
    NumberedAreFinite(sum.value.0);
    merged, result := total, total;
    if found.Some? {
      RestoredDecodes(total, found.value);
      RestoredAreFinite(total, found.value);
      result := Restored(total, found.value);
    }
  }

  /** The scheme is the scale and the zero point that were found, or zero. */
  ghost predicate SchemeOf(scheme: Scheme, scale: Tensor<Number>, zero: Option<Tensor<Number>>, shape: Shape) {
    && Expands(scheme.scale, scale, shape)
    && if zero.Some? then Expands(scheme.zero, zero.value, shape) else scheme.zero == Tensor([], [0.0])
  }

  lemma NumberedAreFinite(values: seq<real>)
    ensures AllFinite(Numbered(values))
  {
  }

  function Numbered(values: seq<real>): (numbers: seq<Number>)
    ensures |numbers| == |values| && forall k :: 0 <= k < |values| ==> numbers[k] == Finite(values[k])
  {
    seq(|values|, k requires 0 <= k < |values| => Finite(values[k]))
  }

  lemma SameShapeSameSize(decoded: Tensor<Number>, stored: Tensor<Number>, scheme: Option<Scheme>)
    requires stored.Valid()
    requires if scheme.None? then decoded == stored else scheme.value.Fits(stored.shape) && Decodes(decoded, stored, scheme.value)
    ensures decoded.Valid() && decoded.shape == stored.shape && |decoded.data| == |stored.data|
  {
    hide Product;
  }

  /** Without adapters, or with adapters that do not act, the sum over checkpoints is all there is. */
  lemma {:induction false} InactiveAdaptersAddNothing(mode: Mode, common: bool, adapters: seq<AdapterDelta>, k: nat)
    requires forall d <- adapters :: !Acts(common, d)
    ensures AdapterSum(mode, adapters, k) == 0.0
  {
    if adapters != [] {
      var last := adapters[|adapters| - 1];
      assert last in adapters;
      InactiveAdaptersAddNothing(mode, common, adapters[..|adapters| - 1], k);
      InactiveAddsNothing(mode, common, last);
    }
  }

  lemma InactiveAddsNothing(mode: Mode, common: bool, delta: AdapterDelta)
    ensures !Acts(common, delta) ==> forall k: nat :: AdapterAt(mode, delta, k) == 0.0
    ensures Acts(common, delta) ==> delta.values.Some?
  {
    if !Acts(common, delta) && delta.values.Some? && delta.weight != 0.0 {
      assert forall i :: 0 <= i < |delta.values.value| ==> delta.values.value[i] in delta.values.value;
    }
  }

  lemma NothingCombined(mode: Mode, baseWeight: real)
    ensures forall base: real, k: nat :: Combined(mode, baseWeight, base, [], k) == baseWeight * base
  {
  }

  lemma CombinedOneMore(mode: Mode, baseWeight: real, materials: seq<Material>, material: Material)
    ensures forall base: real, k: nat ::
      Combined(mode, baseWeight, base, materials + [material], k)
      == Combined(mode, baseWeight, base, materials, k) + Coefficient(mode, material.weight) * Contribution(mode, material, base, k)
  {
    assert (materials + [material])[..|materials|] == materials;
  }

  lemma WeightlessAddsNothing(mode: Mode, material: Material)
    ensures material.weight == 0.0 ==> !Applies(material)
    ensures forall base: real, k: nat :: Coefficient(mode, 0.0) * Contribution(mode, material, base, k) == 0.0
  {
  }

  // ---- Conservation ----

  function WeightSum(materials: seq<Material>): real {
    if materials == [] then 0.0 else WeightSum(materials[..|materials| - 1]) + materials[|materials| - 1].weight
  }

  /** The base's effective share at a coordinate: its own, and those of all materials without a value there. */
  function BaseShare(baseWeight: real, materials: seq<Material>, k: nat): real {
    if materials == [] then baseWeight
    else
      var last := materials[|materials| - 1];
      BaseShare(baseWeight, materials[..|materials| - 1], k) + if Contributes(last, k) then 0.0 else last.weight
  }

  function Share(material: Material, k: nat): real {
    if Contributes(material, k) then material.weight else 0.0
  }

  function SharedSum(materials: seq<Material>, k: nat): real {
    if materials == [] then 0.0 else SharedSum(materials[..|materials| - 1], k) + Share(materials[|materials| - 1], k)
  }

  function SharedValue(materials: seq<Material>, k: nat): real {
    if materials == [] then 0.0
    else
      var last := materials[|materials| - 1];
      SharedValue(materials[..|materials| - 1], k)
      + if Contributes(last, k) then last.weight * last.reading.values[k].value else 0.0
  }

  lemma {:induction false} SharesAddUp(baseWeight: real, materials: seq<Material>, k: nat)
    requires baseWeight >= 0.0 && forall m <- materials :: m.weight >= 0.0
    ensures BaseShare(baseWeight, materials, k) >= 0.0 && SharedSum(materials, k) >= 0.0
    ensures BaseShare(baseWeight, materials, k) + SharedSum(materials, k) == baseWeight + WeightSum(materials)
  {
    hide Contributes;
    if materials != [] {
      SharesAddUp(baseWeight, materials[..|materials| - 1], k);
      assert materials[|materials| - 1] in materials;
    }
  }

  lemma {:induction false} CombinedIsBlend(baseWeight: real, base: real, materials: seq<Material>, k: nat)
    ensures Combined(WeightedSum, baseWeight, base, materials, k)
         == BaseShare(baseWeight, materials, k) * base + SharedValue(materials, k)
  {
    if materials != [] {
      var rest, last := materials[..|materials| - 1], materials[|materials| - 1];
      CombinedIsBlend(baseWeight, base, rest, k);
      LastBlends(BaseShare(baseWeight, rest, k), base, last, k);
    }
  }

  /** A difference subtracts every value there is, and nothing else. */
  lemma {:induction false} DifferenceSubtracts(baseWeight: real, base: real, materials: seq<Material>, k: nat)
    ensures Combined(WeightedDifference, baseWeight, base, materials, k) == baseWeight * base - SharedValue(materials, k)
  {
    if materials != [] {
      DifferenceSubtracts(baseWeight, base, materials[..|materials| - 1], k);
    }
  }

  lemma CombinedMeans(mode: Mode, baseWeight: real, materials: seq<Material>)
    requires mode != Unified
    ensures forall base: real, k: nat ::
      Combined(mode, baseWeight, base, materials, k) ==
        if mode == WeightedSum then BaseShare(baseWeight, materials, k) * base + SharedValue(materials, k)
        else baseWeight * base - SharedValue(materials, k)
  {
    hide Combined, BaseShare, SharedValue;
    forall base: real, k: nat
      ensures Combined(mode, baseWeight, base, materials, k) ==
        if mode == WeightedSum then BaseShare(baseWeight, materials, k) * base + SharedValue(materials, k)
        else baseWeight * base - SharedValue(materials, k)
    {
      CombinedIsBlend(baseWeight, base, materials, k);
      DifferenceSubtracts(baseWeight, base, materials, k);
    }
  }

  // ---- Adapters ----

  /** The weighted updates of the rows that hold this element. */
  function Updates(adapters: seq<AdapterDelta>, k: nat): real {
    if adapters == [] then 0.0
    else
      var last := adapters[|adapters| - 1];
      var update := if last.values.None? || k < last.start || k >= last.start + |last.values.value| then 0.0
                    else last.values.value[k - last.start];
      Updates(adapters[..|adapters| - 1], k) + last.weight * update
  }

  /** Updates are added to a sum and taken away from a difference. */
  lemma {:induction false} AdaptersAdd(adapters: seq<AdapterDelta>, k: nat)
    ensures AdapterSum(WeightedSum, adapters, k) == Updates(adapters, k)
    ensures AdapterSum(WeightedDifference, adapters, k) == -Updates(adapters, k)
  {
    if adapters != [] {
      AdaptersAdd(adapters[..|adapters| - 1], k);
    }
  }

  lemma AdaptersMean(mode: Mode, adapters: seq<AdapterDelta>)
    requires mode != Unified
    ensures forall k: nat ::
      AdapterSum(mode, adapters, k) == if mode == WeightedSum then Updates(adapters, k) else -Updates(adapters, k)
  {
    hide AdapterSum, Updates;
    forall k: nat ensures AdapterSum(mode, adapters, k) == if mode == WeightedSum then Updates(adapters, k) else -Updates(adapters, k) {
      AdaptersAdd(adapters, k);
    }
  }

  lemma LastBlends(share: real, base: real, last: Material, k: nat)
    ensures share * base + Coefficient(WeightedSum, last.weight) * Contribution(WeightedSum, last, base, k)
         == (share + if Contributes(last, k) then 0.0 else last.weight) * base
            + if Contributes(last, k) then last.weight * last.reading.values[k].value else 0.0
  {
    Distribute(share, last.weight, base);
  }

  /**
   Whatever is missing, unreadable or repaired, the effective shares at every coordinate are
   nonnegative and add up to what the weights add up to, and the result is the blend by these shares.
   */
  lemma SharesAreConserved(baseWeight: real, base: real, materials: seq<Material>, k: nat)
    requires baseWeight >= 0.0 && forall m <- materials :: m.weight >= 0.0
    ensures BaseShare(baseWeight, materials, k) >= 0.0 && SharedSum(materials, k) >= 0.0
    ensures BaseShare(baseWeight, materials, k) + SharedSum(materials, k) == baseWeight + WeightSum(materials)
    ensures Combined(WeightedSum, baseWeight, base, materials, k)
         == BaseShare(baseWeight, materials, k) * base + SharedValue(materials, k)
  {
    hide *;
    SharesAddUp(baseWeight, materials, k);
    CombinedIsBlend(baseWeight, base, materials, k);
  }

  /** With shares that add up to one, every element lies between the least and the greatest value blended there. */
  lemma {:induction false} ResultInHull(baseWeight: real, base: real, materials: seq<Material>, k: nat, low: real, high: real)
    requires baseWeight >= 0.0 && forall m <- materials :: m.weight >= 0.0
    requires low <= base <= high
    requires forall m <- materials :: Contributes(m, k) ==> low <= m.reading.values[k].value <= high
    ensures (baseWeight + WeightSum(materials)) * low <= Combined(WeightedSum, baseWeight, base, materials, k)
    ensures Combined(WeightedSum, baseWeight, base, materials, k) <= (baseWeight + WeightSum(materials)) * high
  {
    hide Combined, WeightSum, Contribution;
    if materials == [] {
      NoMaterials(baseWeight, base, k);
      Scale(baseWeight, low, base);
      Scale(baseWeight, base, high);
    } else {
      var rest, last := materials[..|materials| - 1], materials[|materials| - 1];
      ResultInHull(baseWeight, base, rest, k, low, high);
      assert last in materials;
      ContributionInRange(last, base, k, low, high);
      LastMaterial(baseWeight, base, materials, k);
      WeightedStep(baseWeight + WeightSum(rest), last.weight, Combined(WeightedSum, baseWeight, base, rest, k),
                   Contribution(WeightedSum, last, base, k), low, high);
      assert baseWeight + WeightSum(materials) == baseWeight + WeightSum(rest) + last.weight;
    }
  }

  lemma NoMaterials(baseWeight: real, base: real, k: nat)
    ensures Combined(WeightedSum, baseWeight, base, [], k) == baseWeight * base && WeightSum([]) == 0.0
  {
  }

  lemma LastMaterial(baseWeight: real, base: real, materials: seq<Material>, k: nat)
    requires materials != []
    ensures var rest, last := materials[..|materials| - 1], materials[|materials| - 1];
      && Combined(WeightedSum, baseWeight, base, materials, k)
         == Combined(WeightedSum, baseWeight, base, rest, k) + last.weight * Contribution(WeightedSum, last, base, k)
      && WeightSum(materials) == WeightSum(rest) + last.weight
  {
  }

  lemma ContributionInRange(material: Material, base: real, k: nat, low: real, high: real)
    requires low <= base <= high
    requires Contributes(material, k) ==> low <= material.reading.values[k].value <= high
    ensures low <= Contribution(WeightedSum, material, base, k) <= high
  {
  }

  lemma WeightedStep(shares: real, weight: real, sum: real, value: real, low: real, high: real)
    requires weight >= 0.0 && low <= value <= high && shares * low <= sum <= shares * high
    ensures (shares + weight) * low <= sum + weight * value <= (shares + weight) * high
  {
    Scale(weight, low, value);
    Scale(weight, value, high);
    Distribute(shares, weight, low);
    Distribute(shares, weight, high);
  }

  lemma Scale(w: real, a: real, b: real)
    requires w >= 0.0 && a <= b
    ensures w * a <= w * b
  {
  }

  lemma Distribute(a: real, b: real, c: real)
    ensures (a + b) * c == a * c + b * c
  {
  }

  lemma {:induction false} WeightsAreShares(materials: seq<Material>, weights: seq<real>, kinds: seq<Kind>)
    requires |materials| == |weights| == |kinds|
    requires forall i :: 0 <= i < |kinds| ==> kinds[i].Checkpoint? && materials[i].weight == weights[i]
    ensures WeightSum(materials) == CheckpointSum(weights, kinds)
  {
    if kinds != [] {
      WeightsAreShares(materials[..|kinds| - 1], weights[..|kinds| - 1], kinds[..|kinds| - 1]);
    }
  }

  /** The effective shares that resolved weights give: one in total, or the allowed slack above it. */
  lemma ResolvedShares(request: Request, kinds: seq<Kind>, values: seq<real>, resolved: Resolved, materials: seq<Material>, k: nat)
    requires request.mode == WeightedSum && |values| == |kinds| == |materials| && ResolvedRight(request, kinds, values, resolved)
    requires forall i :: 0 <= i < |kinds| ==> kinds[i].Checkpoint? && materials[i].weight == resolved.weights[i]
    ensures resolved.baseWeight >= 0.0 && forall m <- materials :: m.weight >= 0.0
    ensures resolved.baseWeight + WeightSum(materials) == BaseShare(resolved.baseWeight, materials, k) + SharedSum(materials, k)
    ensures 1.0 <= resolved.baseWeight + WeightSum(materials) <= 1.0 + SLACK
    ensures resolved.baseWeight + WeightSum(materials) == 1.0 <==> !(1.0 < CheckpointSum(values, kinds) <= 1.0 + SLACK)
  {
    hide Combined, WeightSum, BaseShare, SharedSum, Contributes, CheckpointSum;
    WeightsAreShares(materials, resolved.weights, kinds);
    SharesAreConserved(resolved.baseWeight, 0.0, materials, k);
  }

  /**
   From the request to the result: with resolved weights, a sum of checkpoints stays in the hull of
   what it blends, unless the requested total exceeded one by no more than the allowed slack.
   */
  lemma ResolvedBlendInHull(request: Request, kinds: seq<Kind>, values: seq<real>, resolved: Resolved,
                            materials: seq<Material>, base: real, k: nat, low: real, high: real)
    requires request.mode == WeightedSum && |values| == |kinds| == |materials| && ResolvedRight(request, kinds, values, resolved)
    requires forall i :: 0 <= i < |kinds| ==> kinds[i].Checkpoint? && materials[i].weight == resolved.weights[i]
    requires low <= base <= high
    requires forall m <- materials :: Contributes(m, k) ==> low <= m.reading.values[k].value <= high
    requires !(1.0 < CheckpointSum(values, kinds) <= 1.0 + SLACK)
    ensures low <= Combined(WeightedSum, resolved.baseWeight, base, materials, k) <= high
  {
    hide Combined, WeightSum, CheckpointSum, ResolvedRight, BaseShare, SharedSum;
    ResolvedShares(request, kinds, values, resolved, materials, k);
    ResultInHull(resolved.baseWeight, base, materials, k, low, high);
    assert (resolved.baseWeight + WeightSum(materials)) * low == low && (resolved.baseWeight + WeightSum(materials)) * high == high;
  }

  /** Merging tensors that agree with the base at a coordinate gives the base there, when the shares add up to one. */
  lemma EqualTensorsGiveTheBase(baseWeight: real, base: real, materials: seq<Material>, k: nat)
    requires baseWeight >= 0.0 && forall m <- materials :: m.weight >= 0.0
    requires baseWeight + WeightSum(materials) == 1.0
    requires forall m <- materials :: Contributes(m, k) ==> m.reading.values[k].value == base
    ensures Combined(WeightedSum, baseWeight, base, materials, k) == base
  {
    ResultInHull(baseWeight, base, materials, k, base, base);
  }

  /** Returning the base when nothing was applied is returning what the blend would be. */
  lemma NothingAppliedIsTheBase(
    baseWeight: real, base: real, common: bool, materials: seq<Material>, adapters: seq<AdapterDelta>, k: nat)
    requires baseWeight + WeightSum(materials) == 1.0 && !AnyApplied(common, materials, adapters)
    requires forall m <- materials :: m.reading.Values? ==> k < |m.reading.values|
    ensures Combined(WeightedSum, baseWeight, base, materials, k) + AdapterSum(WeightedSum, adapters, k) == base
  {
    hide Applies, Acts, Combined, AdapterSum;
    OnlyApplied(baseWeight, base, materials, k);
    InactiveAdaptersAddNothing(WeightedSum, common, adapters, k);
  }

  lemma {:induction false} OnlyApplied(baseWeight: real, base: real, materials: seq<Material>, k: nat)
    requires forall m <- materials :: !Applies(m) && (m.reading.Values? ==> k < |m.reading.values|)
    ensures Combined(WeightedSum, baseWeight, base, materials, k) == (baseWeight + WeightSum(materials)) * base
  {
    if materials != [] {
      var rest, last := materials[..|materials| - 1], materials[|materials| - 1];
      OnlyApplied(baseWeight, base, rest, k);
      assert last in materials;
      Distribute(baseWeight + WeightSum(rest), last.weight, base);
      if Contributes(last, k) && last.weight != 0.0 {
        FullyInvalid(last.reading.values, k);
      }
    }
  }

  /** When as many values are invalid as there are values, each of them is. */
  lemma FullyInvalid(values: seq<Number>, k: nat)
    requires k < |values| && values[k].Finite?
    ensures |Invalid(values, |values|)| < |values|
  {
    FewerInvalid(values, |values|, k);
  }

  lemma {:induction false} FewerInvalid(values: seq<Number>, n: nat, k: nat)
    requires k < n <= |values| && values[k].Finite?
    ensures |Invalid(values, n)| < n
  {
    if k < n - 1 {
      FewerInvalid(values, n - 1, k);
    } else {
      InvalidIsExact(values, n - 1);
    }
  }

  // ---- What counts as applied ----

  /** A material counts when it has a weight and some value of its own, or nothing to give a value for. */
  lemma AppliesExactly(material: Material)
    ensures Applies(material) <==>
      && material.weight != 0.0 && material.reading.Values?
      && (material.reading.values == [] || exists k: nat :: Contributes(material, k))
  {
    if material.reading.Values? {
      var values := material.reading.values;
      InvalidIsExact(values, |values|);
      if k: nat :| Contributes(material, k) {
        FullyInvalid(values, k);
      } else if values != [] {
        forall i | 0 <= i < |values| ensures !values[i].Finite? {
          assert !Contributes(material, i);
        }
        AllAreInvalid(values, |values|);
      }
    }
  }

  lemma {:induction false} AllAreInvalid(values: seq<Number>, n: nat)
    requires n <= |values| && forall k :: 0 <= k < n ==> !values[k].Finite?
    ensures |Invalid(values, n)| == n
  {
    if n > 0 {
      AllAreInvalid(values, n - 1);
    }
  }

  /** While repairing, an update counts exactly when it changes something; otherwise when it has a weight. */
  lemma ActsExactly(mode: Mode, delta: AdapterDelta)
    ensures Acts(true, delta) <==> exists k: nat :: AdapterAt(mode, delta, k) != 0.0
    ensures Acts(false, delta) <==> delta.values.Some? && delta.weight != 0.0
  {
    if Acts(true, delta) {
      var x :| x in delta.values.value && x != 0.0;
      var i :| 0 <= i < |delta.values.value| && delta.values.value[i] == x;
      assert AdapterAt(mode, delta, delta.start + i) == Coefficient(mode, delta.weight) * x;
    } else {
      InactiveAddsNothing(mode, true, delta);
    }
  }
}

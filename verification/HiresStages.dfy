/**
 Sizes of repeated refinement passes (reference/diffusers/hires_options.py, _nearest_multiple,
 _scaled_dimension, _proportional_dimension and resolve_hires_stage_sizes). Scales are exact
 reals here; the half-up rounding to the grid is kept.
 */
module HiresStages {
  import opened Options

  const MAXIMUM := 2147483647

  function NearestMultiple(value: real, multiple: nat): int
    requires multiple > 0
  {
    (value / multiple as real + 0.5).Floor * multiple
  }

  function ScaledDimension(value: nat, scale: real, multiple: nat): int
    requires multiple > 0
  {
    NearestMultiple(value as real * scale, multiple)
  }

  function ProportionalDimension(target: nat, original: nat, other: nat, multiple: nat): nat
    requires original > 0 && multiple > 0
  {
    var numerator, denominator := target * other, original * multiple;
    assert denominator > 0;
    (2 * numerator + denominator) / (2 * denominator) * multiple
  }

  /** A floor is the only integer that close below. */
  lemma FloorIs(x: real, n: int)
    requires n as real <= x < n as real + 1.0
    ensures x.Floor == n
  {
  }

  lemma {:induction false} RealProduct(a: nat, b: nat)
    ensures (a * b) as real == a as real * b as real
  {
    if b > 0 {
      RealProduct(a, b - 1);
      assert a * b == a * (b - 1) + a;
      assert a as real * b as real == a as real * (b - 1) as real + a as real;
    }
  }

  lemma Cancel(a: real, b: real, c: real)
    requires c > 0.0
    ensures a * c <= b * c <==> a <= b
    ensures a * c < b * c <==> a < b
    ensures a * c == b * c <==> a == b
  {
  }

  lemma Expand(a: real, b: real, c: real)
    ensures (a + b) * c == a * c + b * c
  {
  }

  lemma Quotient(a: real, b: real)
    requires b != 0.0
    ensures a / b * b == a
  {
  }

  lemma Between(q: real, x: real, d: real, rest: real)
    requires d > 0.0 && 0.0 <= rest < 2.0 * d && 2.0 * (x * d) + d == 2.0 * (q * d) + rest
    ensures q <= x + 0.5 < q + 1.0
  {
    Expand(x, 0.5, d);
    Expand(q, 1.0, d);
    Ordered(q, x + 0.5, q + 1.0, d, q * d, x * d + 0.5 * d, q * d + 1.0 * d);
  }

  lemma Ordered(a: real, b: real, c: real, d: real, ad: real, bd: real, cd: real)
    requires d > 0.0 && a * d == ad && b * d == bd && c * d == cd && ad <= bd < cd
    ensures a <= b < c
  {
    Cancel(a, b, d);
    Cancel(b, c, d);
  }

  lemma HalfUpQuotient(n: nat, d: nat)
    requires d > 0
    ensures (2 * n + d) / (2 * d) == (n as real / d as real + 0.5).Floor
  {
    var q := (2 * n + d) / (2 * d);
    var rest := (2 * n + d) % (2 * d);
    assert 2 * n + d == q * (2 * d) + rest && 0 <= rest < 2 * d;
    assert q * (2 * d) == 2 * (q * d);
    var x, D, Q := n as real / d as real, d as real, q as real;
    Quotient(n as real, D);
    RealProduct(q, d);
    assert 2.0 * (x * D) + D == 2.0 * (Q * D) + rest as real && rest as real < 2.0 * D;
    Between(Q, x, D, rest as real);
    FloorIs(x + 0.5, q);
  }

  /** The integer rule and the real rule round alike: an explicit size is a scale. */
  lemma ProportionalIsScaled(target: nat, original: nat, other: nat, multiple: nat)
    requires original > 0 && multiple > 0
    ensures ProportionalDimension(target, original, other, multiple)
         == ScaledDimension(target, other as real / original as real, multiple)
  {
    var n, d := target * other, original * multiple;
    assert d > 0;
    hide ScaledDimension;
    HalfUpQuotient(n, d);
    RealProduct(target, other);
    RealProduct(original, multiple);
    PositiveProduct(original as real, multiple as real);
    SameRatio(target as real, other as real, original as real, multiple as real);
    var x := target as real * (other as real / original as real) / multiple as real;
    assert n as real / d as real == x;
    ScaledDimensionIs(target, other as real / original as real, multiple, x);
  }

  lemma PositiveProduct(a: real, b: real)
    requires a > 0.0 && b > 0.0
    ensures a * b > 0.0
  {
  }

  lemma ScaledDimensionIs(value: nat, scale: real, multiple: nat, x: real)
    requires multiple > 0 && x == value as real * scale / multiple as real
    ensures ScaledDimension(value, scale, multiple) == (x + 0.5).Floor * multiple
  {
  }

  lemma SameRatio(t: real, x: real, o: real, m: real)
    requires o > 0.0 && m > 0.0 && o * m > 0.0
    ensures t * x / (o * m) == t * (x / o) / m
  {
    var r := x / o;
    Quotient(x, o);
    var a, b := t * x / (o * m), t * r / m;
    Quotient(t * x, o * m);
    Quotient(t * r, m);
    assert b * (o * m) == t * r * o;
    assert t * r * o == t * (r * o);
    assert o * m > 0.0;
    Cancel(a, b, o * m);
  }

  // ---- What rounding means ----

  lemma RealTimes(a: int, b: nat)
    ensures (a * b) as real == a as real * b as real
  {
    if a >= 0 {
      RealProduct(a, b);
    } else {
      RealProduct(-a, b);
      assert a * b == -((-a) * b);
    }
  }

  /** No multiple is nearer, and of two that are equally near it is the larger one. */
  lemma NearestMultipleIsNearest(value: real, multiple: nat)
    requires multiple > 0
    ensures NearestMultiple(value, multiple) % multiple == 0
    ensures value - multiple as real / 2.0 < NearestMultiple(value, multiple) as real <= value + multiple as real / 2.0
  {
    var m, x := multiple as real, value / multiple as real;
    var n := (x + 0.5).Floor;
    GridMod(n, multiple);
    RealTimes(n, multiple);
    Quotient(value, m);
    HalfCell(n as real, x, m, value);
  }

  lemma HalfCell(n: real, x: real, m: real, value: real)
    requires m > 0.0 && x * m == value && n <= x + 0.5 < n + 1.0
    ensures value - m / 2.0 < n * m <= value + m / 2.0
  {
    Expand(x, 0.5, m);
    Expand(n, 1.0, m);
    var y, z := x + 0.5, n + 1.0;
    InOrder(n, y, z, m, n * m, value + m / 2.0, n * m + m);
  }

  lemma InOrder(a: real, b: real, c: real, d: real, ad: real, bd: real, cd: real)
    requires d > 0.0 && a * d == ad && b * d == bd && c * d == cd && a <= b < c
    ensures ad <= bd < cd
  {
    Cancel(a, b, d);
    Cancel(b, c, d);
  }

  /** The other size keeps the ratio of the original sizes, up to half a grid cell. */
  lemma ProportionalKeepsRatio(target: nat, original: nat, other: nat, multiple: nat)
    requires original > 0 && multiple > 0
    ensures var size := ProportionalDimension(target, original, other, multiple);
      && size % multiple == 0
      && -(original * multiple) < 2 * (size * original - target * other) <= original * multiple
  {
    var n, d := target * other, original * multiple;
    assert d > 0;
    var q := (2 * n + d) / (2 * d);
    var rest := (2 * n + d) % (2 * d);
    assert 2 * n + d == q * (2 * d) + rest && 0 <= rest < 2 * d;
    GridMod(q, multiple);
    assert q * (2 * d) == 2 * (q * multiple * original);
  }

  // ---- One axis ----

  /** The size of one axis after k passes, from its base size and its first refined size. */
  function Chain(base: nat, first: nat, factor: real, multiple: nat, k: nat): int
    requires multiple > 0
  {
    if k == 0 then base
    else if k == 1 then first
    else
      var previous := Chain(base, first, factor, multiple, k - 1);
      if previous < 0 then previous else ScaledDimension(previous, factor, multiple)
  }

  function Growth(base: nat, first: nat, factor: real, multiple: nat, k: nat): int
    requires multiple > 0
  {
    Chain(base, first, factor, multiple, k + 1) - Chain(base, first, factor, multiple, k)
  }

  /** From a multiple of the grid, one pass adds this many grid cells. */
  function Cells(units: nat, factor: real): int {
    (units as real * (factor - 1.0) + 0.5).Floor
  }

  // ---- Multiples of the grid ----

  function Grid(units: int, multiple: nat): int { units * multiple }

  lemma GridSum(a: int, b: int, multiple: nat)
    ensures Grid(a + b, multiple) == Grid(a, multiple) + Grid(b, multiple)
  {
  }

  lemma GridOrder(a: int, b: int, multiple: nat)
    requires multiple > 0
    ensures a <= b <==> Grid(a, multiple) <= Grid(b, multiple)
    ensures Grid(0, multiple) == 0
  {
    GridSum(a, b - a, multiple);
    assert b - a >= 0 ==> Grid(b - a, multiple) >= 0;
    assert b - a <= -1 ==> Grid(b - a, multiple) <= -(multiple as int);
  }

  lemma GridOf(value: int, multiple: nat)
    requires multiple > 0 && value % multiple == 0
    ensures Grid(value / multiple, multiple) == value
  {
  }

  lemma GridMod(units: int, multiple: nat)
    requires multiple > 0
    ensures Grid(units, multiple) % multiple == 0
  {
    var q, rest := Grid(units, multiple) / multiple, Grid(units, multiple) % multiple;
    assert Grid(units, multiple) == Grid(q, multiple) + rest;
    GridSum(q, units - q, multiple);
    SmallGrid(units - q, multiple);
  }

  lemma SmallGrid(units: int, multiple: nat)
    requires 0 <= Grid(units, multiple) < multiple
    ensures Grid(units, multiple) == 0
  {
    assert units >= 1 ==> units * multiple >= multiple;
    assert units <= -1 ==> units * multiple <= -(multiple as int);
  }

  /** From the grid a pass adds whole cells, never fewer than none. */
  lemma PassFromGrid(value: nat, units: nat, factor: real, multiple: nat)
    requires multiple > 0 && factor >= 1.0 && value == Grid(units, multiple)
    ensures ScaledDimension(value, factor, multiple) == Grid(units + Cells(units, factor), multiple)
    ensures ScaledDimension(value, factor, multiple) - value == Grid(Cells(units, factor), multiple)
    ensures Cells(units, factor) >= 0
  {
    assert value == units * multiple;
    hide ScaledDimension, Grid, Cells;
    RealProduct(units, multiple);
    CellsAre(units, factor);
    GridScaled(value, units as real, factor, multiple, units + Cells(units, factor));
    GridSum(units, Cells(units, factor), multiple);
  }

  lemma GridScaled(value: nat, units: real, factor: real, multiple: nat, cells: int)
    requires multiple > 0 && value as real == units * multiple as real && (units * factor + 0.5).Floor == cells
    ensures ScaledDimension(value, factor, multiple) == Grid(cells, multiple)
  {
    GridCancels(value as real, units, multiple as real, factor);
    ScaledDimensionIs(value, factor, multiple, units * factor);
  }

  lemma CellsAre(units: nat, factor: real)
    requires factor >= 1.0
    ensures (units as real * factor + 0.5).Floor == units + Cells(units, factor) && Cells(units, factor) >= 0
  {
    var u, y := units as real, units as real * (factor - 1.0);
    Expand(factor - 1.0, 1.0, u);
    assert y >= 0.0;
    assert u * factor + 0.5 == u + (y + 0.5);
    FloorIs(u + (y + 0.5), units + (y + 0.5).Floor);
  }

  lemma GridCancels(value: real, u: real, m: real, factor: real)
    requires m > 0.0 && value == u * m
    ensures u * factor == value * factor / m
  {
    var q, p := value * factor / m, u * factor;
    Quotient(value * factor, m);
    assert value * factor == p * m;
    Cancel(q, p, m);
  }

  lemma CellsMonotone(a: nat, b: nat, factor: real)
    requires a <= b && factor >= 1.0
    ensures Cells(a, factor) <= Cells(b, factor)
  {
    Scaled(a as real, b as real, factor - 1.0);
  }

  lemma Scaled(a: real, b: real, c: real)
    requires a <= b && c >= 0.0
    ensures a * c <= b * c
  {
    assert (b - a) * c >= 0.0;
    Expand(b - a, a, c);
  }

  /** Everything after the first pass lies on the grid. */
  lemma {:induction false} ChainOnGrid(base: nat, first: nat, factor: real, multiple: nat, k: nat) returns (units: nat)
    requires multiple > 0 && factor >= 1.0 && first % multiple == 0 && k > 0
    ensures Chain(base, first, factor, multiple, k) == Grid(units, multiple) >= 0
    ensures Growth(base, first, factor, multiple, k) == Grid(Cells(units, factor), multiple)
    ensures Chain(base, first, factor, multiple, k + 1) == Grid(units + Cells(units, factor), multiple)
    ensures Cells(units, factor) >= 0
  {
    hide ScaledDimension, Grid, Cells;
    if k == 1 {
      units := first / multiple;
      GridOf(first, multiple);
    } else {
      var before := ChainOnGrid(base, first, factor, multiple, k - 1);
      units := before + Cells(before, factor);
    }
    GridOrder(0, units, multiple);
    PassFromGrid(Chain(base, first, factor, multiple, k), units, factor, multiple);
  }

  /** After the first pass growth never decreases, and it is never negative. */
  lemma GrowthNeverDecreases(base: nat, first: nat, factor: real, multiple: nat, k: nat)
    requires multiple > 0 && factor >= 1.0 && first % multiple == 0 && k > 0
    ensures 0 <= Growth(base, first, factor, multiple, k) <= Growth(base, first, factor, multiple, k + 1)
    ensures Chain(base, first, factor, multiple, k) >= 0
  {
    hide Chain, Growth, Cells, Grid;
    var a := ChainOnGrid(base, first, factor, multiple, k);
    var b := ChainOnGrid(base, first, factor, multiple, k + 1);
    SameUnits(b, a + Cells(a, factor), multiple);
    CellsMonotone(a, b, factor);
    GridOrder(0, Cells(a, factor), multiple);
    GridOrder(Cells(a, factor), Cells(b, factor), multiple);
  }

  lemma SameUnits(a: int, b: int, multiple: nat)
    requires multiple > 0 && Grid(a, multiple) == Grid(b, multiple)
    ensures a == b
  {
    hide Grid;
    GridOrder(a, b, multiple);
    GridOrder(b, a, multiple);
  }

  /** The first pass is a pass like any other. */
  ghost predicate FirstIsScaled(base: nat, first: nat, factor: real, multiple: nat)
    requires multiple > 0
  {
    base % multiple == 0 && first == ScaledDimension(base, factor, multiple)
  }

  /** For a base size on the grid, growth does not decrease from the very first pass on. */
  lemma GridGrowthNeverDecreases(base: nat, first: nat, factor: real, multiple: nat)
    requires multiple > 0 && factor >= 1.0 && FirstIsScaled(base, first, factor, multiple)
    ensures first % multiple == 0
    ensures 0 <= Growth(base, first, factor, multiple, 0) <= Growth(base, first, factor, multiple, 1)
  {
    hide ScaledDimension, Cells, Grid;
    var a := base / multiple;
    GridOf(base, multiple);
    PassFromGrid(base, a, factor, multiple);
    GridMod(a + Cells(a, factor), multiple);
    var b := ChainOnGrid(base, first, factor, multiple, 1);
    SameUnits(b, a + Cells(a, factor), multiple);
    CellsMonotone(a, b, factor);
    GridOrder(0, Cells(a, factor), multiple);
    GridOrder(Cells(a, factor), Cells(b, factor), multiple);
  }

  /** A first pass onto the grid that does not shrink, by a factor of at least one. */
  ghost predicate Rising(base: nat, first: nat, factor: real, multiple: nat)
    requires multiple > 0
  {
    factor >= 1.0 && first % multiple == 0 && base <= first
  }

  lemma {:induction false} RisingIsMonotone(base: nat, first: nat, factor: real, multiple: nat, k: nat, n: nat)
    requires multiple > 0 && Rising(base, first, factor, multiple) && k <= n
    ensures Chain(base, first, factor, multiple, k) <= Chain(base, first, factor, multiple, n)
  {
    if k < n {
      RisingIsMonotone(base, first, factor, multiple, k, n - 1);
      if n > 1 {
        GrowthNeverDecreases(base, first, factor, multiple, n - 1);
      }
    }
  }

  /** From the second pass on growth is monotone over any number of passes. */
  lemma {:induction false} RisingGrowth(base: nat, first: nat, factor: real, multiple: nat, k: nat, n: nat)
    requires multiple > 0 && Rising(base, first, factor, multiple) && 0 < k <= n
    ensures 0 <= Growth(base, first, factor, multiple, k) <= Growth(base, first, factor, multiple, n)
  {
    hide Growth;
    GrowthNeverDecreases(base, first, factor, multiple, k);
    if k < n {
      RisingGrowth(base, first, factor, multiple, k, n - 1);
      GrowthNeverDecreases(base, first, factor, multiple, n - 1);
    }
  }

  /** The second pass grows by no less than the first. */
  ghost predicate Steady(base: nat, first: nat, factor: real, multiple: nat)
    requires multiple > 0
  {
    Growth(base, first, factor, multiple, 0) <= Growth(base, first, factor, multiple, 1)
  }

  /** What grows by at least its first step each time is at least this large. */
  lemma {:induction false} LinearLowerBound(base: nat, first: nat, factor: real, multiple: nat, k: nat)
    requires multiple > 0 && Rising(base, first, factor, multiple) && Steady(base, first, factor, multiple)
    ensures Chain(base, first, factor, multiple, k) >= base + (first - base) * k
    ensures Growth(base, first, factor, multiple, k) >= first - base
  {
    if k > 0 {
      LinearLowerBound(base, first, factor, multiple, k - 1);
      RisingGrowth(base, first, factor, multiple, 1, k);
      assert (first - base) * k == (first - base) * (k - 1) + (first - base);
    }
  }

  // ---- Both axes ----

  datatype Request = Request(
    width: int, height: int, passes: int, scale: Option<real>, targetWidth: Option<int>, targetHeight: Option<int>, multiple: int)
  {
    predicate Explicit() { targetWidth.Some? || targetHeight.Some? }

    predicate WellFormed() {
      && 0 < width <= MAXIMUM && 0 < height <= MAXIMUM && 0 < passes && 0 < multiple
      && (Explicit() ==> scale.None?)
      && (targetWidth.Some? ==> targetWidth.value > 0 && targetWidth.value % multiple == 0)
      && (targetHeight.Some? ==> targetHeight.value > 0 && targetHeight.value % multiple == 0)
      && (!Explicit() && scale.Some? ==> scale.value > 1.0)
    }

    function Scale(): real { if scale.Some? then scale.value else 2.0 }
  }

  datatype Refusal = Malformed | TooLarge | NotAnEnlargement | TooManyPasses

  datatype Plan = Plan(width: nat, height: nat, firstWidth: nat, firstHeight: nat, factorX: real, factorY: real, multiple: nat) {
    function W(k: nat): int
      requires multiple > 0
    {
      Chain(width, firstWidth, factorX, multiple, k)
    }

    function H(k: nat): int
      requires multiple > 0
    {
      Chain(height, firstHeight, factorY, multiple, k)
    }

    predicate Fits(k: nat)
      requires multiple > 0
    {
      W(k) <= MAXIMUM && H(k) <= MAXIMUM
    }

    /** Pass k + 1 keeps or enlarges both sizes and enlarges one. */
    predicate Enlarges(k: nat)
      requires multiple > 0
    {
      W(k + 1) >= W(k) && H(k + 1) >= H(k) && (W(k + 1) > W(k) || H(k + 1) > H(k))
    }

    /** The lower bound tested before the second pass is computed. */
    predicate RefusedEarly(passes: nat)
      requires multiple > 0
    {
      width + (W(1) - width) * passes > MAXIMUM || height + (H(1) - height) * passes > MAXIMUM
    }

    /** Each of the first passes fits and enlarges. */
    ghost predicate Climbs(passes: nat)
      requires multiple > 0
    {
      passes == 0 || (Climbs(passes - 1) && Fits(passes) && Enlarges(passes - 1))
    }

    ghost predicate Accepts(passes: nat)
      requires multiple > 0
    {
      Climbs(passes) && !RefusedEarly(passes)
    }

    /** Up to some pass everything was right, and that pass is not, or the lower bound refuses after the first. */
    ghost predicate RefusedFor(passes: nat, refusal: Refusal)
      requires multiple > 0
    {
      match refusal
      case Malformed => false
      case TooLarge => exists k :: 0 <= k < passes && Climbs(k) && !Fits(k + 1) && (k > 0 ==> !RefusedEarly(passes))
      case NotAnEnlargement => exists k :: 0 <= k < passes && Climbs(k) && Fits(k + 1) && !Enlarges(k) && (k > 0 ==> !RefusedEarly(passes))
      case TooManyPasses => Climbs(1) && RefusedEarly(passes)
    }

    ghost function Sizes(passes: nat): (s: seq<(int, int)>)
      requires multiple > 0
      ensures |s| == passes
    {
      if passes == 0 then [] else Sizes(passes - 1) + [(W(passes), H(passes))]
    }
  }

  lemma ScaledNonnegative(value: nat, scale: real, multiple: nat)
    requires multiple > 0 && scale >= 0.0
    ensures ScaledDimension(value, scale, multiple) >= 0
  {
    var x := value as real * scale;
    assert x >= 0.0;
    NonnegativeQuotient(x, multiple as real);
    assert (x / multiple as real + 0.5).Floor >= 0;
  }

  lemma NonnegativeQuotient(a: real, b: real)
    requires a >= 0.0 && b > 0.0
    ensures a / b >= 0.0
  {
  }

  function FirstWidth(r: Request): int
    requires r.WellFormed()
  {
    if r.targetWidth.Some? then r.targetWidth.value
    else if r.Explicit() then ProportionalDimension(r.targetHeight.value, r.height, r.width, r.multiple)
    else ScaledDimension(r.width, r.Scale(), r.multiple)
  }

  function FirstHeight(r: Request): int
    requires r.WellFormed()
  {
    if r.targetHeight.Some? then r.targetHeight.value
    else if r.Explicit() then ProportionalDimension(r.targetWidth.value, r.width, r.height, r.multiple)
    else ScaledDimension(r.height, r.Scale(), r.multiple)
  }

  /** Rounded to the grid, but by no more than half a cell. */
  ghost predicate Rounds(size: int, value: real, multiple: int) {
    value - multiple as real / 2.0 < size as real <= value + multiple as real / 2.0
  }

  /**
   The first sizes are those asked for; a size not asked for keeps the ratio of width to height, and
   a scale, two when none is given, multiplies both, each up to rounding to the grid.
   */
  lemma FirstSizesMean(r: Request)
    requires r.WellFormed()
    ensures r.targetWidth.Some? ==> FirstWidth(r) == r.targetWidth.value
    ensures r.targetHeight.Some? ==> FirstHeight(r) == r.targetHeight.value
    ensures r.targetWidth.Some? && r.targetHeight.None? ==>
      -(r.width * r.multiple) < 2 * (FirstHeight(r) * r.width - r.targetWidth.value * r.height) <= r.width * r.multiple
    ensures r.targetWidth.None? && r.targetHeight.Some? ==>
      -(r.height * r.multiple) < 2 * (FirstWidth(r) * r.height - r.targetHeight.value * r.width) <= r.height * r.multiple
    ensures r.targetWidth.None? && r.targetHeight.None? ==>
      var scale := if r.scale.Some? then r.scale.value else 2.0;
      Rounds(FirstWidth(r), r.width as real * scale, r.multiple) && Rounds(FirstHeight(r), r.height as real * scale, r.multiple)
  {
    hide ProportionalDimension, ScaledDimension, Rounds;
    if r.targetWidth.Some? {
      ProportionalKeepsRatio(r.targetWidth.value, r.width, r.height, r.multiple);
    } else if r.targetHeight.Some? {
      ProportionalKeepsRatio(r.targetHeight.value, r.height, r.width, r.multiple);
    } else {
      ScaledRounds(r.width, r.Scale(), r.multiple);
      ScaledRounds(r.height, r.Scale(), r.multiple);
    }
  }

  lemma ScaledRounds(value: nat, scale: real, multiple: nat)
    requires multiple > 0
    ensures Rounds(ScaledDimension(value, scale, multiple), value as real * scale, multiple)
  {
    NearestMultipleIsNearest(value as real * scale, multiple);
    hide NearestMultiple;
  }

  /** The chain a request asks for: a scale, or the ratios of its first sizes to its base sizes. */
  function PlanOf(r: Request): (plan: Plan)
    requires r.WellFormed()
    ensures plan.multiple > 0
  {
    ScaledNonnegative(r.width, r.Scale(), r.multiple);
    ScaledNonnegative(r.height, r.Scale(), r.multiple);
    var w, h := FirstWidth(r), FirstHeight(r);
    Plan(r.width, r.height, w, h,
         if r.Explicit() then w as real / r.width as real else r.Scale(),
         if r.Explicit() then h as real / r.height as real else r.Scale(),
         r.multiple)
  }

  lemma ChainStep(base: nat, first: nat, factor: real, multiple: nat, k: nat)
    requires multiple > 0 && k > 0 && Chain(base, first, factor, multiple, k) >= 0
    ensures Chain(base, first, factor, multiple, k + 1) == ScaledDimension(Chain(base, first, factor, multiple, k), factor, multiple)
  {
  }

  /** One axis of the next pass, by the rule of its kind. */
  method NextDimension(previous: nat, base: nat, first: nat, explicit: bool, scale: real, multiple: nat, index: nat) returns (next: int)
    requires base > 0 && multiple > 0
    requires previous == Chain(base, first, if explicit then first as real / base as real else scale, multiple, index)
    ensures next == Chain(base, first, if explicit then first as real / base as real else scale, multiple, index + 1)
  {
    hide ScaledDimension, ProportionalDimension;
    if index == 0 {
      next := first;
    } else if explicit {
      ChainStep(base, first, first as real / base as real, multiple, index);
      ProportionalIsScaled(previous, base, first, multiple);
      next := ProportionalDimension(previous, base, first, multiple);
    } else {
      ChainStep(base, first, scale, multiple, index);
      next := ScaledDimension(previous, scale, multiple);
    }
  }

  lemma {:induction false} ClimbsBefore(p: Plan, k: nat, n: nat)
    requires p.multiple > 0 && p.Climbs(n) && k <= n
    ensures p.Climbs(k)
    decreases n
  {
    if k < n {
      ClimbsBefore(p, k, n - 1);
    }
  }

  lemma {:induction false} SizesAt(p: Plan, k: nat, n: nat)
    requires p.multiple > 0 && k < n
    ensures p.Sizes(n)[k] == (p.W(k + 1), p.H(k + 1))
    decreases n
  {
    if k < n - 1 {
      SizesAt(p, k, n - 1);
    }
  }

  method ResolveStageSizes(r: Request) returns (result: Result<seq<(int, int)>, Refusal>)
    ensures result == Err(Malformed) <==> !r.WellFormed()
    ensures result == Err(Malformed) <==>
      || r.width <= 0 || r.height <= 0 || r.passes <= 0 || r.multiple <= 0 || r.width > 2147483647 || r.height > 2147483647
      || (r.targetWidth.Some? && (r.targetWidth.value <= 0 || r.targetWidth.value % r.multiple != 0 || r.scale.Some?))
      || (r.targetHeight.Some? && (r.targetHeight.value <= 0 || r.targetHeight.value % r.multiple != 0 || r.scale.Some?))
      || (r.scale.Some? && r.scale.value <= 1.0)
    ensures r.WellFormed() ==> (result.Ok? <==> PlanOf(r).Accepts(r.passes))
    ensures result.Ok? ==> result.value == PlanOf(r).Sizes(r.passes)
    ensures result.Ok? ==> forall k :: 0 <= k < r.passes ==> result.value[k] == (PlanOf(r).W(k + 1), PlanOf(r).H(k + 1))
    // A refusal names what is wrong with the first pass that is not right.
    ensures result.Err? && r.WellFormed() ==> PlanOf(r).RefusedFor(r.passes, result.error)
  {
    if !r.WellFormed() {
      return Err(Malformed);
    }
    hide NearestMultiple, ScaledDimension, ProportionalDimension, Chain, FirstWidth, FirstHeight;
    ghost var plan := PlanOf(r);
    var firstWidth, firstHeight := FirstWidth(r), FirstHeight(r);
    PlanStarts(r);
    hide PlanOf;
    var stages: seq<(int, int)> := [];
    var previousWidth, previousHeight := r.width, r.height;
    for index := 0 to r.passes
      invariant previousWidth > 0 && previousHeight > 0
      invariant previousWidth == plan.W(index) && previousHeight == plan.H(index)
      invariant index > 0 ==> !plan.RefusedEarly(r.passes)
      invariant plan.Climbs(index)
      invariant stages == plan.Sizes(index)
    {
      var nextWidth := NextDimension(previousWidth, r.width, firstWidth, r.Explicit(), r.Scale(), r.multiple, index);
      var nextHeight := NextDimension(previousHeight, r.height, firstHeight, r.Explicit(), r.Scale(), r.multiple, index);
      if nextWidth > MAXIMUM || nextHeight > MAXIMUM {
        Unclimbed(plan, index, r.passes);
        return Err(TooLarge);
      }
      if nextWidth < previousWidth || nextHeight < previousHeight
         || (nextWidth == previousWidth && nextHeight == previousHeight) {
        Unclimbed(plan, index, r.passes);
        return Err(NotAnEnlargement);
      }
      if index == 0 && TooManyPassesFor(r, nextWidth, nextHeight) {
        return Err(TooManyPasses);
      }
      stages := stages + [(nextWidth, nextHeight)];
      previousWidth, previousHeight := nextWidth, nextHeight;
    }
    forall k | 0 <= k < r.passes ensures stages[k] == (plan.W(k + 1), plan.H(k + 1)) {
      SizesAt(plan, k, r.passes);
    }
    return Ok(stages);
  }

  predicate TooManyPassesFor(r: Request, firstWidth: int, firstHeight: int) {
    r.width + (firstWidth - r.width) * r.passes > MAXIMUM || r.height + (firstHeight - r.height) * r.passes > MAXIMUM
  }

  lemma Unclimbed(p: Plan, k: nat, n: nat)
    requires p.multiple > 0 && k < n && !(p.Fits(k + 1) && p.Enlarges(k))
    ensures !p.Climbs(n)
  {
    if p.Climbs(n) {
      ClimbsBefore(p, k + 1, n);
    }
  }

  lemma PlanStarts(r: Request)
    requires r.WellFormed()
    ensures PlanOf(r).W(0) == r.width && PlanOf(r).H(0) == r.height
    ensures PlanOf(r).W(1) == FirstWidth(r) && PlanOf(r).H(1) == FirstHeight(r)
    ensures PlanOf(r).firstWidth == FirstWidth(r) >= 0 && PlanOf(r).firstHeight == FirstHeight(r) >= 0
  {
    hide FirstWidth, FirstHeight, ScaledDimension;
  }

  // ---- What the loop decides, without the loop ----

  ghost predicate RisingPlan(p: Plan)
    requires p.multiple > 0
  {
    Rising(p.width, p.firstWidth, p.factorX, p.multiple) && Rising(p.height, p.firstHeight, p.factorY, p.multiple)
  }

  ghost predicate SteadyPlan(p: Plan)
    requires p.multiple > 0
  {
    Steady(p.width, p.firstWidth, p.factorX, p.multiple) && Steady(p.height, p.firstHeight, p.factorY, p.multiple)
  }

  /** Pass n + 1 grows each axis by no less than pass k + 1 did. */
  lemma PlanGrowth(p: Plan, k: nat, n: nat)
    requires p.multiple > 0 && RisingPlan(p) && 0 < k <= n
    ensures 0 <= p.W(k + 1) - p.W(k) <= p.W(n + 1) - p.W(n)
    ensures 0 <= p.H(k + 1) - p.H(k) <= p.H(n + 1) - p.H(n)
  {
    hide Chain, Rising;
    RisingGrowth(p.width, p.firstWidth, p.factorX, p.multiple, k, n);
    RisingGrowth(p.height, p.firstHeight, p.factorY, p.multiple, k, n);
  }

  lemma PlanFits(p: Plan, k: nat, n: nat)
    requires p.multiple > 0 && RisingPlan(p) && k <= n && p.Fits(n)
    ensures p.Fits(k)
  {
    hide Chain, Rising;
    RisingIsMonotone(p.width, p.firstWidth, p.factorX, p.multiple, k, n);
    RisingIsMonotone(p.height, p.firstHeight, p.factorY, p.multiple, k, n);
  }

  lemma {:induction false} PlanClimbs(p: Plan, n: nat)
    requires p.multiple > 0 && RisingPlan(p) && p.Enlarges(0) && p.Fits(n) && (n > 1 ==> p.Enlarges(1))
    ensures p.Climbs(n)
  {
    hide Plan.W, Plan.H, RisingPlan;
    if n > 0 {
      PlanFits(p, n - 1, n);
      PlanClimbs(p, n - 1);
      if n > 1 {
        PlanGrowth(p, 1, n - 1);
      }
    }
  }

  /** An enlarging first pass fixes factors of at least one and sizes on the grid. */
  lemma FirstPassRises(r: Request)
    requires r.WellFormed() && PlanOf(r).Enlarges(0)
    ensures RisingPlan(PlanOf(r))
  {
    PlanStarts(r);
    FirstOnGrid(r);
    hide FirstWidth, FirstHeight, ScaledDimension;
    if r.Explicit() {
      RatioAtLeastOne(FirstWidth(r) as real, r.width as real);
      RatioAtLeastOne(FirstHeight(r) as real, r.height as real);
    }
  }

  lemma RatioAtLeastOne(a: real, b: real)
    requires a >= b > 0.0
    ensures a / b >= 1.0
  {
  }

  lemma FirstOnGrid(r: Request)
    requires r.WellFormed()
    ensures FirstWidth(r) % r.multiple == 0 && FirstHeight(r) % r.multiple == 0
  {
    hide ScaledDimension, ProportionalDimension;
    if !r.Explicit() {
      ScaledOnGrid(r.width, r.Scale(), r.multiple);
      ScaledOnGrid(r.height, r.Scale(), r.multiple);
    } else if r.targetWidth.None? {
      ProportionalIsScaled(r.targetHeight.value, r.height, r.width, r.multiple);
      ScaledOnGrid(r.targetHeight.value, r.width as real / r.height as real, r.multiple);
    } else if r.targetHeight.None? {
      ProportionalIsScaled(r.targetWidth.value, r.width, r.height, r.multiple);
      ScaledOnGrid(r.targetWidth.value, r.height as real / r.width as real, r.multiple);
    }
  }

  lemma ScaledOnGrid(value: nat, scale: real, multiple: nat)
    requires multiple > 0
    ensures ScaledDimension(value, scale, multiple) % multiple == 0
  {
    GridMod((value as real * scale / multiple as real + 0.5).Floor, multiple);
  }

  /**
   What the loop accepts, for every request: the first two passes enlarge, the last size fits, and the
   lower bound does not refuse. No later pass is ever refused for not enlarging.
   */
  lemma AcceptedExactly(r: Request)
    requires r.WellFormed()
    ensures PlanOf(r).Accepts(r.passes)
       <==> PlanOf(r).Enlarges(0) && (r.passes > 1 ==> PlanOf(r).Enlarges(1))
            && PlanOf(r).Fits(r.passes) && !PlanOf(r).RefusedEarly(r.passes)
  {
    var p := PlanOf(r);
    hide PlanOf, Plan.W, Plan.H, Plan.Fits, Plan.Enlarges, Plan.RefusedEarly, RisingPlan;
    if p.Climbs(r.passes) {
      ClimbsBefore(p, 1, r.passes);
      if r.passes > 1 {
        ClimbsBefore(p, 2, r.passes);
      }
    } else if p.Enlarges(0) && (r.passes > 1 ==> p.Enlarges(1)) && p.Fits(r.passes) {
      FirstPassRises(r);
      PlanClimbs(p, r.passes);
    }
  }

  // ---- The early refusal ----

  /** Where growth starts steady, the linear bound refuses only sizes that do not fit. */
  lemma EarlyRefusalIsSafe(p: Plan, n: nat)
    requires p.multiple > 0 && RisingPlan(p) && SteadyPlan(p) && p.RefusedEarly(n)
    ensures !p.Fits(n)
  {
    hide Rising, Steady;
    LinearLowerBound(p.width, p.firstWidth, p.factorX, p.multiple, n);
    LinearLowerBound(p.height, p.firstHeight, p.factorY, p.multiple, n);
    ChainStarts(p.width, p.firstWidth, p.factorX, p.multiple);
    ChainStarts(p.height, p.firstHeight, p.factorY, p.multiple);
    hide Chain;
  }

  lemma ChainStarts(base: nat, first: nat, factor: real, multiple: nat)
    requires multiple > 0
    ensures Chain(base, first, factor, multiple, 0) == base && Chain(base, first, factor, multiple, 1) == first
  {
  }

  /** So a chain that would have been built is refused only when some axis starts unsteadily. */
  lemma WrongRefusalIsUnsteady(r: Request)
    requires r.WellFormed()
    ensures PlanOf(r).Climbs(r.passes) && PlanOf(r).RefusedEarly(r.passes) ==>
      !SteadyPlan(PlanOf(r)) && !(r.width % r.multiple == 0 && r.height % r.multiple == 0)
  {
    var p := PlanOf(r);
    if p.Climbs(r.passes) && p.RefusedEarly(r.passes) {
      ClimbsBefore(p, 1, r.passes);
      FirstPassRises(r);
      if r.width % r.multiple == 0 && r.height % r.multiple == 0 {
        GridIsSteady(r);
      }
      hide PlanOf, Plan.RefusedEarly, RisingPlan, SteadyPlan;
      if SteadyPlan(p) {
        EarlyRefusalIsSafe(p, r.passes);
      }
    }
  }

  /** An explicit first size on the grid is its own ratio applied to the base. */
  lemma RatioReproduces(base: nat, first: nat, multiple: nat)
    requires base > 0 && multiple > 0 && first % multiple == 0
    ensures ScaledDimension(base, first as real / base as real, multiple) == first
  {
    var units := first / multiple;
    Quotient(first as real, base as real);
    var value := base as real * (first as real / base as real);
    assert value == first as real;
    RealProduct(units, multiple);
    UnitsOf(value, units as real, multiple as real);
    ScaledDimensionIs(base, first as real / base as real, multiple, units as real);
    FloorIs(units as real + 0.5, units);
  }

  lemma UnitsOf(value: real, units: real, multiple: real)
    requires multiple > 0.0 && value == units * multiple
    ensures units == value / multiple
  {
    Quotient(value, multiple);
    Cancel(units, value / multiple, multiple);
  }

  lemma GridIsSteady(r: Request)
    requires r.WellFormed() && PlanOf(r).Enlarges(0)
    requires r.width % r.multiple == 0 && r.height % r.multiple == 0
    ensures SteadyPlan(PlanOf(r))
  {
    var p := PlanOf(r);
    FirstPassRises(r);
    FirstOnGrid(r);
    PlanStarts(r);
    FirstIsAnyPass(r);
    hide Growth, FirstIsScaled, Chain;
    GridGrowthNeverDecreases(p.width, p.firstWidth, p.factorX, p.multiple);
    GridGrowthNeverDecreases(p.height, p.firstHeight, p.factorY, p.multiple);
  }

  lemma FirstIsAnyPass(r: Request)
    requires r.WellFormed() && r.width % r.multiple == 0 && r.height % r.multiple == 0
    ensures FirstIsScaled(r.width, PlanOf(r).firstWidth, PlanOf(r).factorX, r.multiple)
    ensures FirstIsScaled(r.height, PlanOf(r).firstHeight, PlanOf(r).factorY, r.multiple)
  {
    PlanStarts(r);
    FirstOnGrid(r);
    if r.Explicit() {
      RatioReproduces(r.width, FirstWidth(r), r.multiple);
      RatioReproduces(r.height, FirstHeight(r), r.multiple);
      hide FirstWidth, FirstHeight, ScaledDimension;
    } else {
      hide ScaledDimension;
    }
  }

  lemma SteadyEnlarges(p: Plan)
    requires p.multiple > 0 && RisingPlan(p) && SteadyPlan(p) && p.Enlarges(0)
    ensures p.Enlarges(1)
  {
    PlanGrowth(p, 1, 1);
    hide Chain, Rising;
  }

  /**
   For base sizes on the grid a request is granted exactly when its first pass enlarges and its last
   size can be represented: neither later passes nor the early bound refuse anything more.
   */
  lemma GridRequestsAcceptedExactly(r: Request)
    requires r.WellFormed() && r.width % r.multiple == 0 && r.height % r.multiple == 0
    ensures PlanOf(r).Accepts(r.passes) <==> PlanOf(r).Enlarges(0) && PlanOf(r).Fits(r.passes)
  {
    var p := PlanOf(r);
    AcceptedExactly(r);
    if p.Enlarges(0) {
      FirstPassRises(r);
      GridIsSteady(r);
      hide PlanOf, Plan.Accepts, Plan.Enlarges, Plan.Fits, Plan.RefusedEarly, RisingPlan, SteadyPlan;
      SteadyEnlarges(p);
      if p.RefusedEarly(r.passes) {
        EarlyRefusalIsSafe(p, r.passes);
      }
    }
  }

  /** Each grid axis that grows at all bounds the number of accepted passes. */
  lemma AcceptedPassesAreFew(r: Request)
    requires r.WellFormed()
    ensures PlanOf(r).Accepts(r.passes) ==>
      && (r.width % r.multiple == 0 && FirstWidth(r) > r.width ==> r.width + r.multiple * r.passes <= MAXIMUM)
      && (r.height % r.multiple == 0 && FirstHeight(r) > r.height ==> r.height + r.multiple * r.passes <= MAXIMUM)
  {
    PlanStarts(r);
    FirstOnGrid(r);
    hide PlanOf, Plan.W, Plan.H, FirstWidth, FirstHeight, Request.WellFormed;
    if r.width % r.multiple == 0 && FirstWidth(r) > r.width {
      WholeCells(r.width, FirstWidth(r), r.multiple);
      AtLeastTimes(FirstWidth(r) - r.width, r.multiple, r.passes);
    }
    if r.height % r.multiple == 0 && FirstHeight(r) > r.height {
      WholeCells(r.height, FirstHeight(r), r.multiple);
      AtLeastTimes(FirstHeight(r) - r.height, r.multiple, r.passes);
    }
  }

  lemma WholeCells(a: int, b: int, m: nat)
    requires m > 0 && a % m == 0 && b % m == 0 && a < b
    ensures b - a >= m
  {
    var x, y := a / m, b / m;
    assert a == x * m && b == y * m;
    assert (y - x) * m == b - a;
    assert y - x <= 0 ==> (y - x) * m <= 0;
    assert y - x >= 1 ==> (y - x) * m >= m;
  }

  lemma AtLeastTimes(a: int, b: int, n: nat)
    requires a >= b
    ensures a * n >= b * n
  {
  }

  const NARROW := Request(2147483637, 8, 4, None, Some(2147483640), Some(16), 8)

  /**
   Off the grid the early refusal can be wrong: this width reaches the grid on the first pass and then
   stays, and this height doubles four times, so every size fits; three extra pixels times four passes
   exceed the bound.
   */
  lemma EarlyRefusalCanBeWrong()
    ensures NARROW.WellFormed() && PlanOf(NARROW).Climbs(NARROW.passes) && PlanOf(NARROW).RefusedEarly(NARROW.passes)
  {
    var p := PlanOf(NARROW);
    var fx, fy := 2147483640 as real / 2147483637 as real, 16 as real / 8 as real;
    hide ScaledDimension;
    ProportionalIsScaled(2147483640, 2147483637, 2147483640, 8);
    ProportionalIsScaled(16, 8, 16, 8);
    ProportionalIsScaled(32, 8, 16, 8);
    ProportionalIsScaled(64, 8, 16, 8);
    NarrowStep(p, 1, 16);
    NarrowStep(p, 2, 32);
    NarrowStep(p, 3, 64);
    hide PlanOf, Chain;
    assert p.Climbs(1);
    assert p.Climbs(2);
    assert p.Climbs(3);
  }

  lemma NarrowStep(p: Plan, k: nat, height: nat)
    requires p == PlanOf(NARROW) && k > 0 && p.W(k) == 2147483640 && p.H(k) == height
    requires ProportionalDimension(height, 8, 16, 8) == 2 * height
    ensures p.W(k + 1) == 2147483640 && p.H(k + 1) == 2 * height
  {
    hide ScaledDimension;
    PlanStarts(NARROW);
    ProportionalIsScaled(2147483640, 2147483637, 2147483640, 8);
    ProportionalIsScaled(height, 8, 16, 8);
    ChainStep(p.width, p.firstWidth, p.factorX, 8, k);
    ChainStep(p.height, p.firstHeight, p.factorY, 8, k);
    hide Chain;
  }
}

/**
 The bounded arithmetic of schedule expressions (reference/diffusers/deforum_schedules.py, Expression).
 Numbers are exact reals; the transcendental functions and powers are given from outside and may fail.
 */
module ScheduleExpressions {
  import opened Options
  import opened Texts

  const LIMIT: real := 1000000000000.0
  const FUNCTIONS := {"sin", "cos", "tan", "sqrt", "exp", "log", "floor", "ceil", "abs", "min", "max"}

  datatype Operator = Add | Sub | Mult | Div | Mod | Pow

  /** Other stands for every construct the interpreter does not know. */
  datatype Node =
    | Constant(value: real)
    | Name(id: string)
    | Unary(negative: bool, operand: Node)
    | Binary(op: Operator, left: Node, right: Node)
    | Call(function_: string, args: seq<Node>, keywords: bool)
    | Other(nodes: nat, mentionsT: bool)

  datatype Environment = Environment(t: int, maxF: int, fps: real)

  datatype Library = Library(
    call: (string, seq<real>) -> Option<real>, power: (real, real) -> Option<real>, pi: real, e: real,
    parse: string -> Option<Node>)

  /** Syntax nodes, counting operators and name contexts as the tree walk does. */
  function Size(node: Node): nat {
    match node
    case Constant(_) => 1
    case Name(_) => 2
    case Unary(_, operand) => 2 + Size(operand)
    case Binary(_, left, right) => 2 + Size(left) + Size(right)
    case Call(_, args, _) => 3 + SizeAll(args)
    case Other(nodes, _) => nodes
  }

  function SizeAll(args: seq<Node>): nat {
    if args == [] then 0 else Size(args[0]) + SizeAll(args[1..])
  }

  /** Whether the name t occurs anywhere, even as the name of a called function. */
  predicate Dynamic(node: Node) {
    match node
    case Constant(_) => false
    case Name(id) => id == "t"
    case Unary(_, operand) => Dynamic(operand)
    case Binary(_, left, right) => Dynamic(left) || Dynamic(right)
    case Call(name, args, _) => name == "t" || AnyDynamic(args)
    case Other(_, mentionsT) => mentionsT
  }

  predicate AnyDynamic(args: seq<Node>) {
    args != [] && (Dynamic(args[0]) || AnyDynamic(args[1..]))
  }

  function Compile(text: string, lib: Library): Option<Node> {
    if |text| > 1024 then None
    else
      var tree := lib.parse(Strip(text));
      if tree.Some? && Size(tree.value) > 128 then None else tree
  }

  function Bounded(value: real): Option<real> {
    if -LIMIT <= value <= LIMIT then Some(value) else None
  }

  function Variable(id: string, env: Environment, lib: Library): Option<real> {
    if id == "t" then Some(env.t as real)
    else if id == "max_f" then Some(env.maxF as real)
    else if id == "fps" then Some(env.fps)
    else if id == "pi" then Some(lib.pi)
    else if id == "e" then Some(lib.e)
    else None
  }

  function Apply(op: Operator, left: real, right: real, lib: Library): Option<real> {
    match op
    case Add => Some(left + right)
    case Sub => Some(left - right)
    case Mult => Some(left * right)
    case Div => if right == 0.0 then None else Some(left / right)
    case Mod => if right == 0.0 then None else Some(left - (left / right).Floor as real * right)
    case Pow => if -32.0 <= right <= 32.0 then lib.power(left, right) else None
  }

  /** Every node's value is bounded, not only the last. */
  function Evaluate(node: Node, env: Environment, lib: Library): (v: Option<real>)
    ensures v.Some? ==> -LIMIT <= v.value <= LIMIT
    decreases node
  {
    var raw := match node
      case Constant(value) => Some(value)
      case Name(id) => Variable(id, env, lib)
      case Unary(negative, operand) =>
        var value := Evaluate(operand, env, lib);
        if value.None? then None else Some(if negative then -value.value else value.value)
      case Binary(op, left, right) =>
        var a, b := Evaluate(left, env, lib), Evaluate(right, env, lib);
        if a.None? || b.None? then None else Apply(op, a.value, b.value, lib)
      case Call(name, args, keywords) =>
        if name !in FUNCTIONS || keywords || !(1 <= |args| <= 4) then None
        else
          var values := EvaluateAll(args, env, lib);
          if values.None? then None else lib.call(name, values.value)
      case Other(_, _) => None;
    if raw.None? then None else Bounded(raw.value)
  }

  function EvaluateAll(args: seq<Node>, env: Environment, lib: Library): Option<seq<real>>
    decreases args
  {
    if args == [] then Some([])
    else
      var first, rest := Evaluate(args[0], env, lib), EvaluateAll(args[1..], env, lib);
      if first.None? || rest.None? then None else Some([first.value] + rest.value)
  }

  /** An expression that does not mention t has one value, or one failure, for all frames. */
  lemma {:induction false} StaticIsConstant(node: Node, a: Environment, b: Environment, lib: Library)
    requires !Dynamic(node) && a.maxF == b.maxF && a.fps == b.fps
    ensures Evaluate(node, a, lib) == Evaluate(node, b, lib)
    decreases node
  {
    match node
    case Unary(_, operand) => StaticIsConstant(operand, a, b, lib);
    case Binary(_, left, right) =>
      StaticIsConstant(left, a, b, lib);
      StaticIsConstant(right, a, b, lib);
    case Call(_, args, _) => StaticAllConstant(args, a, b, lib);
    case _ =>
  }

  lemma {:induction false} StaticAllConstant(args: seq<Node>, a: Environment, b: Environment, lib: Library)
    requires !AnyDynamic(args) && a.maxF == b.maxF && a.fps == b.fps
    ensures EvaluateAll(args, a, lib) == EvaluateAll(args, b, lib)
    decreases args
  {
    if args != [] {
      StaticIsConstant(args[0], a, b, lib);
      StaticAllConstant(args[1..], a, b, lib);
    }
  }

  // ---- What the operators mean ----

  /** Subtraction undoes addition. */
  lemma SumLaws(a: real, b: real, lib: Library)
    ensures Apply(Add, a, b, lib).Some? && Apply(Sub, Apply(Add, a, b, lib).value, b, lib) == Some(a)
    ensures Apply(Sub, a, b, lib).Some? && Apply(Add, Apply(Sub, a, b, lib).value, b, lib) == Some(a)
    ensures Apply(Add, a, b, lib) == Apply(Add, b, a, lib) && Apply(Add, a, 0.0, lib) == Some(a)
  {
  }

  /** Multiplying adds as often as the factor says. */
  lemma ProductLaws(a: real, b: real, lib: Library)
    ensures Apply(Mult, a, b, lib) == Apply(Mult, b, a, lib) && Apply(Mult, a, 1.0, lib) == Some(a)
    ensures Apply(Mult, a, b, lib).Some? && Apply(Mult, a, b + 1.0, lib) == Apply(Add, Apply(Mult, a, b, lib).value, a, lib)
  {
    Expand(b, 1.0, a);
  }

  /** Division undoes multiplication, and fails for zero alone. */
  lemma DivisionLaw(a: real, b: real, q: real, lib: Library)
    ensures Apply(Div, a, b, lib) == Some(q) <==> b != 0.0 && Apply(Mult, q, b, lib) == Some(a)
  {
    ProductIs(q, b, lib);
    if b != 0.0 {
      QuotientExactly(a, b, q);
    }
  }

  lemma ProductIs(a: real, b: real, lib: Library)
    ensures forall c: real :: Apply(Mult, a, b, lib) == Some(c) <==> a * b == c
  {
  }

  lemma QuotientExactly(a: real, b: real, q: real)
    requires b != 0.0
    ensures a / b == q <==> q * b == a
  {
    var d := a / b;
    assert d * b == a;
    if q * b == a {
      Cancel(q, d, b, a);
    }
  }

  lemma Cancel(x: real, y: real, b: real, c: real)
    requires b != 0.0 && x * b == c && y * b == c
    ensures x == y
  {
  }

  lemma Expand(a: real, b: real, c: real)
    ensures (a + b) * c == a * c + b * c && c * (a + b) == c * a + c * b && 1.0 * c == c && c * 1.0 == c
  {
  }

  lemma Quotient(a: real, b: real)
    requires b != 0.0
    ensures a / b * b == a
  {
  }

  function Multiple(q: int, b: real): real { q as real * b }

  /** A remainder is left by a whole multiple of the divisor, is less than the divisor and has its sign. */
  lemma RemainderLaw(a: real, b: real, lib: Library)
    ensures if b == 0.0 then Apply(Mod, a, b, lib).None?
            else Apply(Mod, a, b, lib).Some? && IsRemainder(Apply(Mod, a, b, lib).value, a, b)
  {
    if b != 0.0 {
      var q := (a / b).Floor;
      Quotient(a, b);
      RemainderSize(a, b, a / b, q as real, Apply(Mod, a, b, lib).value);
      assert a == Multiple(q, b) + Apply(Mod, a, b, lib).value;
    }
  }

  ghost predicate IsRemainder(r: real, a: real, b: real) {
    && (exists q: int :: a == Multiple(q, b) + r)
    && if b > 0.0 then 0.0 <= r < b else b < r <= 0.0
  }

  lemma RemainderSize(a: real, b: real, x: real, q: real, r: real)
    requires b != 0.0 && x * b == a && q <= x < q + 1.0 && r == a - q * b
    ensures if b > 0.0 then 0.0 <= r < b else b < r <= 0.0
  {
    var f := x - q;
    Expand(f, q, b);
    assert f + q == x && r == f * b;
    Fraction(f, b, r);
  }

  lemma Fraction(f: real, b: real, r: real)
    requires 0.0 <= f < 1.0 && b != 0.0 && r == f * b
    ensures if b > 0.0 then 0.0 <= r < b else b < r <= 0.0
  {
    Expand(1.0 - f, f, b);
    SignOfProduct(1.0 - f, b);
    SignOfProduct(f, b);
  }

  lemma SignOfProduct(f: real, b: real)
    ensures f > 0.0 && b > 0.0 ==> f * b > 0.0
    ensures f > 0.0 && b < 0.0 ==> f * b < 0.0
    ensures f == 0.0 ==> f * b == 0.0
  {
  }

  /** A minus sign twice is none, a difference adds what is negated, and a constant has a value exactly within the limit. */
  lemma SignLaws(x: Node, y: Node, env: Environment, lib: Library)
    ensures Evaluate(Unary(true, Unary(true, x)), env, lib) == Evaluate(x, env, lib) == Evaluate(Unary(false, x), env, lib)
    ensures Evaluate(Binary(Sub, x, y), env, lib) == Evaluate(Binary(Add, x, Unary(true, y)), env, lib)
    ensures forall v: real :: Evaluate(Constant(v), env, lib) == if -1000000000000.0 <= v <= 1000000000000.0 then Some(v) else None
    ensures Evaluate(x, env, lib).None? || Evaluate(y, env, lib).None? ==>
      forall op :: Evaluate(Binary(op, x, y), env, lib).None?
  {
  }

  /** The names there are, and no others. */
  lemma NamesExactly(id: string, env: Environment, lib: Library)
    ensures Evaluate(Name(id), env, lib).Some? ==> id in {"t", "max_f", "fps", "pi", "e"}
    ensures env.t <= 1000000000000 && env.t >= 0 ==> Evaluate(Name("t"), env, lib) == Evaluate(Constant(env.t as real), env, lib) == Some(env.t as real)
    ensures Evaluate(Name("max_f"), env, lib) == Evaluate(Constant(env.maxF as real), env, lib)
    ensures Evaluate(Name("fps"), env, lib) == Evaluate(Constant(env.fps), env, lib)
    ensures Evaluate(Name("pi"), env, lib) == Evaluate(Constant(lib.pi), env, lib)
    ensures Evaluate(Name("e"), env, lib) == Evaluate(Constant(lib.e), env, lib)
  {
  }

  // ---- Calls, powers and limits ----

  /** Arguments are evaluated one by one, in their order. */
  lemma {:induction false} ArgumentsExactly(args: seq<Node>, env: Environment, lib: Library, values: seq<real>)
    ensures EvaluateAll(args, env, lib) == Some(values) <==>
      |values| == |args| && forall i :: 0 <= i < |args| ==> Evaluate(args[i], env, lib) == Some(values[i])
    decreases args
  {
    hide Evaluate;
    if args != [] && values != [] {
      ArgumentsExactly(args[1..], env, lib, values[1..]);
      assert values == [values[0]] + values[1..];
      assert forall i :: 1 <= i < |args| ==> args[i] == args[1..][i - 1];
      assert forall i :: 1 <= i < |values| ==> values[i] == values[1..][i - 1];
    }
  }

  /** A call has a value exactly when its function is known, has one to four arguments and no named ones, and gives one. */
  lemma CallExactly(name: string, args: seq<Node>, keywords: bool, env: Environment, lib: Library, v: real)
    ensures Evaluate(Call(name, args, keywords), env, lib) == Some(v) <==>
      && name in FUNCTIONS && !keywords && 1 <= |args| <= 4 && -1000000000000.0 <= v <= 1000000000000.0
      && exists values :: |values| == |args| && lib.call(name, values) == Some(v)
           && forall i :: 0 <= i < |args| ==> Evaluate(args[i], env, lib) == Some(values[i])
  {
    forall values ensures EvaluateAll(args, env, lib) == Some(values) <==>
      |values| == |args| && forall i :: 0 <= i < |args| ==> Evaluate(args[i], env, lib) == Some(values[i])
    {
      ArgumentsExactly(args, env, lib, values);
    }
  }

  /** Exponents beyond 32 are refused. */
  lemma PowerLaw(a: real, b: real, lib: Library)
    ensures Apply(Pow, a, b, lib) == if b < -32.0 || b > 32.0 then None else lib.power(a, b)
  {
  }

  /** The nodes of a tree walk: each construct, its operator or name context, and what is below it. */
  function Walk(node: Node): seq<string> {
    match node
    case Constant(_) => ["Constant"]
    case Name(_) => ["Name", "Load"]
    case Unary(_, operand) => ["UnaryOp", "operator"] + Walk(operand)
    case Binary(_, left, right) => ["BinOp", "operator"] + Walk(left) + Walk(right)
    case Call(_, args, _) => ["Call", "Name", "Load"] + WalkAll(args)
    case Other(nodes, _) => seq(nodes, _ => "other")
  }

  function WalkAll(args: seq<Node>): seq<string> {
    if args == [] then [] else Walk(args[0]) + WalkAll(args[1..])
  }

  lemma {:induction false} SizeCounts(node: Node)
    ensures Size(node) == |Walk(node)|
    decreases node
  {
    match node
    case Unary(_, operand) => SizeCounts(operand);
    case Binary(_, left, right) =>
      SizeCounts(left);
      SizeCounts(right);
    case Call(_, args, _) => SizesCount(args);
    case _ =>
  }

  lemma {:induction false} SizesCount(args: seq<Node>)
    ensures SizeAll(args) == |WalkAll(args)|
    decreases args
  {
    if args != [] {
      SizeCounts(args[0]);
      SizesCount(args[1..]);
    }
  }

  /** A text compiles exactly when it has at most 1024 characters and parses to at most 128 nodes. */
  lemma CompiledExactly(text: string, lib: Library, tree: Node)
    ensures Compile(text, lib) == Some(tree) <==> |text| <= 1024 && lib.parse(Strip(text)) == Some(tree) && |Walk(tree)| <= 128
  {
    SizeCounts(tree);
    hide Strip, Size;
  }

  // ---- Where t occurs ----

  function NamesOf(node: Node): set<string> {
    match node
    case Constant(_) => {}
    case Name(id) => {id}
    case Unary(_, operand) => NamesOf(operand)
    case Binary(_, left, right) => NamesOf(left) + NamesOf(right)
    case Call(name, args, _) => {name} + NamesOfAll(args)
    case Other(_, mentionsT) => if mentionsT then {"t"} else {}
  }

  function NamesOfAll(args: seq<Node>): set<string> {
    if args == [] then {} else NamesOf(args[0]) + NamesOfAll(args[1..])
  }

  /** An expression is dynamic exactly when t is one of its names. */
  lemma {:induction false} DynamicExactly(node: Node)
    ensures Dynamic(node) <==> "t" in NamesOf(node)
    decreases node
  {
    match node
    case Unary(_, operand) => DynamicExactly(operand);
    case Binary(_, left, right) =>
      DynamicExactly(left);
      DynamicExactly(right);
    case Call(_, args, _) => AnyDynamicExactly(args);
    case _ =>
  }

  lemma {:induction false} AnyDynamicExactly(args: seq<Node>)
    ensures AnyDynamic(args) <==> "t" in NamesOfAll(args)
    decreases args
  {
    if args != [] {
      DynamicExactly(args[0]);
      AnyDynamicExactly(args[1..]);
    }
  }
}

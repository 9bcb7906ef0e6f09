/** Rewriting an expression in one variable to slope and offset, and solving it, over exact reals. */
module Solver {
  import opened Wrappers

  datatype Op = Add | Sub | Mul | Quo | OtherOp

  /** The syntax tree. A literal that does not parse as a number has no value. */
  datatype Expr =
    | Ident(name: string)
    | Binary(x: Expr, op: Op, y: Expr)
    | Paren(inner: Expr)
    | BasicLit(value: Option<real>)
    | OtherNode

  datatype Error =
    | BadLiteral
    | UnsupportedNode
    | UnsupportedOperation
    | OnlyLinear
    | VariableInDenominator
    | NotOneVariable
    | ZeroSlope

  datatype Result<+T> = Ok(value: T) | Err(error: Error)

  // ---------- Numbers ----------

  /** A floating-point number without rounding: a real, or one of the infinities and NaN. */
  datatype Float = Finite(x: real) | NonFinite

  /** slope * x + offset */
  datatype Affine = Affine(slope: Float, offset: Float)

  function FAdd(a: Float, b: Float): Float {
    if a.Finite? && b.Finite? then Finite(a.x + b.x) else NonFinite
  }

  function FSub(a: Float, b: Float): Float {
    if a.Finite? && b.Finite? then Finite(a.x - b.x) else NonFinite
  }

  /** Zero times an infinity is NaN. */
  function FMul(a: Float, b: Float): Float {
    if a.Finite? && b.Finite? then Finite(a.x * b.x) else NonFinite
  }

  /** A real over an infinity would be a real again. It does not occur. */
  function FDiv(a: Float, b: Float): Float
    requires b == NonFinite ==> a == NonFinite
  {
    if a.Finite? && b.x != 0.0 then Finite(a.x / b.x) else NonFinite
  }

  /** Infinities and NaN differ from zero. */
  predicate IsZero(a: Float) {
    a == Finite(0.0)
  }

  // ---------- What an expression means ----------

  /** No value where an identifier is not bound, a divisor is zero or the syntax is not supported. */
  function Eval(e: Expr, env: map<string, real>): Option<real> {
    match e
    case Ident(name) => if name in env then Some(env[name]) else None
    case Paren(inner) => Eval(inner, env)
    case BasicLit(value) => value
    case OtherNode => None
    case Binary(x, op, y) =>
      match (Eval(x, env), Eval(y, env))
      case (Some(a), Some(b)) => EvalOp(a, op, b)
      case _ => None
  }

  function EvalOp(a: real, op: Op, b: real): Option<real> {
    match op
    case Add => Some(a + b)
    case Sub => Some(a - b)
    case Mul => Some(a * b)
    case Quo => if b == 0.0 then None else Some(a / b)
    case OtherOp => None
  }

  /** The identifiers of an expression, one entry an occurrence. */
  function Vars(e: Expr): seq<string> {
    match e
    case Ident(name) => [name]
    case Binary(x, _, y) => Vars(x) + Vars(y)
    case Paren(inner) => Vars(inner)
    case _ => []
  }

  // ---------- simpleExpression and processBinaryExpr ----------

  /** Slope and offset are both finite, or neither is. */
  predicate Together(f: Affine) {
    f.slope.Finite? <==> f.offset.Finite?
  }

  function Simple(e: Expr): (r: Result<Affine>)
    ensures r.Ok? ==> Together(r.value)
    ensures r != Err(ZeroSlope) && r != Err(NotOneVariable)
  {
    match e
    case Ident(_) => Ok(Affine(Finite(1.0), Finite(0.0)))
    case Paren(inner) => Simple(inner)
    case BasicLit(None) => Err(BadLiteral)
    case BasicLit(Some(v)) => Ok(Affine(Finite(0.0), Finite(v)))
    case OtherNode => Err(UnsupportedNode)
    case Binary(x, op, y) =>
      match Simple(x)
      case Err(error) => Err(error)
      case Ok(f) =>
        match Simple(y)
        case Err(error) => Err(error)
        case Ok(g) => Combine(f, op, g)
  }

  function Combine(f: Affine, op: Op, g: Affine): (r: Result<Affine>)
    requires Together(f) && Together(g)
    ensures r.Ok? ==> Together(r.value)
    ensures r != Err(ZeroSlope) && r != Err(NotOneVariable)
  {
    match op
    case Add => Ok(Affine(FAdd(f.slope, g.slope), FAdd(f.offset, g.offset)))
    case Sub => Ok(Affine(FSub(f.slope, g.slope), FSub(f.offset, g.offset)))
    case Mul =>
      if !IsZero(f.slope) && !IsZero(g.slope) then Err(OnlyLinear)
      else Ok(Affine(FAdd(FMul(f.slope, g.offset), FMul(f.offset, g.slope)), FMul(f.offset, g.offset)))
    case Quo =>
      if !IsZero(g.slope) then Err(VariableInDenominator)
      else Ok(Affine(FDiv(f.slope, g.offset), FDiv(f.offset, g.offset)))
    case OtherOp => Err(UnsupportedOperation)
  }

  predicate Defined(f: Affine) {
    f.slope.Finite? && f.offset.Finite?
  }

  function Line(slope: real, offset: real, x: real): real {
    slope * x + offset
  }

  /** The value of an affine form, if it has any. */
  function ValueAt(f: Affine, x: real): Option<real> {
    if Defined(f) then Some(Line(f.slope.x, f.offset.x, x)) else None
  }

  /** Every identifier is bound to x. */
  ghost predicate Binds(env: map<string, real>, e: Expr, x: real) {
    forall v <- Vars(e) :: v in env && env[v] == x
  }

  /** Rewriting keeps the meaning: for every x the expression evaluates to slope * x + offset, and has no value where these are not finite. */
  lemma {:induction false} SimpleKeepsMeaning(e: Expr, env: map<string, real>, x: real)
    requires Simple(e).Ok? && Binds(env, e, x)
    ensures Eval(e, env) == ValueAt(Simple(e).value, x)
  {
    hide Line, Combine, EvalOp;
    match e {
      case Binary(l, op, r) =>
        SimpleKeepsMeaning(l, env, x);
        SimpleKeepsMeaning(r, env, x);
        CombineKeepsMeaning(Simple(l).value, op, Simple(r).value, x);
      case Paren(inner) =>
        SimpleKeepsMeaning(inner, env, x);
      case Ident(name) =>
        assert name in Vars(e);
        Leaf(1.0, 0.0, x);
      case BasicLit(Some(v)) =>
        Leaf(0.0, v, x);
      case _ =>
    }
  }

  lemma Leaf(slope: real, offset: real, x: real)
    ensures slope == 0.0 ==> Line(slope, offset, x) == offset
    ensures slope == 1.0 ==> Line(slope, offset, x) == x + offset
  {
  }

  /** What an operator makes of two values, if there are two. */
  function EvalBoth(a: Option<real>, op: Op, b: Option<real>): Option<real> {
    if a == None || b == None then None else EvalOp(a.value, op, b.value)
  }

  lemma CombineKeepsMeaning(f: Affine, op: Op, g: Affine, x: real)
    requires Together(f) && Together(g) && Combine(f, op, g).Ok?
    ensures EvalBoth(ValueAt(f, x), op, ValueAt(g, x)) == ValueAt(Combine(f, op, g).value, x)
  {
    hide Line, EvalOp;
    if Defined(f) && Defined(g) {
      match op {
        case Mul => ProductKeeps(f, g, x);
        case Quo => QuotientKeeps(f, g, x);
        case _ => SumKeeps(f, op, g, x);
      }
    }
  }

  lemma SumKeeps(f: Affine, op: Op, g: Affine, x: real)
    requires Defined(f) && Defined(g) && (op == Add || op == Sub)
    ensures EvalBoth(ValueAt(f, x), op, ValueAt(g, x)) == ValueAt(Combine(f, op, g).value, x)
  {
    hide Line;
    SumMeans(f.slope.x, f.offset.x, g.slope.x, g.offset.x, x);
  }

  lemma ProductKeeps(f: Affine, g: Affine, x: real)
    requires Defined(f) && Defined(g) && Combine(f, Mul, g).Ok?
    ensures EvalBoth(ValueAt(f, x), Mul, ValueAt(g, x)) == ValueAt(Combine(f, Mul, g).value, x)
  {
    hide Line, EvalOp;
    var a, b, c, d := f.slope.x, f.offset.x, g.slope.x, g.offset.x;
    ProductMeans(a, b, c, d, x);
    EvalProduct(Line(a, b, x), Line(c, d, x), Line(a * d + b * c, b * d, x));
    assert FMul(f.slope, g.offset) == Finite(a * d) && FMul(f.offset, g.slope) == Finite(b * c);
    assert Combine(f, Mul, g).value == Affine(Finite(a * d + b * c), Finite(b * d));
  }

  lemma EvalProduct(p: real, q: real, r: real)
    requires p * q == r
    ensures EvalOp(p, Mul, q) == Some(r)
  {
  }

  lemma QuotientKeeps(f: Affine, g: Affine, x: real)
    requires Defined(f) && Defined(g) && Combine(f, Quo, g).Ok?
    ensures EvalBoth(ValueAt(f, x), Quo, ValueAt(g, x)) == ValueAt(Combine(f, Quo, g).value, x)
  {
    hide Line;
    QuotientMeans(f.slope.x, f.offset.x, g.offset.x, x);
  }

  lemma SumMeans(a: real, b: real, c: real, d: real, x: real)
    ensures Line(a, b, x) + Line(c, d, x) == Line(a + c, b + d, x)
    ensures Line(a, b, x) - Line(c, d, x) == Line(a - c, b - d, x)
  {
  }

  lemma ProductMeans(a: real, b: real, c: real, d: real, x: real)
    requires a == 0.0 || c == 0.0
    ensures Line(a, b, x) * Line(c, d, x) == Line(a * d + b * c, b * d, x)
  {
    if a == 0.0 {
      assert b * (c * x + d) == b * c * x + b * d;
    } else {
      assert (a * x + b) * d == a * d * x + b * d;
    }
  }

  /** The denominator is level: its value is d everywhere. */
  lemma QuotientMeans(a: real, b: real, d: real, x: real)
    ensures Line(0.0, d, x) == d
    ensures d != 0.0 ==> Line(a, b, x) / d == Line(a / d, b / d, x)
  {
    if d != 0.0 {
      var p, q := a / d, b / d;
      assert a == p * d && b == q * d;
      assert a * x == p * x * d;
      DivUnique(a * x + b, d, p * x + q);
    }
  }

  lemma DivUnique(n: real, d: real, q: real)
    requires d != 0.0 && n == q * d
    ensures n / d == q
  {
  }

  // ---------- SolveExpression ----------

  predicate OneVariable(e: Expr) {
    Vars(e) != [] && forall v <- Vars(e) :: v == Vars(e)[0]
  }

  function Solve(e: Expr, value: real): Result<Float> {
    if !OneVariable(e) then Err(NotOneVariable)
    else match Simple(e)
      case Err(error) => Err(error)
      case Ok(f) => if IsZero(f.slope) then Err(ZeroSlope) else Ok(FDiv(FSub(Finite(value), f.offset), f.slope))
  }

  /** The expression with its variable set to x. */
  function EvalAt(e: Expr, x: real): Option<real>
    requires OneVariable(e)
  {
    Eval(e, map[Vars(e)[0] := x])
  }

  /** The value solved for is the one and only at which the expression evaluates to the value asked for. */
  lemma SolveFindsTheRoot(e: Expr, value: real, x: real)
    requires Solve(e, value).Ok?
    ensures EvalAt(e, x) == Some(value) <==> Solve(e, value).value == Finite(x)
  {
    hide Eval, Simple;
    var f := Simple(e).value;
    SimpleKeepsMeaning(e, map[Vars(e)[0] := x], x);
    if Defined(f) {
      RootIsUnique(f.slope.x, f.offset.x, value, x);
    }
  }

  lemma RootIsUnique(slope: real, offset: real, value: real, x: real)
    requires slope != 0.0
    ensures Line(slope, offset, x) == value <==> x == (value - offset) / slope
  {
    if Line(slope, offset, x) == value {
      DivUnique(value - offset, slope, x);
    }
  }

  /** An infinity or NaN is returned, without an error, exactly for expressions that have no value anywhere. */
  lemma NoValueIsNotFinite(e: Expr, value: real, x: real)
    requires Solve(e, value).Ok?
    ensures Solve(e, value).value == NonFinite <==> EvalAt(e, x) == None
  {
    SimpleKeepsMeaning(e, map[Vars(e)[0] := x], x);
  }

  /** A zero slope is refused rightly: the expression has the same value everywhere. */
  lemma ZeroSlopeIsConstant(e: Expr, value: real, x: real, y: real)
    requires Solve(e, value) == Err(ZeroSlope)
    ensures EvalAt(e, x) == EvalAt(e, y) != None
  {
    SimpleKeepsMeaning(e, map[Vars(e)[0] := x], x);
    SimpleKeepsMeaning(e, map[Vars(e)[0] := y], y);
  }

  // ---------- What is refused ----------

  /** All identifiers of e set to x. */
  function Everywhere(e: Expr, x: real): map<string, real> {
    map v | v in Vars(e) :: x
  }

  ghost predicate HasValue(e: Expr, x: real, c: real) {
    Eval(e, Everywhere(e, x)) == Some(c)
  }

  /** One value, whatever x is. */
  ghost predicate Constant(e: Expr) {
    exists c :: AlwaysHasValue(e, c)
  }

  ghost predicate AlwaysHasValue(e: Expr, c: real) {
    forall x: real :: HasValue(e, x, c)
  }

  /** The slope is zero exactly in parts that are constant. */
  lemma SlopeShows(e: Expr)
    requires Simple(e).Ok?
    ensures IsZero(Simple(e).value.slope) <==> Constant(e)
  {
    var f := Simple(e).value;
    forall x: real
      ensures Eval(e, Everywhere(e, x)) == ValueAt(f, x)
    {
      SimpleKeepsMeaning(e, Everywhere(e, x), x);
    }
    if IsZero(f.slope) {
      assert AlwaysHasValue(e, f.offset.x);
    }
    if Constant(e) {
      var c :| AlwaysHasValue(e, c);
      assert HasValue(e, 0.0, c) && HasValue(e, 1.0, c);
    }
  }

  /** The refusal that an expression causes itself, when its operands are not refused. */
  ghost function Fault(e: Expr): Option<Error> {
    match e
    case BasicLit(None) => Some(BadLiteral)
    case OtherNode => Some(UnsupportedNode)
    case Binary(x, op, y) =>
      if op == Mul && !Constant(x) && !Constant(y) then Some(OnlyLinear)
      else if op == Quo && !Constant(y) then Some(VariableInDenominator)
      else if op == OtherOp then Some(UnsupportedOperation)
      else None
    case _ => None
  }

  /** The first fault of an expression, operands first, left to right. */
  ghost function FirstFault(e: Expr): Option<Error> {
    match e
    case Binary(x, _, y) =>
      if FirstFault(x) != None then FirstFault(x)
      else if FirstFault(y) != None then FirstFault(y)
      else Fault(e)
    case Paren(inner) => FirstFault(inner)
    case _ => Fault(e)
  }

  /** Rewriting fails exactly when some part is at fault, and reports the first one. */
  lemma {:induction false} RefusedIffFaulty(e: Expr)
    ensures match Simple(e)
            case Ok(_) => FirstFault(e) == None
            case Err(error) => FirstFault(e) == Some(error)
  {
    hide Constant;
    match e {
      case Binary(x, _, y) =>
        RefusedIffFaulty(x);
        RefusedIffFaulty(y);
        if Simple(x).Ok? && Simple(y).Ok? {
          SlopeShows(x);
          SlopeShows(y);
        }
      case Paren(inner) =>
        RefusedIffFaulty(inner);
      case _ =>
    }
  }

  /** An expression is solved exactly when it has one variable, no fault and more than one value; every other one is refused, with the reason that comes first. */
  lemma SolvedIff(e: Expr, value: real)
    ensures Solve(e, value).Ok? <==> OneVariable(e) && FirstFault(e) == None && !Constant(e)
    ensures Solve(e, value) == Err(NotOneVariable) <==> !OneVariable(e)
    ensures Solve(e, value) == Err(ZeroSlope) <==> OneVariable(e) && FirstFault(e) == None && Constant(e)
    ensures OneVariable(e) && FirstFault(e) != None ==> Solve(e, value) == Err(FirstFault(e).value)
  {
    hide Constant, FirstFault;
    RefusedIffFaulty(e);
    if Simple(e).Ok? {
      SlopeShows(e);
    }
  }

  /** A fault in a part suffices, even where the whole is linear: x*x - x*x + x is x everywhere, and is refused. */
  lemma RefusedThoughLinear(name: string, value: real, v: real)
    ensures var x := Ident(name);
            var e := Binary(Binary(Binary(x, Mul, x), Sub, Binary(x, Mul, x)), Add, x);
            Solve(e, value) == Err(OnlyLinear) && Eval(e, map[name := v]) == Some(v)
  {
    var x := Ident(name);
    var square, env := Binary(x, Mul, x), map[name := v];
    var zero := Binary(square, Sub, square);
    assert Simple(square) == Err(OnlyLinear);
    assert Simple(zero) == Err(OnlyLinear);
    assert Vars(x) == [name] && Vars(square) == [name, name] && Vars(zero) == [name, name, name, name];
    assert Eval(x, env) == Some(v);
    assert Eval(square, env) == EvalOp(v, Mul, v) != None;
    assert Eval(zero, env) == Some(0.0);
  }

  predicate Part(sub: Expr, e: Expr) {
    sub == e ||
    match e
    case Binary(x, _, y) => Part(sub, x) || Part(sub, y)
    case Paren(inner) => Part(sub, inner)
    case _ => false
  }

  /** The part that makes the rewriting fail: both its operands are affine, and they do not combine. */
  lemma {:induction false} FailingPart(e: Expr) returns (sub: Expr)
    requires Simple(e) == Err(OnlyLinear) || Simple(e) == Err(VariableInDenominator)
    ensures Part(sub, e) && sub.Binary? && Simple(sub.x).Ok? && Simple(sub.y).Ok?
    ensures Combine(Simple(sub.x).value, sub.op, Simple(sub.y).value) == Simple(e)
  {
    match e {
      case Paren(inner) => sub := FailingPart(inner);
      case Binary(x, op, y) =>
        if Simple(x).Err? {
          sub := FailingPart(x);
        } else if Simple(y).Err? {
          sub := FailingPart(y);
        } else {
          sub := e;
        }
    }
  }

  /** The expression is slope * x + offset for every x. */
  ghost predicate IsAffine(e: Expr, slope: real, offset: real) {
    forall x: real :: HasValue(e, x, Line(slope, offset, x))
  }

  /** A product refused as not linear really is not: one part is a product with whose values no slope and offset agree. */
  lemma OnlyLinearIsRight(e: Expr) returns (sub: Expr)
    requires Simple(e) == Err(OnlyLinear)
    ensures Part(sub, e) && sub.Binary? && sub.op == Mul
    ensures forall slope, offset :: !IsAffine(sub, slope, offset)
  {
    sub := FailingPart(e);
    forall slope, offset
      ensures !IsAffine(sub, slope, offset)
    {
      ProductIsNotAffine(sub, slope, offset);
    }
  }

  lemma ProductIsNotAffine(sub: Expr, slope: real, offset: real)
    requires sub.Binary? && Simple(sub.x).Ok? && Simple(sub.y).Ok?
    requires Combine(Simple(sub.x).value, sub.op, Simple(sub.y).value) == Err(OnlyLinear)
    ensures !IsAffine(sub, slope, offset)
  {
    hide Eval, Simple, Line;
    var f, g := Simple(sub.x).value, Simple(sub.y).value;
    EvalBinary(sub, -1.0);
    EvalBinary(sub, 0.0);
    EvalBinary(sub, 1.0);
    if Defined(f) && Defined(g) {
      Bend(f.slope.x, f.offset.x, g.slope.x, g.offset.x, slope, offset);
    }
    assert !(HasValue(sub, -1.0, Line(slope, offset, -1.0)) && HasValue(sub, 0.0, Line(slope, offset, 0.0))
          && HasValue(sub, 1.0, Line(slope, offset, 1.0)));
  }

  lemma EvalBinary(sub: Expr, x: real)
    requires sub.Binary? && Simple(sub.x).Ok? && Simple(sub.y).Ok?
    ensures Eval(sub, Everywhere(sub, x)) == EvalBoth(ValueAt(Simple(sub.x).value, x), sub.op, ValueAt(Simple(sub.y).value, x))
  {
    hide Simple;
    SimpleKeepsMeaning(sub.x, Everywhere(sub, x), x);
    SimpleKeepsMeaning(sub.y, Everywhere(sub, x), x);
  }

  /** The product of two lines that are not level is not a line. */
  lemma Bend(a: real, b: real, c: real, d: real, slope: real, offset: real)
    requires a != 0.0 && c != 0.0
    ensures !(Meets(a, b, c, d, slope, offset, -1.0) && Meets(a, b, c, d, slope, offset, 0.0) && Meets(a, b, c, d, slope, offset, 1.0))
  {
    Ends(a, b);
    Ends(c, d);
    Ends(slope, offset);
    hide Line;
    Rises(a, b, c, d);
  }

  predicate Meets(a: real, b: real, c: real, d: real, slope: real, offset: real, x: real) {
    Line(a, b, x) * Line(c, d, x) == Line(slope, offset, x)
  }

  lemma Ends(a: real, b: real)
    ensures Line(a, b, -1.0) == b - a && Line(a, b, 0.0) == b && Line(a, b, 1.0) == a + b
  {
  }

  lemma Rises(a: real, b: real, c: real, d: real)
    requires a != 0.0 && c != 0.0
    ensures (a + b) * (c + d) + (b - a) * (d - c) != 2.0 * (b * d)
  {
    assert (a + b) * (c + d) + (b - a) * (d - c) - 2.0 * (b * d) == 2.0 * (a * c);
    assert a * c != 0.0;
  }

  /** A denominator with a variable really vanishes somewhere, or has no value itself. */
  lemma DenominatorVanishes(e: Expr) returns (sub: Expr, x: real)
    requires Simple(e) == Err(VariableInDenominator)
    ensures Part(sub, e) && sub.Binary? && sub.op == Quo && Eval(sub, Everywhere(sub, x)) == None
  {
    sub := FailingPart(e);
    var g := Simple(sub.y).value;
    x := if Defined(g) then -g.offset.x / g.slope.x else 0.0;
    EvalBinary(sub, x);
    if Defined(g) {
      assert g.slope.x * (-g.offset.x / g.slope.x) == -g.offset.x;
    }
  }

  // ---------- The loop over the variables ----------

  /** SolveExpression collects the variables in a set and demands exactly one. */
  method SolveExpression(e: Expr, value: real) returns (r: Result<Float>)
    ensures r == Solve(e, value)
  {
    var vars := Vars(e);
    var names: set<string> := {};
    for i := 0 to |vars|
      invariant names == set v | v in vars[..i]
    {
      names := names + {vars[i]};
    }
    assert vars[..|vars|] == vars;
    OneName(vars, names);
    if |names| != 1 {
      return Err(NotOneVariable);
    }
    var simple := Simple(e);
    if simple.Err? {
      return Err(simple.error);
    }
    if IsZero(simple.value.slope) {
      return Err(ZeroSlope);
    }
    return Ok(FDiv(FSub(Finite(value), simple.value.offset), simple.value.slope));
  }

  lemma OneName(vars: seq<string>, names: set<string>)
    requires names == set v | v in vars
    ensures |names| == 1 <==> vars != [] && forall v <- vars :: v == vars[0]
  {
    if |names| == 1 {
      assert vars != [];
      assert vars[0] in names;
      forall v | v in vars
        ensures v == vars[0]
      {
        assert v in names && |names - {vars[0]}| == 0;
      }
    } else if vars != [] && forall v <- vars :: v == vars[0] {
      assert names == {vars[0]};
    }
  }
}

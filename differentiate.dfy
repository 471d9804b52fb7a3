/** `Expression::differentiate` (MyExpression.hpp:252-295): the symbolic derivative of
    a tree with respect to one variable, built with the operator combinators, and its
    agreement with forward-mode (dual-number) differentiation. */
module Derivative {
  import opened Wrappers
  import opened ExprTree
  import opened Evaluation

  /** The derivative tree of a binary node with operands `l`, `r` whose derivatives are
      `dl`, `dr`: the sum, difference, product, quotient and power rules as the source
      writes them. */
  function BinaryDerivative(op: Kind, l: Node, r: Node, dl: Node, dr: Node): (d: Node)
    requires IsBinary(op)
    ensures HasOperands(l) && HasOperands(r) && HasOperands(dl) && HasOperands(dr) ==> HasOperands(d)
    ensures WellFormed(l) && WellFormed(r) && WellFormed(dl) && WellFormed(dr) ==> WellFormed(d)
    ensures Vars(d) <= Vars(l) + Vars(r) + Vars(dl) + Vars(dr)
  {
    match op
    case Addition => Add(dl, dr)
    case Subtraction => Sub(dl, dr)
    case Multiplication => Add(Mul(dl, r), Mul(l, dr))
    case Division => Div(Sub(Mul(dl, r), Mul(l, dr)), Pow(r, NumberNode(2)))
    case Exponentiation => Mul(Pow(l, r), Add(Mul(dr, LnOf(l)), Div(Mul(r, dl), l)))
  }

  /** The chain rule for a host function applied to `l`, whose derivative is `dl`. */
  function UnaryDerivative(op: Kind, l: Node, dl: Node): (d: Node)
    requires IsUnary(op)
    ensures HasOperands(l) && HasOperands(dl) ==> HasOperands(d)
    ensures WellFormed(l) && WellFormed(dl) ==> WellFormed(d)
    ensures Vars(d) <= Vars(l) + Vars(dl)
  {
    match op
    case Sin => Mul(CosOf(l), dl)
    case Cos => Mul(Mul(NumberNode(-1), SinOf(l)), dl)
    case Ln => Div(dl, l)
    case Exp => Mul(ExpOf(l), dl)
  }

  /** `differentiate(var_name)`: constants and other variables give 0, the variable
      itself 1, and a composite node the rule of its kind over its operands and their
      derivatives. The result is well formed when the input is, and mentions no
      variable the input does not. */
  function Differentiate(t: Node, v: string): (d: Node)
    requires HasOperands(t)
    ensures HasOperands(d)
    ensures WellFormed(t) ==> WellFormed(d)
    ensures Vars(d) <= Vars(t)
    decreases t
  {
    if t.kind == Number then
      NumberNode(0)
    else if t.kind == Variable then
      NumberNode(if t.name == v then 1 else 0)
    else if IsBinary(t.kind) then
      var l, r := t.left.node, t.right.node;
      BinaryDerivative(t.kind, l, r, Differentiate(l, v), Differentiate(r, v))
    else
      UnaryDerivative(t.kind, t.left.node, Differentiate(t.left.node, v))
  }

  // The derivative of each kind of composite node, over the derivatives of its operands.

  lemma SumRule(l: Node, r: Node, v: string)
    requires HasOperands(l) && HasOperands(r)
    ensures var dl, dr := Differentiate(l, v), Differentiate(r, v);
      Differentiate(Add(l, r), v) == Add(dl, dr)
  {
  }

  lemma DifferenceRule(l: Node, r: Node, v: string)
    requires HasOperands(l) && HasOperands(r)
    ensures var dl, dr := Differentiate(l, v), Differentiate(r, v);
      Differentiate(Sub(l, r), v) == Sub(dl, dr)
  {
  }

  lemma ProductRule(l: Node, r: Node, v: string)
    requires HasOperands(l) && HasOperands(r)
    ensures var dl, dr := Differentiate(l, v), Differentiate(r, v);
      Differentiate(Mul(l, r), v) == Add(Mul(dl, r), Mul(l, dr))
  {
  }

  lemma QuotientRule(l: Node, r: Node, v: string)
    requires HasOperands(l) && HasOperands(r)
    ensures var dl, dr := Differentiate(l, v), Differentiate(r, v);
      Differentiate(Div(l, r), v) == Div(Sub(Mul(dl, r), Mul(l, dr)), Pow(r, NumberNode(2)))
  {
  }

  lemma PowerRule(l: Node, r: Node, v: string)
    requires HasOperands(l) && HasOperands(r)
    ensures var dl, dr := Differentiate(l, v), Differentiate(r, v);
      Differentiate(Pow(l, r), v) == Mul(Pow(l, r), Add(Mul(dr, LnOf(l)), Div(Mul(r, dl), l)))
  {
  }

  lemma SinRule(l: Node, v: string)
    requires HasOperands(l)
    ensures var dl := Differentiate(l, v); Differentiate(SinOf(l), v) == Mul(CosOf(l), dl)
  {
  }

  lemma CosRule(l: Node, v: string)
    requires HasOperands(l)
    ensures var dl := Differentiate(l, v); Differentiate(CosOf(l), v) == Mul(Mul(NumberNode(-1), SinOf(l)), dl)
  {
  }

  lemma LnRule(l: Node, v: string)
    requires HasOperands(l)
    ensures var dl := Differentiate(l, v); Differentiate(LnOf(l), v) == Div(dl, l)
  {
  }

  lemma ExpRule(l: Node, v: string)
    requires HasOperands(l)
    ensures var dl := Differentiate(l, v); Differentiate(ExpOf(l), v) == Mul(ExpOf(l), dl)
  {
  }

  /** A value paired with its rate of change in one variable (a dual number). */
  datatype Dual = Dual(val: int, der: int)

  /** The rule of calculus for a binary operator: the value and rate of `x op y` from
      the values and rates of `x` and `y`, in the arithmetic `calculate` uses. */
  function BinaryRule(op: Kind, x: Dual, y: Dual, host: Host): Result<Dual, EvalError>
    requires IsBinary(op)
  {
    match op
    case Addition => Success(Dual(x.val + y.val, x.der + y.der))
    case Subtraction => Success(Dual(x.val - y.val, x.der - y.der))
    case Multiplication => Success(Dual(x.val * y.val, x.der * y.val + x.val * y.der))
    case Division =>
      var q :- Divide(x.val, y.val);
      var rate :- Divide(x.der * y.val - x.val * y.der, host.pow(y.val, 2));
      Success(Dual(q, rate))
    case Exponentiation =>
      var p := host.pow(x.val, y.val);
      var ratio :- Divide(y.val * x.der, x.val);
      Success(Dual(p, p * (y.der * host.log(x.val) + ratio)))
  }

  /** The chain rule for a host function, whose rate is `cos`, `-sin`, `1/x` or `exp`. */
  function UnaryRule(op: Kind, x: Dual, host: Host): Result<Dual, EvalError>
    requires IsUnary(op)
  {
    match op
    case Sin => Success(Dual(host.sin(x.val), host.cos(x.val) * x.der))
    case Cos => Success(Dual(host.cos(x.val), -1 * host.sin(x.val) * x.der))
    case Ln =>
      var rate :- Divide(x.der, x.val);
      Success(Dual(host.log(x.val), rate))
    case Exp => Success(Dual(host.exp(x.val), host.exp(x.val) * x.der))
  }

  /** Forward-mode differentiation: a number has rate 0, a variable rate 1 if it is
      `v` and 0 otherwise, and each composite node combines its operands by its rule. */
  function Tangent(t: Node, env: map<string, int>, v: string, host: Host): Result<Dual, EvalError>
    requires HasOperands(t)
    decreases t
  {
    if t.kind == Number then
      Success(Dual(t.value, 0))
    else if t.kind == Variable then
      if t.name in env then Success(Dual(env[t.name], if t.name == v then 1 else 0))
      else Failure(UnboundVariable)
    else if IsBinary(t.kind) then
      var x :- Tangent(t.left.node, env, v, host);
      var y :- Tangent(t.right.node, env, v, host);
      BinaryRule(t.kind, x, y, host)
    else
      var x :- Tangent(t.left.node, env, v, host);
      UnaryRule(t.kind, x, host)
  }

  /** A dual-number result agrees with the evaluations of a tree and of its derivative
      when it succeeds exactly when both evaluations do, with their two values. */
  predicate Pairs(d: Result<Dual, EvalError>, c: Result<int, EvalError>, dc: Result<int, EvalError>) {
    && (d.Success? <==> c.Success? && dc.Success?)
    && (d.Success? ==> d.value == Dual(c.value, dc.value))
  }

  /** The symbolic derivative and forward-mode differentiation agree: evaluating
      `differentiate(v)` under a map gives the rate `Tangent` computes, and `Tangent`
      succeeds exactly when both the tree and its derivative can be evaluated. */
  lemma {:induction false} DerivativeIsForwardMode(t: Node, env: map<string, int>, v: string, host: Host)
    requires HasOperands(t)
    ensures Pairs(Tangent(t, env, v, host), Calculate(t, env, host), Calculate(Differentiate(t, v), env, host))
    decreases t
  {
    if IsBinary(t.kind) {
      var l, r := t.left.node, t.right.node;
      DerivativeIsForwardMode(l, env, v, host);
      DerivativeIsForwardMode(r, env, v, host);
      var dl, dr := Differentiate(l, v), Differentiate(r, v);
      var cl, cr := Calculate(l, env, host), Calculate(r, env, host);
      var tl, tr := Tangent(l, env, v, host), Tangent(r, env, v, host);
      if cl.Failure? || cr.Failure? {
        assert Calculate(t, env, host).Failure?;
      } else if tl.Failure? || tr.Failure? {
        BinaryDerivativeFails(t.kind, l, r, dl, dr, env, host);
      } else {
        BinaryDerivativeAgrees(t.kind, l, r, dl, dr, env, host, tl.value, tr.value);
        assert Calculate(t, env, host) == ApplyBinary(t.kind, cl.value, cr.value, host);
      }
    } else if IsUnary(t.kind) {
      var l := t.left.node;
      DerivativeIsForwardMode(l, env, v, host);
      var dl := Differentiate(l, v);
      var cl, tl := Calculate(l, env, host), Tangent(l, env, v, host);
      if cl.Failure? {
        assert Calculate(t, env, host).Failure?;
      } else if tl.Failure? {
        UnaryDerivativeFails(t.kind, l, dl, env, host);
      } else {
        UnaryDerivativeAgrees(t.kind, l, dl, env, host, tl.value);
        assert Calculate(t, env, host) == Success(ApplyUnary(t.kind, cl.value, host));
      }
    }
  }

  /** When both operands evaluate, an operand's derivative that cannot be evaluated
      makes the derivative tree fail as well. */
  lemma BinaryDerivativeFails(op: Kind, l: Node, r: Node, dl: Node, dr: Node, env: map<string, int>, host: Host)
    requires IsBinary(op) && HasOperands(l) && HasOperands(r) && HasOperands(dl) && HasOperands(dr)
    requires Calculate(l, env, host).Success? && Calculate(r, env, host).Success?
    requires Calculate(dl, env, host).Failure? || Calculate(dr, env, host).Failure?
    ensures Calculate(BinaryDerivative(op, l, r, dl, dr), env, host).Failure?
  {
    match op
    case Addition => BinaryFails(Addition, dl, dr, env, host);
    case Subtraction => BinaryFails(Subtraction, dl, dr, env, host);
    case Multiplication =>
      if Calculate(dl, env, host).Failure? {
        BinaryFails(Multiplication, dl, r, env, host);
      } else {
        BinaryFails(Multiplication, l, dr, env, host);
      }
      BinaryFails(Addition, Mul(dl, r), Mul(l, dr), env, host);
    case Division =>
      if Calculate(dl, env, host).Failure? {
        BinaryFails(Multiplication, dl, r, env, host);
      } else {
        BinaryFails(Multiplication, l, dr, env, host);
      }
      BinaryFails(Subtraction, Mul(dl, r), Mul(l, dr), env, host);
      BinaryFails(Division, Sub(Mul(dl, r), Mul(l, dr)), Pow(r, NumberNode(2)), env, host);
    case Exponentiation =>
      var a, b := Mul(dr, LnOf(l)), Div(Mul(r, dl), l);
      if Calculate(dl, env, host).Failure? {
        BinaryFails(Multiplication, r, dl, env, host);
        BinaryFails(Division, Mul(r, dl), l, env, host);
      } else {
        BinaryFails(Multiplication, dr, LnOf(l), env, host);
      }
      BinaryFails(Addition, a, b, env, host);
      BinaryFails(Multiplication, Pow(l, r), Add(a, b), env, host);
  }

  lemma UnaryDerivativeFails(op: Kind, l: Node, dl: Node, env: map<string, int>, host: Host)
    requires IsUnary(op) && HasOperands(l) && HasOperands(dl)
    requires Calculate(l, env, host).Success? && Calculate(dl, env, host).Failure?
    ensures Calculate(UnaryDerivative(op, l, dl), env, host).Failure?
  {
    match op
    case Sin => BinaryFails(Multiplication, CosOf(l), dl, env, host);
    case Cos => BinaryFails(Multiplication, Mul(NumberNode(-1), SinOf(l)), dl, env, host);
    case Ln => BinaryFails(Division, dl, l, env, host);
    case Exp => BinaryFails(Multiplication, ExpOf(l), dl, env, host);
  }

  /** Each derivative rule, evaluated, computes the rate of the matching rule of
      calculus from the operands' values and rates. */
  lemma BinaryDerivativeAgrees(op: Kind, l: Node, r: Node, dl: Node, dr: Node, env: map<string, int>, host: Host, x: Dual, y: Dual)
    requires IsBinary(op) && HasOperands(l) && HasOperands(r) && HasOperands(dl) && HasOperands(dr)
    requires Calculate(l, env, host) == Success(x.val) && Calculate(dl, env, host) == Success(x.der)
    requires Calculate(r, env, host) == Success(y.val) && Calculate(dr, env, host) == Success(y.der)
    ensures Pairs(BinaryRule(op, x, y, host), ApplyBinary(op, x.val, y.val, host), Calculate(BinaryDerivative(op, l, r, dl, dr), env, host))
  {
    match op
    case Addition => BinaryValue(Addition, dl, dr, env, host, x.der, y.der);
    case Subtraction => BinaryValue(Subtraction, dl, dr, env, host, x.der, y.der);
    case Multiplication =>
      BinaryValue(Multiplication, dl, r, env, host, x.der, y.val);
      BinaryValue(Multiplication, l, dr, env, host, x.val, y.der);
      BinaryValue(Addition, Mul(dl, r), Mul(l, dr), env, host, x.der * y.val, x.val * y.der);
    case Division => QuotientRuleAgrees(l, r, dl, dr, env, host, x, y);
    case Exponentiation => PowerRuleAgrees(l, r, dl, dr, env, host, x, y);
  }

  lemma QuotientRuleAgrees(l: Node, r: Node, dl: Node, dr: Node, env: map<string, int>, host: Host, x: Dual, y: Dual)
    requires HasOperands(l) && HasOperands(r) && HasOperands(dl) && HasOperands(dr)
    requires Calculate(l, env, host) == Success(x.val) && Calculate(dl, env, host) == Success(x.der)
    requires Calculate(r, env, host) == Success(y.val) && Calculate(dr, env, host) == Success(y.der)
    ensures Pairs(BinaryRule(Division, x, y, host), Divide(x.val, y.val), Calculate(BinaryDerivative(Division, l, r, dl, dr), env, host))
  {
    var num, den := Sub(Mul(dl, r), Mul(l, dr)), Pow(r, NumberNode(2));
    BinaryValue(Multiplication, dl, r, env, host, x.der, y.val);
    BinaryValue(Multiplication, l, dr, env, host, x.val, y.der);
    BinaryValue(Subtraction, Mul(dl, r), Mul(l, dr), env, host, x.der * y.val, x.val * y.der);
    BinaryValue(Exponentiation, r, NumberNode(2), env, host, y.val, 2);
    BinaryValue(Division, num, den, env, host, x.der * y.val - x.val * y.der, host.pow(y.val, 2));
  }

  lemma PowerRuleAgrees(l: Node, r: Node, dl: Node, dr: Node, env: map<string, int>, host: Host, x: Dual, y: Dual)
    requires HasOperands(l) && HasOperands(r) && HasOperands(dl) && HasOperands(dr)
    requires Calculate(l, env, host) == Success(x.val) && Calculate(dl, env, host) == Success(x.der)
    requires Calculate(r, env, host) == Success(y.val) && Calculate(dr, env, host) == Success(y.der)
    ensures Pairs(BinaryRule(Exponentiation, x, y, host), Success(host.pow(x.val, y.val)), Calculate(BinaryDerivative(Exponentiation, l, r, dl, dr), env, host))
  {
    var a, b := Mul(dr, LnOf(l)), Div(Mul(r, dl), l);
    var p, lg := host.pow(x.val, y.val), host.log(x.val);
    BinaryValue(Exponentiation, l, r, env, host, x.val, y.val);
    UnaryValue(Ln, l, env, host, x.val);
    BinaryValue(Multiplication, dr, LnOf(l), env, host, y.der, lg);
    BinaryValue(Multiplication, r, dl, env, host, y.val, x.der);
    BinaryValue(Division, Mul(r, dl), l, env, host, y.val * x.der, x.val);
    if x.val != 0 {
      var ratio := TruncDiv(y.val * x.der, x.val);
      BinaryValue(Addition, a, b, env, host, y.der * lg, ratio);
      BinaryValue(Multiplication, Pow(l, r), Add(a, b), env, host, p, y.der * lg + ratio);
    } else {
      BinaryFails(Addition, a, b, env, host);
      BinaryFails(Multiplication, Pow(l, r), Add(a, b), env, host);
    }
  }

  lemma UnaryDerivativeAgrees(op: Kind, l: Node, dl: Node, env: map<string, int>, host: Host, x: Dual)
    requires IsUnary(op) && HasOperands(l) && HasOperands(dl)
    requires Calculate(l, env, host) == Success(x.val) && Calculate(dl, env, host) == Success(x.der)
    ensures Pairs(UnaryRule(op, x, host), Success(ApplyUnary(op, x.val, host)), Calculate(UnaryDerivative(op, l, dl), env, host))
  {
    match op
    case Sin =>
      UnaryValue(Cos, l, env, host, x.val);
      BinaryValue(Multiplication, CosOf(l), dl, env, host, host.cos(x.val), x.der);
    case Cos =>
      UnaryValue(Sin, l, env, host, x.val);
      BinaryValue(Multiplication, NumberNode(-1), SinOf(l), env, host, -1, host.sin(x.val));
      BinaryValue(Multiplication, Mul(NumberNode(-1), SinOf(l)), dl, env, host, -1 * host.sin(x.val), x.der);
    case Ln =>
      BinaryValue(Division, dl, l, env, host, x.der, x.val);
    case Exp =>
      UnaryValue(Exp, l, env, host, x.val);
      BinaryValue(Multiplication, ExpOf(l), dl, env, host, host.exp(x.val), x.der);
  }

  /** A tree that does not mention `v` has rate 0 in `v` wherever it can be evaluated. */
  lemma {:induction false} ConstantHasRateZero(t: Node, env: map<string, int>, v: string, host: Host)
    requires HasOperands(t) && v !in Vars(t)
    requires Tangent(t, env, v, host).Success?
    ensures Tangent(t, env, v, host).value.der == 0
    decreases t
  {
    if IsBinary(t.kind) {
      ConstantHasRateZero(t.left.node, env, v, host);
      ConstantHasRateZero(t.right.node, env, v, host);
      var x, y := Tangent(t.left.node, env, v, host).value, Tangent(t.right.node, env, v, host).value;
      BinaryRuleKeepsRateZero(t.kind, x, y, host);
    } else if IsUnary(t.kind) {
      ConstantHasRateZero(t.left.node, env, v, host);
      UnaryRuleKeepsRateZero(t.kind, Tangent(t.left.node, env, v, host).value, host);
    }
  }

  /** Each rule of calculus gives rate 0 from operands of rate 0. */
  lemma BinaryRuleKeepsRateZero(op: Kind, x: Dual, y: Dual, host: Host)
    requires IsBinary(op) && x.der == 0 && y.der == 0
    ensures var r := BinaryRule(op, x, y, host); r.Success? ==> r.value.der == 0
  {
    match op
    case Addition =>
    case Subtraction =>
    case Multiplication =>
      assert x.der * y.val == 0 && x.val * y.der == 0;
    case Division =>
      assert x.der * y.val - x.val * y.der == 0;
    case Exponentiation =>
      assert y.val * x.der == 0;
      if x.val != 0 {
        assert y.der * host.log(x.val) + TruncDiv(0, x.val) == 0;
      }
  }

  lemma UnaryRuleKeepsRateZero(op: Kind, x: Dual, host: Host)
    requires IsUnary(op) && x.der == 0
    ensures var r := UnaryRule(op, x, host); r.Success? ==> r.value.der == 0
  {
  }

  /** The derivative of a tree in a variable it does not mention evaluates to 0
      whenever it can be evaluated at all. */
  lemma DerivativeOfConstantIsZero(t: Node, env: map<string, int>, v: string, host: Host)
    requires HasOperands(t) && v !in Vars(t)
    requires Calculate(t, env, host).Success?
    requires Calculate(Differentiate(t, v), env, host).Success?
    ensures Calculate(Differentiate(t, v), env, host) == Success(0)
  {
    DerivativeIsForwardMode(t, env, v, host);
    ConstantHasRateZero(t, env, v, host);
  }

  /** Worked derivatives: a constant gives 0, and d/dx (x * x) at x = 3 evaluates to 6. */
  lemma DerivativeExamples(host: Host)
    ensures Differentiate(NumberNode(5), "x") == NumberNode(0)
    ensures Differentiate(VariableNode("y"), "x") == NumberNode(0)
    ensures Calculate(Differentiate(Mul(VariableNode("x"), VariableNode("x")), "x"), map["x" := 3], host) == Success(6)
  {
  }
}

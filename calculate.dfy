/** `Expression::calculate` (MyExpression.hpp:157-206) at `T = int`: evaluation of a
    tree under a map from variable names to values. */
module Evaluation {
  import opened Wrappers
  import opened ExprTree
  import opened Substitution

  /** The numeric functions of the host that the model keeps abstract: `std::pow`,
      `std::sin`, `std::cos`, `std::log` and `std::exp`, each followed by the conversion
      of its `double` result back to `int` on return from `calculate`. */
  datatype Host = Host(pow: (int, int) -> int, sin: int -> int, cos: int -> int, log: int -> int, exp: int -> int)

  /** The two ways evaluation goes wrong: the bare `std::exception` thrown for a
      variable missing from the map, and an integer division by zero, which the source
      performs unguarded (undefined behaviour for `int`). */
  datatype EvalError = UnboundVariable | UndefinedDivision

  function Abs(n: int): nat {
    if n < 0 then -n else n
  }

  /** C++ integer division, which truncates toward zero. */
  function TruncDiv(a: int, b: int): (q: int)
    requires b != 0
    ensures Abs(q) == Abs(a) / Abs(b)
    ensures (a < 0) == (b < 0) ==> q >= 0
    ensures (a < 0) != (b < 0) ==> q <= 0
  {
    var x, y := Abs(a), Abs(b);
    assert x / y >= 0 by {
      assert x >= 0 && y > 0;
    }
    var m := x / y;
    if (a < 0) == (b < 0) then m else -m
  }

  /** `x / y` on `int` as `calculate` performs it. */
  function Divide(x: int, y: int): (r: Result<int, EvalError>)
    ensures r.Failure? <==> y == 0
    ensures r.Success? ==> r.value == TruncDiv(x, y)
  {
    if y == 0 then Failure(UndefinedDivision) else Success(TruncDiv(x, y))
  }

  /** The operator of a binary kind applied to the values of its two operands. */
  function ApplyBinary(op: Kind, x: int, y: int, host: Host): Result<int, EvalError>
    requires IsBinary(op)
  {
    match op
    case Addition => Success(x + y)
    case Subtraction => Success(x - y)
    case Multiplication => Success(x * y)
    case Division => Divide(x, y)
    case Exponentiation => Success(host.pow(x, y))
  }

  /** The host function of a unary kind applied to the value of its operand. */
  function ApplyUnary(op: Kind, x: int, host: Host): int
    requires IsUnary(op)
  {
    match op
    case Sin => host.sin(x)
    case Cos => host.cos(x)
    case Ln => host.log(x)
    case Exp => host.exp(x)
  }

  /** `calculate(variables)`: a number gives its payload, a variable its binding, and a
      composite node the operator applied to its operands' values, left operand first.
      A variable is looked up before it is read, so the map is never extended, and every
      leaf is visited on success: a successful evaluation has bound every variable. */
  function Calculate(t: Node, env: map<string, int>, host: Host): (r: Result<int, EvalError>)
    requires HasOperands(t)
    ensures r.Success? ==> Vars(t) <= env.Keys
    ensures Vars(t) <= env.Keys ==> r != Failure(UnboundVariable)
    decreases t
  {
    if t.kind == Number then
      Success(t.value)
    else if t.kind == Variable then
      if t.name in env then Success(env[t.name]) else Failure(UnboundVariable)
    else if IsBinary(t.kind) then
      var x :- Calculate(t.left.node, env, host);
      var y :- Calculate(t.right.node, env, host);
      ApplyBinary(t.kind, x, y, host)
    else
      var x :- Calculate(t.left.node, env, host);
      Success(ApplyUnary(t.kind, x, host))
  }

  /** `calculate()`: evaluation under the empty map. */
  function CalculateClosed(t: Node, host: Host): (r: Result<int, EvalError>)
    requires HasOperands(t)
    ensures r.Success? ==> Vars(t) == {}
  {
    Calculate(t, map[], host)
  }

  /** A binary node evaluates to its operator applied to its operands' values. */
  lemma BinaryValue(op: Kind, a: Node, b: Node, env: map<string, int>, host: Host, x: int, y: int)
    requires IsBinary(op) && HasOperands(a) && HasOperands(b)
    requires Calculate(a, env, host) == Success(x) && Calculate(b, env, host) == Success(y)
    ensures Calculate(Binary(op, a, b), env, host) == ApplyBinary(op, x, y, host)
  {
  }

  /** A binary node fails to evaluate when either operand does. */
  lemma BinaryFails(op: Kind, a: Node, b: Node, env: map<string, int>, host: Host)
    requires IsBinary(op) && HasOperands(a) && HasOperands(b)
    requires Calculate(a, env, host).Failure? || Calculate(b, env, host).Failure?
    ensures Calculate(Binary(op, a, b), env, host).Failure?
  {
  }

  /** A unary node evaluates to its host function applied to its operand's value. */
  lemma UnaryValue(op: Kind, a: Node, env: map<string, int>, host: Host, x: int)
    requires IsUnary(op) && HasOperands(a)
    requires Calculate(a, env, host) == Success(x)
    ensures Calculate(Unary(op, a), env, host) == Success(ApplyUnary(op, x, host))
  {
  }

  /** A tree that mentions any variable cannot be evaluated by `calculate()`. */
  lemma ClosedCalculateFailsOnVariables(t: Node, host: Host)
    requires HasOperands(t) && Vars(t) != {}
    ensures CalculateClosed(t, host).Failure?
  {
  }

  /** Two maps that agree on the variables of a tree give it the same value. */
  lemma {:induction false} CalculateReadsOnlyItsVariables(t: Node, env1: map<string, int>, env2: map<string, int>, host: Host)
    requires HasOperands(t)
    requires forall x :: x in Vars(t) ==> (x in env1 <==> x in env2)
    requires forall x :: x in Vars(t) && x in env1 ==> env1[x] == env2[x]
    ensures Calculate(t, env1, host) == Calculate(t, env2, host)
    decreases t
  {
    if !IsLeaf(t.kind) {
      CalculateReadsOnlyItsVariables(t.left.node, env1, env2, host);
      if IsBinary(t.kind) {
        CalculateReadsOnlyItsVariables(t.right.node, env1, env2, host);
      }
    }
  }

  /** Without division, evaluation succeeds exactly when every variable is bound. */
  lemma {:induction false} CalculateSucceedsIff(t: Node, env: map<string, int>, host: Host)
    requires HasOperands(t) && Avoids(t, Division)
    ensures Calculate(t, env, host).Success? <==> Vars(t) <= env.Keys
    decreases t
  {
    if !IsLeaf(t.kind) {
      CalculateSucceedsIff(t.left.node, env, host);
      if IsBinary(t.kind) {
        CalculateSucceedsIff(t.right.node, env, host);
      }
    }
  }

  /** Evaluating a substituted tree is evaluating the original with `v` bound to the
      value of the replacement. */
  lemma {:induction false} SubstituteThenCalculate(t: Node, v: string, r: Node, env: map<string, int>, host: Host, x: int)
    requires HasOperands(t) && HasOperands(r)
    requires Calculate(r, env, host) == Success(x)
    ensures Calculate(Substitute(t, v, r), env, host) == Calculate(t, env[v := x], host)
    decreases t
  {
    if !IsLeaf(t.kind) {
      SubstituteThenCalculate(t.left.node, v, r, env, host, x);
      if IsBinary(t.kind) {
        SubstituteThenCalculate(t.right.node, v, r, env, host, x);
      }
    }
  }

  /** The asserts of MyExpressionTest.cpp:13-55 on `Expression<int>`. */
  lemma ArithmeticTests(host: Host)
    requires host.pow(2, 3) == 8
    ensures CalculateClosed(Add(NumberNode(1), NumberNode(7)), host) == Success(8)
    ensures CalculateClosed(Sub(NumberNode(1), NumberNode(7)), host) == Success(-6)
    ensures CalculateClosed(Mul(NumberNode(1), NumberNode(7)), host) == Success(7)
    ensures CalculateClosed(Div(NumberNode(4), NumberNode(2)), host) == Success(2)
    ensures CalculateClosed(Pow(NumberNode(2), NumberNode(3)), host) == Success(8)
  {
  }
}

/** The earlier draft of `Expression<T>` in MyExpression.cpp, at `T = int`. Its leaf
    constructors, its binary combinators and its `to_string` are those of the tree of
    `ExprTree` and `Printer`; what differs is the composite constructor, which always
    allocates both children, the unary combinators, which take a second expression and
    keep it as the right child, and `calculate`, whose unary cases are not modelled. */
module Draft {
  import opened Wrappers
  import opened ExprTree
  import opened Printer
  import Evaluation

  /** `Expression(Type op, Expression a, Expression b)` (MyExpression.cpp:36-42): both
      operands become children, whatever the kind. */
  function Compose(op: Kind, a: Node, b: Node): (r: Node)
    ensures r.kind == op && r.left == Ptr(a) && r.right == Ptr(b)
    ensures r.value == 0 && r.name == ""
  {
    Node(op, 0, "", Ptr(a), Ptr(b))
  }

  /** The unary combinators of the draft (MyExpression.cpp:60-71): `x.sin(y)` is a `Sin`
      node over `x` that also carries `y`. */
  function SinWith(a: Node, b: Node): Node { Compose(Sin, a, b) }
  function CosWith(a: Node, b: Node): Node { Compose(Cos, a, b) }
  function LnWith(a: Node, b: Node): Node { Compose(Ln, a, b) }
  function ExpWith(a: Node, b: Node): Node { Compose(Exp, a, b) }

  /** The trees the draft's constructors and combinators build: leaves without children,
      every composite node with two. */
  predicate DraftWellFormed(t: Node)
    decreases t
  {
    && (t.kind != Number ==> t.value == 0)
    && (t.kind != Variable ==> t.name == "")
    && if IsLeaf(t.kind) then
         t.left.Null? && t.right.Null?
       else
         t.left.Ptr? && t.right.Ptr? && DraftWellFormed(t.left.node) && DraftWellFormed(t.right.node)
  }

  /** Every tree of the draft has the operands that `to_string` and `calculate` read. */
  lemma {:induction false} DraftTreesHaveOperands(t: Node)
    requires DraftWellFormed(t)
    ensures HasOperands(t)
    decreases t
  {
    if !IsLeaf(t.kind) {
      DraftTreesHaveOperands(t.left.node);
      DraftTreesHaveOperands(t.right.node);
    }
  }

  /** The binary combinators of the draft (MyExpression.cpp:45-59) build the same nodes
      as those of MyExpression.hpp; its unary combinators build nodes that the arity
      invariant of the later version rejects. */
  lemma ComposeAgrees(op: Kind, a: Node, b: Node)
    requires DraftWellFormed(a) && DraftWellFormed(b)
    ensures DraftWellFormed(Compose(op, a, b)) <==> !IsLeaf(op)
    ensures IsBinary(op) ==> Compose(op, a, b) == Binary(op, a, b)
    ensures IsUnary(op) ==> !WellFormed(Compose(op, a, b))
  {
  }

  /** `to_string` of a unary node reads only its left child (MyExpression.cpp:150-160):
      the operand the draft's unary combinators add leaves the text unchanged. */
  lemma UnaryTextIgnoresRight(op: Kind, a: Node, b: Node)
    requires IsUnary(op) && HasOperands(a)
    ensures ToString(Compose(op, a, b)) == ToString(Unary(op, a))
    ensures ToString(Compose(op, a, b)) == FunctionName(op) + "(" + ToString(a) + ")"
  {
  }

  /** Each two-argument unary combinator of the draft builds a node of its kind that
      keeps the extra operand as its right child: a tree of the draft, but one that the
      arity invariant of MyExpression.hpp rejects. */
  lemma UnaryCombinatorsKeepBoth(a: Node, b: Node)
    requires DraftWellFormed(a) && DraftWellFormed(b)
    ensures SinWith(a, b).kind == Sin && SinWith(a, b).right == Ptr(b)
    ensures CosWith(a, b).kind == Cos && CosWith(a, b).right == Ptr(b)
    ensures LnWith(a, b).kind == Ln && LnWith(a, b).right == Ptr(b)
    ensures ExpWith(a, b).kind == Exp && ExpWith(a, b).right == Ptr(b)
    ensures DraftWellFormed(SinWith(a, b)) && !WellFormed(SinWith(a, b))
    ensures DraftWellFormed(CosWith(a, b)) && !WellFormed(CosWith(a, b))
    ensures DraftWellFormed(LnWith(a, b)) && !WellFormed(LnWith(a, b))
    ensures DraftWellFormed(ExpWith(a, b)) && !WellFormed(ExpWith(a, b))
  {
    ComposeAgrees(Sin, a, b);
    ComposeAgrees(Cos, a, b);
    ComposeAgrees(Ln, a, b);
    ComposeAgrees(Exp, a, b);
  }

  /** Trees without `Sin`, `Cos`, `Ln` or `Exp` nodes. */
  predicate Arithmetic(t: Node)
    decreases t
  {
    && !IsUnary(t.kind)
    && (t.left.Ptr? ==> Arithmetic(t.left.node))
    && (t.right.Ptr? ==> Arithmetic(t.right.node))
  }

  /** `calculate(variables)` of the draft (MyExpression.cpp:77-103) on trees without
      unary nodes: a number gives its payload, a variable its binding when the map has
      one and an exception otherwise, and a binary node its operator, or `std::pow`,
      applied to its operands' values. */
  function Calculate(t: Node, env: map<string, int>, pow: (int, int) -> int): (r: Result<int, Evaluation.EvalError>)
    requires HasOperands(t) && Arithmetic(t)
    ensures r.Success? ==> Vars(t) <= env.Keys
    decreases t
  {
    if t.kind == Number then
      Success(t.value)
    else if t.kind == Variable then
      if t.name in env then Success(env[t.name]) else Failure(Evaluation.UnboundVariable)
    else
      var x :- Calculate(t.left.node, env, pow);
      var y :- Calculate(t.right.node, env, pow);
      match t.kind
      case Addition => Success(x + y)
      case Subtraction => Success(x - y)
      case Multiplication => Success(x * y)
      case Division => Evaluation.Divide(x, y)
      case Exponentiation => Success(pow(x, y))
  }

  /** On the trees both versions evaluate, the draft's `calculate` and that of
      MyExpression.hpp give the same value or the same exception. */
  lemma {:induction false} CalculateAgrees(t: Node, env: map<string, int>, host: Evaluation.Host)
    requires HasOperands(t) && Arithmetic(t)
    ensures Calculate(t, env, host.pow) == Evaluation.Calculate(t, env, host)
    decreases t
  {
    if !IsLeaf(t.kind) {
      CalculateAgrees(t.left.node, env, host);
      CalculateAgrees(t.right.node, env, host);
    }
  }

  /** The program of MyExpression.cpp:176-186 prints `(1 + 2) - x` as `((1 + 2) - x)`. */
  lemma MainProgram()
    ensures ToString(Sub(Add(NumberNode(1), NumberNode(2)), VariableNode("x"))) == "((1 + 2) - x)"
  {
    assert IntToString(1) == "1" && IntToString(2) == "2";
  }

  /** The value the model gives the tree of that program with `x` bound to 5. The
      program itself does not evaluate it: its call of `calculate` is commented out, and
      the draft's `calculate` does not compile at `T = int`. */
  lemma MainTreeValue(pow: (int, int) -> int)
    ensures Calculate(Sub(Add(NumberNode(1), NumberNode(2)), VariableNode("x")), map["x" := 5], pow)
         == Success(-2)
  {
  }
}

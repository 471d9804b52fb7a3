/** The expression tree of `Expression<T>` (MyExpression.hpp), instantiated at `int`:
    the node kinds, the node record, the arity invariant and the constructors and
    operator combinators through which every composite node is built. */
module ExprTree {

  /** The closed set of node kinds, in the order of the C++ enum `Type`. */
  datatype Kind =
    | Variable | Number
    | Addition | Subtraction | Multiplication | Division | Exponentiation
    | Sin | Cos | Ln | Exp

  predicate IsLeaf(k: Kind) {
    k == Variable || k == Number
  }

  predicate IsBinary(k: Kind) {
    k == Addition || k == Subtraction || k == Multiplication || k == Division || k == Exponentiation
  }

  predicate IsUnary(k: Kind) {
    k == Sin || k == Cos || k == Ln || k == Exp
  }

  /** A child link (`std::shared_ptr<Expression<T>>`), which may be null. The copy
      constructor and copy assignment deep-copy the children, so a tree is a value. */
  datatype Link = Null | Ptr(node: Node)

  /** One node: its kind, the numeric payload (meaningful for `Number`), the name
      (meaningful for `Variable`) and the two owned children.
      Where the C++ constructors leave `value` uninitialised the model stores 0. */
  datatype Node = Node(kind: Kind, value: int, name: string, left: Link, right: Link)

  /** The arity invariant: leaves have no children, binary nodes both, unary nodes only
      `left`; and a node carries no payload its kind does not use. */
  predicate WellFormed(t: Node)
    ensures WellFormed(t) ==> HasOperands(t)
    decreases t
  {
    && (t.kind != Number ==> t.value == 0)
    && (t.kind != Variable ==> t.name == "")
    && if IsLeaf(t.kind) then
         t.left.Null? && t.right.Null?
       else if IsBinary(t.kind) then
         t.left.Ptr? && t.right.Ptr? && WellFormed(t.left.node) && WellFormed(t.right.node)
       else
         t.left.Ptr? && t.right.Null? && WellFormed(t.left.node)
  }

  /** The children that the recursive operations dereference are present: both for a
      binary node, `left` for a unary one. Unlike `WellFormed` it admits the unary
      nodes of the earlier draft, which also carry a `right` child. */
  predicate HasOperands(t: Node)
    decreases t
  {
    if IsLeaf(t.kind) then
      true
    else if IsBinary(t.kind) then
      t.left.Ptr? && t.right.Ptr? && HasOperands(t.left.node) && HasOperands(t.right.node)
    else
      t.left.Ptr? && HasOperands(t.left.node)
  }

  /** The names of the variables a tree refers to through the operands the operations read. */
  function Vars(t: Node): set<string>
    decreases t
  {
    if t.kind == Variable then {t.name}
    else if IsLeaf(t.kind) then {}
    else
      (if t.left.Ptr? then Vars(t.left.node) else {}) +
      (if IsBinary(t.kind) && t.right.Ptr? then Vars(t.right.node) else {})
  }

  /** True when no node of the tree has kind `k`. */
  predicate Avoids(t: Node, k: Kind)
    decreases t
  {
    && t.kind != k
    && (t.left.Ptr? ==> Avoids(t.left.node, k))
    && (t.right.Ptr? ==> Avoids(t.right.node, k))
  }

  // ---- Constructors (MyExpression.hpp:24-53) ----

  /** `Expression(T number)`. */
  function NumberNode(v: int): (r: Node)
    ensures WellFormed(r) && r.kind == Number && r.value == v && Vars(r) == {}
  {
    Node(Number, v, "", Null, Null)
  }

  /** `Expression(std::string variable)`. */
  function VariableNode(name: string): (r: Node)
    ensures WellFormed(r) && r.kind == Variable && r.name == name && Vars(r) == {name}
  {
    Node(Variable, 0, name, Null, Null)
  }

  /** `Expression(Type op, Expression a, Expression b)`: `a` and `b` become the children. */
  function Binary(op: Kind, a: Node, b: Node): (r: Node)
    ensures IsBinary(op) && WellFormed(a) && WellFormed(b) ==> WellFormed(r)
    ensures IsBinary(op) && HasOperands(a) && HasOperands(b) ==> HasOperands(r)
    ensures IsBinary(op) ==> Vars(r) == Vars(a) + Vars(b)
  {
    Node(op, 0, "", Ptr(a), Ptr(b))
  }

  /** `Expression(Type op, Expression a)`: `a` becomes `left`, `right` stays null. */
  function Unary(op: Kind, a: Node): (r: Node)
    ensures IsUnary(op) && WellFormed(a) ==> WellFormed(r)
    ensures IsUnary(op) && HasOperands(a) ==> HasOperands(r)
    ensures IsUnary(op) ==> Vars(r) == Vars(a)
  {
    Node(op, 0, "", Ptr(a), Null)
  }

  // ---- Operator combinators (MyExpression.hpp:129-155) ----

  function Add(a: Node, b: Node): Node { Binary(Addition, a, b) }
  function Sub(a: Node, b: Node): Node { Binary(Subtraction, a, b) }
  function Mul(a: Node, b: Node): Node { Binary(Multiplication, a, b) }
  function Div(a: Node, b: Node): Node { Binary(Division, a, b) }
  function Pow(a: Node, b: Node): Node { Binary(Exponentiation, a, b) }
  function SinOf(a: Node): Node { Unary(Sin, a) }
  function CosOf(a: Node): Node { Unary(Cos, a) }
  function LnOf(a: Node): Node { Unary(Ln, a) }
  function ExpOf(a: Node): Node { Unary(Exp, a) }

  /** Every combinator builds a well-formed node of its own kind from well-formed operands. */
  lemma CombinatorsWellFormed(a: Node, b: Node)
    requires WellFormed(a) && WellFormed(b)
    ensures WellFormed(Add(a, b)) && Add(a, b).kind == Addition
    ensures WellFormed(Sub(a, b)) && Sub(a, b).kind == Subtraction
    ensures WellFormed(Mul(a, b)) && Mul(a, b).kind == Multiplication
    ensures WellFormed(Div(a, b)) && Div(a, b).kind == Division
    ensures WellFormed(Pow(a, b)) && Pow(a, b).kind == Exponentiation
    ensures WellFormed(SinOf(a)) && SinOf(a).kind == Sin
    ensures WellFormed(CosOf(a)) && CosOf(a).kind == Cos
    ensures WellFormed(LnOf(a)) && LnOf(a).kind == Ln
    ensures WellFormed(ExpOf(a)) && ExpOf(a).kind == Exp
  {
  }
}

/** `Expression::substitute` (MyExpression.hpp:87-114): a new tree in which every
    `Variable` leaf with the given name is replaced by the replacement tree. */
module Substitution {
  import opened ExprTree

  /** Numbers and other variables are kept, every composite node keeps its kind and is
      rebuilt through the constructor of its arity, and only the leaves named `v` change.
      The unknown-kind exception of the source cannot arise: the kind set is closed. */
  function Substitute(t: Node, v: string, r: Node): (res: Node)
    requires HasOperands(t)
    ensures HasOperands(r) ==> HasOperands(res)
    ensures WellFormed(t) && WellFormed(r) ==> WellFormed(res)
    ensures Vars(res) == (Vars(t) - {v}) + (if v in Vars(t) then Vars(r) else {})
    ensures WellFormed(t) && v !in Vars(t) ==> res == t
    ensures t.kind != Variable ==> res.kind == t.kind
    decreases t
  {
    if t.kind == Variable then
      if t.name == v then r else t
    else if t.kind == Number then
      t
    else if IsBinary(t.kind) then
      Binary(t.kind, Substitute(t.left.node, v, r), Substitute(t.right.node, v, r))
    else
      Unary(t.kind, Substitute(t.left.node, v, r))
  }

  /** Substituting a variable by itself changes nothing. */
  lemma {:induction false} SubstituteSelf(t: Node, v: string)
    requires WellFormed(t)
    ensures Substitute(t, v, VariableNode(v)) == t
    decreases t
  {
    if !IsLeaf(t.kind) {
      SubstituteSelf(t.left.node, v);
      if IsBinary(t.kind) {
        SubstituteSelf(t.right.node, v);
      }
    }
  }

  /** Renaming `v` to a name `w` the tree does not use, then renaming `w` back to `v`,
      gives the original tree: the substitution touches exactly the leaves named `v`. */
  lemma {:induction false} RenameRoundTrip(t: Node, v: string, w: string)
    requires WellFormed(t) && w !in Vars(t)
    ensures Substitute(Substitute(t, v, VariableNode(w)), w, VariableNode(v)) == t
    decreases t
  {
    if !IsLeaf(t.kind) {
      RenameRoundTrip(t.left.node, v, w);
      if IsBinary(t.kind) {
        RenameRoundTrip(t.right.node, v, w);
      }
    }
  }

  /** Substituting twice with a replacement that does not mention `v` is substituting once. */
  lemma SubstituteIdempotent(t: Node, v: string, r: Node)
    requires WellFormed(t) && WellFormed(r) && v !in Vars(r)
    ensures var once := Substitute(t, v, r); Substitute(once, v, r) == once
  {
  }
}

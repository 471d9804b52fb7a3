/** The printer and the parser are inverse on the trees the parser builds: the text
    `to_string` writes for such a tree is read back by `parse` as the same tree. The
    positions of the pieces of a printed text are passed explicitly, so that every
    step speaks of the same cursor values as the grammar. */
module RoundTrip {
  import opened Wrappers
  import opened ExprTree
  import opened Chars
  import opened Printer
  import opened Grammar

  /** The text of `t` appears in `s` at `pos`. */
  predicate Printed(s: string, pos: nat, t: Node)
    requires HasOperands(t)
  {
    pos + |ToString(t)| <= |s| && s[pos..pos + |ToString(t)|] == ToString(t)
  }

  /** A position where a printed operand may end: the end of the text, the blank
      before an operator, or a closing parenthesis. */
  predicate Boundary(s: string, i: nat) {
    i <= |s| && (i == |s| || s[i] == ' ' || s[i] == ')')
  }

  /** A position where every loop of the grammar stops: the end of the text or `)`. */
  predicate Stops(s: string, e: nat) {
    e <= |s| && (e == |s| || s[e] == ')')
  }

  // ---- The layout of printed text ----

  /** A part of a text printed at `pos` is printed at the matching offset. */
  lemma SliceOfPrinted(s: string, pos: nat, text: string, i: nat, j: nat)
    requires pos + |text| <= |s| && s[pos..pos + |text|] == text && i <= j <= |text|
    ensures s[pos + i..pos + j] == text[i..j]
  {
    forall k | 0 <= k < j - i
      ensures s[pos + i..pos + j][k] == text[i..j][k]
    {
      assert s[pos..pos + |text|][i + k] == s[pos + i + k];
    }
  }

  /** The pieces of the text of a binary node. */
  lemma BinaryTextParts(ls: string, op: char, rs: string)
    ensures var text := "(" + ls + " " + [op] + " " + rs + ")";
      && |text| == |ls| + |rs| + 5
      && text[0] == '(' && text[1..1 + |ls|] == ls
      && text[1 + |ls|] == ' ' && text[2 + |ls|] == op && text[3 + |ls|] == ' '
      && text[4 + |ls|..4 + |ls| + |rs|] == rs && text[4 + |ls| + |rs|] == ')'
  {
  }

  /** The pieces of the text of a unary node. */
  lemma UnaryTextParts(n: string, arg: string)
    ensures var text := n + "(" + arg + ")";
      && |text| == |n| + |arg| + 2
      && text[..|n|] == n && text[|n|] == '('
      && text[|n| + 1..|n| + 1 + |arg|] == arg && text[|n| + 1 + |arg|] == ')'
  {
  }

  /** Where the pieces of `(ls op rs)` lie when that text is at `pos` in `s`. */
  lemma BinaryPieces(s: string, pos: nat, ls: string, op: char, rs: string, a: nat, o: nat, k: nat, c: nat, b: nat)
    requires a == pos + 1 + |ls| && o == a + 1 && k == o + 1 && c == k + 1 && b == c + |rs|
    requires b < |s| && s[pos..b + 1] == "(" + ls + " " + [op] + " " + rs + ")"
    ensures s[pos] == '(' && s[pos + 1..a] == ls
    ensures s[a] == ' ' && s[o] == op && s[k] == ' ' && s[c..b] == rs && s[b] == ')'
  {
    var text := "(" + ls + " " + [op] + " " + rs + ")";
    BinaryTextParts(ls, op, rs);
    SliceOfPrinted(s, pos, text, 1, 1 + |ls|);
    SliceOfPrinted(s, pos, text, 4 + |ls|, 4 + |ls| + |rs|);
    var w := s[pos..pos + |text|];
    assert w[0] == s[pos] && w[1 + |ls|] == s[a] && w[2 + |ls|] == s[o];
    assert w[3 + |ls|] == s[k] && w[4 + |ls| + |rs|] == s[b];
  }

  /** A printed binary node is `(`, the left operand up to `a`, a blank, the symbol at
      `o`, a blank at `k`, the right operand from `c` up to `b`, and `)` at `b`. */
  lemma BinaryLayout(s: string, pos: nat, t: Node, a: nat, o: nat, k: nat, c: nat, b: nat)
    requires HasOperands(t) && IsBinary(t.kind) && Printed(s, pos, t)
    requires a == pos + 1 + |ToString(t.left.node)| && o == a + 1 && k == o + 1 && c == k + 1
    requires b == c + |ToString(t.right.node)|
    ensures s[pos] == '(' && Printed(s, pos + 1, t.left.node)
    ensures s[a] == ' ' && s[o] == OperatorSymbol(t.kind) && s[k] == ' '
    ensures Printed(s, c, t.right.node) && b < |s| && s[b] == ')' && b + 1 == pos + |ToString(t)|
  {
    var ls, rs := ToString(t.left.node), ToString(t.right.node);
    assert ToString(t) == "(" + ls + " " + [OperatorSymbol(t.kind)] + " " + rs + ")";
    BinaryPieces(s, pos, ls, OperatorSymbol(t.kind), rs, a, o, k, c, b);
  }

  /** Where the pieces of `n(arg)` lie when that text is at `pos` in `s`. */
  lemma UnaryPieces(s: string, pos: nat, n: string, arg: string, f: nat, g: nat, b: nat)
    requires f == pos + |n| && g == f + 1 && b == g + |arg|
    requires b < |s| && s[pos..b + 1] == n + "(" + arg + ")"
    ensures s[pos..f] == n && s[f] == '(' && s[g..b] == arg && s[b] == ')'
  {
    var text := n + "(" + arg + ")";
    UnaryTextParts(n, arg);
    SliceOfPrinted(s, pos, text, 0, |n|);
    SliceOfPrinted(s, pos, text, |n| + 1, |n| + 1 + |arg|);
    var w := s[pos..pos + |text|];
    assert w[|n|] == s[f] && w[|n| + 1 + |arg|] == s[b];
  }

  /** A printed unary node is its function name up to `f`, `(` at `f`, the operand
      from `g` up to `b`, and `)` at `b`. */
  lemma UnaryLayout(s: string, pos: nat, t: Node, f: nat, g: nat, b: nat)
    requires HasOperands(t) && IsUnary(t.kind) && Printed(s, pos, t)
    requires f == pos + |FunctionName(t.kind)| && g == f + 1 && b == g + |ToString(t.left.node)|
    ensures s[pos..f] == FunctionName(t.kind) && s[f] == '('
    ensures Printed(s, g, t.left.node) && b < |s| && s[b] == ')' && b + 1 == pos + |ToString(t)|
  {
    var n, arg := FunctionName(t.kind), ToString(t.left.node);
    assert ToString(t) == n + "(" + arg + ")";
    UnaryPieces(s, pos, n, arg, f, g, b);
  }

  // ---- Scanning ----

  /** A run of characters of one class that stops at `e` is scanned up to `e`. */
  lemma {:induction false} SpanOfRun(s: string, pos: nat, e: nat, cls: CharClass)
    requires pos <= e <= |s|
    requires forall k :: pos <= k < e ==> InClass(s[k], cls)
    requires e == |s| || !InClass(s[e], cls)
    ensures SpanEnd(s, pos, cls) == e
    decreases e - pos
  {
    if pos < e {
      SpanOfRun(s, pos + 1, e, cls);
    }
  }

  /** No blank to skip. */
  lemma SkipNone(s: string, o: nat)
    requires o < |s| && !IsSpace(s[o])
    ensures SkipWs(s, o) == o
  {
  }

  /** One blank to skip. */
  lemma SkipOne(s: string, a: nat, o: nat)
    requires o == a + 1 && o < |s| && s[a] == ' ' && !IsSpace(s[o])
    ensures SkipWs(s, a) == o
  {
    SkipNone(s, o);
  }

  /** The function names are scanned as a whole word and recognised as their kind. */
  lemma FunctionNameLexes(s: string, pos: nat, k: Kind, f: nat)
    requires IsUnary(k) && f == pos + |FunctionName(k)|
    requires f < |s| && s[pos..f] == FunctionName(k) && s[f] == '('
    ensures SpanEnd(s, pos, Letter) == f
    ensures FunctionKind(FunctionName(k)) == Some(k)
    ensures IsAlpha(s[pos])
  {
    var n := FunctionName(k);
    assert forall j :: pos <= j < f ==> s[j] == s[pos..f][j - pos];
    SpanOfRun(s, pos, f, Letter);
    assert s[pos] == s[pos..f][0];
  }

  /** `parseFactor` skips a leading blank. */
  lemma FactorAfterBlank(s: string, p: nat, q: nat)
    requires p < |s| && s[p] == ' ' && q == p + 1
    ensures ParseFactor(s, p) == ParseFactor(s, q)
  {
    assert SkipWs(s, p) == SkipWs(s, q);
  }

  // ---- Where the loops of the grammar stop ----

  /** After an operand ends at the end of the text or before `)`, no loop of the
      grammar continues: each hands back the tree built so far. */
  lemma LoopsStop(s: string, left: Node, e: nat)
    requires Stops(s, e)
    ensures PowerLoop(s, left, e) == Parsed(left, e)
    ensures TermLoop(s, left, e) == Parsed(left, e)
    ensures ExpressionLoop(s, left, e) == Parsed(left, e)
  {
    if e < |s| {
      assert SkipWs(s, e) == e;
    }
  }

  lemma PowerOfFactor(s: string, p: nat, t: Node, e: nat)
    requires p <= |s| && Stops(s, e) && ParseFactor(s, p) == Parsed(t, e)
    ensures ParsePower(s, p) == Parsed(t, e)
  {
    LoopsStop(s, t, e);
  }

  lemma TermOfPower(s: string, p: nat, t: Node, e: nat)
    requires p <= |s| && Stops(s, e) && ParsePower(s, p) == Parsed(t, e)
    ensures ParseTerm(s, p) == Parsed(t, e)
  {
    LoopsStop(s, t, e);
  }

  lemma ExpressionOfTerm(s: string, p: nat, t: Node, e: nat)
    requires p <= |s| && Stops(s, e) && ParseTerm(s, p) == Parsed(t, e)
    ensures ParseExpression(s, p) == Parsed(t, e)
  {
    LoopsStop(s, t, e);
  }

  lemma ExpressionOfFactor(s: string, p: nat, t: Node, e: nat)
    requires p <= |s| && Stops(s, e) && ParseFactor(s, p) == Parsed(t, e)
    ensures ParseExpression(s, p) == Parsed(t, e)
  {
    PowerOfFactor(s, p, t, e);
    TermOfPower(s, p, t, e);
    ExpressionOfTerm(s, p, t, e);
  }

  // ---- One step of each loop ----

  lemma PowerThen(s: string, p: nat, l: Node, a: nat)
    requires p <= |s| && ParseFactor(s, p) == Parsed(l, a)
    ensures a <= |s| && ParsePower(s, p) == PowerLoop(s, l, a)
  {
  }

  lemma TermThen(s: string, p: nat, l: Node, a: nat)
    requires p <= |s| && ParsePower(s, p) == Parsed(l, a)
    ensures a <= |s| && ParseTerm(s, p) == TermLoop(s, l, a)
  {
  }

  lemma ExpressionThen(s: string, p: nat, l: Node, a: nat)
    requires p <= |s| && ParseTerm(s, p) == Parsed(l, a)
    ensures a <= |s| && ParseExpression(s, p) == ExpressionLoop(s, l, a)
  {
  }

  /** At a blank followed by a symbol other than `^`, the loop of `parsePower` stops
      at the symbol. */
  lemma PowerLoopStopsAtSymbol(s: string, l: Node, a: nat, o: nat)
    requires o == a + 1 && o < |s| && s[a] == ' ' && !IsSpace(s[o]) && s[o] != '^'
    ensures PowerLoop(s, l, a) == Parsed(l, o)
  {
    assert SkipWs(s, a) == o;
  }

  /** At a symbol other than `*` and `/`, the loop of `parseTerm` stops. */
  lemma TermLoopStopsAtSymbol(s: string, l: Node, o: nat)
    requires o < |s| && !IsSpace(s[o]) && s[o] != '*' && s[o] != '/'
    ensures TermLoop(s, l, o) == Parsed(l, o)
  {
    assert SkipWs(s, o) == o;
  }

  /** At a symbol other than `+` and `-`, the loop of `parseExpression` stops. */
  lemma ExpressionLoopStopsAtSymbol(s: string, l: Node, o: nat)
    requires o < |s| && !IsSpace(s[o]) && s[o] != '+' && s[o] != '-'
    ensures ExpressionLoop(s, l, o) == Parsed(l, o)
  {
    assert SkipWs(s, o) == o;
  }

  lemma PowerStep(s: string, l: Node, r: Node, a: nat, o: nat, k: nat, b: nat)
    requires o == a + 1 && k == o + 1 && k <= |s| && s[a] == ' ' && s[o] == '^'
    requires ParseFactor(s, k) == Parsed(r, b)
    ensures PowerLoop(s, l, a) == PowerLoop(s, Pow(l, r), b)
  {
    SkipOne(s, a, o);
    assert Peek(s, SkipWs(s, a)) == '^';
    assert ParseFactor(s, SkipWs(s, a) + 1) == Parsed(r, b);
  }

  lemma MulStep(s: string, l: Node, r: Node, o: nat, k: nat, b: nat)
    requires k == o + 1 && k <= |s| && s[o] == '*'
    requires ParsePower(s, k) == Parsed(r, b)
    ensures TermLoop(s, l, o) == TermLoop(s, Mul(l, r), b)
  {
    SkipNone(s, o);
    assert Peek(s, SkipWs(s, o)) == '*';
    assert ParsePower(s, SkipWs(s, o) + 1) == Parsed(r, b);
  }

  lemma DivStep(s: string, l: Node, r: Node, o: nat, k: nat, b: nat)
    requires k == o + 1 && k <= |s| && s[o] == '/'
    requires ParsePower(s, k) == Parsed(r, b)
    ensures TermLoop(s, l, o) == TermLoop(s, Div(l, r), b)
  {
    SkipNone(s, o);
    assert Peek(s, SkipWs(s, o)) == '/';
    assert ParsePower(s, SkipWs(s, o) + 1) == Parsed(r, b);
  }

  lemma AddStep(s: string, l: Node, r: Node, o: nat, k: nat, b: nat)
    requires k == o + 1 && k <= |s| && s[o] == '+'
    requires ParseTerm(s, k) == Parsed(r, b)
    ensures ExpressionLoop(s, l, o) == ExpressionLoop(s, Add(l, r), b)
  {
    SkipNone(s, o);
    assert Peek(s, SkipWs(s, o)) == '+';
    assert ParseTerm(s, SkipWs(s, o) + 1) == Parsed(r, b);
  }

  lemma SubStep(s: string, l: Node, r: Node, o: nat, k: nat, b: nat)
    requires k == o + 1 && k <= |s| && s[o] == '-'
    requires ParseTerm(s, k) == Parsed(r, b)
    ensures ExpressionLoop(s, l, o) == ExpressionLoop(s, Sub(l, r), b)
  {
    SkipNone(s, o);
    assert Peek(s, SkipWs(s, o)) == '-';
    assert ParseTerm(s, SkipWs(s, o) + 1) == Parsed(r, b);
  }

  lemma TermStep(s: string, op: Kind, l: Node, r: Node, o: nat, k: nat, b: nat)
    requires k == o + 1 && k <= |s|
    requires (op == Multiplication && s[o] == '*') || (op == Division && s[o] == '/')
    requires ParsePower(s, k) == Parsed(r, b)
    ensures TermLoop(s, l, o) == TermLoop(s, Binary(op, l, r), b)
  {
    if op == Multiplication {
      MulStep(s, l, r, o, k, b);
    } else {
      DivStep(s, l, r, o, k, b);
    }
  }

  lemma SumStep(s: string, op: Kind, l: Node, r: Node, o: nat, k: nat, b: nat)
    requires k == o + 1 && k <= |s|
    requires (op == Addition && s[o] == '+') || (op == Subtraction && s[o] == '-')
    requires ParseTerm(s, k) == Parsed(r, b)
    ensures ExpressionLoop(s, l, o) == ExpressionLoop(s, Binary(op, l, r), b)
  {
    if op == Addition {
      AddStep(s, l, r, o, k, b);
    } else {
      SubStep(s, l, r, o, k, b);
    }
  }

  // ---- One operator between two operands, by precedence level ----

  lemma PowerLevel(s: string, p: nat, l: Node, r: Node, a: nat, o: nat, k: nat, b: nat)
    requires p <= a && o == a + 1 && k == o + 1 && k < b < |s|
    requires s[a] == ' ' && s[o] == '^' && s[b] == ')'
    requires ParseFactor(s, p) == Parsed(l, a) && ParseFactor(s, k) == Parsed(r, b)
    ensures ParseExpression(s, p) == Parsed(Pow(l, r), b)
  {
    LoopsStop(s, Pow(l, r), b);
    PowerStep(s, l, r, a, o, k, b);
    PowerThen(s, p, l, a);
    TermOfPower(s, p, Pow(l, r), b);
    ExpressionOfTerm(s, p, Pow(l, r), b);
  }

  lemma TermLevel(s: string, p: nat, op: Kind, l: Node, r: Node, a: nat, o: nat, k: nat, b: nat)
    requires op == Multiplication || op == Division
    requires p <= a && o == a + 1 && k == o + 1 && k < b < |s|
    requires s[a] == ' ' && s[o] == OperatorSymbol(op) && s[b] == ')'
    requires ParseFactor(s, p) == Parsed(l, a) && ParseFactor(s, k) == Parsed(r, b)
    ensures ParseExpression(s, p) == Parsed(Binary(op, l, r), b)
  {
    PowerLoopStopsAtSymbol(s, l, a, o);
    PowerThen(s, p, l, a);
    PowerOfFactor(s, k, r, b);
    TermStep(s, op, l, r, o, k, b);
    LoopsStop(s, Binary(op, l, r), b);
    TermThen(s, p, l, o);
    ExpressionOfTerm(s, p, Binary(op, l, r), b);
  }

  lemma SumLevel(s: string, p: nat, op: Kind, l: Node, r: Node, a: nat, o: nat, k: nat, b: nat)
    requires op == Addition || op == Subtraction
    requires p <= a && o == a + 1 && k == o + 1 && k < b < |s|
    requires s[a] == ' ' && s[o] == OperatorSymbol(op) && s[b] == ')'
    requires ParseFactor(s, p) == Parsed(l, a) && ParseFactor(s, k) == Parsed(r, b)
    ensures ParseExpression(s, p) == Parsed(Binary(op, l, r), b)
  {
    PowerLoopStopsAtSymbol(s, l, a, o);
    PowerThen(s, p, l, a);
    TermLoopStopsAtSymbol(s, l, o);
    TermThen(s, p, l, o);
    PowerOfFactor(s, k, r, b);
    TermOfPower(s, k, r, b);
    SumStep(s, op, l, r, o, k, b);
    LoopsStop(s, Binary(op, l, r), b);
    ExpressionThen(s, p, l, o);
  }

  /** An operator between two operands that `parseFactor` reads, followed by `)`, is
      read by the level of the grammar for its precedence. */
  lemma BinaryBody(s: string, p: nat, t: Node, a: nat, o: nat, k: nat, b: nat)
    requires HasOperands(t) && WellFormed(t) && IsBinary(t.kind)
    requires p <= a && o == a + 1 && k == o + 1 && k < b < |s|
    requires s[a] == ' ' && s[o] == OperatorSymbol(t.kind) && s[b] == ')'
    requires ParseFactor(s, p) == Parsed(t.left.node, a) && ParseFactor(s, k) == Parsed(t.right.node, b)
    ensures ParseExpression(s, p) == Parsed(t, b)
  {
    var l, r := t.left.node, t.right.node;
    assert t == Binary(t.kind, l, r);
    if t.kind == Exponentiation {
      PowerLevel(s, p, l, r, a, o, k, b);
    } else if t.kind == Multiplication || t.kind == Division {
      TermLevel(s, p, t.kind, l, r, a, o, k, b);
    } else {
      SumLevel(s, p, t.kind, l, r, a, o, k, b);
    }
  }

  // ---- Factors ----

  /** `parseFactor` on `(`, an expression that ends at `b` and `)`. */
  lemma ParenthesisedFactor(s: string, pos: nat, t: Node, b: nat, e: nat)
    requires pos < b < |s| && s[pos] == '(' && s[b] == ')' && e == b + 1
    requires ParseExpression(s, pos + 1) == Parsed(t, b)
    ensures ParseFactor(s, pos) == Parsed(t, e)
  {
    assert SkipWs(s, pos) == pos;
    assert SkipWs(s, b) == b;
  }

  /** `parseFactor` at a letter is `parseFunctionOrVariable`. */
  lemma FactorAtLetter(s: string, pos: nat)
    requires pos < |s| && IsAlpha(s[pos])
    ensures ParseFactor(s, pos) == ParseFunctionOrVariable(s, pos)
  {
    SkipNone(s, pos);
  }

  /** `parseFactor` at a digit is `parseNumber`. */
  lemma FactorAtDigit(s: string, pos: nat)
    requires pos < |s| && IsDigit(s[pos])
    ensures ParseFactor(s, pos) == ParseNumber(s, pos)
  {
    SkipNone(s, pos);
  }

  /** `parseFunctionOrVariable` on a function name ending at `f`, `(`, an argument from
      `g` that ends at `b` and `)`. */
  lemma CallRead(s: string, pos: nat, k: Kind, arg: Node, f: nat, g: nat, b: nat, e: nat)
    requires pos <= f && g == f + 1 && g <= b < |s| && e == b + 1
    requires s[f] == '(' && s[b] == ')'
    requires SpanEnd(s, pos, Letter) == f && FunctionKind(s[pos..f]) == Some(k)
    requires ParseExpression(s, g) == Parsed(arg, b)
    ensures ParseFunctionOrVariable(s, pos) == Parsed(Unary(k, arg), e)
  {
    SkipNone(s, f);
    SkipNone(s, b);
    assert FunctionKind(s[pos..SpanEnd(s, pos, Letter)]) == Some(k);
    assert Peek(s, SkipWs(s, f)) == '(';
    assert ParseExpression(s, SkipWs(s, f) + 1) == Parsed(arg, b);
    assert Peek(s, SkipWs(s, b)) == ')';
  }

  /** `parseFactor` on a printed call whose pieces are read back. */
  lemma CallFactor(s: string, pos: nat, t: Node, f: nat, g: nat, b: nat, e: nat)
    requires HasOperands(t) && WellFormed(t) && IsUnary(t.kind)
    requires pos < f && g == f + 1 && g <= b < |s| && e == b + 1
    requires s[f] == '(' && s[b] == ')' && IsAlpha(s[pos])
    requires SpanEnd(s, pos, Letter) == f && s[pos..f] == FunctionName(t.kind)
    requires FunctionKind(FunctionName(t.kind)) == Some(t.kind)
    requires ParseExpression(s, g) == Parsed(t.left.node, b)
    ensures ParseFactor(s, pos) == Parsed(t, e)
  {
    CallRead(s, pos, t.kind, t.left.node, f, g, b, e);
    FactorAtLetter(s, pos);
    assert t == Unary(t.kind, t.left.node);
  }

  /** A printed literal is read back by `parseFactor`. */
  lemma NumberOfPrinted(s: string, pos: nat, t: Node, e: nat)
    requires Reparsable(t) && t.kind == Number && Printed(s, pos, t)
    requires e == pos + |ToString(t)| && Boundary(s, e)
    ensures ParseFactor(s, pos) == Parsed(t, e)
  {
    var text := NatToString(t.value);
    assert ToString(t) == text;
    assert forall j :: pos <= j < e ==> s[j] == text[j - pos];
    SpanOfRun(s, pos, e, NumberChar);
    FactorAtDigit(s, pos);
    assert s[pos..e] == text;
    assert t == NumberNode(t.value);
  }

  /** A printed variable is read back by `parseFactor`. */
  lemma VariableOfPrinted(s: string, pos: nat, t: Node, e: nat)
    requires Reparsable(t) && t.kind == Variable && Printed(s, pos, t)
    requires e == pos + |ToString(t)| && Boundary(s, e)
    ensures ParseFactor(s, pos) == Parsed(t, e)
  {
    assert ToString(t) == t.name;
    assert forall j :: pos <= j < e ==> s[j] == t.name[j - pos];
    SpanOfRun(s, pos, e, Letter);
    FactorAtLetter(s, pos);
    assert s[pos..e] == t.name;
    assert t == VariableNode(t.name);
  }

  // ---- The round trip, by induction on the tree ----

  /** A printed tree is read back by `parseFactor`, up to the end of its text. */
  lemma {:induction false} FactorOfPrinted(s: string, pos: nat, t: Node, e: nat)
    requires Reparsable(t) && Printed(s, pos, t)
    requires e == pos + |ToString(t)| && Boundary(s, e)
    ensures ParseFactor(s, pos) == Parsed(t, e)
    decreases t, 3
  {
    if t.kind == Number {
      NumberOfPrinted(s, pos, t, e);
    } else if t.kind == Variable {
      VariableOfPrinted(s, pos, t, e);
    } else if IsBinary(t.kind) {
      var a := pos + 1 + |ToString(t.left.node)|;
      var b := a + 3 + |ToString(t.right.node)|;
      BinaryLayout(s, pos, t, a, a + 1, a + 2, a + 3, b);
      BodyOfPrinted(s, pos, t, a, b);
      ParenthesisedFactor(s, pos, t, b, e);
    } else {
      CallOfPrinted(s, pos, t, e);
    }
  }

  /** The text between the parentheses of a printed binary node is read back by
      `parseExpression`, up to the closing parenthesis at `b`. */
  lemma {:induction false} BodyOfPrinted(s: string, pos: nat, t: Node, a: nat, b: nat)
    requires Reparsable(t) && IsBinary(t.kind) && Printed(s, pos, t)
    requires a == pos + 1 + |ToString(t.left.node)| && b == a + 3 + |ToString(t.right.node)|
    ensures ParseExpression(s, pos + 1) == Parsed(t, b)
    decreases t, 2
  {
    var o, k, c := a + 1, a + 2, a + 3;
    BinaryLayout(s, pos, t, a, o, k, c, b);
    FactorOfPrinted(s, pos + 1, t.left.node, a);
    FactorOfPrinted(s, c, t.right.node, b);
    FactorAfterBlank(s, k, c);
    BinaryBody(s, pos + 1, t, a, o, k, b);
  }

  /** A printed call is read back by `parseFactor`. */
  lemma {:induction false} CallOfPrinted(s: string, pos: nat, t: Node, e: nat)
    requires Reparsable(t) && IsUnary(t.kind) && Printed(s, pos, t)
    requires e == pos + |ToString(t)|
    ensures ParseFactor(s, pos) == Parsed(t, e)
    decreases t, 2
  {
    var f := pos + |FunctionName(t.kind)|;
    var g := f + 1;
    var b := g + |ToString(t.left.node)|;
    UnaryLayout(s, pos, t, f, g, b);
    FunctionNameLexes(s, pos, t.kind, f);
    ExpressionOfPrinted(s, g, t.left.node, b);
    CallFactor(s, pos, t, f, g, b, e);
  }

  /** A printed tree followed by the end of the text or `)` is read back by
      `parseExpression`. */
  lemma {:induction false} ExpressionOfPrinted(s: string, pos: nat, t: Node, e: nat)
    requires Reparsable(t) && Printed(s, pos, t)
    requires e == pos + |ToString(t)| && Stops(s, e)
    ensures ParseExpression(s, pos) == Parsed(t, e)
    decreases t, 4
  {
    FactorOfPrinted(s, pos, t, e);
    ExpressionOfFactor(s, pos, t, e);
  }

  /** `parse(to_string())` gives back every tree the parser can build. */
  lemma ParsePrinted(t: Node)
    requires Reparsable(t)
    ensures Parse(ToString(t)) == Success(t)
  {
    var s := ToString(t);
    assert s[0..|s|] == s;
    ExpressionOfPrinted(s, 0, t, |s|);
  }

  /** Printing a parsed tree and parsing the text again gives the same tree. */
  lemma ReparsePrinted(s: string)
    requires Parse(s).Success?
    ensures Parse(ToString(Parse(s).value)) == Parse(s)
  {
    ParsePrinted(Parse(s).value);
  }
}

/** The recursive-descent grammar of `Expression::parse` (MyExpression.hpp:82-85,
    298-470) as functions of the text and a cursor: each returns the tree it built and
    the cursor where the C++ helper leaves `pos`, or the exception it throws. The
    `while` loops of the helpers are the tail-recursive `...Loop` functions. */
module Grammar {
  import opened Wrappers
  import opened ExprTree
  import opened Chars

  /** The `std::runtime_error`s of the parser, and the `std::invalid_argument` that
      `std::stod` throws for a number lexeme without a digit. */
  datatype ParseError =
    | UnexpectedEnd                      // "Unexpected end of expression"
    | ExpectedClosingParen               // "Expected ')'"
    | UnexpectedCharacter(c: char)       // "Unexpected character: c"
    | ExpectedOpenAfter(fname: string)   // "Expected '(' after 'sin'"
    | ExpectedCloseAfter(fname: string)  // "Expected ')' after sin argument"
    | InvalidNumber(lexeme: string)

  /** What a parsing helper yields: the tree it built and the cursor position after
      it, or the exception it throws. */
  datatype ParseResult = Parsed(tree: Node, next: nat) | Fail(error: ParseError)

  /** `expr[pos]` for `pos <= expr.size()`: at the end `std::string` yields '\0', which
      fails every character test of the parser. */
  function Peek(s: string, i: nat): char
    requires i <= |s|
  {
    if i < |s| then s[i] else '\0'
  }

  /** The character classes the parser scans runs of: blanks (`isspace`), the
      characters of a number lexeme, letters (`isalpha`), and the digits `std::stod`
      reads. */
  datatype CharClass = Blank | NumberChar | Letter | Digit

  predicate InClass(c: char, cls: CharClass) {
    match cls
    case Blank => IsSpace(c)
    case NumberChar => IsDigit(c) || c == '.'
    case Letter => IsAlpha(c)
    case Digit => IsDigit(c)
  }

  /** The end of the maximal run of characters of class `cls` that starts at `pos`. */
  function SpanEnd(s: string, pos: nat, cls: CharClass): (e: nat)
    requires pos <= |s|
    ensures pos <= e <= |s|
    ensures forall k :: pos <= k < e ==> InClass(s[k], cls)
    ensures e == |s| || !InClass(s[e], cls)
    decreases |s| - pos
  {
    if pos < |s| && InClass(s[pos], cls) then SpanEnd(s, pos + 1, cls) else pos
  }

  /** `skipWhitespace`: the first position at or after `pos` that is not blank. */
  function SkipWs(s: string, pos: nat): nat
    requires pos <= |s|
  {
    SpanEnd(s, pos, Blank)
  }

  /** `skipWhitespace` passes over blanks only, and stops at the first character that
      is not one, or at the end of the text. */
  lemma SkipWsStopsAtNonBlank(s: string, pos: nat)
    requires pos <= |s|
    ensures pos <= SkipWs(s, pos) <= |s|
    ensures forall k :: pos <= k < SkipWs(s, pos) ==> IsSpace(s[k])
    ensures SkipWs(s, pos) == |s| || !IsSpace(s[SkipWs(s, pos)])
  {
  }

  /** `static_cast<int>(std::stod(lexeme))` on a run of digits and dots: `std::stod`
      reads the longest prefix `digits [. digits]`, which must hold a digit, and the
      cast truncates the `double` nearest to that prefix. The model has no floating
      point and takes the exact integer part of the decimal prefix instead. The two
      agree on every run of digits in the range of `int`, and on a fraction unless its
      nearest `double` is already the next integer (`0.99999999999999999` reads as 1 in
      C++ and as 0 here). */
  function Stod(lexeme: string): (r: Result<int, ParseError>)
    requires forall k :: 0 <= k < |lexeme| ==> InClass(lexeme[k], NumberChar)
    ensures |lexeme| > 0 && AllDigits(lexeme) ==> r == Success(DecimalValue(lexeme))
    ensures r.Success? ==> r.value >= 0
    ensures r.Failure? <==> |lexeme| == 0 || (lexeme[0] == '.' && (|lexeme| == 1 || lexeme[1] == '.'))
  {
    var d := SpanEnd(lexeme, 0, Digit);
    if d > 0 || (|lexeme| >= 2 && IsDigit(lexeme[1])) then
      assert AllDigits(lexeme[..d]);
      assert AllDigits(lexeme) ==> d == |lexeme| && lexeme[..d] == lexeme;
      Success(DecimalValue(lexeme[..d]))
    else
      assert |lexeme| > 0 ==> InClass(lexeme[0], NumberChar);
      assert |lexeme| > 1 ==> InClass(lexeme[1], NumberChar);
      Failure(InvalidNumber(lexeme))
  }

  /** The unary kind a reserved function name stands for. */
  function FunctionKind(token: string): (k: Option<Kind>)
    ensures k.Some? ==> IsUnary(k.value)
    ensures k.Some? <==> token == "sin" || token == "cos" || token == "exp" || token == "ln"
  {
    if token == "sin" then Some(Sin)
    else if token == "cos" then Some(Cos)
    else if token == "exp" then Some(Exp)
    else if token == "ln" then Some(Ln)
    else None
  }

  predicate IsIdentifier(name: string) {
    |name| > 0 && forall k :: 0 <= k < |name| ==> IsAlpha(name[k])
  }

  /** The leaves the grammar can produce: non-negative literals, and variables named by
      an identifier other than the four function names. */
  predicate LeavesReparsable(t: Node)
    decreases t
  {
    && (t.kind == Number ==> t.value >= 0)
    && (t.kind == Variable ==> IsIdentifier(t.name) && FunctionKind(t.name).None?)
    && (t.left.Ptr? ==> LeavesReparsable(t.left.node))
    && (t.right.Ptr? ==> LeavesReparsable(t.right.node))
  }

  /** The trees the parser builds, and whose printed text it reads back. */
  predicate Reparsable(t: Node) {
    WellFormed(t) && LeavesReparsable(t)
  }

  /** `parse`: the expression at the start of the text; whatever follows it is ignored. */
  function Parse(s: string): (r: Result<Node, ParseError>)
    ensures r.Success? ==> Reparsable(r.value)
  {
    match ParseExpression(s, 0)
    case Fail(e) => Failure(e)
    case Parsed(t, _) => ExpressionReparsable(s, 0); Success(t)
  }

  /** `parseExpression`: terms separated by `+` or `-`, folded to the left. */
  function ParseExpression(s: string, pos: nat): (r: ParseResult)
    requires pos <= |s|
    ensures r.Parsed? ==> pos <= r.next <= |s|
    decreases |s| - pos, 4
  {
    match ParseTerm(s, pos)
    case Fail(e) => Fail(e)
    case Parsed(first, next) => ExpressionLoop(s, first, next)
  }

  function ExpressionLoop(s: string, left: Node, pos: nat): (r: ParseResult)
    requires pos <= |s|
    ensures r.Parsed? ==> pos <= r.next <= |s|
    decreases |s| - pos, 3
  {
    if pos < |s| then
      var p := SkipWs(s, pos);
      var op := Peek(s, p);
      if op == '+' || op == '-' then
        match ParseTerm(s, p + 1)
        case Fail(e) => Fail(e)
        case Parsed(right, next) =>
          ExpressionLoop(s, if op == '+' then Add(left, right) else Sub(left, right), next)
      else
        Parsed(left, p)
    else
      Parsed(left, pos)
  }

  /** `parseTerm`: powers separated by `*` or `/`, folded to the left. */
  function ParseTerm(s: string, pos: nat): (r: ParseResult)
    requires pos <= |s|
    ensures r.Parsed? ==> pos <= r.next <= |s|
    decreases |s| - pos, 3
  {
    match ParsePower(s, pos)
    case Fail(e) => Fail(e)
    case Parsed(first, next) => TermLoop(s, first, next)
  }

  function TermLoop(s: string, left: Node, pos: nat): (r: ParseResult)
    requires pos <= |s|
    ensures r.Parsed? ==> pos <= r.next <= |s|
    decreases |s| - pos, 2
  {
    if pos < |s| then
      var p := SkipWs(s, pos);
      var op := Peek(s, p);
      if op == '*' || op == '/' then
        match ParsePower(s, p + 1)
        case Fail(e) => Fail(e)
        case Parsed(right, next) =>
          TermLoop(s, if op == '*' then Mul(left, right) else Div(left, right), next)
      else
        Parsed(left, p)
    else
      Parsed(left, pos)
  }

  /** `parsePower`: factors separated by `^`, folded to the left as well. */
  function ParsePower(s: string, pos: nat): (r: ParseResult)
    requires pos <= |s|
    ensures r.Parsed? ==> pos <= r.next <= |s|
    decreases |s| - pos, 2
  {
    match ParseFactor(s, pos)
    case Fail(e) => Fail(e)
    case Parsed(first, next) => PowerLoop(s, first, next)
  }

  function PowerLoop(s: string, left: Node, pos: nat): (r: ParseResult)
    requires pos <= |s|
    ensures r.Parsed? ==> pos <= r.next <= |s|
    decreases |s| - pos, 1
  {
    if pos < |s| then
      var p := SkipWs(s, pos);
      if Peek(s, p) == '^' then
        match ParseFactor(s, p + 1)
        case Fail(e) => Fail(e)
        case Parsed(right, next) => PowerLoop(s, Pow(left, right), next)
      else
        Parsed(left, p)
    else
      Parsed(left, pos)
  }

  /** `parseFactor`: after blanks, a parenthesised expression, a number, a function call
      or variable, or `-` and a factor, which becomes `0 - factor`. */
  function ParseFactor(s: string, pos: nat): (r: ParseResult)
    requires pos <= |s|
    ensures r.Parsed? ==> pos <= r.next <= |s|
    decreases |s| - pos, 1
  {
    var p := SkipWs(s, pos);
    if p >= |s| then
      Fail(UnexpectedEnd)
    else if s[p] == '(' then
      match ParseExpression(s, p + 1)
      case Fail(e) => Fail(e)
      case Parsed(inner, next) =>
        var q := SkipWs(s, next);
        if q >= |s| || s[q] != ')' then Fail(ExpectedClosingParen)
        else Parsed(inner, q + 1)
    else if IsDigit(s[p]) || s[p] == '.' then
      ParseNumber(s, p)
    else if IsAlpha(s[p]) then
      ParseFunctionOrVariable(s, p)
    else if s[p] == '-' then
      match ParseFactor(s, p + 1)
      case Fail(e) => Fail(e)
      case Parsed(operand, next) => Parsed(Binary(Subtraction, NumberNode(0), operand), next)
    else
      Fail(UnexpectedCharacter(s[p]))
  }

  /** `parseNumber`: the maximal run of digits and dots, converted by `Stod`. */
  function ParseNumber(s: string, pos: nat): (r: ParseResult)
    requires pos <= |s|
    ensures r.Parsed? ==> pos < r.next <= |s|
  {
    var e := SpanEnd(s, pos, NumberChar);
    match Stod(s[pos..e])
    case Failure(err) => Fail(err)
    case Success(v) => Parsed(NumberNode(v), e)
  }

  /** `parseFunctionOrVariable`: the maximal run of letters; `sin`, `cos`, `exp` and `ln`
      must be followed by a parenthesised argument, any other run is a variable. */
  function ParseFunctionOrVariable(s: string, pos: nat): (r: ParseResult)
    requires pos <= |s|
    ensures r.Parsed? ==> pos <= r.next <= |s|
    decreases |s| - pos, 0
  {
    var e := SpanEnd(s, pos, Letter);
    var token := s[pos..e];
    match FunctionKind(token)
    case None =>
      Parsed(VariableNode(token), e)
    case Some(k) =>
      var p := SkipWs(s, e);
      if Peek(s, p) != '(' then
        Fail(ExpectedOpenAfter(token))
      else
        match ParseExpression(s, p + 1)
        case Fail(err) => Fail(err)
        case Parsed(arg, next) =>
          var q := SkipWs(s, next);
          if Peek(s, q) != ')' then Fail(ExpectedCloseAfter(token))
          else Parsed(Unary(k, arg), q + 1)
  }

  // ---- The grammar builds only reparsable trees ----
  // One lemma per production, by induction along the same measure as the parser.

  /** A binary node over reparsable operands is reparsable. */
  lemma BinaryReparsable(op: Kind, a: Node, b: Node)
    requires IsBinary(op) && Reparsable(a) && Reparsable(b)
    ensures Reparsable(Binary(op, a, b))
  {
  }

  lemma {:induction false} ExpressionReparsable(s: string, pos: nat)
    requires pos <= |s|
    ensures var r := ParseExpression(s, pos); r.Parsed? ==> Reparsable(r.tree)
    decreases |s| - pos, 4
  {
    var first := ParseTerm(s, pos);
    if first.Parsed? {
      TermReparsable(s, pos);
      ExpressionLoopReparsable(s, first.tree, first.next);
    }
  }

  lemma {:induction false} ExpressionLoopReparsable(s: string, left: Node, pos: nat)
    requires pos <= |s| && Reparsable(left)
    ensures var r := ExpressionLoop(s, left, pos); r.Parsed? ==> Reparsable(r.tree)
    decreases |s| - pos, 3
  {
    if pos < |s| {
      var p := SkipWs(s, pos);
      var op := Peek(s, p);
      if op == '+' || op == '-' {
        var right := ParseTerm(s, p + 1);
        if right.Parsed? {
          TermReparsable(s, p + 1);
          var kind := if op == '+' then Addition else Subtraction;
          BinaryReparsable(kind, left, right.tree);
          assert ExpressionLoop(s, left, pos) == ExpressionLoop(s, Binary(kind, left, right.tree), right.next);
          ExpressionLoopReparsable(s, Binary(kind, left, right.tree), right.next);
        }
      }
    }
  }

  lemma {:induction false} TermReparsable(s: string, pos: nat)
    requires pos <= |s|
    ensures var r := ParseTerm(s, pos); r.Parsed? ==> Reparsable(r.tree)
    decreases |s| - pos, 3
  {
    var first := ParsePower(s, pos);
    if first.Parsed? {
      PowerReparsable(s, pos);
      TermLoopReparsable(s, first.tree, first.next);
    }
  }

  lemma {:induction false} TermLoopReparsable(s: string, left: Node, pos: nat)
    requires pos <= |s| && Reparsable(left)
    ensures var r := TermLoop(s, left, pos); r.Parsed? ==> Reparsable(r.tree)
    decreases |s| - pos, 2
  {
    if pos < |s| {
      var p := SkipWs(s, pos);
      var op := Peek(s, p);
      if op == '*' || op == '/' {
        var right := ParsePower(s, p + 1);
        if right.Parsed? {
          PowerReparsable(s, p + 1);
          var kind := if op == '*' then Multiplication else Division;
          BinaryReparsable(kind, left, right.tree);
          assert TermLoop(s, left, pos) == TermLoop(s, Binary(kind, left, right.tree), right.next);
          TermLoopReparsable(s, Binary(kind, left, right.tree), right.next);
        }
      }
    }
  }

  lemma {:induction false} PowerReparsable(s: string, pos: nat)
    requires pos <= |s|
    ensures var r := ParsePower(s, pos); r.Parsed? ==> Reparsable(r.tree)
    decreases |s| - pos, 2
  {
    var first := ParseFactor(s, pos);
    if first.Parsed? {
      FactorReparsable(s, pos);
      PowerLoopReparsable(s, first.tree, first.next);
    }
  }

  lemma {:induction false} PowerLoopReparsable(s: string, left: Node, pos: nat)
    requires pos <= |s| && Reparsable(left)
    ensures var r := PowerLoop(s, left, pos); r.Parsed? ==> Reparsable(r.tree)
    decreases |s| - pos, 1
  {
    if pos < |s| {
      var p := SkipWs(s, pos);
      if Peek(s, p) == '^' {
        var right := ParseFactor(s, p + 1);
        if right.Parsed? {
          FactorReparsable(s, p + 1);
          BinaryReparsable(Exponentiation, left, right.tree);
          assert PowerLoop(s, left, pos) == PowerLoop(s, Pow(left, right.tree), right.next);
          PowerLoopReparsable(s, Pow(left, right.tree), right.next);
        }
      }
    }
  }

  lemma {:induction false} FactorReparsable(s: string, pos: nat)
    requires pos <= |s|
    ensures var r := ParseFactor(s, pos); r.Parsed? ==> Reparsable(r.tree)
    decreases |s| - pos, 1
  {
    var p := SkipWs(s, pos);
    if p < |s| {
      if s[p] == '(' {
        ExpressionReparsable(s, p + 1);
      } else if IsDigit(s[p]) || s[p] == '.' {
        NumberReparsable(s, p);
      } else if IsAlpha(s[p]) {
        FunctionOrVariableReparsable(s, p);
      } else if s[p] == '-' {
        var operand := ParseFactor(s, p + 1);
        if operand.Parsed? {
          FactorReparsable(s, p + 1);
          BinaryReparsable(Subtraction, NumberNode(0), operand.tree);
        }
      }
    }
  }

  lemma NumberReparsable(s: string, pos: nat)
    requires pos <= |s|
    ensures var r := ParseNumber(s, pos); r.Parsed? ==> Reparsable(r.tree)
  {
  }

  lemma {:induction false} FunctionOrVariableReparsable(s: string, pos: nat)
    requires pos < |s| && IsAlpha(s[pos])
    ensures var r := ParseFunctionOrVariable(s, pos); r.Parsed? ==> Reparsable(r.tree)
    decreases |s| - pos, 0
  {
    var e := SpanEnd(s, pos, Letter);
    var token := s[pos..e];
    match FunctionKind(token)
    case None =>
      LetterRunIsIdentifier(s, pos);
    case Some(k) =>
      var p := SkipWs(s, e);
      if Peek(s, p) == '(' {
        ExpressionReparsable(s, p + 1);
      }
  }

  /** The run of letters that starts at a letter is an identifier. */
  lemma LetterRunIsIdentifier(s: string, pos: nat)
    requires pos < |s| && IsAlpha(s[pos])
    ensures IsIdentifier(s[pos..SpanEnd(s, pos, Letter)])
  {
    var e := SpanEnd(s, pos, Letter);
    assert forall k :: 0 <= k < e - pos ==> s[pos..e][k] == s[pos + k];
  }

}

/** The parser of MyExpression.hpp as the source writes it: helpers that advance a
    cursor in `while` loops and reassign the tree built so far. The C++ `size_t& pos`
    is passed in and handed back in the result; each method is proved to compute
    exactly the corresponding function of `Grammar`. The `while` loop of each
    operator level is a method of its own, beside the call that parses the first
    operand. */
module Parser {
  import opened Wrappers
  import opened ExprTree
  import opened Chars
  import G = Grammar

  /** `parse` (MyExpression.hpp:82-85). */
  method Parse(expr: string) returns (r: Result<Node, G.ParseError>)
    ensures r == G.Parse(expr)
  {
    var e := ParseExpression(expr, 0);
    if e.Fail? {
      return Failure(e.error);
    }
    return Success(e.tree);
  }

  /** `skipWhitespace` (MyExpression.hpp:466-470). */
  method SkipWhitespace(expr: string, pos: nat) returns (p: nat)
    requires pos <= |expr|
    ensures p == G.SkipWs(expr, pos)
  {
    p := pos;
    while p < |expr| && IsSpace(expr[p])
      invariant pos <= p <= |expr|
      invariant G.SkipWs(expr, p) == G.SkipWs(expr, pos)
      decreases |expr| - p
    {
      p := p + 1;
    }
  }

  /** `parseExpression` (MyExpression.hpp:298-316): the first term, then the loop. */
  method ParseExpression(expr: string, pos: nat) returns (r: G.ParseResult)
    requires pos <= |expr|
    ensures r == G.ParseExpression(expr, pos)
    decreases |expr| - pos, 4
  {
    var first := ParseTerm(expr, pos);
    if first.Fail? {
      return first;
    }
    r := ExpressionLoop(expr, first.tree, first.next);
  }

  /** The `while` loop of `parseExpression` (MyExpression.hpp:300-314): after blanks, a
      `+` or `-` and a term make the tree so far the left operand of a new node; any
      other character, or the end of the text, stops the loop. */
  method ExpressionLoop(expr: string, left: Node, pos: nat) returns (r: G.ParseResult)
    requires pos <= |expr|
    ensures r == G.ExpressionLoop(expr, left, pos)
    decreases |expr| - pos, 3
  {
    var acc, p := left, pos;
    while p < |expr|
      invariant pos <= p <= |expr|
      invariant G.ExpressionLoop(expr, acc, p) == G.ExpressionLoop(expr, left, pos)
      decreases |expr| - p
    {
      p := SkipWhitespace(expr, p);
      var op := if p < |expr| then expr[p] else '\0';
      if op == '+' || op == '-' {
        var right := ParseTerm(expr, p + 1);
        if right.Fail? {
          return right;
        }
        acc := if op == '+' then Add(acc, right.tree) else Sub(acc, right.tree);
        p := right.next;
      } else {
        break;
      }
    }
    return G.Parsed(acc, p);
  }

  /** `parseTerm` (MyExpression.hpp:318-336): the first power, then the loop. */
  method ParseTerm(expr: string, pos: nat) returns (r: G.ParseResult)
    requires pos <= |expr|
    ensures r == G.ParseTerm(expr, pos)
    decreases |expr| - pos, 3
  {
    var first := ParsePower(expr, pos);
    if first.Fail? {
      return first;
    }
    r := TermLoop(expr, first.tree, first.next);
  }

  /** The `while` loop of `parseTerm` (MyExpression.hpp:320-334), over `*` and `/`. */
  method TermLoop(expr: string, left: Node, pos: nat) returns (r: G.ParseResult)
    requires pos <= |expr|
    ensures r == G.TermLoop(expr, left, pos)
    decreases |expr| - pos, 2
  {
    var acc, p := left, pos;
    while p < |expr|
      invariant pos <= p <= |expr|
      invariant G.TermLoop(expr, acc, p) == G.TermLoop(expr, left, pos)
      decreases |expr| - p
    {
      p := SkipWhitespace(expr, p);
      var op := if p < |expr| then expr[p] else '\0';
      if op == '*' || op == '/' {
        var right := ParsePower(expr, p + 1);
        if right.Fail? {
          return right;
        }
        acc := if op == '*' then Mul(acc, right.tree) else Div(acc, right.tree);
        p := right.next;
      } else {
        break;
      }
    }
    return G.Parsed(acc, p);
  }

  /** `parsePower` (MyExpression.hpp:338-352): the first factor, then the loop. */
  method ParsePower(expr: string, pos: nat) returns (r: G.ParseResult)
    requires pos <= |expr|
    ensures r == G.ParsePower(expr, pos)
    decreases |expr| - pos, 2
  {
    var first := ParseFactor(expr, pos);
    if first.Fail? {
      return first;
    }
    r := PowerLoop(expr, first.tree, first.next);
  }

  /** The `while` loop of `parsePower` (MyExpression.hpp:340-350), over `^`. */
  method PowerLoop(expr: string, left: Node, pos: nat) returns (r: G.ParseResult)
    requires pos <= |expr|
    ensures r == G.PowerLoop(expr, left, pos)
    decreases |expr| - pos, 1
  {
    var acc, p := left, pos;
    while p < |expr|
      invariant pos <= p <= |expr|
      invariant G.PowerLoop(expr, acc, p) == G.PowerLoop(expr, left, pos)
      decreases |expr| - p
    {
      p := SkipWhitespace(expr, p);
      if p < |expr| && expr[p] == '^' {
        var right := ParseFactor(expr, p + 1);
        if right.Fail? {
          return right;
        }
        acc := Pow(acc, right.tree);
        p := right.next;
      } else {
        break;
      }
    }
    return G.Parsed(acc, p);
  }

  /** `parseFactor` (MyExpression.hpp:354-385). */
  method ParseFactor(expr: string, pos: nat) returns (r: G.ParseResult)
    requires pos <= |expr|
    ensures r == G.ParseFactor(expr, pos)
    decreases |expr| - pos, 1
  {
    var p := SkipWhitespace(expr, pos);
    if p >= |expr| {
      return G.Fail(G.UnexpectedEnd);
    }
    if expr[p] == '(' {
      var inner := ParseExpression(expr, p + 1);
      if inner.Fail? {
        return inner;
      }
      var q := SkipWhitespace(expr, inner.next);
      if q >= |expr| || expr[q] != ')' {
        return G.Fail(G.ExpectedClosingParen);
      }
      return G.Parsed(inner.tree, q + 1);
    }
    if IsDigit(expr[p]) || expr[p] == '.' {
      r := ParseNumber(expr, p);
      return;
    }
    if IsAlpha(expr[p]) {
      r := ParseFunctionOrVariable(expr, p);
      return;
    }
    if expr[p] == '-' {
      var operand := ParseFactor(expr, p + 1);
      if operand.Fail? {
        return operand;
      }
      return G.Parsed(Binary(Subtraction, NumberNode(0), operand.tree), operand.next);
    }
    return G.Fail(G.UnexpectedCharacter(expr[p]));
  }

  /** The scanning loops of `parseNumber` and `parseFunctionOrVariable`
      (MyExpression.hpp:389-391, 398-400): the cursor advances over the characters
      of the run. */
  method ScanRun(expr: string, pos: nat, cls: G.CharClass) returns (e: nat)
    requires pos <= |expr|
    ensures e == G.SpanEnd(expr, pos, cls)
  {
    e := pos;
    while e < |expr| && G.InClass(expr[e], cls)
      invariant pos <= e <= |expr|
      invariant G.SpanEnd(expr, e, cls) == G.SpanEnd(expr, pos, cls)
      decreases |expr| - e
    {
      e := e + 1;
    }
  }

  /** `parseNumber` (MyExpression.hpp:387-394): the run of digits and dots, converted
      by `Grammar.Stod`. */
  method ParseNumber(expr: string, pos: nat) returns (r: G.ParseResult)
    requires pos <= |expr|
    ensures r == G.ParseNumber(expr, pos)
  {
    var e := ScanRun(expr, pos, G.NumberChar);
    var value := G.Stod(expr[pos..e]);
    if value.Failure? {
      return G.Fail(value.error);
    }
    return G.Parsed(NumberNode(value.value), e);
  }

  /** `parseFunctionOrVariable` (MyExpression.hpp:396-464). The four blocks of the
      source, one per function name, differ only in the name and the kind built. */
  method ParseFunctionOrVariable(expr: string, pos: nat) returns (r: G.ParseResult)
    requires pos <= |expr|
    ensures r == G.ParseFunctionOrVariable(expr, pos)
    decreases |expr| - pos, 0
  {
    var e := ScanRun(expr, pos, G.Letter);
    var token := expr[pos..e];
    var kind := G.FunctionKind(token);
    if kind.None? {
      return G.Parsed(VariableNode(token), e);
    }
    var p := SkipWhitespace(expr, e);
    if p == |expr| || expr[p] != '(' {
      return G.Fail(G.ExpectedOpenAfter(token));
    }
    var arg := ParseExpression(expr, p + 1);
    if arg.Fail? {
      return arg;
    }
    var q := SkipWhitespace(expr, arg.next);
    if q == |expr| || expr[q] != ')' {
      return G.Fail(G.ExpectedCloseAfter(token));
    }
    return G.Parsed(Unary(kind.value, arg.tree), q + 1);
  }
}

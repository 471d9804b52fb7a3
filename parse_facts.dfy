/** What the grammar of `Expression::parse` (MyExpression.hpp:82-85, 298-464) makes of
    operators written between printed operands: the precedence of the three levels, the
    left fold within a level, the prefix `-`, the text after the expression, and the
    exceptions the parser throws. */
module ParseFacts {
  import opened Wrappers
  import opened ExprTree
  import opened Chars
  import opened Printer
  import opened Grammar
  import opened RoundTrip

  /** Two texts around an operator symbol, with a blank on each side, the way
      `to_string` writes it. */
  function Infix(x: string, op: char, y: string): (r: string)
    ensures |r| == |x| + |y| + 3
  {
    x + " " + [op] + " " + y
  }

  // ---- Where the pieces lie ----

  /** Where the pieces of `x op y` lie when that text runs from `p` to `e` in `s`. */
  lemma InfixPieces(s: string, p: nat, x: string, op: char, y: string, a: nat, o: nat, k: nat, c: nat, e: nat)
    requires a == p + |x| && o == a + 1 && k == o + 1 && c == k + 1 && e == c + |y|
    requires e <= |s| && s[p..e] == Infix(x, op, y)
    ensures s[p..a] == x && s[a] == ' ' && s[o] == op && s[k] == ' ' && s[c..e] == y
  {
    var text := Infix(x, op, y);
    assert text[..|x|] == x && text[|x| + 3..] == y;
    SliceOfPrinted(s, p, text, 0, |x|);
    SliceOfPrinted(s, p, text, |x| + 3, |text|);
    var w := s[p..e];
    assert w[|x|] == s[a] && w[|x| + 1] == s[o] && w[|x| + 2] == s[k];
  }

  // ---- Operands ----

  /** A printed operand followed by a blank is read by `parseFactor` up to the blank. */
  lemma OperandBeforeBlank(s: string, p: nat, t: Node, a: nat)
    requires Reparsable(t) && a == p + |ToString(t)| && a < |s|
    requires s[p..a] == ToString(t) && s[a] == ' '
    ensures ParseFactor(s, p) == Parsed(t, a)
  {
    FactorOfPrinted(s, p, t, a);
  }

  /** A blank and a printed operand that ends where every loop stops or at a blank. */
  lemma OperandAfterBlank(s: string, k: nat, t: Node, c: nat, e: nat)
    requires Reparsable(t) && c == k + 1 && e == c + |ToString(t)| && e <= |s|
    requires s[k] == ' ' && s[c..e] == ToString(t) && Boundary(s, e)
    ensures ParseFactor(s, k) == Parsed(t, e)
  {
    FactorOfPrinted(s, c, t, e);
    FactorAfterBlank(s, k, c);
  }

  /** A factor followed by a blank and `+` or `-` is a whole term. */
  lemma TermBeforeSum(s: string, p: nat, t: Node, a: nat, o: nat)
    requires p <= a && o == a + 1 && o < |s| && s[a] == ' ' && (s[o] == '+' || s[o] == '-')
    requires ParseFactor(s, p) == Parsed(t, a)
    ensures ParseTerm(s, p) == Parsed(t, o)
  {
    PowerLoopStopsAtSymbol(s, t, a, o);
    PowerThen(s, p, t, a);
    TermLoopStopsAtSymbol(s, t, o);
    TermThen(s, p, t, o);
  }

  /** A factor followed by a blank and `*` or `/` is a whole power. */
  lemma PowerBeforeProduct(s: string, p: nat, t: Node, a: nat, o: nat)
    requires p <= a && o == a + 1 && o < |s| && s[a] == ' ' && (s[o] == '*' || s[o] == '/')
    requires ParseFactor(s, p) == Parsed(t, a)
    ensures ParsePower(s, p) == Parsed(t, o)
  {
    PowerLoopStopsAtSymbol(s, t, a, o);
    PowerThen(s, p, t, a);
  }

  /** A factor at the end of the text is a whole term. */
  lemma TermAtEnd(s: string, p: nat, t: Node)
    requires p <= |s| && ParseFactor(s, p) == Parsed(t, |s|)
    ensures ParsePower(s, p) == Parsed(t, |s|) && ParseTerm(s, p) == Parsed(t, |s|)
  {
    PowerOfFactor(s, p, t, |s|);
    TermOfPower(s, p, t, |s|);
  }

  /** An exception thrown by `parseFactor` at the start reaches the caller of `parse`. */
  lemma ParseFailsWithFactor(s: string, err: ParseError)
    requires ParseFactor(s, 0) == Fail(err)
    ensures Parse(s) == Failure(err)
  {
    assert ParsePower(s, 0) == Fail(err);
    assert ParseTerm(s, 0) == Fail(err);
    assert ParseExpression(s, 0) == Fail(err);
  }

  // ---- Precedence and the left fold ----

  /** `a ^ b ^ c` is `(a ^ b) ^ c`: exponentiation folds to the left, like the other
      two levels. */
  lemma PowerFoldsLeft(x: Node, y: Node, z: Node)
    requires Reparsable(x) && Reparsable(y) && Reparsable(z)
    ensures Parse(Infix(Infix(ToString(x), '^', ToString(y)), '^', ToString(z)))
         == Success(Pow(Pow(x, y), z))
  {
    var xs, ys, zs := ToString(x), ToString(y), ToString(z);
    var s := Infix(Infix(xs, '^', ys), '^', zs);
    var a1, o1, k1, c1 := |xs|, |xs| + 1, |xs| + 2, |xs| + 3;
    var a2 := c1 + |ys|;
    var o2, k2, c2 := a2 + 1, a2 + 2, a2 + 3;
    var e := c2 + |zs|;
    InfixPieces(s, 0, Infix(xs, '^', ys), '^', zs, a2, o2, k2, c2, e);
    InfixPieces(s, 0, xs, '^', ys, a1, o1, k1, c1, a2);
    OperandBeforeBlank(s, 0, x, a1);
    OperandAfterBlank(s, k1, y, c1, a2);
    OperandAfterBlank(s, k2, z, c2, e);
    PowerStep(s, x, y, a1, o1, k1, a2);
    PowerStep(s, Pow(x, y), z, a2, o2, k2, e);
    LoopsStop(s, Pow(Pow(x, y), z), e);
    PowerThen(s, 0, x, a1);
    TermOfPower(s, 0, Pow(Pow(x, y), z), e);
    ExpressionOfTerm(s, 0, Pow(Pow(x, y), z), e);
  }

  /** `a - b - c` is `(a - b) - c`. */
  lemma DifferenceFoldsLeft(x: Node, y: Node, z: Node)
    requires Reparsable(x) && Reparsable(y) && Reparsable(z)
    ensures Parse(Infix(Infix(ToString(x), '-', ToString(y)), '-', ToString(z)))
         == Success(Sub(Sub(x, y), z))
  {
    var xs, ys, zs := ToString(x), ToString(y), ToString(z);
    var s := Infix(Infix(xs, '-', ys), '-', zs);
    var a1, o1, k1, c1 := |xs|, |xs| + 1, |xs| + 2, |xs| + 3;
    var a2 := c1 + |ys|;
    var o2, k2, c2 := a2 + 1, a2 + 2, a2 + 3;
    var e := c2 + |zs|;
    InfixPieces(s, 0, Infix(xs, '-', ys), '-', zs, a2, o2, k2, c2, e);
    InfixPieces(s, 0, xs, '-', ys, a1, o1, k1, c1, a2);
    OperandBeforeBlank(s, 0, x, a1);
    OperandAfterBlank(s, k1, y, c1, a2);
    OperandAfterBlank(s, k2, z, c2, e);
    TermBeforeSum(s, 0, x, a1, o1);
    TermBeforeSum(s, k1, y, a2, o2);
    TermAtEnd(s, k2, z);
    SubStep(s, x, y, o1, k1, o2);
    SubStep(s, Sub(x, y), z, o2, k2, e);
    LoopsStop(s, Sub(Sub(x, y), z), e);
    ExpressionThen(s, 0, x, o1);
  }

  /** `a / b / c` is `(a / b) / c`. */
  lemma QuotientFoldsLeft(x: Node, y: Node, z: Node)
    requires Reparsable(x) && Reparsable(y) && Reparsable(z)
    ensures Parse(Infix(Infix(ToString(x), '/', ToString(y)), '/', ToString(z)))
         == Success(Div(Div(x, y), z))
  {
    var xs, ys, zs := ToString(x), ToString(y), ToString(z);
    var s := Infix(Infix(xs, '/', ys), '/', zs);
    var a1, o1, k1, c1 := |xs|, |xs| + 1, |xs| + 2, |xs| + 3;
    var a2 := c1 + |ys|;
    var o2, k2, c2 := a2 + 1, a2 + 2, a2 + 3;
    var e := c2 + |zs|;
    InfixPieces(s, 0, Infix(xs, '/', ys), '/', zs, a2, o2, k2, c2, e);
    InfixPieces(s, 0, xs, '/', ys, a1, o1, k1, c1, a2);
    OperandBeforeBlank(s, 0, x, a1);
    OperandAfterBlank(s, k1, y, c1, a2);
    OperandAfterBlank(s, k2, z, c2, e);
    PowerBeforeProduct(s, 0, x, a1, o1);
    PowerBeforeProduct(s, k1, y, a2, o2);
    TermAtEnd(s, k2, z);
    DivStep(s, x, y, o1, k1, o2);
    DivStep(s, Div(x, y), z, o2, k2, e);
    LoopsStop(s, Div(Div(x, y), z), e);
    TermThen(s, 0, x, o1);
    ExpressionOfTerm(s, 0, Div(Div(x, y), z), e);
  }

  /** `a + b * c` is `a + (b * c)`: products bind tighter than sums. */
  lemma ProductBindsTighterThanSum(x: Node, y: Node, z: Node)
    requires Reparsable(x) && Reparsable(y) && Reparsable(z)
    ensures Parse(Infix(Infix(ToString(x), '+', ToString(y)), '*', ToString(z)))
         == Success(Add(x, Mul(y, z)))
  {
    var xs, ys, zs := ToString(x), ToString(y), ToString(z);
    var s := Infix(Infix(xs, '+', ys), '*', zs);
    var a1, o1, k1, c1 := |xs|, |xs| + 1, |xs| + 2, |xs| + 3;
    var a2 := c1 + |ys|;
    var o2, k2, c2 := a2 + 1, a2 + 2, a2 + 3;
    var e := c2 + |zs|;
    InfixPieces(s, 0, Infix(xs, '+', ys), '*', zs, a2, o2, k2, c2, e);
    InfixPieces(s, 0, xs, '+', ys, a1, o1, k1, c1, a2);
    OperandBeforeBlank(s, 0, x, a1);
    OperandAfterBlank(s, k1, y, c1, a2);
    OperandAfterBlank(s, k2, z, c2, e);
    TermBeforeSum(s, 0, x, a1, o1);
    PowerBeforeProduct(s, k1, y, a2, o2);
    TermAtEnd(s, k2, z);
    MulStep(s, y, z, o2, k2, e);
    LoopsStop(s, Mul(y, z), e);
    TermThen(s, k1, y, o2);
    AddStep(s, x, Mul(y, z), o1, k1, e);
    LoopsStop(s, Add(x, Mul(y, z)), e);
    ExpressionThen(s, 0, x, o1);
  }

  /** `a * b ^ c` is `a * (b ^ c)`: powers bind tighter than products. */
  lemma PowerBindsTighterThanProduct(x: Node, y: Node, z: Node)
    requires Reparsable(x) && Reparsable(y) && Reparsable(z)
    ensures Parse(Infix(Infix(ToString(x), '*', ToString(y)), '^', ToString(z)))
         == Success(Mul(x, Pow(y, z)))
  {
    var xs, ys, zs := ToString(x), ToString(y), ToString(z);
    var s := Infix(Infix(xs, '*', ys), '^', zs);
    var a1, o1, k1, c1 := |xs|, |xs| + 1, |xs| + 2, |xs| + 3;
    var a2 := c1 + |ys|;
    var o2, k2, c2 := a2 + 1, a2 + 2, a2 + 3;
    var e := c2 + |zs|;
    InfixPieces(s, 0, Infix(xs, '*', ys), '^', zs, a2, o2, k2, c2, e);
    InfixPieces(s, 0, xs, '*', ys, a1, o1, k1, c1, a2);
    OperandBeforeBlank(s, 0, x, a1);
    OperandAfterBlank(s, k1, y, c1, a2);
    OperandAfterBlank(s, k2, z, c2, e);
    PowerBeforeProduct(s, 0, x, a1, o1);
    PowerStep(s, y, z, a2, o2, k2, e);
    LoopsStop(s, Pow(y, z), e);
    PowerThen(s, k1, y, a2);
    MulStep(s, x, Pow(y, z), o1, k1, e);
    LoopsStop(s, Mul(x, Pow(y, z)), e);
    TermThen(s, 0, x, o1);
    ExpressionOfTerm(s, 0, Mul(x, Pow(y, z)), e);
  }

  // ---- The prefix minus ----

  /** `parseFactor` reads `-` and a factor as `0 - factor`. */
  lemma NegatedFactor(s: string, p: nat, q: nat, t: Node, e: nat)
    requires q == p + 1 && q <= |s| && s[p] == '-' && ParseFactor(s, q) == Parsed(t, e)
    ensures ParseFactor(s, p) == Parsed(Sub(NumberNode(0), t), e)
  {
    SkipNone(s, p);
    assert s[SkipWs(s, p)] == '-';
    assert ParseFactor(s, SkipWs(s, p) + 1) == Parsed(t, e);
  }

  /** `-a ^ b` is `(0 - a) ^ b`: the prefix minus binds tighter than `^`. */
  lemma NegationBindsTighterThanPower(x: Node, y: Node)
    requires Reparsable(x) && Reparsable(y)
    ensures Parse("-" + Infix(ToString(x), '^', ToString(y)))
         == Success(Pow(Sub(NumberNode(0), x), y))
  {
    var xs, ys := ToString(x), ToString(y);
    var s := "-" + Infix(xs, '^', ys);
    var a1, o1, k1, c1 := 1 + |xs|, 2 + |xs|, 3 + |xs|, 4 + |xs|;
    var e := c1 + |ys|;
    assert s[1..e] == Infix(xs, '^', ys);
    InfixPieces(s, 1, xs, '^', ys, a1, o1, k1, c1, e);
    OperandBeforeBlank(s, 1, x, a1);
    NegatedFactor(s, 0, 1, x, a1);
    var n := Sub(NumberNode(0), x);
    OperandAfterBlank(s, k1, y, c1, e);
    PowerStep(s, n, y, a1, o1, k1, e);
    LoopsStop(s, Pow(n, y), e);
    PowerThen(s, 0, n, a1);
    TermOfPower(s, 0, Pow(n, y), e);
    ExpressionOfTerm(s, 0, Pow(n, y), e);
  }

  // ---- Leniency ----

  /** The text after the expression is ignored once a `)` stops the loops. */
  lemma TrailingTextIgnored(t: Node, rest: string)
    requires Reparsable(t)
    ensures Parse(ToString(t) + ")" + rest) == Success(t)
  {
    var ts := ToString(t);
    var s := ts + ")" + rest;
    assert s[0..|ts|] == ts && s[|ts|] == ')';
    ExpressionOfPrinted(s, 0, t, |ts|);
  }

  /** A blank at the very end of the text: the loop of `parsePower` skips it and stops. */
  lemma PowerLoopAtFinalBlank(s: string, l: Node, a: nat)
    requires a + 1 == |s| && s[a] == ' '
    ensures PowerLoop(s, l, a) == Parsed(l, |s|)
  {
    assert SkipWs(s, a) == |s|;
  }

  /** The text after the expression is ignored too when a blank separates it and it
      does not start with a blank or an operator symbol, as in `1 + 1 garbage`. */
  lemma TextAfterBlankIgnored(t: Node, rest: string)
    requires Reparsable(t)
    requires rest == [] || (!IsSpace(rest[0]) && rest[0] !in "+-*/^")
    ensures Parse(ToString(t) + " " + rest) == Success(t)
  {
    var ts := ToString(t);
    var s := ts + " " + rest;
    var a, o := |ts|, |ts| + 1;
    assert s[0..a] == ts && s[a] == ' ';
    OperandBeforeBlank(s, 0, t, a);
    if rest == [] {
      PowerLoopAtFinalBlank(s, t, a);
      PowerThen(s, 0, t, a);
      TermOfPower(s, 0, t, o);
      ExpressionOfTerm(s, 0, t, o);
    } else {
      assert s[o] == rest[0];
      PowerLoopStopsAtSymbol(s, t, a, o);
      PowerThen(s, 0, t, a);
      TermLoopStopsAtSymbol(s, t, o);
      TermThen(s, 0, t, o);
      ExpressionLoopStopsAtSymbol(s, t, o);
      ExpressionThen(s, 0, t, o);
    }
  }

  /** An alphabetic run other than the four function names is a variable. */
  lemma IdentifierIsVariable(name: string)
    requires IsIdentifier(name) && FunctionKind(name).None?
    ensures Parse(name) == Success(VariableNode(name))
  {
    var s := name;
    SpanOfRun(s, 0, |s|, Letter);
    FactorAtLetter(s, 0);
    assert s[0..|s|] == name;
    TermAtEnd(s, 0, VariableNode(name));
    ExpressionOfTerm(s, 0, VariableNode(name), |s|);
  }

  // ---- Exceptions ----

  /** Text of blanks only ends where a factor is expected. */
  lemma BlankTextFails(s: string)
    requires forall i :: 0 <= i < |s| ==> IsSpace(s[i])
    ensures Parse(s) == Failure(UnexpectedEnd)
  {
    SpanOfRun(s, 0, |s|, Blank);
    ParseFailsWithFactor(s, UnexpectedEnd);
  }

  /** A parenthesis that is never closed. */
  lemma UnclosedParenthesisFails(t: Node)
    requires Reparsable(t)
    ensures Parse("(" + ToString(t)) == Failure(ExpectedClosingParen)
  {
    var ts := ToString(t);
    var s := "(" + ts;
    assert s[1..1 + |ts|] == ts;
    ExpressionOfPrinted(s, 1, t, |s|);
    SkipNone(s, 0);
    assert SkipWs(s, |s|) == |s|;
    ParseFailsWithFactor(s, ExpectedClosingParen);
  }

  /** A character that cannot start a factor. */
  lemma UnexpectedCharacterFails(s: string)
    requires |s| > 0 && !IsSpace(s[0]) && s[0] != '(' && s[0] != '-' && s[0] != '.'
    requires !IsDigit(s[0]) && !IsAlpha(s[0])
    ensures Parse(s) == Failure(UnexpectedCharacter(s[0]))
  {
    SkipNone(s, 0);
    ParseFailsWithFactor(s, UnexpectedCharacter(s[0]));
  }

  /** A number lexeme without a digit: `std::stod` throws. */
  lemma LoneDotFails()
    ensures Parse(".") == Failure(InvalidNumber("."))
  {
    var s := ".";
    SpanOfRun(s, 0, 1, NumberChar);
    SkipNone(s, 0);
    assert s[0..1] == ".";
    ParseFailsWithFactor(s, InvalidNumber("."));
  }

  /** `sin`, `cos`, `exp` or `ln` whose next character after any blanks is not `(`,
      as in `sin`, `sin + 1` or `cos x`, is not read as a variable: the parser throws. */
  lemma BareFunctionNameFails(k: Kind, blanks: string, tail: string)
    requires IsUnary(k)
    requires forall i :: 0 <= i < |blanks| ==> IsSpace(blanks[i])
    requires tail == [] || (!IsSpace(tail[0]) && tail[0] != '(')
    requires blanks == [] ==> tail == [] || !IsAlpha(tail[0])
    ensures Parse(FunctionName(k) + blanks + tail) == Failure(ExpectedOpenAfter(FunctionName(k)))
  {
    var n := FunctionName(k);
    var s := n + blanks + tail;
    var f, g := |n|, |n| + |blanks|;
    assert s[0..f] == n;
    assert forall j :: 0 <= j < f ==> s[j] == n[j];
    assert forall j :: f <= j < g ==> s[j] == blanks[j - f];
    assert g < |s| ==> s[g] == tail[0];
    SpanOfRun(s, 0, f, Letter);
    SpanOfRun(s, f, g, Blank);
    assert Peek(s, SkipWs(s, f)) != '(';
    FactorAtLetter(s, 0);
    ParseFailsWithFactor(s, ExpectedOpenAfter(n));
  }

  /** `parseFunctionOrVariable` on a function name ending at `f`, `(`, and an argument
      from `g` that runs to the end of the text. */
  lemma CallReachesEnd(s: string, k: Kind, arg: Node, f: nat, g: nat)
    requires g == f + 1 && g <= |s| && s[f] == '('
    requires SpanEnd(s, 0, Letter) == f && FunctionKind(s[0..f]) == Some(k)
    requires ParseExpression(s, g) == Parsed(arg, |s|)
    ensures ParseFunctionOrVariable(s, 0) == Fail(ExpectedCloseAfter(s[0..f]))
  {
    SkipNone(s, f);
    assert FunctionKind(s[0..SpanEnd(s, 0, Letter)]) == Some(k);
    assert Peek(s, SkipWs(s, f)) == '(';
    assert ParseExpression(s, SkipWs(s, f) + 1) == Parsed(arg, |s|);
    assert SkipWs(s, |s|) == |s|;
  }

  /** A call whose argument is never closed. */
  lemma UnclosedCallFails(k: Kind, t: Node)
    requires IsUnary(k) && Reparsable(t)
    ensures Parse(FunctionName(k) + "(" + ToString(t))
         == Failure(ExpectedCloseAfter(FunctionName(k)))
  {
    var n, ts := FunctionName(k), ToString(t);
    var s := n + "(" + ts;
    var f := |n|;
    assert s[0..f] == n && s[f] == '(' && s[f + 1..|s|] == ts;
    FunctionNameLexes(s, 0, k, f);
    ExpressionOfPrinted(s, f + 1, t, |s|);
    CallReachesEnd(s, k, t, f, f + 1);
    FactorAtLetter(s, 0);
    ParseFailsWithFactor(s, ExpectedCloseAfter(n));
  }
}

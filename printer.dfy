/** `Expression::to_string` (MyExpression.hpp:209-250, and byte for byte the same in
    MyExpression.cpp:125-166): the fully parenthesised text of a tree. */
module Printer {
  import opened ExprTree
  import opened Chars

  function DigitChar(d: nat): (c: char)
    requires d < 10
    ensures IsDigit(c) && DigitValue(c) == d
  {
    ('0' as int + d) as char
  }

  /** A run of decimal digits in the form `std::to_string` writes it: not empty, and
      without a leading zero unless the number is zero itself. */
  predicate Canonical(d: string) {
    |d| > 0 && AllDigits(d) && (|d| == 1 || d[0] != '0')
  }

  /** The decimal digits of a natural number, as `std::to_string` writes them: a
      canonical run of digits denoting the number itself. */
  function NatToString(n: nat): (r: string)
    ensures Canonical(r) && DecimalValue(r) == n
    decreases n
  {
    if n < 10 then
      [DigitChar(n)]
    else
      var prefix := NatToString(n / 10);
      var r := prefix + [DigitChar(n % 10)];
      assert r[..|r| - 1] == prefix;
      assert |prefix| == 1 ==> DecimalValue(prefix) == DigitValue(prefix[0]) by {
        if |prefix| == 1 {
          assert prefix[..0] == [];
        }
      }
      r
  }

  /** A canonical run of digits is the only text `std::to_string` writes for its value:
      `NatToString` and `DecimalValue` are inverse on canonical digits. */
  lemma {:induction false} CanonicalDigitsAreUnique(d: string)
    requires Canonical(d)
    ensures NatToString(DecimalValue(d)) == d
    decreases |d|
  {
    var n := DecimalValue(d);
    var last := d[|d| - 1];
    if |d| == 1 {
      assert d[..|d| - 1] == [];
      assert DecimalValue(d[..|d| - 1]) == 0;
      assert n == DigitValue(last);
      assert DigitChar(n) == last;
    } else {
      var prefix := d[..|d| - 1];
      assert prefix[0] == d[0];
      assert |prefix| == 1 ==> prefix[..0] == [];
      assert DecimalValue(prefix) > 0 by {
        LeadingDigitIsPositive(prefix);
      }
      assert n / 10 == DecimalValue(prefix) && n % 10 == DigitValue(last);
      CanonicalDigitsAreUnique(prefix);
      assert NatToString(n) == NatToString(n / 10) + [DigitChar(n % 10)];
      assert d == prefix + [last];
    }
  }

  /** Digits that do not start with `0` denote a positive number. */
  lemma {:induction false} LeadingDigitIsPositive(d: string)
    requires |d| > 0 && AllDigits(d) && d[0] != '0'
    ensures DecimalValue(d) > 0
    decreases |d|
  {
    if |d| > 1 {
      var prefix := d[..|d| - 1];
      assert prefix[0] == d[0];
      LeadingDigitIsPositive(prefix);
    } else {
      assert d[..0] == [];
    }
  }

  /** `std::to_string(int)`: a minus sign exactly for a negative number, then the
      canonical digits of the magnitude. */
  function IntToString(n: int): (r: string)
    ensures n >= 0 ==> Canonical(r) && DecimalValue(r) == n
    ensures n < 0 ==> |r| > 1 && r[0] == '-' && Canonical(r[1..]) && DecimalValue(r[1..]) == -n
  {
    if n < 0 then
      var digits := NatToString(-n);
      assert ("-" + digits)[1..] == digits;
      "-" + digits
    else
      NatToString(n)
  }

  /** The symbol printed between the operands of a binary kind. */
  function OperatorSymbol(k: Kind): char
    requires IsBinary(k)
  {
    match k
    case Addition => '+'
    case Subtraction => '-'
    case Multiplication => '*'
    case Division => '/'
    case Exponentiation => '^'
  }

  /** The name printed before the parenthesised operand of a unary kind. */
  function FunctionName(k: Kind): string
    requires IsUnary(k)
  {
    match k
    case Sin => "sin"
    case Cos => "cos"
    case Ln => "ln"
    case Exp => "exp"
  }

  /** A number through `std::to_string`, a variable as its name, a binary node as
      `(L op R)` with one blank on each side of the symbol, a unary node as `f(A)`;
      a unary node's `right` child, if any, is never printed. */
  function ToString(t: Node): string
    requires HasOperands(t)
    decreases t
  {
    if t.kind == Number then
      IntToString(t.value)
    else if t.kind == Variable then
      t.name
    else if IsBinary(t.kind) then
      "(" + ToString(t.left.node) + " " + [OperatorSymbol(t.kind)] + " " + ToString(t.right.node) + ")"
    else
      FunctionName(t.kind) + "(" + ToString(t.left.node) + ")"
  }

  /** The assert of MyExpressionTest.cpp:6-11. */
  lemma SymbolTest()
    ensures ToString(VariableNode("x")) == "x"
  {
  }
}

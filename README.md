# Expression trees: a verified model

This project models the expression tree `Expression<T>` of MyExpression.hpp at `T = int`,
together with the earlier draft of the same class in MyExpression.cpp.

The tree is a tagged node of eleven kinds. Numbers and variables are leaves. Addition,
subtraction, multiplication, division and exponentiation are binary. `sin`, `cos`, `ln`
and `exp` are unary. Four operations recurse over it:

- `substitute` replaces every leaf that names a variable with a tree.
- `calculate` evaluates the tree under a map from names to values.
- `to_string` prints the tree fully parenthesised.
- `differentiate` builds the symbolic derivative.

A recursive-descent parser reads trees back from text. Its levels are expression, term,
power and factor, and it advances a cursor through the text.

The project has these modules:

- `ExprTree` (tree.dfy): the node record, the arity invariant `WellFormed`, the
  constructors and the operator combinators.
  - A child (a `std::shared_ptr`) is a `Link`, which is either `Null` or a node.
  - The copy constructor deep-copies children, so a tree is a value.
- `Substitution` (substitute.dfy): `substitute`.
- `Evaluation` (calculate.dfy): `calculate`.
  - The host's `std::pow`, `std::sin`, `std::cos`, `std::log` and `std::exp` are the
    parameter `Host`.
  - Integer division truncates toward zero, as in C++.
- `Printer` (printer.dfy): `to_string`. A number prints in decimal.
- `Chars` (chars.dfy): the `<cctype>` classes the parser tests.
- `Grammar` (grammar.dfy): the parser as functions of the text and the cursor.
  - Each function returns the tree and the cursor where the C++ helper leaves `pos`,
    or the exception it throws.
  - Each `while` loop of the source is a tail-recursive `...Loop` function.
- `Parser` (parser.dfy): the parser as the source writes it, as methods with `while`
  loops over a cursor. Each method is proved to compute its `Grammar` function.
- `Derivative` (differentiate.dfy): `differentiate`, the exact shape of each rule, and
  the derivative checked against forward-mode differentiation.
  - The forward mode carries a value and its rate of change through the same host
    functions.
  - Evaluating the derivative tree gives exactly that rate.
- `RoundTrip` (roundtrip.dfy): `parse(to_string(t)) == t` for every tree the parser
  can build.
- `ParseFacts` (parse_facts.dfy): what the grammar does around operators.
  - Precedence, and the left fold within each level: `^`, `/` and `-`.
  - The prefix minus.
  - Trailing text is ignored.
  - Every exception the parser throws.
- `Draft` (draft.dfy): the draft class of MyExpression.cpp.
  - Its leaf constructors, binary combinators and `to_string` coincide with those
    above, so `NumberNode`, `VariableNode`, `Binary` and `Printer.ToString` model it
    too (MyExpression.cpp:22-35, 45-59, 125-166).
  - The model adds what differs: the two-child composite constructor, the two-argument
    unary combinators, and `calculate`.

Behaviour of the code worth knowing, which the model follows:

- A bare `sin`, `cos`, `exp` or `ln` that is not followed by `(` is not read as a
  variable. The parser throws (`ParseFacts.BareFunctionNameFails`).
- Division has no zero check in the source, and for `int` a zero divisor is undefined
  behaviour. The model reports `UndefinedDivision` for it.
- `ln` has no domain check. Its value is whatever the host's `log` returns.
- The parser's exceptions carry a message and no position, so `ParseError` has no
  position either.
- A number lexeme is any run of digits and dots. `std::stod` reads its longest valid
  prefix, so `1.2.3` is read as 1 and does not fail (`Grammar.Stod`).
- `^` folds to the left (`ParseFacts.PowerFoldsLeft`).
- Text after a complete expression is ignored when it follows a `)` or a blank and does
  not start with an operator (`ParseFacts.TrailingTextIgnored`,
  `ParseFacts.TextAfterBlankIgnored`).

## Model

| member | source | states |
|---|---|---|
| ExprTree.NumberNode | MyExpression.hpp:24-30 | A number node is a well-formed leaf that stores the value and mentions no variable. |
| ExprTree.VariableNode | MyExpression.hpp:32-38 | A variable node is a well-formed leaf that stores the name and mentions exactly that variable. |
| ExprTree.Binary | MyExpression.hpp:40-46 | The binary constructor makes the two operands the children. The node is well formed when they are, and its variables are theirs. |
| ExprTree.Unary | MyExpression.hpp:48-53 | The unary constructor sets only `left`. The node is well formed when its operand is, and it has the operand's variables. |
| ExprTree.CombinatorsWellFormed | MyExpression.hpp:129-155 | Each of the nine combinators builds a well-formed node of its own kind from well-formed operands. |
| Substitution.Substitute | MyExpression.hpp:87-114 | The result's variables are the input's minus `v`, plus the replacement's when `v` occurred. A root that is not a variable keeps its kind. Arity is preserved. If `v` does not occur, the result is the input. |
| Substitution.SubstituteSelf | MyExpression.hpp:88-89 | Replacing `v` by the variable `v` gives back the tree. |
| Substitution.RenameRoundTrip | MyExpression.hpp:87-114 | Renaming `v` to a fresh name and back gives the original tree, so exactly the leaves named `v` are replaced. |
| Substitution.SubstituteIdempotent | MyExpression.hpp:87-114 | Substituting again with a replacement that does not mention `v` changes nothing. |
| Evaluation.TruncDiv | MyExpression.hpp:184-185 | Integer `/` truncates toward zero: the magnitude is the quotient of the magnitudes, and the sign is the product of the signs. |
| Evaluation.Divide | MyExpression.hpp:184-185 | Division fails exactly when the divisor is 0, and otherwise gives the truncated quotient. |
| Evaluation.Calculate | MyExpression.hpp:162-206 | Success implies every variable of the tree is bound in the map. When every variable is bound, evaluation never fails with `UnboundVariable`. |
| Evaluation.BinaryValue | MyExpression.hpp:175-188 | A binary node evaluates to its operator applied to its operands' values. |
| Evaluation.BinaryFails | MyExpression.hpp:175-188 | A binary node fails when either operand fails. |
| Evaluation.UnaryValue | MyExpression.hpp:190-200 | A unary node evaluates to its host function applied to its operand's value. |
| Evaluation.CalculateClosed | MyExpression.hpp:157-160 | `calculate()` evaluates under the empty map, so it succeeds only on a tree without variables. |
| Evaluation.ClosedCalculateFailsOnVariables | MyExpression.hpp:157-160 | `calculate()` uses the empty map, so it fails on every tree that mentions a variable. |
| Evaluation.CalculateReadsOnlyItsVariables | MyExpression.hpp:169-173 | Two maps that agree on the tree's variables give the same result. |
| Evaluation.CalculateSucceedsIff | MyExpression.hpp:162-206 | Without division, evaluation succeeds if and only if every variable is bound. |
| Evaluation.SubstituteThenCalculate | MyExpression.hpp:87-114 | Evaluating a substituted tree equals evaluating the original with `v` bound to the replacement's value. |
| Evaluation.ArithmeticTests | MyExpressionTest.cpp:13-55 | 1+7=8, 1-7=-6, 1*7=7, 4/2=2 and 2^3=8 under `calculate()`, for a host whose `pow` gives 8 for 2 and 3. |
| Printer.NatToString | MyExpression.hpp:213-214 | A natural prints as a non-empty string of decimal digits, without a leading zero unless it is 0, whose value is that natural. |
| Printer.CanonicalDigitsAreUnique | MyExpression.hpp:213-214 | Every digit string without a leading zero is the text of its own value, so the printed digits are the only ones `std::to_string` writes. |
| Printer.IntToString | MyExpression.hpp:213-214 | A number prints as its canonical digits, preceded by `-` exactly when it is negative; the digits denote its magnitude. |
| Printer.ToString | MyExpression.hpp:209-250 | The fully parenthesised text of a tree. Its partner is `RoundTrip.ParsePrinted`: `parse` reads that text back as the same tree. |
| Printer.SymbolTest | MyExpressionTest.cpp:6-11 | The variable `x` prints as `x`. |
| Grammar.SpanEnd | MyExpression.hpp:389-391 | The scan stops at the first character outside the class, or at the end of the text. Every character before that point is in the class. |
| Grammar.SkipWsStopsAtNonBlank | MyExpression.hpp:466-470 | `skipWhitespace` passes over blanks only and stops at the first non-blank character or at the end of the text. |
| Grammar.Stod | MyExpression.hpp:392-393 | A run of digits reads as its decimal value. In the model a lexeme fails exactly when it is empty, or starts with a dot that is not followed by a digit, and a lexeme with a dot reads as the integer part of its decimal prefix. The value is never negative. |
| Grammar.FunctionKind | MyExpression.hpp:403-462 | Exactly `sin`, `cos`, `exp` and `ln` name a unary kind. |
| Grammar.Parse | MyExpression.hpp:82-85 | Every tree `parse` returns is well formed. It has non-negative literals and variables named by identifiers other than the function names. |
| Grammar.ParseExpression | MyExpression.hpp:298-316 | On success the cursor stays within the text and does not move back. |
| Grammar.ExpressionLoop | MyExpression.hpp:300-314 | On success the cursor stays within the text and does not move back. |
| Grammar.ParseTerm | MyExpression.hpp:318-336 | On success the cursor stays within the text and does not move back. |
| Grammar.TermLoop | MyExpression.hpp:320-334 | On success the cursor stays within the text and does not move back. |
| Grammar.ParsePower | MyExpression.hpp:338-352 | On success the cursor stays within the text and does not move back. |
| Grammar.PowerLoop | MyExpression.hpp:340-350 | On success the cursor stays within the text and does not move back. |
| Grammar.ParseFactor | MyExpression.hpp:354-385 | On success the cursor stays within the text and does not move back. |
| Grammar.ParseNumber | MyExpression.hpp:387-394 | On success at least one character is consumed. |
| Grammar.ParseFunctionOrVariable | MyExpression.hpp:396-464 | On success the cursor stays within the text and does not move back. |
| Grammar.ExpressionReparsable | MyExpression.hpp:298-316 | Every tree `parseExpression` builds is one the printer and the parser read back. |
| Grammar.FactorReparsable | MyExpression.hpp:354-385 | Every tree `parseFactor` builds is one the printer and the parser read back. |
| Parser.Parse | MyExpression.hpp:82-85 | The method computes `Grammar.Parse`. |
| Parser.SkipWhitespace | MyExpression.hpp:466-470 | The loop stops where `Grammar.SkipWs` does. |
| Parser.ParseExpression | MyExpression.hpp:298-316 | The method computes `Grammar.ParseExpression`. |
| Parser.ExpressionLoop | MyExpression.hpp:300-314 | The `while` loop over `+` and `-` computes `Grammar.ExpressionLoop`. |
| Parser.ParseTerm | MyExpression.hpp:318-336 | The method computes `Grammar.ParseTerm`. |
| Parser.TermLoop | MyExpression.hpp:320-334 | The `while` loop over `*` and `/` computes `Grammar.TermLoop`. |
| Parser.ParsePower | MyExpression.hpp:338-352 | The method computes `Grammar.ParsePower`. |
| Parser.PowerLoop | MyExpression.hpp:340-350 | The `while` loop over `^` computes `Grammar.PowerLoop`. |
| Parser.ParseFactor | MyExpression.hpp:354-385 | The method computes `Grammar.ParseFactor`. |
| Parser.ScanRun | MyExpression.hpp:389-391 | The scanning loop stops where `Grammar.SpanEnd` does. |
| Parser.ParseNumber | MyExpression.hpp:387-394 | The method computes `Grammar.ParseNumber`. |
| Parser.ParseFunctionOrVariable | MyExpression.hpp:396-464 | The method computes `Grammar.ParseFunctionOrVariable`. |
| Derivative.BinaryDerivative | MyExpression.hpp:260-278 | A binary rule's result is well formed when its inputs are. It mentions only the operands' variables and the variables of their derivatives. |
| Derivative.UnaryDerivative | MyExpression.hpp:280-290 | A chain-rule result is well formed when its inputs are. It mentions only the operand's variables and the variables of its derivative. |
| Derivative.Differentiate | MyExpression.hpp:252-295 | The derivative is well formed when the input is, and it mentions no variable the input does not. |
| Derivative.SumRule | MyExpression.hpp:260-261 | d(l + r) = dl + dr. |
| Derivative.DifferenceRule | MyExpression.hpp:263-264 | d(l - r) = dl - dr. |
| Derivative.ProductRule | MyExpression.hpp:266-268 | d(l * r) = dl * r + l * dr. |
| Derivative.QuotientRule | MyExpression.hpp:270-273 | d(l / r) = (dl * r - l * dr) / r ^ 2. |
| Derivative.PowerRule | MyExpression.hpp:275-278 | d(l ^ r) = (l ^ r) * (dr * ln(l) + (r * dl) / l). |
| Derivative.SinRule | MyExpression.hpp:280-281 | d sin(l) = cos(l) * dl. |
| Derivative.CosRule | MyExpression.hpp:283-284 | d cos(l) = (-1 * sin(l)) * dl. |
| Derivative.LnRule | MyExpression.hpp:286-287 | d ln(l) = dl / l. |
| Derivative.ExpRule | MyExpression.hpp:289-290 | d exp(l) = exp(l) * dl. |
| Derivative.DerivativeIsForwardMode | MyExpression.hpp:252-295 | Forward-mode differentiation succeeds exactly when both the tree and its derivative tree evaluate. Its value is then `calculate` of the tree, and its rate is `calculate` of the derivative tree. |
| Derivative.QuotientRuleAgrees | MyExpression.hpp:270-273 | On operands that evaluate, the forward-mode quotient succeeds exactly when the quotient and the quotient-rule tree both evaluate. The rate is then the value of that tree. |
| Derivative.PowerRuleAgrees | MyExpression.hpp:275-278 | On operands that evaluate, the forward-mode power succeeds exactly when the power-rule tree evaluates. The rate is then the value of that tree, and the value is the host's `pow`. |
| Derivative.ConstantHasRateZero | MyExpression.hpp:252-258 | A tree that does not mention `v` has forward-mode rate 0 in `v`. |
| Derivative.DerivativeOfConstantIsZero | MyExpression.hpp:252-258 | The derivative in a variable the tree does not mention evaluates to 0 wherever it evaluates. |
| Derivative.DerivativeExamples | MyExpression.hpp:252-268 | d5/dx = 0, dy/dx = 0, and d(x * x)/dx at x = 3 evaluates to 6. |
| RoundTrip.ParsePrinted | MyExpression.hpp:209-250 | `parse(to_string(t)) == t` for every well-formed tree with non-negative literals and variables named by identifiers other than the function names. |
| RoundTrip.ReparsePrinted | MyExpression.hpp:82-85 | Printing a parsed tree and parsing the text again gives the same tree. |
| RoundTrip.FactorOfPrinted | MyExpression.hpp:354-385 | `parseFactor` reads a printed tree back up to the end of its text. |
| RoundTrip.ExpressionOfPrinted | MyExpression.hpp:298-316 | `parseExpression` reads a printed tree back when the end of the text or a `)` follows it. |
| RoundTrip.LoopsStop | MyExpression.hpp:300-350 | At the end of the text or at `)`, all three operator loops return the tree built so far. |
| ParseFacts.PowerFoldsLeft | MyExpression.hpp:338-352 | `a ^ b ^ c` parses as `(a ^ b) ^ c`. |
| ParseFacts.DifferenceFoldsLeft | MyExpression.hpp:298-316 | `a - b - c` parses as `(a - b) - c`. |
| ParseFacts.QuotientFoldsLeft | MyExpression.hpp:318-336 | `a / b / c` parses as `(a / b) / c`. |
| ParseFacts.ProductBindsTighterThanSum | MyExpression.hpp:318-336 | `a + b * c` parses as `a + (b * c)`. |
| ParseFacts.PowerBindsTighterThanProduct | MyExpression.hpp:338-352 | `a * b ^ c` parses as `a * (b ^ c)`. |
| ParseFacts.NegatedFactor | MyExpression.hpp:379-382 | A `-` and a factor parse as `0 - factor`. |
| ParseFacts.NegationBindsTighterThanPower | MyExpression.hpp:379-382 | `-a ^ b` parses as `(0 - a) ^ b`. |
| ParseFacts.TrailingTextIgnored | MyExpression.hpp:82-85 | Any text after a complete expression and a `)` is ignored. |
| ParseFacts.TextAfterBlankIgnored | MyExpression.hpp:82-85 | After a complete expression and a blank, any text that is empty or does not start with a blank or one of `+ - * / ^` is ignored, as in `1 + 1 garbage`. |
| ParseFacts.IdentifierIsVariable | MyExpression.hpp:463 | An alphabetic run other than the four function names parses as a variable of that name. |
| ParseFacts.BlankTextFails | MyExpression.hpp:355-358 | Text of blanks only throws "Unexpected end of expression". |
| ParseFacts.UnclosedParenthesisFails | MyExpression.hpp:363-366 | `(` followed by an expression and no `)` throws "Expected ')'". |
| ParseFacts.UnexpectedCharacterFails | MyExpression.hpp:384 | A character that cannot start a factor throws "Unexpected character". |
| ParseFacts.LoneDotFails | MyExpression.hpp:393 | The lexeme `.` makes `std::stod` throw. |
| ParseFacts.BareFunctionNameFails | MyExpression.hpp:403-407 | A function name whose next character after any blanks is not `(` (as in `sin`, `sin + 1` or `cos x`) throws "Expected '('". It is not read as a variable. |
| ParseFacts.UnclosedCallFails | MyExpression.hpp:410-413 | A call whose argument has no `)` throws "Expected ')' after" the function name. |
| Draft.Compose | MyExpression.cpp:36-42 | The draft's composite constructor keeps both operands as children, whatever the kind. |
| Draft.ComposeAgrees | MyExpression.cpp:45-71 | The binary combinators build the same nodes as in MyExpression.hpp. The two-argument unary combinators build nodes that the arity invariant rejects. |
| Draft.UnaryCombinatorsKeepBoth | MyExpression.cpp:60-71 | `sin`, `cos`, `ln` and `exp` with a second argument build a node of their kind whose right child is that argument: a tree of the draft that the arity invariant of MyExpression.hpp rejects. |
| Draft.DraftTreesHaveOperands | MyExpression.cpp:36-71 | Every tree the draft builds has the operands that `to_string` and `calculate` read. |
| Draft.UnaryTextIgnoresRight | MyExpression.cpp:150-160 | A unary node prints from its left child only, so the extra operand does not change the text. |
| Draft.Calculate | MyExpression.cpp:77-103 | A successful evaluation has every variable of the tree bound. |
| Draft.CalculateAgrees | MyExpression.cpp:77-103 | On trees without unary nodes, the draft's `calculate` gives the same value or the same exception as that of MyExpression.hpp. |
| Draft.MainProgram | MyExpression.cpp:176-186 | The tree `(1 + 2) - x` that `main` builds prints as `((1 + 2) - x)`. |
| Draft.MainTreeValue | MyExpression.cpp:77-94 | The model's draft `calculate` gives -2 for that tree with `x` bound to 5. `main` itself does not evaluate it. |

## Left out

- Host numerics: `std::pow`, `std::sin`, `std::cos`, `std::log` and `std::exp`, with the conversion of their `double` results back to `int`, are parameters (`Evaluation.Host`). The model does not compute floating point.
- The instantiation with complex numbers is not modelled. Only `T = int` is.
- Fixed-width integers: `int` is unbounded here, so C++ overflow in `+`, `-`, `*` and in the conversion by `static_cast<int>` is not modelled.
- Evaluation order: `calculate` evaluates the left operand first. C++ leaves the order unspecified, and it matters only for which of two failures is reported.
- Evaluation.Calculate: a zero divisor gives `UndefinedDivision`. The source has undefined behaviour there, and the model does not describe what a C++ program would do.
- Copy and move construction, copy assignment, the destructor and `shared_ptr` ownership (MyExpression.hpp:59-80, 116-127) are left out. They manage memory, and a Dafny value has the meaning a deep copy gives.
- `NodeCopy` (MyExpression.hpp:55-57) is left out. It has an empty body and no defined result.
- The unknown-kind exceptions of `substitute`, `calculate`, `to_string` and `differentiate` cannot arise, because the kind set is closed.
- Draft.Calculate: the `sin`, `cos`, `ln` and `exp` cases of the draft (MyExpression.cpp:105-115) are not modelled, so the function requires a tree without unary nodes. Inside the class, `sin`, `cos` and `exp` name the one-argument member combinators (MyExpression.cpp:60-72), whose `Expression` result does not convert to `T`; so at `T = int` the draft's `calculate` does not compile for any tree. (`log` at MyExpression.cpp:112 is the math function, since the member is named `ln`.) This is why `main` leaves its call of `calculate` commented out (MyExpression.cpp:183). The model gives the arithmetic cases the meaning they have in MyExpression.hpp.
- The default argument `b = nullptr` of the draft constructor (MyExpression.cpp:36) is not modelled. No combinator relies on it.
- The command-line programs (MainExpression.cpp, MyExpressionMain.cpp and `main` in MyExpression.cpp) do I/O and are not part of this model. Only the text the draft's `main` prints is stated (`Draft.MainProgram`).
- Grammar.Stod: `std::stod` also throws `std::out_of_range` when the lexeme's value lies outside the range of `double`, whether it overflows (`1` followed by 400 zeros) or underflows (`0.` followed by 400 zeros and `1`). The model has no floating point and reads such lexemes as their exact integer part. It also reads every lexeme with a dot as the exact integer part of its decimal prefix, where the program truncates the nearest `double`: a fraction whose nearest `double` is the next integer reads one higher in the program (`0.99999999999999999` is 1 there and 0 in the model; `5.9999999999999999` is 6 and 5).
- Characters: the model reads Dafny characters and classifies them as ASCII `<cctype>` does in the "C" locale. The source passes `char` values, possibly negative, to `isspace`, `isdigit` and `isalpha`, which is undefined for bytes of 0x80 and above; the model covers ASCII text only.
- TrailingTextIgnored and TextAfterBlankIgnored state the leniency of `parse` for text that follows a `)` or a single blank. Trailing text after several blanks, or glued to the closing parenthesis of a printed operand, is ignored by the same mechanism but not stated.
- expression.hpp is not part of this model. It holds only declarations.
- RoundTrip.ParsePrinted: the round trip holds for trees with non-negative literals. A negative literal prints as `-n`, which the parser reads as `0 - n`.

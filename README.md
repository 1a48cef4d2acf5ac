# javaschoolexam in Dafny

A model of the three exercise solutions of the javaschoolexam repository, with proofs
of what they compute.

- **Calculator** evaluates an arithmetic statement given as a string. It has four parts:
  - `isStatementValid` screens the text.
  - `statementToRpn` converts it to postfix text with a shunting-yard pass. The pass keeps an operator stack and an output accumulator.
  - `rpnToResult` evaluates the postfix text on a stack of doubles.
  - `evaluate` ties the three together. It returns null, an int-looking text or a double.

  Modules:
  - `CalcSyntax`: the priority table and the validator.
  - `RpnConversion`: the converter, as the functions `Step`/`Shunt`/`ToRpn` and the loop methods proved equal to them.
  - `RpnEvaluation`: the evaluator, as the function `Run`/`RpnValue` and the loop methods. It is written for any number type, given its literal parser and its four operations.
  - `JavaDouble`: the doubles, parsing, the `(int)` cast and the int text.
  - `Calculator`: `evaluate`.
  - `RpnProperties`: what the conversion guarantees.
  - `Precedence`: how statements with at most two operators evaluate.
- **PyramidBuilder** checks that a list has a triangular number of elements and sorts a copy. It then fills a k × (2k − 1) zero matrix in place, row by row, with every other column of row i holding i + 1 values. Module `PyramidBuilder`; the matrix is an `array2<int>`, filled by nested loops.
- **Subsequence.find(x, y)** runs `y.retainAll(x)` in place, removes duplicates from what is left and compares the result with x. Its documentation says it decides whether x can be obtained from y by deleting elements. Modules:
  - `Subsequence`.
  - `JavaLists`, whose class `JavaList` is a `java.util.List` with its `retainAll`.

Common representations:
- Java exceptions are `Failure` values of `Outcomes.Result` carrying an `Outcomes.Exception`.
- A null statement or list element is `None`.
- A null list is a `null` reference.
- A `java.util.Stack` is a sequence whose last element is the top.

## Model

| member | source | states |
|---|---|---|
| CalcSyntax.Priority | src/main/java/com/tsystems/javaschool/tasks/calculator/Calculator.java:138-153 | getPriority ranges over -1 to 3 |
| CalcSyntax.PriorityTable | src/main/java/com/tsystems/javaschool/tasks/calculator/Calculator.java:138-153 | getPriority gives 3 exactly for * and /, 2 exactly for + and -, 1 exactly for (, -1 exactly for ), and 0 for every other character (digits, '.', space, letters) |
| CalcSyntax.ParenCountIsMultiplicity | src/main/java/com/tsystems/javaschool/tasks/calculator/Calculator.java:37-42 | the counting loop's total is the number of '(' plus the number of ')' in the statement |
| CalcSyntax.ValidStatementIff | src/main/java/com/tsystems/javaschool/tasks/calculator/Calculator.java:27-56 | a statement is valid exactly when all of these hold: it is non-null and non-empty; its first character is not + , * /; its last character is not + , - * /; it has an even number of parentheses; it has no comma; and it has no doubled + - * / or '.'. A leading '-' is accepted |
| CalcSyntax.BannedIff | src/main/java/com/tsystems/javaschool/tasks/calculator/Calculator.java:47-54 | none of the six substrings occurs exactly when there is no comma and no character among + - * / . is followed by itself |
| CalcSyntax.IsStatementValid | src/main/java/com/tsystems/javaschool/tasks/calculator/Calculator.java:27-56 | the validator with its counting loop returns exactly the validity predicate |
| RpnConversion.ReversedAt | src/main/java/com/tsystems/javaschool/tasks/calculator/Calculator.java:92-94 | emptying the stack onto the output appends the entry at depth k from the top as the k-th character |
| RpnConversion.ReversedMultiset | src/main/java/com/tsystems/javaschool/tasks/calculator/Calculator.java:92-94 | emptying the stack appends exactly the stack's characters |
| RpnConversion.PopWhileAtLeastSpec | src/main/java/com/tsystems/javaschool/tasks/calculator/Calculator.java:75-81 | the pop loop removes a top segment of the stack, appends it to the output top first, and stops at the bottom or at an entry of lower priority |
| RpnConversion.PoppedAtLeast | src/main/java/com/tsystems/javaschool/tasks/calculator/Calculator.java:75-81 | every entry the pop loop removes has priority at least the incoming operator's |
| RpnConversion.PopToOpenFails | src/main/java/com/tsystems/javaschool/tasks/calculator/Calculator.java:84-89 | the ')' loop succeeds exactly when a '(' is on the stack, and otherwise throws EmptyStackException |
| RpnConversion.PopToOpenResult | src/main/java/com/tsystems/javaschool/tasks/calculator/Calculator.java:84-89 | on success the ')' loop drops a '(' and everything above it, and appends what was above it to the output top first |
| RpnConversion.PopToOpenTopmost | src/main/java/com/tsystems/javaschool/tasks/calculator/Calculator.java:86-89 | the '(' the loop stops at is the topmost one |
| RpnConversion.ShuntFailurePersists | src/main/java/com/tsystems/javaschool/tasks/calculator/Calculator.java:63-91 | once a prefix has thrown, the whole conversion throws the same exception |
| RpnConversion.PopOperators | src/main/java/com/tsystems/javaschool/tasks/calculator/Calculator.java:75-81 | the while loop leaves exactly the state PopWhileAtLeast describes |
| RpnConversion.PopUntilOpen | src/main/java/com/tsystems/javaschool/tasks/calculator/Calculator.java:84-89 | the peek/pop loop and the pop of '(' give exactly PopToOpen's state or exception |
| RpnConversion.PopRemaining | src/main/java/com/tsystems/javaschool/tasks/calculator/Calculator.java:92-94 | the final loop returns the output followed by the stack popped top first |
| RpnConversion.StatementToRpn | src/main/java/com/tsystems/javaschool/tasks/calculator/Calculator.java:58-96 | statementToRpn's loops return exactly ToRpn's text or exception |
| RpnProperties.StepOperator | src/main/java/com/tsystems/javaschool/tasks/calculator/Calculator.java:72-83 | an operator appends a space and pops a run of entries of priority at least its own. It stops above an entry of lower priority and is then pushed |
| RpnProperties.StepClose | src/main/java/com/tsystems/javaschool/tasks/calculator/Calculator.java:84-89 | a ')' with a '(' on the stack pops down to the topmost '(' and drops it |
| RpnProperties.StepCloseFails | src/main/java/com/tsystems/javaschool/tasks/calculator/Calculator.java:84-86 | a ')' with no '(' on the stack throws EmptyStackException |
| RpnProperties.ShuntWellStacked | src/main/java/com/tsystems/javaschool/tasks/calculator/Calculator.java:72-83 | the stack only ever holds '(' and operators, and each operator has strictly higher priority than the entry beneath it, so equal priorities never stack |
| RpnProperties.ShuntSucceedsIff | src/main/java/com/tsystems/javaschool/tasks/calculator/Calculator.java:63-91 | the conversion loop succeeds exactly when no prefix closes more parentheses than it opens. It then holds as many '(' as are open; otherwise it throws EmptyStackException |
| RpnProperties.ToRpnFailsIffUnmatched | src/main/java/com/tsystems/javaschool/tasks/calculator/Calculator.java:84-89 | statementToRpn throws exactly when some ')' has no '(' to match, and what it throws is EmptyStackException |
| RpnProperties.StepCount | src/main/java/com/tsystems/javaschool/tasks/calculator/Calculator.java:63-91 | one pass adds one occurrence of the operator read to the output and the stack together, and moves no other operator in or out |
| RpnProperties.ShuntCount | src/main/java/com/tsystems/javaschool/tasks/calculator/Calculator.java:63-91 | after the loop, each operator occurs in the output and the stack together as often as in the characters read |
| RpnProperties.ToRpnKeepsOperators | src/main/java/com/tsystems/javaschool/tasks/calculator/Calculator.java:63-95 | each + - * / of the statement occurs in the postfix text exactly as often |
| RpnProperties.StepOperands | src/main/java/com/tsystems/javaschool/tasks/calculator/Calculator.java:63-91 | one pass appends the character read to the output's operand characters when it is one, and no other operand character |
| RpnProperties.ShuntOperands | src/main/java/com/tsystems/javaschool/tasks/calculator/Calculator.java:63-91 | the output's operand characters are those read, in order |
| RpnProperties.ToRpnKeepsOperands | src/main/java/com/tsystems/javaschool/tasks/calculator/Calculator.java:63-95 | the priority-0 characters other than spaces reach the postfix text in their original order |
| RpnProperties.StepNoParens | src/main/java/com/tsystems/javaschool/tasks/calculator/Calculator.java:63-91 | no pass writes a parenthesis to the output |
| RpnProperties.ShuntNoParens | src/main/java/com/tsystems/javaschool/tasks/calculator/Calculator.java:63-91 | the output of the loop holds no parenthesis |
| RpnProperties.ToRpnBalancedHasNoParens | src/main/java/com/tsystems/javaschool/tasks/calculator/Calculator.java:58-96 | a properly nested statement converts without throwing, and its postfix text holds neither '(' nor ')' |
| RpnEvaluation.OperandEndSpec | src/main/java/com/tsystems/javaschool/tasks/calculator/Calculator.java:107-113 | an operand is the maximal run of non-space priority-0 characters |
| RpnEvaluation.OperandEndAt | src/main/java/com/tsystems/javaschool/tasks/calculator/Calculator.java:107-113 | a run of operand characters followed by another character or by the end is exactly the operand read |
| RpnEvaluation.OperateSpec | src/main/java/com/tsystems/javaschool/tasks/calculator/Calculator.java:118-133 | an operator pops a, then b, and pushes b op a; with fewer than two values it throws EmptyStackException |
| RpnEvaluation.RunOperand | src/main/java/com/tsystems/javaschool/tasks/calculator/Calculator.java:107-118 | an operand that parses is pushed, and the character after it is tested as an operator at once |
| RpnEvaluation.RunEndingInOperand | src/main/java/com/tsystems/javaschool/tasks/calculator/Calculator.java:108-118 | from any index, postfix text ending in an operand character never yields a value |
| RpnEvaluation.RpnValueEndingInOperand | src/main/java/com/tsystems/javaschool/tasks/calculator/Calculator.java:108-118 | rpnToResult on text ending in an operand character always throws |
| RpnEvaluation.RunErrors | src/main/java/com/tsystems/javaschool/tasks/calculator/Calculator.java:102-134 | the loop throws only NumberFormatException, StringIndexOutOfBoundsException or EmptyStackException |
| RpnEvaluation.RpnValueErrors | src/main/java/com/tsystems/javaschool/tasks/calculator/Calculator.java:98-136 | rpnToResult throws only those three exceptions |
| RpnEvaluation.ReadOperand | src/main/java/com/tsystems/javaschool/tasks/calculator/Calculator.java:108-113 | the operand loop collects exactly the maximal operand run and stops at its end |
| RpnEvaluation.RpnToResult | src/main/java/com/tsystems/javaschool/tasks/calculator/Calculator.java:98-136 | rpnToResult's loops return exactly RpnValue's number or exception |
| RpnEvaluation.RunIntendedAgrees | src/main/java/com/tsystems/javaschool/tasks/calculator/Calculator.java:108-118 | the corrected loop never reads past the end, and agrees with the loop as written wherever that one does not |
| RpnEvaluation.RpnValueIntendedAgrees | src/main/java/com/tsystems/javaschool/tasks/calculator/Calculator.java:98-136 | the corrected evaluation never throws StringIndexOutOfBoundsException, and otherwise agrees with rpnToResult |
| RpnEvaluation.IntendedLiteral | src/main/java/com/tsystems/javaschool/tasks/calculator/Calculator.java:108-118 | with the corrected loop, a lone literal that parses evaluates to its value |
| JavaDouble.ArithFinite | src/main/java/com/tsystems/javaschool/tasks/calculator/Calculator.java:121-132 | on finite operands and a nonzero divisor, b op a is the real sum, difference, product or quotient |
| JavaDouble.DivByZero | src/main/java/com/tsystems/javaschool/tasks/calculator/Calculator.java:130-132 | dividing by zero gives NaN exactly for 0/0 and NaN/0, and an infinity otherwise |
| JavaDouble.Trim | src/main/java/com/tsystems/javaschool/tasks/calculator/Calculator.java:114 | String.trim() as Double.parseDouble applies it: the result has no blank at either end, is no longer than the text, and is empty exactly when the text is all characters up to U+0020 |
| JavaDouble.TrimAround | src/main/java/com/tsystems/javaschool/tasks/calculator/Calculator.java:114 | trim removes exactly the characters up to U+0020 around a text whose ends are not blank, so it is fully determined |
| JavaDouble.ParseDouble | src/main/java/com/tsystems/javaschool/tasks/calculator/Calculator.java:114 | Double.parseDouble yields only finite nonnegative values for the operands it sees, and throws on an all-blank operand |
| JavaDouble.DotIndexSpec | src/main/java/com/tsystems/javaschool/tasks/calculator/Calculator.java:114 | the literal is split at its first '.' |
| JavaDouble.ParseDoubleAccepts | src/main/java/com/tsystems/javaschool/tasks/calculator/Calculator.java:114 | Double.parseDouble accepts exactly the texts that, once trimmed, are nonempty runs of digits with at most one '.', other than "." alone |
| JavaDouble.JavaIntCast | src/main/java/com/tsystems/javaschool/tasks/calculator/Calculator.java:156 | the (int) cast lands in the int range, rounds toward zero (never away from it) and is within 1 of an in-range value; NaN becomes 0, and +Infinity or a value at or above Integer.MAX_VALUE saturates to it, -Infinity or a value at or below Integer.MIN_VALUE to Integer.MIN_VALUE |
| JavaDouble.IsResultInt | src/main/java/com/tsystems/javaschool/tasks/calculator/Calculator.java:155-157 | isResultInt holds only of finite values within the int range |
| JavaDouble.IsResultIntIff | src/main/java/com/tsystems/javaschool/tasks/calculator/Calculator.java:155-157 | isResultInt holds exactly for finite whole numbers within the int range; NaN, the infinities and numbers beyond the range fail it |
| JavaDouble.NatTextValue | src/main/java/com/tsystems/javaschool/tasks/calculator/Calculator.java:24 | the decimal text of a natural number has that number as its digit value |
| JavaDouble.NatTextRoundTrip | src/main/java/com/tsystems/javaschool/tasks/calculator/Calculator.java:24 | the text of a nonnegative int result parses back to the same number and holds no '.' |
| Calculator.Format | src/main/java/com/tsystems/javaschool/tasks/calculator/Calculator.java:21-24 | null exactly for an infinite result; int text exactly when isResultInt holds, and then the text of the (int) cast; otherwise the double itself (finite or NaN); never an exception |
| Calculator.Evaluate | src/main/java/com/tsystems/javaschool/tasks/calculator/Calculator.java:15-25 | evaluate, built from the three loops, answers exactly Calculate's answer |
| Calculator.NoResultIff | src/main/java/com/tsystems/javaschool/tasks/calculator/Calculator.java:15-23 | null comes back exactly for a statement the validator rejects or one whose value is infinite |
| Calculator.WholeIff | src/main/java/com/tsystems/javaschool/tasks/calculator/Calculator.java:21-24 | int text comes back exactly for a finite whole value within the int range, and it is that number's text |
| Calculator.WholeReadsBack | src/main/java/com/tsystems/javaschool/tasks/calculator/Calculator.java:24 | a nonnegative int answer parses back to the computed value |
| Calculator.ThrownCases | src/main/java/com/tsystems/javaschool/tasks/calculator/Calculator.java:15-20 | only a validated statement throws, and then only EmptyStackException, StringIndexOutOfBoundsException or NumberFormatException |
| Calculator.SingleLiteral | src/main/java/com/tsystems/javaschool/tasks/calculator/Calculator.java:102-118 | a statement that is one literal never yields a value: NumberFormatException if it does not parse, StringIndexOutOfBoundsException if it does |
| Calculator.Binary | src/main/java/com/tsystems/javaschool/tasks/calculator/Calculator.java:15-25 | a valid "x op y" answers the formatted x op y |
| Calculator.Ternary | src/main/java/com/tsystems/javaschool/tasks/calculator/Calculator.java:72-83 | a valid "x o1 y o2 z" applies o1 first when its priority is at least o2's (left association), and o2 first otherwise |
| Calculator.Grouped | src/main/java/com/tsystems/javaschool/tasks/calculator/Calculator.java:15-25 | a valid "(x o1 y) o2 z" answers the formatted (x o1 y) o2 z, whatever the priorities |
| Calculator.PrecedenceExample | src/main/java/com/tsystems/javaschool/tasks/calculator/Calculator.java:72-83 | 2+3*4 gives "14" |
| Calculator.LeftAssociationExample | src/main/java/com/tsystems/javaschool/tasks/calculator/Calculator.java:72-83 | 10-2-3 gives "5" |
| Calculator.GroupedExample | src/main/java/com/tsystems/javaschool/tasks/calculator/Calculator.java:84-89 | (2+3)*4 gives "20" |
| Calculator.TabExample | src/main/java/com/tsystems/javaschool/tasks/calculator/Calculator.java:108-114 | 1+<tab>2 gives "3": the tab stays in the operand and Double.parseDouble trims it |
| Calculator.DivisionByZeroExample | src/main/java/com/tsystems/javaschool/tasks/calculator/Calculator.java:21-23 | 1/0 gives null |
| Calculator.NotANumberExample | src/main/java/com/tsystems/javaschool/tasks/calculator/Calculator.java:21-24 | 0/0 gives NaN, printed as a double rather than null |
| Calculator.FractionExample | src/main/java/com/tsystems/javaschool/tasks/calculator/Calculator.java:24 | 7/2 gives the double 3.5 |
| Calculator.LoneNumberExample | src/main/java/com/tsystems/javaschool/tasks/calculator/Calculator.java:108-118 | "5" throws StringIndexOutOfBoundsException |
| Calculator.SignedOperandExample | src/main/java/com/tsystems/javaschool/tasks/calculator/Calculator.java:118-120 | 1+-2 passes the validator and throws EmptyStackException |
| Calculator.UnmatchedExample | src/main/java/com/tsystems/javaschool/tasks/calculator/Calculator.java:84-89 | )1( passes the validator and throws EmptyStackException |
| Calculator.LoneNumberIntended | src/main/java/com/tsystems/javaschool/tasks/calculator/Calculator.java:108-118 | with the corrected operand loop, "5" gives "5" |
| Precedence.ToRpnLiteral | src/main/java/com/tsystems/javaschool/tasks/calculator/Calculator.java:63-68 | a lone literal converts to itself |
| Precedence.PushOnEmpty | src/main/java/com/tsystems/javaschool/tasks/calculator/Calculator.java:72-83 | an operator on an empty stack appends a space and is pushed |
| Precedence.PushOnOne | src/main/java/com/tsystems/javaschool/tasks/calculator/Calculator.java:72-83 | an operator pops a single stacked operator exactly when that one's priority is at least its own |
| Precedence.ToRpnBinary | src/main/java/com/tsystems/javaschool/tasks/calculator/Calculator.java:58-96 | "x op y" converts to x + " " + y + op, that is "x yop" |
| Precedence.ToRpnTernary | src/main/java/com/tsystems/javaschool/tasks/calculator/Calculator.java:72-83 | "x o1 y o2 z" converts to "x y o1zo2" when o1's priority is at least o2's, and to "x y zo2o1" otherwise |
| Precedence.ToRpnAdjacentOperators | src/main/java/com/tsystems/javaschool/tasks/calculator/Calculator.java:72-83 | "x o1 o2 y" with o1 at least as tight as o2 converts to "x  o1yo2" (two spaces) |
| Precedence.PushOnOpen | src/main/java/com/tsystems/javaschool/tasks/calculator/Calculator.java:72-83 | an operator on a stack holding only '(' is pushed above it without popping |
| Precedence.CloseOverOne | src/main/java/com/tsystems/javaschool/tasks/calculator/Calculator.java:84-89 | ')' over "( op" appends a space and op, and empties the stack |
| Precedence.ShuntOpenOperator | src/main/java/com/tsystems/javaschool/tasks/calculator/Calculator.java:63-83 | "(x o1" leaves "x " in the output and '(' under o1 on the stack |
| Precedence.ShuntGroup | src/main/java/com/tsystems/javaschool/tasks/calculator/Calculator.java:63-89 | "(x o1 y)" leaves "x y o1" in the output and an empty stack |
| Precedence.ToRpnGrouped | src/main/java/com/tsystems/javaschool/tasks/calculator/Calculator.java:58-96 | "(x o1 y) o2 z" converts to "x y o1 zo2", o1 first whatever the priorities |
| Precedence.ValueLiteral | src/main/java/com/tsystems/javaschool/tasks/calculator/Calculator.java:108-118 | a lone literal throws NumberFormatException if it does not parse and StringIndexOutOfBoundsException if it does |
| Precedence.ValueBinary | src/main/java/com/tsystems/javaschool/tasks/calculator/Calculator.java:98-136 | "x yop" evaluates to x op y, x being b, the value below |
| Precedence.ValueOperatorOnOne | src/main/java/com/tsystems/javaschool/tasks/calculator/Calculator.java:118-120 | an operator that follows a single value throws EmptyStackException |
| Precedence.ValueDropsDeeper | src/main/java/com/tsystems/javaschool/tasks/calculator/Calculator.java:135 | "x y " returns y: values below the top are dropped without an exception |
| Precedence.ValueLeftFirst | src/main/java/com/tsystems/javaschool/tasks/calculator/Calculator.java:118-133 | "x y o1zo2" evaluates to (x o1 y) o2 z |
| Precedence.ValueRightFirst | src/main/java/com/tsystems/javaschool/tasks/calculator/Calculator.java:118-133 | "x y zo2o1" evaluates to x o1 (y o2 z) |
| Precedence.ValueGrouped | src/main/java/com/tsystems/javaschool/tasks/calculator/Calculator.java:98-136 | "x y o1 zo2" evaluates to (x o1 y) o2 z |
| PyramidBuilder.TriClosedForm | src/main/java/com/tsystems/javaschool/tasks/pyramid/PyramidBuilder.java:51-55 | the pyramid size 1 + ... + k is k(k + 1)/2, the number whose root numOfColumns computes |
| PyramidBuilder.TriMonotonic | src/main/java/com/tsystems/javaschool/tasks/pyramid/PyramidBuilder.java:47-59 | pyramid sizes grow strictly, so a size belongs to at most one number of rows |
| PyramidBuilder.TriangularRoot | src/main/java/com/tsystems/javaschool/tasks/pyramid/PyramidBuilder.java:51-55 | the root k of n satisfies k(k + 1)/2 <= n < (k + 1)(k + 2)/2, the whole part of (sqrt(8n + 1) - 1)/2 |
| PyramidBuilder.RootOfTri | src/main/java/com/tsystems/javaschool/tasks/pyramid/PyramidBuilder.java:47-49 | on a pyramid size of k rows the root is k, as numOfRows computes it |
| PyramidBuilder.RootUnique | src/main/java/com/tsystems/javaschool/tasks/pyramid/PyramidBuilder.java:47-55 | the root is unique |
| PyramidBuilder.IsInputCorrect | src/main/java/com/tsystems/javaschool/tasks/pyramid/PyramidBuilder.java:57-59 | isInputCorrect(numOfRows(n)) holds exactly when 2n = k(k + 1) for the computed root k |
| PyramidBuilder.IsInputCorrectIff | src/main/java/com/tsystems/javaschool/tasks/pyramid/PyramidBuilder.java:57-59 | isInputCorrect(numOfRows(n)) holds exactly when n is k(k + 1)/2 for some natural k |
| PyramidBuilder.RootOfEveryTri | src/main/java/com/tsystems/javaschool/tasks/pyramid/PyramidBuilder.java:51-55 | whenever k(k + 1)/2 numbers are given, k is the root numOfRows and numOfColumns compute from them |
| PyramidBuilder.NumOfColumns | src/main/java/com/tsystems/javaschool/tasks/pyramid/PyramidBuilder.java:51-55 | numOfColumns is -1 exactly for the empty list, at least 1 otherwise, and 2k - 1 for a list of k(k + 1)/2 numbers (the width of the base row of a k-row pyramid) |
| PyramidBuilder.InsertSpec | src/main/java/com/tsystems/javaschool/tasks/pyramid/PyramidBuilder.java:25-27 | inserting into a sorted list keeps it sorted and adds exactly the new value |
| PyramidBuilder.SortedCopy | src/main/java/com/tsystems/javaschool/tasks/pyramid/PyramidBuilder.java:25-27 | sorted() returns an ascending permutation of the input |
| PyramidBuilder.Values | src/main/java/com/tsystems/javaschool/tasks/pyramid/PyramidBuilder.java:25-27 | the list without nulls, element for element |
| PyramidBuilder.Position | src/main/java/com/tsystems/javaschool/tasks/pyramid/PyramidBuilder.java:38-43 | the value at position m of the sorted list is written at a cell of the layout whose slot is m |
| PyramidBuilder.PositionOfSlot | src/main/java/com/tsystems/javaschool/tasks/pyramid/PyramidBuilder.java:38-43 | every written cell receives a value of the list, the one at its slot |
| PyramidBuilder.CellAtPosition | src/main/java/com/tsystems/javaschool/tasks/pyramid/PyramidBuilder.java:38-43 | each value of the sorted list lies in the matrix, inside k rows and 2k - 1 columns, at the cell Position gives |
| PyramidBuilder.PositionInjective | src/main/java/com/tsystems/javaschool/tasks/pyramid/PyramidBuilder.java:38-43 | distinct values of the list land in distinct cells |
| PyramidBuilder.Ascending | src/main/java/com/tsystems/javaschool/tasks/pyramid/PyramidBuilder.java:9-11 | values ascend left to right within a row and from row to row |
| PyramidBuilder.ShapeSpec | src/main/java/com/tsystems/javaschool/tasks/pyramid/PyramidBuilder.java:18-29 | the build succeeds exactly for null-free lists of k(k + 1)/2 elements with k >= 1, and then has k rows. The empty list passes the size test and then fails with NegativeArraySizeException |
| PyramidBuilder.RowCell | src/main/java/com/tsystems/javaschool/tasks/pyramid/PyramidBuilder.java:39-42 | row i holds sorted[i(i + 1)/2 + j] at column k - 1 - i + 2j for j <= i, and 0 elsewhere |
| PyramidBuilder.BuildPyramid | src/main/java/com/tsystems/javaschool/tasks/pyramid/PyramidBuilder.java:17-45 | buildPyramid throws exactly Shape's exception. Otherwise it returns a new k × (2k − 1) matrix whose every cell is Cell of the sorted list; the caller's list is not modified |
| PyramidBuilder.ZeroFill | src/main/java/com/tsystems/javaschool/tasks/pyramid/PyramidBuilder.java:30-32 | every cell of the matrix is 0 afterwards |
| PyramidBuilder.Place | src/main/java/com/tsystems/javaschool/tasks/pyramid/PyramidBuilder.java:34-43 | on a zero matrix of k rows and 2k - 1 columns, the placement loop leaves Cell of the sorted list in every cell |
| PyramidBuilder.PlaceRow | src/main/java/com/tsystems/javaschool/tasks/pyramid/PyramidBuilder.java:40-42 | the inner loop writes count consecutive values to every other column of row i from start on, and changes nothing else |
| JavaLists.Retained | src/main/java/com/tsystems/javaschool/tasks/subsequence/Subsequence.java:20 | what retainAll leaves is no longer than the list, and empty when the other list is empty |
| JavaLists.RetainedSpec | src/main/java/com/tsystems/javaschool/tasks/subsequence/Subsequence.java:20 | retainAll keeps exactly the elements found in the other list, every occurrence of each. Nothing is added, and nothing is removed exactly when every element is found |
| JavaLists.RetainedKeeps | src/main/java/com/tsystems/javaschool/tasks/subsequence/Subsequence.java:20 | retainAll keeps only elements found in the other list, and removes nothing exactly when every element is found |
| JavaLists.RetainedCount | src/main/java/com/tsystems/javaschool/tasks/subsequence/Subsequence.java:20 | an element found in the other list is kept as often as it occurs |
| JavaLists.RetainedSelf | src/main/java/com/tsystems/javaschool/tasks/subsequence/Subsequence.java:20 | retaining a list's own elements keeps all of it |
| JavaLists.RetainedAll | src/main/java/com/tsystems/javaschool/tasks/subsequence/Subsequence.java:20 | retaining with respect to a list holding every element changes nothing |
| JavaLists.JavaList.RetainAll | src/main/java/com/tsystems/javaschool/tasks/subsequence/Subsequence.java:20 | y.retainAll(x) leaves in y its elements found in x, in their order, even when x is y itself, and reports whether y changed |
| Subsequence.Find | src/main/java/com/tsystems/javaschool/tasks/subsequence/Subsequence.java:16-23 | find throws IllegalArgumentException for a null list. Otherwise y is left filtered by x, x is unchanged, and the answer is whether distinct(filtered y) equals x |
| Subsequence.EmptySubseq | src/main/java/com/tsystems/javaschool/tasks/subsequence/Subsequence.java:9-10 | the empty list is obtained from any list by deleting elements |
| Subsequence.SubseqInit | src/main/java/com/tsystems/javaschool/tasks/subsequence/Subsequence.java:9-10 | dropping the last element of x keeps it obtainable from y |
| Subsequence.SubseqTrans | src/main/java/com/tsystems/javaschool/tasks/subsequence/Subsequence.java:9-10 | deleting elements twice is deleting elements once |
| Subsequence.RetainedIsSubseq | src/main/java/com/tsystems/javaschool/tasks/subsequence/Subsequence.java:20 | retainAll only deletes elements |
| Subsequence.Distinct | src/main/java/com/tsystems/javaschool/tasks/subsequence/Subsequence.java:21 | distinct() is no longer than the list, and empty exactly when the list is |
| Subsequence.DistinctSpec | src/main/java/com/tsystems/javaschool/tasks/subsequence/Subsequence.java:21 | distinct only deletes elements, leaves no element twice, keeps every element present, and keeps first occurrences: what it makes of a prefix is a prefix of what it makes of the whole |
| Subsequence.FindSound | src/main/java/com/tsystems/javaschool/tasks/subsequence/Subsequence.java:9-21 | when find says true, x can be obtained from the original y by deleting elements, as documented |
| Subsequence.FindRejectsDuplicates | src/main/java/com/tsystems/javaschool/tasks/subsequence/Subsequence.java:21 | a list x with a repeated element is never found |
| Subsequence.FindEmpty | src/main/java/com/tsystems/javaschool/tasks/subsequence/Subsequence.java:20-21 | an empty x is always found, and y is emptied |
| Subsequence.FindIncomplete | src/main/java/com/tsystems/javaschool/tasks/subsequence/Subsequence.java:9-21 | [1, 2] is obtained from [2, 1, 2] by deletion, yet find says false |
| Subsequence.SubseqLastEqual | src/main/java/com/tsystems/javaschool/tasks/subsequence/Subsequence.java:9-10 | with equal last elements, matching them loses nothing |
| Subsequence.IsSubsequence | src/main/java/com/tsystems/javaschool/tasks/subsequence/Subsequence.java:9-10 | the documented check: for non-null lists, answers exactly whether x can be obtained from y by deleting elements, and changes neither list |

## Left out

- Doubles are exact reals with the two infinities and NaN. Rounding, overflow to infinity, underflow and the sign of zero are not modelled, so a division by a negative zero is not distinguished.
- JavaDouble.ParseDouble: models the trimming of blanks (characters up to U+0020) and, after it, texts of digits with at most one '.'. The other texts Double.parseDouble accepts parse as failures here: exponents ("1e3"), "NaN", "Infinity", type suffixes ("2d", "2f") and hexadecimal forms. The validator lets letters through, so a statement such as "1e3+1" throws NumberFormatException in the model but gives "1001" in Java. A signed text cannot reach parseDouble, since '+' and '-' always end an operand.
- String.valueOf(double) is not rendered: a non-int answer is the double value itself (`Calculator.Answer.Decimal`). String.valueOf(int) is rendered as decimal text.
- The two regular expressions of isStatementValid are modelled as the character sets they denote; the regular-expression engine is not modelled.
- Math.sqrt, the floating-point comparison and Math.round of numOfRows and isInputCorrect are modelled as the integer triangular root they compute. `8 * inputSize` overflowing int for lists of more than 268435455 elements is not modelled.
- CannotBuildPyramidException is an error value; its class is not part of this model.
- buildPyramid on a null list (a NullPointerException) is not modelled: the list parameter is non-null.
- Java's int[][] is a single array2; the row arrays' separate identities are not modelled.
- The UnsupportedOperationException that retainAll throws on an unmodifiable list is not modelled, and the elements of the subsequence lists are compared with ==, not with equals.
- The evaluator is stated for any number type; the calculator uses it with the doubles of JavaDouble only.

## Findings

| source | as written | input that shows it | evidently intended | confidence | as-written member | corrected member |
|---|---|---|---|---|---|---|
| src/main/java/com/tsystems/javaschool/tasks/subsequence/Subsequence.java:21 | distinct() keeps the first occurrence of each retained element before comparing with x | x = [1, 2], y = [2, 1, 2] | true: deleting the first 2 of y leaves x | not executed | Subsequence.FindIncomplete | Subsequence.IsSubsequence |
| src/main/java/com/tsystems/javaschool/tasks/calculator/Calculator.java:108-118 | when an operand ends the postfix text, the operand loop stops at the end and line 118 reads charAt(length) | evaluate("5") | "5" | not executed | Calculator.LoneNumberExample | RpnEvaluation.IntendedLiteral |

/** evaluate of Calculator.java: validate the statement, convert it to postfix text,
    evaluate that on doubles, and render the result. */
module Calculator {
  import opened Outcomes
  import opened CalcSyntax
  import opened JavaDouble
  import opened RpnConversion
  import opened RpnEvaluation
  import opened RpnProperties
  import opened Precedence

  /** What evaluate returns or throws: null, String.valueOf of the int the result
      converts to exactly, String.valueOf of a double that is not such an int (kept
      here as the double itself), or an exception. */
  datatype Answer = NoResult | Whole(text: string) | Decimal(value: Float) | Thrown(error: Exception)

  /** The doubles of rpnToResult: Double.parseDouble and b op a. */
  const Doubles: Numbers<Float> := Numbers(ParseDouble, Arith)

  /** Lines 21-24: an infinite result gives null; one that isResultInt accepts is
      printed as an int; any other, NaN included, as a double. */
  function Format(x: Float): (a: Answer)
    ensures a.NoResult? <==> IsInfinite(x)
    ensures a.Whole? <==> IsResultInt(x)
    ensures a.Whole? ==> a.text == IntText(JavaIntCast(x))
    ensures a.Decimal? ==> a.value == x && (x.Finite? || x == NaN)
    ensures !a.Thrown?
  {
    if IsInfinite(x) then NoResult
    else if IsResultInt(x) then Whole(IntText(JavaIntCast(x)))
    else Decimal(x)
  }

  /** The double that rpnToResult(statementToRpn(s)) returns, or the exception thrown
      on the way. */
  function Compute(s: string): Result<Float> {
    match ToRpn(s)
    case Failure(e) => Failure(e)
    case Success(rpn) => RpnValue(Doubles, rpn)
  }

  /** evaluate(statement); None is a null statement. */
  function Calculate(statement: Option<string>): Answer {
    if !ValidStatement(statement) then NoResult
    else
      match Compute(statement.value)
      case Failure(e) => Thrown(e)
      case Success(x) => Format(x)
  }

  /** evaluate, lines 15-25, built from the three loops. */
  method Evaluate(statement: Option<string>) returns (answer: Answer)
    ensures answer == Calculate(statement)
  {
    var valid := IsStatementValid(statement);
    if !valid {
      return NoResult;
    }
    var rpn := StatementToRpn(statement.value);
    if rpn.Failure? {
      return Thrown(rpn.error);
    }
    var result := RpnToResult(Doubles, rpn.value);
    if result.Failure? {
      return Thrown(result.error);
    }
    var x := result.value;
    if IsInfinite(x) {
      return NoResult;
    }
    if IsResultInt(x) {
      return Whole(IntText(JavaIntCast(x)));
    }
    return Decimal(x);
  }

  // ---------------------------------------------------------------------------
  // What evaluate can answer

  /** null comes back exactly for a statement the validator rejects and for one
      that evaluates to an infinity (a division by zero, say). */
  lemma NoResultIff(statement: Option<string>)
    ensures Calculate(statement).NoResult? <==>
      || !ValidStatement(statement)
      || (Compute(statement.value).Success? && IsInfinite(Compute(statement.value).value))
  {
  }

  /** An int is printed exactly when the result is a whole number within the int
      range, and the text is that number's. */
  lemma WholeIff(statement: Option<string>)
    ensures Calculate(statement).Whole? <==>
      && ValidStatement(statement)
      && Compute(statement.value).Success?
      && var x := Compute(statement.value).value;
         x.Finite? && x.r.Floor as real == x.r && MinInt <= x.r.Floor <= MaxInt
    ensures Calculate(statement).Whole? ==>
      Calculate(statement).text == IntText(Compute(statement.value).value.r.Floor)
  {
    if ValidStatement(statement) && Compute(statement.value).Success? {
      var x := Compute(statement.value).value;
      IsResultIntIff(x);
      if IsResultInt(x) {
        assert JavaIntCast(x) == x.r.Floor;
      }
    }
  }

  /** A nonnegative int answer reads back, through Double.parseDouble, as the value
      the statement computed. */
  lemma WholeReadsBack(statement: Option<string>)
    requires Calculate(statement).Whole?
    requires Compute(statement.value).value.r >= 0.0
    ensures ParseDouble(Calculate(statement).text) == Some(Compute(statement.value).value)
  {
    WholeIff(statement);
    var x := Compute(statement.value).value;
    NatTextRoundTrip(x.r.Floor);
  }

  /** Only a statement the validator accepts can throw, and then only one of three
      exceptions: EmptyStackException (an unmatched ')' or an operator short of
      operands), StringIndexOutOfBoundsException or NumberFormatException. */
  lemma ThrownCases(statement: Option<string>)
    ensures Calculate(statement).Thrown? ==>
      && ValidStatement(statement)
      && Calculate(statement).error in {EmptyStack, IndexOutOfBounds, NumberFormat}
  {
    if ValidStatement(statement) {
      ToRpnFailsIffUnmatched(statement.value);
      if ToRpn(statement.value).Success? {
        RpnValueErrors(Doubles, ToRpn(statement.value).value);
      }
    }
  }

  // ---------------------------------------------------------------------------
  // Statements of numeric literals and at most two operators

  /** A statement that is a single literal never yields a value: the postfix text is
      the literal itself, and rpnToResult reads past its end. */
  lemma SingleLiteral(w: string)
    requires Literal(w)
    ensures Calculate(Some(w)) ==
      if !ValidStatement(Some(w)) then NoResult
      else if ParseDouble(w).None? then Thrown(NumberFormat)
      else Thrown(IndexOutOfBounds)
  {
    ToRpnLiteral(w);
    ValueLiteral(Doubles, w);
  }

  /** "x op y" evaluates to x op y. */
  lemma Binary(x: string, op: char, y: string)
    requires Literal(x) && Literal(y) && IsOperator(op)
    requires ParseDouble(x).Some? && ParseDouble(y).Some?
    ensures Calculate(Some(x + [op] + y)) ==
      if !ValidStatement(Some(x + [op] + y)) then NoResult
      else Format(Arith(op, ParseDouble(x).value, ParseDouble(y).value))
  {
    ToRpnBinary(x, op, y);
    ValueBinary(Doubles, x, y, op);
  }

  /** "x o1 y o2 z" evaluates with the usual precedence: o1 first when its priority is
      at least o2's (so equal priorities associate to the left), o2 first otherwise. */
  lemma Ternary(x: string, o1: char, y: string, o2: char, z: string)
    requires Literal(x) && Literal(y) && Literal(z) && IsOperator(o1) && IsOperator(o2)
    requires ParseDouble(x).Some? && ParseDouble(y).Some? && ParseDouble(z).Some?
    ensures var s := x + [o1] + y + [o2] + z;
      var vx, vy, vz := ParseDouble(x).value, ParseDouble(y).value, ParseDouble(z).value;
      Calculate(Some(s)) ==
        if !ValidStatement(Some(s)) then NoResult
        else if Priority(o1) >= Priority(o2) then Format(Arith(o2, Arith(o1, vx, vy), vz))
        else Format(Arith(o1, vx, Arith(o2, vy, vz)))
  {
    ToRpnTernary(x, o1, y, o2, z);
    if Priority(o1) >= Priority(o2) {
      ValueLeftFirst(Doubles, x, y, o1, z, o2);
    } else {
      ValueRightFirst(Doubles, x, y, z, o2, o1);
    }
  }

  /** "(x o1 y) o2 z" evaluates (x o1 y) first, whatever the two priorities. */
  lemma Grouped(x: string, o1: char, y: string, o2: char, z: string)
    requires Literal(x) && Literal(y) && Literal(z) && IsOperator(o1) && IsOperator(o2)
    requires ParseDouble(x).Some? && ParseDouble(y).Some? && ParseDouble(z).Some?
    ensures var s := "(" + x + [o1] + y + ")" + [o2] + z;
      var vx, vy, vz := ParseDouble(x).value, ParseDouble(y).value, ParseDouble(z).value;
      Calculate(Some(s)) ==
        if !ValidStatement(Some(s)) then NoResult else Format(Arith(o2, Arith(o1, vx, vy), vz))
  {
    ToRpnGrouped(x, o1, y, o2, z);
    ValueGrouped(Doubles, x, y, o1, z, o2);
  }

  // ---------------------------------------------------------------------------
  // Examples

  lemma DigitLiteral(c: char)
    requires IsDigit(c)
    ensures Literal([c]) && ParseDouble([c]) == Some(Finite(((c as int) - ('0' as int)) as real))
  {
    assert [c][..|[c]| - 1] == [];
    assert DotIndex([c]) == 1 by {
      assert [c][1..] == [];
    }
    assert DigitsValue([c]) == (c as int) - ('0' as int);
  }

  /** A statement without parentheses or commas, beginning and ending with a digit,
      in which no two adjacent characters are both other than digits, is valid. */
  lemma ValidPlain(s: string)
    requires |s| > 0 && IsDigit(s[0]) && IsDigit(s[|s| - 1])
    requires forall i :: 0 <= i < |s| ==> s[i] != '(' && s[i] != ')' && s[i] != ','
    requires forall i :: 0 <= i < |s| - 1 ==> IsDigit(s[i]) || IsDigit(s[i + 1])
    ensures ValidStatement(Some(s))
  {
    BannedIff(s);
    ParenCountIsMultiplicity(s);
    assert '(' !in s && ')' !in s;
  }

  lemma FormatFourteen()
    ensures Format(Finite(14.0)) == Whole("14")
  {
    assert JavaIntCast(Finite(14.0)) == 14;
    assert 14 / 10 == 1 && 14 % 10 == 4;
    assert NatText(14) == "14";
  }

  /** 2+3*4 is 14: the multiplication goes first. */
  lemma PrecedenceExample()
    ensures Calculate(Some("2+3*4")) == Whole("14")
  {
    DigitLiteral('2');
    DigitLiteral('3');
    DigitLiteral('4');
    assert "2+3*4" == "2" + ['+'] + "3" + ['*'] + "4";
    PrecedenceValid();
    Ternary("2", '+', "3", '*', "4");
    TwoPlusThreeTimesFour();
  }

  lemma PrecedenceValid()
    ensures ValidStatement(Some("2+3*4"))
  {
    DigitLiteral('2');
    DigitLiteral('3');
    DigitLiteral('4');
    ValidPlain("2+3*4");
  }

  lemma TwoPlusThreeTimesFour()
    ensures Format(Arith('+', Finite(2.0), Arith('*', Finite(3.0), Finite(4.0)))) == Whole("14")
  {
    assert Arith('+', Finite(2.0), Arith('*', Finite(3.0), Finite(4.0))) == Finite(14.0);
    FormatFourteen();
  }

  /** 10-2-3 is 5: equal priorities associate to the left. */
  lemma LeftAssociationExample()
    ensures Calculate(Some("10-2-3")) == Whole("5")
  {
    DigitLiteral('2');
    DigitLiteral('3');
    TenLiteral();
    assert "10-2-3" == "10" + ['-'] + "2" + ['-'] + "3";
    ValidPlain("10-2-3");
    Ternary("10", '-', "2", '-', "3");
    TenMinusTwoMinusThree();
  }

  lemma TenLiteral()
    ensures Literal("10") && ParseDouble("10") == Some(Finite(10.0))
  {
    assert "10"[..1] == "1" && "1"[..0] == [];
  }

  lemma TenMinusTwoMinusThree()
    ensures Format(Arith('-', Arith('-', Finite(10.0), Finite(2.0)), Finite(3.0))) == Whole("5")
  {
    assert Arith('-', Arith('-', Finite(10.0), Finite(2.0)), Finite(3.0)) == Finite(5.0);
    assert JavaIntCast(Finite(5.0)) == 5;
  }

  /** 1/0 is null: the quotient is infinite. */
  lemma DivisionByZeroExample()
    ensures Calculate(Some("1/0")) == NoResult
  {
    DigitLiteral('1');
    DigitLiteral('0');
    assert "1/0" == "1" + ['/'] + "0";
    Binary("1", '/', "0");
  }

  /** 0/0 is NaN, printed as a double. */
  lemma NotANumberExample()
    ensures Calculate(Some("0/0")) == Decimal(NaN)
  {
    DigitLiteral('0');
    assert "0/0" == "0" + ['/'] + "0";
    ValidPlain("0/0");
    Binary("0", '/', "0");
  }

  /** 7/2 is 3.5, printed as a double. */
  lemma FractionExample()
    ensures Calculate(Some("7/2")) == Decimal(Finite(3.5))
  {
    DigitLiteral('7');
    DigitLiteral('2');
    assert "7/2" == "7" + ['/'] + "2";
    ValidPlain("7/2");
    Binary("7", '/', "2");
    assert Arith('/', Finite(7.0), Finite(2.0)) == Finite(3.5);
    assert Format(Finite(3.5)) == Decimal(Finite(3.5)) by {
      assert JavaIntCast(Finite(3.5)) == 3;
    }
  }

  /** A lone number throws StringIndexOutOfBoundsException. */
  lemma LoneNumberExample()
    ensures Calculate(Some("5")) == Thrown(IndexOutOfBounds)
  {
    DigitLiteral('5');
    ValidPlain("5");
    SingleLiteral("5");
  }

  /** 1+-2 passes the validator, but "-2" is no literal: the postfix text is
      "1  +2-", and the '+' meets a single value and throws EmptyStackException. */
  lemma SignedOperandExample()
    ensures Calculate(Some("1+-2")) == Thrown(EmptyStack)
  {
    SignedOperandValid();
    SignedOperandCompute();
  }

  lemma SignedOperandValid()
    ensures ValidStatement(Some("1+-2"))
  {
    var s := "1+-2";
    BannedIff(s);
    ParenCountIsMultiplicity(s);
    assert s[0] == '1' && s[1] == '+' && s[2] == '-' && s[3] == '2';
    assert multiset(s)['('] == 0 && multiset(s)[')'] == 0;
  }

  lemma SignedOperandCompute()
    ensures Compute("1+-2") == Failure(EmptyStack)
  {
    DigitLiteral('1');
    DigitLiteral('2');
    assert "1+-2" == "1" + ['+'] + ['-'] + "2";
    ToRpnAdjacentOperators("1", '+', '-', "2");
    assert "1" + "  " + ['+'] + "2" + ['-'] == "1" + "  " + ['+'] + ("2" + ['-']);
    ValueOperatorOnOne(Doubles, "1", '+', "2" + ['-']);
  }

  /** With the operand loop as evidently intended, "5" evaluates to "5". */
  lemma LoneNumberIntended()
    ensures ToRpn("5") == Success("5")
    ensures RpnValueIntended(Doubles, "5") == Success(Finite(5.0))
    ensures Format(Finite(5.0)) == Whole("5")
  {
    DigitLiteral('5');
    ToRpnLiteral("5");
    IntendedLiteral(Doubles, "5");
    assert JavaIntCast(Finite(5.0)) == 5;
  }

  /** )1( passes the validator, but the ')' finds no '(' on the stack and peeking at
      the empty stack throws EmptyStackException. */
  lemma UnmatchedExample()
    ensures Calculate(Some(")1(")) == Thrown(EmptyStack)
  {
    UnmatchedValid();
    var s := ")1(";
    ToRpnFailsIffUnmatched(s);
    assert Depth(s[..1]) < 0 by {
      assert s[..1] == ")" && ")"[..0] == [];
    }
  }

  lemma UnmatchedValid()
    ensures ValidStatement(Some(")1("))
  {
    var s := ")1(";
    BannedIff(s);
    assert NoBannedPair(s);
    assert ParenCount(s) == 2 by {
      assert s[..2][..1] == ")" && s[..2] == ")1" && ")"[..0] == [];
    }
  }

  /** (2+3)*4 is 20: the parentheses put the addition first. */
  lemma GroupedExample()
    ensures Calculate(Some("(2+3)*4")) == Whole("20")
  {
    DigitLiteral('2');
    DigitLiteral('3');
    DigitLiteral('4');
    GroupedValid();
    assert "(2+3)*4" == "(" + "2" + ['+'] + "3" + ")" + ['*'] + "4";
    Grouped("2", '+', "3", '*', "4");
    assert Arith('*', Arith('+', Finite(2.0), Finite(3.0)), Finite(4.0)) == Finite(20.0);
    FormatTwenty();
  }

  lemma GroupedValid()
    ensures ValidStatement(Some("(2+3)*4"))
  {
    var s := "(2+3)*4";
    BannedIff(s);
    GroupedNoBannedPair();
    GroupedParenCount();
  }

  lemma GroupedNoBannedPair()
    ensures NoBannedPair("(2+3)*4")
  {
    var s := "(2+3)*4";
    assert s[0] == '(' && s[1] == '2' && s[2] == '+' && s[3] == '3' && s[4] == ')' && s[5] == '*' && s[6] == '4';
  }

  lemma GroupedParenCount()
    ensures ParenCount("(2+3)*4") == 2
  {
    var s := "(2+3)*4";
    ParenCountIsMultiplicity(s);
    assert multiset(s) == multiset{'(', '2', '+', '3', ')', '*', '4'};
  }

  lemma FormatTwenty()
    ensures Format(Finite(20.0)) == Whole("20")
  {
    assert JavaIntCast(Finite(20.0)) == 20;
    assert 20 / 10 == 2 && 20 % 10 == 0;
    assert NatText(20) == "20";
  }

  /** 1+<tab>2 is 3: the tab has priority 0, so it stays in the operand "<tab>2", and
      Double.parseDouble trims it away. */
  lemma TabExample()
    ensures Calculate(Some("1+\t2")) == Whole("3")
  {
    DigitLiteral('1');
    TabTwo();
    TabValid();
    assert "1+\t2" == "1" + ['+'] + "\t2";
    Binary("1", '+', "\t2");
    assert Arith('+', Finite(1.0), Finite(2.0)) == Finite(3.0);
    assert JavaIntCast(Finite(3.0)) == 3;
  }

  lemma TabTwo()
    ensures Literal("\t2") && ParseDouble("\t2") == Some(Finite(2.0))
  {
    TrimAround("\t", "2", []);
    assert "\t" + "2" + [] == "\t2";
    DigitLiteral('2');
  }

  lemma TabValid()
    ensures ValidStatement(Some("1+\t2"))
  {
    var s := "1+\t2";
    BannedIff(s);
    ParenCountIsMultiplicity(s);
    assert s[0] == '1' && s[1] == '+' && s[2] == '\t' && s[3] == '2';
    assert NoBannedPair(s);
    assert multiset(s)['('] == 0 && multiset(s)[')'] == 0;
  }
}

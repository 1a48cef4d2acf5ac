/** rpnToResult of Calculator.java: evaluation of postfix text on a stack of numbers
    (a java.util.Stack, modelled as a sequence whose last element is the top). The
    evaluator is stated over any number type N together with its literal parser and
    its four operations; the calculator uses it with the doubles of JavaDouble. */
module RpnEvaluation {
  import opened Outcomes
  import opened CalcSyntax

  /** A number type's literal parser (None where parsing throws NumberFormatException)
      and its operations: apply(op, b, a) is b op a. */
  datatype Numbers<!N> = Numbers(parse: string -> Option<N>, apply: (char, N, N) -> N)

  /** Where the operand that starts at i ends: the first index from i on that holds a
      space, an operator or a parenthesis, or the end of the text. */
  function OperandEnd(rpn: string, i: nat): (j: nat)
    requires i <= |rpn|
    ensures i <= j <= |rpn|
    decreases |rpn| - i
  {
    if i == |rpn| || !IsOperandChar(rpn[i]) then i else OperandEnd(rpn, i + 1)
  }

  /** The operand is the maximal run of operand characters from i on. */
  lemma {:induction false} OperandEndSpec(rpn: string, i: nat)
    requires i <= |rpn|
    ensures forall k :: i <= k < OperandEnd(rpn, i) ==> IsOperandChar(rpn[k])
    ensures OperandEnd(rpn, i) < |rpn| ==> !IsOperandChar(rpn[OperandEnd(rpn, i)])
    decreases |rpn| - i
  {
    if i < |rpn| && IsOperandChar(rpn[i]) {
      OperandEndSpec(rpn, i + 1);
    }
  }

  /** The operator test of lines 118-133 on the character c: an operator pops a (the
      top), then b, and pushes b op a; any other character leaves the stack alone. */
  function Operate<N>(num: Numbers<N>, c: char, stack: seq<N>): Result<seq<N>> {
    if !IsOperator(c) then Success(stack)
    else if |stack| < 2 then Failure(EmptyStack)
    else Success(stack[..|stack| - 2] + [num.apply(c, stack[|stack| - 2], stack[|stack| - 1])])
  }

  /** The stack the for loop of lines 102-134 leaves when it starts at index i with the
      given stack, or the exception it throws. After an operand, the character that
      ended it is tested as an operator right away (line 118), which reads past the
      end of the text when the operand ends it. */
  function Run<N>(num: Numbers<N>, rpn: string, i: nat, stack: seq<N>): Result<seq<N>>
    requires i <= |rpn|
    decreases |rpn| - i, 1
  {
    if i == |rpn| then Success(stack)
    else if rpn[i] == ' ' then Run(num, rpn, i + 1, stack)
    else if Priority(rpn[i]) == 0 then
      var j := OperandEnd(rpn, i);
      match num.parse(rpn[i..j])
      case None => Failure(NumberFormat)
      case Some(v) => if j == |rpn| then Failure(IndexOutOfBounds) else Continue(num, rpn, j, stack + [v])
    else
      Continue(num, rpn, i, stack)
  }

  /** The rest of one pass of the for loop: the operator test of line 118 on the
      character at i, then the next pass from i + 1. */
  function Continue<N>(num: Numbers<N>, rpn: string, i: nat, stack: seq<N>): Result<seq<N>>
    requires i < |rpn|
    decreases |rpn| - i, 0
  {
    match Operate(num, rpn[i], stack)
    case Failure(e) => Failure(e)
    case Success(st) => Run(num, rpn, i + 1, st)
  }

  /** What rpnToResult returns: the top of the final stack (line 135), or the exception. */
  function RpnValue<N>(num: Numbers<N>, rpn: string): Result<N> {
    match Run(num, rpn, 0, [])
    case Failure(e) => Failure(e)
    case Success(st) => if st == [] then Failure(EmptyStack) else Success(st[|st| - 1])
  }

  // ---------------------------------------------------------------------------
  // Properties

  /** An operand that fills rpn[i..j] and is followed by a non-operand character or
      the end ends at j. */
  lemma {:induction false} OperandEndAt(rpn: string, i: nat, j: nat)
    requires i <= j <= |rpn|
    requires forall k :: i <= k < j ==> IsOperandChar(rpn[k])
    requires j < |rpn| ==> !IsOperandChar(rpn[j])
    ensures OperandEnd(rpn, i) == j
    decreases j - i
  {
    if i < j {
      OperandEndAt(rpn, i + 1, j);
    }
  }

  /** Postfix text that ends in an operand character never yields a value: the last
      operand reaches the end of the text, and line 118 then reads past it (unless an
      earlier exception comes first). This is why evaluate("5") throws. */
  lemma {:induction false} RunEndingInOperand<N>(num: Numbers<N>, rpn: string, i: nat, stack: seq<N>)
    requires i < |rpn| && IsOperandChar(rpn[|rpn| - 1])
    ensures Run(num, rpn, i, stack).Failure?
    decreases |rpn| - i
  {
    if rpn[i] == ' ' {
      RunEndingInOperand(num, rpn, i + 1, stack);
    } else if Priority(rpn[i]) == 0 {
      var j := OperandEnd(rpn, i);
      OperandEndSpec(rpn, i);
      if j < |rpn| && num.parse(rpn[i..j]).Some? {
        var st := Operate(num, rpn[j], stack + [num.parse(rpn[i..j]).value]);
        if st.Success? {
          RunEndingInOperand(num, rpn, j + 1, st.value);
        }
      }
    } else if Operate(num, rpn[i], stack).Success? {
      RunEndingInOperand(num, rpn, i + 1, Operate(num, rpn[i], stack).value);
    }
  }

  lemma RpnValueEndingInOperand<N>(num: Numbers<N>, rpn: string)
    requires rpn != [] && IsOperandChar(rpn[|rpn| - 1])
    ensures RpnValue(num, rpn).Failure?
  {
    RunEndingInOperand(num, rpn, 0, []);
  }

  /** The exceptions the loop can throw: NumberFormatException from parseDouble,
      StringIndexOutOfBoundsException from reading past the end, and
      EmptyStackException from an operator short of operands. */
  lemma {:induction false} RunErrors<N>(num: Numbers<N>, rpn: string, i: nat, stack: seq<N>)
    requires i <= |rpn|
    ensures Run(num, rpn, i, stack).Failure? ==>
      Run(num, rpn, i, stack).error in {NumberFormat, IndexOutOfBounds, EmptyStack}
    decreases |rpn| - i
  {
    if i == |rpn| {
    } else if rpn[i] == ' ' {
      RunErrors(num, rpn, i + 1, stack);
    } else if Priority(rpn[i]) == 0 {
      var j := OperandEnd(rpn, i);
      if j < |rpn| && num.parse(rpn[i..j]).Some? {
        var st := Operate(num, rpn[j], stack + [num.parse(rpn[i..j]).value]);
        if st.Success? {
          RunErrors(num, rpn, j + 1, st.value);
        }
      }
    } else if Operate(num, rpn[i], stack).Success? {
      RunErrors(num, rpn, i + 1, Operate(num, rpn[i], stack).value);
    }
  }

  lemma RpnValueErrors<N>(num: Numbers<N>, rpn: string)
    ensures RpnValue(num, rpn).Failure? ==> RpnValue(num, rpn).error in {NumberFormat, IndexOutOfBounds, EmptyStack}
  {
    RunErrors(num, rpn, 0, []);
  }

  /** An operator that meets fewer than two values throws EmptyStackException, and one
      that meets two or more replaces the top two, b below a, by b op a. */
  lemma OperateSpec<N>(num: Numbers<N>, c: char, stack: seq<N>)
    requires IsOperator(c)
    ensures |stack| < 2 <==> Operate(num, c, stack) == Failure(EmptyStack)
    ensures |stack| >= 2 ==>
      var b, a := stack[|stack| - 2], stack[|stack| - 1];
      && Operate(num, c, stack).Success?
      && |Operate(num, c, stack).value| == |stack| - 1
      && Operate(num, c, stack).value[..|stack| - 2] == stack[..|stack| - 2]
      && Operate(num, c, stack).value[|stack| - 2] == num.apply(c, b, a)
  {
  }

  /** One operand rpn[i..j] that parses, ended by the character at j < |rpn|: its
      value is pushed, and the character at j is tested as an operator at once. */
  lemma RunOperand<N>(num: Numbers<N>, rpn: string, i: nat, j: nat, stack: seq<N>)
    requires i < j < |rpn|
    requires forall k :: i <= k < j ==> IsOperandChar(rpn[k])
    requires !IsOperandChar(rpn[j]) && num.parse(rpn[i..j]).Some?
    ensures Run(num, rpn, i, stack) == Continue(num, rpn, j, stack + [num.parse(rpn[i..j]).value])
  {
    OperandEndAt(rpn, i, j);
  }

  // ---------------------------------------------------------------------------
  // The loop as evidently intended: an operand that reaches the end of the text is
  // pushed, and the loop ends there instead of testing a character past the end.

  function RunIntended<N>(num: Numbers<N>, rpn: string, i: nat, stack: seq<N>): Result<seq<N>>
    requires i <= |rpn|
    decreases |rpn| - i, 1
  {
    if i == |rpn| then Success(stack)
    else if rpn[i] == ' ' then RunIntended(num, rpn, i + 1, stack)
    else if Priority(rpn[i]) == 0 then
      var j := OperandEnd(rpn, i);
      match num.parse(rpn[i..j])
      case None => Failure(NumberFormat)
      case Some(v) => if j == |rpn| then Success(stack + [v]) else ContinueIntended(num, rpn, j, stack + [v])
    else
      ContinueIntended(num, rpn, i, stack)
  }

  function ContinueIntended<N>(num: Numbers<N>, rpn: string, i: nat, stack: seq<N>): Result<seq<N>>
    requires i < |rpn|
    decreases |rpn| - i, 0
  {
    match Operate(num, rpn[i], stack)
    case Failure(e) => Failure(e)
    case Success(st) => RunIntended(num, rpn, i + 1, st)
  }

  function RpnValueIntended<N>(num: Numbers<N>, rpn: string): Result<N> {
    match RunIntended(num, rpn, 0, [])
    case Failure(e) => Failure(e)
    case Success(st) => if st == [] then Failure(EmptyStack) else Success(st[|st| - 1])
  }

  /** The intended loop never reads past the end, and wherever the loop as written
      does not, the two agree. */
  lemma {:induction false} RunIntendedAgrees<N>(num: Numbers<N>, rpn: string, i: nat, stack: seq<N>)
    requires i <= |rpn|
    ensures RunIntended(num, rpn, i, stack) != Failure(IndexOutOfBounds)
    ensures Run(num, rpn, i, stack) != Failure(IndexOutOfBounds) ==>
      RunIntended(num, rpn, i, stack) == Run(num, rpn, i, stack)
    decreases |rpn| - i
  {
    if i == |rpn| {
    } else if rpn[i] == ' ' {
      RunIntendedAgrees(num, rpn, i + 1, stack);
    } else if Priority(rpn[i]) == 0 {
      var j := OperandEnd(rpn, i);
      if j < |rpn| && num.parse(rpn[i..j]).Some? {
        var st := Operate(num, rpn[j], stack + [num.parse(rpn[i..j]).value]);
        if st.Success? {
          RunIntendedAgrees(num, rpn, j + 1, st.value);
        }
      }
    } else if Operate(num, rpn[i], stack).Success? {
      RunIntendedAgrees(num, rpn, i + 1, Operate(num, rpn[i], stack).value);
    }
  }

  /** The same for the value returned. */
  lemma RpnValueIntendedAgrees<N>(num: Numbers<N>, rpn: string)
    ensures RpnValueIntended(num, rpn) != Failure(IndexOutOfBounds)
    ensures RpnValue(num, rpn) != Failure(IndexOutOfBounds) ==> RpnValueIntended(num, rpn) == RpnValue(num, rpn)
  {
    RunIntendedAgrees(num, rpn, 0, []);
  }

  /** With the intended loop, a lone literal that parses evaluates to its value. */
  lemma IntendedLiteral<N>(num: Numbers<N>, w: string)
    requires |w| > 0 && forall k :: 0 <= k < |w| ==> IsOperandChar(w[k])
    requires num.parse(w).Some?
    ensures RpnValueIntended(num, w) == Success(num.parse(w).value)
  {
    OperandEndAt(w, 0, |w|);
    assert w[0..|w|] == w;
  }

  // ---------------------------------------------------------------------------
  // The loops

  /** The while loop of lines 108-113: collect the operand that starts at i. */
  method ReadOperand(rpn: string, i: nat) returns (operand: string, j: nat)
    requires i < |rpn| && IsOperandChar(rpn[i])
    ensures j == OperandEnd(rpn, i) && operand == rpn[i..j]
  {
    operand := "";
    j := i;
    while rpn[j] != ' ' && Priority(rpn[j]) == 0
      invariant i <= j < |rpn|
      invariant forall k :: i <= k < j ==> IsOperandChar(rpn[k])
      invariant operand == rpn[i..j]
      decreases |rpn| - j
    {
      operand := operand + [rpn[j]];
      j := j + 1;
      if j == |rpn| {
        break;
      }
    }
    OperandEndAt(rpn, i, j);
  }

  /** rpnToResult: the for loop of lines 102-134, whose index the operand loop also
      advances, then the final pop of line 135. */
  method RpnToResult<N>(num: Numbers<N>, rpn: string) returns (r: Result<N>)
    ensures r == RpnValue(num, rpn)
  {
    var stack: seq<N> := [];
    var i := 0;
    while i < |rpn|
      invariant 0 <= i <= |rpn|
      invariant Run(num, rpn, i, stack) == Run(num, rpn, 0, [])
      decreases |rpn| - i
    {
      if rpn[i] == ' ' {
        i := i + 1;
        continue;
      }
      if Priority(rpn[i]) == 0 {
        var operand, j := ReadOperand(rpn, i);
        var parsed := num.parse(operand);
        if parsed.None? {
          return Failure(NumberFormat);
        }
        stack := stack + [parsed.value];
        i := j;
        if i == |rpn| {
          return Failure(IndexOutOfBounds);
        }
      }
      assert Run(num, rpn, 0, []) == Continue(num, rpn, i, stack);
      ghost var before := stack;
      if Priority(rpn[i]) > 1 {
        if stack == [] {
          return Failure(EmptyStack);
        }
        var a := stack[|stack| - 1];
        stack := stack[..|stack| - 1];
        if stack == [] {
          return Failure(EmptyStack);
        }
        var b := stack[|stack| - 1];
        stack := stack[..|stack| - 1] + [num.apply(rpn[i], b, a)];
        assert before[..|before| - 1][..|before| - 2] == before[..|before| - 2];
      }
      assert Operate(num, rpn[i], before) == Success(stack);
      i := i + 1;
    }
    if stack == [] {
      return Failure(EmptyStack);
    }
    return Success(stack[|stack| - 1]);
  }
}

/** What statementToRpn followed by rpnToResult computes on statements of one or two
    operators between numeric literals: ordinary precedence ('*' and '/' before '+'
    and '-'), and left association among equal priorities. */
module Precedence {
  import opened Outcomes
  import opened CalcSyntax
  import opened JavaDouble
  import opened RpnConversion
  import opened RpnEvaluation

  /** A numeric literal as the converter and the evaluator see it: a nonempty run of
      characters of priority 0 other than the space. */
  predicate Literal(w: string) {
    |w| > 0 && forall k :: 0 <= k < |w| ==> IsOperandChar(w[k])
  }

  // ---------------------------------------------------------------------------
  // The conversion

  /** Shunt over one more character is one more Step. */
  lemma ShuntSnoc(s: string, c: char)
    ensures Shunt(s + [c]) == match Shunt(s) case Failure(e) => Failure(e) case Success(st) => Step(st, c)
  {
    assert (s + [c])[..|s|] == s;
  }

  /** A literal is appended to the accumulator and leaves the stack alone. */
  lemma {:induction false} ShuntLiteral(s: string, w: string)
    requires Shunt(s).Success?
    requires forall k :: 0 <= k < |w| ==> IsOperandChar(w[k])
    ensures Shunt(s + w) == Success(Shunting(Shunt(s).value.current + w, Shunt(s).value.stack))
    decreases |w|
  {
    if w == [] {
      assert s + w == s && Shunt(s).value.current + w == Shunt(s).value.current;
    } else {
      var init, last := w[..|w| - 1], w[|w| - 1];
      ShuntLiteral(s, init);
      ShuntSnoc(s + init, last);
      assert s + w == (s + init) + [last];
      assert Shunt(s).value.current + w == (Shunt(s).value.current + init) + [last];
    }
  }

  /** A literal alone converts to itself. */
  lemma ToRpnLiteral(w: string)
    requires Literal(w)
    ensures ToRpn(w) == Success(w)
  {
    assert Shunt([]) == Success(Shunting([], []));
    ShuntLiteral([], w);
    assert [] + w == w;
    assert Reversed([]) == [] && w + [] == w;
  }

  /** An operator on an empty stack: a space goes to the output and the operator is pushed. */
  lemma PushOnEmpty(cur: string, op: char)
    requires IsOperator(op)
    ensures Step(Shunting(cur, []), op) == Success(Shunting(cur + " ", [op]))
  {
    assert PopWhileAtLeast(Shunting(cur + [' '], []), Priority(op)) == Shunting(cur + " ", []);
    assert [] + [op] == [op];
  }

  /** An operator on a stack holding one operator: the older one is popped to the
      output first when its priority is at least the new one's. */
  lemma PushOnOne(cur: string, o1: char, o2: char)
    requires IsOperator(o1) && IsOperator(o2)
    ensures Step(Shunting(cur, [o1]), o2) ==
      if Priority(o1) >= Priority(o2) then Success(Shunting(cur + " " + [o1], [o2]))
      else Success(Shunting(cur + " ", [o1, o2]))
  {
    if Priority(o1) >= Priority(o2) {
      assert [o1][..0] == [];
      assert PopWhileAtLeast(Shunting(cur + " " + [o1], []), Priority(o2)) == Shunting(cur + " " + [o1], []);
      assert [] + [o2] == [o2];
    } else {
      assert PopWhileAtLeast(Shunting(cur + " ", [o1]), Priority(o2)) == Shunting(cur + " ", [o1]);
      assert [o1] + [o2] == [o1, o2];
    }
  }

  lemma ShuntFirstOperand(x: string, op: char)
    requires Literal(x) && IsOperator(op)
    ensures Shunt(x + [op]) == Success(Shunting(x + " ", [op]))
  {
    ShuntLiteral([], x);
    assert [] + x == x && [] + x == x;
    ShuntSnoc(x, op);
    PushOnEmpty(x, op);
  }

  /** "x op y" becomes "x yop": the operands in order, separated by a space, and the
      operator after them. */
  lemma ToRpnBinary(x: string, op: char, y: string)
    requires Literal(x) && Literal(y) && IsOperator(op)
    ensures ToRpn(x + [op] + y) == Success(x + " " + y + [op])
  {
    ShuntFirstOperand(x, op);
    ShuntLiteral(x + [op], y);
    assert Reversed([op]) == [op];
  }

  /** "x o1 y o2 z": when o1 binds at least as tightly as o2 it is applied first
      ("x y o1zo2"), which makes equal priorities associate to the left; otherwise
      o2 is applied first ("x y zo2o1"). */
  lemma ToRpnTernary(x: string, o1: char, y: string, o2: char, z: string)
    requires Literal(x) && Literal(y) && Literal(z) && IsOperator(o1) && IsOperator(o2)
    ensures ToRpn(x + [o1] + y + [o2] + z) == Success(
      if Priority(o1) >= Priority(o2) then x + " " + y + " " + [o1] + z + [o2]
      else x + " " + y + " " + z + [o2, o1])
  {
    var s1 := x + [o1] + y;
    ShuntFirstOperand(x, o1);
    ShuntLiteral(x + [o1], y);
    ShuntSnoc(s1, o2);
    PushOnOne(x + " " + y, o1, o2);
    ShuntLiteral(s1 + [o2], z);
    assert s1 + [o2] + z == x + [o1] + y + [o2] + z;
    if Priority(o1) >= Priority(o2) {
      assert Reversed([o2]) == [o2];
    } else {
      assert Reversed([o1, o2]) == [o2, o1] by {
        assert [o1, o2][..1] == [o1];
        assert Reversed([o1]) == [o1];
      }
    }
  }

  /** "x o1 o2 y" with o1 binding at least as tightly as o2: o1 is popped at once,
      before any second operand, giving "x  o1yo2". */
  lemma ToRpnAdjacentOperators(x: string, o1: char, o2: char, y: string)
    requires Literal(x) && Literal(y) && IsOperator(o1) && IsOperator(o2)
    requires Priority(o1) >= Priority(o2)
    ensures ToRpn(x + [o1] + [o2] + y) == Success(x + "  " + [o1] + y + [o2])
  {
    ShuntFirstOperand(x, o1);
    ShuntSnoc(x + [o1], o2);
    PushOnOne(x + " ", o1, o2);
    assert x + " " + " " + [o1] == x + "  " + [o1];
    ShuntLiteral(x + [o1] + [o2], y);
    assert Reversed([o2]) == [o2];
  }

  /** An operator on a stack holding only '(' is pushed above it: nothing has a lower
      priority than '('. */
  lemma PushOnOpen(cur: string, op: char)
    requires IsOperator(op)
    ensures Step(Shunting(cur, ['(']), op) == Success(Shunting(cur + " ", ['(', op]))
  {
    assert PopWhileAtLeast(Shunting(cur + [' '], ['(']), Priority(op)) == Shunting(cur + " ", ['(']);
    assert ['('] + [op] == ['(', op];
  }

  /** ')' over "( op": a space and then op go to the output, and the stack empties. */
  lemma CloseOverOne(cur: string, op: char)
    requires IsOperator(op)
    ensures Step(Shunting(cur, ['(', op]), ')') == Success(Shunting(cur + " " + [op], []))
  {
    assert ['(', op][..1] == ['('] && ['('][..0] == [];
    assert PopToOpen(Shunting(cur + " ", ['(', op])) == PopToOpen(Shunting(cur + " " + [op], ['(']));
  }

  /** "(x o1 y) o2 z": the parentheses put o1 first whatever the priorities. The ')'
      adds a space of its own, so the text is x + " " + y + " " + [o1] + " " + z + [o2]. */
  lemma ToRpnGrouped(x: string, o1: char, y: string, o2: char, z: string)
    requires Literal(x) && Literal(y) && Literal(z) && IsOperator(o1) && IsOperator(o2)
    ensures ToRpn("(" + x + [o1] + y + ")" + [o2] + z) == Success(x + " " + y + " " + [o1] + " " + z + [o2])
  {
    var s2 := "(" + x + [o1] + y + ")";
    var c2 := x + " " + y + " " + [o1];
    ShuntGroup(x, o1, y);
    ShuntSnoc(s2, o2);
    PushOnEmpty(c2, o2);
    ShuntLiteral(s2 + [o2], z);
    assert s2 + [o2] + z == "(" + x + [o1] + y + ")" + [o2] + z;
    assert Reversed([o2]) == [o2];
  }

  /** "(x o1 y)" leaves "x y o1" in the output and the stack empty. */
  lemma ShuntGroup(x: string, o1: char, y: string)
    requires Literal(x) && Literal(y) && IsOperator(o1)
    ensures Shunt("(" + x + [o1] + y + ")") == Success(Shunting(x + " " + y + " " + [o1], []))
  {
    ShuntOpenOperator(x, o1);
    var s1 := "(" + x + [o1];
    ShuntLiteral(s1, y);
    ShuntSnoc(s1 + y, ')');
    CloseOverOne(x + " " + y, o1);
  }

  /** "(x o1" leaves "x " in the output and "( o1" on the stack. */
  lemma ShuntOpenOperator(x: string, o1: char)
    requires Literal(x) && IsOperator(o1)
    ensures Shunt("(" + x + [o1]) == Success(Shunting(x + " ", ['(', o1]))
  {
    ShuntSnoc([], '(');
    assert [] + ['('] == "(";
    ShuntLiteral("(", x);
    assert [] + x == x;
    ShuntSnoc("(" + x, o1);
    PushOnOpen(x, o1);
  }

  // ---------------------------------------------------------------------------
  // The evaluation, for any number type

  /** A character other than an operator after an operand changes nothing. */
  lemma ContinueSkips<N>(num: Numbers<N>, rpn: string, i: nat, stack: seq<N>)
    requires i < |rpn| && !IsOperator(rpn[i])
    ensures Continue(num, rpn, i, stack) == Run(num, rpn, i + 1, stack)
  {
  }

  /** A literal followed by a space: its value is pushed, and the run resumes at j,
      just past the space. */
  lemma RunLiteralSpace<N>(num: Numbers<N>, rpn: string, i: nat, j: nat, w: string, stack: seq<N>, after: seq<N>)
    requires Literal(w) && num.parse(w).Some?
    requires j == i + |w| + 1 && j <= |rpn| && rpn[i..i + |w|] == w && rpn[i + |w|] == ' '
    requires after == stack + [num.parse(w).value]
    ensures Run(num, rpn, i, stack) == Run(num, rpn, j, after)
  {
    forall k | i <= k < i + |w| ensures IsOperandChar(rpn[k]) {
      assert rpn[k] == w[k - i];
    }
    RunOperand(num, rpn, i, i + |w|, stack);
    ContinueSkips(num, rpn, i + |w|, stack + [num.parse(w).value]);
  }

  /** A literal followed by an operator: its value is pushed and the operator applied
      to it and the value p below at once. */
  lemma RunLiteralOperator<N>(num: Numbers<N>, rpn: string, i: nat, j: nat, w: string, op: char,
                              s: seq<N>, p: N, before: seq<N>, after: seq<N>)
    requires Literal(w) && num.parse(w).Some? && IsOperator(op)
    requires j == i + |w| + 1 && j <= |rpn| && rpn[i..i + |w|] == w && rpn[i + |w|] == op
    requires before == s + [p] && after == s + [num.apply(op, p, num.parse(w).value)]
    ensures Run(num, rpn, i, before) == Run(num, rpn, j, after)
  {
    forall k | i <= k < i + |w| ensures IsOperandChar(rpn[k]) {
      assert rpn[k] == w[k - i];
    }
    RunOperand(num, rpn, i, i + |w|, s + [p]);
    var st := s + [p] + [num.parse(w).value];
    assert st[..|st| - 2] == s && st[|st| - 2] == p;
  }

  /** An operator standing alone, on a stack of two values b below a: b op a. */
  lemma RunOperatorOnTwo<N>(num: Numbers<N>, rpn: string, i: nat, j: nat, op: char, b: N, a: N)
    requires j == i + 1 && i < |rpn| && rpn[i] == op && IsOperator(op)
    ensures Run(num, rpn, i, [b, a]) == Run(num, rpn, j, [num.apply(op, b, a)])
  {
    assert [b, a][..0] + [num.apply(op, b, a)] == [num.apply(op, b, a)];
  }

  /** The end of the text: the stack is what the loop leaves. */
  lemma RunAtEnd<N>(num: Numbers<N>, rpn: string, i: nat, stack: seq<N>)
    requires i == |rpn|
    ensures Run(num, rpn, i, stack) == Success(stack)
  {
  }

  /** A literal alone yields no value: its digits run to the end of the text. */
  lemma ValueLiteral<N>(num: Numbers<N>, w: string)
    requires Literal(w)
    ensures RpnValue(num, w) == Failure(if num.parse(w).None? then NumberFormat else IndexOutOfBounds)
  {
    OperandEndAt(w, 0, |w|);
    assert w[0..|w|] == w;
  }

  /** "x yop" evaluates to x op y: the left operand is b, below the right one. */
  lemma ValueBinary<N>(num: Numbers<N>, x: string, y: string, op: char)
    requires Literal(x) && Literal(y) && IsOperator(op)
    requires num.parse(x).Some? && num.parse(y).Some?
    ensures RpnValue(num, x + " " + y + [op]) == Success(num.apply(op, num.parse(x).value, num.parse(y).value))
  {
    var rpn := x + " " + y + [op];
    var vx, vy := num.parse(x).value, num.parse(y).value;
    assert rpn[..|x|] == x && rpn[|x| + 1..|x| + 1 + |y|] == y;
    assert rpn[0..|x|] == x;
    RunLiteralSpace(num, rpn, 0, |x| + 1, x, [], [vx]);
    RunLiteralOperator(num, rpn, |x| + 1, |rpn|, y, op, [], vx, [vx], [num.apply(op, vx, vy)]);
    RunAtEnd(num, rpn, |rpn|, [num.apply(op, vx, vy)]);
  }

  /** "x  o rest": the operator o finds only the value of x and throws
      EmptyStackException. */
  lemma ValueOperatorOnOne<N>(num: Numbers<N>, x: string, o: char, rest: string)
    requires Literal(x) && num.parse(x).Some? && IsOperator(o)
    ensures RpnValue(num, x + "  " + [o] + rest) == Failure(EmptyStack)
  {
    var rpn := x + "  " + [o] + rest;
    var vx := num.parse(x).value;
    assert rpn[0..|x|] == x && rpn[|x|] == ' ' && rpn[|x| + 1] == ' ' && rpn[|x| + 2] == o;
    RunLiteralSpace(num, rpn, 0, |x| + 1, x, [], [vx]);
    assert Run(num, rpn, |x| + 1, [vx]) == Run(num, rpn, |x| + 2, [vx]);
    assert Run(num, rpn, |x| + 2, [vx]) == Failure(EmptyStack);
  }

  /** "x y " leaves two values, and only the top one is returned: values below the
      top are dropped without an exception. */
  lemma ValueDropsDeeper<N>(num: Numbers<N>, x: string, y: string)
    requires Literal(x) && Literal(y) && num.parse(x).Some? && num.parse(y).Some?
    ensures RpnValue(num, x + " " + y + " ") == Success(num.parse(y).value)
  {
    var rpn := x + " " + y + " ";
    var vx, vy := num.parse(x).value, num.parse(y).value;
    assert rpn[0..|x|] == x && rpn[|x| + 1..|x| + 1 + |y|] == y;
    RunLiteralSpace(num, rpn, 0, |x| + 1, x, [], [vx]);
    RunLiteralSpace(num, rpn, |x| + 1, |rpn|, y, [vx], [vx, vy]);
    RunAtEnd(num, rpn, |rpn|, [vx, vy]);
  }

  /** The run over "x y o1zo2", laid out in rpn at the given positions. */
  lemma RunLeftFirst<N>(num: Numbers<N>, rpn: string, x: string, y: string, o1: char, z: string, o2: char)
    requires Literal(x) && Literal(y) && Literal(z) && IsOperator(o1) && IsOperator(o2)
    requires num.parse(x).Some? && num.parse(y).Some? && num.parse(z).Some?
    requires |rpn| == |x| + |y| + |z| + 4
    requires rpn[0..|x|] == x && rpn[|x|] == ' '
    requires rpn[|x| + 1..|x| + 1 + |y|] == y && rpn[|x| + 1 + |y|] == ' ' && rpn[|x| + |y| + 2] == o1
    requires rpn[|x| + |y| + 3..|x| + |y| + 3 + |z|] == z && rpn[|x| + |y| + 3 + |z|] == o2
    ensures Run(num, rpn, 0, []) ==
      Success([num.apply(o2, num.apply(o1, num.parse(x).value, num.parse(y).value), num.parse(z).value)])
  {
    var vx, vy, vz := num.parse(x).value, num.parse(y).value, num.parse(z).value;
    var v := num.apply(o1, vx, vy);
    var r := num.apply(o2, v, vz);
    RunLiteralSpace(num, rpn, 0, |x| + 1, x, [], [vx]);
    RunLiteralSpace(num, rpn, |x| + 1, |x| + |y| + 2, y, [vx], [vx, vy]);
    RunOperatorOnTwo(num, rpn, |x| + |y| + 2, |x| + |y| + 3, o1, vx, vy);
    RunLiteralOperator(num, rpn, |x| + |y| + 3, |rpn|, z, o2, [], v, [v], [r]);
    RunAtEnd(num, rpn, |rpn|, [r]);
  }

  /** "x y o1zo2" evaluates to (x o1 y) o2 z. */
  lemma ValueLeftFirst<N>(num: Numbers<N>, x: string, y: string, o1: char, z: string, o2: char)
    requires Literal(x) && Literal(y) && Literal(z) && IsOperator(o1) && IsOperator(o2)
    requires num.parse(x).Some? && num.parse(y).Some? && num.parse(z).Some?
    ensures RpnValue(num, x + " " + y + " " + [o1] + z + [o2]) ==
      Success(num.apply(o2, num.apply(o1, num.parse(x).value, num.parse(y).value), num.parse(z).value))
  {
    var rpn := x + " " + y + " " + [o1] + z + [o2];
    assert rpn[0..|x|] == x && rpn[|x| + 1..|x| + 1 + |y|] == y;
    assert rpn[|x| + |y| + 3..|x| + |y| + 3 + |z|] == z;
    RunLeftFirst(num, rpn, x, y, o1, z, o2);
  }

  /** The run over "x y zo2o1", laid out in rpn at the given positions. */
  lemma RunRightFirst<N>(num: Numbers<N>, rpn: string, x: string, y: string, z: string, o2: char, o1: char)
    requires Literal(x) && Literal(y) && Literal(z) && IsOperator(o1) && IsOperator(o2)
    requires num.parse(x).Some? && num.parse(y).Some? && num.parse(z).Some?
    requires |rpn| == |x| + |y| + |z| + 4
    requires rpn[0..|x|] == x && rpn[|x|] == ' '
    requires rpn[|x| + 1..|x| + 1 + |y|] == y && rpn[|x| + 1 + |y|] == ' '
    requires rpn[|x| + |y| + 2..|x| + |y| + 2 + |z|] == z && rpn[|x| + |y| + 2 + |z|] == o2
    requires rpn[|x| + |y| + |z| + 3] == o1
    ensures Run(num, rpn, 0, []) ==
      Success([num.apply(o1, num.parse(x).value, num.apply(o2, num.parse(y).value, num.parse(z).value))])
  {
    var vx, vy, vz := num.parse(x).value, num.parse(y).value, num.parse(z).value;
    var w := num.apply(o2, vy, vz);
    var r := num.apply(o1, vx, w);
    RunLiteralSpace(num, rpn, 0, |x| + 1, x, [], [vx]);
    RunLiteralSpace(num, rpn, |x| + 1, |x| + |y| + 2, y, [vx], [vx, vy]);
    RunLiteralOperator(num, rpn, |x| + |y| + 2, |x| + |y| + |z| + 3, z, o2, [vx], vy, [vx, vy], [vx, w]);
    RunOperatorOnTwo(num, rpn, |x| + |y| + |z| + 3, |rpn|, o1, vx, w);
    RunAtEnd(num, rpn, |rpn|, [r]);
  }

  /** "x y zo2o1" evaluates to x o1 (y o2 z). */
  lemma ValueRightFirst<N>(num: Numbers<N>, x: string, y: string, z: string, o2: char, o1: char)
    requires Literal(x) && Literal(y) && Literal(z) && IsOperator(o1) && IsOperator(o2)
    requires num.parse(x).Some? && num.parse(y).Some? && num.parse(z).Some?
    ensures RpnValue(num, x + " " + y + " " + z + [o2, o1]) ==
      Success(num.apply(o1, num.parse(x).value, num.apply(o2, num.parse(y).value, num.parse(z).value)))
  {
    var rpn := x + " " + y + " " + z + [o2, o1];
    assert rpn[0..|x|] == x && rpn[|x| + 1..|x| + 1 + |y|] == y;
    assert rpn[|x| + |y| + 2..|x| + |y| + 2 + |z|] == z;
    RunRightFirst(num, rpn, x, y, z, o2, o1);
  }

  /** The run over "x y o1 zo2", laid out in rpn at the given positions. */
  lemma RunGrouped<N>(num: Numbers<N>, rpn: string, x: string, y: string, o1: char, z: string, o2: char)
    requires Literal(x) && Literal(y) && Literal(z) && IsOperator(o1) && IsOperator(o2)
    requires num.parse(x).Some? && num.parse(y).Some? && num.parse(z).Some?
    requires |rpn| == |x| + |y| + |z| + 5
    requires rpn[0..|x|] == x && rpn[|x|] == ' '
    requires rpn[|x| + 1..|x| + 1 + |y|] == y && rpn[|x| + 1 + |y|] == ' ' && rpn[|x| + |y| + 2] == o1
    requires rpn[|x| + |y| + 3] == ' '
    requires rpn[|x| + |y| + 4..|x| + |y| + 4 + |z|] == z && rpn[|x| + |y| + 4 + |z|] == o2
    ensures Run(num, rpn, 0, []) ==
      Success([num.apply(o2, num.apply(o1, num.parse(x).value, num.parse(y).value), num.parse(z).value)])
  {
    var vx, vy, vz := num.parse(x).value, num.parse(y).value, num.parse(z).value;
    var v := num.apply(o1, vx, vy);
    var r := num.apply(o2, v, vz);
    RunLiteralSpace(num, rpn, 0, |x| + 1, x, [], [vx]);
    RunLiteralSpace(num, rpn, |x| + 1, |x| + |y| + 2, y, [vx], [vx, vy]);
    RunOperatorOnTwo(num, rpn, |x| + |y| + 2, |x| + |y| + 3, o1, vx, vy);
    assert Run(num, rpn, |x| + |y| + 3, [v]) == Run(num, rpn, |x| + |y| + 4, [v]);
    RunLiteralOperator(num, rpn, |x| + |y| + 4, |rpn|, z, o2, [], v, [v], [r]);
    RunAtEnd(num, rpn, |rpn|, [r]);
  }

  /** "x y o1 zo2", the text of "(x o1 y) o2 z", evaluates to (x o1 y) o2 z. */
  lemma ValueGrouped<N>(num: Numbers<N>, x: string, y: string, o1: char, z: string, o2: char)
    requires Literal(x) && Literal(y) && Literal(z) && IsOperator(o1) && IsOperator(o2)
    requires num.parse(x).Some? && num.parse(y).Some? && num.parse(z).Some?
    ensures RpnValue(num, x + " " + y + " " + [o1] + " " + z + [o2]) ==
      Success(num.apply(o2, num.apply(o1, num.parse(x).value, num.parse(y).value), num.parse(z).value))
  {
    var rpn := x + " " + y + " " + [o1] + " " + z + [o2];
    assert rpn[0..|x|] == x && rpn[|x| + 1..|x| + 1 + |y|] == y;
    assert rpn[|x| + |y| + 4..|x| + |y| + 4 + |z|] == z;
    RunGrouped(num, rpn, x, y, o1, z, o2);
  }
}

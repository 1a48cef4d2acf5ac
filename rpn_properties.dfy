/** What statementToRpn promises about its output, proved on the model of
    RpnConversion: the operators are conserved, the operand characters keep their
    order, the operator stack is ordered by strictly increasing priority, the
    conversion throws exactly when a ')' has no '(' to match, and a properly nested
    statement leaves no parenthesis in the output. */
module RpnProperties {
  import opened Outcomes
  import opened CalcSyntax
  import opened RpnConversion

  /** Nesting depth after s: '(' opens, ')' closes. */
  function Depth(s: string): int {
    if s == [] then 0
    else Depth(s[..|s| - 1]) + (if s[|s| - 1] == '(' then 1 else if s[|s| - 1] == ')' then -1 else 0)
  }

  /** No prefix of s closes more parentheses than it opens. */
  predicate NeverNegative(s: string) {
    forall i | 0 <= i <= |s| :: Depth(s[..i]) >= 0
  }

  /** Properly nested parentheses. */
  predicate Balanced(s: string) {
    NeverNegative(s) && Depth(s) == 0
  }

  /** The characters of numeric literals, in order: every non-space character of priority 0. */
  function OperandChars(s: string): string {
    if s == [] then []
    else OperandChars(s[..|s| - 1]) + (if IsOperandChar(s[|s| - 1]) then [s[|s| - 1]] else [])
  }

  /** What the stack can hold: '(' and operators, each operator of strictly higher
      priority than the entry beneath it. */
  predicate WellStacked(stack: seq<char>) {
    forall k :: 0 <= k < |stack| ==>
      && (stack[k] == '(' || IsOperator(stack[k]))
      && (k > 0 && IsOperator(stack[k]) ==> Priority(stack[k - 1]) < Priority(stack[k]))
  }

  /** No parenthesis at all. */
  predicate NoParens(s: string) {
    multiset(s)['('] == 0 && multiset(s)[')'] == 0
  }

  // ---------------------------------------------------------------------------
  // Helpers on sequences

  lemma {:induction false} OperandCharsAppend(a: string, b: string)
    ensures OperandChars(a + b) == OperandChars(a) + OperandChars(b)
    decreases |b|
  {
    if b != [] {
      assert (a + b)[..|a + b| - 1] == a + b[..|b| - 1];
      OperandCharsAppend(a, b[..|b| - 1]);
    } else {
      assert a + b == a;
    }
  }

  /** A popped run of stack entries contributes no operand character. */
  lemma {:induction false} OperandCharsOfStack(x: seq<char>)
    requires forall k :: 0 <= k < |x| ==> x[k] == '(' || IsOperator(x[k])
    ensures OperandChars(Reversed(x)) == []
    decreases |x|
  {
    if x != [] {
      OperandCharsOfStack(x[..|x| - 1]);
      OperandCharsAppend([x[|x| - 1]], Reversed(x[..|x| - 1]));
      assert OperandChars([x[|x| - 1]]) == [];
    }
  }

  lemma SplitMultiset(x: seq<char>, m: nat)
    requires m <= |x|
    ensures multiset(x) == multiset(x[..m]) + multiset(x[m..])
  {
    assert x == x[..m] + x[m..];
  }

  lemma AllAtLeastNoParens(x: seq<char>, p: int)
    requires AllAtLeast(x, p) && p >= 2
    ensures NoParens(x)
  {
    assert '(' !in x by {
      forall k | 0 <= k < |x| ensures x[k] != '(' { }
    }
    assert ')' !in x by {
      forall k | 0 <= k < |x| ensures x[k] != ')' { }
    }
  }

  lemma WellStackedNoClose(x: seq<char>)
    requires WellStacked(x)
    ensures multiset(x)[')'] == 0
  {
    assert ')' !in x by {
      forall k | 0 <= k < |x| ensures x[k] != ')' { }
    }
  }

  lemma WellStackedPrefix(x: seq<char>, m: nat)
    requires WellStacked(x) && m <= |x|
    ensures WellStacked(x[..m])
  {
    forall k | 0 <= k < m
      ensures x[..m][k] == x[k]
    {
    }
  }

  // ---------------------------------------------------------------------------
  // The shape of one step

  /** An operator pops a run of entries of priority at least its own, stops below
      one of lower priority, and is pushed. */
  lemma StepOperator(st: Shunting, ch: char)
    requires IsOperator(ch)
    ensures var m := |PopWhileAtLeast(Shunting(st.current + [' '], st.stack), Priority(ch)).stack|;
      && m <= |st.stack|
      && Step(st, ch) == Success(Shunting(st.current + [' '] + Reversed(st.stack[m..]), st.stack[..m] + [ch]))
      && AllAtLeast(st.stack[m..], Priority(ch))
      && (m == 0 || Priority(st.stack[m - 1]) < Priority(ch))
  {
    var entry := Shunting(st.current + [' '], st.stack);
    PopWhileAtLeastSpec(entry, Priority(ch));
    PoppedAtLeast(entry, Priority(ch));
  }

  /** A ')' with a '(' on the stack pops down to the topmost '(' and drops it. */
  lemma StepClose(st: Shunting)
    requires '(' in st.stack
    ensures Step(st, ')').Success?
    ensures var m := |Step(st, ')').value.stack|;
      && m < |st.stack| && st.stack[m] == '(' && '(' !in st.stack[m + 1..]
      && Step(st, ')') == Success(Shunting(st.current + [' '] + Reversed(st.stack[m + 1..]), st.stack[..m]))
  {
    var entry := Shunting(st.current + [' '], st.stack);
    PopToOpenFails(entry);
    PopToOpenResult(entry);
    PopToOpenTopmost(entry);
  }

  /** A ')' with no '(' on the stack throws EmptyStackException. */
  lemma StepCloseFails(st: Shunting)
    requires '(' !in st.stack
    ensures Step(st, ')') == Failure(EmptyStack)
  {
    PopToOpenFails(Shunting(st.current + [' '], st.stack));
  }

  // ---------------------------------------------------------------------------
  // Invariants of the stack

  lemma PushWellStacked(stack: seq<char>, m: nat, ch: char)
    requires WellStacked(stack) && m <= |stack| && IsOperator(ch)
    requires m == 0 || Priority(stack[m - 1]) < Priority(ch)
    ensures WellStacked(stack[..m] + [ch])
  {
    WellStackedPrefix(stack, m);
    var t := stack[..m] + [ch];
    forall k | 0 <= k < |t|
      ensures (t[k] == '(' || IsOperator(t[k]))
      ensures (k > 0 && IsOperator(t[k]) ==> Priority(t[k - 1]) < Priority(t[k]))
    {
      if k < m {
        assert t[k] == stack[..m][k];
        if k > 0 {
          assert t[k - 1] == stack[..m][k - 1];
        }
      } else {
        assert t[k] == ch;
        if k > 0 {
          assert t[k - 1] == stack[m - 1];
        }
      }
    }
  }

  lemma StepWellStacked(st: Shunting, ch: char)
    requires WellStacked(st.stack) && Step(st, ch).Success?
    ensures WellStacked(Step(st, ch).value.stack)
  {
    if IsOperator(ch) {
      StepOperator(st, ch);
      var m := |PopWhileAtLeast(Shunting(st.current + [' '], st.stack), Priority(ch)).stack|;
      PushWellStacked(st.stack, m, ch);
    } else if ch == ')' {
      PopToOpenFails(Shunting(st.current + [' '], st.stack));
      StepClose(st);
      WellStackedPrefix(st.stack, |Step(st, ')').value.stack|);
    } else if ch == '(' {
      var t := st.stack + [ch];
      assert forall k | 0 <= k < |st.stack| :: t[k] == st.stack[k];
    }
  }

  /** Every state the converter reaches has a well-stacked operator stack: '(' and
      operators only, each operator above an entry of strictly lower priority. So
      equal priorities never sit on each other, which makes them associate to the left. */
  lemma {:induction false} ShuntWellStacked(s: string)
    requires Shunt(s).Success?
    ensures WellStacked(Shunt(s).value.stack)
    decreases |s|
  {
    if s != [] {
      ShuntWellStacked(s[..|s| - 1]);
      StepWellStacked(Shunt(s[..|s| - 1]).value, s[|s| - 1]);
    }
  }

  // ---------------------------------------------------------------------------
  // Failure exactly on an unmatched ')'

  lemma NeverNegativeNext(s: string)
    requires s != []
    ensures NeverNegative(s) <==> NeverNegative(s[..|s| - 1]) && Depth(s) >= 0
  {
    var init := s[..|s| - 1];
    PrefixesAgree(s, init);
    if NeverNegative(s) {
      assert s[..|s|] == s;
    }
    if NeverNegative(init) && Depth(s) >= 0 {
      forall i | 0 <= i <= |s|
        ensures Depth(s[..i]) >= 0
      {
        if i == |s| {
          assert s[..i] == s;
        } else {
          assert s[..i] == init[..i];
        }
      }
    }
  }

  lemma PrefixesAgree(s: string, init: string)
    requires s != [] && init == s[..|s| - 1]
    ensures forall i | 0 <= i <= |init| :: s[..i] == init[..i]
  {
  }

  lemma OperatorOpenCount(stack: seq<char>, m: nat, p: int, ch: char)
    requires m <= |stack| && AllAtLeast(stack[m..], p) && p >= 2 && ch != '('
    ensures multiset(stack[..m] + [ch])['('] == multiset(stack)['(']
  {
    SplitMultiset(stack, m);
    AllAtLeastNoParens(stack[m..], p);
  }

  lemma CloseOpenCount(stack: seq<char>, m: nat)
    requires m < |stack| && stack[m] == '(' && '(' !in stack[m + 1..]
    ensures multiset(stack[..m])['('] + 1 == multiset(stack)['(']
  {
    assert stack == stack[..m] + ['('] + stack[m + 1..];
  }

  lemma StepOpenCount(st: Shunting, ch: char)
    requires Step(st, ch).Success?
    ensures multiset(Step(st, ch).value.stack)['('] ==
      multiset(st.stack)['('] as int + (if ch == '(' then 1 else if ch == ')' then -1 else 0)
  {
    if IsOperator(ch) {
      StepOperator(st, ch);
      var m := |PopWhileAtLeast(Shunting(st.current + [' '], st.stack), Priority(ch)).stack|;
      OperatorOpenCount(st.stack, m, Priority(ch), ch);
    } else if ch == ')' {
      PopToOpenFails(Shunting(st.current + [' '], st.stack));
      StepClose(st);
      CloseOpenCount(st.stack, |Step(st, ')').value.stack|);
    }
  }

  /** The converter succeeds, with as many '(' on its stack as are open, exactly when
      no prefix closes more parentheses than it opens; otherwise it throws
      EmptyStackException (Stack.peek at line 86). */
  lemma {:induction false} ShuntSucceedsIff(s: string)
    ensures Shunt(s).Success? <==> NeverNegative(s)
    ensures Shunt(s).Success? ==> multiset(Shunt(s).value.stack)['('] == Depth(s)
    ensures Shunt(s).Failure? ==> Shunt(s).error == EmptyStack
    decreases |s|
  {
    if s == [] {
      assert NeverNegative(s) by {
        forall i | 0 <= i <= 0 ensures Depth(s[..i]) >= 0 { assert s[..i] == []; }
      }
    } else {
      var init, ch := s[..|s| - 1], s[|s| - 1];
      ShuntSucceedsIff(init);
      NeverNegativeNext(s);
      if Shunt(init).Success? {
        var st := Shunt(init).value;
        if ch == ')' {
          if '(' in st.stack {
            StepClose(st);
            StepOpenCount(st, ch);
          } else {
            StepCloseFails(st);
          }
        } else if IsOperator(ch) {
          StepOperator(st, ch);
          StepOpenCount(st, ch);
        } else {
          StepOpenCount(st, ch);
        }
      }
    }
  }

  /** statementToRpn throws exactly when some ')' has no '(' to match, as in ")1(",
      and what it throws is EmptyStackException. */
  lemma ToRpnFailsIffUnmatched(s: string)
    ensures ToRpn(s).Failure? <==> exists i | 0 <= i <= |s| :: Depth(s[..i]) < 0
    ensures ToRpn(s).Failure? ==> ToRpn(s).error == EmptyStack
  {
    ShuntSucceedsIff(s);
  }

  // ---------------------------------------------------------------------------
  // Conservation of operators and operand characters

  /** The multiset of characters after an operator step: the space and the operator join. */
  lemma OperatorMultiset(st: Shunting, m: nat, ch: char)
    requires m <= |st.stack|
    ensures multiset(st.current + [' '] + Reversed(st.stack[m..])) + multiset(st.stack[..m] + [ch])
         == multiset(st.current) + multiset(st.stack) + multiset{' ', ch}
  {
    SplitMultiset(st.stack, m);
    ReversedMultiset(st.stack[m..]);
  }

  /** The multiset of characters after a ')' step: the space joins, the '(' leaves. */
  lemma CloseMultiset(st: Shunting, m: nat)
    requires m < |st.stack| && st.stack[m] == '('
    ensures multiset(st.current + [' '] + Reversed(st.stack[m + 1..])) + multiset(st.stack[..m])
         == multiset(st.current) + multiset(st.stack) + multiset{' '} - multiset{'('}
  {
    assert st.stack == st.stack[..m] + ['('] + st.stack[m + 1..];
    ReversedMultiset(st.stack[m + 1..]);
  }

  /** OperatorMultiset, counting one operator c. */
  lemma OperatorCount(st: Shunting, m: nat, ch: char, c: char)
    requires m <= |st.stack| && IsOperator(c)
    ensures multiset(st.current + [' '] + Reversed(st.stack[m..]))[c] + multiset(st.stack[..m] + [ch])[c]
         == multiset(st.current)[c] + multiset(st.stack)[c] + (if ch == c then 1 else 0)
  {
    OperatorMultiset(st, m, ch);
    var a, b := multiset(st.current + [' '] + Reversed(st.stack[m..])), multiset(st.stack[..m] + [ch]);
    assert (a + b)[c] == a[c] + b[c];
  }

  /** CloseMultiset, counting one operator c. */
  lemma CloseCount(st: Shunting, m: nat, c: char)
    requires m < |st.stack| && st.stack[m] == '(' && IsOperator(c)
    ensures multiset(st.current + [' '] + Reversed(st.stack[m + 1..]))[c] + multiset(st.stack[..m])[c]
         == multiset(st.current)[c] + multiset(st.stack)[c]
  {
    CloseMultiset(st, m);
    var a, b := multiset(st.current + [' '] + Reversed(st.stack[m + 1..])), multiset(st.stack[..m]);
    assert (a + b)[c] == a[c] + b[c];
  }

  /** One step adds one occurrence of the operator c to the output and the stack
      together when it reads c, and none otherwise. */
  lemma StepCount(st: Shunting, ch: char, c: char)
    requires Step(st, ch).Success? && IsOperator(c)
    ensures var r := Step(st, ch).value;
      multiset(r.current)[c] + multiset(r.stack)[c] ==
        multiset(st.current)[c] + multiset(st.stack)[c] + (if ch == c then 1 else 0)
  {
    if IsOperator(ch) {
      StepOperator(st, ch);
      OperatorCount(st, |PopWhileAtLeast(Shunting(st.current + [' '], st.stack), Priority(ch)).stack|, ch, c);
    } else if ch == ')' {
      PopToOpenFails(Shunting(st.current + [' '], st.stack));
      StepClose(st);
      CloseCount(st, |Step(st, ')').value.stack|, c);
    } else if ch == '(' {
      assert Step(st, ch) == Success(Shunting(st.current, st.stack + [ch]));
    } else {
      assert Step(st, ch) == Success(Shunting(st.current + [ch], st.stack));
    }
  }

  /** The operator c occurs in the output and the stack together as often as in the
      characters read. */
  lemma {:induction false} ShuntCount(s: string, c: char)
    requires Shunt(s).Success? && IsOperator(c)
    ensures multiset(Shunt(s).value.current)[c] + multiset(Shunt(s).value.stack)[c] == multiset(s)[c]
    decreases |s|
  {
    if s != [] {
      var init := s[..|s| - 1];
      ShuntLast(s);
      ShuntCount(init, c);
      StepCount(Shunt(init).value, s[|s| - 1], c);
      CountSnoc(s, c);
    }
  }

  /** Reading one more character adds one occurrence of it. */
  lemma CountSnoc(s: string, c: char)
    requires s != []
    ensures multiset(s)[c] == multiset(s[..|s| - 1])[c] + (if s[|s| - 1] == c then 1 else 0)
  {
    assert s == s[..|s| - 1] + [s[|s| - 1]];
  }

  /** Each + - * / of the statement appears in the postfix text exactly as often. */
  lemma ToRpnKeepsOperators(s: string)
    requires ToRpn(s).Success?
    ensures forall c | IsOperator(c) :: multiset(ToRpn(s).value)[c] == multiset(s)[c]
  {
    forall c | IsOperator(c)
      ensures multiset(ToRpn(s).value)[c] == multiset(s)[c]
    {
      ShuntCount(s, c);
      ReversedMultiset(Shunt(s).value.stack);
    }
  }

  /** A space and a popped run of stack entries add no operand character. */
  lemma PoppedOperands(current: string, x: seq<char>)
    requires forall k :: 0 <= k < |x| ==> x[k] == '(' || IsOperator(x[k])
    ensures OperandChars(current + [' '] + Reversed(x)) == OperandChars(current)
  {
    OperandCharsOfStack(x);
    OperandCharsAppend(current + [' '], Reversed(x));
    assert (current + [' '])[..|current|] == current;
  }

  lemma StepOperands(st: Shunting, ch: char)
    requires WellStacked(st.stack) && Step(st, ch).Success?
    ensures OperandChars(Step(st, ch).value.current) ==
      OperandChars(st.current) + (if IsOperandChar(ch) then [ch] else [])
  {
    if IsOperator(ch) {
      StepOperator(st, ch);
      var m := |PopWhileAtLeast(Shunting(st.current + [' '], st.stack), Priority(ch)).stack|;
      PoppedOperands(st.current, st.stack[m..]);
    } else if ch == ')' {
      PopToOpenFails(Shunting(st.current + [' '], st.stack));
      StepClose(st);
      PoppedOperands(st.current, st.stack[|Step(st, ')').value.stack| + 1..]);
    } else {
      assert (st.current + [ch])[..|st.current|] == st.current;
    }
  }

  lemma {:induction false} ShuntOperands(s: string)
    requires Shunt(s).Success?
    ensures OperandChars(Shunt(s).value.current) == OperandChars(s)
    decreases |s|
  {
    if s != [] {
      var init := s[..|s| - 1];
      ShuntLast(s);
      ShuntOperands(init);
      ShuntWellStacked(init);
      StepOperands(Shunt(init).value, s[|s| - 1]);
    }
  }

  /** The digits, decimal points and other literal characters reach the postfix text
      in their original order. */
  lemma ToRpnKeepsOperands(s: string)
    requires ToRpn(s).Success?
    ensures OperandChars(ToRpn(s).value) == OperandChars(s)
  {
    var st := Shunt(s).value;
    ShuntOperands(s);
    ShuntWellStacked(s);
    OperandCharsOfStack(st.stack);
    OperandCharsAppend(st.current, Reversed(st.stack));
  }

  // ---------------------------------------------------------------------------
  // No parentheses in the output of a properly nested statement

  /** A space and a popped run free of parentheses keep the output free of them. */
  lemma PoppedNoParens(current: string, x: seq<char>)
    requires NoParens(current) && NoParens(x)
    ensures NoParens(current + [' '] + Reversed(x))
  {
    ReversedMultiset(x);
  }

  lemma StepNoParens(st: Shunting, ch: char)
    requires WellStacked(st.stack) && NoParens(st.current) && Step(st, ch).Success?
    ensures NoParens(Step(st, ch).value.current)
  {
    if IsOperator(ch) {
      StepOperator(st, ch);
      var m := |PopWhileAtLeast(Shunting(st.current + [' '], st.stack), Priority(ch)).stack|;
      AllAtLeastNoParens(st.stack[m..], Priority(ch));
      PoppedNoParens(st.current, st.stack[m..]);
    } else if ch == ')' {
      PopToOpenFails(Shunting(st.current + [' '], st.stack));
      StepClose(st);
      var m := |Step(st, ')').value.stack|;
      WellStackedNoClose(st.stack);
      SplitMultiset(st.stack, m + 1);
      PoppedNoParens(st.current, st.stack[m + 1..]);
    }
  }

  lemma {:induction false} ShuntNoParens(s: string)
    requires Shunt(s).Success?
    ensures NoParens(Shunt(s).value.current)
    decreases |s|
  {
    if s != [] {
      var init := s[..|s| - 1];
      ShuntNoParens(init);
      ShuntWellStacked(init);
      StepNoParens(Shunt(init).value, s[|s| - 1]);
    }
  }

  /** A properly nested statement converts without throwing, and its postfix text
      holds neither '(' nor ')'. */
  lemma ToRpnBalancedHasNoParens(s: string)
    requires Balanced(s)
    ensures ToRpn(s).Success?
    ensures '(' !in ToRpn(s).value && ')' !in ToRpn(s).value
  {
    ShuntSucceedsIff(s);
    var st := Shunt(s).value;
    ShuntNoParens(s);
    ShuntWellStacked(s);
    WellStackedNoClose(st.stack);
    ReversedMultiset(st.stack);
    assert NoParens(st.current + Reversed(st.stack));
  }
}

/** statementToRpn of Calculator.java: the shunting-yard conversion of an infix
    statement into postfix text, with its operator stack (a java.util.Stack,
    modelled as a sequence whose last element is the top). */
module RpnConversion {
  import opened Outcomes
  import opened CalcSyntax

  /** The converter's working state: the accumulator `current` and the operator stack. */
  datatype Shunting = Shunting(current: string, stack: seq<char>)

  /** The characters of s from last to first. The final loop of statementToRpn pops
      the whole stack, so it appends the stack in this order. */
  function Reversed(s: seq<char>): (r: seq<char>)
    ensures |r| == |s|
  {
    if s == [] then [] else [s[|s| - 1]] + Reversed(s[..|s| - 1])
  }

  lemma {:induction false} ReversedAt(s: seq<char>, k: nat)
    requires k < |s|
    ensures Reversed(s)[k] == s[|s| - 1 - k]
  {
    if k > 0 {
      ReversedAt(s[..|s| - 1], k - 1);
    }
  }

  lemma ReversedMultiset(s: seq<char>)
    ensures multiset(Reversed(s)) == multiset(s)
  {
    if s != [] {
      assert s == s[..|s| - 1] + [s[|s| - 1]];
      ReversedMultiset(s[..|s| - 1]);
    }
  }

  /** Popping the top of a nonempty stack onto the output is one step of the reversal. */
  lemma ReversedStep(stack: seq<char>, m: nat)
    requires m < |stack|
    ensures Reversed(stack[m..]) == [stack[|stack| - 1]] + Reversed(stack[..|stack| - 1][m..])
  {
    assert stack[m..][..|stack[m..]| - 1] == stack[..|stack| - 1][m..];
  }

  /** Every character of s has priority at least p. */
  predicate AllAtLeast(s: seq<char>, p: int) {
    forall k :: 0 <= k < |s| ==> Priority(s[k]) >= p
  }

  /** The while loop of lines 75-81: move every top of priority at least p to the output. */
  function PopWhileAtLeast(st: Shunting, p: int): (r: Shunting)
    ensures |r.stack| <= |st.stack|
    decreases |st.stack|
  {
    if st.stack != [] && Priority(st.stack[|st.stack| - 1]) >= p then
      PopWhileAtLeast(Shunting(st.current + [st.stack[|st.stack| - 1]], st.stack[..|st.stack| - 1]), p)
    else
      st
  }

  /** The loop pops a part of the stack off the top, appends it to the output top
      first, and stops at the bottom or at an entry of lower priority than p. */
  lemma {:induction false} PopWhileAtLeastSpec(st: Shunting, p: int)
    ensures var r := PopWhileAtLeast(st, p);
      && r.stack == st.stack[..|r.stack|]
      && r.current == st.current + Reversed(st.stack[|r.stack|..])
      && (r.stack == [] || Priority(r.stack[|r.stack| - 1]) < p)
    decreases |st.stack|
  {
    if st.stack != [] && Priority(st.stack[|st.stack| - 1]) >= p {
      var top, rest := st.stack[|st.stack| - 1], st.stack[..|st.stack| - 1];
      PopWhileAtLeastSpec(Shunting(st.current + [top], rest), p);
      ReversedStep(st.stack, |PopWhileAtLeast(st, p).stack|);
    }
  }

  /** Every entry the loop pops has priority at least p. */
  lemma {:induction false} PoppedAtLeast(st: Shunting, p: int)
    ensures AllAtLeast(st.stack[|PopWhileAtLeast(st, p).stack|..], p)
    decreases |st.stack|
  {
    if st.stack != [] && Priority(st.stack[|st.stack| - 1]) >= p {
      var top, rest := st.stack[|st.stack| - 1], st.stack[..|st.stack| - 1];
      PoppedAtLeast(Shunting(st.current + [top], rest), p);
      var m := |PopWhileAtLeast(st, p).stack|;
      forall k | 0 <= k < |st.stack[m..]|
        ensures Priority(st.stack[m..][k]) >= p
      {
        if m + k < |rest| {
          assert st.stack[m..][k] == rest[m..][k];
        }
      }
    }
  }

  /** Lines 85-89: pop operators to the output until the top is '(' (priority 1), then
      discard it. Peeking at an empty stack throws EmptyStackException. */
  function PopToOpen(st: Shunting): (r: Result<Shunting>)
    decreases |st.stack|
  {
    if st.stack == [] then Failure(EmptyStack)
    else if Priority(st.stack[|st.stack| - 1]) == 1 then
      Success(Shunting(st.current, st.stack[..|st.stack| - 1]))
    else
      PopToOpen(Shunting(st.current + [st.stack[|st.stack| - 1]], st.stack[..|st.stack| - 1]))
  }

  /** The loop fails exactly when there is no '(' on the stack, and then with EmptyStackException. */
  lemma {:induction false} PopToOpenFails(st: Shunting)
    ensures PopToOpen(st).Success? <==> '(' in st.stack
    ensures PopToOpen(st).Failure? ==> PopToOpen(st).error == EmptyStack
    decreases |st.stack|
  {
    if st.stack != [] {
      var top, rest := st.stack[|st.stack| - 1], st.stack[..|st.stack| - 1];
      assert st.stack == rest + [top];
      if Priority(top) != 1 {
        PopToOpenFails(Shunting(st.current + [top], rest));
      }
    }
  }

  /** On success the loop has removed the topmost '(' and everything above it, and
      appended what was above it to the output, top first. */
  lemma {:induction false} PopToOpenResult(st: Shunting)
    requires PopToOpen(st).Success?
    ensures var r := PopToOpen(st).value; var m := |r.stack|;
      && m < |st.stack| && st.stack[m] == '(' && r.stack == st.stack[..m]
      && r.current == st.current + Reversed(st.stack[m + 1..])
    decreases |st.stack|
  {
    var top, rest := st.stack[|st.stack| - 1], st.stack[..|st.stack| - 1];
    if Priority(top) != 1 {
      PopToOpenResult(Shunting(st.current + [top], rest));
      ReversedStep(st.stack, |PopToOpen(st).value.stack| + 1);
    }
  }

  /** The '(' that the loop stops at is the topmost one. */
  lemma {:induction false} PopToOpenTopmost(st: Shunting)
    requires PopToOpen(st).Success?
    ensures |PopToOpen(st).value.stack| < |st.stack|
    ensures '(' !in st.stack[|PopToOpen(st).value.stack| + 1..]
    decreases |st.stack|
  {
    var top, rest := st.stack[|st.stack| - 1], st.stack[..|st.stack| - 1];
    PopToOpenResult(st);
    if Priority(top) != 1 {
      PopToOpenTopmost(Shunting(st.current + [top], rest));
      var m := |PopToOpen(st).value.stack|;
      assert st.stack[m + 1..] == rest[m + 1..] + [top];
    }
  }

  /** One pass of the for loop of lines 63-91 over the character ch. */
  function Step(st: Shunting, ch: char): Result<Shunting> {
    var p := Priority(ch);
    if p == 0 then
      Success(Shunting(st.current + [ch], st.stack))
    else if p == 1 then
      Success(Shunting(st.current, st.stack + [ch]))
    else if p >= 2 then
      var t := PopWhileAtLeast(Shunting(st.current + [' '], st.stack), p);
      Success(Shunting(t.current, t.stack + [ch]))
    else
      PopToOpen(Shunting(st.current + [' '], st.stack))
  }

  /** The state after the for loop has consumed all of s, or the exception it threw. */
  function Shunt(s: string): Result<Shunting> {
    if s == [] then Success(Shunting([], []))
    else
      match Shunt(s[..|s| - 1])
      case Failure(e) => Failure(e)
      case Success(st) => Step(st, s[|s| - 1])
  }

  /** The value statementToRpn returns: the accumulator followed by the stack popped empty. */
  function ToRpn(s: string): Result<string> {
    match Shunt(s)
    case Failure(e) => Failure(e)
    case Success(st) => Success(st.current + Reversed(st.stack))
  }

  /** Once a prefix has thrown, the whole conversion throws the same exception. */
  lemma {:induction false} ShuntFailurePersists(s: string, i: nat)
    requires i <= |s| && Shunt(s[..i]).Failure?
    ensures Shunt(s) == Failure(Shunt(s[..i]).error)
    decreases |s| - i
  {
    if i < |s| {
      assert s[..i + 1][..i] == s[..i];
      ShuntFailurePersists(s, i + 1);
    } else {
      assert s[..i] == s;
    }
  }

  /** Shunt over one more character is one more Step. */
  lemma ShuntNext(s: string, i: nat)
    requires i < |s| && Shunt(s[..i]).Success?
    ensures Shunt(s[..i + 1]) == Step(Shunt(s[..i]).value, s[i])
  {
    assert s[..i + 1][..i] == s[..i];
  }

  /** A conversion that succeeds succeeded on all but the last character, and the
      last character took one more Step. */
  lemma ShuntLast(s: string)
    requires s != [] && Shunt(s).Success?
    ensures Shunt(s[..|s| - 1]).Success? && Shunt(s) == Step(Shunt(s[..|s| - 1]).value, s[|s| - 1])
  {
  }

  /** The while loop of lines 75-81, run on the converter's accumulator and stack. */
  method PopOperators(current: string, stack: seq<char>, priority: int)
    returns (current': string, stack': seq<char>)
    ensures Shunting(current', stack') == PopWhileAtLeast(Shunting(current, stack), priority)
  {
    current', stack' := current, stack;
    while stack' != []
      invariant PopWhileAtLeast(Shunting(current', stack'), priority)
             == PopWhileAtLeast(Shunting(current, stack), priority)
      decreases |stack'|
    {
      if Priority(stack'[|stack'| - 1]) >= priority {
        current' := current' + [stack'[|stack'| - 1]];
        stack' := stack'[..|stack'| - 1];
      } else {
        break;
      }
    }
  }

  /** The while loop of lines 86-88 and the pop of line 89. */
  method PopUntilOpen(current: string, stack: seq<char>) returns (r: Result<Shunting>)
    ensures r == PopToOpen(Shunting(current, stack))
  {
    var current', stack' := current, stack;
    while stack' == [] || Priority(stack'[|stack'| - 1]) != 1
      invariant PopToOpen(Shunting(current', stack')) == PopToOpen(Shunting(current, stack))
      decreases |stack'|
    {
      if stack' == [] {
        return Failure(EmptyStack);
      }
      current' := current' + [stack'[|stack'| - 1]];
      stack' := stack'[..|stack'| - 1];
    }
    return Success(Shunting(current', stack'[..|stack'| - 1]));
  }

  /** The while loop of lines 92-94: empty the stack onto the output. */
  method PopRemaining(current: string, stack: seq<char>) returns (rpn: string)
    ensures rpn == current + Reversed(stack)
  {
    var stack' := stack;
    rpn := current;
    while stack' != []
      invariant rpn + Reversed(stack') == current + Reversed(stack)
      decreases |stack'|
    {
      ReversedStep(stack', 0);
      rpn := rpn + [stack'[|stack'| - 1]];
      stack' := stack'[..|stack'| - 1];
    }
  }

  /** statementToRpn: the for loop of lines 63-91 over the characters, then the
      final emptying of the stack. */
  method StatementToRpn(statement: string) returns (r: Result<string>)
    ensures r == ToRpn(statement)
  {
    var current: string := "";
    var stack: seq<char> := [];
    var i := 0;
    while i < |statement|
      invariant 0 <= i <= |statement|
      invariant Shunt(statement[..i]) == Success(Shunting(current, stack))
    {
      var ch := statement[i];
      var priority := Priority(ch);
      ShuntNext(statement, i);
      if priority == 0 {
        current := current + [ch];
      } else if priority == 1 {
        stack := stack + [ch];
      } else if priority == 2 || priority == 3 {
        current, stack := PopOperators(current + [' '], stack, priority);
        stack := stack + [ch];
      } else {
        var popped := PopUntilOpen(current + [' '], stack);
        if popped.Failure? {
          ShuntFailurePersists(statement, i + 1);
          return Failure(popped.error);
        }
        current, stack := popped.value.current, popped.value.stack;
      }
      i := i + 1;
    }
    assert statement[..|statement|] == statement;
    var rpn := PopRemaining(current, stack);
    return Success(rpn);
  }
}

/** The character classification of Calculator.java (getPriority) and its
    up-front validation of a statement (isStatementValid). */
module CalcSyntax {
  import opened Outcomes

  /** getPriority: the one table that tells operand characters, operators and
      parentheses apart. */
  function Priority(c: char): (p: int)
    ensures -1 <= p <= 3
  {
    if c == '*' || c == '/' then 3
    else if c == '+' || c == '-' then 2
    else if c == '(' then 1
    else if c == ')' then -1
    else 0
  }

  /** The table read column by column: every character other than the six symbols,
      digits and '.' as much as spaces and letters, has priority 0. */
  lemma PriorityTable(c: char)
    ensures Priority(c) == 3 <==> c == '*' || c == '/'
    ensures Priority(c) == 2 <==> c == '+' || c == '-'
    ensures Priority(c) == 1 <==> c == '('
    ensures Priority(c) == -1 <==> c == ')'
    ensures Priority(c) == 0 <==> c !in "*/+-()"
  {
  }

  /** The four binary operators. */
  predicate IsOperator(c: char) {
    Priority(c) > 1
  }

  /** A character that belongs to a numeric literal in postfix text:
      priority 0 and not the space separator. */
  predicate IsOperandChar(c: char) {
    c != ' ' && Priority(c) == 0
  }

  /** The regular expression [+,*,/] that the first character must not match
      (the commas inside the brackets are members of the class). */
  predicate BadFirst(c: char) {
    c in "+,*/"
  }

  /** The regular expression [+,\-,*,/] that the last character must not match. */
  predicate BadLast(c: char) {
    c in "+,-*/"
  }

  /** Number of '(' and ')' characters, as the counting loop of the validator sees them. */
  function ParenCount(s: string): (n: nat)
    ensures n <= |s|
  {
    if s == [] then 0
    else ParenCount(s[..|s| - 1]) + (if s[|s| - 1] == '(' || s[|s| - 1] == ')' then 1 else 0)
  }

  /** w occurs in s starting at index i. */
  predicate OccursAt(s: string, w: string, i: int) {
    0 <= i <= |s| - |w| && s[i..i + |w|] == w
  }

  /** String.contains */
  predicate Contains(s: string, w: string) {
    exists i | 0 <= i <= |s| - |w| :: OccursAt(s, w, i)
  }

  /** The substrings whose presence makes a statement invalid. */
  const Banned: seq<string> := [",", "++", "--", "**", "//", ".."]

  /** What isStatementValid accepts; None stands for a null statement. */
  predicate ValidStatement(statement: Option<string>) {
    match statement
    case None => false
    case Some(s) =>
      && |s| > 0
      && !BadFirst(s[0])
      && !BadLast(s[|s| - 1])
      && ParenCount(s) % 2 == 0
      && forall w <- Banned :: !Contains(s, w)
  }

  /** The counting function agrees with the number of parentheses in the multiset of characters. */
  lemma {:induction false} ParenCountIsMultiplicity(s: string)
    ensures ParenCount(s) == multiset(s)['('] + multiset(s)[')']
  {
    if s != [] {
      var init, last := s[..|s| - 1], s[|s| - 1];
      assert s == init + [last];
      ParenCountIsMultiplicity(init);
    }
  }

  /** A pointwise statement of the banned-substring rule: no comma anywhere, and no
      character among + - * / . immediately followed by itself. */
  predicate NoBannedPair(s: string) {
    && (forall i :: 0 <= i < |s| ==> s[i] != ',')
    && (forall i :: 0 <= i < |s| - 1 ==> !(s[i] == s[i + 1] && s[i] in "+-*/."))
  }

  /** The validator rejects exactly: null, empty, a first character among + , * /,
      a last character among + , - * /, an odd number of parentheses, a comma, and a
      doubled + - * / or '.'. A leading '-' is accepted. */
  lemma ValidStatementIff(s: string)
    ensures ValidStatement(Some(s)) <==>
      && |s| > 0
      && s[0] != '+' && s[0] != ',' && s[0] != '*' && s[0] != '/'
      && s[|s| - 1] != '+' && s[|s| - 1] != ',' && s[|s| - 1] != '-'
      && s[|s| - 1] != '*' && s[|s| - 1] != '/'
      && (multiset(s)['('] + multiset(s)[')']) % 2 == 0
      && NoBannedPair(s)
  {
    ParenCountIsMultiplicity(s);
    BannedIff(s);
  }

  lemma BannedIff(s: string)
    ensures (forall w <- Banned :: !Contains(s, w)) <==> NoBannedPair(s)
  {
    if forall w <- Banned :: !Contains(s, w) {
      forall i | 0 <= i < |s|
        ensures s[i] != ','
      {
        assert "," in Banned;
        assert !OccursAt(s, ",", i);
        assert s[i..i + 1] == [s[i]];
      }
      forall i | 0 <= i < |s| - 1
        ensures !(s[i] == s[i + 1] && s[i] in "+-*/.")
      {
        var w := [s[i], s[i]];
        assert s[i] in "+-*/." ==> w in Banned;
        assert s[i] in "+-*/." ==> !OccursAt(s, w, i);
        assert s[i..i + 2] == [s[i], s[i + 1]];
      }
    }
    if NoBannedPair(s) {
      forall w <- Banned
        ensures !Contains(s, w)
      {
        assert w == "," || w == "++" || w == "--" || w == "**" || w == "//" || w == "..";
        forall i | 0 <= i <= |s| - |w|
          ensures !OccursAt(s, w, i)
        {
          assert s[i..i + |w|][0] == s[i];
          if |w| == 2 {
            assert s[i..i + |w|][1] == s[i + 1];
          }
        }
      }
    }
  }

  /** isStatementValid, with its counting loop over the characters. */
  method IsStatementValid(statement: Option<string>) returns (valid: bool)
    ensures valid == ValidStatement(statement)
  {
    if statement.None? || |statement.value| == 0 {
      return false;
    }
    var s := statement.value;
    if BadFirst(s[0]) || BadLast(s[|s| - 1]) {
      return false;
    }
    var numOfParenthesis := 0;
    var i := 0;
    while i < |s|
      invariant 0 <= i <= |s|
      invariant numOfParenthesis == ParenCount(s[..i])
    {
      assert s[..i + 1][..i] == s[..i];
      if s[i] == '(' || s[i] == ')' {
        numOfParenthesis := numOfParenthesis + 1;
      }
      i := i + 1;
    }
    assert s[..|s|] == s;
    if numOfParenthesis % 2 != 0 {
      return false;
    }
    if Contains(s, ",") || Contains(s, "++") || Contains(s, "--")
      || Contains(s, "**") || Contains(s, "//") || Contains(s, "..")
    {
      return false;
    }
    return true;
  }
}

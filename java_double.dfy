/** The Java double values the calculator computes with, as exact reals extended by
    the two infinities and NaN; Double.parseDouble on the literals a statement can
    hold; the (int) cast; and the decimal text of an int. */
module JavaDouble {
  import opened Outcomes

  /** A double: an exact real, positive or negative infinity, or NaN. */
  datatype Float = Finite(r: real) | PosInf | NegInf | NaN

  const MinInt: int := -0x8000_0000
  const MaxInt: int := 0x7fff_ffff

  /** Double.isInfinite */
  predicate IsInfinite(x: Float) {
    x == PosInf || x == NegInf
  }

  /** The infinity of the given sign: positive for s > 0, negative for s < 0. */
  function Infinity(s: int): Float {
    if s > 0 then PosInf else NegInf
  }

  /** -1, 0 or 1 by the sign of a non-NaN value. */
  function Sign(x: Float): int {
    match x
    case Finite(r) => if r > 0.0 then 1 else if r < 0.0 then -1 else 0
    case PosInf => 1
    case NegInf => -1
    case NaN => 0
  }

  function Negate(x: Float): Float {
    match x
    case Finite(r) => Finite(-r)
    case PosInf => NegInf
    case NegInf => PosInf
    case NaN => NaN
  }

  /** b + a */
  function Add(b: Float, a: Float): Float {
    match (b, a)
    case (Finite(x), Finite(y)) => Finite(x + y)
    case (NaN, _) => NaN
    case (_, NaN) => NaN
    case (PosInf, NegInf) => NaN
    case (NegInf, PosInf) => NaN
    case (Finite(_), _) => a
    case (_, _) => b
  }

  /** b - a */
  function Sub(b: Float, a: Float): Float {
    Add(b, Negate(a))
  }

  /** b * a */
  function Mul(b: Float, a: Float): Float {
    match (b, a)
    case (Finite(x), Finite(y)) => Finite(x * y)
    case (NaN, _) => NaN
    case (_, NaN) => NaN
    case (_, _) => if Sign(b) == 0 || Sign(a) == 0 then NaN else Infinity(Sign(b) * Sign(a))
  }

  /** b / a; a zero divisor counts as positive zero. */
  function Div(b: Float, a: Float): Float {
    match (b, a)
    case (NaN, _) => NaN
    case (_, NaN) => NaN
    case (Finite(x), Finite(y)) =>
      if y != 0.0 then Finite(x / y)
      else if x == 0.0 then NaN
      else Infinity(Sign(b))
    case (Finite(_), _) => Finite(0.0)
    case (_, Finite(y)) => if y >= 0.0 then b else Negate(b)
    case (_, _) => NaN
  }

  /** The four operations of rpnToResult, b op a. */
  function Arith(op: char, b: Float, a: Float): Float {
    if op == '+' then Add(b, a)
    else if op == '-' then Sub(b, a)
    else if op == '*' then Mul(b, a)
    else Div(b, a)
  }

  /** On finite operands and a nonzero divisor the operations are those of the reals. */
  lemma ArithFinite(op: char, x: real, y: real)
    requires op in "+-*/" && (op == '/' ==> y != 0.0)
    ensures Arith(op, Finite(x), Finite(y)) == Finite(
      if op == '+' then x + y else if op == '-' then x - y else if op == '*' then x * y else x / y)
  {
  }

  /** Division by zero is never finite: it is NaN for 0/0 and an infinity otherwise. */
  lemma DivByZero(b: Float)
    ensures Div(b, Finite(0.0)) == NaN <==> b == NaN || b == Finite(0.0)
    ensures Div(b, Finite(0.0)) != NaN ==> IsInfinite(Div(b, Finite(0.0)))
  {
  }

  // ---------------------------------------------------------------------------
  // Double.parseDouble on literals made of digits and at most one '.'

  predicate IsDigit(c: char) {
    '0' <= c <= '9'
  }

  predicate AllDigits(s: string) {
    forall k :: 0 <= k < |s| ==> IsDigit(s[k])
  }

  /** The value of a run of decimal digits, most significant first. */
  function DigitsValue(s: string): (n: nat)
    requires AllDigits(s)
  {
    if s == [] then 0
    else DigitsValue(s[..|s| - 1]) * 10 + ((s[|s| - 1] as int) - ('0' as int))
  }

  function Pow10(k: nat): (p: nat)
    ensures p >= 1
  {
    if k == 0 then 1 else 10 * Pow10(k - 1)
  }

  /** Index of the first '.', or |s| when there is none. */
  function DotIndex(s: string): (d: nat)
    ensures d <= |s|
  {
    if s == [] then 0
    else if s[0] == '.' then 0
    else 1 + DotIndex(s[1..])
  }

  /** DotIndex finds the first '.'. */
  lemma {:induction false} DotIndexSpec(s: string)
    ensures forall k :: 0 <= k < DotIndex(s) ==> s[k] != '.'
    ensures DotIndex(s) < |s| ==> s[DotIndex(s)] == '.'
  {
    if s != [] && s[0] != '.' {
      DotIndexSpec(s[1..]);
      assert forall k :: 1 <= k < DotIndex(s) ==> s[k] == s[1..][k - 1];
    }
  }

  /** Only characters up to U+0020. */
  predicate Blank(s: string) {
    forall k :: 0 <= k < |s| ==> s[k] <= ' '
  }

  /** String.trim(), which Double.parseDouble applies first: the characters up to
      U+0020 (the space, the tab, line breaks and the other control characters) are
      dropped from both ends. */
  function Trim(s: string): (t: string)
    ensures |t| <= |s|
    ensures t == [] || (t[0] > ' ' && t[|t| - 1] > ' ')
    ensures t == [] <==> Blank(s)
    decreases |s|
  {
    if s != [] && s[0] <= ' ' then
      assert forall k :: 1 <= k < |s| ==> s[k] == s[1..][k - 1];
      Trim(s[1..])
    else if s != [] && s[|s| - 1] <= ' ' then
      assert forall k :: 0 <= k < |s| - 1 ==> s[k] == s[..|s| - 1][k];
      Trim(s[..|s| - 1])
    else s
  }

  /** trim removes exactly the blanks around a text whose ends are not blank. */
  lemma {:induction false} TrimAround(a: string, w: string, b: string)
    requires Blank(a) && Blank(b)
    requires w == [] || (w[0] > ' ' && w[|w| - 1] > ' ')
    ensures Trim(a + w + b) == w
    decreases |a| + |b|
  {
    if w == [] {
      BlankConcat(a, b);
      assert a + w + b == a + b;
    } else if a != [] {
      var s := a + w + b;
      assert s[0] == a[0] && s[1..] == a[1..] + w + b;
      assert Trim(s) == Trim(s[1..]);
      TrimAround(a[1..], w, b);
    } else if b != [] {
      var s := w + b;
      assert a + w + b == s;
      assert s[0] == w[0] && s[|s| - 1] == b[|b| - 1];
      assert s[..|s| - 1] == [] + w + b[..|b| - 1];
      assert Trim(s) == Trim(s[..|s| - 1]);
      TrimAround([], w, b[..|b| - 1]);
    } else {
      assert a + w + b == w;
    }
  }

  lemma BlankConcat(a: string, b: string)
    requires Blank(a) && Blank(b)
    ensures Blank(a + b)
  {
    forall k | 0 <= k < |a + b| ensures (a + b)[k] <= ' ' {
      if k < |a| { assert (a + b)[k] == a[k]; } else { assert (a + b)[k] == b[k - |a|]; }
    }
  }

  /** Double.parseDouble: the text is trimmed, and then the literals "12", "12.",
      ".5" and "12.5" are read; any other text, "." and "" included, throws
      NumberFormatException (None). */
  function ParseDouble(s: string): (r: Option<Float>)
    ensures r.Some? ==> r.value.Finite? && r.value.r >= 0.0
    ensures Blank(s) ==> r.None?
  {
    ParseDecimal(Trim(s))
  }

  /** Double.parseDouble on a trimmed text. */
  function ParseDecimal(s: string): Option<Float> {
    var d := DotIndex(s);
    if d == |s| then
      if s != [] && AllDigits(s) then Some(Finite(DigitsValue(s) as real)) else None
    else if |s| > 1 && AllDigits(s[..d]) && AllDigits(s[d + 1..]) then
      Some(Finite(DigitsValue(s[..d]) as real
                  + (DigitsValue(s[d + 1..]) as real) / (Pow10(|s| - d - 1) as real)))
    else None
  }

  /** Only digits and '.'. */
  predicate DigitsOrDots(s: string) {
    forall k :: 0 <= k < |s| ==> IsDigit(s[k]) || s[k] == '.'
  }

  /** What parses: blanks around a nonempty string of digits with at most one '.',
      not "." alone. */
  lemma ParseDoubleAccepts(text: string)
    ensures var s := Trim(text);
      ParseDouble(text).Some? <==> |s| > 0 && s != "." && multiset(s)['.'] <= 1 && DigitsOrDots(s)
  {
    var s := Trim(text);
    var d := DotIndex(s);
    DotIndexSpec(s);
    if d < |s| {
      DotSplit(s, d);
      NoDot(s[..d]);
      NoDot(s[d + 1..]);
      assert |s| == 1 ==> s == ".";
    } else {
      NoDot(s);
    }
  }

  /** A run of digits is a text of digits and dots without a dot. */
  lemma NoDot(s: string)
    ensures AllDigits(s) <==> DigitsOrDots(s) && multiset(s)['.'] == 0
  {
    if !AllDigits(s) && DigitsOrDots(s) {
      var k :| 0 <= k < |s| && !IsDigit(s[k]);
      assert s[k] in multiset(s);
    }
  }

  /** Cutting a text at a '.'. */
  lemma DotSplit(s: string, d: nat)
    requires d < |s| && s[d] == '.'
    requires forall k :: 0 <= k < d ==> s[k] != '.'
    ensures multiset(s)['.'] == 1 + multiset(s[d + 1..])['.']
    ensures multiset(s[..d])['.'] == 0
    ensures DigitsOrDots(s) <==> DigitsOrDots(s[..d]) && DigitsOrDots(s[d + 1..])
  {
    assert s == s[..d] + ['.'] + s[d + 1..];
    assert '.' !in s[..d];
    if DigitsOrDots(s[..d]) && DigitsOrDots(s[d + 1..]) {
      forall k | 0 <= k < |s|
        ensures IsDigit(s[k]) || s[k] == '.'
      {
        if k < d {
          assert s[k] == s[..d][k];
        } else if k > d {
          assert s[k] == s[d + 1..][k - d - 1];
        }
      }
    }
  }

  // ---------------------------------------------------------------------------
  // The (int) cast and isResultInt

  /** Rounding toward zero. */
  function Truncate(r: real): int {
    if r >= 0.0 then r.Floor else -((-r).Floor)
  }

  /** The Java narrowing cast (int) x: NaN gives 0, values beyond the int range give
      the nearest bound, and the rest are rounded toward zero. */
  function JavaIntCast(x: Float): (n: int)
    ensures MinInt <= n <= MaxInt
    ensures x.Finite? && x.r >= 0.0 ==> 0 <= n && n as real <= x.r
    ensures x.Finite? && x.r <= 0.0 ==> n <= 0 && x.r <= n as real
    ensures x.Finite? && MinInt as real <= x.r <= MaxInt as real ==> x.r - 1.0 < n as real < x.r + 1.0
    ensures x.NaN? ==> n == 0
    ensures x.PosInf? || (x.Finite? && x.r >= MaxInt as real) ==> n == MaxInt
    ensures x.NegInf? || (x.Finite? && x.r <= MinInt as real) ==> n == MinInt
  {
    match x
    case NaN => 0
    case PosInf => MaxInt
    case NegInf => MinInt
    case Finite(r) =>
      if r >= MaxInt as real then MaxInt
      else if r <= MinInt as real then MinInt
      else Truncate(r)
  }

  /** isResultInt: (int) result == result, the int widened back to double. NaN and the
      infinities equal no int. */
  predicate IsResultInt(x: Float)
    ensures IsResultInt(x) ==> x.Finite? && MinInt as real <= x.r <= MaxInt as real
  {
    x.Finite? && JavaIntCast(x) as real == x.r
  }

  /** isResultInt holds exactly for the finite whole numbers within the int range. */
  lemma IsResultIntIff(x: Float)
    ensures IsResultInt(x) <==> x.Finite? && x.r.Floor as real == x.r && MinInt <= x.r.Floor <= MaxInt
  {
    if x.Finite? {
      var r := x.r;
      if r < 0.0 && r > MinInt as real {
        assert Truncate(r) as real == r ==> r.Floor as real == r;
        assert r.Floor as real == r ==> (-r).Floor == -r.Floor;
      }
    }
  }

  // ---------------------------------------------------------------------------
  // String.valueOf(int)

  function DigitChar(d: nat): (c: char)
    requires d < 10
    ensures IsDigit(c) && (c as int) - ('0' as int) == d
  {
    (('0' as int) + d) as char
  }

  /** Decimal digits of a natural number, without leading zeros. */
  function NatText(n: nat): (s: string)
    ensures |s| > 0 && AllDigits(s)
  {
    if n < 10 then [DigitChar(n)] else NatText(n / 10) + [DigitChar(n % 10)]
  }

  /** String.valueOf(int): a '-' before the digits of a negative number. */
  function IntText(n: int): string {
    if n < 0 then "-" + NatText(-n) else NatText(n)
  }

  lemma {:induction false} NatTextValue(n: nat)
    ensures DigitsValue(NatText(n)) == n
  {
    if n >= 10 {
      NatTextValue(n / 10);
      var s := NatText(n);
      assert s[..|s| - 1] == NatText(n / 10);
    }
  }

  /** The text of a natural number parses back to that number, and holds no '.'. */
  lemma NatTextRoundTrip(n: nat)
    ensures ParseDouble(NatText(n)) == Some(Finite(n as real))
    ensures '.' !in NatText(n)
  {
    NatTextValue(n);
    var s := NatText(n);
    TrimAround([], s, []);
    assert [] + s + [] == s;
    DotIndexSpec(s);
    assert '.' !in s by {
      forall k | 0 <= k < |s| ensures s[k] != '.' {
        assert IsDigit(s[k]);
      }
    }
  }
}

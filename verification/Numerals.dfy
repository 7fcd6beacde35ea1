/** Decimal text of integers, as str() prints it and int() reads it. */
module Numerals {
  import opened Text

  function DigitChar(d: nat): (c: char)
    requires d < 10
    ensures IsDigit(c) && DigitValue(c) == d
  {
    '0' + d as char
  }

  function DigitValue(c: char): (d: nat)
    requires IsDigit(c)
    ensures d < 10
  {
    c as int - '0' as int
  }

  ghost predicate AllDigits(s: string) {
    forall i :: 0 <= i < |s| ==> IsDigit(s[i])
  }

  // str.isdigit() over ASCII: nonempty and all digits.
  predicate IsDigits(s: string)
    ensures IsDigits(s) <==> s != "" && AllDigits(s)
  {
    s != "" && forall i :: 0 <= i < |s| ==> IsDigit(s[i])
  }

  function NatText(n: nat): (s: string)
    ensures s != "" && AllDigits(s)
  {
    if n < 10 then [DigitChar(n)] else NatText(n / 10) + [DigitChar(n % 10)]
  }

  function IntText(z: int): (s: string)
    ensures s != "" && Trimmed(s)
    ensures forall i :: 0 <= i < |s| ==> IsDigit(s[i]) || s[i] == '-'
  {
    if z < 0 then "-" + NatText(-z) else NatText(z)
  }

  // The digit part of a Python integer literal: digits, with single underscores allowed between two digits.
  function ParseNat(s: string): (r: Option<nat>) {
    if s == "" || !IsDigit(s[|s| - 1]) then None
    else
      var d := DigitValue(s[|s| - 1]);
      if |s| == 1 then Some(d)
      else
        var rest := if s[|s| - 2] == '_' then s[..|s| - 2] else s[..|s| - 1];
        match ParseNat(rest)
        case None => None
        case Some(n) => Some(10 * n + d)
  }

  function Negated(r: Option<nat>): Option<int> {
    match r case None => None case Some(n) => Some(-(n as int))
  }

  function ParseSigned(t: string): Option<int> {
    if t == "" then None
    else if t[0] == '-' then Negated(ParseNat(t[1..]))
    else
      match ParseNat(if t[0] == '+' then t[1..] else t)
      case None => None
      case Some(n) => Some(n)
  }

  // int(s): surrounding whitespace and one sign are allowed; None is ValueError.
  function ParseInt(s: string): Option<int> {
    ParseSigned(Strip(s))
  }

  lemma {:induction false} ParseOfNatText(n: nat)
    ensures ParseNat(NatText(n)) == Some(n)
  {
    if n >= 10 {
      var s := NatText(n);
      ParseOfNatText(n / 10);
      assert s[..|s| - 1] == NatText(n / 10);
      assert s[|s| - 2] == NatText(n / 10)[|NatText(n / 10)| - 1];
    }
  }

  function Pow10(n: nat): nat {
    if n == 0 then 1 else 10 * Pow10(n - 1)
  }

  lemma {:induction false} ParseSnoc(s: string, c: char)
    requires s != "" && AllDigits(s) && IsDigit(c)
    ensures ParseNat(s).Some? && ParseNat(s + [c]) == Some(10 * ParseNat(s).value + DigitValue(c))
  {
    AllDigitsParse(s);
    assert (s + [c])[..|s|] == s && (s + [c])[|s| - 1] == s[|s| - 1];
  }

  /** Reading is positional: digits in front count by the power of ten of those behind them. */
  lemma {:induction false} ParsePositional(a: string, b: string)
    requires a != "" && b != "" && AllDigits(a) && AllDigits(b)
    ensures ParseNat(a).Some? && ParseNat(b).Some?
    ensures ParseNat(a + b) == Some(ParseNat(a).value * Pow10(|b|) + ParseNat(b).value)
    decreases |b|
  {
    hide ParseNat, Pow10;
    var front, c := b[..|b| - 1], b[|b| - 1];
    AllDigitsParse(a);
    AllDigitsParse(b);
    assert a + b == a + front + [c] && b == front + [c];
    ParseSnoc(a + front, c);
    if front == "" {
      assert a + front == a && b == [c];
      OneDigit(c);
    } else {
      ParsePositional(a, front);
      ParseSnoc(front, c);
      NextPower(ParseNat(a).value, |front|);
    }
  }

  lemma {:induction false} NextPower(n: nat, k: nat)
    ensures n * Pow10(k + 1) == 10 * (n * Pow10(k))
  {
  }

  lemma {:induction false} OneDigit(c: char)
    requires IsDigit(c)
    ensures ParseNat([c]) == Some(DigitValue(c)) && Pow10(1) == 10
  {
    assert Pow10(0) == 1;
  }

  /** Printing leaves no leading zero. */
  lemma {:induction false} NoLeadingZero(n: nat)
    ensures NatText(n)[0] == '0' <==> n == 0
  {
    if n >= 10 {
      NoLeadingZero(n / 10);
    }
  }

  /** int(str(z)) == z. */
  lemma {:induction false} ParseIntText(z: int)
    ensures ParseInt(IntText(z)) == Some(z)
  {
    ParseSignedText(z);
    StripOfTrimmed(IntText(z));
  }

  lemma {:induction false} ParseSignedText(z: int)
    ensures ParseSigned(IntText(z)) == Some(z)
  {
    var digits := NatText(if z < 0 then -z else z);
    ParseOfNatText(if z < 0 then -z else z);
    if z < 0 {
      assert IntText(z)[1..] == digits;
    }
  }

  lemma {:induction false} AllDigitsParse(s: string)
    requires s != "" && AllDigits(s)
    ensures ParseNat(s).Some?
  {
    if |s| > 1 {
      AllDigitsParse(s[..|s| - 1]);
    }
  }

  lemma {:induction false} NatTextInjective(m: nat, n: nat)
    requires NatText(m) == NatText(n)
    ensures m == n
  {
    ParseOfNatText(m);
    ParseOfNatText(n);
  }
}

/** What the normalisers keep of each value, and which parameter sets they accept, said of the input alone. */
module ObfuscationValues {
  import opened Text
  import opened Numerals
  import opened Obfuscation
  import opened ObfuscationProofs
  import opened ObfuscationNormalForm

  // ---- texts of numbers ----

  function Zeros(z: nat): string {
    seq(z, _ => '0')
  }

  // A number's digits, perhaps behind zeros.
  ghost predicate DigitsOf(s: string, n: nat) {
    exists z: nat :: s == Zeros(z) + NatText(n)
  }

  lemma {:induction false} ZerosSnoc(z: nat)
    requires z > 0
    ensures Zeros(z) == Zeros(z - 1) + "0"
  {
  }

  lemma {:induction false} ZeroDigits(z: nat)
    ensures Zeros(z) == "" || ParseNat(Zeros(z)) == Some(0)
  {
    if z > 0 {
      ZerosSnoc(z);
      ZeroDigits(z - 1);
      assert Zeros(z)[..z - 1] == Zeros(z - 1);
    }
  }

  // Leading zeros do not change what int() reads.
  lemma {:induction false} DigitsRead(s: string, n: nat)
    requires DigitsOf(s, n)
    ensures IsDigits(s) && ParseNat(s) == Some(n)
  {
    var z: nat :| s == Zeros(z) + NatText(n);
    PaddedReads(z, n);
  }

  lemma {:induction false} PaddedReads(z: nat, n: nat)
    ensures ParseNat(Zeros(z) + NatText(n)) == Some(n)
  {
    var s := Zeros(z) + NatText(n);
    if n < 10 {
      assert s == Zeros(z) + [DigitChar(n)] && s[..|s| - 1] == Zeros(z);
      ZeroDigits(z);
    } else {
      PaddedReads(z, n / 10);
      assert s[..|s| - 1] == Zeros(z) + NatText(n / 10);
      assert s[|s| - 2] == NatText(n / 10)[|NatText(n / 10)| - 1];
    }
  }

  lemma {:induction false} OneMoreDigit(s: string, m: nat, d: nat)
    requires DigitsOf(s, m) && d < 10
    ensures DigitsOf(s + [DigitChar(d)], 10 * m + d)
  {
    var z: nat :| s == Zeros(z) + NatText(m);
    NatTextStep(m, d);
    if m == 0 {
      ZerosSnoc(z + 1);
      assert s + [DigitChar(d)] == Zeros(z + 1) + NatText(d);
    } else {
      assert s + [DigitChar(d)] == Zeros(z) + NatText(10 * m + d);
    }
  }

  lemma {:induction false} NatTextStep(m: nat, d: nat)
    requires d < 10
    ensures NatText(d) == [DigitChar(d)] && NatText(0) == "0"
    ensures m > 0 ==> NatText(10 * m + d) == NatText(m) + [DigitChar(d)]
  {
    assert (10 * m + d) / 10 == m && (10 * m + d) % 10 == d;
  }

  lemma {:induction false} ParseStep(s: string)
    requires |s| > 1 && IsDigits(s)
    ensures var front := s[..|s| - 1];
            IsDigits(front) && ParseNat(s) ==
              match ParseNat(front) case None => None case Some(m) => Some(10 * m + DigitValue(s[|s| - 1]))
  {
    assert IsDigit(s[|s| - 2]);
  }

  lemma {:induction false} DigitsAreOf(s: string)
    requires IsDigits(s)
    ensures ParseNat(s).Some? && DigitsOf(s, ParseNat(s).value)
  {
    hide NatText, DigitsOf;
    var n := |s| - 1;
    var d := DigitValue(s[n]);
    assert s == s[..n] + [DigitChar(d)];
    if n == 0 {
      SingleDigit(d);
      assert s == [DigitChar(d)];
    } else {
      hide ParseNat;
      ParseStep(s);
      DigitsAreOf(s[..n]);
      OneMoreDigit(s[..n], ParseNat(s[..n]).value, d);
    }
  }

  lemma {:induction false} SingleDigit(d: nat)
    requires d < 10
    ensures DigitsOf([DigitChar(d)], d)
  {
    assert [DigitChar(d)] == Zeros(0) + NatText(d);
  }

  // ---- what a value says ----

  // An integer: itself, what a float truncates to, or a text of it with blanks around and perhaps zeros in front.
  ghost predicate SaysInt(v: Value, n: int) {
    match v
    case Int(m) => n == m
    case Float(m) => n == m
    case Str(s) => exists a, d, b :: Blank(a) && Blank(b) && SignedDigits(d, n) && s == a + d + b
    case _ => false
  }

  ghost predicate SignedDigits(d: string, n: int) {
    (n >= 0 && DigitsOf(d, n)) || (n <= 0 && d != "" && d[0] == '-' && DigitsOf(d[1..], -n))
  }

  // The text of two bounds with a dash between them and blanks anywhere around them.
  ghost predicate SaysBounds(v: Value, lo: nat, hi: nat) {
    v.Str? && exists l, r :: BoundsIn(v.s, l, r, lo, hi)
  }

  ghost predicate BoundsIn(s: string, l: string, r: string, lo: nat, hi: nat) {
    s == l + "-" + r && '-' !in l && DigitsOf(Strip(l), lo) && DigitsOf(Strip(r), hi)
  }

  lemma {:induction false} SignedReads(d: string, n: int)
    requires SignedDigits(d, n)
    ensures Trimmed(d) && d != "" && IsDigits(DropDashes(d)) && ParseSigned(d) == Some(n)
    ensures n > 0 ==> '-' !in d
  {
    hide ParseNat, NatText;
    if n >= 0 && DigitsOf(d, n) {
      DigitsRead(d, n);
      assert IsDigit(d[0]) && IsDigit(d[|d| - 1]);
      assert DropDashes(d) == d;
    } else {
      DigitsRead(d[1..], -n);
      assert IsDigit(d[1]) && IsDigit(d[1..][|d| - 2]);
      assert DropDashes(d[1..]) == d[1..];
    }
  }

  lemma {:induction false} SignedIs(d: string)
    requires IsDigits(DropDashes(d)) && ParseSigned(d).Some?
    ensures SignedDigits(d, ParseSigned(d).value)
  {
    hide NatText;
    if d[0] == '-' {
      ParseNatNoDash(d[1..]);
      assert DropDashes(d) == DropDashes(d[1..]) == d[1..];
      DigitsAreOf(d[1..]);
    } else {
      assert DropDashes(d) == d;
      DigitsAreOf(d);
    }
  }

  lemma {:induction false} ParseNatNoDash(s: string)
    requires ParseNat(s).Some?
    ensures s != "" && s[0] != '-'
  {
    var n := |s|;
    if n > 1 {
      if s[n - 2] == '_' {
        ParseNatNoDash(s[..n - 2]);
      } else {
        ParseNatNoDash(s[..n - 1]);
      }
    }
  }

  /** A number key reads exactly the integers its value says. */
  lemma {:induction false} ReadIntExactly(v: Value, n: int)
    ensures ReadInt(v) == Some(n) <==> SaysInt(v, n)
  {
    hide Strip, ParseSigned, SignedDigits, DropDashes;
    if v.Str? {
      StripTwice(v.s);
      if SaysInt(v, n) {
        var a, d, b :| Blank(a) && Blank(b) && SignedDigits(d, n) && v.s == a + d + b;
        SignedReads(d, n);
        StripUnique(a, d, b);
      }
      if ReadInt(v) == Some(n) {
        var a, b := StripParts(v.s);
        SignedIs(Strip(v.s));
        assert SignedDigits(Strip(v.s), n);
      }
    }
  }

  lemma {:induction false} StripTwice(s: string)
    ensures Strip(Strip(s)) == Strip(s)
  {
    StripTrims(s);
    StripOfTrimmed(Strip(s));
  }

  lemma {:induction false} NotAllDigits(t: string, i: nat)
    requires i < |t| && IsDigit(t[0]) && !IsDigit(t[i])
    ensures !IsDigits(DropDashes(t))
  {
    assert DropDashes(t) == t;
  }

  // The stripped text of two bounds: the stripped texts on both sides of the first dash.
  lemma {:induction false} BoundsRead(s: string, l: string, r: string, lo: nat, hi: nat)
    requires BoundsIn(s, l, r, lo, hi)
    ensures var t := Strip(s);
            && !IsDigits(DropDashes(t)) && '-' in t
            && var i := IndexOf(t, '-'); Strip(t[..i]) == Strip(l) && Strip(t[i + 1..]) == Strip(r)
  {
    hide Strip, IndexOf, ParseNat, DigitsOf, DropDashes;
    DigitsRead(Strip(l), lo);
    DigitsRead(Strip(r), hi);
    var a, b := StripParts(l);
    var c, d := StripParts(r);
    var m, n := Strip(l), Strip(r);
    assert IsDigit(m[0]) && IsDigit(n[|n| - 1]);
    var t := m + b + "-" + (c + n);
    assert s == a + t + d;
    assert t[0] == m[0] && t[|t| - 1] == n[|n| - 1];
    StripUnique(a, t, d);
    var i := |m + b|;
    assert t[i] == '-' && t[..i] == m + b && t[i + 1..] == c + n;
    assert forall j :: 0 <= j < i ==> t[j] in l;
    IndexOfIs(t, '-', i);
    StripTrims(l);
    StripTrims(r);
    StripUnique("", m, b);
    StripUnique(c, n, "");
    assert "" + m + b == m + b && c + n + "" == c + n;
    NotAllDigits(t, i);
  }

  lemma {:induction false} BoundsFound(s: string)
    requires var t := Strip(s);
             '-' in t && var i := IndexOf(t, '-'); IsDigits(Strip(t[..i])) && IsDigits(Strip(t[i + 1..]))
    ensures var t := Strip(s); var i := IndexOf(t, '-');
            && ParseNat(Strip(t[..i])).Some? && ParseNat(Strip(t[i + 1..])).Some?
            && SaysBounds(Str(s), ParseNat(Strip(t[..i])).value, ParseNat(Strip(t[i + 1..])).value)
  {
    hide Strip, IndexOf, ParseNat, DigitsOf;
    var a, b := StripParts(s);
    var t := Strip(s);
    var i := IndexOf(t, '-');
    var l, r := a + t[..i], t[i + 1..] + b;
    assert s == l + "-" + r;
    assert '-' !in a;
    SameStripped(a, t[..i]);
    SameStrippedRight(t[i + 1..], b);
    DigitsAreOf(Strip(t[..i]));
    DigitsAreOf(Strip(t[i + 1..]));
    assert BoundsIn(s, l, r, ParseNat(Strip(t[..i])).value, ParseNat(Strip(t[i + 1..])).value);
  }

  lemma {:induction false} SameStripped(a: string, s: string)
    requires Blank(a)
    ensures Strip(a + s) == Strip(s)
  {
    hide Strip;
    var c, d := StripParts(s);
    StripTrims(s);
    StripUnique(a + c, Strip(s), d);
    assert a + s == (a + c) + Strip(s) + d;
  }

  lemma {:induction false} SameStrippedRight(s: string, b: string)
    requires Blank(b)
    ensures Strip(s + b) == Strip(s)
  {
    hide Strip;
    var c, d := StripParts(s);
    StripTrims(s);
    StripUnique(c, Strip(s), d + b);
    assert s + b == c + Strip(s) + (d + b);
  }

  // What a readable H value becomes.
  ghost predicate ReadsAs(v: Value, r: Range) {
    || (!v.Float? && SaysInt(v, r.lo) && r.hi == r.lo && r.rendered == IntText(r.lo))
    || (r.lo >= 0 && r.hi >= 0 && SaysBounds(v, r.lo, r.hi) && r.rendered == NatText(r.lo) + "-" + NatText(r.hi))
  }

  /** An H key reads exactly the ranges its value says. */
  lemma {:induction false} ReadRangeExactly(v: Value, r: Range)
    ensures ReadRange(v) == Some(r) <==> ReadsAs(v, r)
  {
    hide Strip, ParseSigned, SignedDigits, DropDashes, NatText, IntText, ParseNat, IndexOf, DigitsOf, BoundsIn;
    if v.Str? {
      StripTwice(v.s);
      if ReadsAs(v, r) {
        ReadsAsIsRead(v, r);
      }
      if ReadRange(v) == Some(r) {
        ReadIsReadsAs(v, r);
      }
    }
  }

  lemma {:induction false} ReadsAsIsRead(v: Value, r: Range)
    requires v.Str? && ReadsAs(v, r)
    ensures ReadRange(v) == Some(r)
  {
    hide Strip, ParseSigned, SignedDigits, DropDashes, NatText, IntText, ParseNat, IndexOf, DigitsOf;
    StripTwice(v.s);
    if SaysInt(v, r.lo) && r.hi == r.lo && r.rendered == IntText(r.lo) {
      var a, d, b :| Blank(a) && Blank(b) && SignedDigits(d, r.lo) && v.s == a + d + b;
      SignedReads(d, r.lo);
      StripUnique(a, d, b);
    } else {
      var l, m :| BoundsIn(v.s, l, m, r.lo, r.hi);
      BoundsRead(v.s, l, m, r.lo, r.hi);
      DigitsRead(Strip(l), r.lo);
      DigitsRead(Strip(m), r.hi);
    }
  }

  lemma {:induction false} ReadIsReadsAs(v: Value, r: Range)
    requires v.Str? && ReadRange(v) == Some(r)
    ensures ReadsAs(v, r)
  {
    hide Strip, ParseSigned, SignedDigits, DropDashes, NatText, IntText, ParseNat, IndexOf, DigitsOf, BoundsIn;
    StripTwice(v.s);
    var t := Strip(v.s);
    if IsDigits(DropDashes(t)) {
      var a, b := StripParts(v.s);
      SignedIs(t);
      assert SignedDigits(t, r.lo);
    } else {
      BoundsFound(v.s);
    }
  }
}

/** The Python string operations the modelled code is written with: stripping, splitting and joining. */
module Text {

  datatype Option<+T> = None | Some(value: T)

  datatype Result<+T, +E> = Ok(value: T) | Err(error: E)

  // The characters for which Python's str.isspace holds; strip() and the regex class \s use the same set.
  predicate IsSpace(c: char) {
    var n := c as int;
    || 9 <= n <= 13 || 28 <= n <= 32 || n == 0x85 || n == 0xA0 || n == 0x1680
    || 0x2000 <= n <= 0x200A || n == 0x2028 || n == 0x2029 || n == 0x202F || n == 0x205F || n == 0x3000
  }

  predicate IsDigit(c: char) {
    '0' <= c <= '9'
  }

  ghost predicate Blank(s: string) {
    forall i :: 0 <= i < |s| ==> IsSpace(s[i])
  }

  // No whitespace at either end.
  ghost predicate Trimmed(s: string) {
    s == "" || (!IsSpace(s[0]) && !IsSpace(s[|s| - 1]))
  }

  function LStrip(s: string): (r: string)
    ensures |r| <= |s| && (r == "" || !IsSpace(r[0]))
  {
    if s != "" && IsSpace(s[0]) then LStrip(s[1..]) else s
  }

  function RStrip(s: string): (r: string)
    ensures |r| <= |s| && (r == "" || !IsSpace(r[|r| - 1]))
  {
    if s != "" && IsSpace(s[|s| - 1]) then RStrip(s[..|s| - 1]) else s
  }

  function Strip(s: string): (r: string)
    ensures |r| <= |s|
  {
    RStrip(LStrip(s))
  }

  lemma {:induction false} LStripPart(s: string) returns (a: string)
    ensures Blank(a) && s == a + LStrip(s)
  {
    if s != "" && IsSpace(s[0]) {
      var rest := LStripPart(s[1..]);
      a := [s[0]] + rest;
      assert s == [s[0]] + s[1..];
    } else {
      a := "";
    }
  }

  lemma {:induction false} RStripPart(s: string) returns (b: string)
    ensures Blank(b) && s == RStrip(s) + b
  {
    if s != "" && IsSpace(s[|s| - 1]) {
      var rest := RStripPart(s[..|s| - 1]);
      b := rest + [s[|s| - 1]];
      assert s == s[..|s| - 1] + [s[|s| - 1]];
    } else {
      b := "";
    }
  }

  // The blank text that strip() removes at the two ends.
  lemma {:induction false} StripParts(s: string) returns (a: string, b: string)
    ensures Blank(a) && Blank(b) && s == a + Strip(s) + b
  {
    a := LStripPart(s);
    b := RStripPart(LStrip(s));
    assert a + (Strip(s) + b) == a + Strip(s) + b;
  }

  lemma {:induction false} StripTrims(s: string)
    ensures Trimmed(Strip(s))
  {
    var left := LStrip(s);
    var b := RStripPart(left);
    if Strip(s) != "" {
      assert left[0] == Strip(s)[0];
    }
  }

  lemma {:induction false} LStripUnique(a: string, m: string)
    requires Blank(a) && (m == "" || !IsSpace(m[0]))
    ensures LStrip(a + m) == m
  {
    if a != "" {
      assert (a + m)[1..] == a[1..] + m;
      LStripUnique(a[1..], m);
    } else {
      assert a + m == m;
    }
  }

  lemma {:induction false} RStripUnique(m: string, b: string)
    requires Blank(b) && (m == "" || !IsSpace(m[|m| - 1]))
    ensures RStrip(m + b) == m
  {
    if b != "" {
      assert (m + b)[..|m + b| - 1] == m + b[..|b| - 1];
      RStripUnique(m, b[..|b| - 1]);
    } else {
      assert m + b == m;
    }
  }

  /** The trimmed text between two blank ends is what strip() returns, however the ends are chosen. */
  lemma {:induction false} StripUnique(a: string, m: string, b: string)
    requires Blank(a) && Blank(b) && Trimmed(m)
    ensures Strip(a + m + b) == m
  {
    assert a + m + b == a + (m + b);
    if m == "" {
      LStripUnique(a + b, "");
      assert a + m + b == (a + b) + "";
    } else {
      LStripUnique(a, m + b);
      RStripUnique(m, b);
    }
  }

  lemma {:induction false} StripOfTrimmed(m: string)
    requires Trimmed(m)
    ensures Strip(m) == m
  {
    assert m == "" || LStrip(m) == m;
  }

  lemma {:induction false} StripEmptyIsBlank(s: string)
    ensures Strip(s) == "" <==> Blank(s)
  {
    var a, b := StripParts(s);
    if Blank(s) {
      StripUnique(s, "", "");
      assert s + "" + "" == s;
    } else {
      var i :| 0 <= i < |s| && !IsSpace(s[i]);
      assert |a| <= i < |a| + |Strip(s)|;
    }
  }

  function Join(parts: seq<string>, d: char): string {
    if |parts| == 0 then ""
    else if |parts| == 1 then parts[0]
    else parts[0] + [d] + Join(parts[1..], d)
  }

  // Python's s.split(d) for a one-character separator.
  function Split(s: string, d: char): (parts: seq<string>)
    ensures |parts| >= 1
  {
    if s == "" then [""]
    else
      var rest := Split(s[1..], d);
      if s[0] == d then [""] + rest else [[s[0]] + rest[0]] + rest[1..]
  }

  /** Joining undoes splitting, and no part holds the separator. */
  lemma {:induction false} JoinOfSplit(s: string, d: char)
    ensures Join(Split(s, d), d) == s
    ensures forall p :: p in Split(s, d) ==> d !in p
  {
    if s != "" {
      JoinOfSplit(s[1..], d);
      var rest, parts := Split(s[1..], d), Split(s, d);
      if s[0] == d {
        assert parts[1..] == rest;
      } else {
        assert parts[1..] == rest[1..];
      }
    }
  }

  lemma {:induction false} SplitNoDelimiter(s: string, d: char)
    requires d !in s
    ensures Split(s, d) == [s]
  {
    if s != "" {
      SplitNoDelimiter(s[1..], d);
      assert [s[0]] + s[1..] == s && d !in s[1..];
    }
  }

  lemma {:induction false} SplitAtFirst(p: string, rest: string, d: char)
    requires d !in p
    ensures Split(p + [d] + rest, d) == [p] + Split(rest, d)
  {
    var s := p + [d] + rest;
    if p == "" {
      assert s[1..] == rest;
    } else {
      assert s[1..] == p[1..] + [d] + rest;
      SplitAtFirst(p[1..], rest, d);
      assert [s[0]] + p[1..] == p;
    }
  }

  /** Splitting undoes joining whenever no part holds the separator. */
  lemma {:induction false} SplitOfJoin(parts: seq<string>, d: char)
    requires |parts| >= 1 && forall p :: p in parts ==> d !in p
    ensures Split(Join(parts, d), d) == parts
  {
    if |parts| == 1 {
      SplitNoDelimiter(parts[0], d);
    } else {
      SplitAtFirst(parts[0], Join(parts[1..], d), d);
      SplitOfJoin(parts[1..], d);
    }
  }

  predicate StartsWith(s: string, prefix: string) {
    |prefix| <= |s| && s[..|prefix|] == prefix
  }

  // Position of the first occurrence of c, or |s| when there is none.
  function IndexOf(s: string, c: char): (i: nat)
    ensures i <= |s| && c !in s[..i]
    ensures i < |s| ==> s[i] == c
    ensures i == |s| <==> c !in s
  {
    if s == "" then 0
    else if s[0] == c then 0
    else
      var i := 1 + IndexOf(s[1..], c);
      assert s[..i] == [s[0]] + s[1..][..i - 1];
      i
  }

  lemma {:induction false} IndexOfIs(s: string, c: char, i: nat)
    requires i < |s| && s[i] == c && c !in s[..i]
    ensures IndexOf(s, c) == i
  {
    if i > 0 {
      assert s[0] == s[..i][0] && s[1..][..i - 1] == s[..i][1..];
      IndexOfIs(s[1..], c, i - 1);
    }
  }

  // Position of the last occurrence of c, or None.
  function LastIndexOf(s: string, c: char): (r: Option<nat>)
    ensures r.None? <==> c !in s
    ensures r.Some? ==> r.value < |s| && s[r.value] == c && c !in s[r.value + 1..]
  {
    if s == "" then None
    else if s[|s| - 1] == c then Some(|s| - 1)
    else
      var init := s[..|s| - 1];
      assert s == init + [s[|s| - 1]];
      var r := LastIndexOf(init, c);
      assert r.Some? ==> s[r.value + 1..] == init[r.value + 1..] + [s[|s| - 1]];
      r
  }
}

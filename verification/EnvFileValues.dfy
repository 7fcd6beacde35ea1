/** What an env file says of the managed settings, and when a call finds nothing to do. */
module EnvFileValues {
  import opened Text
  import opened Numerals
  import opened OrderedDict
  import opened EnvFile

  lemma {:induction false} StripAgain(s: string)
    ensures Strip(Strip(s)) == Strip(s)
  {
    hide Strip;
    StripTrims(s);
    StripOfTrimmed(Strip(s));
  }

  // A comment, or nothing.
  predicate IsTail(tail: string) {
    tail == "" || tail[0] == '#'
  }

  lemma {:induction false} FirstHash(m: string, b: string, t: string)
    requires '#' !in m && '#' !in b && t != "" && t[0] == '#'
    ensures (m + b + t)[..IndexOf(m + b + t, '#')] == m + b
  {
    hide IndexOf;
    var s := m + b + t;
    assert s[..|m + b|] == m + b && s[|m + b|] == '#';
    IndexOfIs(s, '#', |m + b|);
  }

  // Stripping, cutting at the comment and stripping again leaves the stripped text before the comment.
  lemma {:induction false} BeforeComment(y: string, tail: string)
    requires '#' !in y && IsTail(tail)
    ensures var value := Strip(y + tail); Strip(value[..IndexOf(value, '#')]) == Strip(y)
  {
    hide Strip, IndexOf;
    var a, b := StripParts(y);
    var m := Strip(y);
    StripTrims(y);
    StripAgain(y);
    if tail == "" {
      assert y + tail == y;
      assert '#' !in m;
      assert m[..|m|] == m;
    } else {
      var c := RStripPart(tail);
      var t := RStrip(tail);
      assert t != "" && t[0] == '#' by {
        if t == "" {
          assert tail == c;
        }
        assert tail[0] == '#' && !IsSpace('#');
      }
      CutAtComment(y, a, m, b, t, c);
      assert y + tail == a + m + b + t + c;
    }
  }

  lemma {:induction false} CutAtComment(y: string, a: string, m: string, b: string, t: string, c: string)
    requires y == a + m + b && Blank(a) && Blank(b) && Blank(c) && Trimmed(m) && '#' !in y
    requires t != "" && t[0] == '#' && !IsSpace(t[|t| - 1]) && Strip(y) == m
    ensures var value := Strip(a + m + b + t + c); Strip(value[..IndexOf(value, '#')]) == m
  {
    hide Strip, IndexOf;
    if m == "" {
      assert Blank(a + b) && a + m + b + t + c == (a + b) + t + c;
      StripUnique(a + b, t, c);
      assert "" + "" + t == t;
      FirstHash("", "", t);
      StripUnique("", "", "");
    } else {
      assert a + m + b + t + c == a + (m + b + t) + c;
      StripUnique(a, m + b + t, c);
      FirstHash(m, b, t);
      StripUnique("", m, b);
      assert "" + m + b == m + b;
    }
  }

  /** A setting reads as the integer before any comment, and as nothing when that is no integer. */
  lemma {:induction false} ReadsBeforeComment(k: string, y: string, tail: string)
    requires '=' !in k && '#' !in y && IsTail(tail)
    ensures ReadValue(k + "=" + y + tail) == ParseInt(y)
  {
    hide Strip, IndexOf;
    var line := k + "=" + y + tail;
    assert line[..|k|] == k && line[|k|] == '=';
    IndexOfIs(line, '=', |k|);
    assert line[|k| + 1..] == y + tail;
    BeforeComment(y, tail);
    StripAgain(y);
  }

  /** So a printed number between blanks, with or without a comment behind it, reads as that number. */
  lemma {:induction false} NumberReads(k: string, a: string, v: int, b: string, tail: string)
    requires '=' !in k && Blank(a) && Blank(b) && IsTail(tail)
    ensures ReadValue(k + "=" + a + IntText(v) + b + tail) == Some(v)
  {
    hide Strip, IndexOf, ReadValue, IntText;
    var y := a + IntText(v) + b;
    assert forall i :: 0 <= i < |IntText(v)| ==> IntText(v)[i] != '#';
    assert '#' !in y;
    assert k + "=" + a + IntText(v) + b + tail == k + "=" + y + tail;
    ReadsBeforeComment(k, y, tail);
    StripUnique(a, IntText(v), b);
    ParseIntText(v);
    StripOfTrimmed(IntText(v));
  }

  // ---- the file ----

  // A line that sets k, to something or other.
  ghost predicate Names(line: string, k: string) {
    exists y, tail :: NamesAs(line, k, y, tail)
  }

  ghost predicate NamesAs(line: string, k: string, y: string, tail: string) {
    '#' !in y && IsTail(tail) && line == k + "=" + y + tail
  }

  // A line that sets k to v.
  ghost predicate Sets(line: string, k: string, v: int) {
    exists y, tail :: NamesAs(line, k, y, tail) && ParseInt(y) == Some(v)
  }

  lemma {:induction false} NamesExactly(line: string, k: string, want: Want)
    requires k in want
    ensures Names(line, k) <==> KeyOfLine(line, want) == Some(k)
    ensures forall v :: Sets(line, k, v) <==> (Names(line, k) && ReadValue(line) == Some(v))
  {
    hide ReadValue, IndexOf, ParseInt, KeyOfLine;
    assert '=' !in k;
    forall y, tail | NamesAs(line, k, y, tail)
      ensures KeyOfLine(line, want) == Some(k) && ReadValue(line) == ParseInt(y)
    {
      assert line[..|k| + 1] == k + "=";
      PrefixIsKey(line, k, want);
      ReadsBeforeComment(k, y, tail);
    }
    if KeyOfLine(line, want) == Some(k) {
      KeyIsPrefix(line, want);
      var x := line[|k| + 1..];
      var i := IndexOf(x, '#');
      assert line == k + "=" + x[..i] + x[i..];
      assert NamesAs(line, k, x[..i], x[i..]);
    }
  }

  ghost predicate LastValue(lines: seq<string>, k: string, v: int) {
    exists i :: LastSets(lines, k, v, i)
  }

  // The i-th line sets k to v, and no later line sets it to anything readable.
  ghost predicate LastSets(lines: seq<string>, k: string, v: int, i: int) {
    0 <= i < |lines| && Sets(lines[i], k, v) && forall j, w :: i < j < |lines| ==> !Sets(lines[j], k, w)
  }

  /** The file's value of a setting is the one of its last readable line. */
  lemma {:induction false} CurrentExactly(lines: seq<string>, want: Want, k: string)
    requires k in want
    ensures forall v :: LastValue(lines, k, v) <==> (k in Current(lines, want) && Current(lines, want)[k] == v)
  {
    hide KeyOfLine, ReadValue, Sets, Names, LastValue;
    if lines == [] {
      assert forall v :: !LastValue(lines, k, v) by { NoValue(k); }
    } else {
      var n := |lines| - 1;
      CurrentExactly(lines[..n], want, k);
      NamesExactly(lines[n], k, want);
      assert forall j :: 0 <= j < n ==> lines[..n][j] == lines[j];
      forall v
        ensures LastValue(lines, k, v) <==>
                  (Sets(lines[n], k, v) || ((forall w :: !Sets(lines[n], k, w)) && LastValue(lines[..n], k, v)))
      {
        LastSetsSnoc(lines, k, v);
      }
      OneReading(lines[n], k, want);
    }
  }

  lemma {:induction false} OneReading(line: string, k: string, want: Want)
    requires k in want
    ensures KeyOfLine(line, want) == Some(k) && ReadValue(line).Some? ==> Sets(line, k, ReadValue(line).value)
    ensures KeyOfLine(line, want) != Some(k) || ReadValue(line).None? ==> forall w :: !Sets(line, k, w)
  {
    hide KeyOfLine, ReadValue, Sets, Names;
    NamesExactly(line, k, want);
  }

  lemma {:induction false} NoValue(k: string)
    ensures forall v :: !LastValue([], k, v)
  {
  }

  lemma {:induction false} LastSetsSnoc(lines: seq<string>, k: string, v: int)
    requires lines != []
    ensures var n := |lines| - 1;
            LastValue(lines, k, v) <==>
              (Sets(lines[n], k, v) || ((forall w :: !Sets(lines[n], k, w)) && LastValue(lines[..n], k, v)))
  {
    hide Sets;
    var n := |lines| - 1;
    assert forall j :: 0 <= j < n ==> lines[..n][j] == lines[j];
    if Sets(lines[n], k, v) {
      assert LastSets(lines, k, v, n);
    }
    if LastValue(lines, k, v) {
      var i :| LastSets(lines, k, v, i);
      if i < n {
        assert LastSets(lines[..n], k, v, i);
      }
    }
    if (forall w :: !Sets(lines[n], k, w)) && LastValue(lines[..n], k, v) {
      var i :| LastSets(lines[..n], k, v, i);
      assert LastSets(lines, k, v, i);
    }
  }

  lemma {:induction false} OnlyManaged(lines: seq<string>, want: Want)
    ensures Current(lines, want).Keys <= want.Keys
  {
    hide KeyOfLine, ReadValue;
    if lines != [] {
      OnlyManaged(lines[..|lines| - 1], want);
    }
  }

  /** A call returns early exactly when every wanted setting's last readable line sets the wanted value. */
  lemma {:induction false} ReturnsEarlyExactlyWhen(lines: seq<string>, want: Want)
    ensures Current(lines, want) == want <==> forall k :: k in want ==> LastValue(lines, k, want[k])
  {
    hide Current, LastValue;
    OnlyManaged(lines, want);
    forall k | k in want
      ensures LastValue(lines, k, want[k]) <==> (k in Current(lines, want) && Current(lines, want)[k] == want[k])
    {
      CurrentExactly(lines, want, k);
    }
  }

  // ---- the written lines ----

  // What the rewrite makes of one line.
  ghost predicate Becomes(line: string, out: string, want: Want) {
    && (forall k :: k in want && Names(line, k) ==> out == k + "=" + IntText(want[k]) + "\n")
    && ((forall k :: k in want ==> !Names(line, k)) ==> out == line)
  }

  // A wanted setting that no line names.
  ghost predicate Unnamed(lines: seq<string>, want: Want, k: string) {
    k in want && forall i :: 0 <= i < |lines| ==> !Names(lines[i], k)
  }

  lemma {:induction false} LineBecomes(line: string, want: Want)
    ensures Becomes(line, match KeyOfLine(line, want) case Some(k) => EnvLine(k, want[k]) case None => line, want)
  {
    hide KeyOfLine, Names, IntText;
    forall k | k in want ensures Names(line, k) <==> KeyOfLine(line, want) == Some(k) {
      NamesExactly(line, k, want);
    }
  }

  /** The rewrite sets every line that names a wanted setting to `KEY=value`, keeps the others, and appends exactly the
      settings that no line names, each once. */
  lemma {:induction false} RewrittenExactly(lines: seq<string>, want: Want, order: seq<string>)
    requires IsOrder(order, lines, want)
    ensures Distinct(order) && forall k :: k in order <==> Unnamed(lines, want, k)
    ensures var out := Rewritten(lines, want, order);
            && |out| == |lines| + |order|
            && (forall i :: 0 <= i < |lines| ==> Becomes(lines[i], out[i], want))
            && out[|lines|..] == Added(order, want)
  {
    hide KeyOfLine, Names, Becomes, IntText;
    forall i | 0 <= i < |lines|
      ensures Becomes(lines[i], Rewritten(lines, want, order)[i], want)
    {
      LineBecomes(lines[i], want);
    }
    forall k ensures Unnamed(lines, want, k) <==> IsMissing(lines, k, want) {
      forall i | 0 <= i < |lines| && k in want ensures Names(lines[i], k) <==> KeyOfLine(lines[i], want) == Some(k) {
        NamesExactly(lines[i], k, want);
      }
    }
    assert Rewritten(lines, want, order)[|lines|..] == Added(order, want);
  }

  // One line for each setting, in order.
  function Added(order: seq<string>, want: Want): (lines: seq<string>)
    requires forall k :: k in order ==> k in want
    ensures |lines| == |order|
    ensures forall i :: 0 <= i < |order| ==> lines[i] == order[i] + "=" + IntText(want[order[i]]) + "\n"
  {
    seq(|order|, i requires 0 <= i < |order| => order[i] + "=" + IntText(want[order[i]]) + "\n")
  }

  // ---- the wanted settings ----

  /** The wanted settings, each from its own value or its default. */
  lemma {:induction false} WantedJunk(obf: map<string, int>)
    ensures Junk(obf).Keys == {"AWG_S1", "AWG_S2", "AWG_Jc", "AWG_Jmin", "AWG_Jmax"}
    ensures Junk(obf)["AWG_S1"] == if "s1" in obf then obf["s1"] else 213
    ensures Junk(obf)["AWG_S2"] == if "s2" in obf then obf["s2"] else 237
    ensures Junk(obf)["AWG_Jc"] == if "jc" in obf then obf["jc"] else 3
    ensures Junk(obf)["AWG_Jmin"] == if "jmin" in obf then obf["jmin"] else 10
    ensures Junk(obf)["AWG_Jmax"] == if "jmax" in obf then obf["jmax"] else 50
  {
    hide Shaped;
  }

  lemma {:induction false} WantedHeaders(obf: map<string, int>)
    ensures Headers(obf).Keys == {"AWG_H1", "AWG_H2", "AWG_H3", "AWG_H4"}
    ensures Headers(obf)["AWG_H1"] == if "h1" in obf then obf["h1"] else 0
    ensures Headers(obf)["AWG_H2"] == if "h2" in obf then obf["h2"] else 0
    ensures Headers(obf)["AWG_H3"] == if "h3" in obf then obf["h3"] else 0
    ensures Headers(obf)["AWG_H4"] == if "h4" in obf then obf["h4"] else 0
  {
    hide Shaped;
  }

  /** Both groups together, nothing else, and neither overrides the other. */
  lemma {:induction false} WantedSettings(obf: map<string, int>)
    ensures WantOf(obf).Keys == Junk(obf).Keys + Headers(obf).Keys && Junk(obf).Keys !! Headers(obf).Keys
    ensures forall k :: k in Junk(obf) ==> WantOf(obf)[k] == Junk(obf)[k]
    ensures forall k :: k in Headers(obf) ==> WantOf(obf)[k] == Headers(obf)[k]
  {
    hide Junk, Headers, Shaped;
    WantedJunk(obf);
    WantedHeaders(obf);
  }
}

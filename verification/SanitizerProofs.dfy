/** What sanitize_awg_conf guarantees: a normal form, nothing else lost, and stability under repetition. */
module SanitizerProofs {
  import opened Text
  import opened Sanitizer

  // ---- one line ----

  ghost predicate CleanNonblank(l: string) {
    && l != "" && !IsSpace(l[|l| - 1]) && '#' !in l && ';' !in l && !IsEmptyKey(l)
    && (Strip(l) == INTERFACE ==> l == INTERFACE) && (Strip(l) == PEER ==> l == PEER)
  }

  // A line the cleaner leaves alone.
  ghost predicate Clean(l: string) {
    l == "" || CleanNonblank(l)
  }

  lemma {:induction false} NonblankEnd(l: string)
    requires l != "" && !IsSpace(l[|l| - 1])
    ensures Strip(l) != ""
  {
    StripEmptyIsBlank(l);
  }

  lemma {:induction false} BlankIsEmpty(l: string)
    requires Clean(l)
    ensures Strip(l) == "" <==> l == ""
  {
    if l != "" {
      NonblankEnd(l);
    }
  }

  lemma {:induction false} UncommentFacts(x: string)
    ensures var l := Uncomment(x); '#' !in l && ';' !in l && (l == "" || !IsSpace(l[|l| - 1]))
  {
    hide IndexOf;
    var right := RStrip(x);
    var stripped := LStrip(right);
    var i := CommentIndex(stripped);
    var a := LStripPart(right);
    if i < |stripped| {
      var b := RStripPart(stripped[..i]);
    } else {
      assert stripped[..i] == stripped;
      BlankHasNoMarker(a);
    }
  }

  lemma {:induction false} BlankHasNoMarker(a: string)
    requires Blank(a)
    ensures '#' !in a && ';' !in a
  {
  }

  lemma {:induction false} UncommentChars(x: string, c: char)
    requires c in Uncomment(x)
    ensures c in x
  {
    hide CommentIndex, IsSpace;
    var right := RStrip(x);
    var b := RStripPart(x);
    var stripped := LStrip(right);
    var a := LStripPart(right);
    var i := CommentIndex(stripped);
    if i < |stripped| {
      var b' := RStripPart(stripped[..i]);
      assert c in stripped[..i] && c in stripped;
    }
    assert c in right;
  }

  lemma {:induction false} HeadersClean()
    ensures CleanNonblank(INTERFACE) && CleanNonblank(PEER)
  {
    StripOfTrimmed(INTERFACE);
    StripOfTrimmed(PEER);
  }

  lemma {:induction false} CleanLineIsClean(x: string)
    requires CleanLine(x).Some?
    ensures Clean(CleanLine(x).value)
  {
    hide Uncomment, IsEmptyKey, Strip;
    UncommentFacts(x);
    HeadersClean();
  }

  lemma {:induction false} CleanLineChars(x: string, c: char)
    requires CleanLine(x).Some? && c in CleanLine(x).value
    ensures c in x || c in INTERFACE || c in PEER
  {
    hide Uncomment, IsEmptyKey, Strip;
    if c in Uncomment(x) {
      UncommentChars(x, c);
    }
  }

  /** Cleaning a clean line changes nothing. */
  lemma {:induction false} CleanStays(l: string)
    requires Clean(l)
    ensures CleanLine(l) == Some(l)
  {
    hide IndexOf, IsEmptyKey;
    if l != "" {
      NonblankEnd(l);
      var a := LStripPart(l);
      var stripped := LStrip(l);
      var i := CommentIndex(stripped);
      assert forall k :: 0 <= k < |stripped| ==> stripped[k] in l;
      assert Uncomment(l) == l;
    }
  }

  // ---- lists of lines ----

  ghost predicate AllClean(lines: seq<string>) {
    forall i :: 0 <= i < |lines| ==> Clean(lines[i]) && '\n' !in lines[i]
  }

  ghost predicate NoDoubleBlank(lines: seq<string>) {
    forall i :: 0 <= i < |lines| - 1 ==> lines[i] != "" || lines[i + 1] != ""
  }

  // Nonempty lines, in order.
  function Kept(lines: seq<string>): seq<string> {
    if lines == [] then []
    else
      var front, last := Kept(lines[..|lines| - 1]), lines[|lines| - 1];
      if last == "" then front else front + [last]
  }

  ghost predicate Normal(lines: seq<string>) {
    && AllClean(lines) && NoDoubleBlank(lines)
    && (lines != [] ==> lines[0] != "" && lines[|lines| - 1] != "")
    && (INTERFACE in lines ==> lines[0] == INTERFACE)
  }

  function TextOf(lines: seq<string>): string {
    Join(lines, '\n') + "\n"
  }

  lemma {:induction false} CleanAllClean(lines: seq<string>)
    requires forall i :: 0 <= i < |lines| ==> '\n' !in lines[i]
    ensures AllClean(CleanAll(lines))
  {
    hide CleanLine, Clean;
    if lines != [] {
      var n := |lines| - 1;
      CleanAllClean(lines[..n]);
      if CleanLine(lines[n]).Some? {
        CleanLineIsClean(lines[n]);
        if '\n' in CleanLine(lines[n]).value {
          CleanLineChars(lines[n], '\n');
        }
      }
    }
  }

  lemma {:induction false} KeptConcat(a: seq<string>, b: seq<string>)
    ensures Kept(a + b) == Kept(a) + Kept(b)
  {
    if b == [] {
      assert a + b == a;
    } else {
      assert (a + b)[..|a + b| - 1] == a + b[..|b| - 1];
      KeptConcat(a, b[..|b| - 1]);
    }
  }

  lemma {:induction false} KeptOne(x: string)
    ensures Kept([x]) == if x == "" then [] else [x]
  {
    assert [x][..0] == [];
  }

  lemma {:induction false} DropBlankHeadFacts(lines: seq<string>)
    requires AllClean(lines)
    ensures var d := DropBlankHead(lines);
            && AllClean(d) && (d != [] ==> d[0] != "") && Kept(d) == Kept(lines)
            && (forall l :: l in d ==> l in lines)
  {
    hide Clean;
    if lines != [] {
      BlankIsEmpty(lines[0]);
      if lines[0] == "" {
        DropBlankHeadFacts(lines[1..]);
        assert lines == [lines[0]] + lines[1..];
        KeptConcat([lines[0]], lines[1..]);
        KeptOne(lines[0]);
      }
    }
  }

  lemma {:induction false} FindKept(lines: seq<string>, x: string)
    requires x != ""
    ensures var i := Find(lines, x);
            (i == |lines| <==> x !in lines) && (i == |lines| <==> x !in Kept(lines)) &&
            Kept(lines[..i]) == Kept(lines)[..Find(Kept(lines), x)] &&
            (i < |lines| ==> Kept(lines[i + 1..]) == Kept(lines)[Find(Kept(lines), x) + 1..])
  {
    hide Find, Kept;
    var i := Find(lines, x);
    KeptMembers(lines, x);
    if i < |lines| {
      KeptMembers(lines[..i], x);
      assert lines == lines[..i] + [x] + lines[i + 1..];
      KeptConcat(lines[..i] + [x], lines[i + 1..]);
      KeptConcat(lines[..i], [x]);
      KeptOne(x);
      FindIs(Kept(lines[..i]), x, Kept(lines[i + 1..]));
    } else {
      assert lines[..i] == lines;
      var j := Find(Kept(lines), x);
      assert j == |Kept(lines)|;
    }
  }

  lemma {:induction false} FindIs(a: seq<string>, x: string, b: seq<string>)
    requires x !in a
    ensures Find(a + [x] + b, x) == |a|
  {
    if a != [] {
      assert (a + [x] + b)[1..] == a[1..] + [x] + b;
      FindIs(a[1..], x, b);
    }
  }

  lemma {:induction false} KeptMembers(lines: seq<string>, x: string)
    requires x != ""
    ensures x in Kept(lines) <==> x in lines
  {
    if lines != [] {
      KeptMembers(lines[..|lines| - 1], x);
      assert lines == lines[..|lines| - 1] + [lines[|lines| - 1]];
    }
  }

  lemma {:induction false} HeaderFirstFacts(d: seq<string>)
    requires AllClean(d) && (d != [] ==> d[0] != "")
    ensures var h := HeaderFirst(d);
            && AllClean(h) && (h != [] ==> h[0] != "") && (INTERFACE in h ==> h[0] == INTERFACE)
            && (forall l :: l in h ==> l in d)
            && Kept(h) == HeaderFirst(Kept(d))
  {
    hide Find, Kept;
    var i := Find(d, INTERFACE);
    FindKept(d, INTERFACE);
    StripOfTrimmed(INTERFACE);
    var k := Kept(d);
    if d != [] {
      assert d == [d[0]] + d[1..];
      KeptConcat([d[0]], d[1..]);
      KeptOne(d[0]);
      assert k[0] == d[0];
      assert Strip(d[0]) == INTERFACE <==> d[0] == INTERFACE;
    }
    if d != [] && d[0] != INTERFACE && i < |d| {
      assert HeaderFirst(d) == [d[i]] + d[..i] + d[i + 1..];
      KeptConcat([d[i]] + d[..i], d[i + 1..]);
      KeptConcat([d[i]], d[..i]);
      KeptOne(d[i]);
    } else if d == [] {
      KeptEmpty();
    }
  }

  lemma {:induction false} KeptEmpty()
    ensures Kept([]) == []
  {
  }

  lemma {:induction false} CollapseKept(h: seq<string>)
    requires AllClean(h)
    ensures Kept(Collapse(h)) == Kept(h) && forall l :: l in Collapse(h) ==> l in h
  {
    hide Clean, Strip;
    if h != [] {
      var m := |h| - 1;
      var front := Collapse(h[..m]);
      CollapseKept(h[..m]);
      BlankIsEmpty(h[m]);
      KeptConcat(front, [h[m]]);
      KeptOne(h[m]);
      assert h == h[..m] + [h[m]];
    }
  }

  lemma {:induction false} CollapseFacts(h: seq<string>)
    requires AllClean(h)
    ensures var n := Collapse(h);
            && AllClean(n) && NoDoubleBlank(n)
            && (h == [] ==> n == [])
            && (h != [] ==> n != [] && n[0] == h[0] && n[|n| - 1] == h[|h| - 1])
  {
    hide Clean, Strip;
    if h != [] {
      var m := |h| - 1;
      CollapseFacts(h[..m]);
      BlankIsEmpty(h[m]);
      if m > 0 {
        BlankIsEmpty(h[m - 1]);
      }
    }
  }

  // ---- the text ----

  lemma {:induction false} JoinSnoc(lines: seq<string>, x: string)
    requires lines != []
    ensures Join(lines + [x], '\n') == Join(lines, '\n') + "\n" + x
  {
    if |lines| == 1 {
      assert (lines + [x])[1..] == [x];
    } else {
      assert (lines + [x])[1..] == lines[1..] + [x];
      JoinSnoc(lines[1..], x);
      assert lines[0] + "\n" + (Join(lines[1..], '\n') + "\n" + x) ==
             lines[0] + "\n" + Join(lines[1..], '\n') + "\n" + x;
    }
  }

  lemma {:induction false} JoinEnd(lines: seq<string>)
    requires lines != [] && lines[|lines| - 1] != ""
    ensures var s, last := Join(lines, '\n'), lines[|lines| - 1]; s != "" && s[|s| - 1] == last[|last| - 1]
  {
    var n := |lines| - 1;
    if n > 0 {
      assert lines == lines[..n] + [lines[n]];
      JoinSnoc(lines[..n], lines[n]);
    }
  }

  // Joining collapsed lines and dropping the final newlines leaves a normal list's text.
  lemma {:induction false} FinalText(n: seq<string>) returns (kept: seq<string>)
    requires AllClean(n) && NoDoubleBlank(n) && (n != [] ==> n[0] != "") && (INTERFACE in n ==> n[0] == INTERFACE)
    ensures Normal(kept) && DropFinalNewlines(Join(n, '\n')) + "\n" == TextOf(kept) && Kept(kept) == Kept(n)
    ensures forall l :: l in kept ==> l in n
  {
    hide Clean, Join;
    var m := |n| - 1;
    kept := if n != [] && n[m] == "" then n[..m] else n;
    if n == [] {
      JoinNothing();
    } else {
      LastNotNewline(kept);
      JoinEnd(kept);
      if n[m] == "" {
        assert n == kept + [""];
        JoinSnoc(kept, "");
        assert Join(n, '\n')[..|Join(n, '\n')| - 1] == Join(kept, '\n');
      }
    }
  }

  lemma {:induction false} JoinNothing()
    ensures Join([], '\n') == ""
  {
  }

  lemma {:induction false} LastNotNewline(lines: seq<string>)
    requires AllClean(lines) && lines != [] && lines[|lines| - 1] != ""
    ensures var last := lines[|lines| - 1]; last[|last| - 1] != '\n'
  {
  }

  /** Normal form: every nonempty input becomes the text of a normal list of lines, and that list holds exactly the
      nonempty cleaned lines, in order, with the first [Interface] line moved to the front. */
  lemma {:induction false} SanitizeNormalises(conf: string) returns (lines: seq<string>)
    requires conf != ""
    ensures Normal(lines) && Sanitize(conf) == TextOf(lines)
    ensures Kept(lines) == HeaderFirst(Kept(Cleaned(conf)))
    ensures forall l :: l in lines ==> l in Cleaned(conf)
  {
    hide Clean, Join, Kept, HeaderFirst, DropBlankHead, Collapse, CleanAll, Split, DropFinalNewlines;
    var raw := Split(UnixNewlines(DropBom(conf)), '\n');
    JoinOfSplit(UnixNewlines(DropBom(conf)), '\n');
    CleanAllClean(raw);
    DropBlankHeadFacts(CleanAll(raw));
    var d := DropBlankHead(CleanAll(raw));
    HeaderFirstFacts(d);
    CollapseFacts(HeaderFirst(d));
    CollapseKept(HeaderFirst(d));
    lines := FinalText(Collapse(HeaderFirst(d)));
  }

  /** In plain terms: no comment marker survives, the text ends in exactly one newline, and its lines hold no two
      adjacent blank ones, no empty `KEY =` and [Interface] only in first place. */
  lemma {:induction false} SanitizedText(conf: string)
    requires conf != ""
    ensures var r := Sanitize(conf);
            && '#' !in r && ';' !in r
            && r[|r| - 1] == '\n' && (|r| > 1 ==> r[|r| - 2] != '\n')
            && var lines := Split(r[..|r| - 1], '\n');
            && NoDoubleBlank(lines)
            && (forall l :: l in lines ==> !IsEmptyKey(l) && (Strip(l) == INTERFACE ==> lines[0] == INTERFACE))
  {
    hide Sanitize, Join, Split, IsEmptyKey, Strip;
    var lines := SanitizeNormalises(conf);
    var r := Sanitize(conf);
    assert r[..|r| - 1] == Join(lines, '\n');
    NormalTextFacts(lines);
  }

  lemma {:induction false} NormalTextFacts(lines: seq<string>)
    requires Normal(lines)
    ensures var s := Join(lines, '\n');
            && '#' !in s && ';' !in s && (s != "" ==> s[|s| - 1] != '\n')
            && var parts := Split(s, '\n');
            && NoDoubleBlank(parts)
            && (forall l :: l in parts ==> !IsEmptyKey(l) && (Strip(l) == INTERFACE ==> parts[0] == INTERFACE))
  {
    hide Join, Split;
    JoinChars(lines, '#');
    JoinChars(lines, ';');
    EmptyLineFacts();
    if lines == [] {
      JoinNothing();
      SplitNoDelimiter("", '\n');
    } else {
      LastNotNewline(lines);
      JoinEnd(lines);
      SplitOfJoin(lines, '\n');
    }
  }

  lemma {:induction false} EmptyLineFacts()
    ensures !IsEmptyKey("") && Strip("") == ""
  {
  }

  lemma {:induction false} JoinChars(lines: seq<string>, c: char)
    requires c != '\n' && forall l :: l in lines ==> c !in l
    ensures c !in Join(lines, '\n')
  {
    if |lines| > 1 {
      JoinChars(lines[1..], c);
    }
  }

  // ---- stability ----

  lemma {:induction false} UnixLine(l: string, rest: string)
    requires '\n' !in l && (l == "" || l[|l| - 1] != '\r')
    ensures UnixNewlines(l + "\n" + rest) == l + "\n" + UnixNewlines(rest)
  {
    var s := l + "\n" + rest;
    if l == "" {
      assert s[1..] == rest;
    } else {
      assert s[1..] == l[1..] + "\n" + rest;
      UnixLine(l[1..], rest);
      assert s[0] == l[0];
      assert [l[0]] + (l[1..] + "\n" + UnixNewlines(rest)) == l + "\n" + UnixNewlines(rest);
    }
  }

  lemma {:induction false} UnixStays(lines: seq<string>)
    requires lines != [] && AllClean(lines)
    ensures UnixNewlines(TextOf(lines)) == TextOf(lines)
  {
    hide UnixNewlines, CleanNonblank;
    var l := lines[0];
    CleanEnd(l);
    if |lines| == 1 {
      UnixLine(l, "");
      assert l + "\n" + "" == TextOf(lines);
      UnixEmpty();
    } else {
      UnixLine(l, TextOf(lines[1..]));
      UnixStays(lines[1..]);
      assert TextOf(lines) == l + "\n" + TextOf(lines[1..]);
    }
  }

  lemma {:induction false} UnixEmpty()
    ensures UnixNewlines("") == ""
  {
  }

  lemma {:induction false} CleanEnd(l: string)
    requires Clean(l)
    ensures l == "" || l[|l| - 1] != '\r'
  {
  }

  lemma {:induction false} CleanAllStays(lines: seq<string>)
    requires AllClean(lines)
    ensures CleanAll(lines) == lines
  {
    hide CleanLine, Clean;
    if lines != [] {
      var n := |lines| - 1;
      CleanAllStays(lines[..n]);
      CleanStays(lines[n]);
    }
  }

  lemma {:induction false} CollapseStays(lines: seq<string>)
    requires AllClean(lines) && NoDoubleBlank(lines)
    ensures Collapse(lines) == lines
  {
    hide Strip, Clean;
    if lines != [] {
      var n := |lines| - 1;
      CollapseStays(lines[..n]);
      BlankIsEmpty(lines[n]);
      if n > 0 {
        BlankIsEmpty(lines[n - 1]);
      }
    }
  }

  /** The text of a normal list is a fixed point unless it starts with a byte order mark. */
  lemma {:induction false} NormalTextStays(lines: seq<string>)
    requires Normal(lines) && TextOf(lines)[0] != BOM
    ensures Sanitize(TextOf(lines)) == TextOf(lines)
  {
    hide CleanAll, Collapse, Clean, Join, Split, UnixNewlines, Find, DropFinalNewlines;
    var text := TextOf(lines);
    assert DropBom(text) == text;
    if lines == [] {
      NewlineStays();
    } else {
      UnixStays(lines);
      var all := lines + [""];
      JoinSnoc(lines, "");
      assert text == Join(all, '\n');
      SplitOfJoin(all, '\n');
      assert AllClean(all) by {
        EmptyClean();
      }
      CleanAllStays(all);
      BlankIsEmpty(lines[0]);
      assert DropBlankHead(all) == all;
      StripOfTrimmed(INTERFACE);
      assert HeaderFirst(all) == all;
      CollapseStays(all);
      FinalTextStays(lines);
    }
  }

  lemma {:induction false} EmptyClean()
    ensures Clean("")
  {
  }

  lemma {:induction false} FinalTextStays(lines: seq<string>)
    requires Normal(lines) && lines != []
    ensures DropFinalNewlines(TextOf(lines)) == Join(lines, '\n')
  {
    hide Join, Clean;
    LastNotNewline(lines);
    JoinEnd(lines);
    assert TextOf(lines)[..|TextOf(lines)| - 1] == Join(lines, '\n');
  }

  lemma {:induction false} NewlineStays()
    ensures TextOf([]) == "\n" && Sanitize("\n") == "\n"
  {
    hide CleanLine, Strip, Join, Split, UnixNewlines, CleanAll, DropBlankHead;
    JoinNothing();
    NewlineSplits();
    BlankPairDrops();
    JoinNothing();
    assert Cleaned("\n") == ["", ""];
    assert HeaderFirst([]) == [] && Collapse([]) == [];
    assert DropFinalNewlines("") == "";
  }

  lemma {:induction false} NewlineSplits()
    ensures DropBom("\n") == "\n" && UnixNewlines("\n") == "\n" && Split("\n", '\n') == ["", ""]
  {
    assert "\n"[1..] == "";
    UnixEmpty();
    SplitNoDelimiter("", '\n');
  }

  lemma {:induction false} BlankPairDrops()
    ensures CleanAll(["", ""]) == ["", ""] && DropBlankHead(["", ""]) == []
  {
    hide CleanLine;
    EmptyClean();
    EmptyLineFacts();
    CleanAllStays(["", ""]);
    assert ["", ""][1..] == [""] && [""][1..] == [];
  }

  lemma {:induction false} DropBomSuffix(s: string, c: char)
    ensures c in DropBom(s) ==> c in s
  {
    if s != "" && s[0] == BOM {
      DropBomSuffix(s[1..], c);
    }
  }

  lemma {:induction false} UnixChars(s: string, c: char)
    requires c in UnixNewlines(s)
    ensures c in s || c == '\n'
  {
    if |s| >= 2 && s[0] == '\r' && s[1] == '\n' {
      if c in UnixNewlines(s[2..]) {
        UnixChars(s[2..], c);
      }
    } else if c in UnixNewlines(s[1..]) {
      UnixChars(s[1..], c);
    }
  }

  lemma {:induction false} SplitChars(s: string, d: char, p: string, c: char)
    requires p in Split(s, d) && c in p
    ensures c in s
  {
    if s != "" {
      var rest := Split(s[1..], d);
      if p in rest {
        SplitChars(s[1..], d, p, c);
      } else if s[0] != d {
        assert p == [s[0]] + rest[0];
        if c in rest[0] {
          SplitChars(s[1..], d, rest[0], c);
        }
      }
    }
  }

  lemma {:induction false} CleanAllSource(lines: seq<string>, l: string)
    requires l in CleanAll(lines)
    ensures exists x :: x in lines && CleanLine(x) == Some(l)
  {
    hide CleanLine;
    var n := |lines| - 1;
    if l in CleanAll(lines[..n]) {
      CleanAllSource(lines[..n], l);
    } else {
      assert lines[n] in lines;
    }
  }

  // A sanitised text holds no character that neither its input nor a header holds.
  lemma {:induction false} NoNewBom(conf: string, l: string)
    requires BOM !in DropBom(conf) && l in Cleaned(conf)
    ensures BOM !in l
  {
    hide CleanLine, CleanAll, UnixNewlines, Split, DropBom;
    var unix := UnixNewlines(DropBom(conf));
    if BOM in l {
      CleanAllSource(Split(unix, '\n'), l);
      var x :| x in Split(unix, '\n') && CleanLine(x) == Some(l);
      CleanLineChars(x, BOM);
      SplitChars(unix, '\n', x, BOM);
      UnixChars(DropBom(conf), BOM);
    }
  }

  /** Idempotence: on every text with no byte order mark after its leading ones. */
  lemma {:induction false} SanitizeIdempotent(conf: string)
    requires BOM !in DropBom(conf)
    ensures Sanitize(Sanitize(conf)) == Sanitize(conf)
  {
    hide Sanitize, DropBom, Cleaned, Join, Clean;
    if conf == "" {
      EmptyStays();
    } else {
      var lines := SanitizeNormalises(conf);
      if lines != [] {
        NoNewBom(conf, lines[0]);
        TextStart(lines);
      } else {
        JoinNothing();
      }
      NormalTextStays(lines);
    }
  }

  lemma {:induction false} EmptyStays()
    ensures Sanitize("") == ""
  {
  }

  lemma {:induction false} TextStart(lines: seq<string>)
    requires lines != [] && lines[0] != ""
    ensures TextOf(lines)[0] == lines[0][0]
  {
  }
}

/** Exactly when sanitising a sanitised config again changes nothing. */
module SanitizerStability {
  import opened Text
  import opened Sanitizer
  import opened SanitizerProofs

  // Byte order marks in a text, and in all lines of a list.
  function Marks(s: string): nat {
    if s == "" then 0 else Marks(s[..|s| - 1]) + (if s[|s| - 1] == BOM then 1 else 0)
  }

  function AllMarks(lines: seq<string>): nat {
    if lines == [] then 0 else AllMarks(lines[..|lines| - 1]) + Marks(lines[|lines| - 1])
  }

  lemma {:induction false} MarksConcat(a: string, b: string)
    ensures Marks(a + b) == Marks(a) + Marks(b)
  {
    if b == "" {
      assert a + b == a;
    } else {
      assert (a + b)[..|a + b| - 1] == a + b[..|b| - 1];
      MarksConcat(a, b[..|b| - 1]);
    }
  }

  lemma {:induction false} AllMarksConcat(a: seq<string>, b: seq<string>)
    ensures AllMarks(a + b) == AllMarks(a) + AllMarks(b)
  {
    hide Marks;
    if b == [] {
      assert a + b == a;
    } else {
      assert (a + b)[..|a + b| - 1] == a + b[..|b| - 1];
      AllMarksConcat(a, b[..|b| - 1]);
    }
  }

  lemma {:induction false} MarksOne(c: char)
    ensures Marks([c]) == if c == BOM then 1 else 0
  {
    assert [c][..0] == "";
  }

  lemma {:induction false} AllMarksOne(x: string)
    ensures AllMarks([x]) == Marks(x)
  {
    hide Marks;
    assert [x][..0] == [];
  }

  lemma {:induction false} DropBomMarks(s: string)
    ensures Marks(DropBom(s)) <= Marks(s)
    ensures s != "" && s[0] == BOM ==> Marks(DropBom(s)) < Marks(s)
  {
    hide Marks;
    if s != "" && s[0] == BOM {
      DropBomMarks(s[1..]);
      assert s == [s[0]] + s[1..];
      MarksConcat([s[0]], s[1..]);
      MarksOne(s[0]);
    }
  }

  lemma {:induction false} UnixMarks(s: string)
    ensures Marks(UnixNewlines(s)) == Marks(s)
  {
    hide Marks;
    if s == "" {
    } else if |s| >= 2 && s[0] == '\r' && s[1] == '\n' {
      UnixMarks(s[2..]);
      assert s == [s[0]] + ([s[1]] + s[2..]);
      MarksConcat([s[0]], [s[1]] + s[2..]);
      MarksConcat([s[1]], s[2..]);
      MarksConcat("\n", UnixNewlines(s[2..]));
      MarksOne(s[0]);
      MarksOne(s[1]);
      assert [s[1]] == "\n";
    } else {
      UnixMarks(s[1..]);
      assert s == [s[0]] + s[1..];
      MarksConcat([s[0]], s[1..]);
      MarksConcat([s[0]], UnixNewlines(s[1..]));
    }
  }

  lemma {:induction false} JoinMarks(lines: seq<string>)
    ensures Marks(Join(lines, '\n')) == AllMarks(lines)
  {
    hide Marks;
    if |lines| == 0 {
      assert Marks("") == 0 by {
        MarksConcat("", "");
        assert "" + "" == "";
      }
    } else if |lines| == 1 {
      assert lines == [lines[0]];
      AllMarksOne(lines[0]);
    } else {
      JoinMarks(lines[1..]);
      assert lines == [lines[0]] + lines[1..];
      AllMarksConcat([lines[0]], lines[1..]);
      AllMarksOne(lines[0]);
      MarksConcat(lines[0] + ['\n'], Join(lines[1..], '\n'));
      MarksConcat(lines[0], ['\n']);
      MarksOne('\n');
    }
  }

  lemma {:induction false} UncommentMarks(x: string)
    ensures Marks(Uncomment(x)) <= Marks(x)
  {
    hide Marks, CommentIndex, RStrip, LStrip;
    var right := RStrip(x);
    var b := RStripPart(x);
    var stripped := LStrip(right);
    var a := LStripPart(right);
    MarksConcat(right, b);
    MarksConcat(a, stripped);
    var i := CommentIndex(stripped);
    if i < |stripped| {
      var b' := RStripPart(stripped[..i]);
      MarksConcat(RStrip(stripped[..i]), b');
      assert stripped == stripped[..i] + stripped[i..];
      MarksConcat(stripped[..i], stripped[i..]);
    }
  }

  lemma {:induction false} HeaderMarks()
    ensures Marks("") == Marks(INTERFACE) == Marks(PEER) == 0
  {
    NoMarks(INTERFACE);
    NoMarks(PEER);
  }

  lemma {:induction false} NoMarks(s: string)
    requires BOM !in s
    ensures Marks(s) == 0
  {
    if s != "" {
      assert s == s[..|s| - 1] + [s[|s| - 1]];
      NoMarks(s[..|s| - 1]);
    }
  }

  lemma {:induction false} CleanAllMarks(lines: seq<string>)
    ensures AllMarks(CleanAll(lines)) <= AllMarks(lines)
  {
    hide Marks, Uncomment, Strip, IsEmptyKey;
    if lines != [] {
      var n := |lines| - 1;
      CleanAllMarks(lines[..n]);
      UncommentMarks(lines[n]);
      HeaderMarks();
      if CleanLine(lines[n]).Some? {
        var l := CleanLine(lines[n]).value;
        AllMarksConcat(CleanAll(lines[..n]), [l]);
        AllMarksOne(l);
      }
    }
  }

  lemma {:induction false} KeptMarks(lines: seq<string>)
    ensures AllMarks(Kept(lines)) == AllMarks(lines)
  {
    hide Marks;
    if lines != [] {
      var n := |lines| - 1;
      KeptMarks(lines[..n]);
      HeaderMarks();
      if lines[n] != "" {
        AllMarksConcat(Kept(lines[..n]), [lines[n]]);
        AllMarksOne(lines[n]);
      }
    }
  }

  lemma {:induction false} HeaderFirstMarks(lines: seq<string>)
    ensures AllMarks(HeaderFirst(lines)) == AllMarks(lines)
  {
    hide AllMarks, Strip, Find;
    var i := Find(lines, INTERFACE);
    if HeaderFirst(lines) != lines {
      assert lines == lines[..i] + [lines[i]] + lines[i + 1..];
      AllMarksConcat(lines[..i] + [lines[i]], lines[i + 1..]);
      AllMarksConcat(lines[..i], [lines[i]]);
      AllMarksConcat([lines[i]] + lines[..i], lines[i + 1..]);
      AllMarksConcat([lines[i]], lines[..i]);
    }
  }

  // Sanitising never adds a byte order mark and drops the leading ones.
  lemma {:induction false} SanitizeMarks(conf: string)
    requires conf != ""
    ensures Marks(Sanitize(conf)) <= Marks(DropBom(conf))
  {
    hide Sanitize, Marks, AllMarks, Kept, HeaderFirst, CleanAll, Split, Join, UnixNewlines, Normal, DropBom;
    var lines := SanitizeNormalises(conf);
    var unix := UnixNewlines(DropBom(conf));
    var raw := Split(unix, '\n');
    MarksConcat(Join(lines, '\n'), "\n");
    MarksOne('\n');
    JoinMarks(lines);
    KeptMarks(lines);
    HeaderFirstMarks(Kept(CleanAll(raw)));
    KeptMarks(CleanAll(raw));
    CleanAllMarks(raw);
    JoinMarks(raw);
    JoinOfSplit(unix, '\n');
    UnixMarks(DropBom(conf));
  }

  lemma {:induction false} UnmarkedStays(conf: string)
    requires conf != ""
    ensures Sanitize(Sanitize(conf)) == Sanitize(conf) <==> Sanitize(conf)[0] != BOM
  {
    hide Sanitize, Marks, Normal, DropBom;
    var lines := SanitizeNormalises(conf);
    var r := Sanitize(conf);
    if r[0] != BOM {
      NormalTextStays(lines);
    } else {
      DropBomMarks(r);
      SanitizeMarks(r);
    }
  }

  // ---- the condition on the input ----

  function RawLines(conf: string): seq<string> {
    Split(UnixNewlines(DropBom(conf)), '\n')
  }

  predicate IsHeader(line: string) {
    CleanLine(line) == Some(INTERFACE)
  }

  // A line that is dropped or blank once cleaned.
  predicate Vanishes(line: string) {
    CleanLine(line) == None || CleanLine(line) == Some("")
  }

  // A line that, once cleaned, starts with a byte order mark.
  predicate Surfaces(line: string) {
    CleanLine(line).Some? && CleanLine(line).value != "" && CleanLine(line).value[0] == BOM
  }

  // No line is the [Interface] header, and a mark starts the first line that does not vanish.
  ghost predicate MarkSurfaces(raw: seq<string>) {
    && (forall j :: 0 <= j < |raw| ==> !IsHeader(raw[j]))
    && exists i :: 0 <= i < |raw| && Surfaces(raw[i]) && forall j :: 0 <= j < i ==> Vanishes(raw[j])
  }

  // The lines that cleaning leaves nonempty, in order.
  function Surviving(raw: seq<string>): seq<string> {
    Kept(CleanAll(raw))
  }

  lemma {:induction false} SurvivingStep(raw: seq<string>)
    requires raw != []
    ensures var n := |raw| - 1;
            Surviving(raw) == Surviving(raw[..n]) + if Vanishes(raw[n]) then [] else [CleanLine(raw[n]).value]
  {
    hide CleanLine, Kept;
    var n := |raw| - 1;
    var front := CleanAll(raw[..n]);
    if CleanLine(raw[n]).Some? {
      KeptConcat(front, [CleanLine(raw[n]).value]);
      KeptOne(CleanLine(raw[n]).value);
    }
  }

  lemma {:induction false} HeaderSurvives(raw: seq<string>)
    ensures INTERFACE in Surviving(raw) <==> exists j :: 0 <= j < |raw| && IsHeader(raw[j])
  {
    hide CleanLine, Surviving;
    if raw == [] {
      NothingSurvives();
    } else {
      var n := |raw| - 1;
      HeaderSurvives(raw[..n]);
      SurvivingStep(raw);
      assert raw == raw[..n] + [raw[n]];
      assert IsHeader(raw[n]) ==> !Vanishes(raw[n]);
    }
  }

  lemma {:induction false} FirstSurvivor(raw: seq<string>)
    ensures Surviving(raw) == [] <==> forall j :: 0 <= j < |raw| ==> Vanishes(raw[j])
    ensures Surviving(raw) != [] ==>
              exists i :: 0 <= i < |raw| && !Vanishes(raw[i]) && CleanLine(raw[i]) == Some(Surviving(raw)[0]) &&
                          forall j :: 0 <= j < i ==> Vanishes(raw[j])
  {
    hide CleanLine, Surviving;
    if raw == [] {
      NothingSurvives();
    } else {
      var n := |raw| - 1;
      FirstSurvivor(raw[..n]);
      SurvivingStep(raw);
      if Surviving(raw[..n]) != [] {
        var i :| 0 <= i < n && !Vanishes(raw[..n][i]) && CleanLine(raw[..n][i]) == Some(Surviving(raw[..n])[0]) &&
                 forall j :: 0 <= j < i ==> Vanishes(raw[..n][j]);
        assert !Vanishes(raw[i]) && forall j :: 0 <= j < i ==> raw[..n][j] == raw[j];
      } else {
        assert forall j :: 0 <= j < n ==> raw[..n][j] == raw[j];
      }
    }
  }

  lemma {:induction false} NothingSurvives()
    ensures Surviving([]) == []
  {
  }

  // The first line of the result is the header if there is one, else the first line that does not vanish.
  lemma {:induction false} FirstLine(conf: string)
    requires conf != ""
    ensures Sanitize(conf)[0] == BOM <==> MarkSurfaces(RawLines(conf))
  {
    hide Sanitize, CleanAll, CleanLine, Split, UnixNewlines, DropBom, Join, Find, Clean, Strip, Kept;
    var raw := RawLines(conf);
    var lines := SanitizeNormalises(conf);
    var kept := Kept(CleanAll(raw));
    HeaderSurvives(raw);
    FirstSurvivor(raw);
    FirstCharOf(lines);
    FirstKept(lines);
    KeptLinesClean(conf);
    HeaderFirstHead(kept);
  }

  /** Sanitising twice equals sanitising once exactly when no byte order mark comes to the front: some line is the
      [Interface] header, or the first line that does not vanish under cleaning does not then start with a mark. */
  lemma {:induction false} SecondPassExactlyWhen(conf: string)
    ensures Sanitize(Sanitize(conf)) == Sanitize(conf) <==> !MarkSurfaces(RawLines(conf))
  {
    hide MarkSurfaces, Sanitize, RawLines;
    if conf == "" {
      EmptyStays();
    } else {
      UnmarkedStays(conf);
      FirstLine(conf);
    }
  }

  lemma {:induction false} EmptyStays()
    ensures Sanitize("") == "" && !MarkSurfaces(RawLines(""))
  {
    assert RawLines("") == [""];
    BlankVanishes();
  }

  lemma {:induction false} BlankVanishes()
    ensures CleanLine("") == Some("")
  {
  }

  lemma {:induction false} FirstCharOf(lines: seq<string>)
    requires lines != [] ==> lines[0] != ""
    ensures TextOf(lines) != "" && TextOf(lines)[0] == if lines == [] then '\n' else lines[0][0]
  {
  }

  lemma {:induction false} FirstKept(lines: seq<string>)
    requires lines != [] ==> lines[0] != ""
    ensures if lines == [] then Kept(lines) == [] else Kept(lines) != [] && Kept(lines)[0] == lines[0]
  {
    hide Kept;
    KeptEmpty();
    if lines != [] {
      assert lines == [lines[0]] + lines[1..];
      KeptConcat([lines[0]], lines[1..]);
      KeptOne(lines[0]);
    }
  }

  lemma {:induction false} KeptLinesClean(conf: string)
    ensures forall l :: l in Kept(Cleaned(conf)) ==> (Strip(l) == INTERFACE <==> l == INTERFACE)
  {
    hide CleanAll, Clean, Kept, Split, Strip;
    var raw := RawLines(conf);
    JoinOfSplit(UnixNewlines(DropBom(conf)), '\n');
    CleanAllClean(raw);
    StripOfTrimmed(INTERFACE);
    forall l | l in Kept(Cleaned(conf)) ensures Strip(l) == INTERFACE <==> l == INTERFACE {
      if l != "" {
        KeptMembers(Cleaned(conf), l);
      }
      KeptNonempty(Cleaned(conf), l);
      var i :| 0 <= i < |Cleaned(conf)| && Cleaned(conf)[i] == l;
      CleanHeader(l);
    }
  }

  lemma {:induction false} KeptNonempty(lines: seq<string>, l: string)
    requires l in Kept(lines)
    ensures l != "" && l in lines
  {
    if lines != [] && l in Kept(lines[..|lines| - 1]) {
      KeptNonempty(lines[..|lines| - 1], l);
    }
  }

  lemma {:induction false} CleanHeader(l: string)
    requires Clean(l)
    ensures Strip(l) == INTERFACE ==> l == INTERFACE
  {
  }

  lemma {:induction false} HeaderFirstHead(kept: seq<string>)
    requires forall l :: l in kept ==> (Strip(l) == INTERFACE <==> l == INTERFACE)
    ensures kept == [] ==> HeaderFirst(kept) == []
    ensures kept != [] ==> HeaderFirst(kept) != []
    ensures kept != [] && INTERFACE in kept ==> HeaderFirst(kept)[0] == INTERFACE
    ensures kept != [] && INTERFACE !in kept ==> HeaderFirst(kept)[0] == kept[0]
  {
    hide Find, Strip;
    assert kept != [] ==> kept[0] in kept;
    assert INTERFACE in kept ==> Find(kept, INTERFACE) < |kept|;
  }

  // An indented mark that a comment strips to the front: the second pass drops it.
  lemma {:induction false} InnerMarkCounterexample()
    ensures Sanitize(" \U{FEFF}#") == "\U{FEFF}\n" && Sanitize("\U{FEFF}\n") == "\n"
  {
    hide Sanitize, CleanLine, UnixNewlines;
    var conf := " \U{FEFF}#";
    MarkLineCleans();
    MarkTextIsUnix();
    SplitNoDelimiter(conf, '\n');
    assert [conf][..0] == [];
    assert Cleaned(conf) == ["\U{FEFF}"];
    OneLine(conf, "\U{FEFF}");
    assert DropBom("\U{FEFF}\n") == "\n" by {
      assert "\U{FEFF}\n"[1..] == "\n";
    }
    SameAfterDrop("\U{FEFF}\n", "\n");
    NewlineStays();
  }

  lemma {:induction false} MarkTextIsUnix()
    ensures UnixNewlines(" \U{FEFF}#") == " \U{FEFF}#"
  {
    assert " \U{FEFF}#"[1..] == "\U{FEFF}#" && "\U{FEFF}#"[1..] == "#" && "#"[1..] == "";
    assert UnixNewlines("#") == "#";
    assert UnixNewlines("\U{FEFF}#") == "\U{FEFF}#";
  }

  lemma {:induction false} SameAfterDrop(a: string, b: string)
    requires a != "" && b != "" && DropBom(a) == DropBom(b)
    ensures Sanitize(a) == Sanitize(b)
  {
  }

  lemma {:induction false} MarkLineCleans()
    ensures CleanLine(" \U{FEFF}#") == Some("\U{FEFF}")
  {
    var line, m := " \U{FEFF}#", "\U{FEFF}";
    assert RStrip(line) == line;
    assert LStrip(line) == "\U{FEFF}#" by {
      LStripUnique(" ", "\U{FEFF}#");
      assert " " + "\U{FEFF}#" == line;
    }
    assert CommentIndex("\U{FEFF}#") == 1 by {
      assert "\U{FEFF}#"[1..] == "#" && "#"[1..] == "";
      assert IndexOf("#", '#') == 0 && IndexOf("#", ';') == 1;
    }
    assert "\U{FEFF}#"[..1] == m;
    assert RStrip(m) == m;
    StripOfTrimmed(m);
  }

  lemma {:induction false} OneLine(conf: string, l: string)
    requires conf != "" && Cleaned(conf) == [l] && l != "" && !IsSpace(l[|l| - 1]) && l != INTERFACE
    ensures Sanitize(conf) == l + "\n"
  {
    hide Cleaned;
    NonblankEnd(l);
    assert [l][..0] == [] && [l][1..] == [];
    assert DropBlankHead([l]) == [l] && HeaderFirst([l]) == [l] && Collapse([l]) == [l];
    assert Join([l], '\n') == l;
    assert l[|l| - 1] != '\n';
  }
}

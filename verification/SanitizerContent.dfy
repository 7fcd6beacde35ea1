/** What the sanitiser keeps of each line, and that it keeps it, said of the text that comes in. */
module SanitizerContent {
  import opened Text
  import opened Sanitizer
  import opened SanitizerProofs
  import opened SanitizerStability

  // ---- one line ----

  predicate IsMark(c: char) {
    c == '#' || c == ';'
  }

  ghost predicate Unmarked(s: string) {
    forall i :: 0 <= i < |s| ==> !IsMark(s[i])
  }

  // What a line says: its text without trailing blanks, or, when it holds a comment, the text before it without blanks.
  ghost predicate Says(line: string, text: string) {
    || (Unmarked(line) && exists b :: Blank(b) && line == text + b && (text == "" || !IsSpace(text[|text| - 1])))
    || (exists a, b, m, rest :: Commented(line, a, text, b, m, rest))
  }

  ghost predicate Commented(line: string, a: string, text: string, b: string, m: char, rest: string) {
    && line == a + text + b + [m] + rest && IsMark(m) && Unmarked(a + text + b)
    && Blank(a) && Blank(b) && Trimmed(text)
  }

  // A key of letters, digits and underscores, an equals sign and nothing else but blanks.
  ghost predicate EmptySetting(text: string) {
    exists a, key, b, c :: EmptySettingAs(text, a, key, b, c)
  }

  ghost predicate EmptySettingAs(text: string, a: string, key: string, b: string, c: string) {
    && text == a + key + b + "=" + c && Blank(a) && Blank(b) && Blank(c) && key != ""
    && forall i :: 0 <= i < |key| ==>
         'A' <= key[i] <= 'Z' || 'a' <= key[i] <= 'z' || '0' <= key[i] <= '9' || key[i] == '_'
  }

  // The line that is kept: none for a blank line or an empty setting, the bare header for a header, else what it says.
  ghost predicate KeptAs(line: string, kept: Option<string>) {
    exists text :: Says(line, text) && kept ==
      if Blank(text) || EmptySetting(text) then None
      else if Strip(text) == "[Interface]" || Strip(text) == "[Peer]" then Some(Strip(text))
      else Some(text)
  }

  lemma {:induction false} UncommentUnmarked(line: string)
    requires Unmarked(line)
    ensures Uncomment(line) == RStrip(line)
  {
    hide RStrip, LStrip, CommentIndex;
    var b := RStripPart(line);
    var a := LStripPart(RStrip(line));
    var stripped := LStrip(RStrip(line));
    assert line == a + stripped + b;
    forall i | 0 <= i < |stripped| ensures !IsMark(stripped[i]) {
      assert stripped[i] == line[|a| + i];
    }
    var i := CommentIndex(stripped);
  }

  lemma {:induction false} RStripHead(s: string)
    requires s != "" && !IsSpace(s[0])
    ensures RStrip(s) != "" && RStrip(s)[0] == s[0]
  {
    hide IsSpace;
    if IsSpace(s[|s| - 1]) {
      RStripHead(s[..|s| - 1]);
    }
  }

  lemma {:induction false} UncommentCommented(line: string, a: string, text: string, b: string, m: char, rest: string)
    requires Commented(line, a, text, b, m, rest)
    ensures Uncomment(line) == text
  {
    hide RStrip, LStrip, CommentIndex, Strip, IsSpace;
    var tail := [m] + rest;
    var c := RStripPart(tail);
    var t := RStrip(tail);
    MarkNotSpace(m);
    RStripHead(tail);
    var right := a + text + b + t;
    assert line == (a + text + b) + tail;
    assert line == right + c;
    assert right[|right| - 1] == t[|t| - 1];
    assert !IsSpace(t[|t| - 1]);
    RStripUnique(right, c);
    if text == "" {
      assert right == (a + b) + t;
      LStripUnique(a + b, t);
      FirstMark("", t);
      assert "" + t == t;
      RStripUnique("", "");
      assert "" + "" == "";
    } else {
      var inner := text + b + t;
      assert right == a + inner && inner[0] == text[0];
      LStripUnique(a, inner);
      assert forall i :: 0 <= i < |text + b| ==> (text + b)[i] == (a + text + b)[|a| + i];
      FirstMark(text + b, t);
      assert inner[..|text + b|] == text + b;
      RStripUnique(text, b);
    }
  }

  lemma {:induction false} MarkNotSpace(m: char)
    requires IsMark(m)
    ensures !IsSpace(m)
  {
  }

  lemma {:induction false} FirstMark(head: string, t: string)
    requires Unmarked(head) && t != "" && IsMark(t[0])
    ensures CommentIndex(head + t) == |head|
  {
    hide IndexOf;
    var s := head + t;
    var i := CommentIndex(s);
    assert s[|head|] == t[0];
    assert forall j :: 0 <= j < i ==> s[..i][j] == s[j] && !IsMark(s[j]);
    assert forall j :: 0 <= j < |head| ==> s[j] == head[j] && !IsMark(s[j]);
  }

  lemma {:induction false} SaysExactly(line: string, text: string)
    ensures Says(line, text) <==> Uncomment(line) == text
  {
    hide RStrip, LStrip, CommentIndex, Strip, Uncomment, Commented;
    if Unmarked(line) {
      UncommentUnmarked(line);
      RStripExactly(line, text);
      forall a, b, m, rest ensures !Commented(line, a, text, b, m, rest) {
        NotCommented(line, a, text, b, m, rest);
      }
    } else {
      var a, t, b, m, rest := SplitComment(line);
      UncommentCommented(line, a, t, b, m, rest);
      forall a', b', m', rest' | Commented(line, a', text, b', m', rest') ensures Uncomment(line) == text {
        UncommentCommented(line, a', text, b', m', rest');
      }
    }
  }

  lemma {:induction false} NotCommented(line: string, a: string, text: string, b: string, m: char, rest: string)
    requires Unmarked(line)
    ensures !Commented(line, a, text, b, m, rest)
  {
    if line == a + text + b + [m] + rest {
      assert line[|a + text + b|] == m;
    }
  }

  lemma {:induction false} RStripExactly(line: string, text: string)
    ensures RStrip(line) == text <==>
              exists b :: Blank(b) && line == text + b && (text == "" || !IsSpace(text[|text| - 1]))
  {
    hide RStrip;
    var c := RStripPart(line);
    assert Blank(c) && line == RStrip(line) + c;
    if exists b :: Blank(b) && line == text + b && (text == "" || !IsSpace(text[|text| - 1])) {
      var b :| Blank(b) && line == text + b && (text == "" || !IsSpace(text[|text| - 1]));
      RStripUnique(text, b);
    }
  }

  lemma {:induction false} SplitComment(line: string)
    returns (a: string, text: string, b: string, m: char, rest: string)
    requires !Unmarked(line)
    ensures Commented(line, a, text, b, m, rest)
  {
    hide Strip, IndexOf;
    var i := CommentIndex(line);
    assert forall j :: 0 <= j < i ==> line[..i][j] == line[j] && !IsMark(line[j]);
    var head := line[..i];
    a, b := StripParts(head);
    text, m, rest := Strip(head), line[i], line[i + 1..];
    StripTrims(head);
    assert line == head + [m] + rest;
    assert head == a + text + b;
    forall k | 0 <= k < |head| ensures !IsMark(head[k]) {
      assert head[k] in line[..i];
    }
  }

  lemma {:induction false} WordChars(key: string)
    ensures AllWord(key) <==> forall i :: 0 <= i < |key| ==> IsWordChar(key[i])
  {
    hide IsWordChar;
    if key != "" {
      WordChars(key[1..]);
      assert forall i :: 0 < i < |key| ==> key[i] == key[1..][i - 1];
    }
  }

  lemma {:induction false} WordTrimmed(key: string)
    requires key != "" && AllWord(key)
    ensures !IsSpace(key[0]) && !IsSpace(key[|key| - 1])
  {
    WordChars(key);
    assert IsWordChar(key[0]) && IsWordChar(key[|key| - 1]);
  }

  lemma {:induction false} EmptySettingExactly(text: string)
    ensures EmptySetting(text) <==> IsEmptyKey(text)
  {
    hide Strip, RStrip, IsSpace;
    if EmptySetting(text) {
      var a, key, b, c :| EmptySettingAs(text, a, key, b, c);
      WordChars(key);
      WordTrimmed(key);
      var s := key + b + "=";
      EqualsNotSpace();
      StripUnique(a, s, c);
      assert text == a + s + c;
      assert s[..|s| - 1] == key + b;
      RStripUnique(key, b);
    }
    if IsEmptyKey(text) {
      var s := Strip(text);
      var a, c := StripParts(text);
      var key := RStrip(s[..|s| - 1]);
      var b := RStripPart(s[..|s| - 1]);
      WordChars(key);
      assert s == s[..|s| - 1] + "=";
      assert EmptySettingAs(text, a, key, b, c);
    }
  }

  lemma {:induction false} EqualsNotSpace()
    ensures !IsSpace('=')
  {
  }

  // The cleaned line, none when it vanishes or is blank.
  function Survivor(line: string): Option<string> {
    match CleanLine(line) case None => None case Some(l) => if l == "" then None else Some(l)
  }

  /** A line is kept exactly as what it says: without its comment and the blanks around, nothing lost before the
      comment, and only empty settings and blank lines vanish. */
  lemma {:induction false} LineKeptExactly(line: string, kept: Option<string>)
    ensures KeptAs(line, kept) <==> Survivor(line) == kept
  {
    hide Says, Uncomment, Strip, IsEmptyKey, EmptySetting;
    var text := Uncomment(line);
    forall t ensures Says(line, t) <==> t == text {
      SaysExactly(line, t);
    }
    StripEmptyIsBlank(text);
    EmptySettingExactly(text);
    assert Survivor(line) == if Blank(text) || EmptySetting(text) then None
                             else if Strip(text) == "[Interface]" || Strip(text) == "[Peer]" then Some(Strip(text))
                             else Some(text) by {
      assert text == "" ==> Blank(text);
    }
  }

  // ---- carriage returns and byte order marks ----

  lemma {:induction false} SaysWithReturn(line: string, text: string)
    requires Says(line, text)
    ensures Says(line + "\r", text)
  {
    hide Commented;
    if Unmarked(line) && exists b :: Blank(b) && line == text + b && (text == "" || !IsSpace(text[|text| - 1])) {
      var b :| Blank(b) && line == text + b && (text == "" || !IsSpace(text[|text| - 1]));
      assert Blank(b + "\r") && line + "\r" == text + (b + "\r");
      assert Unmarked(line + "\r");
    } else {
      var a, b, m, rest :| Commented(line, a, text, b, m, rest);
      MoreComment(line, a, text, b, m, rest);
    }
  }

  lemma {:induction false} MoreComment(line: string, a: string, text: string, b: string, m: char, rest: string)
    requires Commented(line, a, text, b, m, rest)
    ensures Commented(line + "\r", a, text, b, m, rest + "\r")
  {
    assert line + "\r" == a + text + b + [m] + (rest + "\r");
  }

  lemma {:induction false} SameSurvivor(line: string)
    ensures Survivor(line + "\r") == Survivor(line)
  {
    hide Says, Uncomment, IsEmptyKey, Strip;
    SaysExactly(line, Uncomment(line));
    SaysWithReturn(line, Uncomment(line));
    SaysExactly(line + "\r", Uncomment(line));
  }

  // Lines as split at line feeds alone, next to lines with the carriage returns before line feeds dropped.
  ghost predicate SameButReturns(ls: seq<string>, raw: seq<string>) {
    |ls| == |raw| && forall i :: 0 <= i < |ls| ==> ls[i] == raw[i] || ls[i] == raw[i] + "\r"
  }

  lemma {:induction false} UnixLines(s: string)
    ensures SameButReturns(Split(s, '\n'), Split(UnixNewlines(s), '\n'))
    decreases |s|
  {
    if s == "" {
    } else if |s| >= 2 && s[0] == '\r' && s[1] == '\n' {
      UnixLines(s[2..]);
      ReturnLine(s);
    } else {
      UnixLines(s[1..]);
      assert UnixNewlines(s)[1..] == UnixNewlines(s[1..]);
      OtherLine(s, UnixNewlines(s));
    }
  }

  lemma {:induction false} ReturnLine(s: string)
    requires |s| >= 2 && s[0] == '\r' && s[1] == '\n'
    requires SameButReturns(Split(s[2..], '\n'), Split(UnixNewlines(s[2..]), '\n'))
    ensures SameButReturns(Split(s, '\n'), Split(UnixNewlines(s), '\n'))
  {
    var rest, unix := s[2..], UnixNewlines(s[2..]);
    SplitAtFirst("\r", rest, '\n');
    SplitAtFirst("", unix, '\n');
    assert s == "\r" + ['\n'] + rest;
    assert UnixNewlines(s) == "" + ['\n'] + unix;
    assert "" + "\r" == "\r";
  }

  lemma {:induction false} OtherLine(s: string, u: string)
    requires s != "" && u != "" && s[0] == u[0]
    requires SameButReturns(Split(s[1..], '\n'), Split(u[1..], '\n'))
    ensures SameButReturns(Split(s, '\n'), Split(u, '\n'))
  {
    var a, b := Split(s[1..], '\n'), Split(u[1..], '\n');
    if s[0] != '\n' && a[0] == b[0] + "\r" {
      assert [s[0]] + a[0] == ([s[0]] + b[0]) + "\r";
    }
  }

  lemma {:induction false} MarksDropped(marks: string, text: string)
    requires (forall i :: 0 <= i < |marks| ==> marks[i] == BOM) && (text == "" || text[0] != BOM)
    ensures DropBom(marks + text) == text
  {
    if marks == "" {
      assert marks + text == text;
    } else {
      assert (marks + text)[1..] == marks[1..] + text;
      MarksDropped(marks[1..], text);
    }
  }

  // ---- the whole text ----

  function Somes(kept: seq<Option<string>>): seq<string> {
    if kept == [] then []
    else Somes(kept[..|kept| - 1]) + if kept[|kept| - 1].Some? then [kept[|kept| - 1].value] else []
  }

  // The i-th line is kept as kept[i].
  ghost predicate AllKeptAs(lines: seq<string>, kept: seq<Option<string>>) {
    |kept| == |lines| && forall i :: 0 <= i < |lines| ==> KeptAs(lines[i], kept[i])
  }

  // The first [Interface] line, if any, goes to the front; the others keep their order.
  ghost predicate HeaderToFront(before: seq<string>, after: seq<string>) {
    if "[Interface]" !in before then after == before
    else exists a, b :: before == a + ["[Interface]"] + b && "[Interface]" !in a && after == ["[Interface]"] + a + b
  }

  function Survivors(raw: seq<string>): (r: seq<Option<string>>)
    ensures |r| == |raw| && forall i :: 0 <= i < |r| ==> r[i] == Survivor(raw[i])
  {
    seq(|raw|, i requires 0 <= i < |raw| => Survivor(raw[i]))
  }

  lemma {:induction false} SurvivingAre(raw: seq<string>)
    ensures Surviving(raw) == Somes(Survivors(raw))
  {
    hide CleanLine, Surviving, Survivors;
    if raw == [] {
      NothingSurvives();
    } else {
      var n := |raw| - 1;
      SurvivingAre(raw[..n]);
      SurvivingStep(raw);
      assert Survivors(raw)[..n] == Survivors(raw[..n]);
    }
  }

  lemma {:induction false} HeaderMoves(kept: seq<string>)
    requires forall l :: l in kept ==> (Strip(l) == INTERFACE <==> l == INTERFACE)
    ensures HeaderToFront(kept, HeaderFirst(kept))
  {
    hide Find, Strip;
    var i := Find(kept, INTERFACE);
    if i < |kept| {
      assert kept == kept[..i] + ["[Interface]"] + kept[i + 1..];
      if Strip(kept[0]) == INTERFACE {
        assert kept[0] in kept;
        assert kept[..0] == [] && kept == [] + ["[Interface]"] + kept[1..];
        assert kept == ["[Interface]"] + [] + kept[1..];
      } else {
        assert HeaderFirst(kept) == ["[Interface]"] + kept[..i] + kept[i + 1..];
      }
    } else {
      assert kept[..i] == kept;
    }
  }

  lemma {:induction false} KeptOfText(lines: seq<string>)
    requires Normal(lines)
    ensures Kept(Split(Join(lines, '\n'), '\n')) == Kept(lines)
  {
    hide Kept, Split, Clean;
    if lines == [] {
      JoinNothing();
      SplitNoDelimiter("", '\n');
      KeptOne("");
      KeptEmpty();
    } else {
      forall l | l in lines ensures '\n' !in l {
      }
      SplitOfJoin(lines, '\n');
    }
  }

  /** Nothing but comments, empty settings and blanks is lost: the nonempty lines of the result are the input's lines,
      each kept as what it says, in order, with the first [Interface] moved to the front. Leading byte order marks are
      dropped, and line ends may be of either kind. */
  lemma {:induction false} SanitizedLines(marks: string, text: string) returns (kept: seq<Option<string>>)
    requires marks + text != ""
    requires (forall i :: 0 <= i < |marks| ==> marks[i] == BOM) && (text == "" || text[0] != BOM)
    ensures AllKeptAs(Split(text, '\n'), kept)
    ensures var r := Sanitize(marks + text);
            r != "" && r[|r| - 1] == '\n' && HeaderToFront(Somes(kept), Kept(Split(r[..|r| - 1], '\n')))
  {
    hide Split, Join, UnixNewlines, DropBom, Sanitize, Kept, CleanAll, HeaderFirst, Normal, HeaderToFront, Survivor;
    hide KeptAs;
    var conf := marks + text;
    MarksDropped(marks, text);
    UnixLines(text);
    var ls, raw := Split(text, '\n'), RawLines(conf);
    kept := Survivors(ls);
    forall i | 0 <= i < |ls| ensures KeptAs(ls[i], kept[i]) && kept[i] == Survivor(raw[i]) {
      LineKeptExactly(ls[i], kept[i]);
      SameSurvivor(raw[i]);
    }
    assert kept == Survivors(raw);
    SurvivingAre(raw);
    var lines := SanitizeNormalises(conf);
    KeptLinesClean(conf);
    HeaderMoves(Kept(Cleaned(conf)));
    KeptOfText(lines);
    assert Sanitize(conf)[..|Sanitize(conf)| - 1] == Join(lines, '\n');
  }
}

/** sanitize_awg_conf: the normaliser applied to stored client configs before download. */
module Sanitizer {
  import opened Text

  const BOM := '\U{FEFF}'
  const INTERFACE := "[Interface]"
  const PEER := "[Peer]"

  function DropBom(s: string): string {
    if s != "" && s[0] == BOM then DropBom(s[1..]) else s
  }

  // s.replace("\r\n", "\n")
  function UnixNewlines(s: string): string {
    if s == "" then ""
    else if |s| >= 2 && s[0] == '\r' && s[1] == '\n' then "\n" + UnixNewlines(s[2..])
    else [s[0]] + UnixNewlines(s[1..])
  }

  // ---- one line ----

  // Where the first comment marker stands, or the length when there is none.
  function CommentIndex(s: string): (i: nat)
    ensures i <= |s| && '#' !in s[..i] && ';' !in s[..i]
    ensures i == |s| || s[i] == '#' || s[i] == ';'
  {
    var hash, semi := IndexOf(s, '#'), IndexOf(s, ';');
    if hash < semi then
      assert s[..hash] == s[..semi][..hash];
      hash
    else
      assert s[..semi] == s[..hash][..semi];
      semi
  }

  // Trailing whitespace and any comment removed; a commented line also loses its indentation.
  function Uncomment(line: string): string {
    var right := RStrip(line);
    var stripped := LStrip(right);
    var i := CommentIndex(stripped);
    if i < |stripped| then RStrip(stripped[..i]) else right
  }

  predicate IsWordChar(c: char) {
    'A' <= c <= 'Z' || 'a' <= c <= 'z' || IsDigit(c) || c == '_'
  }

  predicate AllWord(s: string) {
    s == "" || (IsWordChar(s[0]) && AllWord(s[1..]))
  }

  // A key followed by '=' and nothing else.
  predicate IsEmptyKey(line: string) {
    var s := Strip(line);
    s != "" && s[|s| - 1] == '=' && var key := RStrip(s[..|s| - 1]); key != "" && AllWord(key)
  }

  // The cleaned line; None when it is dropped.
  function CleanLine(line: string): Option<string> {
    var l := Uncomment(line);
    var s := Strip(l);
    if s == "" then Some("")
    else if IsEmptyKey(l) then None
    else if s == INTERFACE then Some(INTERFACE)
    else if s == PEER then Some(PEER)
    else Some(l)
  }

  // ---- the whole text ----

  function CleanAll(lines: seq<string>): seq<string> {
    if lines == [] then []
    else
      var front, last := CleanAll(lines[..|lines| - 1]), CleanLine(lines[|lines| - 1]);
      if last.None? then front else front + [last.value]
  }

  function DropBlankHead(lines: seq<string>): seq<string> {
    if lines != [] && Strip(lines[0]) == "" then DropBlankHead(lines[1..]) else lines
  }

  function Find(lines: seq<string>, x: string): (i: nat)
    ensures i <= |lines| && x !in lines[..i] && (i < |lines| ==> lines[i] == x)
  {
    if lines == [] || lines[0] == x then 0
    else
      var i := 1 + Find(lines[1..], x);
      assert lines[..i] == [lines[0]] + lines[1..][..i - 1];
      i
  }

  // Moves the first header line to the front unless the first line is one already.
  function HeaderFirst(lines: seq<string>): seq<string> {
    var i := Find(lines, INTERFACE);
    if lines == [] || Strip(lines[0]) == INTERFACE || i == |lines| then lines
    else [lines[i]] + lines[..i] + lines[i + 1..]
  }

  // Runs of blank lines become one empty line.
  function Collapse(lines: seq<string>): seq<string> {
    if lines == [] then []
    else
      var n := |lines| - 1;
      var front := Collapse(lines[..n]);
      if Strip(lines[n]) != "" then front + [lines[n]]
      else if n > 0 && Strip(lines[n - 1]) == "" then front
      else front + [""]
  }

  function DropFinalNewlines(s: string): string {
    if s != "" && s[|s| - 1] == '\n' then DropFinalNewlines(s[..|s| - 1]) else s
  }

  function Cleaned(conf: string): seq<string> {
    CleanAll(Split(UnixNewlines(DropBom(conf)), '\n'))
  }

  function Sanitize(conf: string): string {
    if conf == "" then ""
    else DropFinalNewlines(Join(Collapse(HeaderFirst(DropBlankHead(Cleaned(conf)))), '\n')) + "\n"
  }

  /** The normaliser as it runs: lines appended to a list that is then trimmed, reordered and collapsed in place. */
  method SanitizeAwgConf(conf: string) returns (r: string)
    ensures r == Sanitize(conf)
  {
    if conf == "" {
      return "";
    }
    hide CleanAll, DropBlankHead, Collapse, DropFinalNewlines, Join, Strip, Split, UnixNewlines, DropBom, Find;
    var cleaned := CleanLines(Split(UnixNewlines(DropBom(conf)), '\n'));
    cleaned := TrimHead(cleaned);
    if cleaned != [] && Strip(cleaned[0]) != INTERFACE {
      var at := Find(cleaned, INTERFACE);
      if at < |cleaned| {
        var header := cleaned[at];
        assert [header] + (cleaned[..at] + cleaned[at + 1..]) == [header] + cleaned[..at] + cleaned[at + 1..];
        cleaned := cleaned[..at] + cleaned[at + 1..];
        cleaned := [header] + cleaned;
      }
    }
    var normalized := CollapseBlanks(cleaned);
    r := DropFinalNewlines(Join(normalized, '\n')) + "\n";
  }

  method CleanLines(rawLines: seq<string>) returns (cleaned: seq<string>)
    ensures cleaned == CleanAll(rawLines)
  {
    hide CleanLine;
    cleaned := [];
    var i := 0;
    while i < |rawLines|
      invariant 0 <= i <= |rawLines| && cleaned == CleanAll(rawLines[..i])
    {
      assert rawLines[..i + 1][..i] == rawLines[..i];
      var line := CleanLine(rawLines[i]);
      if line.Some? {
        cleaned := cleaned + [line.value];
      }
      i := i + 1;
    }
    assert rawLines[..i] == rawLines;
  }

  method TrimHead(lines: seq<string>) returns (cleaned: seq<string>)
    ensures cleaned == DropBlankHead(lines)
  {
    cleaned := lines;
    while cleaned != [] && Strip(cleaned[0]) == ""
      invariant DropBlankHead(cleaned) == DropBlankHead(lines)
      decreases |cleaned|
    {
      cleaned := cleaned[1..];
    }
  }

  method CollapseBlanks(cleaned: seq<string>) returns (normalized: seq<string>)
    ensures normalized == Collapse(cleaned)
  {
    hide Strip;
    normalized := [];
    var blank := false;
    var i := 0;
    while i < |cleaned|
      invariant 0 <= i <= |cleaned| && normalized == Collapse(cleaned[..i])
      invariant blank == (i > 0 && Strip(cleaned[i - 1]) == "")
    {
      assert cleaned[..i + 1][..i] == cleaned[..i];
      if Strip(cleaned[i]) == "" {
        if !blank {
          normalized := normalized + [""];
        }
        blank := true;
      } else {
        blank := false;
        normalized := normalized + [cleaned[i]];
      }
      i := i + 1;
    }
    assert cleaned[..i] == cleaned;
  }
}

/** The node agent's rewrite of the node env file, and when rereading it gives the wanted values. */
module EnvFile {
  import opened Text
  import opened Numerals
  import opened OrderedDict

  // A managed key starts with the only 'A' it holds and has neither '=' nor a line feed.
  predicate Shaped(k: string) {
    k != "" && k[0] == 'A' && 'A' !in k[1..] && '=' !in k && '\n' !in k
  }

  // The wanted values by managed key.
  type Want = m: map<string, int> | forall k :: k in m ==> Shaped(k) witness map[]

  function OrDefault(obf: map<string, int>, k: string, default: int): int {
    if k in obf then obf[k] else default
  }

  // The nine settings the agent manages, from the control plane's obfuscation values.
  function WantOf(obf: map<string, int>): Want {
    Junk(obf) + Headers(obf)
  }

  function Junk(obf: map<string, int>): Want {
    assert Shaped("AWG_S1") && Shaped("AWG_S2") && Shaped("AWG_Jc") && Shaped("AWG_Jmin") && Shaped("AWG_Jmax");
    map["AWG_S1" := OrDefault(obf, "s1", 213), "AWG_S2" := OrDefault(obf, "s2", 237),
        "AWG_Jc" := OrDefault(obf, "jc", 3), "AWG_Jmin" := OrDefault(obf, "jmin", 10),
        "AWG_Jmax" := OrDefault(obf, "jmax", 50)]
  }

  function Headers(obf: map<string, int>): Want {
    assert Shaped("AWG_H1") && Shaped("AWG_H2") && Shaped("AWG_H3") && Shaped("AWG_H4");
    map["AWG_H1" := OrDefault(obf, "h1", 0), "AWG_H2" := OrDefault(obf, "h2", 0),
        "AWG_H3" := OrDefault(obf, "h3", 0), "AWG_H4" := OrDefault(obf, "h4", 0)]
  }

  // ---- files as lines ----

  // readlines(): each line keeps its line feed; only the last may lack one.
  function Lines(s: string): seq<string>
    decreases |s|
  {
    var i := IndexOf(s, '\n');
    if s == "" then [] else if i == |s| then [s] else [s[..i + 1]] + Lines(s[i + 1..])
  }

  // writelines()
  function Concat(lines: seq<string>): string {
    if lines == [] then "" else lines[0] + Concat(lines[1..])
  }

  predicate Terminated(line: string) {
    line != "" && line[|line| - 1] == '\n'
  }

  // At most one line feed, and only at the end.
  ghost predicate IsLine(line: string) {
    line != "" && '\n' !in line[..|line| - 1]
  }

  ghost predicate Lined(lines: seq<string>) {
    forall i :: 0 <= i < |lines| ==> IsLine(lines[i]) && (i < |lines| - 1 ==> Terminated(lines[i]))
  }

  lemma {:induction false} LinesAfter(first: string, rest: string)
    requires IsLine(first) && Terminated(first)
    ensures Lines(first + rest) == [first] + Lines(rest)
  {
    hide IndexOf;
    var s := first + rest;
    assert s[|first| - 1] == '\n' && s[..|first| - 1] == first[..|first| - 1];
    IndexOfIs(s, '\n', |first| - 1);
    assert s[..|first|] == first && s[|first|..] == rest;
  }

  lemma {:induction false} LinesOfOne(line: string)
    requires IsLine(line) && !Terminated(line)
    ensures Lines(line) == [line]
  {
    assert line == line[..|line| - 1] + [line[|line| - 1]];
  }

  lemma {:induction false} LinesOfConcat(lines: seq<string>)
    requires Lined(lines)
    ensures Lines(Concat(lines)) == lines
  {
    hide Lines, Terminated, IsLine;
    if lines == [] {
      NoLines();
    } else {
      LinesOfConcat(lines[1..]);
      if Terminated(lines[0]) {
        LinesAfter(lines[0], Concat(lines[1..]));
      } else {
        assert lines == [lines[0]] && Concat(lines[1..]) == "";
        assert Concat(lines) == lines[0];
        LinesOfOne(lines[0]);
      }
    }
  }

  lemma {:induction false} NoLines()
    ensures Lines("") == []
  {
  }

  // The lines of a file keep its text.
  lemma {:induction false} ConcatOfLines(s: string)
    ensures Concat(Lines(s)) == s
    decreases |s|
  {
    hide IndexOf;
    var i := IndexOf(s, '\n');
    if s == "" {
    } else if i == |s| {
      assert Concat([s]) == s + "";
    } else {
      ConcatOfLines(s[i + 1..]);
      assert s == s[..i + 1] + s[i + 1..];
    }
  }

  lemma {:induction false} FirstIsLine(s: string, i: nat)
    requires i <= |s| && '\n' !in s[..i] && s != "" && (i < |s| ==> s[i] == '\n')
    ensures i == |s| ==> IsLine(s) && !Terminated(s)
    ensures i < |s| ==> IsLine(s[..i + 1]) && Terminated(s[..i + 1])
  {
    if i == |s| {
      assert s[|s| - 1] in s[..i];
    } else {
      assert s[..i + 1][..i] == s[..i];
    }
  }

  // Lines in which only the last may lack its line feed, and it does exactly when `ended` is false.
  ghost predicate LinedTo(lines: seq<string>, ended: bool) {
    Lined(lines) && (lines != [] ==> (Terminated(lines[|lines| - 1]) <==> ended))
  }

  lemma {:induction false} LinedCons(first: string, rest: seq<string>, ended: bool)
    requires IsLine(first) && Terminated(first) && LinedTo(rest, ended) && (rest == [] ==> ended)
    ensures LinedTo([first] + rest, ended)
  {
  }

  lemma {:induction false} LinesLined(s: string)
    ensures LinedTo(Lines(s), Terminated(s)) && (s != "" ==> Lines(s) != [])
    decreases |s|
  {
    hide IndexOf;
    if s != "" {
      var i := IndexOf(s, '\n');
      FirstIsLine(s, i);
      if i == |s| {
        assert Lines(s) == [s];
      } else {
        var first, rest := s[..i + 1], s[i + 1..];
        LinesLined(rest);
        RestTerminated(s, i + 1);
        LinedCons(first, Lines(rest), Terminated(s));
      }
    }
  }

  lemma {:induction false} RestTerminated(s: string, n: nat)
    requires 0 < n <= |s|
    ensures if n < |s| then Terminated(s[n..]) <==> Terminated(s) else Terminated(s[..n]) <==> Terminated(s)
  {
  }

  // ---- managed lines ----

  // The managed key a line sets: the text before its first '='.
  function KeyOfLine(line: string, want: Want): (r: Option<string>)
    ensures r.Some? ==> r.value in want && '=' in line
  {
    var i := IndexOf(line, '=');
    if i < |line| && line[..i] in want then Some(line[..i]) else None
  }

  // The inner loop over the managed keys, in any order, finds the same key.
  method FindKey(line: string, want: Want) returns (r: Option<string>)
    ensures r == KeyOfLine(line, want)
  {
    var keys := want.Keys;
    while keys != {}
      invariant keys <= want.Keys
      invariant forall k :: k in want && k !in keys ==> !StartsWith(line, k + "=")
      decreases keys
    {
      var k :| k in keys;
      if StartsWith(line, k + "=") {
        PrefixIsKey(line, k, want);
        return Some(k);
      }
      keys := keys - {k};
    }
    if KeyOfLine(line, want).Some? {
      KeyIsPrefix(line, want);
    }
    r := None;
  }

  lemma {:induction false} KeyIsPrefix(line: string, want: Want)
    requires KeyOfLine(line, want).Some?
    ensures StartsWith(line, KeyOfLine(line, want).value + "=")
  {
    var k := KeyOfLine(line, want).value;
    assert line[..|k| + 1] == k + "=";
  }

  lemma {:induction false} PrefixIsKey(line: string, k: string, want: Want)
    requires k in want && StartsWith(line, k + "=")
    ensures KeyOfLine(line, want) == Some(k) && IndexOf(line, '=') == |k|
  {
    assert line[|k|] == (k + "=")[|k|] && line[..|k|] == (k + "=")[..|k|] == k;
    IndexOfIs(line, '=', |k|);
  }

  // int(line.split("=", 1)[1].strip().split("#")[0].strip()); None is ValueError.
  function ReadValue(line: string): Option<int>
    requires '=' in line
  {
    var value := Strip(line[IndexOf(line, '=') + 1..]);
    ParseInt(Strip(value[..IndexOf(value, '#')]))
  }

  // The values the file sets: a later readable line wins, an unreadable one is ignored.
  function Current(lines: seq<string>, want: Want): map<string, int> {
    if lines == [] then map[]
    else
      var before, line := Current(lines[..|lines| - 1], want), lines[|lines| - 1];
      if KeyOfLine(line, want).Some? && ReadValue(line).Some?
      then before[KeyOfLine(line, want).value := ReadValue(line).value] else before
  }

  function EnvLine(k: string, v: int): string {
    k + "=" + IntText(v) + "\n"
  }

  lemma {:induction false} EnvLineShape(k: string, v: int, want: Want)
    requires k in want
    ensures var line := EnvLine(k, v);
            IsLine(line) && Terminated(line) && KeyOfLine(line, want) == Some(k) && IndexOf(line, '=') == |k|
  {
    var line := EnvLine(k, v);
    assert line[..|k| + 1] == k + "=";
    PrefixIsKey(line, k, want);
    assert line[..|line| - 1] == k + "=" + IntText(v);
  }

  lemma {:induction false} EnvLineReads(k: string, v: int, want: Want)
    requires k in want
    ensures var line := EnvLine(k, v);
            IsLine(line) && Terminated(line) && KeyOfLine(line, want) == Some(k) && ReadValue(line) == Some(v)
  {
    hide KeyOfLine, IndexOf, Strip, ParseInt, IntText;
    var line, value := EnvLine(k, v), IntText(v);
    EnvLineShape(k, v, want);
    assert line[|k| + 1..] == "" + value + "\n";
    StripUnique("", value, "\n");
    assert value[..|value|] == value;
    StripOfTrimmed(value);
    ParseIntText(v);
  }

  // ---- the rewrite ----

  function Replaced(lines: seq<string>, want: Want): (r: seq<string>)
    ensures |r| == |lines|
    ensures forall i :: 0 <= i < |lines| ==>
              r[i] == match KeyOfLine(lines[i], want) case Some(k) => EnvLine(k, want[k]) case None => lines[i]
  {
    seq(|lines|, i requires 0 <= i < |lines| =>
      match KeyOfLine(lines[i], want) case Some(k) => EnvLine(k, want[k]) case None => lines[i])
  }

  ghost predicate HasKey(lines: seq<string>, k: string, want: Want) {
    exists i :: 0 <= i < |lines| && KeyOfLine(lines[i], want) == Some(k)
  }

  ghost predicate IsMissing(lines: seq<string>, k: string, want: Want) {
    k in want && !HasKey(lines, k, want)
  }

  // An order in which the missing keys may be appended.
  ghost predicate IsOrder(order: seq<string>, lines: seq<string>, want: Want) {
    Distinct(order) && forall k :: k in order <==> IsMissing(lines, k, want)
  }

  function Appended(order: seq<string>, want: Want): (r: seq<string>)
    requires forall k :: k in order ==> k in want
    ensures |r| == |order| && forall i :: 0 <= i < |order| ==> r[i] == EnvLine(order[i], want[order[i]])
  {
    seq(|order|, i requires 0 <= i < |order| => EnvLine(order[i], want[order[i]]))
  }

  ghost function Rewritten(lines: seq<string>, want: Want, order: seq<string>): seq<string>
    requires IsOrder(order, lines, want)
  {
    Replaced(lines, want) + Appended(order, want)
  }

  class File {
    var content: string
    var restarts: nat  // restart commands issued for the container
    const readable: bool
    const writable: bool

    constructor (content: string, readable: bool, writable: bool)
      ensures this.content == content && restarts == 0
      ensures this.readable == readable && this.writable == writable
    {
      this.content, this.restarts, this.readable, this.writable := content, 0, readable, writable;
    }

    /** Reads the file, returns early when it already holds the wanted values, else rewrites it and restarts. */
    method Apply(want: Want) returns (ghost order: seq<string>)
      modifies this
      ensures var lines := Lines(old(content));
              if !readable || Current(lines, want) == want || !writable
              then content == old(content) && restarts == old(restarts)
              else IsOrder(order, lines, want) && content == Concat(Rewritten(lines, want, order)) &&
                   restarts == old(restarts) + 1
      ensures readable && writable && SafeEnd(old(content), want) ==> Current(Lines(content), want) == want
      ensures restarts >= old(restarts) && Called(old(content), content, restarts - old(restarts), want)
    {
      hide Current, Lines, Concat, Rewritten, IsOrder, SafeEnd, Called;
      order := [];
      CalledIdly(content, want);
      if !readable {
        return;
      }
      var lines := Lines(content);
      var current := ReadCurrent(lines, want);
      if current == want {
        return;
      }
      var out, missing := ReplaceLines(lines, want);
      out, order := AppendMissing(lines, out, missing, want);
      if writable {
        RewriteConvergesExactlyWhen(content, want, order);
        CalledOnce(content, want, order);
        content := Concat(out);
        restarts := restarts + 1;
      }
    }
  }

  method ReadCurrent(lines: seq<string>, want: Want) returns (current: map<string, int>)
    ensures current == Current(lines, want)
  {
    hide KeyOfLine, ReadValue;
    current := map[];
    var i := 0;
    while i < |lines|
      invariant 0 <= i <= |lines| && current == Current(lines[..i], want)
    {
      assert lines[..i + 1][..i] == lines[..i] && lines[..i + 1][i] == lines[i];
      var key := FindKey(lines[i], want);
      if key.Some? {
        var value := ReadValue(lines[i]);
        if value.Some? {
          current := current[key.value := value.value];
        }
      }
      i := i + 1;
    }
    assert lines[..i] == lines;
  }

  // Fills out line by line, shrinking the set of keys not seen yet.
  method ReplaceLines(lines: seq<string>, want: Want) returns (out: seq<string>, seen: set<string>)
    ensures out == Replaced(lines, want)
    ensures forall k :: k in seen <==> IsMissing(lines, k, want)
  {
    hide KeyOfLine, EnvLine, ReadValue;
    out := [];
    seen := want.Keys;
    var i := 0;
    while i < |lines|
      invariant 0 <= i <= |lines| && out == Replaced(lines[..i], want)
      invariant forall k :: k in seen <==> IsMissing(lines[..i], k, want)
    {
      var key := FindKey(lines[i], want);
      forall k
        ensures HasKey(lines[..i + 1], k, want) <==> HasKey(lines[..i], k, want) || KeyOfLine(lines[i], want) == Some(k)
      {
        HasKeyStep(lines, i, k, want);
      }
      ReplacedStep(lines, want, i);
      if key.Some? {
        out := out + [EnvLine(key.value, want[key.value])];
        seen := seen - {key.value};
      } else {
        out := out + [lines[i]];
      }
      i := i + 1;
    }
    assert lines[..i] == lines;
  }

  lemma {:induction false} ReplacedStep(lines: seq<string>, want: Want, i: nat)
    requires i < |lines|
    ensures Replaced(lines[..i + 1], want) == Replaced(lines[..i], want) +
              [match KeyOfLine(lines[i], want) case Some(k) => EnvLine(k, want[k]) case None => lines[i]]
  {
    hide KeyOfLine, EnvLine, Replaced;
  }

  // Appends the keys not seen, in some order.
  method AppendMissing(lines: seq<string>, replaced: seq<string>, missing: set<string>, want: Want)
    returns (out: seq<string>, ghost order: seq<string>)
    requires replaced == Replaced(lines, want) && forall k :: k in missing <==> IsMissing(lines, k, want)
    ensures IsOrder(order, lines, want) && out == Rewritten(lines, want, order)
  {
    hide KeyOfLine, EnvLine, ReadValue;
    out := replaced;
    order := [];
    var seen := missing;
    while seen != {}
      invariant Distinct(order) && forall k :: k in missing <==> k in order || k in seen
      invariant forall k :: k in order ==> k !in seen && k in want
      invariant out == replaced + Appended(order, want)
      decreases seen
    {
      var key :| key in seen;
      assert IsMissing(lines, key, want);
      AppendedStep(order, key, want);
      out := out + [EnvLine(key, want[key])];
      order := order + [key];
      seen := seen - {key};
    }
  }

  lemma {:induction false} HasKeyStep(lines: seq<string>, i: nat, k: string, want: Want)
    requires i < |lines|
    ensures HasKey(lines[..i + 1], k, want) <==> HasKey(lines[..i], k, want) || KeyOfLine(lines[i], want) == Some(k)
  {
    if HasKey(lines[..i], k, want) {
      var j :| 0 <= j < i && KeyOfLine(lines[..i][j], want) == Some(k);
      assert KeyOfLine(lines[..i + 1][j], want) == Some(k);
    }
    if KeyOfLine(lines[i], want) == Some(k) {
      assert KeyOfLine(lines[..i + 1][i], want) == Some(k);
    }
    if HasKey(lines[..i + 1], k, want) {
      var j :| 0 <= j < i + 1 && KeyOfLine(lines[..i + 1][j], want) == Some(k);
      assert j < i ==> KeyOfLine(lines[..i][j], want) == Some(k);
    }
  }

  lemma {:induction false} AppendedStep(order: seq<string>, key: string, want: Want)
    requires (forall k :: k in order ==> k in want) && key in want
    ensures Appended(order + [key], want) == Appended(order, want) + [EnvLine(key, want[key])]
  {
  }

  // ---- convergence ----

  ghost predicate LastManaged(lines: seq<string>, want: Want) {
    lines != [] && KeyOfLine(lines[|lines| - 1], want).Some?
  }

  // What a caller can check before the call: appended text starts on a line of its own, or none is appended.
  ghost predicate SafeEnd(content: string, want: Want) {
    || content == "" || Terminated(content) || LastManaged(Lines(content), want)
    || (forall k :: k in want ==> HasKey(Lines(content), k, want))
  }

  function Unmanaged(lines: seq<string>, want: Want): seq<string> {
    if lines == [] then []
    else
      var front, line := Unmanaged(lines[..|lines| - 1], want), lines[|lines| - 1];
      if KeyOfLine(line, want).Some? then front else front + [line]
  }

  ghost predicate Agrees(lines: seq<string>, want: Want) {
    forall i :: 0 <= i < |lines| && KeyOfLine(lines[i], want).Some? ==>
      ReadValue(lines[i]) == Some(want[KeyOfLine(lines[i], want).value])
  }

  lemma {:induction false} CurrentOfAgreeing(lines: seq<string>, want: Want, k: string)
    requires Agrees(lines, want)
    ensures k in Current(lines, want) <==> HasKey(lines, k, want)
    ensures k in Current(lines, want) ==> k in want && Current(lines, want)[k] == want[k]
  {
    if lines != [] {
      var n := |lines| - 1;
      assert lines[..n + 1] == lines;
      HasKeyStep(lines, n, k, want);
      CurrentOfAgreeing(lines[..n], want, k);
    }
  }

  lemma {:induction false} RewrittenAgrees(lines: seq<string>, want: Want, order: seq<string>)
    requires IsOrder(order, lines, want)
    ensures Agrees(Rewritten(lines, want, order), want)
  {
    hide KeyOfLine, EnvLine, ReadValue;
    var out := Rewritten(lines, want, order);
    forall i | 0 <= i < |out| && KeyOfLine(out[i], want).Some?
      ensures ReadValue(out[i]) == Some(want[KeyOfLine(out[i], want).value])
    {
      RewrittenLine(lines, want, order, i);
    }
  }

  lemma {:induction false} RewrittenHasKey(lines: seq<string>, want: Want, order: seq<string>, k: string)
    requires IsOrder(order, lines, want) && k in want
    ensures HasKey(Rewritten(lines, want, order), k, want)
  {
    hide KeyOfLine, EnvLine, ReadValue, IsLine, Terminated, Replaced, Appended;
    var out := Rewritten(lines, want, order);
    if IsMissing(lines, k, want) {
      assert k in order;
      var j :| 0 <= j < |order| && order[j] == k;
      RewrittenLine(lines, want, order, |lines| + j);
      assert KeyOfLine(out[|lines| + j], want) == Some(k);
    } else {
      var j :| 0 <= j < |lines| && KeyOfLine(lines[j], want) == Some(k);
      RewrittenLine(lines, want, order, j);
      assert KeyOfLine(out[j], want) == Some(k);
    }
  }

  // Each rewritten line is a wanted setting or an unmanaged line of the input.
  lemma {:induction false} RewrittenLine(lines: seq<string>, want: Want, order: seq<string>, i: nat)
    requires IsOrder(order, lines, want) && i < |Rewritten(lines, want, order)|
    ensures var line := Rewritten(lines, want, order)[i];
            if i < |lines| && KeyOfLine(lines[i], want).None? then line == lines[i]
            else
              var k := if i < |lines| then KeyOfLine(lines[i], want).value else order[i - |lines|];
              k in want && line == EnvLine(k, want[k]) && KeyOfLine(line, want) == Some(k) &&
              ReadValue(line) == Some(want[k]) && IsLine(line) && Terminated(line)
  {
    hide KeyOfLine, EnvLine, ReadValue, IsLine, Terminated, Replaced, Appended;
    if i >= |lines| {
      assert order[i - |lines|] in order;
      EnvLineReads(order[i - |lines|], want[order[i - |lines|]], want);
    } else if KeyOfLine(lines[i], want).Some? {
      EnvLineReads(KeyOfLine(lines[i], want).value, want[KeyOfLine(lines[i], want).value], want);
    }
  }

  lemma {:induction false} RewrittenLined(content: string, want: Want, order: seq<string>)
    requires IsOrder(order, Lines(content), want) && SafeEnd(content, want)
    ensures Lined(Rewritten(Lines(content), want, order))
  {
    var lines := Lines(content);
    var out := Rewritten(lines, want, order);
    LinesLined(content);
    forall i | 0 <= i < |out| ensures IsLine(out[i]) && (i < |out| - 1 ==> Terminated(out[i])) {
      RewrittenLine(lines, want, order, i);
      if i == |lines| - 1 && i < |out| - 1 {
        assert order[0] in order && IsMissing(lines, order[0], want);
      }
    }
  }

  lemma {:induction false} UnmanagedReplaced(lines: seq<string>, want: Want)
    ensures Unmanaged(Replaced(lines, want), want) == Unmanaged(lines, want)
  {
    if lines != [] {
      var n := |lines| - 1;
      UnmanagedReplaced(lines[..n], want);
      assert Replaced(lines, want)[..n] == Replaced(lines[..n], want);
      if KeyOfLine(lines[n], want).Some? {
        EnvLineReads(KeyOfLine(lines[n], want).value, want[KeyOfLine(lines[n], want).value], want);
      }
    }
  }

  lemma {:induction false} UnmanagedExtra(lines: seq<string>, more: seq<string>, want: Want)
    requires forall i :: 0 <= i < |more| ==> KeyOfLine(more[i], want).Some?
    ensures Unmanaged(lines + more, want) == Unmanaged(lines, want)
  {
    if more == [] {
      assert lines + more == lines;
    } else {
      var n := |more| - 1;
      assert (lines + more)[..|lines| + n] == lines + more[..n];
      UnmanagedExtra(lines, more[..n], want);
    }
  }

  // What a call may do: nothing, when it need not or cannot; otherwise rewrite the file and restart once.
  ghost predicate Called(before: string, after: string, restarts: nat, want: Want) {
    || (after == before && restarts == 0)
    || (restarts == 1 && Current(Lines(before), want) != want && exists order :: Rewrites(before, after, want, order))
  }

  lemma {:induction false} CalledIdly(content: string, want: Want)
    ensures Called(content, content, 0, want)
  {
  }

  lemma {:induction false} CalledOnce(before: string, want: Want, order: seq<string>)
    requires IsOrder(order, Lines(before), want) && Current(Lines(before), want) != want
    ensures Called(before, Concat(Rewritten(Lines(before), want, order)), 1, want)
  {
    hide Current, Lines, Concat, Rewritten, IsOrder;
    assert Rewrites(before, Concat(Rewritten(Lines(before), want, order)), want, order);
  }

  ghost predicate Rewrites(before: string, after: string, want: Want, order: seq<string>) {
    IsOrder(order, Lines(before), want) && after == Concat(Rewritten(Lines(before), want, order))
  }

  /** After a rewrite every managed key reads back as wanted, for any order of appending, exactly when the end of the
      file is safe; a second call then returns early, since it compares the same two maps. */
  lemma {:induction false} RewriteConvergesExactlyWhen(content: string, want: Want, order: seq<string>)
    requires IsOrder(order, Lines(content), want)
    ensures Current(Lines(Concat(Rewritten(Lines(content), want, order))), want) == want <==> SafeEnd(content, want)
  {
    if SafeEnd(content, want) {
      SafeRewriteReads(content, want, order);
    } else {
      MergedLineLoses(content, want, order);
    }
  }

  lemma {:induction false} SafeRewriteReads(content: string, want: Want, order: seq<string>)
    requires IsOrder(order, Lines(content), want) && SafeEnd(content, want)
    ensures Current(Lines(Concat(Rewritten(Lines(content), want, order))), want) == want
  {
    var out := Rewritten(Lines(content), want, order);
    RewrittenLined(content, want, order);
    LinesOfConcat(out);
    RewrittenAgrees(Lines(content), want, order);
    forall k | k in want ensures HasKey(out, k, want) {
      RewrittenHasKey(Lines(content), want, order, k);
    }
    AgreeingIsWanted(out, want);
  }

  lemma {:induction false} AgreeingIsWanted(lines: seq<string>, want: Want)
    requires Agrees(lines, want) && forall k :: k in want ==> HasKey(lines, k, want)
    ensures Current(lines, want) == want
  {
    hide Agrees, Current, HasKey;
    forall k ensures k in Current(lines, want) <==> k in want
      ensures k in want ==> Current(lines, want)[k] == want[k]
    {
      CurrentOfAgreeing(lines, want, k);
    }
  }

  /** And all other lines keep their text and order. */
  lemma {:induction false} RewriteKeepsOtherLines(content: string, want: Want, order: seq<string>)
    requires IsOrder(order, Lines(content), want) && SafeEnd(content, want)
    ensures Unmanaged(Lines(Concat(Rewritten(Lines(content), want, order))), want) == Unmanaged(Lines(content), want)
  {
    RewrittenLined(content, want, order);
    LinesOfConcat(Rewritten(Lines(content), want, order));
    UnmanagedReplaced(Lines(content), want);
    forall i | 0 <= i < |order| ensures KeyOfLine(Appended(order, want)[i], want).Some? {
      assert order[i] in order;
      EnvLineReads(order[i], want[order[i]], want);
    }
    UnmanagedExtra(Replaced(Lines(content), want), Appended(order, want), want);
  }

  // A setting written behind an unmanaged line's text is not a setting: no managed key holds a second 'A'.
  lemma {:induction false} MergedUnmanaged(last: string, k: string, v: int, want: Want)
    requires last != "" && KeyOfLine(last, want).None? && k in want
    ensures KeyOfLine(last + EnvLine(k, v), want).None?
  {
    hide IndexOf;
    var line := last + EnvLine(k, v);
    if '=' in last {
      var i := IndexOf(last, '=');
      assert line[..i] == last[..i];
      IndexOfIs(line, '=', i);
    } else {
      assert line[..|last| + |k|] == last + k;
      IndexOfIs(line, '=', |last| + |k|);
      assert (last + k)[|last|] == 'A';
    }
  }

  // With an unsafe end the first appended key joins the last line and is lost.
  lemma {:induction false} MergedLineLoses(content: string, want: Want, order: seq<string>)
    requires IsOrder(order, Lines(content), want) && !SafeEnd(content, want)
    ensures order != [] && order[0] in want
    ensures order[0] !in Current(Lines(Concat(Rewritten(Lines(content), want, order))), want)
  {
    hide KeyOfLine, EnvLine, ReadValue;
    var lines := Lines(content);
    LinesLined(content);
    var n := |lines| - 1;
    var k :| k in want && !HasKey(lines, k, want);
    assert k in order;
    var first := order[0];
    assert first in order && IsMissing(lines, first, want);
    var out := Rewritten(lines, want, order);
    var merged := out[..n] + [out[n] + out[n + 1]] + out[n + 2..];
    RewrittenLine(lines, want, order, n);
    RewrittenLine(lines, want, order, n + 1);
    ConcatMerge(out, n);
    MergedUnmanaged(lines[n], first, want[first], want);
    forall i | 0 <= i < |merged|
      ensures IsLine(merged[i]) && (i < |merged| - 1 ==> Terminated(merged[i]))
      ensures KeyOfLine(merged[i], want) != Some(first)
    {
      MergedLine(lines, want, order, i);
    }
    LinesOfConcat(merged);
    NotRead(merged, first, want);
  }

  lemma {:induction false} MergedLine(lines: seq<string>, want: Want, order: seq<string>, i: nat)
    requires IsOrder(order, lines, want) && order != [] && Lined(lines) && lines != []
    requires !Terminated(lines[|lines| - 1]) && KeyOfLine(lines[|lines| - 1], want).None?
    requires order[0] in want && KeyOfLine(lines[|lines| - 1] + EnvLine(order[0], want[order[0]]), want).None?
    ensures var n, out := |lines| - 1, Rewritten(lines, want, order);
            var merged := out[..n] + [out[n] + out[n + 1]] + out[n + 2..];
            i < |merged| ==>
              IsLine(merged[i]) && (i < |merged| - 1 ==> Terminated(merged[i])) &&
              KeyOfLine(merged[i], want) != Some(order[0])
  {
    hide KeyOfLine, EnvLine, ReadValue;
    var n, out := |lines| - 1, Rewritten(lines, want, order);
    var merged := out[..n] + [out[n] + out[n + 1]] + out[n + 2..];
    if i < n {
      RewrittenLine(lines, want, order, i);
      assert IsMissing(lines, order[0], want);
    } else if i == n {
      EnvLineReads(order[0], want[order[0]], want);
      RewrittenLine(lines, want, order, n);
      RewrittenLine(lines, want, order, n + 1);
      MergedIsLine(lines[n], out[n + 1]);
    } else if i < |merged| {
      RewrittenLine(lines, want, order, i + 1);
      assert merged[i] == out[i + 1] && order[i - n] != order[0];
    }
  }

  lemma {:induction false} MergedIsLine(a: string, b: string)
    requires IsLine(a) && !Terminated(a) && IsLine(b) && Terminated(b)
    ensures IsLine(a + b) && Terminated(a + b)
  {
    assert (a + b)[..|a + b| - 1] == a[..|a| - 1] + [a[|a| - 1]] + b[..|b| - 1];
  }

  lemma {:induction false} ConcatMerge(out: seq<string>, n: nat)
    requires n + 1 < |out|
    ensures Concat(out[..n] + [out[n] + out[n + 1]] + out[n + 2..]) == Concat(out)
  {
    var merged := out[..n] + [out[n] + out[n + 1]] + out[n + 2..];
    if n == 0 {
      assert merged[1..] == out[2..] == out[1..][1..];
      assert out[0] + out[1] + Concat(out[2..]) == out[0] + (out[1] + Concat(out[2..]));
    } else {
      ConcatMerge(out[1..], n - 1);
      assert merged[1..] == out[1..][..n - 1] + [out[1..][n - 1] + out[1..][n]] + out[1..][n + 1..];
    }
  }

  lemma {:induction false} NotRead(lines: seq<string>, k: string, want: Want)
    requires forall i :: 0 <= i < |lines| ==> KeyOfLine(lines[i], want) != Some(k)
    ensures k !in Current(lines, want)
  {
    if lines != [] {
      NotRead(lines[..|lines| - 1], k, want);
    }
  }
}

/** What the reader makes of any text, not only of a built one. */
module ConfigReading {
  import opened Text
  import opened Numerals
  import opened ConfigParser
  import opened ParseBack

  // ---- lines ----

  /** Blank lines and comments say nothing, however they are indented. */
  lemma {:induction false} CommentIgnored(c: Conf, a: string, rest: string)
    requires c.Valid() && Blank(a) && (rest == "" || rest[0] == '#' || rest[0] == ';')
    ensures ReadLine(c, a + rest) == Ok(c)
  {
    hide Strip, IsSpace;
    MarksNoSpace();
    StripOfIndented(a, rest);
  }

  lemma {:induction false} MarksNoSpace()
    ensures !IsSpace('#') && !IsSpace(';') && !IsSpace('[') && !IsSpace(']') && !IsSpace('=') && !IsSpace(':')
  {
  }

  lemma {:induction false} StripOfIndented(a: string, rest: string)
    requires Blank(a) && (rest == "" || !IsSpace(rest[0]))
    ensures rest == "" ==> Strip(a + rest) == ""
    ensures rest != "" ==> Strip(a + rest) == RStrip(rest) && RStrip(rest) != "" && RStrip(rest)[0] == rest[0]
  {
    hide IsSpace;
    LStripUnique(a, rest);
    if rest != "" {
      RStripKeepsFirst(rest);
    }
  }

  lemma {:induction false} RStripKeepsFirst(s: string)
    requires s != "" && !IsSpace(s[0])
    ensures RStrip(s) != "" && RStrip(s)[0] == s[0]
  {
    if |s| > 1 && IsSpace(s[|s| - 1]) {
      RStripKeepsFirst(s[..|s| - 1]);
    }
  }

  // A name of at least one character that cannot be taken for a header or a comment.
  ghost predicate Name(k: string) {
    && k != "" && Trimmed(k) && '=' !in k && ':' !in k && k[0] != '#' && k[0] != ';' && k[0] != '['
  }

  // What a setting does to the open section.
  function Set(c: Conf, k: string, value: string): Result<Conf, ReadError>
    requires c.Valid()
  {
    match c.current
    case None => Err(NoSection)
    case Some(name) =>
      if k in c.sections[name] then Err(DuplicateOption)
      else Ok(Conf(c.sections[name := c.sections[name][k := value]], c.current))
  }

  /** A name, '=' or ':', and a value set the name to the value without the blanks around it. */
  lemma {:induction false} SettingReads(c: Conf, k: string, gap: string, d: char, value: string)
    requires c.Valid() && Name(k) && Blank(gap) && (d == '=' || d == ':')
    ensures ReadLine(c, k + gap + [d] + value) == Set(c, k, Strip(value))
  {
    hide Strip, RStrip, IndexOf, IsSpace, LStrip;
    var line := k + gap + [d] + value;
    MarksNoSpace();
    SettingStripped(k + gap, d, value);
    var head := k + gap;
    var s := head + [d] + RStrip(value);
    assert line == head + [d] + value;
    assert s[0] == k[0] && line[0] == k[0];
    BlanksDelimit(head, k, gap, d, RStrip(value));
    RStripUnique(k, gap);
    assert s[..|head|] == head && s[|head| + 1..] == RStrip(value);
    StripOfRStrip(value);
  }

  lemma {:induction false} SettingStripped(head: string, d: char, value: string)
    requires head != "" && !IsSpace(head[0]) && !IsSpace(d)
    ensures Strip(head + [d] + value) == head + [d] + RStrip(value)
  {
    hide Strip, RStrip, IsSpace, LStrip;
    var b := RStripPart(value);
    var m := head + [d] + RStrip(value);
    assert head + [d] + value == "" + m + b;
    assert Trimmed(m) by { RStripEnds(value); }
    StripUnique("", m, b);
  }

  lemma {:induction false} RStripEnds(s: string)
    ensures RStrip(s) == "" || !IsSpace(RStrip(s)[|RStrip(s)| - 1])
  {
  }

  lemma {:induction false} StripOfRStrip(s: string)
    ensures Strip(RStrip(s)) == Strip(s)
  {
    hide Strip, RStrip;
    var b := RStripPart(s);
    var x, y := StripParts(RStrip(s));
    StripTrims(RStrip(s));
    assert s == x + Strip(RStrip(s)) + (y + b);
    assert Blank(y + b) by { BlankConcat(y, b); }
    StripUnique(x, Strip(RStrip(s)), y + b);
  }

  lemma {:induction false} BlankConcat(a: string, b: string)
    requires Blank(a) && Blank(b)
    ensures Blank(a + b)
  {
    hide IsSpace;
  }

  lemma {:induction false} BlanksDelimit(head: string, k: string, gap: string, d: char, rest: string)
    requires head == k + gap && '=' !in k && ':' !in k && Blank(gap) && (d == '=' || d == ':')
    ensures DelimiterIndex(head + [d] + rest) == |head|
  {
    hide IndexOf, IsSpace;
    var s := head + [d] + rest;
    MarksNoSpace();
    assert '=' !in head && ':' !in head;
    assert s[..|head|] == head && s[|head|] == d;
    IndexOfIs(s, d, |head|);
    assert forall i :: 0 <= i < |head| ==> s[i] == head[i] && head[i] in head;
  }

  // ---- the endpoint ----

  /** An endpoint without a colon is all host, with the default port. */
  lemma {:induction false} NoColonIsHost(endpoint: string)
    requires ':' !in endpoint
    ensures HostOf(endpoint) == Strip(endpoint) && PortOf(endpoint) == 51820
  {
    ParseIntText(51820);
    DefaultPortText();
  }

  lemma {:induction false} DefaultPortText()
    ensures IntText(51820) == "51820"
  {
    assert NatText(5) == "5" && NatText(51) == "51" && NatText(518) == "518" && NatText(5182) == "5182";
  }

  /** Else host and port stand around the last colon; a blank port is the default and one that is no integer is 0. */
  lemma {:induction false} ColonSplits(host: string, port: string)
    requires ':' !in port
    ensures HostOf(host + ":" + port) == Strip(host)
    ensures PortOf(host + ":" + port) ==
              if Blank(port) then 51820 else if ParseInt(port).Some? then ParseInt(port).value else 0
  {
    hide Strip, LastIndexOf, ParseSigned;
    var s := host + ":" + port;
    assert s[|host|] == ':' && s[|host| + 1..] == port && s[..|host|] == host;
    LastIndexIs(s, ':', |host|);
    StripEmptyIsBlank(port);
    StripStrip(port);
    DefaultPortText();
    ParseIntText(51820);
  }

  // ---- the fields ----

  /** The parameters that are read are exactly the listed ones with a value that is not blank, stripped. */
  lemma {:induction false} ExtrasExactly(keys: seq<string>, s: Section)
    ensures forall k :: k in Extras(keys, s) <==> (k in keys && k in s && !Blank(s[k]))
    ensures forall k :: k in Extras(keys, s) ==> k in s && Extras(keys, s)[k] == Strip(s[k])
  {
    hide Strip, Blank;
    if keys != [] {
      var front, last := keys[..|keys| - 1], keys[|keys| - 1];
      ExtrasExactly(front, s);
      assert keys == front + [last];
      if last in s {
        StripEmptyIsBlank(s[last]);
      }
    }
  }

  /** The sixteen parameter names. */
  lemma {:induction false} ParameterNames(k: string)
    ensures k in AWG_KEYS <==>
              k in {"Jc", "Jmin", "Jmax", "S1", "S2", "S3", "S4", "I1", "I2", "I3", "I4", "I5", "H1", "H2", "H3", "H4"}
  {
  }

  // The n-th nonblank part, stripped, stands at position at[n].
  ghost predicate NonblankPositions(parts: seq<string>, at: seq<nat>) {
    && (forall i, j :: 0 <= i < j < |at| ==> at[i] < at[j])
    && (forall i :: 0 <= i < |at| ==> at[i] < |parts| && !Blank(parts[at[i]]))
    && (forall p :: 0 <= p < |parts| && !Blank(parts[p]) ==> p in at)
  }

  lemma {:induction false} NonblankStep(parts: seq<string>, last: string, front: seq<nat>)
    requires NonblankPositions(parts, front)
    ensures NonblankPositions(parts + [last], if Blank(last) then front else front + [|parts|])
  {
    hide Blank;
    var n, all := |parts|, parts + [last];
    var at := if Blank(last) then front else front + [n];
    assert forall i :: 0 <= i < |front| ==> at[i] == front[i];
    forall i | 0 <= i < |at| ensures at[i] < |all| && !Blank(all[at[i]]) {
      if i < |front| {
        assert all[front[i]] == parts[front[i]];
      }
    }
    forall p | 0 <= p < |all| && !Blank(all[p]) ensures p in at {
      if p < n {
        assert all[p] == parts[p];
        var i :| 0 <= i < |front| && front[i] == p;
        assert at[i] == p;
      } else {
        assert at[|at| - 1] == n;
      }
    }
  }

  lemma {:induction false} NonblankInRange(parts: seq<string>, at: seq<nat>)
    requires NonblankPositions(parts, at)
    ensures forall i :: 0 <= i < |at| ==> at[i] < |parts|
  {
  }

  lemma {:induction false} ItemsStep(parts: seq<string>)
    requires parts != []
    ensures var n := |parts| - 1;
            Items(parts) == Items(parts[..n]) + if Blank(parts[n]) then [] else [Strip(parts[n])]
  {
    hide Strip, Blank;
    StripEmptyIsBlank(parts[|parts| - 1]);
  }

  lemma {:induction false} NoItems()
    ensures NonblankPositions([], []) && Items([]) == []
  {
  }

  /** The items of a list are its nonblank parts, stripped, in order. */
  lemma {:induction false} ItemsExactly(parts: seq<string>) returns (at: seq<nat>)
    ensures NonblankPositions(parts, at) && |Items(parts)| == |at|
    ensures forall i :: 0 <= i < |at| ==> at[i] < |parts| && Items(parts)[i] == Strip(parts[at[i]])
  {
    hide Strip, Blank, Items, NonblankPositions;
    if parts == [] {
      at := [];
      NoItems();
    } else {
      var n := |parts| - 1;
      var front := ItemsExactly(parts[..n]);
      ItemsStep(parts);
      assert parts == parts[..n] + [parts[n]];
      NonblankStep(parts[..n], parts[n], front);
      at := if Blank(parts[n]) then front else front + [n];
      assert forall i :: 0 <= i < |front| ==> parts[..n][front[i]] == parts[front[i]];
      NonblankInRange(parts, at);
    }
  }
}

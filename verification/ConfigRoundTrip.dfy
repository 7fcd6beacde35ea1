/** Reading a built config gives back what was printed into it. */
module ConfigRoundTrip {
  import opened Text
  import opened Numerals
  import opened OrderedDict
  import opened Obfuscation
  import opened ObfuscationProofs
  import opened ConfigBuilder
  import opened ConfigParser

  // ---- reading printed lines ----

  // A key the printer uses: an upper-case letter, then letters and digits.
  predicate PlainKey(k: string) {
    k != "" && IsLetter(k[0]) && forall i :: 0 <= i < |k| ==> IsAlnum(k[i])
  }

  lemma {:induction false} PlainKeyFacts(k: string)
    requires PlainKey(k)
    ensures '=' !in k && ':' !in k && '\n' !in k && '#' !in k && ';' !in k && !IsSpace(k[|k| - 1])
  {
    assert IsAlnum(k[|k| - 1]);
  }

  predicate IsLetter(c: char) {
    'A' <= c <= 'Z'
  }

  ghost predicate PlainKeys(kvs: seq<Kv>) {
    && (forall i :: 0 <= i < |kvs| ==> PlainKey(kvs[i].key))
    && DistinctKeys(kvs)
  }

  ghost predicate DistinctKeys(kvs: seq<Kv>) {
    forall i, j :: 0 <= i < j < |kvs| ==> kvs[i].key != kvs[j].key
  }

  // The section that key-value lines make.
  function SectionOf(kvs: seq<Kv>): Section {
    if kvs == [] then map[]
    else SectionOf(kvs[..|kvs| - 1])[kvs[|kvs| - 1].key := Strip(kvs[|kvs| - 1].value)]
  }

  // The stripped line: its key, and behind the '=' a tail that strips to the stripped value.
  lemma {:induction false} LineStripped(kv: Kv) returns (tail: string)
    requires PlainKey(kv.key)
    ensures Strip(Line(kv)) == kv.key + " =" + tail && Strip(tail) == Strip(kv.value)
  {
    hide Strip, IsSpace;
    var a, b := StripParts(kv.value);
    var v := Strip(kv.value);
    StripTrims(kv.value);
    PlainEnds(kv.key);
    SpaceIsBlank(a);
    if v == "" {
      tail := "";
      StripOfTrimmed("");
      SpaceIsBlank(kv.value) by {
        StripEmptyIsBlank(kv.value);
      }
      assert Line(kv) == "" + (kv.key + " =") + (" " + kv.value);
      StripUnique("", kv.key + " =", " " + kv.value);
    } else {
      tail := " " + a + v;
      StripUnique(" " + a, v, "");
      assert tail == " " + a + v + "";
      assert Line(kv) == "" + (kv.key + " =" + tail) + b;
      StripUnique("", kv.key + " =" + tail, b);
    }
  }

  lemma {:induction false} PlainEnds(k: string)
    requires PlainKey(k)
    ensures k != "" && !IsSpace(k[0]) && !IsSpace('=')
  {
  }

  lemma {:induction false} SpaceIsBlank(a: string)
    requires Blank(a)
    ensures Blank(" " + a)
  {
  }

  lemma {:induction false} DelimiterAfterKey(k: string, tail: string)
    requires PlainKey(k)
    ensures DelimiterIndex(k + " =" + tail) == |k| + 1 && (k + " =" + tail)[..|k| + 1] == k + " "
    ensures (k + " =" + tail)[|k| + 2..] == tail
    ensures RStrip(k + " ") == k
  {
    hide IndexOf;
    PlainKeyFacts(k);
    var s := k + " =" + tail;
    assert s[..|k| + 1] == k + " " && s[|k| + 1] == '=' && s[|k| + 2..] == tail;
    IndexOfIs(s, '=', |k| + 1);
    ColonLater(s, |k| + 1);
    RStripUnique(k, " ");
  }

  lemma {:induction false} ColonLater(s: string, n: nat)
    requires n < |s| && ':' !in s[..n + 1]
    ensures IndexOf(s, ':') > n
  {
    assert forall j :: 0 <= j <= n ==> s[j] == s[..n + 1][j];
  }

  lemma {:induction false} NotHeader(s: string)
    requires s != "" && s[0] != '['
    ensures HeaderName(s) == None
  {
  }

  // One printed line adds its key and stripped value to the current section.
  lemma {:induction false} ReadPrintedLine(c: Conf, kv: Kv)
    requires c.Valid() && c.current.Some? && PlainKey(kv.key) && kv.key !in c.sections[c.current.value]
    ensures ReadLine(c, Line(kv)) ==
            Ok(c.(sections := c.sections[c.current.value := c.sections[c.current.value][kv.key := Strip(kv.value)]]))
  {
    hide Strip, RStrip, DelimiterIndex, HeaderName;
    var tail := LineStripped(kv);
    DelimiterAfterKey(kv.key, tail);
    NotHeader(kv.key + " =" + tail);
  }

  lemma {:induction false} ReadPrintedLines(pre: seq<string>, c: Conf, kvs: seq<Kv>)
    requires ReadLines(pre) == Ok(c) && c.current.Some? && c.sections[c.current.value] == map[] && PlainKeys(kvs)
    ensures ReadLines(pre + KvLines(kvs)) == Ok(c.(sections := c.sections[c.current.value := SectionOf(kvs)]))
  {
    hide ReadLine, Line, ReadLines;
    if kvs == [] {
      assert pre + KvLines(kvs) == pre;
      assert c.sections[c.current.value := map[]] == c.sections;
    } else {
      var n := |kvs| - 1;
      var mid := c.(sections := c.sections[c.current.value := SectionOf(kvs[..n])]);
      ReadPrintedLines(pre, c, kvs[..n]);
      assert KvLines(kvs) == KvLines(kvs[..n]) + [Line(kvs[n])];
      assert pre + KvLines(kvs) == (pre + KvLines(kvs[..n])) + [Line(kvs[n])];
      ReadSnoc(pre + KvLines(kvs[..n]), Line(kvs[n]), mid);
      SectionKeys(kvs[..n]);
      ReadPrintedLine(mid, kvs[n]);
      assert c.sections[c.current.value := SectionOf(kvs[..n])][c.current.value := SectionOf(kvs)] ==
             c.sections[c.current.value := SectionOf(kvs)];
    }
  }

  lemma {:induction false} SectionKeys(kvs: seq<Kv>)
    ensures forall k :: k in SectionOf(kvs) <==> exists i :: 0 <= i < |kvs| && kvs[i].key == k
  {
    if kvs != [] {
      var n := |kvs| - 1;
      SectionKeys(kvs[..n]);
      forall k ensures k in SectionOf(kvs) <==> exists i :: 0 <= i < |kvs| && kvs[i].key == k {
        if k in SectionOf(kvs[..n]) {
          var i :| 0 <= i < n && kvs[..n][i].key == k;
          assert kvs[i].key == k;
        }
        if i :| 0 <= i < |kvs| && kvs[i].key == k {
          assert i < n ==> kvs[..n][i].key == k;
        }
      }
    }
  }

  // Looking a printed key up.
  lemma {:induction false} SectionValue(kvs: seq<Kv>, i: nat)
    requires PlainKeys(kvs) && i < |kvs|
    ensures Lookup(SectionOf(kvs), kvs[i].key) == Strip(kvs[i].value)
  {
    hide Strip;
    var n := |kvs| - 1;
    if i < n {
      SectionValue(kvs[..n], i);
    } else {
      StripTrims(kvs[n].value);
      StripOfTrimmed(Strip(kvs[n].value));
    }
  }

  lemma {:induction false} SectionNoValue(kvs: seq<Kv>, k: string)
    requires forall i :: 0 <= i < |kvs| ==> kvs[i].key != k
    ensures Lookup(SectionOf(kvs), k) == ""
  {
    SectionKeys(kvs);
  }

  lemma {:induction false} ReadHeader(c: Conf, name: string)
    requires c.Valid() && name !in c.sections && (name == "Interface" || name == "Peer")
    ensures ReadLine(c, "[" + name + "]") == Ok(Conf(c.sections[name := map[]], Some(name)))
  {
    var line := "[" + name + "]";
    StripOfTrimmed(line);
    assert line[|line| - 1] == ']' && LastIndexOf(line, ']') == Some(|line| - 1);
    assert line[1..|line| - 1] == name;
  }

  lemma {:induction false} ReadBlank(c: Conf)
    requires c.Valid()
    ensures ReadLine(c, "") == Ok(c)
  {
  }

  lemma {:induction false} ReadSnoc(pre: seq<string>, line: string, c: Conf)
    requires ReadLines(pre) == Ok(c)
    ensures ReadLines(pre + [line]) == ReadLine(c, line)
  {
    hide ReadLine;
    assert (pre + [line])[..|pre|] == pre;
  }

  /** A two-section text of printed lines reads back as its two sections. */
  lemma {:induction false} ReadTwoSections(a: seq<Kv>, b: seq<Kv>)
    requires PlainKeys(a) && PlainKeys(b)
    ensures var lines := ["[Interface]"] + KvLines(a) + ["", "[Peer]"] + KvLines(b) + [""];
            && ReadLines(lines).Ok?
            && ReadLines(lines).value.sections == map["Interface" := SectionOf(a), "Peer" := SectionOf(b)]
  {
    hide ReadLine, SectionOf, ReadLines, KvLines;
    var c0 := Conf(map[], None);
    assert ReadLines([]) == Ok(c0) by {
      NothingRead0();
    }
    ReadHeader(c0, "Interface");
    ReadSnoc([], "[" + "Interface" + "]", c0);
    assert "[" + "Interface" + "]" == "[Interface]" && "[" + "Peer" + "]" == "[Peer]";
    assert [] + ["[" + "Interface" + "]"] == ["[Interface]"];
    var c1 := Conf(map["Interface" := map[]], Some("Interface"));
    ReadPrintedLines(["[Interface]"], c1, a);
    var l2 := ["[Interface]"] + KvLines(a);
    var c2 := Conf(map["Interface" := SectionOf(a)], Some("Interface"));
    assert c1.sections["Interface" := SectionOf(a)] == c2.sections;
    ReadSnoc(l2, "", c2);
    ReadBlank(c2);
    ReadSnoc(l2 + [""], "[" + "Peer" + "]", c2);
    ReadHeader(c2, "Peer");
    var l3 := l2 + [""] + ["[Peer]"];
    assert l2 + [""] + ["[" + "Peer" + "]"] == l3;
    var c3 := Conf(c2.sections["Peer" := map[]], Some("Peer"));
    ReadPrintedLines(l3, c3, b);
    var c4 := c3.(sections := c3.sections["Peer" := SectionOf(b)]);
    ReadSnoc(l3 + KvLines(b), "", c4);
    ReadBlank(c4);
    assert l3 + KvLines(b) + [""] == ["[Interface]"] + KvLines(a) + ["", "[Peer]"] + KvLines(b) + [""];
  }

  lemma {:induction false} NothingRead0()
    ensures ReadLines([]) == Ok(Conf(map[], None))
  {
  }
}

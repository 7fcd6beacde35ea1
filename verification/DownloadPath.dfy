/** The download endpoint sanitises what the builder printed: exactly when that changes nothing. */
module DownloadPath {
  import opened Text
  import opened Numerals
  import opened Obfuscation
  import opened ConfigBuilder
  import opened ConfigParser
  import opened ConfigRoundTrip
  import opened PrintedLines
  import opened ParseBack
  import Sanitizer
  import SanitizerProofs

  // ---- one printed line under the sanitiser ----

  lemma {:induction false} PrintedLineClean(kv: Kv)
    requires PlainKey(kv.key) && GoodText(kv.value) && '#' !in kv.value && ';' !in kv.value
    ensures SanitizerProofs.CleanNonblank(Line(kv))
  {
    hide Strip, Sanitizer.AllWord;
    PlainKeyFacts(kv.key);
    var line := Line(kv);
    assert line[|line| - 1] == kv.value[|kv.value| - 1];
    PlainEnds(kv.key);
    assert line[0] == kv.key[0];
    StripOfTrimmed(line);
    NotEmptyKey(kv);
  }

  // The first '=' of a printed line is not its last character, and what precedes the last one holds it.
  lemma {:induction false} NotEmptyKey(kv: Kv)
    requires PlainKey(kv.key) && GoodText(kv.value)
    ensures !Sanitizer.IsEmptyKey(Line(kv))
  {
    hide Strip, RStrip, Sanitizer.AllWord;
    var line := Line(kv);
    PlainEnds(kv.key);
    assert line[0] == kv.key[0] && line[|line| - 1] == kv.value[|kv.value| - 1];
    StripOfTrimmed(line);
    if line[|line| - 1] == '=' {
      var front := line[..|line| - 1];
      var b := RStripPart(front);
      var key := RStrip(front);
      var n := |kv.key| + 1;
      assert front[n] == '=' && !IsSpace('=') && !Sanitizer.IsWordChar('=');
      assert forall j :: |key| <= j < |front| ==> front[j] == b[j - |key|];
      assert key[n] == '=';
      if Sanitizer.AllWord(key) {
        AllWordAt(key, n);
      }
    }
  }

  lemma {:induction false} AllWordAt(s: string, i: nat)
    requires Sanitizer.AllWord(s) && i < |s|
    ensures Sanitizer.IsWordChar(s[i])
  {
    if i > 0 {
      AllWordAt(s[1..], i - 1);
    }
  }

  lemma {:induction false} KvLinesClean(kvs: seq<Kv>)
    requires PlainKeys(kvs) && ValuesGood(kvs)
    requires ValuesFree(kvs, '\n') && ValuesFree(kvs, '#') && ValuesFree(kvs, ';')
    ensures SanitizerProofs.AllClean(KvLines(kvs)) && forall l :: l in KvLines(kvs) ==> l != "" && l[0] != '['
  {
    hide SanitizerProofs.CleanNonblank, Line, GoodText;
    KvLinesUnbroken(kvs);
    forall i | 0 <= i < |kvs|
      ensures SanitizerProofs.Clean(Line(kvs[i])) && Line(kvs[i]) != "" && Line(kvs[i])[0] != '['
    {
      PrintedLineClean(kvs[i]);
      LineStart(kvs[i]);
    }
  }

  lemma {:induction false} LineStart(kv: Kv)
    requires PlainKey(kv.key)
    ensures Line(kv) != "" && Line(kv)[0] != '['
  {
  }

  // ---- the whole text ----

  ghost predicate PrintedFree(inp: Input, obf: Params, items: seq<string>, c: char) {
    ValuesFree(InterfaceKvs(inp, obf), c) && ValuesFree(PeerKvs(inp, items), c)
  }

  lemma {:induction false} FieldsToPrinted(inp: Input, obf: Params, items: seq<string>, c: char)
    requires Errors(inp) == [] && EmittedParams(inp) == Ok(obf) && IsMarker(c) && FieldsFree(inp, c)
    requires ValidateAllowedIps(inp.peer.allowedIps, inp.checks) == Ok(items)
    requires HasPsk(inp) ==> KeyOf("PresharedKey", inp.peer.psk.value).Ok?
    ensures PrintedFree(inp, obf, items, c)
  {
    hide Errors, EmittedParams, ValidateAllowedIps, KeyOf, FieldsFree, InterfaceKvs, PeerKvs;
    InterfaceValues(inp, obf, c);
    PeerValues(inp, c);
  }

  lemma {:induction false} LinesNormal(inp: Input, obf: Params, items: seq<string>)
    requires Errors(inp) == [] && EmittedParams(inp) == Ok(obf)
    requires ValidateAllowedIps(inp.peer.allowedIps, inp.checks) == Ok(items)
    requires HasPsk(inp) ==> KeyOf("PresharedKey", inp.peer.psk.value).Ok?
    requires PrintedFree(inp, obf, items, '\n') && PrintedFree(inp, obf, items, '#')
    requires PrintedFree(inp, obf, items, ';')
    requires DnsText(inp.iface.dns) != ""
    ensures SanitizerProofs.Normal(ConfigLines(inp, obf, items))
  {
    hide Errors, EmittedParams, ValidateAllowedIps, KeyOf, DnsText, InterfaceKvs, PeerKvs, Line;
    hide SanitizerProofs.Clean;
    var a, b := InterfaceKvs(inp, obf), PeerKvs(inp, items);
    InterfaceKeysPlain(inp, obf);
    PeerKeysPlain(inp, items);
    InterfaceValues(inp, obf, '\n');
    PeerValues(inp, '\n');
    KvLinesClean(a);
    KvLinesClean(b);
    KvPositions(inp, obf, items);
    TwoSectionsNormal(KvLines(a), KvLines(b));
  }

  lemma {:induction false} TwoSectionsNormal(a: seq<string>, b: seq<string>)
    requires SanitizerProofs.AllClean(a) && SanitizerProofs.AllClean(b) && a != [] && b != []
    requires forall l :: l in a || l in b ==> l != "" && l[0] != '['
    ensures SanitizerProofs.Normal(["[Interface]"] + a + ["", "[Peer]"] + b)
  {
    hide SanitizerProofs.CleanNonblank;
    SanitizerProofs.HeadersClean();
    var lines := ["[Interface]"] + a + ["", "[Peer]"] + b;
    assert lines[0] == "[Interface]";
    assert lines[|lines| - 1] == b[|b| - 1] && b[|b| - 1] in b;
    forall i | 0 <= i < |lines| ensures SanitizerProofs.Clean(lines[i]) && '\n' !in lines[i] {
      assert lines[i] == "[Interface]" || lines[i] == "" || lines[i] == "[Peer]" || lines[i] in a || lines[i] in b;
    }
    forall i | 0 <= i < |lines| - 1 ensures lines[i] != "" || lines[i + 1] != "" {
      if i < |a| {
        assert lines[i + 1] == a[i] && a[i] in a;
      } else if i == |a| {
        assert i > 0 ==> lines[i] == a[i - 1] && a[i - 1] in a;
      } else if i == |a| + 1 {
        assert lines[i + 1] == "[Peer]";
      } else if i == |a| + 2 {
        assert lines[i] == "[Peer]";
      } else {
        assert lines[i] == b[i - |a| - 3] && b[i - |a| - 3] in b;
      }
    }
  }

  /** A built text from nonblank name servers and fields without '#', ';' or a line break is a fixed point of the
      sanitiser: the download returns exactly what was built. */
  lemma {:induction false} BuiltTextStays(inp: Input)
    requires Build(inp).Ok? && DnsText(inp.iface.dns) != ""
    requires FieldsFree(inp, '\n') && FieldsFree(inp, '#') && FieldsFree(inp, ';')
    ensures Sanitizer.Sanitize(Build(inp).value) == Build(inp).value
  {
    hide Build, EmittedParams, ValidateAllowedIps, KeyOf, FieldsFree, DnsText, Errors, Sanitizer.Sanitize;
    hide SanitizerProofs.Normal, Join, InterfaceKvs, PeerKvs;
    var obf, items := Accepted(inp);
    FieldsToPrinted(inp, obf, items, '\n');
    FieldsToPrinted(inp, obf, items, '#');
    FieldsToPrinted(inp, obf, items, ';');
    LinesNormal(inp, obf, items);
    NormalConfigStays(inp, obf, items);
  }

  lemma {:induction false} NormalConfigStays(inp: Input, obf: Params, items: seq<string>)
    requires SanitizerProofs.Normal(ConfigLines(inp, obf, items))
    ensures var text := Join(ConfigLines(inp, obf, items), '\n') + "\n"; Sanitizer.Sanitize(text) == text
  {
    hide InterfaceKvs, PeerKvs, KvLines, Join, Sanitizer.Sanitize, SanitizerProofs.Normal;
    var lines := ConfigLines(inp, obf, items);
    assert lines[0] == "[Interface]";
    SanitizerProofs.TextStart(lines);
    SanitizerProofs.NormalTextStays(lines);
  }

  lemma {:induction false} JoinHolds(lines: seq<string>, i: nat, c: char)
    requires i < |lines| && c in lines[i]
    ensures c in Join(lines, '\n')
  {
    if i > 0 {
      JoinHolds(lines[1..], i - 1, c);
    }
  }

  // A character missing from the text is missing from every printed value.
  lemma {:induction false} TextToPrinted(inp: Input, obf: Params, items: seq<string>, c: char)
    requires c !in Join(ConfigLines(inp, obf, items), '\n')
    ensures PrintedFree(inp, obf, items, c)
  {
    hide InterfaceKvs, PeerKvs, Join;
    var a, b := InterfaceKvs(inp, obf), PeerKvs(inp, items);
    var lines := ConfigLines(inp, obf, items);
    forall i | 0 <= i < |a| ensures c !in a[i].value {
      assert lines[i + 1] == Line(a[i]);
      if c in a[i].value {
        JoinHolds(lines, i + 1, c);
      }
    }
    forall i | 0 <= i < |b| ensures c !in b[i].value {
      assert lines[|a| + 3 + i] == Line(b[i]);
      if c in b[i].value {
        JoinHolds(lines, |a| + 3 + i, c);
      }
    }
  }

  lemma {:induction false} BuiltLinesUnbroken(inp: Input, obf: Params, items: seq<string>)
    requires PrintedFree(inp, obf, items, '\n')
    ensures NoBreaks(ConfigLines(inp, obf, items))
  {
    hide InterfaceKvs, PeerKvs, Line;
    var a, b := InterfaceKvs(inp, obf), PeerKvs(inp, items);
    InterfaceKeysPlain(inp, obf);
    PeerKeysPlain(inp, items);
    KvLinesUnbroken(a);
    KvLinesUnbroken(b);
    var lines := ConfigLines(inp, obf, items);
    forall i | 0 <= i < |lines| ensures '\n' !in lines[i] {
      assert lines[i] in ["[Interface]"] || lines[i] in KvLines(a) || lines[i] in ["", "[Peer]"] ||
             lines[i] in KvLines(b);
    }
  }

  // A blank DNS setting prints a line the sanitiser drops.
  lemma {:induction false} BlankDnsLine(inp: Input, obf: Params, items: seq<string>)
    requires DnsText(inp.iface.dns) == ""
    ensures Sanitizer.IsEmptyKey("DNS = ") && "DNS = " in ConfigLines(inp, obf, items)
  {
    hide Strip, EmitKvs, EffectiveMtu, DnsText, CommaJoin, IntText, PeerKvs, Show;
    KvPositions(inp, obf, items);
    assert KvLines(InterfaceKvs(inp, obf))[2] == "DNS" + " = " + "";
    assert "DNS" + " = " + "" == "DNS = ";
    assert ConfigLines(inp, obf, items)[3] == "DNS = ";
    assert Strip("DNS = ") == "DNS =" by {
      StripUnique("", "DNS =", " ");
      assert "" + "DNS =" + " " == "DNS = ";
    }
    assert "DNS ="[..4] == "DNS ";
    RStripUnique("DNS", " ");
    assert "DNS" + " " == "DNS ";
    assert Sanitizer.AllWord("DNS") by {
      assert "DNS"[1..] == "NS" && "NS"[1..] == "S" && "S"[1..] == "";
    }
  }

  /** For accepted input without line breaks the download changes nothing exactly when the printed text holds no
      comment marker and the name servers are not blank. */
  lemma {:induction false} DownloadUnchangedExactlyWhen(inp: Input)
    requires Build(inp).Ok? && FieldsFree(inp, '\n')
    ensures Sanitizer.Sanitize(Build(inp).value) == Build(inp).value <==>
            '#' !in Build(inp).value && ';' !in Build(inp).value && DnsText(inp.iface.dns) != ""
  {
    hide Build, EmittedParams, ValidateAllowedIps, KeyOf, DnsText, Errors, Sanitizer.Sanitize, Join, Split, ConfigLines;
    hide FieldsFree, Sanitizer.IsEmptyKey, Strip;
    var text := Build(inp).value;
    var obf, items := Accepted(inp);
    FieldsToPrinted(inp, obf, items, '\n');
    var lines := ConfigLines(inp, obf, items);
    assert text[|text| - 1] == '\n' && text[..|text| - 1] == Join(lines, '\n');
    if Sanitizer.Sanitize(text) == text {
      UnchangedHasNoEmptyKey(inp, obf, items);
      if DnsText(inp.iface.dns) == "" {
        BlankDnsLine(inp, obf, items);
      }
    } else if '#' !in text && ';' !in text && DnsText(inp.iface.dns) != "" {
      TextToPrinted(inp, obf, items, '#');
      TextToPrinted(inp, obf, items, ';');
      LinesNormal(inp, obf, items);
      NormalConfigStays(inp, obf, items);
    }
  }

  lemma {:induction false} UnchangedHasNoEmptyKey(inp: Input, obf: Params, items: seq<string>)
    requires PrintedFree(inp, obf, items, '\n')
    requires var text := Join(ConfigLines(inp, obf, items), '\n') + "\n"; Sanitizer.Sanitize(text) == text
    ensures var text := Join(ConfigLines(inp, obf, items), '\n') + "\n"; '#' !in text && ';' !in text
    ensures forall l :: l in ConfigLines(inp, obf, items) ==> !Sanitizer.IsEmptyKey(l)
  {
    hide Join, Split, InterfaceKvs, PeerKvs, KvLines, Sanitizer.Sanitize, Sanitizer.IsEmptyKey, PrintedFree;
    var lines := ConfigLines(inp, obf, items);
    var text := Join(lines, '\n') + "\n";
    assert text[..|text| - 1] == Join(lines, '\n');
    SanitizerProofs.SanitizedText(text);
    BuiltLinesUnbroken(inp, obf, items);
    SplitOfJoin(lines, '\n');
  }
}

/** Parsing undoes printing: the fields read from a built config are the ones it was built from. */
module ParseBack {
  import opened Text
  import opened Numerals
  import opened OrderedDict
  import opened Obfuscation
  import opened ConfigBuilder
  import opened ConfigParser
  import opened ConfigRoundTrip
  import opened PrintedLines

  // ---- lines of the text ----

  ghost predicate NoBreaks(lines: seq<string>) {
    forall i :: 0 <= i < |lines| ==> '\n' !in lines[i]
  }

  lemma {:induction false} KvLinesUnbroken(kvs: seq<Kv>)
    requires PlainKeys(kvs) && ValuesFree(kvs, '\n')
    ensures NoBreaks(KvLines(kvs))
  {
    forall i | 0 <= i < |kvs| ensures '\n' !in Line(kvs[i]) {
      PlainKeyFacts(kvs[i].key);
    }
  }

  lemma {:induction false} JoinEmptyTail(lines: seq<string>)
    requires lines != []
    ensures Join(lines + [""], '\n') == Join(lines, '\n') + "\n"
  {
    if |lines| == 1 {
      assert (lines + [""])[1..] == [""];
      assert lines[0] + ['\n'] + "" == lines[0] + "\n";
    } else {
      assert (lines + [""])[1..] == lines[1..] + [""];
      JoinEmptyTail(lines[1..]);
      assert lines[0] + ['\n'] + (Join(lines[1..], '\n') + "\n") == lines[0] + ['\n'] + Join(lines[1..], '\n') + "\n";
    }
  }

  // What an accepted input is made of.
  lemma {:induction false} Accepted(inp: Input) returns (obf: Params, items: seq<string>)
    requires Build(inp).Ok?
    ensures Errors(inp) == [] && EmittedParams(inp) == Ok(obf)
    ensures ValidateAllowedIps(inp.peer.allowedIps, inp.checks) == Ok(items)
    ensures HasPsk(inp) ==> KeyOf("PresharedKey", inp.peer.psk.value).Ok?
    ensures Build(inp).value == Join(ConfigLines(inp, obf, items), '\n') + "\n"
  {
    hide Errors, EmittedParams, ValidateAllowedIps, KeyOf, ConfigLines, Join;
    obf := EmittedParams(inp).value;
    items := ValidateAllowedIps(inp.peer.allowedIps, inp.checks).value;
  }

  /** A built text splits into its printed lines and reads back as its two sections. */
  lemma {:induction false} ReadBuilt(inp: Input, obf: Params, items: seq<string>)
    requires Build(inp).Ok? && EmittedParams(inp) == Ok(obf)
    requires ValidateAllowedIps(inp.peer.allowedIps, inp.checks) == Ok(items)
    requires FieldsFree(inp, '\n')
    ensures Read(Build(inp).value) ==
            Ok(FieldsOf(SectionOf(InterfaceKvs(inp, obf)), SectionOf(PeerKvs(inp, items))))
  {
    hide Build, EmittedParams, ValidateAllowedIps, InterfaceKvs, PeerKvs, Join, Split, ReadLines, FieldsOf, SectionOf;
    hide FieldsFree, Errors, KeyOf, KvLines;
    var _, _ := Accepted(inp);
    var a, b := InterfaceKvs(inp, obf), PeerKvs(inp, items);
    InterfaceKeysPlain(inp, obf);
    PeerKeysPlain(inp, items);
    InterfaceValues(inp, obf, '\n');
    PeerValues(inp, '\n');
    KvLinesUnbroken(a);
    KvLinesUnbroken(b);
    var lines := ConfigLines(inp, obf, items);
    JoinEmptyTail(lines);
    assert lines + [""] == ["[Interface]"] + KvLines(a) + ["", "[Peer]"] + KvLines(b) + [""];
    forall p | p in lines + [""] ensures '\n' !in p {
      assert p in ["[Interface]"] || p in KvLines(a) || p in ["", "[Peer]"] || p in KvLines(b) || p == "";
    }
    SplitOfJoin(lines + [""], '\n');
    ReadTwoSections(a, b);
  }

  // ---- looking fields up ----

  lemma {:induction false} KvPositions(inp: Input, obf: Params, items: seq<string>)
    ensures var a := InterfaceKvs(inp, obf);
            && |a| >= 3 && a[0].key == "PrivateKey" && a[1].key == "Address" && a[2].key == "DNS"
            && a[0].value == Strip(inp.iface.privateKey) && a[2].value == DnsText(inp.iface.dns)
            && (inp.iface.address.Some? ==> a[1].value == Strip(inp.iface.address.value))
    ensures var b := PeerKvs(inp, items);
            && |b| >= 4 && b[0] == Kv("PublicKey", Strip(inp.peer.publicKey)) && b[1].key == "Endpoint"
            && (inp.peer.endpoint.Some? ==> b[1].value == Strip(inp.peer.endpoint.value))
            && b[2] == Kv("AllowedIPs", CommaJoin(items))
            && b[3] == Kv("PersistentKeepalive", IntText(inp.peer.keepalive))
            && (HasPsk(inp) ==> |b| == 5 && b[4] == Kv("PresharedKey", Strip(inp.peer.psk.value)))
            && (!HasPsk(inp) ==> |b| == 4)
  {
    hide Strip, DnsText, CommaJoin, IntText, EmitKvs, EffectiveMtu;
  }

  lemma {:induction false} StripStrip(s: string)
    ensures Strip(Strip(s)) == Strip(s)
  {
    StripTrims(s);
    StripOfTrimmed(Strip(s));
  }

  lemma {:induction false} PeerFields(inp: Input, items: seq<string>)
    requires inp.peer.endpoint.Some?
    ensures var s := SectionOf(PeerKvs(inp, items));
            && Lookup(s, "PublicKey") == Strip(inp.peer.publicKey)
            && Lookup(s, "Endpoint") == Strip(inp.peer.endpoint.value)
            && Lookup(s, "AllowedIPs") == Strip(CommaJoin(items))
            && Lookup(s, "PersistentKeepalive") == IntText(inp.peer.keepalive)
            && Lookup(s, "PresharedKey") == if HasPsk(inp) then Strip(inp.peer.psk.value) else ""
  {
    hide Strip, CommaJoin, IntText, PeerKvs, SectionOf, Lookup, PlainKey;
    var b := PeerKvs(inp, items);
    KvPositions(inp, map[], items);
    PeerKeysPlain(inp, items);
    SectionValue(b, 0);
    SectionValue(b, 1);
    SectionValue(b, 2);
    SectionValue(b, 3);
    StripStrip(inp.peer.publicKey);
    StripStrip(inp.peer.endpoint.value);
    IntTextGood(inp.peer.keepalive, '\n');
    StripOfTrimmed(IntText(inp.peer.keepalive));
    if HasPsk(inp) {
      SectionValue(b, 4);
      StripStrip(inp.peer.psk.value);
    } else {
      SectionNoValue(b, "PresharedKey");
    }
  }

  lemma {:induction false} InterfaceFields(inp: Input, obf: Params)
    requires inp.iface.address.Some?
    ensures var s := SectionOf(InterfaceKvs(inp, obf));
            && Lookup(s, "PrivateKey") == Strip(inp.iface.privateKey)
            && Lookup(s, "Address") == Strip(inp.iface.address.value)
            && Lookup(s, "DNS") == DnsText(inp.iface.dns)
  {
    hide Strip, DnsText, InterfaceKvs, SectionOf, Lookup, PlainKey, PeerKvs;
    var a := InterfaceKvs(inp, obf);
    KvPositions(inp, obf, []);
    InterfaceKeysPlain(inp, obf);
    SectionValue(a, 0);
    SectionValue(a, 1);
    SectionValue(a, 2);
    StripStrip(inp.iface.privateKey);
    StripStrip(inp.iface.address.value);
    DnsTrimmed(inp.iface.dns);
    StripOfTrimmed(DnsText(inp.iface.dns));
  }

  lemma {:induction false} MtuField(inp: Input, obf: Params)
    ensures OrZero(Lookup(SectionOf(InterfaceKvs(inp, obf)), "MTU")) ==
            if MtuKvs(EffectiveMtu(inp)) == [] then "0" else IntText(EffectiveMtu(inp).value)
  {
    hide Strip, DnsText, SectionOf, Lookup, PlainKey, IntText, EffectiveMtu, EmitKvs, Show;
    var a, mtu := InterfaceKvs(inp, obf), EffectiveMtu(inp);
    InterfaceKeysPlain(inp, obf);
    if MtuKvs(mtu) != [] {
      assert a[3] == Kv("MTU", IntText(mtu.value));
      SectionValue(a, 3);
      IntTextGood(mtu.value, '\n');
      StripOfTrimmed(IntText(mtu.value));
    } else {
      MtuNotEmitted(obf);
      assert forall i :: 3 <= i < |a| ==> a[i] == EmitKvs(EMIT_ORDER, obf)[i - 3];
      SectionNoValue(a, "MTU");
    }
  }

  lemma {:induction false} MtuNotEmitted(obf: Params)
    ensures forall i :: 0 <= i < |EmitKvs(EMIT_ORDER, obf)| ==> EmitKvs(EMIT_ORDER, obf)[i].key != "MTU"
  {
    hide EmitKvs, Show;
    EmitKvsMembers(EMIT_ORDER, obf);
    assert "MTU" !in EMIT_ORDER;
  }

  // ---- obfuscation keys ----

  lemma {:induction false} EmittedLookup(inp: Input, obf: Params, k: string)
    requires EmittedParams(inp) == Ok(obf) && k in AWG_KEYS
    ensures Lookup(SectionOf(InterfaceKvs(inp, obf)), k) == if k in obf then Show(obf[k]) else ""
  {
    hide EmittedParams, InterfaceKvs, SectionOf, Lookup, Show, EmitKvs, PlainKey, IsMarker, FieldsFree;
    var a, emitted := InterfaceKvs(inp, obf), EmitKvs(EMIT_ORDER, obf);
    if k in obf {
      InterfaceKeysPlain(inp, obf);
      EmittedGood(inp);
      InterfaceSplits(inp, obf);
      var i := EmitKvsHas(EMIT_ORDER, obf, k);
      var n := |a| - |emitted|;
      assert a[n + i] == emitted[i];
      SectionValue(a, n + i);
      StripOfTrimmed(Show(obf[k]));
    } else {
      NotPrinted(inp, obf, k);
      SectionNoValue(a, k);
    }
  }

  lemma {:induction false} NotPrinted(inp: Input, obf: Params, k: string)
    requires k in AWG_KEYS && k !in obf
    ensures forall i :: 0 <= i < |InterfaceKvs(inp, obf)| ==> InterfaceKvs(inp, obf)[i].key != k
  {
    hide InterfaceKvs, Show, EmitKvs, PlainKey;
    var a, emitted := InterfaceKvs(inp, obf), EmitKvs(EMIT_ORDER, obf);
    InterfaceKeysPlain(inp, obf);
    InterfaceSplits(inp, obf);
    AwgInitial(k);
    EmitKvsMembers(EMIT_ORDER, obf);
    var n := |a| - |emitted|;
    forall i | 0 <= i < |a| ensures a[i].key != k {
      assert i >= n ==> a[i] == emitted[i - n];
    }
  }

  lemma {:induction false} AwgInitial(k: string)
    requires k in AWG_KEYS
    ensures k != "" && IsAwgInitial(k[0])
  {
  }

  lemma {:induction false} InterfaceSplits(inp: Input, obf: Params)
    ensures var a, e := InterfaceKvs(inp, obf), EmitKvs(EMIT_ORDER, obf);
            |e| <= |a| && a == a[..|a| - |e|] + e
  {
    hide Strip, DnsText, MtuKvs, EffectiveMtu, EmitKvs;
  }

  lemma {:induction false} ExtrasAre(keys: seq<string>, s: Section, obf: Params)
    requires forall k :: k in keys ==> Lookup(s, k) == if k in obf then Show(obf[k]) else ""
    requires forall k :: k in obf ==> Show(obf[k]) != ""
    ensures Extras(keys, s) == map k | k in obf && k in keys :: Show(obf[k])
  {
    hide Lookup, Show;
    if keys != [] {
      var n := |keys| - 1;
      assert keys == keys[..n] + [keys[n]];
      ExtrasAre(keys[..n], s, obf);
    }
  }

  // ---- the endpoint ----

  lemma {:induction false} LastIndexIs(s: string, c: char, i: nat)
    requires i < |s| && s[i] == c && c !in s[i + 1..]
    ensures LastIndexOf(s, c) == Some(i)
  {
    var r := LastIndexOf(s, c);
    assert r.Some?;
    var j := r.value;
    assert forall k :: i < k < |s| ==> s[k] == s[i + 1..][k - i - 1];
    assert forall k :: j < k < |s| ==> s[k] == s[j + 1..][k - j - 1];
  }

  lemma {:induction false} ParseNatChars(s: string)
    requires ParseNat(s).Some?
    ensures s != "" && forall i :: 0 <= i < |s| ==> IsDigit(s[i]) || s[i] == '_'
  {
    var n := |s|;
    if n > 1 {
      if s[n - 2] == '_' {
        ParseNatChars(s[..n - 2]);
        assert s == s[..n - 2] + [s[n - 2], s[n - 1]];
      } else {
        ParseNatChars(s[..n - 1]);
        assert s == s[..n - 1] + [s[n - 1]];
      }
    }
  }

  lemma {:induction false} ParsedHasNoColon(s: string)
    requires ParseInt(s).Some?
    ensures ':' !in s && Strip(s) != "" && ParseInt(Strip(s)) == ParseInt(s)
  {
    hide Strip, ParseNat;
    var a, b := StripParts(s);
    var t := Strip(s);
    StripStrip(s);
    var digits := if t[0] == '-' || t[0] == '+' then t[1..] else t;
    ParseNatChars(digits);
    assert t == (if t[0] == '-' || t[0] == '+' then [t[0]] else "") + digits;
    BlankHasNoColon(a);
    BlankHasNoColon(b);
  }

  lemma {:induction false} BlankHasNoColon(a: string)
    requires Blank(a)
    ensures ':' !in a
  {
  }

  // Host and port as the reader splits them.
  lemma {:induction false} EndpointReadsBack(endpoint: Option<string>, checks: Checks)
    requires ValidateEndpoint(endpoint, checks).Ok?
    ensures var ep := ValidateEndpoint(endpoint, checks).value;
            && HostOf(ep.text) == (if ep.v6 then "[" + ep.host + "]" else Strip(ep.host))
            && PortOf(ep.text) == ep.port
  {
    hide Strip, ParseInt, IndexOf, LastIndexOf, IsHostname;
    var ep := ValidateEndpoint(endpoint, checks).value;
    var s := ep.text;
    if ep.v6 {
      var i := IndexOf(s, ']');
      var port := s[i + 2..];
      ParsedHasNoColon(port);
      LastIndexIs(s, ':', i + 1);
      assert s[..i + 1] == "[" + s[1..i] + "]";
      BracketsTrimmed(ep.host);
    } else {
      var i := LastIndexOf(s, ':').value;
      ParsedHasNoColon(s[i + 1..]);
    }
  }

  lemma {:induction false} BracketsTrimmed(h: string)
    ensures Strip("[" + h + "]") == "[" + h + "]"
  {
    var s := "[" + h + "]";
    assert s[0] == '[' && s[|s| - 1] == ']';
    StripOfTrimmed(s);
  }

  /** A hostname without a line feed has nothing to strip, so it reads back exactly. */
  lemma {:induction false} HostnameTrimmed(h: string)
    requires IsHostname(h) && '\n' !in h
    ensures Strip(h) == h
  {
    hide Split, Strip;
    var body := HostBody(h);
    var parts := Split(body, '.');
    JoinOfSplit(body, '.');
    LabelsFree(body, '.');
    assert AllLabels(parts);
    JoinEnds(parts, '.');
    AlnumEnds(h, body);
    StripOfTrimmed(h);
  }

  lemma {:induction false} AlnumEnds(h: string, body: string)
    requires body != "" && Trimmed(body) && (h == body || h == body + ".")
    ensures Trimmed(h)
  {
  }

  lemma {:induction false} LabelsFree(s: string, d: char)
    requires '\n' !in s
    ensures forall i :: 0 <= i < |Split(s, d)| ==> '\n' !in Split(s, d)[i]
  {
    forall i | 0 <= i < |Split(s, d)| ensures '\n' !in Split(s, d)[i] {
      if '\n' in Split(s, d)[i] {
        PartOfSplit(s, d, i, '\n');
      }
    }
  }

  lemma {:induction false} JoinEnds(parts: seq<string>, d: char)
    requires parts != [] && forall i :: 0 <= i < |parts| ==> LabelOk(parts[i]) && '\n' !in parts[i]
    ensures var s := Join(parts, d); s != "" && !IsSpace(s[0]) && !IsSpace(s[|s| - 1])
  {
    hide LabelOk;
    LabelEnds(parts[0]);
    if |parts| > 1 {
      JoinEnds(parts[1..], d);
      var rest := Join(parts[1..], d);
      assert Join(parts, d)[|Join(parts, d)| - 1] == rest[|rest| - 1];
      assert Join(parts, d)[0] == parts[0][0];
    }
  }

  lemma {:induction false} LabelEnds(l: string)
    requires LabelOk(l) && '\n' !in l
    ensures l != "" && !IsSpace(l[0]) && !IsSpace(l[|l| - 1])
  {
  }

  // ---- allowed-ips ----

  // The comma-separated pieces of the printed list.
  function Spaced(items: seq<string>): (r: seq<string>)
    ensures |r| == |items|
    ensures forall i :: 0 <= i < |r| ==> r[i] == if i == 0 then items[0] else " " + items[i]
  {
    seq(|items|, i requires 0 <= i < |items| => if i == 0 then items[0] else " " + items[i])
  }

  lemma {:induction false} CommaJoinIs(items: seq<string>)
    ensures CommaJoin(items) == Join(Spaced(items), ',')
  {
    if |items| > 1 {
      CommaJoinIs(items[1..]);
      JoinFirst(" ", Spaced(items[1..]));
      assert Spaced(items)[1..] == [" " + Spaced(items[1..])[0]] + Spaced(items[1..])[1..];
      assert items[0] + ", " + CommaJoin(items[1..]) == items[0] + [','] + (" " + CommaJoin(items[1..]));
    }
  }

  lemma {:induction false} JoinFirst(p: string, parts: seq<string>)
    requires parts != []
    ensures Join([p + parts[0]] + parts[1..], ',') == p + Join(parts, ',')
  {
    if |parts| > 1 {
      assert ([p + parts[0]] + parts[1..])[1..] == parts[1..];
      assert p + parts[0] + [','] + Join(parts[1..], ',') == p + (parts[0] + [','] + Join(parts[1..], ','));
    } else {
      assert [p + parts[0]] + parts[1..] == [p + parts[0]];
    }
  }

  lemma {:induction false} ItemsOfSpaced(items: seq<string>, parts: seq<string>)
    requires |parts| == |items| && forall i :: 0 <= i < |items| ==> GoodText(items[i])
    requires forall i :: 0 <= i < |parts| ==> parts[i] == items[i] || parts[i] == " " + items[i]
    ensures Items(parts) == items
  {
    hide Strip;
    if parts != [] {
      var n := |parts| - 1;
      ItemsOfSpaced(items[..n], parts[..n]);
      StripOfTrimmed(items[n]);
      StripUnique(" ", items[n], "");
      assert " " + items[n] + "" == " " + items[n];
      assert items == items[..n] + [items[n]];
    }
  }

  lemma {:induction false} ItemsReadBack(items: seq<string>)
    requires items != [] && forall i :: 0 <= i < |items| ==> GoodText(items[i]) && ',' !in items[i]
    ensures Items(Split(Strip(CommaJoin(items)), ',')) == items
  {
    hide Strip, Split, CommaJoin, Join;
    CommaJoinGood(items);
    StripOfTrimmed(CommaJoin(items));
    CommaJoinIs(items);
    SplitOfJoin(Spaced(items), ',');
    ItemsOfSpaced(items, Spaced(items));
  }

  // ---- all of it ----

  /** For every accepted input whose texts hold no line break, the reader recovers the keys, the address, the first
      two IPv4 name servers, the MTU, host and port, the allowed-ips list, the preshared key and keepalive, and exactly
      the emitted obfuscation keys with their printed values. */
  lemma {:induction false} ParsingUndoesPrinting(inp: Input)
    requires Build(inp).Ok? && FieldsFree(inp, '\n')
    ensures Read(Build(inp).value).Ok? && EmittedParams(inp).Ok? && ValidateEndpoint(inp.peer.endpoint, inp.checks).Ok?
    ensures inp.iface.address.Some?
    ensures var f, obf := Read(Build(inp).value).value, EmittedParams(inp).value;
            var ep := ValidateEndpoint(inp.peer.endpoint, inp.checks).value;
            && f.privateKey == Strip(inp.iface.privateKey) && f.publicKey == Strip(inp.peer.publicKey)
            && f.address == Strip(inp.iface.address.value)
            && f.dns1 == Server(DnsText(inp.iface.dns), 0) && f.dns2 == Server(DnsText(inp.iface.dns), 1)
            && f.mtu == (if MtuKvs(EffectiveMtu(inp)) == [] then "0" else IntText(EffectiveMtu(inp).value))
            && f.host == (if ep.v6 then "[" + ep.host + "]" else Strip(ep.host)) && f.port == ep.port
            && ValidateAllowedIps(inp.peer.allowedIps, inp.checks) == Ok(f.allowedIps)
            && f.psk == (if HasPsk(inp) then Strip(inp.peer.psk.value) else "")
            && f.keepalive == IntText(inp.peer.keepalive)
            && f.extras == (map k | k in obf :: Show(obf[k]))
            && f.version2 == ("S3" in obf && "S4" in obf)
  {
    hide Build, EmittedParams, ValidateAllowedIps, ValidateEndpoint, FieldsFree, Read, Strip, DnsText, IntText, Errors;
    hide SectionOf, InterfaceKvs, PeerKvs, Lookup, HostOf, PortOf, Items, Split, CommaJoin, Server, MtuKvs;
    hide EffectiveMtu, Show, Extras, KeyOf;
    var obf, items := Accepted(inp);
    NoErrors(inp);
    ReadBuilt(inp, obf, items);
    InterfaceFields(inp, obf);
    MtuField(inp, obf);
    PeerFields(inp, items);
    EndpointReadsBack(inp.peer.endpoint, inp.checks);
    AllowedItems(inp);
    ItemsReadBack(items);
    EmittedGood(inp);
    forall k | k in AWG_KEYS
      ensures Lookup(SectionOf(InterfaceKvs(inp, obf)), k) == if k in obf then Show(obf[k]) else ""
    {
      EmittedLookup(inp, obf, k);
    }
    ExtrasAre(AWG_KEYS, SectionOf(InterfaceKvs(inp, obf)), obf);
    assert (map k | k in obf && k in AWG_KEYS :: Show(obf[k])) == (map k | k in obf :: Show(obf[k]));
    IntTextGood(inp.peer.keepalive, '\n');
  }
}

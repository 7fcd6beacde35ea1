/** What each profile builds and what is read back from it, said of the input's own fields. */
module ConfigProfiles {
  import opened Text
  import opened Numerals
  import opened Obfuscation
  import opened ObfuscationNormalForm
  import opened ObfuscationResults
  import opened ConfigBuilder
  import opened ConfigParser
  import opened PrintedLines
  import opened ParseBack
  import opened ConfigAcceptance
  import WgKey

  // ---- the parameters a profile emits ----

  ghost predicate Awg2Params(obf: Params, mtu: Option<int>, out: Params) {
    (forall k :: k in obf ==> KnownKey(k)) && (forall k :: KeepsKey(obf, out, k)) && NormalForm(out, mtu)
  }

  ghost predicate LegacyParams(obf: Params, out: Params) {
    (forall k :: k in obf ==> LegacyKey(k, obf[k])) && (forall k :: LegacyKeeps(obf, out, k)) && LegacyBounds(out)
  }

  // The parameters emitted for an input: none for a universal profile or an empty dictionary, else those the profile's
  // rules keep. The mobile profile takes 1200 for an MTU that is unset or not positive.
  ghost predicate ParamsFor(inp: Input, out: Params) {
    if inp.obf == map[] then out == map[]
    else
      match inp.profile
      case WireguardUniversal => out == map[]
      case AwgLegacyOrBasic => LegacyParams(inp.obf, out)
      case Awg20Asc => Awg2Params(inp.obf, inp.iface.mtu, out)
      case MobileOptimized =>
        Awg2Params(inp.obf, if inp.iface.mtu.Some? && inp.iface.mtu.value > 0 then inp.iface.mtu else Some(1200), out)
  }

  /** The profile and the fields alone decide which parameters are emitted. */
  lemma {:induction false} ParamsExactly(inp: Input, out: Params)
    ensures EmittedParams(inp) == Ok(out) <==> ParamsFor(inp, out)
  {
    hide NormalizeLegacy, NormalizeAwg2, KnownKey, KeepsKey, NormalForm, LegacyKey, LegacyKeeps, LegacyBounds;
    Awg2Exactly(inp.obf, inp.iface.mtu, out);
    Awg2Exactly(inp.obf, Some(1200), out);
    LegacyExactly(inp.obf, out);
  }

  /** An input is built exactly when its parts are acceptable, its profile's rules keep its parameters, and a preshared
      key, if given, is a key. */
  lemma {:induction false} BuiltExactlyWhen(inp: Input)
    ensures Build(inp).Ok? <==>
            && (forall p: nat :: p < 6 ==> PartOk(inp, p))
            && (exists out :: ParamsFor(inp, out))
            && (inp.peer.psk.Some? && inp.peer.psk.value != "" ==> WgKey.IsKeyText(Strip(inp.peer.psk.value)))
  {
    hide Build, EmittedParams, PartOk, ParamsFor, WgKey.IsKeyText, Strip;
    BuildsExactlyWhen(inp);
    forall out ensures EmittedParams(inp) == Ok(out) <==> ParamsFor(inp, out) {
      ParamsExactly(inp, out);
    }
    if EmittedParams(inp).Ok? {
      assert ParamsFor(inp, EmittedParams(inp).value);
    }
  }

  // ---- the name servers ----

  ghost predicate Octet(s: string) {
    1 <= |s| <= 3 && forall i :: 0 <= i < |s| ==> '0' <= s[i] <= '9'
  }

  ghost predicate Ipv4Text(s: string) {
    exists a, b, c, d :: Octets(a, b, c, d) && s == a + "." + b + "." + c + "." + d
  }

  ghost predicate Octets(a: string, b: string, c: string, d: string) {
    Octet(a) && Octet(b) && Octet(c) && Octet(d)
  }

  lemma {:induction false} JoinDots(a: string, b: string, c: string, d: string)
    ensures Join([a, b, c, d], '.') == a + "." + b + "." + c + "." + d
  {
    var parts := [a, b, c, d];
    assert parts[1..] == [b, c, d] && parts[1..][1..] == [c, d] && parts[1..][1..][1..] == [d];
    assert Join([c, d], '.') == c + "." + d by { assert [c, d][1..] == [d]; }
    assert Join([b, c, d], '.') == b + "." + (c + "." + d) by { assert [b, c, d][1..] == [c, d]; }
    assert a + "." + (b + "." + (c + "." + d)) == a + "." + b + "." + c + "." + d;
  }

  lemma {:induction false} Ipv4Exactly(s: string)
    ensures IsIpv4(s) <==> Ipv4Text(s)
  {
    hide Split, Join;
    var parts := Split(s, '.');
    if IsIpv4(s) {
      JoinOfSplit(s, '.');
      assert parts == [parts[0], parts[1], parts[2], parts[3]];
      JoinDots(parts[0], parts[1], parts[2], parts[3]);
      assert Octets(parts[0], parts[1], parts[2], parts[3]);
    }
    if Ipv4Text(s) {
      var a, b, c, d :| Octets(a, b, c, d) && s == a + "." + b + "." + c + "." + d;
      JoinDots(a, b, c, d);
      SplitOfJoin([a, b, c, d], '.');
    }
  }

  // The positions of the IPv4 addresses among the parts, in order.
  ghost predicate ServerPositions(parts: seq<string>, at: seq<nat>) {
    && (forall i, j :: 0 <= i < j < |at| ==> at[i] < at[j])
    && (forall i :: 0 <= i < |at| ==> at[i] < |parts| && Ipv4Text(Strip(parts[at[i]])))
    && (forall p :: 0 <= p < |parts| && Ipv4Text(Strip(parts[p])) ==> p in at)
  }

  lemma {:induction false} ServersStep(parts: seq<string>)
    requires parts != []
    ensures var n := |parts| - 1;
            Ipv4s(Items(parts)) ==
              Ipv4s(Items(parts[..n])) + if Ipv4Text(Strip(parts[n])) then [Strip(parts[n])] else []
  {
    hide Strip, IsIpv4, Ipv4Text;
    var n := |parts| - 1;
    var front, item := Items(parts[..n]), Strip(parts[n]);
    Ipv4Exactly(item);
    EmptyNotIpv4();
    assert (front + [item])[..|front|] == front;
  }

  lemma {:induction false} PositionsStep(parts: seq<string>, last: string, front: seq<nat>)
    requires ServerPositions(parts, front)
    ensures ServerPositions(parts + [last], if Ipv4Text(Strip(last)) then front + [|parts|] else front)
  {
    hide Strip, Ipv4Text;
    var n, all := |parts|, parts + [last];
    var at := if Ipv4Text(Strip(last)) then front + [n] else front;
    assert forall i :: 0 <= i < |front| ==> at[i] == front[i];
    forall i | 0 <= i < |at| ensures at[i] < |all| && Ipv4Text(Strip(all[at[i]])) {
      if i < |front| {
        assert all[front[i]] == parts[front[i]];
      }
    }
    forall p | 0 <= p < |all| && Ipv4Text(Strip(all[p])) ensures p in at {
      if p < n {
        assert all[p] == parts[p];
        var i :| 0 <= i < |front| && front[i] == p;
        assert at[i] == p;
      } else {
        assert at[|at| - 1] == n;
      }
    }
  }

  lemma {:induction false} ServersListed(parts: seq<string>) returns (at: seq<nat>)
    ensures ServerPositions(parts, at)
    ensures |Ipv4s(Items(parts))| == |at|
    ensures forall i :: 0 <= i < |at| ==> at[i] < |parts| && Ipv4s(Items(parts))[i] == Strip(parts[at[i]])
  {
    hide Strip, Ipv4Text, Ipv4s, Items, ServerPositions;
    if parts == [] {
      at := [];
      NoServers();
    } else {
      var n := |parts| - 1;
      var front := ServersListed(parts[..n]);
      ServersStep(parts);
      assert parts == parts[..n] + [parts[n]];
      PositionsStep(parts[..n], parts[n], front);
      at := if Ipv4Text(Strip(parts[n])) then front + [n] else front;
      assert forall i :: 0 <= i < |front| ==> parts[..n][front[i]] == parts[front[i]];
    }
  }

  lemma {:induction false} NoServers()
    ensures ServerPositions([], []) && Ipv4s(Items([])) == []
  {
  }

  lemma {:induction false} EmptyNotIpv4()
    ensures !Ipv4Text("")
  {
  }

  /** The n-th name server read is the n-th part between commas that, stripped, is an IPv4 address; none beyond
      the last. */
  lemma {:induction false} ServerExactly(dns: string) returns (at: seq<nat>)
    ensures ServerPositions(Split(dns, ','), at)
    ensures forall n: nat :: Server(dns, n) == if n < |at| then Strip(Split(dns, ',')[at[n]]) else ""
  {
    hide Split, Strip, Items, Ipv4s, ServerPositions;
    at := ServersListed(Split(dns, ','));
    PositionsInRange(Split(dns, ','), at);
  }

  lemma {:induction false} PositionsInRange(parts: seq<string>, at: seq<nat>)
    requires ServerPositions(parts, at)
    ensures forall i :: 0 <= i < |at| ==> at[i] < |parts|
  {
  }

  // ---- what is read back ----

  // The text a parameter is printed as.
  function Shown(v: Value): string {
    match v case Int(n) => IntText(n) case Str(s) => s case _ => ""
  }

  /** The reader finds the profile's parameters, the MTU and the first two IPv4 name servers, said of the input's own
      fields. */
  lemma {:induction false} FieldsOfInput(inp: Input, out: Params) returns (at: seq<nat>)
    requires Build(inp).Ok? && FieldsFree(inp, '\n') && ParamsFor(inp, out)
    ensures Read(Build(inp).value).Ok?
    ensures var f := Read(Build(inp).value).value;
            && f.extras == (map k | k in out :: Shown(out[k]))
            && f.version2 == ("S3" in out && "S4" in out)
            && f.mtu == (if inp.iface.mtu.Some? && inp.iface.mtu.value > 0 then IntText(inp.iface.mtu.value)
                         else if inp.profile.MobileOptimized? then "1200" else "0")
    ensures var f := Read(Build(inp).value).value;
            var parts := Split(if inp.iface.dns.Some? && inp.iface.dns.value != "" then Strip(inp.iface.dns.value)
                               else "1.1.1.1, 1.0.0.1, 8.8.8.8, 8.8.4.4", ',');
            && ServerPositions(parts, at)
            && f.dns1 == (if |at| > 0 then Strip(parts[at[0]]) else "")
            && f.dns2 == (if |at| > 1 then Strip(parts[at[1]]) else "")
  {
    hide Build, Read, FieldsFree, ParamsFor, EmittedParams, Strip, Split, Server, ServerPositions, IntText;
    hide ValidateEndpoint, ValidateAllowedIps, IntText;
    ParsingUndoesPrinting(inp);
    ParamsExactly(inp, out);
    at := ServerExactly(DnsText(inp.iface.dns));
    PositionsInRange(Split(DnsText(inp.iface.dns), ','), at);
    MtuText();
    assert forall v :: Show(v) == Shown(v);
  }

  lemma {:induction false} MtuText()
    ensures IntText(1200) == "1200"
  {
    assert NatText(1) == "1" && NatText(12) == "12" && NatText(120) == "120";
  }

  // ---- the text itself ----

  // One line per parameter, in a fixed order.
  function ParamLines(order: seq<string>, out: Params): seq<string> {
    if order == [] then []
    else
      var k := order[|order| - 1];
      ParamLines(order[..|order| - 1], out) + if k in out then [k + " = " + Shown(out[k])] else []
  }

  // The allowed-ips as printed: the stripped items, a blank after each comma.
  ghost predicate SpacedItems(allowed: string, printed: string) {
    exists parts :: |parts| == |Split(allowed, ',')| && printed == Join(parts, ',') &&
      forall i :: 0 <= i < |parts| ==> parts[i] == (if i == 0 then "" else " ") + Strip(Split(allowed, ',')[i])
  }

  // The [Interface] section's own lines.
  function HeadLines(inp: Input): seq<string>
    requires inp.iface.address.Some?
  {
    ["[Interface]", "PrivateKey = " + Strip(inp.iface.privateKey), "Address = " + Strip(inp.iface.address.value),
     "DNS = " + (if inp.iface.dns.Some? && inp.iface.dns.value != "" then Strip(inp.iface.dns.value)
                 else "1.1.1.1, 1.0.0.1, 8.8.8.8, 8.8.4.4")] +
    if inp.iface.mtu.Some? && inp.iface.mtu.value > 0 then ["MTU = " + IntText(inp.iface.mtu.value)]
    else if inp.profile.MobileOptimized? then ["MTU = 1200"]
    else []
  }

  // The [Peer] section behind its blank line.
  function TailLines(inp: Input, allowed: string): seq<string>
    requires inp.peer.endpoint.Some?
  {
    ["", "[Peer]", "PublicKey = " + Strip(inp.peer.publicKey), "Endpoint = " + Strip(inp.peer.endpoint.value),
     "AllowedIPs = " + allowed, "PersistentKeepalive = " + IntText(inp.peer.keepalive)] +
    if inp.peer.psk.Some? && inp.peer.psk.value != "" then ["PresharedKey = " + Strip(inp.peer.psk.value)] else []
  }

  /** The built text, line by line. */
  lemma {:induction false} BuiltText(inp: Input, out: Params) returns (allowed: string)
    requires Build(inp).Ok? && ParamsFor(inp, out)
    ensures SpacedItems(inp.peer.allowedIps, allowed)
    ensures inp.iface.address.Some? && inp.peer.endpoint.Some?
    ensures Build(inp).value == Join(
              HeadLines(inp) +
              ParamLines(["Jc", "Jmin", "Jmax", "S1", "S2", "S3", "S4", "H1", "H2", "H3", "H4",
                          "I1", "I2", "I3", "I4", "I5"], out) +
              TailLines(inp, allowed), '\n') + "\n"
  {
    hide EmittedParams, ParamsFor, Strip, Split, Join, ValidateAllowedIps, EmitKvs, Build, CommaJoin, ParamLines;
    hide Errors, KeyOf, HeadLines, TailLines, InterfaceKvs, PeerKvs, KvLines;
    ParamsExactly(inp, out);
    var obf, items := Accepted(inp);
    NoErrors(inp);
    allowed := CommaJoin(items);
    PrintedItems(inp, items);
    EmittedLines(EMIT_ORDER, out);
    InterfaceText(inp, out);
    PeerText(inp, items);
    assert ConfigLines(inp, obf, items) == HeadLines(inp) + ParamLines(EMIT_ORDER, out) + TailLines(inp, allowed);
  }

  lemma {:induction false} KvLinesConcat(a: seq<Kv>, b: seq<Kv>)
    ensures KvLines(a + b) == KvLines(a) + KvLines(b)
  {
    hide Line;
  }

  lemma {:induction false} InterfaceText(inp: Input, out: Params)
    requires inp.iface.address.Some?
    ensures ["[Interface]"] + KvLines(InterfaceKvs(inp, out)) == HeadLines(inp) + KvLines(EmitKvs(EMIT_ORDER, out))
  {
    hide Strip, IntText, EmitKvs, KvLines;
    var head := [Kv("PrivateKey", Strip(inp.iface.privateKey)), Kv("Address", Strip(inp.iface.address.value)),
                 Kv("DNS", DnsText(inp.iface.dns))];
    var mtu := MtuKvs(EffectiveMtu(inp));
    KvLinesConcat(head, mtu);
    KvLinesConcat(head + mtu, EmitKvs(EMIT_ORDER, out));
    assert KvLines(head)[0] == "PrivateKey = " + Strip(inp.iface.privateKey);
    assert KvLines(head)[1] == "Address = " + Strip(inp.iface.address.value);
    assert KvLines(head)[2] == "DNS = " + DnsText(inp.iface.dns);
    MtuText();
    assert mtu != [] ==> KvLines(mtu)[0] == "MTU = " + mtu[0].value;
    assert "MTU = " + "1200" == "MTU = 1200";
    assert ["[Interface]"] + KvLines(head) + KvLines(mtu) == HeadLines(inp);
  }

  lemma {:induction false} PeerText(inp: Input, items: seq<string>)
    requires inp.peer.endpoint.Some?
    ensures ["", "[Peer]"] + KvLines(PeerKvs(inp, items)) == TailLines(inp, CommaJoin(items))
  {
    hide Strip, IntText, CommaJoin, KvLines;
    var lines := KvLines(PeerKvs(inp, items));
    assert lines[0] == "PublicKey = " + Strip(inp.peer.publicKey);
    assert lines[1] == "Endpoint = " + Strip(inp.peer.endpoint.value);
    assert lines[2] == "AllowedIPs = " + CommaJoin(items);
    assert lines[3] == "PersistentKeepalive = " + IntText(inp.peer.keepalive);
    assert HasPsk(inp) ==> lines[4] == "PresharedKey = " + Strip(inp.peer.psk.value);
    assert lines == TailLines(inp, CommaJoin(items))[2..];
  }

  lemma {:induction false} EmittedLines(order: seq<string>, out: Params)
    ensures KvLines(EmitKvs(order, out)) == ParamLines(order, out)
  {
    hide Show, Shown;
    if order != [] {
      var n := |order| - 1;
      EmittedLines(order[..n], out);
      ShowsAlike(out, order[n]);
    }
  }

  lemma {:induction false} ShowsAlike(out: Params, k: string)
    ensures k in out ==> Show(out[k]) == Shown(out[k])
  {
  }

  lemma {:induction false} PrintedItems(inp: Input, items: seq<string>)
    requires ValidateAllowedIps(inp.peer.allowedIps, inp.checks) == Ok(items)
    ensures SpacedItems(inp.peer.allowedIps, CommaJoin(items))
  {
    hide Split, Strip, FirstInvalid, Join, CommaJoin;
    CommaJoinIs(items);
    var parts := Spaced(items);
    forall i | 0 <= i < |parts|
      ensures parts[i] == (if i == 0 then "" else " ") + Strip(Split(inp.peer.allowedIps, ',')[i])
    {
    }
  }
}

/** build_config: validation and printing of a client .conf. */
module ConfigBuilder {
  import opened Text
  import opened Numerals
  import opened Obfuscation
  import WgKey

  datatype InterfaceFields =
    InterfaceFields(privateKey: string, address: Option<string>, dns: Option<string>, mtu: Option<int>)
  datatype PeerFields =
    PeerFields(publicKey: string, endpoint: Option<string>, allowedIps: string, keepalive: int, psk: Option<string>)
  datatype ConfigProfile = WireguardUniversal | AwgLegacyOrBasic | Awg20Asc | MobileOptimized

  // What the ipaddress library says of a text: its version, and whether it is an interface or a network.
  datatype Checks = Checks(ipVersion: string -> Option<int>, isInterface: string -> bool, isNetwork: string -> bool)

  datatype Input = Input(iface: InterfaceFields, peer: PeerFields, profile: ConfigProfile, obf: Params, checks: Checks)

  datatype ConfigError =
    | Key(name: string, error: WgKey.KeyError)
    | AddressRequired | AddressNotCidr | AddressInvalid
    | EndpointRequired | EndpointV6Form | EndpointHostPort | EndpointV6Invalid | EndpointHost | EndpointPort
    | AllowedRequired | AllowedEmptyItem | AllowedInvalid(item: string)
    | ObfuscationNotAllowed
    | Obfuscated(obfError: ObfError)

  const DEFAULT_DNS := "1.1.1.1, 1.0.0.1, 8.8.8.8, 8.8.4.4"
  const DEFAULT_MTU_MOBILE := 1200

  const EMIT_ORDER: seq<string> :=
    ["Jc", "Jmin", "Jmax", "S1", "S2", "S3", "S4", "H1", "H2", "H3", "H4", "I1", "I2", "I3", "I4", "I5"]

  // ---- validation ----

  function ValidateAddress(address: Option<string>, checks: Checks): Result<string, ConfigError> {
    if address.None? || Strip(address.value) == "" then Err(AddressRequired)
    else
      var s := Strip(address.value);
      if '/' !in s then Err(AddressNotCidr)
      else if !checks.isInterface(s) then Err(AddressInvalid)
      else Ok(s)
  }

  predicate IsAlnum(c: char) {
    'A' <= c <= 'Z' || 'a' <= c <= 'z' || IsDigit(c)
  }

  // Letters, digits and inner dashes.
  predicate LabelChars(l: string) {
    && 1 <= |l| <= 63 && IsAlnum(l[0]) && IsAlnum(l[|l| - 1])
    && forall i :: 0 <= i < |l| ==> IsAlnum(l[i]) || l[i] == '-'
  }

  // The pattern's end also matches before one final line feed.
  predicate LabelOk(raw: string) {
    LabelChars(if raw != "" && raw[|raw| - 1] == '\n' then raw[..|raw| - 1] else raw)
  }

  predicate IsHostname(host: string) {
    host != "" && |host| <= 253 &&
    AllLabels(Split(HostBody(host), '.'))
  }

  // A host without its final dot.
  function HostBody(host: string): string {
    if host != "" && host[|host| - 1] == '.' then host[..|host| - 1] else host
  }

  predicate AllLabels(parts: seq<string>) {
    forall i :: 0 <= i < |parts| ==> LabelOk(parts[i])
  }

  datatype Endpoint = Endpoint(text: string, host: string, port: int, v6: bool)

  function CheckedPort(text: string, host: string, port: string, v6: bool): Result<Endpoint, ConfigError> {
    match ParseInt(port)
    case Some(p) => if host == "" then Err(EndpointHost)
                    else if 1 <= p <= 65535 then Ok(Endpoint(text, host, p, v6))
                    else Err(EndpointPort)
    case None => if host == "" then Err(EndpointHost) else Err(EndpointPort)
  }

  function ValidateEndpoint(endpoint: Option<string>, checks: Checks): Result<Endpoint, ConfigError> {
    if endpoint.None? || Strip(endpoint.value) == "" then Err(EndpointRequired)
    else
      var s := Strip(endpoint.value);
      if s[0] == '[' then
        var i := IndexOf(s, ']');
        if i == |s| then Err(EndpointV6Form)
        else if i + 1 == |s| || s[i + 1] != ':' then Err(EndpointHostPort)
        else if checks.ipVersion(s[1..i]) != Some(6) then Err(EndpointV6Invalid)
        else CheckedPort(s, s[1..i], s[i + 2..], true)
      else
        match LastIndexOf(s, ':')
        case None => Err(EndpointHostPort)
        case Some(i) =>
          if checks.ipVersion(s[..i]) != Some(4) && !IsHostname(s[..i]) then Err(EndpointHost)
          else CheckedPort(s, s[..i], s[i + 1..], false)
  }

  function StripAll(items: seq<string>): (r: seq<string>)
    ensures |r| == |items| && forall i :: 0 <= i < |r| ==> r[i] == Strip(items[i])
  {
    seq(|items|, i requires 0 <= i < |items| => Strip(items[i]))
  }

  function FirstInvalid(items: seq<string>, checks: Checks): Option<string> {
    if items == [] then None
    else if !checks.isNetwork(items[0]) then Some(items[0])
    else FirstInvalid(items[1..], checks)
  }

  function ValidateAllowedIps(allowed: string, checks: Checks): Result<seq<string>, ConfigError> {
    var items := StripAll(Split(allowed, ','));
    if Strip(allowed) == "" then Err(AllowedRequired)
    else if "" in items then Err(AllowedEmptyItem)
    else
      match FirstInvalid(items, checks)
      case Some(item) => Err(AllowedInvalid(item))
      case None => Ok(items)
  }

  function CommaJoin(items: seq<string>): string {
    if |items| == 0 then "" else if |items| == 1 then items[0] else items[0] + ", " + CommaJoin(items[1..])
  }

  function KeyOf(name: string, raw: string): Result<string, ConfigError> {
    match WgKey.ValidateKey(raw)
    case Err(e) => Err(Key(name, e))
    case Ok(k) => Ok(k)
  }

  function ErrorOf<T>(r: Result<T, ConfigError>): seq<ConfigError> {
    match r case Err(e) => [e] case Ok(_) => []
  }

  // Everything that is wrong with the two sections, in the order it is found.
  function Errors(inp: Input): seq<ConfigError> {
    ErrorOf(KeyOf("PrivateKey", inp.iface.privateKey)) +
    ErrorOf(ValidateAddress(inp.iface.address, inp.checks)) +
    ErrorOf(KeyOf("PublicKey", inp.peer.publicKey)) +
    ErrorOf(ValidateEndpoint(inp.peer.endpoint, inp.checks)) +
    ErrorOf(ValidateAllowedIps(inp.peer.allowedIps, inp.checks)) +
    (if inp.profile.WireguardUniversal? && inp.obf != map[] then [ObfuscationNotAllowed] else [])
  }

  // ---- printing ----

  datatype Kv = Kv(key: string, value: string)

  function Line(kv: Kv): string {
    kv.key + " = " + kv.value
  }

  function KvLines(kvs: seq<Kv>): (lines: seq<string>)
    ensures |lines| == |kvs| && forall i :: 0 <= i < |kvs| ==> lines[i] == Line(kvs[i])
  {
    seq(|kvs|, i requires 0 <= i < |kvs| => Line(kvs[i]))
  }

  function Show(v: Value): string {
    match v case Int(n) => IntText(n) case Str(s) => s case _ => ""
  }

  function DnsText(dns: Option<string>): string {
    if dns.Some? && dns.value != "" then Strip(dns.value) else DEFAULT_DNS
  }

  function EffectiveMtu(inp: Input): Option<int> {
    if inp.profile.MobileOptimized? && (inp.iface.mtu.None? || inp.iface.mtu.value <= 0) then Some(DEFAULT_MTU_MOBILE)
    else inp.iface.mtu
  }

  // The parameters to emit; none for a universal profile or an empty dictionary.
  function EmittedParams(inp: Input): Result<Params, ObfError> {
    if inp.obf == map[] || inp.profile.WireguardUniversal? then Ok(map[])
    else if inp.profile.AwgLegacyOrBasic? then NormalizeLegacy(inp.obf)
    else NormalizeAwg2(inp.obf, EffectiveMtu(inp))
  }

  function EmitKvs(order: seq<string>, obf: Params): seq<Kv> {
    if order == [] then []
    else
      var front, k := EmitKvs(order[..|order| - 1], obf), order[|order| - 1];
      if k in obf then front + [Kv(k, Show(obf[k]))] else front
  }

  function InterfaceKvs(inp: Input, obf: Params): seq<Kv> {
    [Kv("PrivateKey", Strip(inp.iface.privateKey)),
     Kv("Address", if inp.iface.address.Some? then Strip(inp.iface.address.value) else ""),
     Kv("DNS", DnsText(inp.iface.dns))] +
    MtuKvs(EffectiveMtu(inp)) + EmitKvs(EMIT_ORDER, obf)
  }

  function MtuKvs(mtu: Option<int>): seq<Kv> {
    if mtu.Some? && mtu.value > 0 then [Kv("MTU", IntText(mtu.value))] else []
  }

  function PeerKvs(inp: Input, items: seq<string>): seq<Kv> {
    [Kv("PublicKey", Strip(inp.peer.publicKey)),
     Kv("Endpoint", if inp.peer.endpoint.Some? then Strip(inp.peer.endpoint.value) else ""),
     Kv("AllowedIPs", CommaJoin(items)),
     Kv("PersistentKeepalive", IntText(inp.peer.keepalive))] +
    (if HasPsk(inp) then [Kv("PresharedKey", Strip(inp.peer.psk.value))] else [])
  }

  predicate HasPsk(inp: Input) {
    inp.peer.psk.Some? && inp.peer.psk.value != ""
  }

  function ConfigLines(inp: Input, obf: Params, items: seq<string>): seq<string> {
    ["[Interface]"] + KvLines(InterfaceKvs(inp, obf)) + ["", "[Peer]"] + KvLines(PeerKvs(inp, items))
  }

  function Build(inp: Input): Result<string, seq<ConfigError>> {
    if Errors(inp) != [] then Err(Errors(inp))
    else
      match EmittedParams(inp)
      case Err(e) => Err([Obfuscated(e)])
      case Ok(obf) =>
        var psk := if HasPsk(inp) then KeyOf("PresharedKey", inp.peer.psk.value) else Ok("");
        match (psk, ValidateAllowedIps(inp.peer.allowedIps, inp.checks))
        case (Err(e), _) => Err([e])
        case (Ok(_), Err(e)) => Err([e])
        case (Ok(_), Ok(items)) => Ok(Join(ConfigLines(inp, obf, items), '\n') + "\n")
  }

  /** The builder as it runs: errors gathered in a list, then lines appended one by one. */
  method BuildConfig(inp: Input) returns (r: Result<string, seq<ConfigError>>)
    ensures r == Build(inp)
  {
    hide ValidateAddress, ValidateEndpoint, ValidateAllowedIps, NormalizeLegacy, NormalizeAwg2, Join, Errors, KeyOf;
    hide InterfaceKvs, PeerKvs, ErrorOf;
    var errors := GatherErrors(inp);
    if errors != [] {
      return Err(errors);
    }
    NoErrors(inp);
    var obf: Params := map[];
    if inp.obf != map[] && !inp.profile.WireguardUniversal? {
      var normal;
      if inp.profile.AwgLegacyOrBasic? {
        normal := LegacyNormaliser(inp.obf);
      } else {
        normal := Awg2Normaliser(inp.obf, EffectiveMtu(inp));
      }
      if normal.Err? {
        return Err([Obfuscated(normal.error)]);
      }
      obf := normal.value;
    }
    var lines := InterfaceLines(inp, obf);
    if HasPsk(inp) {
      var psk := KeyOf("PresharedKey", inp.peer.psk.value);
      if psk.Err? {
        return Err([psk.error]);
      }
    }
    var items := ValidateAllowedIps(inp.peer.allowedIps, inp.checks).value;
    var peer := PeerLines(inp, items);
    assert lines + peer == ConfigLines(inp, obf, items);
    lines := lines + peer;
    r := Ok(Join(lines, '\n') + "\n");
  }

  method GatherErrors(inp: Input) returns (errors: seq<ConfigError>)
    ensures errors == Errors(inp)
  {
    hide ValidateAddress, ValidateEndpoint, ValidateAllowedIps, KeyOf;
    errors := ErrorOf(KeyOf("PrivateKey", inp.iface.privateKey));
    errors := errors + ErrorOf(ValidateAddress(inp.iface.address, inp.checks));
    errors := errors + ErrorOf(KeyOf("PublicKey", inp.peer.publicKey));
    errors := errors + ErrorOf(ValidateEndpoint(inp.peer.endpoint, inp.checks));
    errors := errors + ErrorOf(ValidateAllowedIps(inp.peer.allowedIps, inp.checks));
    if inp.profile.WireguardUniversal? && inp.obf != map[] {
      errors := errors + [ObfuscationNotAllowed];
    }
  }

  // The [Interface] section, line by line.
  method InterfaceLines(inp: Input, obf: Params) returns (lines: seq<string>)
    requires inp.iface.address.Some?
    ensures lines == ["[Interface]"] + KvLines(InterfaceKvs(inp, obf))
  {
    hide Strip, DnsText, IntText, Line, EmitKvs;
    var priv, addr, dns := Strip(inp.iface.privateKey), Strip(inp.iface.address.value), DnsText(inp.iface.dns);
    lines := ["[Interface]"];
    lines := lines + [Line(Kv("PrivateKey", priv))];
    lines := lines + [Line(Kv("Address", addr))];
    lines := lines + [Line(Kv("DNS", dns))];
    ghost var head := [Kv("PrivateKey", priv), Kv("Address", addr), Kv("DNS", dns)];
    assert lines == ["[Interface]"] + KvLines(head);
    var mtu := EffectiveMtu(inp);
    if mtu.Some? && mtu.value > 0 {
      lines := lines + [Line(Kv("MTU", IntText(mtu.value)))];
    }
    assert lines == ["[Interface]"] + KvLines(head + MtuKvs(mtu));
    var emitted := EmitLines(obf);
    assert KvLines(head + MtuKvs(mtu) + EmitKvs(EMIT_ORDER, obf)) == KvLines(head + MtuKvs(mtu)) + emitted;
    lines := lines + emitted;
  }

  // The [Peer] section behind its blank line.
  method PeerLines(inp: Input, items: seq<string>) returns (lines: seq<string>)
    requires inp.peer.endpoint.Some?
    ensures lines == ["", "[Peer]"] + KvLines(PeerKvs(inp, items))
  {
    hide Strip, CommaJoin, IntText, Line;
    lines := ["", "[Peer]"];
    lines := lines + [Line(Kv("PublicKey", Strip(inp.peer.publicKey)))];
    lines := lines + [Line(Kv("Endpoint", Strip(inp.peer.endpoint.value)))];
    lines := lines + [Line(Kv("AllowedIPs", CommaJoin(items)))];
    lines := lines + [Line(Kv("PersistentKeepalive", IntText(inp.peer.keepalive)))];
    if HasPsk(inp) {
      lines := lines + [Line(Kv("PresharedKey", Strip(inp.peer.psk.value)))];
    }
  }

  method EmitLines(obf: Params) returns (lines: seq<string>)
    ensures lines == KvLines(EmitKvs(EMIT_ORDER, obf))
  {
    hide Show;
    lines := [];
    for i := 0 to |EMIT_ORDER|
      invariant lines == KvLines(EmitKvs(EMIT_ORDER[..i], obf))
    {
      assert EMIT_ORDER[..i + 1][..i] == EMIT_ORDER[..i];
      var k := EMIT_ORDER[i];
      if k in obf {
        lines := lines + [Line(Kv(k, Show(obf[k])))];
      }
    }
    assert EMIT_ORDER[..|EMIT_ORDER|] == EMIT_ORDER;
  }

  lemma {:induction false} KeyIsStripped(raw: string)
    ensures WgKey.ValidateKey(raw).Ok? ==> WgKey.ValidateKey(raw).value == Strip(raw)
  {
    WgKey.AcceptedExactlyWhen(raw);
  }

  // What an empty error list says of the parts.
  lemma {:induction false} NoErrors(inp: Input)
    requires Errors(inp) == []
    ensures KeyOf("PrivateKey", inp.iface.privateKey) == Ok(Strip(inp.iface.privateKey))
    ensures KeyOf("PublicKey", inp.peer.publicKey) == Ok(Strip(inp.peer.publicKey))
    ensures inp.iface.address.Some?
    ensures ValidateAddress(inp.iface.address, inp.checks) == Ok(Strip(inp.iface.address.value))
    ensures inp.peer.endpoint.Some? && ValidateEndpoint(inp.peer.endpoint, inp.checks).Ok?
    ensures ValidateEndpoint(inp.peer.endpoint, inp.checks).value.text == Strip(inp.peer.endpoint.value)
    ensures ValidateAllowedIps(inp.peer.allowedIps, inp.checks).Ok?
    ensures inp.profile.WireguardUniversal? ==> inp.obf == map[]
  {
    hide WgKey.ValidateKey, Strip, ValidateAllowedIps, ParseInt, IsHostname, IndexOf, LastIndexOf;
    KeyIsStripped(inp.iface.privateKey);
    KeyIsStripped(inp.peer.publicKey);
  }
}

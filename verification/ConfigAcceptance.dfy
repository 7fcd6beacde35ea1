/** Which inputs the builder accepts, and what its error list says, without the builder's own checks. */
module ConfigAcceptance {
  import opened Text
  import opened Numerals
  import opened Obfuscation
  import opened ConfigBuilder
  import opened ParseBack
  import opened WgKey

  // ---- the fields ----

  predicate PortOk(port: string) {
    ParseInt(port).Some? && 1 <= ParseInt(port).value <= 65535
  }

  // [host]:port with an IPv6 host.
  ghost predicate IsV6Endpoint(s: string, host: string, port: string, checks: Checks) {
    && s == "[" + host + "]:" + port && ']' !in host && host != ""
    && checks.ipVersion(host) == Some(6) && PortOk(port)
  }

  // host:port, split at the last colon, with an IPv4 host or a hostname.
  ghost predicate IsPlainEndpoint(s: string, host: string, port: string, checks: Checks) {
    && s == host + ":" + port && ':' !in port && host != "" && host[0] != '['
    && (checks.ipVersion(host) == Some(4) || IsHostname(host)) && PortOk(port)
  }

  ghost predicate EndpointOk(endpoint: Option<string>, checks: Checks) {
    endpoint.Some? && exists host, port ::
      IsV6Endpoint(Strip(endpoint.value), host, port, checks) ||
      IsPlainEndpoint(Strip(endpoint.value), host, port, checks)
  }

  ghost predicate AddressOk(address: Option<string>, checks: Checks) {
    address.Some? && '/' in Strip(address.value) && checks.isInterface(Strip(address.value))
  }

  // Networks between commas, none of them blank.
  ghost predicate AllowedOk(allowed: string, checks: Checks) {
    forall p :: p in Split(allowed, ',') ==> Strip(p) != "" && checks.isNetwork(Strip(p))
  }

  // ---- hostnames ----

  ghost predicate Alnum(c: char) {
    'A' <= c <= 'Z' || 'a' <= c <= 'z' || '0' <= c <= '9'
  }

  // One to 63 letters, digits and dashes, no dash at an end.
  ghost predicate HostLabel(l: string) {
    && 1 <= |l| <= 63 && Alnum(l[0]) && Alnum(l[|l| - 1])
    && forall i :: 0 <= i < |l| ==> Alnum(l[i]) || l[i] == '-'
  }

  // The labels of a host between its dots; each may be followed by a line feed, and the last by a dot.
  ghost predicate LabelsOf(host: string, parts: seq<string>) {
    && |parts| >= 1 && (host == Join(parts, '.') || host == Join(parts, '.') + ".")
    && forall p :: p in parts ==> FedLabel(p)
  }

  ghost predicate FedLabel(p: string) {
    HostLabel(p) || exists l :: HostLabel(l) && p == l + "\n"
  }

  lemma {:induction false} HostChars()
    ensures forall c :: IsAlnum(c) <==> Alnum(c)
    ensures !Alnum('\n') && !Alnum('.')
  {
  }

  lemma {:induction false} HostLabelEnds(l: string)
    requires HostLabel(l)
    ensures '\n' !in l && '.' !in l
  {
    hide Alnum;
    HostChars();
  }

  lemma {:induction false} HostLabelEmpty()
    ensures !HostLabel("")
  {
  }

  // What the pattern's end leaves to be matched.
  lemma {:induction false} LabelBody(p: string)
    ensures LabelOk(p) <==> HostLabel(if p != "" && p[|p| - 1] == '\n' then p[..|p| - 1] else p)
  {
    hide HostLabel, LabelChars;
    LabelCharsExactly(if p != "" && p[|p| - 1] == '\n' then p[..|p| - 1] else p);
  }

  lemma {:induction false} LabelCharsExactly(l: string)
    ensures LabelChars(l) <==> HostLabel(l)
  {
    hide Alnum, IsAlnum;
    HostChars();
  }

  lemma {:induction false} LabelIsFed(p: string)
    requires LabelOk(p)
    ensures FedLabel(p) && p != "" && '.' !in p
  {
    hide LabelOk, HostLabel;
    LabelBody(p);
    HostLabelEmpty();
    var l := if p != "" && p[|p| - 1] == '\n' then p[..|p| - 1] else p;
    HostLabelEnds(l);
    assert p == l || p == l + "\n";
  }

  lemma {:induction false} FedIsLabel(p: string)
    requires FedLabel(p)
    ensures LabelOk(p)
  {
    hide LabelOk, HostLabel;
    LabelBody(p);
    HostLabelEmpty();
    if HostLabel(p) {
      HostLabelEnds(p);
      assert p[|p| - 1] in p;
    } else {
      var l :| HostLabel(l) && p == l + "\n";
      assert p[..|p| - 1] == l;
    }
  }

  lemma {:induction false} JoinLastPart(parts: seq<string>)
    requires |parts| >= 1 && forall p :: p in parts ==> p != "" && '.' !in p
    ensures Join(parts, '.') != "" && Join(parts, '.')[|Join(parts, '.')| - 1] != '.'
  {
    if |parts| == 1 {
      assert parts[0] in parts;
    } else {
      assert forall p :: p in parts[1..] ==> p in parts;
      JoinLastPart(parts[1..]);
    }
  }

  lemma {:induction false} BodyLabels(host: string, parts: seq<string>)
    requires LabelsOf(host, parts)
    ensures HostBody(host) == Join(parts, '.') && AllLabels(parts) && Split(HostBody(host), '.') == parts
  {
    hide Join, Split, LabelOk, FedLabel;
    forall p | p in parts ensures LabelOk(p) && p != "" && '.' !in p {
      FedIsLabel(p);
      LabelIsFed(p);
    }
    JoinLastPart(parts);
    SplitOfJoin(parts, '.');
    assert (Join(parts, '.') + ".")[..|Join(parts, '.')|] == Join(parts, '.');
  }

  /** A hostname is at most 253 characters of labels between dots. */
  lemma {:induction false} HostnameExactly(host: string)
    ensures IsHostname(host) <==> (1 <= |host| <= 253 && exists parts :: LabelsOf(host, parts))
  {
    hide Join, Split, LabelOk, FedLabel;
    if IsHostname(host) {
      var parts := Split(HostBody(host), '.');
      JoinOfSplit(HostBody(host), '.');
      forall p | p in parts ensures FedLabel(p) {
        LabelIsFed(p);
      }
      assert LabelsOf(host, parts);
    }
    forall parts | LabelsOf(host, parts) ensures AllLabels(Split(HostBody(host), '.')) {
      BodyLabels(host, parts);
    }
  }

  lemma {:induction false} AddressExactlyWhen(address: Option<string>, checks: Checks)
    ensures ValidateAddress(address, checks).Ok? <==> AddressOk(address, checks)
  {
    hide Strip;
  }

  lemma {:induction false} V6Accepted(s: string, host: string, port: string, checks: Checks)
    requires IsV6Endpoint(s, host, port, checks) && Strip(s) == s
    ensures ValidateEndpoint(Some(s), checks).Ok?
  {
    hide Strip, ParseInt, IndexOf, LastIndexOf, IsHostname;
    var i := 1 + |host|;
    assert s[i] == ']' && s[..i] == "[" + host;
    IndexOfIs(s, ']', i);
    assert s[1..i] == host && s[i + 1] == ':' && s[i + 2..] == port;
  }

  lemma {:induction false} PlainAccepted(s: string, host: string, port: string, checks: Checks)
    requires IsPlainEndpoint(s, host, port, checks) && Strip(s) == s
    ensures ValidateEndpoint(Some(s), checks).Ok?
  {
    hide Strip, ParseInt, IndexOf, LastIndexOf, IsHostname;
    assert s[|host|] == ':' && s[|host| + 1..] == port && s[..|host|] == host;
    LastIndexIs(s, ':', |host|);
    assert s[0] == host[0];
  }

  lemma {:induction false} SameWhenStripped(endpoint: string, checks: Checks)
    ensures Strip(Strip(endpoint)) == Strip(endpoint)
    ensures ValidateEndpoint(Some(endpoint), checks) == ValidateEndpoint(Some(Strip(endpoint)), checks)
  {
    hide Strip, CheckedPort, IndexOf, LastIndexOf, IsHostname;
    StripStrip(endpoint);
  }

  lemma {:induction false} AcceptedSplits(endpoint: Option<string>, checks: Checks)
    requires ValidateEndpoint(endpoint, checks).Ok?
    ensures EndpointOk(endpoint, checks)
  {
    hide Strip, ParseInt, IsHostname;
    var s := Strip(endpoint.value);
    if s[0] == '[' {
      var i := IndexOf(s, ']');
      assert s == "[" + s[1..i] + "]:" + s[i + 2..];
      assert ']' !in s[1..i] by {
        assert forall k :: 0 <= k < i - 1 ==> s[1..i][k] == s[..i][k + 1];
      }
      assert IsV6Endpoint(s, s[1..i], s[i + 2..], checks);
    } else {
      var i := LastIndexOf(s, ':').value;
      assert s == s[..i] + ":" + s[i + 1..];
      assert IsPlainEndpoint(s, s[..i], s[i + 1..], checks);
    }
  }

  /** An endpoint is accepted exactly when it reads as `[v6]:port` or `host:port` with a known host and port. */
  lemma {:induction false} EndpointExactlyWhen(endpoint: Option<string>, checks: Checks)
    ensures ValidateEndpoint(endpoint, checks).Ok? <==> EndpointOk(endpoint, checks)
  {
    hide ValidateEndpoint, IsV6Endpoint, IsPlainEndpoint, Strip;
    if ValidateEndpoint(endpoint, checks).Ok? {
      AcceptedSplits(endpoint, checks);
    }
    if EndpointOk(endpoint, checks) {
      var s := Strip(endpoint.value);
      var host, port :| IsV6Endpoint(s, host, port, checks) || IsPlainEndpoint(s, host, port, checks);
      SameWhenStripped(endpoint.value, checks);
      if IsV6Endpoint(s, host, port, checks) {
        V6Accepted(s, host, port, checks);
      } else {
        PlainAccepted(s, host, port, checks);
      }
    }
  }

  lemma {:induction false} FirstInvalidIs(items: seq<string>, checks: Checks)
    ensures FirstInvalid(items, checks) == None <==> forall i :: 0 <= i < |items| ==> checks.isNetwork(items[i])
  {
    if items != [] {
      FirstInvalidIs(items[1..], checks);
      assert items == [items[0]] + items[1..];
    }
  }

  lemma {:induction false} BlankIsOnePart(allowed: string)
    requires Strip(allowed) == ""
    ensures Split(allowed, ',') == [allowed]
  {
    hide Split, Strip;
    StripEmptyIsBlank(allowed);
    assert ',' !in allowed;
    SplitNoDelimiter(allowed, ',');
  }

  /** An allowed-ips list is accepted exactly when every item between its commas is a network. */
  lemma {:induction false} AllowedExactlyWhen(allowed: string, checks: Checks)
    ensures ValidateAllowedIps(allowed, checks).Ok? <==> AllowedOk(allowed, checks)
  {
    hide Split, Strip, FirstInvalid;
    var parts := Split(allowed, ',');
    FirstInvalidIs(StripAll(parts), checks);
    if Strip(allowed) == "" {
      BlankIsOnePart(allowed);
      assert allowed in parts;
    }
    if AllowedOk(allowed, checks) {
      assert forall i :: 0 <= i < |parts| ==> parts[i] in parts;
    }
  }

  // ---- the error list ----

  // The part of the input an error is about: keys, address, endpoint, allowed-ips and profile, in the order checked.
  function PartOf(e: ConfigError): nat {
    match e
    case Key(name, _) => if name == "PrivateKey" then 0 else if name == "PublicKey" then 2 else 6
    case AddressRequired | AddressNotCidr | AddressInvalid => 1
    case EndpointRequired | EndpointV6Form | EndpointHostPort | EndpointV6Invalid | EndpointHost | EndpointPort => 3
    case AllowedRequired | AllowedEmptyItem | AllowedInvalid(_) => 4
    case ObfuscationNotAllowed => 5
    case Obfuscated(_) => 6
  }

  ghost predicate PartOk(inp: Input, part: nat) {
    match part
    case 0 => IsKeyText(Strip(inp.iface.privateKey))
    case 1 => AddressOk(inp.iface.address, inp.checks)
    case 2 => IsKeyText(Strip(inp.peer.publicKey))
    case 3 => EndpointOk(inp.peer.endpoint, inp.checks)
    case 4 => AllowedOk(inp.peer.allowedIps, inp.checks)
    case 5 => inp.profile.WireguardUniversal? ==> inp.obf == map[]
    case _ => true
  }

  // Errors of distinct parts in order, exactly those of the parts below `n` that are not ok.
  ghost predicate Reports(inp: Input, errors: seq<ConfigError>, n: nat) {
    && (forall i, j :: 0 <= i < j < |errors| ==> PartOf(errors[i]) < PartOf(errors[j]))
    && (forall i :: 0 <= i < |errors| ==> PartOf(errors[i]) < n && !PartOk(inp, PartOf(errors[i])))
    && (forall p: nat :: p < n && !PartOk(inp, p) ==> HasPart(errors, p))
  }

  ghost predicate HasPart(errors: seq<ConfigError>, p: nat) {
    exists i :: 0 <= i < |errors| && PartOf(errors[i]) == p
  }

  // One error about a part that is not ok, and none otherwise.
  ghost predicate ReportsOne(inp: Input, errors: seq<ConfigError>, part: nat) {
    |errors| <= 1 && (errors == [] <==> PartOk(inp, part)) && (errors != [] ==> PartOf(errors[0]) == part)
  }

  lemma {:induction false} ReportsNext(inp: Input, errors: seq<ConfigError>, more: seq<ConfigError>, n: nat)
    requires Reports(inp, errors, n) && ReportsOne(inp, more, n)
    ensures Reports(inp, errors + more, n + 1)
  {
    hide PartOf, PartOk, HasPart;
    assert forall i :: 0 <= i < |errors + more| ==>
             (errors + more)[i] == if i < |errors| then errors[i] else more[0];
    forall p: nat | p < n + 1 && !PartOk(inp, p) ensures HasPart(errors + more, p) {
      if p < n {
        HasPartStill(errors, more, p);
      } else {
        HasPartLast(errors, more[0]);
        assert errors + more == errors + [more[0]];
      }
    }
  }

  lemma {:induction false} HasPartStill(errors: seq<ConfigError>, more: seq<ConfigError>, p: nat)
    requires HasPart(errors, p)
    ensures HasPart(errors + more, p)
  {
    hide PartOf;
    var i :| 0 <= i < |errors| && PartOf(errors[i]) == p;
    assert (errors + more)[i] == errors[i];
  }

  lemma {:induction false} HasPartLast(errors: seq<ConfigError>, e: ConfigError)
    ensures HasPart(errors + [e], PartOf(e))
  {
    hide PartOf;
    assert (errors + [e])[|errors|] == e;
  }

  lemma {:induction false} FieldErrors(inp: Input)
    ensures ReportsOne(inp, ErrorOf(KeyOf("PrivateKey", inp.iface.privateKey)), 0)
    ensures ReportsOne(inp, ErrorOf(ValidateAddress(inp.iface.address, inp.checks)), 1)
    ensures ReportsOne(inp, ErrorOf(KeyOf("PublicKey", inp.peer.publicKey)), 2)
    ensures ReportsOne(inp, ErrorOf(ValidateEndpoint(inp.peer.endpoint, inp.checks)), 3)
    ensures ReportsOne(inp, ErrorOf(ValidateAllowedIps(inp.peer.allowedIps, inp.checks)), 4)
  {
    hide ValidateKey, ValidateAddress, ValidateEndpoint, ValidateAllowedIps, IsKeyText, Strip;
    hide AddressOk, EndpointOk, AllowedOk;
    ErrorParts(inp);
    AcceptedExactlyWhen(inp.iface.privateKey);
    AddressExactlyWhen(inp.iface.address, inp.checks);
    AcceptedExactlyWhen(inp.peer.publicKey);
    EndpointExactlyWhen(inp.peer.endpoint, inp.checks);
    AllowedExactlyWhen(inp.peer.allowedIps, inp.checks);
  }

  lemma {:induction false} ErrorParts(inp: Input)
    ensures ValidateAddress(inp.iface.address, inp.checks).Err? ==>
              PartOf(ValidateAddress(inp.iface.address, inp.checks).error) == 1
    ensures ValidateEndpoint(inp.peer.endpoint, inp.checks).Err? ==>
              PartOf(ValidateEndpoint(inp.peer.endpoint, inp.checks).error) == 3
    ensures ValidateAllowedIps(inp.peer.allowedIps, inp.checks).Err? ==>
              PartOf(ValidateAllowedIps(inp.peer.allowedIps, inp.checks).error) == 4
  {
    hide Strip, Split, IndexOf, LastIndexOf, ParseInt, IsHostname, FirstInvalid;
  }

  lemma {:induction false} ProfileError(inp: Input)
    ensures
      ReportsOne(inp, if inp.profile.WireguardUniversal? && inp.obf != map[] then [ObfuscationNotAllowed] else [], 5)
  {
  }

  /** The gathered errors name exactly the parts of the input that are not acceptable, each once and in order. */
  lemma {:induction false} ErrorsNameBadParts(inp: Input)
    ensures Reports(inp, Errors(inp), 6)
    ensures Errors(inp) == [] <==> forall p: nat :: p < 6 ==> PartOk(inp, p)
  {
    hide ValidateKey, ValidateAddress, ValidateEndpoint, ValidateAllowedIps, IsKeyText, Strip;
    hide AddressOk, EndpointOk, AllowedOk, Reports, ReportsOne, PartOk, ErrorOf, KeyOf;
    FieldErrors(inp);
    ProfileError(inp);
    var a := ErrorOf(KeyOf("PrivateKey", inp.iface.privateKey));
    var b := ErrorOf(ValidateAddress(inp.iface.address, inp.checks));
    var c := ErrorOf(KeyOf("PublicKey", inp.peer.publicKey));
    var d := ErrorOf(ValidateEndpoint(inp.peer.endpoint, inp.checks));
    var e := ErrorOf(ValidateAllowedIps(inp.peer.allowedIps, inp.checks));
    var f: seq<ConfigError> :=
      if inp.profile.WireguardUniversal? && inp.obf != map[] then [ObfuscationNotAllowed] else [];
    NothingReported(inp);
    assert [] + a == a;
    ReportsNext(inp, [], a, 0);
    ReportsNext(inp, a, b, 1);
    ReportsNext(inp, a + b, c, 2);
    ReportsNext(inp, a + b + c, d, 3);
    ReportsNext(inp, a + b + c + d, e, 4);
    ReportsNext(inp, a + b + c + d + e, f, 5);
    assert Errors(inp) == a + b + c + d + e + f;
    NoneReported(inp, Errors(inp), 6);
  }

  lemma {:induction false} NothingReported(inp: Input)
    ensures Reports(inp, [], 0)
  {
  }

  lemma {:induction false} NoneReported(inp: Input, errors: seq<ConfigError>, n: nat)
    requires Reports(inp, errors, n)
    ensures errors == [] <==> forall p: nat :: p < n ==> PartOk(inp, p)
  {
    hide PartOf, PartOk;
    if errors != [] {
      assert !PartOk(inp, PartOf(errors[0]));
    }
  }

  /** The builder accepts exactly the inputs whose parts are all acceptable, whose parameters normalise under the
      profile, and whose preshared key, if given, is a key. */
  lemma {:induction false} BuildsExactlyWhen(inp: Input)
    ensures Build(inp).Ok? <==>
            && (forall p: nat :: p < 6 ==> PartOk(inp, p))
            && EmittedParams(inp).Ok?
            && (HasPsk(inp) ==> IsKeyText(Strip(inp.peer.psk.value)))
  {
    hide Errors, EmittedParams, ValidateKey, ValidateAllowedIps, PartOk, Reports, ConfigLines, Join, IsKeyText, Strip;
    ErrorsNameBadParts(inp);
    if Errors(inp) == [] {
      NoErrors(inp);
    }
    if HasPsk(inp) {
      AcceptedExactlyWhen(inp.peer.psk.value);
    }
  }
}

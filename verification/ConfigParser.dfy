/** The reading half of encode_awg_conf_vpn_key: a .conf as sections of keys and values, and the fields in them. */
module ConfigParser {
  import opened Text
  import opened Numerals

  datatype ReadError =
    NoSection | NoDelimiter | EmptyOption | Indented | DuplicateOption | DuplicateSection | MissingSection

  type Section = map<string, string>
  datatype Conf = Conf(sections: map<string, Section>, current: Option<string>) {
    ghost predicate Valid() {
      current.Some? ==> current.value in sections
    }
  }

  function DelimiterIndex(s: string): (i: nat)
    ensures i <= |s|
  {
    var eq, colon := IndexOf(s, '='), IndexOf(s, ':');
    if eq < colon then eq else colon
  }

  // A header's name stands between the first '[' and the last ']'.
  function HeaderName(s: string): Option<string> {
    if s == "" || s[0] != '[' then None
    else
      match LastIndexOf(s, ']')
      case None => None
      case Some(i) => if i < 2 then None else Some(s[1..i])
  }

  // One line of the file; indented lines (continuations) are outside this model.
  function ReadLine(c: Conf, line: string): (r: Result<Conf, ReadError>)
    requires c.Valid()
    ensures r.Ok? ==> r.value.Valid()
  {
    var s := Strip(line);
    if s == "" || s[0] == '#' || s[0] == ';' then Ok(c)
    else if IsSpace(line[0]) then Err(Indented)
    else
      match HeaderName(s)
      case Some(name) =>
        if name in c.sections then Err(DuplicateSection) else Ok(Conf(c.sections[name := map[]], Some(name)))
      case None =>
        if c.current.None? then Err(NoSection)
        else
          var i := DelimiterIndex(s);
          var name := RStrip(s[..i]);
          var sec := c.sections[c.current.value];
          if i == |s| then Err(NoDelimiter)
          else if name == "" then Err(EmptyOption)
          else if name in sec then Err(DuplicateOption)
          else Ok(c.(sections := c.sections[c.current.value := sec[name := Strip(s[i + 1..])]]))
  }

  function ReadLines(lines: seq<string>): (r: Result<Conf, ReadError>)
    ensures r.Ok? ==> r.value.Valid()
  {
    if lines == [] then Ok(Conf(map[], None))
    else
      match ReadLines(lines[..|lines| - 1])
      case Err(e) => Err(e)
      case Ok(c) => ReadLine(c, lines[|lines| - 1])
  }

  // ---- the fields ----

  const AWG_KEYS: seq<string> :=
    ["Jc", "Jmin", "Jmax", "S1", "S2", "S3", "S4", "I1", "I2", "I3", "I4", "I5", "H1", "H2", "H3", "H4"]

  datatype Fields = Fields(privateKey: string, address: string, dns1: string, dns2: string, mtu: string,
                           extras: map<string, string>, publicKey: string, psk: string, host: string, port: int,
                           allowedIps: seq<string>, keepalive: string, version2: bool)

  // section.get(key, "").strip()
  function Lookup(s: Section, k: string): string {
    if k in s then Strip(s[k]) else ""
  }

  function OrZero(s: string): string {
    if s == "" then "0" else s
  }

  // The obfuscation keys that are present and not blank.
  function Extras(keys: seq<string>, s: Section): map<string, string> {
    if keys == [] then map[]
    else
      var front, k := Extras(keys[..|keys| - 1], s), keys[|keys| - 1];
      if Lookup(s, k) != "" then front[k := Lookup(s, k)] else front
  }

  // endpoint.rsplit(":", 1), both parts stripped; without a colon all of it is the host.
  function HostOf(endpoint: string): string {
    match LastIndexOf(endpoint, ':')
    case None => Strip(endpoint)
    case Some(i) => Strip(endpoint[..i])
  }

  function PortText(endpoint: string): string {
    match LastIndexOf(endpoint, ':')
    case None => "51820"
    case Some(i) => if Strip(endpoint[i + 1..]) == "" then "51820" else Strip(endpoint[i + 1..])
  }

  function PortOf(endpoint: string): int {
    match ParseInt(PortText(endpoint)) case None => 0 case Some(p) => p
  }

  // The nonblank items between commas, stripped.
  function Items(parts: seq<string>): seq<string> {
    if parts == [] then []
    else
      var front, item := Items(parts[..|parts| - 1]), Strip(parts[|parts| - 1]);
      if item == "" then front else front + [item]
  }

  // Four dotted groups of one to three digits.
  predicate IsIpv4(s: string) {
    var parts := Split(s, '.');
    |parts| == 4 && forall i :: 0 <= i < |parts| ==> IsDigits(parts[i]) && |parts[i]| <= 3
  }

  function Ipv4s(items: seq<string>): seq<string> {
    if items == [] then []
    else
      var front, item := Ipv4s(items[..|items| - 1]), items[|items| - 1];
      if IsIpv4(item) then front + [item] else front
  }

  // The n-th IPv4 name server of a comma-separated list, or nothing.
  function Server(dns: string, n: nat): string {
    var servers := Ipv4s(Items(Split(dns, ',')));
    if n < |servers| then servers[n] else ""
  }

  function FieldsOf(iface: Section, peer: Section): Fields {
    var extras := Extras(AWG_KEYS, iface);
    var dns := Lookup(iface, "DNS");
    Fields(Lookup(iface, "PrivateKey"), Lookup(iface, "Address"), Server(dns, 0), Server(dns, 1),
           OrZero(Lookup(iface, "MTU")), extras, Lookup(peer, "PublicKey"), Lookup(peer, "PresharedKey"),
           HostOf(Lookup(peer, "Endpoint")), PortOf(Lookup(peer, "Endpoint")),
           Items(Split(Lookup(peer, "AllowedIPs"), ',')), OrZero(Lookup(peer, "PersistentKeepalive")),
           "S3" in extras && "S4" in extras)
  }

  function Read(conf: string): Result<Fields, ReadError> {
    match ReadLines(Split(conf, '\n'))
    case Err(e) => Err(e)
    case Ok(c) =>
      if "Interface" in c.sections && "Peer" in c.sections
      then Ok(FieldsOf(c.sections["Interface"], c.sections["Peer"])) else Err(MissingSection)
  }

  /** The reader as it runs: lines taken one by one, then the obfuscation keys gathered in a loop. */
  method ReadFields(conf: string) returns (r: Result<Fields, ReadError>)
    ensures r == Read(conf)
  {
    hide ReadLine, FieldsOf;
    var lines := Split(conf, '\n');
    var c := Conf(map[], None);
    for i := 0 to |lines|
      invariant c.Valid() && ReadLines(lines[..i]) == Ok(c)
    {
      assert lines[..i + 1][..i] == lines[..i];
      match ReadLine(c, lines[i])
      case Err(e) =>
        ReadErrorStays(lines, i + 1);
        return Err(e);
      case Ok(next) => c := next;
    }
    assert lines[..|lines|] == lines;
    if "Interface" !in c.sections || "Peer" !in c.sections {
      return Err(MissingSection);
    }
    var fields := TakeFields(c.sections["Interface"], c.sections["Peer"]);
    r := Ok(fields);
  }

  method TakeFields(iface: Section, peer: Section) returns (fields: Fields)
    ensures fields == FieldsOf(iface, peer)
  {
    hide Lookup, HostOf, PortOf, Server;
    var extras: map<string, string> := map[];
    for i := 0 to |AWG_KEYS|
      invariant extras == Extras(AWG_KEYS[..i], iface)
    {
      assert AWG_KEYS[..i + 1][..i] == AWG_KEYS[..i];
      var value := Lookup(iface, AWG_KEYS[i]);
      if value != "" {
        extras := extras[AWG_KEYS[i] := value];
      }
    }
    assert AWG_KEYS[..|AWG_KEYS|] == AWG_KEYS;
    var endpoint := Lookup(peer, "Endpoint");
    var dns := Lookup(iface, "DNS");
    fields := Fields(Lookup(iface, "PrivateKey"), Lookup(iface, "Address"), Server(dns, 0), Server(dns, 1),
                     OrZero(Lookup(iface, "MTU")), extras, Lookup(peer, "PublicKey"), Lookup(peer, "PresharedKey"),
                     HostOf(endpoint), PortOf(endpoint), Items(Split(Lookup(peer, "AllowedIPs"), ',')),
                     OrZero(Lookup(peer, "PersistentKeepalive")), "S3" in extras && "S4" in extras);
  }

  lemma {:induction false} ReadErrorStays(lines: seq<string>, n: nat)
    requires n <= |lines| && ReadLines(lines[..n]).Err?
    ensures ReadLines(lines) == ReadLines(lines[..n])
  {
    hide ReadLine;
    if n == |lines| {
      assert lines[..n] == lines;
    } else {
      assert lines[..|lines| - 1][..n] == lines[..n];
      ReadErrorStays(lines[..|lines| - 1], n);
    }
  }
}

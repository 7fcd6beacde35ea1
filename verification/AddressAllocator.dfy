/** Client tunnel addresses, unique per subnet among the active devices. */
module AddressAllocator {
  import opened Text
  import opened Numerals

  // A value of the request parameters.
  datatype Value = Missing | Text(text: string) | Number(n: int)
  datatype Params = Params(subnetAddress: Value, amneziaSubnet: Value, subnetCidr: Value, amneziaCidr: Value)
  datatype Subnet = Subnet(base: string, cidr: int)

  datatype Device = Device(allowedIps: Option<string>, active: bool)

  // The address for the client's config and the allowed-ips stored for the peer.
  datatype Allocation = Allocation(address: string, allowedIps: string)

  predicate Truthy(v: Value) {
    match v case Missing => false case Text(t) => t != "" case Number(n) => n != 0
  }

  function Or(v: Value, w: Value): Value {
    if Truthy(v) then v else w
  }

  function Str(v: Value): string {
    match v case Missing => "None" case Text(t) => t case Number(n) => IntText(n)
  }

  function Int(v: Value): Option<int> {
    match v case Missing => None case Text(t) => ParseInt(t) case Number(n) => Some(n)
  }

  function SubnetBaseAndCidr(p: Params): Option<Subnet> {
    var subnet := Or(p.subnetAddress, p.amneziaSubnet);
    var cidr := Or(Or(p.subnetCidr, p.amneziaCidr), Number(24));
    var parts := Split(Strip(Str(subnet)), '.');
    if !Truthy(subnet) || |parts| != 4 then None
    else
      match Int(cidr)
      case Some(c) => Some(Subnet(Join(parts[..3], '.'), c))
      case None => None
  }

  // The subnet an allocation is made in.
  function Chosen(p: Params): Subnet {
    match SubnetBaseAndCidr(p) case Some(s) => s case None => Subnet("10.8.1", 24)
  }

  // The longest prefix of digits.
  function LeadingDigits(s: string): (r: string) {
    if s == "" || !IsDigit(s[0]) then "" else [s[0]] + LeadingDigits(s[1..])
  }

  // Three dotted groups of digits and a fourth that begins with digits: the fourth's number.
  function LastOctet(allowedIps: string): Option<nat> {
    var parts := Split(Strip(allowedIps), '.');
    if |parts| < 4 || !IsDigits(parts[0]) || !IsDigits(parts[1]) || !IsDigits(parts[2]) then None
    else ParseNat(LeadingDigits(parts[3]))
  }

  predicate OfBase(d: Device, base: string) {
    d.active && d.allowedIps.Some? && StartsWith(d.allowedIps.value, base + ".")
  }

  // The last octets that the active devices of a base hold.
  function Used(devices: seq<Device>, base: string): set<nat> {
    if devices == [] then {}
    else
      var front, d := Used(devices[..|devices| - 1], base), devices[|devices| - 1];
      if OfBase(d, base) && LastOctet(d.allowedIps.value).Some? then front + {LastOctet(d.allowedIps.value).value}
      else front
  }

  function Address(base: string, h: nat): string {
    base + "." + NatText(h) + "/32"
  }

  // s.replace("/32", "")
  function WithoutMask(s: string): string {
    if |s| < 3 then s
    else if s[..3] == "/32" then WithoutMask(s[3..])
    else [s[0]] + WithoutMask(s[1..])
  }

  predicate Host(h: int) {
    2 <= h <= 254
  }

  // The lowest free host.
  function NextHost(used: set<nat>, from: nat): (r: Option<nat>)
    requires 2 <= from <= 255
    ensures r.Some? ==> from <= r.value <= 254 && r.value !in used && forall k: nat :: from <= k < r.value ==> k in used
    ensures r.None? ==> forall k: nat :: from <= k <= 254 ==> k in used
    decreases 255 - from
  {
    if from == 255 then None
    else if from !in used then Some(from)
    else NextHost(used, from + 1)
  }

  function Allocated(devices: seq<Device>, p: Params): Option<Allocation> {
    var s := Chosen(p);
    match NextHost(Used(devices, s.base), 2)
    case Some(h) => Some(Allocation(WithoutMask(Address(s.base, h)) + "/" + IntText(s.cidr), Address(s.base, h)))
    case None => None
  }

  // None is the ValueError of a full subnet.
  method AllocateNextAddress(base: string, used: set<nat>) returns (r: Option<string>)
    ensures r.Some? <==> exists h: nat :: Host(h) && h !in used
    ensures r.Some? ==> exists h: nat :: Host(h) && h !in used && r.value == Address(base, h) &&
                          forall k: nat :: Host(k) && k < h ==> k in used
    ensures r == match NextHost(used, 2) case Some(h) => Some(Address(base, h)) case None => None
  {
    for h := 2 to 255
      invariant forall k: nat :: 2 <= k < h ==> k in used
      invariant NextHost(used, 2) == NextHost(used, h)
    {
      if h !in used {
        assert Host(h);
        return Some(Address(base, h));
      }
    }
    return None;
  }

  class Registry {
    var devices: seq<Device>

    constructor ()
      ensures devices == []
    {
      devices := [];
    }

    method AllocateAddressForDevice(p: Params) returns (r: Option<Allocation>)
      ensures r == Allocated(devices, p)
    {
      hide LastOctet, WithoutMask, SubnetBaseAndCidr;
      var parsed := SubnetBaseAndCidr(p);
      var base, cidr := "10.8.1", 24;
      if parsed.Some? {
        base, cidr := parsed.value.base, parsed.value.cidr;
      }
      var used: set<nat> := {};
      for i := 0 to |devices|
        invariant used == Used(devices[..i], base)
      {
        var d := devices[i];
        assert devices[..i + 1][..i] == devices[..i];
        if OfBase(d, base) {
          var lo := LastOctet(d.allowedIps.value);
          if lo.Some? {
            used := used + {lo.value};
          }
        }
      }
      assert devices[..|devices|] == devices;
      var next := AllocateNextAddress(base, used);
      if next.None? {
        return None;
      }
      return Some(Allocation(WithoutMask(next.value) + "/" + IntText(cidr), next.value));
    }

    // Allocates, and keeps the new device.
    method Issue(p: Params) returns (r: Option<Allocation>)
      modifies this
      ensures r == Allocated(old(devices), p)
      ensures devices == old(devices) + match r case Some(a) => [Device(Some(a.allowedIps), true)] case None => []
    {
      r := AllocateAddressForDevice(p);
      if r.Some? {
        devices := devices + [Device(Some(r.value.allowedIps), true)];
      }
    }

    method Revoke(i: nat)
      requires i < |devices|
      modifies this
      ensures devices == old(devices)[i := old(devices)[i].(active := false)]
    {
      devices := devices[i := devices[i].(active := false)];
    }
  }
}

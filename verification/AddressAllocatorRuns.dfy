/** Whole runs of allocations and revocations: distinct addresses, lowest free host, success by counting. */
module AddressAllocatorRuns {
  import opened Text
  import opened Numerals
  import opened AddressAllocator

  // Three dotted groups, as every chosen base is.
  ghost predicate IsBase(b: string) {
    |Split(b, '.')| == 3 && b != "" && !IsSpace(b[0])
  }

  // Three groups of digits.
  ghost predicate Numeric(b: string) {
    IsBase(b) && IsDigits(Split(b, '.')[0]) && IsDigits(Split(b, '.')[1]) && IsDigits(Split(b, '.')[2])
  }

  lemma {:induction false} DefaultIsNumeric()
    ensures Numeric("10.8.1")
  {
    hide Split;
    var parts := ["10", "8", "1"];
    assert Join(parts[1..], '.') == "8.1";
    assert Join(parts, '.') == "10.8.1";
    SplitOfJoin(parts, '.');
  }

  lemma {:induction false} JoinFour(parts: seq<string>)
    requires |parts| == 4
    ensures Join(parts, '.') == Join(parts[..3], '.') + "." + parts[3]
  {
    var three := parts[..3];
    assert parts[1..][1..] == parts[2..] && three[1..][1..] == [parts[2]];
    assert Join(parts[2..], '.') == parts[2] + "." + parts[3];
    assert Join(parts[1..], '.') == parts[1] + "." + Join(parts[2..], '.');
    assert Join(three[1..], '.') == parts[1] + "." + parts[2];
  }

  lemma {:induction false} JoinHasLength(parts: seq<string>)
    requires |parts| == 3
    ensures |Join(parts, '.')| >= 2
  {
    assert |Join(parts[1..], '.')| >= 1;
  }

  /** Every subnet an allocation is made in has a base of three dotted groups. */
  lemma {:induction false} ChosenIsBase(p: Params)
    ensures IsBase(Chosen(p).base)
  {
    hide Split, Join, Strip;
    DefaultIsNumeric();
    if SubnetBaseAndCidr(p).Some? {
      var s := Strip(Str(Or(p.subnetAddress, p.amneziaSubnet)));
      var parts := Split(s, '.');
      JoinOfSplit(s, '.');
      SplitOfJoin(parts[..3], '.');
      JoinFour(parts);
      JoinHasLength(parts[..3]);
      StripTrims(Str(Or(p.subnetAddress, p.amneziaSubnet)));
      assert s[0] == Join(parts[..3], '.')[0];
    }
  }

  // ---- reading an address back ----

  lemma {:induction false} SplitAppend(a: string, rest: string)
    ensures Split(a + "." + rest, '.') == Split(a, '.') + Split(rest, '.')
  {
    var s := a + "." + rest;
    if a == "" {
      assert s[1..] == rest;
    } else {
      assert s[1..] == a[1..] + "." + rest;
      SplitAppend(a[1..], rest);
    }
  }

  /** A dotted subnet with a readable prefix length is allocated in by its first three groups; "subnet_address" goes
      before "amnezia_subnet". */
  lemma {:induction false} ChosenBaseIs(p: Params, text: string, b: string, last: string)
    requires text != ""
    requires p.subnetAddress == Text(text) || (!Truthy(p.subnetAddress) && p.amneziaSubnet == Text(text))
    requires Strip(text) == b + "." + last && |Split(b, '.')| == 3 && '.' !in last
    ensures var cidr := Int(Or(Or(p.subnetCidr, p.amneziaCidr), Number(24)));
            Chosen(p) == if cidr.Some? then Subnet(b, cidr.value) else Subnet("10.8.1", 24)
  {
    hide Split, Join, Strip, ParseInt;
    SplitAppend(b, last);
    SplitNoDelimiter(last, '.');
    JoinOfSplit(b, '.');
    assert Split(Strip(text), '.')[..3] == Split(b, '.');
  }

  lemma {:induction false} LeadingDigitsOf(digits: string, rest: string)
    requires AllDigits(digits) && rest != "" && !IsDigit(rest[0])
    ensures LeadingDigits(digits + rest) == digits
  {
    if digits == "" {
      assert digits + rest == rest;
    } else {
      assert (digits + rest)[1..] == digits[1..] + rest;
      LeadingDigitsOf(digits[1..], rest);
    }
  }

  lemma {:induction false} SplitAddress(b: string, h: nat)
    ensures Split(Address(b, h), '.') == Split(b, '.') + [NatText(h) + "/32"]
  {
    hide Split, NatText;
    var rest := NatText(h) + "/32";
    assert Address(b, h) == b + "." + rest;
    SplitAppend(b, rest);
    assert '.' !in NatText(h);
    SplitNoDelimiter(rest, '.');
  }

  /** The regex reads a stored address's host back exactly when its base is numeric, and otherwise nothing. */
  lemma {:induction false} OctetOfAddress(b: string, h: nat)
    requires IsBase(b)
    ensures LastOctet(Address(b, h)) == if Numeric(b) then Some(h) else None
  {
    hide Split, NatText, Strip, ParseNat, LeadingDigits, IsDigits;
    var s := Address(b, h);
    assert s[0] == b[0] && s[|s| - 1] == '2';
    StripOfTrimmed(s);
    SplitAddress(b, h);
    LeadingDigitsOf(NatText(h), "/32");
    ParseOfNatText(h);
  }

  // Three groups of digits, a dot and a number that the rest does not continue.
  ghost predicate ReadsOctet(text: string, b: string, digits: string, rest: string, h: nat) {
    && Strip(text) == b + "." + digits + rest && Numeric(b)
    && digits != "" && AllDigits(digits) && ParseNat(digits) == Some(h)
    && (rest == "" || !IsDigit(rest[0]))
  }

  lemma {:induction false} LeadingDigitsParts(s: string)
    ensures AllDigits(LeadingDigits(s)) && |LeadingDigits(s)| <= |s|
    ensures s == LeadingDigits(s) + s[|LeadingDigits(s)|..]
    ensures |LeadingDigits(s)| < |s| ==> !IsDigit(s[|LeadingDigits(s)|])
  {
    if s != "" && IsDigit(s[0]) {
      LeadingDigitsParts(s[1..]);
    }
  }

  lemma {:induction false} DigitsUntilDot(digits: string, rest: string)
    requires AllDigits(digits) && (rest == "" || !IsDigit(rest[0]))
    ensures LeadingDigits(Split(digits + rest, '.')[0]) == digits
  {
    hide IsDigit;
    if digits == "" {
      assert digits + rest == rest;
      if rest != "" && rest[0] != '.' {
        assert Split(rest, '.')[0][0] == rest[0];
      }
    } else {
      assert (digits + rest)[1..] == digits[1..] + rest;
      assert IsDigit(digits[0]);
      DotNoDigit();
      DigitsUntilDot(digits[1..], rest);
      var first := Split(digits + rest, '.')[0];
      assert first == [digits[0]] + Split(digits[1..] + rest, '.')[0];
      assert first[1..] == Split(digits[1..] + rest, '.')[0];
    }
  }

  lemma {:induction false} DotNoDigit()
    ensures !IsDigit('.')
  {
  }

  lemma {:induction false} JoinSplitsOff(parts: seq<string>)
    requires |parts| >= 4
    ensures Join(parts, '.') == Join(parts[..3], '.') + "." + Join(parts[3..], '.')
  {
    var three := parts[..3];
    assert parts[1..][1..][1..] == parts[3..] && parts[1..][1..] == parts[2..] && parts[2..][1..] == parts[3..];
    assert three[1..] == [parts[1], parts[2]] && three[1..][1..] == [parts[2]];
    assert Join(parts[2..], '.') == parts[2] + "." + Join(parts[3..], '.');
    assert Join(parts[1..], '.') == parts[1] + "." + Join(parts[2..], '.');
    assert Join(three[1..], '.') == parts[1] + "." + parts[2];
  }

  lemma {:induction false} OctetOfText(text: string, b: string, digits: string, rest: string, h: nat)
    requires ReadsOctet(text, b, digits, rest, h)
    ensures LastOctet(text) == Some(h)
  {
    hide Split, Strip, ParseNat, LeadingDigits, IsDigits;
    assert Strip(text) == b + "." + (digits + rest);
    SplitAppend(b, digits + rest);
    DigitsUntilDot(digits, rest);
  }

  lemma {:induction false} OctetHeld(text: string, h: nat) returns (b: string, digits: string, rest: string)
    requires LastOctet(text) == Some(h)
    ensures ReadsOctet(text, b, digits, rest, h)
  {
    hide Split, Strip, LeadingDigits, Join, IsSpace;
    var s := Strip(text);
    var parts := Split(s, '.');
    JoinOfSplit(s, '.');
    SplitOfJoin(parts[..3], '.');
    SplitOfJoin(parts[3..], '.');
    JoinSplitsOff(parts);
    var last := Join(parts[3..], '.');
    LeadingDigitsParts(last);
    b, digits := Join(parts[..3], '.'), LeadingDigits(last);
    rest := last[|digits|..];
    DigitsUntilDot(digits, rest);
    assert digits + rest == last;
    assert ParseNat(digits) == Some(h);
    NumericJoin(parts[..3]);
    assert s == b + "." + digits + rest;
  }

  lemma {:induction false} NumericJoin(parts: seq<string>)
    requires |parts| == 3 && IsDigits(parts[0]) && IsDigits(parts[1]) && IsDigits(parts[2])
    requires forall p :: p in parts ==> '.' !in p
    ensures Numeric(Join(parts, '.'))
  {
    hide Split;
    SplitOfJoin(parts, '.');
    assert Join(parts, '.')[0] == parts[0][0];
  }

  /** A stored text holds a host exactly when it reads as three groups of digits and that number, whatever follows. */
  lemma {:induction false} OctetExactly(text: string, h: nat)
    ensures LastOctet(text) == Some(h) <==> exists b, digits, rest :: ReadsOctet(text, b, digits, rest, h)
  {
    hide LastOctet, ReadsOctet;
    if LastOctet(text) == Some(h) {
      var b, digits, rest := OctetHeld(text, h);
    }
    forall b, digits, rest | ReadsOctet(text, b, digits, rest, h) ensures LastOctet(text) == Some(h) {
      OctetOfText(text, b, digits, rest, h);
    }
  }

  lemma {:induction false} PrefixIsBase(b: string, b': string, h: nat)
    requires IsBase(b) && IsBase(b')
    ensures StartsWith(Address(b', h), b + ".") <==> b == b'
  {
    hide Split, NatText, Join;
    var s := Address(b', h);
    if StartsWith(s, b + ".") {
      var tail := s[|b| + 1..];
      assert s == b + "." + tail;
      SplitAppend(b, tail);
      SplitAddress(b', h);
      assert Split(b, '.') == Split(s, '.')[..3] == Split(b', '.');
      JoinOfSplit(b, '.');
      JoinOfSplit(b', '.');
    }
    if b == b' {
      assert s[..|b| + 1] == b + ".";
    }
  }

  lemma {:induction false} AddressInjective(b: string, h: nat, b': string, h': nat)
    requires IsBase(b) && IsBase(b') && Address(b, h) == Address(b', h')
    ensures b == b' && h == h'
  {
    hide Split, NatText;
    assert Address(b, h)[..|b| + 1] == b + ".";
    PrefixIsBase(b, b', h');
    SplitAddress(b, h);
    SplitAddress(b', h');
    var rest, rest' := NatText(h) + "/32", NatText(h') + "/32";
    assert rest == Split(Address(b, h), '.')[3] == rest';
    assert rest[..|rest| - 3] == NatText(h) && rest'[..|rest'| - 3] == NatText(h');
    NatTextInjective(h, h');
  }

  // ---- runs ----

  datatype Event = Issued(params: Params) | Revoked(index: nat)

  function Step(devices: seq<Device>, e: Event): seq<Device> {
    match e
    case Issued(p) =>
      (match Allocated(devices, p) case Some(a) => devices + [Device(Some(a.allowedIps), true)] case None => devices)
    case Revoked(i) => if i < |devices| then devices[i := devices[i].(active := false)] else devices
  }

  function After(events: seq<Event>): seq<Device> {
    if events == [] then [] else Step(After(events[..|events| - 1]), events[|events| - 1])
  }

  ghost predicate Has(d: Device, b: string, h: nat) {
    d.allowedIps == Some(Address(b, h))
  }

  // An active device holds the address.
  ghost predicate Taken(devices: seq<Device>, b: string, h: nat) {
    exists i :: 0 <= i < |devices| && devices[i].active && Has(devices[i], b, h)
  }

  // Every device got its address from the allocator.
  ghost predicate Kept(devices: seq<Device>) {
    forall i :: 0 <= i < |devices| ==> exists b, h: nat :: IsBase(b) && Host(h) && Has(devices[i], b, h)
  }

  // Active devices with numeric bases have distinct addresses.
  ghost predicate DistinctAddresses(devices: seq<Device>) {
    forall i, j, b, h: nat :: 0 <= i < j < |devices| && devices[i].active && devices[j].active && Numeric(b) ==>
      !(Has(devices[i], b, h) && Has(devices[j], b, h))
  }

  lemma {:induction false} LastUsed(d: Device, b: string, b': string, h': nat)
    requires IsBase(b) && IsBase(b') && Has(d, b', h')
    ensures OfBase(d, b) <==> (d.active && b == b')
    ensures LastOctet(d.allowedIps.value) == if Numeric(b') then Some(h') else None
  {
    hide Numeric, IsBase, LastOctet, Address;
    PrefixIsBase(b, b', h');
    OctetOfAddress(b', h');
  }

  lemma {:induction false} UsedExactly(devices: seq<Device>, b: string, h: nat)
    requires Kept(devices) && IsBase(b)
    ensures h in Used(devices, b) <==> (Numeric(b) && Taken(devices, b, h))
  {
    hide Numeric, IsBase, LastOctet, OfBase, Address, Host;
    if devices != [] {
      var n := |devices| - 1;
      var d := devices[n];
      UsedExactly(devices[..n], b, h);
      var b', h': nat :| IsBase(b') && Host(h') && Has(d, b', h');
      LastUsed(d, b, b', h');
      if Has(d, b, h) {
        AddressInjective(b, h, b', h');
      }
      TakenStep(devices, b, h);
    }
  }

  lemma {:induction false} TakenStep(devices: seq<Device>, b: string, h: nat)
    requires devices != []
    ensures var n := |devices| - 1;
            Taken(devices, b, h) <==> (Taken(devices[..n], b, h) || (devices[n].active && Has(devices[n], b, h)))
  {
    hide Has;
    var n := |devices| - 1;
    if Taken(devices[..n], b, h) {
      var i :| 0 <= i < n && devices[..n][i].active && Has(devices[..n][i], b, h);
      assert devices[i].active && Has(devices[i], b, h);
    }
    if Taken(devices, b, h) {
      var i :| 0 <= i < |devices| && devices[i].active && Has(devices[i], b, h);
      assert i < n ==> devices[..n][i] == devices[i];
    }
  }

  /** An allocation in a numeric subnet takes the lowest host no active device holds, and fails when all are held. */
  lemma {:induction false} TakesLowestFree(devices: seq<Device>, p: Params)
    requires Kept(devices) && Numeric(Chosen(p).base)
    ensures var r, b := Allocated(devices, p), Chosen(p).base;
            && (r.None? <==> forall h: nat :: Host(h) ==> Taken(devices, b, h))
            && (r.Some? ==> exists h: nat :: Host(h) && r.value.allowedIps == Address(b, h) && !Taken(devices, b, h) &&
                                       forall k: nat :: Host(k) && k < h ==> Taken(devices, b, k))
  {
    hide Chosen, Used, Taken, Address, Numeric, Kept, WithoutMask;
    var b := Chosen(p).base;
    ChosenIsBase(p);
    forall h: nat ensures h in Used(devices, b) <==> Taken(devices, b, h) {
      UsedExactly(devices, b, h);
    }
    var next := NextHost(Used(devices, b), 2);
    if next.Some? {
      assert Host(next.value) && !Taken(devices, b, next.value);
      assert Allocated(devices, p).value.allowedIps == Address(b, next.value);
    }
  }

  lemma {:induction false} AllocatedShape(devices: seq<Device>, p: Params)
    requires Allocated(devices, p).Some?
    ensures exists h: nat :: Host(h) && Allocated(devices, p).value.allowedIps == Address(Chosen(p).base, h)
  {
    hide Chosen, Used, Address, WithoutMask;
    var next := NextHost(Used(devices, Chosen(p).base), 2);
    assert Host(next.value);
  }

  lemma {:induction false} StepKept(devices: seq<Device>, e: Event)
    requires Kept(devices)
    ensures Kept(Step(devices, e))
  {
    hide IsBase, Allocated, Chosen, Host, Address;
    if e.Issued? && Allocated(devices, e.params).Some? {
      ChosenIsBase(e.params);
      AllocatedShape(devices, e.params);
      var h: nat :| Host(h) && Allocated(devices, e.params).value.allowedIps == Address(Chosen(e.params).base, h);
      assert Has(Step(devices, e)[|devices|], Chosen(e.params).base, h);
    } else if e.Revoked? && e.index < |devices| {
      var after := Step(devices, e);
      forall i | 0 <= i < |after| ensures exists b, h: nat :: IsBase(b) && Host(h) && Has(after[i], b, h) {
        var b, h: nat :| IsBase(b) && Host(h) && Has(devices[i], b, h);
        assert Has(after[i], b, h);
      }
    }
  }

  lemma {:induction false} StepDistinct(devices: seq<Device>, e: Event)
    requires Kept(devices) && DistinctAddresses(devices)
    ensures DistinctAddresses(Step(devices, e))
  {
    hide Numeric, IsBase, Allocated, Chosen, Host, Address, Kept;
    if e.Issued? && Allocated(devices, e.params).Some? {
      var after, n := Step(devices, e), |devices|;
      forall i, b, h: nat | 0 <= i < n && Numeric(b) && Has(after[n], b, h)
        ensures !(devices[i].active && Has(devices[i], b, h))
      {
        NewAddressFree(devices, e.params, b, h);
      }
    }
  }

  lemma {:induction false} NewAddressFree(devices: seq<Device>, p: Params, b: string, h: nat)
    requires Kept(devices) && Numeric(b)
    requires Allocated(devices, p).Some? && Allocated(devices, p).value.allowedIps == Address(b, h)
    ensures !Taken(devices, b, h)
  {
    hide Allocated, Chosen, Address, Kept, Taken, Host;
    ChosenIsBase(p);
    AllocatedShape(devices, p);
    var k: nat :| Host(k) && Allocated(devices, p).value.allowedIps == Address(Chosen(p).base, k);
    AddressInjective(b, h, Chosen(p).base, k);
    TakesLowestFree(devices, p);
    var m: nat :| Host(m) && Allocated(devices, p).value.allowedIps == Address(b, m) && !Taken(devices, b, m);
    AddressInjective(b, h, b, m);
  }

  /**
   * Over any run of allocations and revocations, active devices with a numeric base have pairwise distinct
   * addresses, whatever other bases are in use.
   */
  lemma {:induction false} AddressesStayDistinct(events: seq<Event>)
    ensures Kept(After(events)) && DistinctAddresses(After(events))
  {
    hide Step, Kept, DistinctAddresses;
    if events == [] {
      EmptyIsFine();
    } else {
      var n := |events| - 1;
      AddressesStayDistinct(events[..n]);
      StepKept(After(events[..n]), events[n]);
      StepDistinct(After(events[..n]), events[n]);
    }
  }

  lemma {:induction false} EmptyIsFine()
    ensures Kept([]) && DistinctAddresses([])
  {
  }

  // ---- counting ----

  function Count(devices: seq<Device>, b: string): nat {
    if devices == [] then 0
    else Count(devices[..|devices| - 1], b) + if OfBase(devices[|devices| - 1], b) then 1 else 0
  }

  lemma {:induction false} UsedSize(devices: seq<Device>, b: string)
    requires Kept(devices) && DistinctAddresses(devices) && Numeric(b)
    ensures |Used(devices, b)| == Count(devices, b)
    ensures Used(devices, b) <= Below(255)
  {
    hide Numeric, IsBase, LastOctet, OfBase, Address, Below;
    BelowMembers(255);
    if devices != [] {
      var n := |devices| - 1;
      var d := devices[n];
      UsedSize(devices[..n], b);
      var b', h': nat :| IsBase(b') && Host(h') && Has(d, b', h');
      assert IsBase(b) by { NumericIsBase(b); }
      LastUsed(d, b, b', h');
      if OfBase(d, b) {
        UsedExactly(devices[..n], b, h');
        assert !Taken(devices[..n], b, h');
      }
    }
  }

  lemma {:induction false} NumericIsBase(b: string)
    requires Numeric(b)
    ensures IsBase(b)
  {
  }

  // The hosts from 2 up to, but not including, n.
  function Below(n: nat): set<nat> {
    if n <= 2 then {} else Below(n - 1) + {n - 1}
  }

  lemma {:induction false} BelowMembers(n: nat)
    ensures forall h: nat :: h in Below(n) <==> 2 <= h < n
    ensures n >= 2 ==> |Below(n)| == n - 2
  {
    if n > 2 {
      BelowMembers(n - 1);
    }
  }

  lemma {:induction false} FullExactly(used: set<nat>)
    requires used <= Below(255)
    ensures (forall h: nat :: Host(h) ==> h in used) <==> |used| == 253
    ensures |used| <= 253
  {
    hide Below;
    BelowMembers(255);
    SubsetSize(used, Below(255));
    if forall h: nat :: Host(h) ==> h in used {
      forall h | h in Below(255) ensures h in used {
        assert Host(h);
      }
      assert used == Below(255);
    }
  }

  lemma {:induction false} SubsetSize(a: set<nat>, b: set<nat>)
    requires a <= b
    ensures |a| <= |b|
    ensures |a| == |b| ==> a == b
  {
    assert b == a + (b - a);
    assert |b| == |a| + |b - a|;
    assert |b - a| == 0 ==> b - a == {};
  }

  /** In any run, an allocation in a numeric subnet succeeds exactly while fewer than 253 of its devices are active. */
  lemma {:induction false} SucceedsExactlyWhen(events: seq<Event>, p: Params)
    requires Numeric(Chosen(p).base)
    ensures Allocated(After(events), p).Some? <==> Count(After(events), Chosen(p).base) < 253
  {
    hide Numeric, Chosen, Used, Count, After, Kept, DistinctAddresses, Address, WithoutMask, Below;
    var devices, b := After(events), Chosen(p).base;
    AddressesStayDistinct(events);
    UsedSize(devices, b);
    FullExactly(Used(devices, b));
    var next := NextHost(Used(devices, b), 2);
    if next.Some? {
      assert Host(next.value) && next.value !in Used(devices, b);
    }
    assert next.None? ==> forall h: nat :: Host(h) ==> h in Used(devices, b);
  }

  // ---- bases that are not numeric ----

  /** A base that is not numeric gives every device host 2, whoever already has it. */
  lemma {:induction false} NotNumericAlwaysTwo(events: seq<Event>, p: Params)
    requires !Numeric(Chosen(p).base)
    ensures Allocated(After(events), p).Some?
    ensures Allocated(After(events), p).value.allowedIps == Address(Chosen(p).base, 2)
  {
    hide Numeric, Chosen, Used, After, Kept, DistinctAddresses, Address, WithoutMask;
    AddressesStayDistinct(events);
    ChosenIsBase(p);
    UsedExactly(After(events), Chosen(p).base, 2);
  }

  /** Two allocations in a row of one subnet differ exactly when its base is numeric. */
  lemma {:induction false} SecondDiffersExactlyWhen(events: seq<Event>, p: Params)
    requires Allocated(After(events), p).Some? && Allocated(After(events + [Issued(p)]), p).Some?
    ensures var first, second := Allocated(After(events), p).value, Allocated(After(events + [Issued(p)]), p).value;
            first.allowedIps != second.allowedIps <==> Numeric(Chosen(p).base)
  {
    hide Numeric, Chosen, Used, Kept, DistinctAddresses, Address, Allocated, IsBase, Host;
    var b := Chosen(p).base;
    if Numeric(b) {
      var devices, again := After(events), After(events + [Issued(p)]);
      assert (events + [Issued(p)])[..|events|] == events;
      AddressesStayDistinct(events + [Issued(p)]);
      AllocatedShape(devices, p);
      var h: nat :| Host(h) && Allocated(devices, p).value.allowedIps == Address(b, h);
      assert again[|devices|].active && Has(again[|devices|], b, h);
      assert Taken(again, b, h);
      if Allocated(again, p).value.allowedIps == Address(b, h) {
        NewAddressFree(again, p, b, h);
      }
    } else {
      NotNumericAlwaysTwo(events, p);
      NotNumericAlwaysTwo(events + [Issued(p)], p);
    }
  }

  // ---- the client's address ----

  lemma {:induction false} WithoutMaskOf(s: string)
    requires '/' !in s
    ensures WithoutMask(s + "/32") == s
  {
    var t := s + "/32";
    if s == "" {
      assert t[3..] == "" && t[..3] == "/32";
    } else {
      assert t[..3][0] == s[0];
      assert t[1..] == s[1..] + "/32";
      WithoutMaskOf(s[1..]);
    }
  }

  lemma {:induction false} NumericNoSlash(b: string)
    requires Numeric(b)
    ensures '/' !in b
  {
    hide Split;
    var parts := Split(b, '.');
    JoinOfSplit(b, '.');
    assert parts == [parts[0], parts[1], parts[2]];
    assert parts[1..][1..] == [parts[2]];
    assert Join(parts[1..], '.') == parts[1] + "." + parts[2];
    assert b == parts[0] + "." + (parts[1] + "." + parts[2]);
  }

  /** The client's config gets the same host with the subnet's own prefix length in place of 32. */
  lemma {:induction false} ConfigAddress(devices: seq<Device>, p: Params, h: nat)
    requires Numeric(Chosen(p).base) && Allocated(devices, p).Some?
    requires Allocated(devices, p).value.allowedIps == Address(Chosen(p).base, h)
    ensures Allocated(devices, p).value.address == Chosen(p).base + "." + NatText(h) + "/" + IntText(Chosen(p).cidr)
  {
    hide Chosen, Used, NatText, IntText, WithoutMask;
    var b := Chosen(p).base;
    NumericNoSlash(b);
    AllocatedShape(devices, p);
    var s := b + "." + NatText(h);
    assert '/' !in NatText(h);
    WithoutMaskOf(s);
    assert Address(b, h) == s + "/32";
  }
}

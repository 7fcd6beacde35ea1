/** The key-value lines of an accepted config: their keys are plain and distinct, their values trimmed. */
module PrintedLines {
  import opened Text
  import opened Numerals
  import opened OrderedDict
  import opened Obfuscation
  import opened ObfuscationProofs
  import opened ConfigBuilder
  import opened ConfigParser
  import opened ConfigRoundTrip
  import Base64
  import WgKey

  // Characters that mean something to the reader or the sanitiser: a line break and the two comment markers.
  predicate IsMarker(c: char) {
    c == '\n' || c == '#' || c == ';'
  }

  // No free text of the input holds c.
  ghost predicate FieldsFree(inp: Input, c: char) {
    && (inp.iface.address.Some? ==> c !in inp.iface.address.value)
    && (inp.iface.dns.Some? ==> c !in inp.iface.dns.value)
    && (inp.peer.endpoint.Some? ==> c !in inp.peer.endpoint.value)
    && c !in inp.peer.allowedIps
    && forall k :: k in inp.obf && inp.obf[k].Str? ==> c !in inp.obf[k].s
  }

  lemma {:induction false} StripFree(s: string, c: char)
    requires c !in s
    ensures c !in Strip(s)
  {
    hide Strip;
    var a, b := StripParts(s);
  }

  // ---- obfuscation values ----

  ghost predicate GoodValue(v: Value) {
    (v.Int? || v.Str?) && Show(v) != "" && Trimmed(Show(v))
  }

  lemma {:induction false} RangeShows(v: Value)
    requires ReadRange(v).Some?
    ensures GoodValue(Str(ReadRange(v).value.rendered))
    ensures forall c :: IsMarker(c) ==> c !in ReadRange(v).value.rendered
  {
    hide ParseInt, ParseNat, NatText, IntText, Strip;
    match v
    case Int(n) =>
    case Str(s) =>
      var t := Strip(s);
      if !IsDigits(DropDashes(t)) {
        var r := ReadRange(v).value;
        var lo, hi := ParseNat(Strip(t[..IndexOf(t, '-')])).value, ParseNat(Strip(t[IndexOf(t, '-') + 1..])).value;
        assert r.rendered == NatText(lo) + "-" + NatText(hi);
      }
  }

  lemma {:induction false} NormalKeyShows(p: Profile, k: string, v: Value)
    requires NormalKey(p, k, v).Ok? && NormalKey(p, k, v).value.Some?
    ensures GoodValue(NormalKey(p, k, v).value.value)
    ensures forall c :: IsMarker(c) && (v.Str? ==> c !in v.s) ==> c !in Show(NormalKey(p, k, v).value.value)
  {
    hide ReadRange, ReadInt, InAwg2Range, InLegacyRange, Strip, NatText;
    if k in TEXT_KEYS {
      StripTrims(v.s);
      forall c | c !in v.s ensures c !in Strip(v.s) {
        StripFree(v.s, c);
      }
    } else if k in H_KEYS {
      RangeShows(v);
    }
  }

  lemma {:induction false} OrdersAgree(k: string)
    requires k in AWG2_ORDER || k in LEGACY_ORDER
    ensures k in EMIT_ORDER && k in AWG_KEYS
  {
  }

  lemma {:induction false} EmittedGood(inp: Input)
    requires EmittedParams(inp).Ok?
    ensures var obf := EmittedParams(inp).value;
            && (forall k :: k in obf ==> k in EMIT_ORDER && k in AWG_KEYS && GoodValue(obf[k]))
            && (forall k, c :: k in obf && IsMarker(c) && FieldsFree(inp, c) ==> c !in Show(obf[k]))
  {
    hide Collect, CrossChecked, PairwiseApart, NormalKey, Show, Ranges;
    var obf := EmittedParams(inp).value;
    forall k | k in obf
      ensures k in EMIT_ORDER && k in AWG_KEYS && GoodValue(obf[k])
      ensures forall c :: IsMarker(c) && FieldsFree(inp, c) ==> c !in Show(obf[k])
    {
      var p := if inp.profile.AwgLegacyOrBasic? then Legacy else Awg2(EffectiveMtu(inp));
      var order := if inp.profile.AwgLegacyOrBasic? then LEGACY_ORDER else AWG2_ORDER;
      CrossCheckedFacts(Collect(p, order, inp.obf).value);
      CollectAt(p, order, inp.obf, k);
      OrdersAgree(k);
      NormalKeyShows(p, k, Get(inp.obf, k));
    }
  }

  lemma {:induction false} EmitKvsMembers(order: seq<string>, obf: Params)
    ensures forall i :: 0 <= i < |EmitKvs(order, obf)| ==>
              EmitKvs(order, obf)[i].key in order && EmitKvs(order, obf)[i].key in obf
    ensures forall i :: 0 <= i < |EmitKvs(order, obf)| ==>
              EmitKvs(order, obf)[i] == Kv(EmitKvs(order, obf)[i].key, Show(Get(obf, EmitKvs(order, obf)[i].key)))
  {
    hide Show;
    if order != [] {
      var n := |order| - 1;
      EmitKvsMembers(order[..n], obf);
      var front := EmitKvs(order[..n], obf);
      assert forall i :: 0 <= i < |front| ==> front[i].key in order[..n];
      assert forall k :: k in order[..n] ==> k in order;
    }
  }

  lemma {:induction false} EmitKvsFacts(order: seq<string>, obf: Params)
    requires Distinct(order)
    ensures DistinctKeys(EmitKvs(order, obf))
  {
    hide Show;
    if order != [] {
      var n := |order| - 1;
      EmitKvsFacts(order[..n], obf);
      EmitKvsMembers(order[..n], obf);
      var front := EmitKvs(order[..n], obf);
      var kvs := EmitKvs(order, obf);
      assert order[n] !in order[..n];
      assert forall i :: 0 <= i < |front| ==> front[i].key in order[..n];
      forall i, j | 0 <= i < j < |kvs| ensures kvs[i].key != kvs[j].key {
        assert kvs[i] == front[i];
        if j < |front| {
          assert front[i].key != front[j].key;
        } else {
          assert front[i].key in order[..n] && kvs[j].key == order[n];
        }
      }
    }
  }

  lemma {:induction false} EmitKvsHas(order: seq<string>, obf: Params, k: string) returns (i: nat)
    requires k in order && k in obf
    ensures i < |EmitKvs(order, obf)| && EmitKvs(order, obf)[i] == Kv(k, Show(obf[k]))
  {
    hide Show;
    var n := |order| - 1;
    if order[n] == k {
      i := |EmitKvs(order, obf)| - 1;
    } else {
      assert order == order[..n] + [order[n]];
      i := EmitKvsHas(order[..n], obf, k);
    }
  }

  // ---- keys ----

  lemma {:induction false} EmitOrderDistinct()
    ensures Distinct(EMIT_ORDER)
  {
  }

  predicate IsAwgInitial(c: char) {
    c == 'J' || c == 'S' || c == 'H' || c == 'I'
  }

  lemma {:induction false} EmitKeysPlain(k: string)
    requires k in EMIT_ORDER
    ensures PlainKey(k) && k != "" && IsAwgInitial(k[0])
  {
  }

  lemma {:induction false} FixedKeysPlain()
    ensures PlainKey("PrivateKey") && PlainKey("Address") && PlainKey("DNS") && PlainKey("MTU")
    ensures PlainKey("PublicKey") && PlainKey("Endpoint") && PlainKey("AllowedIPs") && PlainKey("PersistentKeepalive")
    ensures PlainKey("PresharedKey")
  {
    hide PlainKey;
    ShortKeysPlain();
    LongKeysPlain();
    KeepaliveKeyPlain();
  }

  lemma {:induction false} ShortKeysPlain()
    ensures PlainKey("Address") && PlainKey("DNS") && PlainKey("MTU") && PlainKey("Endpoint")
  {
  }

  lemma {:induction false} LongKeysPlain()
    ensures PlainKey("PrivateKey") && PlainKey("PublicKey") && PlainKey("AllowedIPs") && PlainKey("PresharedKey")
  {
  }

  lemma {:induction false} KeepaliveKeyPlain()
    ensures PlainKey("PersistentKeepalive")
  {
  }

  lemma {:induction false} PlainKeysConcat(a: seq<Kv>, b: seq<Kv>)
    requires PlainKeys(a) && PlainKeys(b)
    requires forall i, j :: 0 <= i < |a| && 0 <= j < |b| ==> a[i].key != b[j].key
    ensures PlainKeys(a + b)
  {
    hide PlainKey;
    var c := a + b;
    forall i, j | 0 <= i < j < |c| ensures c[i].key != c[j].key {
      assert j < |a| || c[j] == b[j - |a|];
      assert i < |a| || c[i] == b[i - |a|];
    }
  }

  lemma {:induction false} InterfaceKeysPlain(inp: Input, obf: Params)
    ensures PlainKeys(InterfaceKvs(inp, obf))
    ensures forall i :: 0 <= i < |InterfaceKvs(inp, obf)| - |EmitKvs(EMIT_ORDER, obf)| ==>
              !IsAwgInitial(InterfaceKvs(inp, obf)[i].key[0])
  {
    hide PlainKey, Strip, DnsText, IntText, EffectiveMtu, Show;
    FixedKeysPlain();
    EmitOrderDistinct();
    var emitted := EmitKvs(EMIT_ORDER, obf);
    EmitKvsFacts(EMIT_ORDER, obf);
    EmitKvsMembers(EMIT_ORDER, obf);
    forall i | 0 <= i < |emitted|
      ensures PlainKey(emitted[i].key) && emitted[i].key != "" && IsAwgInitial(emitted[i].key[0])
    {
      assert emitted[i].key in EMIT_ORDER;
      EmitKeysPlain(emitted[i].key);
    }
    var head := InterfaceKvs(inp, obf)[..|InterfaceKvs(inp, obf)| - |emitted|];
    assert InterfaceKvs(inp, obf) == head + emitted;
    HeadKeys(inp, obf, head);
    PlainKeysConcat(head, emitted);
  }

  lemma {:induction false} HeadKeys(inp: Input, obf: Params, head: seq<Kv>)
    requires |EmitKvs(EMIT_ORDER, obf)| <= |InterfaceKvs(inp, obf)|
    requires head == InterfaceKvs(inp, obf)[..|InterfaceKvs(inp, obf)| - |EmitKvs(EMIT_ORDER, obf)|]
    ensures PlainKeys(head) && forall i :: 0 <= i < |head| ==> !IsAwgInitial(head[i].key[0])
  {
    hide PlainKey, Strip, DnsText, IntText, EffectiveMtu, EmitKvs;
    FixedKeysPlain();
    var mtu := EffectiveMtu(inp);
    assert |head| == 3 || |head| == 4;
    assert head[0].key == "PrivateKey" && head[1].key == "Address" && head[2].key == "DNS";
    assert |head| == 4 ==> head[3].key == "MTU";
  }

  lemma {:induction false} PeerKeysPlain(inp: Input, items: seq<string>)
    ensures PlainKeys(PeerKvs(inp, items))
  {
    hide PlainKey, Strip, CommaJoin, IntText;
    FixedKeysPlain();
    var kvs := PeerKvs(inp, items);
    assert kvs[0].key == "PublicKey" && kvs[1].key == "Endpoint" && kvs[2].key == "AllowedIPs";
    assert kvs[3].key == "PersistentKeepalive" && (|kvs| == 5 ==> kvs[4].key == "PresharedKey");
  }

  // ---- values ----

  ghost predicate GoodText(s: string) {
    s != "" && Trimmed(s)
  }

  lemma {:induction false} CommaJoinGood(items: seq<string>)
    requires items != [] && forall i :: 0 <= i < |items| ==> GoodText(items[i])
    ensures GoodText(CommaJoin(items))
  {
    if |items| > 1 {
      CommaJoinGood(items[1..]);
      var rest := CommaJoin(items[1..]);
      assert CommaJoin(items)[|CommaJoin(items)| - 1] == rest[|rest| - 1];
    }
  }

  lemma {:induction false} CommaJoinFree(items: seq<string>, c: char)
    requires c != ',' && c != ' ' && forall i :: 0 <= i < |items| ==> c !in items[i]
    ensures c !in CommaJoin(items)
  {
    if |items| > 1 {
      CommaJoinFree(items[1..], c);
    }
  }

  lemma {:induction false} AllowedItems(inp: Input)
    requires ValidateAllowedIps(inp.peer.allowedIps, inp.checks).Ok?
    ensures var items := ValidateAllowedIps(inp.peer.allowedIps, inp.checks).value;
            && items != [] && (forall i :: 0 <= i < |items| ==> GoodText(items[i]) && ',' !in items[i])
            && forall c :: c !in inp.peer.allowedIps ==> forall i :: 0 <= i < |items| ==> c !in items[i]
  {
    hide Strip, Split, FirstInvalid;
    var parts := Split(inp.peer.allowedIps, ',');
    var items := StripAll(parts);
    JoinOfSplit(inp.peer.allowedIps, ',');
    forall i | 0 <= i < |items| ensures GoodText(items[i]) && ',' !in items[i] {
      assert items[i] in items && parts[i] in parts;
      StripTrims(parts[i]);
      StripFree(parts[i], ',');
    }
    forall c, i | c !in inp.peer.allowedIps && 0 <= i < |items| ensures c !in items[i] {
      if c in parts[i] {
        PartOfSplit(inp.peer.allowedIps, ',', i, c);
      }
      StripFree(parts[i], c);
    }
  }

  lemma {:induction false} PartOfSplit(s: string, d: char, i: nat, c: char)
    requires i < |Split(s, d)| && c in Split(s, d)[i]
    ensures c in s
  {
    if s != "" {
      var rest := Split(s[1..], d);
      if s[0] == d {
        if i > 0 {
          PartOfSplit(s[1..], d, i - 1, c);
        }
      } else if i > 0 {
        assert Split(s, d)[i] == rest[i];
        PartOfSplit(s[1..], d, i, c);
      } else if c != s[0] {
        assert Split(s, d)[0] == [s[0]] + rest[0];
        PartOfSplit(s[1..], d, 0, c);
      }
    }
  }

  lemma {:induction false} KeyTextFree(k: string, c: char)
    requires WgKey.IsKeyText(k) && IsMarker(c)
    ensures GoodText(k) && c !in k
  {
    WgKey.KeyTextTrimmed(k);
    var body := k[..43];
    forall i | 0 <= i < |k| ensures k[i] != c {
      assert i < 43 ==> k[i] == body[i] && Base64.ValueOf(body[i], Base64.Standard).Some?;
    }
  }

  lemma {:induction false} AcceptedKey(name: string, raw: string, c: char)
    requires KeyOf(name, raw).Ok? && IsMarker(c)
    ensures GoodText(Strip(raw)) && c !in Strip(raw)
  {
    hide WgKey.ValidateKey, Strip, WgKey.IsKeyText;
    WgKey.AcceptedExactlyWhen(raw);
    KeyTextFree(Strip(raw), c);
  }

  // What acceptance says of the printed values.
  ghost predicate ValuesGood(kvs: seq<Kv>) {
    forall i :: 0 <= i < |kvs| ==> GoodText(kvs[i].value)
  }

  ghost predicate ValuesFree(kvs: seq<Kv>, c: char) {
    forall i :: 0 <= i < |kvs| ==> c !in kvs[i].value
  }

  lemma {:induction false} DnsGood(dns: Option<string>, c: char)
    requires IsMarker(c) && (dns.Some? ==> c !in dns.value)
    ensures c !in DnsText(dns) && Trimmed(DnsText(dns))
  {
    hide Strip;
    if dns.Some? {
      StripTrims(dns.value);
      StripFree(dns.value, c);
    }
  }

  lemma {:induction false} IntTextGood(n: int, c: char)
    requires IsMarker(c)
    ensures GoodText(IntText(n)) && c !in IntText(n)
  {
    hide IntText;
  }

  lemma {:induction false} EmittedValues(inp: Input, obf: Params, c: char)
    requires EmittedParams(inp) == Ok(obf) && IsMarker(c)
    ensures ValuesGood(EmitKvs(EMIT_ORDER, obf))
    ensures FieldsFree(inp, c) ==> ValuesFree(EmitKvs(EMIT_ORDER, obf), c)
  {
    hide EmittedParams, Show, EmitKvs, FieldsFree;
    EmittedGood(inp);
    EmitKvsMembers(EMIT_ORDER, obf);
    var kvs := EmitKvs(EMIT_ORDER, obf);
    forall i | 0 <= i < |kvs| ensures GoodText(kvs[i].value) && (FieldsFree(inp, c) ==> c !in kvs[i].value) {
      assert kvs[i].key in obf;
    }
  }

  lemma {:induction false} HeadValues(inp: Input, c: char)
    requires Errors(inp) == [] && IsMarker(c)
    ensures var kvs := InterfaceKvs(inp, map[])[..3] + MtuKvs(EffectiveMtu(inp));
            && (DnsText(inp.iface.dns) != "" ==> ValuesGood(kvs))
            && (FieldsFree(inp, c) ==> ValuesFree(kvs, c))
  {
    hide Strip, DnsText, IntText, EffectiveMtu, Errors, KeyOf, EmitKvs;
    NoErrors(inp);
    AcceptedKey("PrivateKey", inp.iface.privateKey, c);
    var addr := inp.iface.address.value;
    StripTrims(addr);
    AddressNonblank(inp);
    if EffectiveMtu(inp).Some? {
      IntTextGood(EffectiveMtu(inp).value, c);
    }
    DnsTrimmed(inp.iface.dns);
    if FieldsFree(inp, c) {
      DnsGood(inp.iface.dns, c);
      StripFree(addr, c);
    }
  }

  lemma {:induction false} AddressNonblank(inp: Input)
    requires inp.iface.address.Some? && ValidateAddress(inp.iface.address, inp.checks).Ok?
    ensures Strip(inp.iface.address.value) != ""
  {
    hide Strip;
  }

  lemma {:induction false} InterfaceValues(inp: Input, obf: Params, c: char)
    requires Errors(inp) == [] && EmittedParams(inp) == Ok(obf) && IsMarker(c)
    ensures DnsText(inp.iface.dns) != "" ==> ValuesGood(InterfaceKvs(inp, obf))
    ensures FieldsFree(inp, c) ==> ValuesFree(InterfaceKvs(inp, obf), c)
  {
    hide EmitKvs, Errors, EmittedParams, FieldsFree, DnsText, Strip, MtuKvs, GoodText;
    EmittedValues(inp, obf, c);
    HeadValues(inp, c);
    assert InterfaceKvs(inp, obf) ==
           InterfaceKvs(inp, map[])[..3] + MtuKvs(EffectiveMtu(inp)) + EmitKvs(EMIT_ORDER, obf);
  }

  lemma {:induction false} DnsTrimmed(dns: Option<string>)
    ensures Trimmed(DnsText(dns))
  {
    hide Strip;
    if dns.Some? {
      StripTrims(dns.value);
    }
  }

  lemma {:induction false} PeerValues(inp: Input, c: char)
    requires Errors(inp) == [] && IsMarker(c)
    requires HasPsk(inp) ==> KeyOf("PresharedKey", inp.peer.psk.value).Ok?
    ensures ValidateAllowedIps(inp.peer.allowedIps, inp.checks).Ok?
    ensures var kvs := PeerKvs(inp, ValidateAllowedIps(inp.peer.allowedIps, inp.checks).value);
            ValuesGood(kvs) && (FieldsFree(inp, c) ==> ValuesFree(kvs, c))
  {
    hide Strip, IntText, CommaJoin, Errors, ValidateAllowedIps, KeyOf;
    NoErrors(inp);
    var items := ValidateAllowedIps(inp.peer.allowedIps, inp.checks).value;
    AllowedItems(inp);
    CommaJoinGood(items);
    AcceptedKey("PublicKey", inp.peer.publicKey, c);
    var ep := inp.peer.endpoint.value;
    StripTrims(ep);
    EndpointNonblank(inp);
    IntTextGood(inp.peer.keepalive, c);
    if HasPsk(inp) {
      AcceptedKey("PresharedKey", inp.peer.psk.value, c);
    }
    if FieldsFree(inp, c) {
      StripFree(ep, c);
      CommaJoinFree(items, c);
    }
  }

  lemma {:induction false} EndpointNonblank(inp: Input)
    requires inp.peer.endpoint.Some? && ValidateEndpoint(inp.peer.endpoint, inp.checks).Ok?
    ensures Strip(inp.peer.endpoint.value) != ""
  {
    hide Strip;
  }
}

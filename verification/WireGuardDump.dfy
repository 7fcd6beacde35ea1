/** Reading `awg show <iface> dump`: how the runtime snapshot of a reconcile pass comes about. */
module WireGuardDump {
  import opened Text
  import opened OrderedDict
  import opened Reconciler
  import opened ReconcilerSafety
  import opened ReconcilerConvergence

  // A peer line has at least eight tab-separated fields and a nonblank key; other lines are skipped.
  function PeerOfLine(line: string): (p: Option<RuntimePeer>)
    ensures p.Some? ==> p.value.publicKey != ""
  {
    var parts := Split(line, '\t');
    if |parts| < 8 || Strip(parts[0]) == "" then None
    else Some(RuntimePeer(Strip(parts[0]), Strip(parts[3])))
  }

  /** A line of tab-separated parts is a peer exactly when there are at least eight and the first is not blank; the
      first part is its key and the fourth its allowed-ips, without the blanks around them. */
  lemma {:induction false} PeerLineExactly(parts: seq<string>)
    requires |parts| >= 1 && forall p :: p in parts ==> '\t' !in p
    ensures var p := PeerOfLine(Join(parts, '\t'));
            && (p.Some? <==> (|parts| >= 8 && !Blank(parts[0])))
            && (p.Some? ==> p.value == RuntimePeer(Strip(parts[0]), Strip(parts[3])))
  {
    hide Strip, Split, Join;
    SplitOfJoin(parts, '\t');
    StripEmptyIsBlank(parts[0]);
  }

  function PeersOfLines(lines: seq<string>): seq<RuntimePeer> {
    if lines == [] then []
    else
      var front, p := PeersOfLines(lines[..|lines| - 1]), PeerOfLine(lines[|lines| - 1]);
      if p.None? then front else front + [p.value]
  }

  function NonblankLines(lines: seq<string>): seq<string> {
    if lines == [] then []
    else
      var front := NonblankLines(lines[..|lines| - 1]);
      if Strip(lines[|lines| - 1]) == "" then front else front + [lines[|lines| - 1]]
  }

  // The peers of a dump: the first nonblank line describes the interface, the rest its peers.
  method ParseDump(dump: seq<string>) returns (peers: seq<RuntimePeer>)
    ensures peers == if NonblankLines(dump) == [] then [] else PeersOfLines(NonblankLines(dump)[1..])
    ensures StrippedKeys(peers)
  {
    var lines := [];
    var i := 0;
    while i < |dump|
      invariant 0 <= i <= |dump| && lines == NonblankLines(dump[..i])
    {
      assert dump[..i + 1][..i] == dump[..i];
      if Strip(dump[i]) != "" {
        lines := lines + [dump[i]];
      }
      i := i + 1;
    }
    assert dump[..i] == dump;
    if lines == [] {
      return [];
    }
    var rest := lines[1..];
    peers := [];
    i := 0;
    while i < |rest|
      invariant 0 <= i <= |rest| && peers == PeersOfLines(rest[..i])
    {
      assert rest[..i + 1][..i] == rest[..i];
      var p := PeerOfLine(rest[i]);
      if p.Some? {
        peers := peers + [p.value];
      }
      i := i + 1;
    }
    assert rest[..i] == rest;
    ParsedKeysStripped(rest);
  }

  lemma {:induction false} ParsedKeysStripped(lines: seq<string>)
    ensures StrippedKeys(PeersOfLines(lines))
  {
    if lines != [] {
      ParsedKeysStripped(lines[..|lines| - 1]);
      var key := Split(lines[|lines| - 1], '\t')[0];
      StripTrims(key);
      StripOfTrimmed(Strip(key));
    }
  }

  // A dump line of a peer; rest holds the fields after the allowed-ips.
  function PeerLine(k: string, psk: string, endpoint: string, allowedIps: string, rest: seq<string>): string {
    Join([k, psk, endpoint, allowedIps] + rest, '\t')
  }

  datatype LineFields = LineFields(psk: string, endpoint: string, rest: seq<string>) {
    ghost predicate TabFree() {
      '\t' !in psk && '\t' !in endpoint && |rest| >= 4 && forall f :: f in rest ==> '\t' !in f
    }
  }

  lemma {:induction false} PeerLineParses(k: string, allowedIps: string, f: LineFields)
    requires KeyOk(k) && f.TabFree() && '\t' !in allowedIps
    ensures PeerOfLine(PeerLine(k, f.psk, f.endpoint, allowedIps, f.rest)) == Some(RuntimePeer(k, Strip(allowedIps)))
  {
    var parts := [k, f.psk, f.endpoint, allowedIps] + f.rest;
    forall p | p in parts ensures '\t' !in p {
      if p == k && '\t' in k {
        var i :| 0 <= i < |k| && k[i] == '\t';
        KeyCharsAt(k, i);
      }
    }
    SplitOfJoin(parts, '\t');
    SanitizeOfKey(k);
  }

  /** Dumping every peer of an interface, in any order and however wg prints the allowed-ips, and parsing the lines
      gives the snapshot that shows what is printed, stripped. */
  lemma {:induction false} ParseOfPrintedDump(wg: string -> string, peers: Peers, keys: seq<string>,
                                              fields: map<string, LineFields>,
                                              lines: seq<string>)
    requires KeysOk(peers) && (forall k :: k in keys <==> k in peers)
    requires forall k :: k in peers ==>
               k in fields && fields[k].TabFree() && '\t' !in wg(peers[k].allowedIps)
    requires |lines| == |keys| && forall i :: 0 <= i < |keys| ==>
               keys[i] in peers && var f := fields[keys[i]];
               lines[i] == PeerLine(keys[i], f.psk, f.endpoint, wg(peers[keys[i]].allowedIps), f.rest)
    ensures IsDump(s => Strip(wg(s)), PeersOfLines(lines), peers)
  {
    hide PeersOfLines, PeerLine, KeyOk, Strip;
    ParsedInOrder(wg, peers, keys, fields, lines);
    forall k | k in peers ensures exists i :: 0 <= i < |lines| && PeersOfLines(lines)[i].publicKey == k {
      var i :| 0 <= i < |keys| && keys[i] == k;
      assert PeersOfLines(lines)[i].publicKey == k;
    }
  }

  lemma {:induction false} ParsedInOrder(wg: string -> string, peers: Peers, keys: seq<string>, fields: map<string,
                                         LineFields>,
                                         lines: seq<string>)
    requires KeysOk(peers)
    requires forall k :: k in peers ==>
               k in fields && fields[k].TabFree() && '\t' !in wg(peers[k].allowedIps)
    requires |lines| == |keys| && forall i :: 0 <= i < |keys| ==>
               keys[i] in peers && var f := fields[keys[i]];
               lines[i] == PeerLine(keys[i], f.psk, f.endpoint, wg(peers[keys[i]].allowedIps), f.rest)
    ensures |PeersOfLines(lines)| == |keys|
    ensures forall i :: 0 <= i < |keys| ==>
              keys[i] in peers && PeersOfLines(lines)[i] == RuntimePeer(keys[i], Strip(wg(peers[keys[i]].allowedIps)))
  {
    if keys != [] {
      var last := |keys| - 1;
      ParsedInOrder(wg, peers, keys[..last], fields, lines[..last]);
      PeerLineParses(keys[last], wg(peers[keys[last]].allowedIps), fields[keys[last]]);
    }
  }
}

/** What the desired state asks for, said of the list the control plane sends. */
module ReconcilerWants {
  import opened Text
  import opened OrderedDict
  import opened Reconciler
  import opened ReconcilerSafety
  import opened ReconcilerConvergence

  // 32 to 64 characters of the base64 alphabet or '='.
  ghost predicate KeyText(s: string) {
    32 <= |s| <= 64 && forall i :: 0 <= i < |s| ==>
      'A' <= s[i] <= 'Z' || 'a' <= s[i] <= 'z' || '0' <= s[i] <= '9' || s[i] == '+' || s[i] == '/' || s[i] == '='
  }

  ghost predicate Mentions(p: DesiredPeer, k: string) {
    Strip(p.publicKey) == k
  }

  ghost predicate LastMention(ps: seq<DesiredPeer>, k: string, i: int) {
    0 <= i < |ps| && Mentions(ps[i], k) && forall j :: i < j < |ps| ==> !Mentions(ps[j], k)
  }

  ghost predicate FirstMention(ps: seq<DesiredPeer>, k: string, i: int) {
    0 <= i < |ps| && Mentions(ps[i], k) && forall j :: 0 <= j < i ==> !Mentions(ps[j], k)
  }

  // The allowed-ips, keepalive and preshared key a listed peer asks for.
  ghost predicate AsksFor(p: DesiredPeer, spec: Spec) {
    && spec.allowedIps == (if p.allowedIps == "" then "0.0.0.0/0, ::/0" else Strip(p.allowedIps))
    && spec.keepalive == (if p.keepalive == 0 then 25 else p.keepalive)
    && (spec.psk.Some? <==> (p.psk.Some? && !Blank(p.psk.value)))
    && (spec.psk.Some? ==> spec.psk.value == Strip(p.psk.value))
  }

  lemma {:induction false} KeyOkExactly(k: string)
    ensures KeyOk(k) <==> KeyText(k)
  {
    KeyCharsExactly(k);
  }

  lemma {:induction false} KeyCharsExactly(k: string)
    ensures KeyChars(k) <==> forall i :: 0 <= i < |k| ==> IsKeyChar(k[i])
  {
    hide IsKeyChar;
    if k != "" {
      KeyCharsExactly(k[1..]);
      assert forall i :: 0 < i < |k| ==> k[i] == k[1..][i - 1];
    }
  }

  // A name is as long as the pattern allows and made of its characters.
  ghost predicate NameText(s: string, most: nat, colons: bool) {
    1 <= |s| <= most && forall i :: 0 <= i < |s| ==>
      'A' <= s[i] <= 'Z' || 'a' <= s[i] <= 'z' || '0' <= s[i] <= '9' || s[i] in "_.-" || (colons && s[i] == ':')
  }

  /** The names that are accepted: 128 characters for a container, the first no punctuation, 32 for an interface. */
  lemma {:induction false} NamesExactly(container: string, iface: string)
    ensures var c, i := Strip(container), Strip(iface);
            NamesOk(container, iface) <==>
              (NameText(c, 128, false) && c[0] !in "_.-" && NameText(i, 32, true))
  {
    hide Strip;
    assert forall ch :: IsNameChar(ch) <==>
      ('A' <= ch <= 'Z' || 'a' <= ch <= 'z' || '0' <= ch <= '9' || ch in "_.-");
  }

  lemma {:induction false} SpecAsked(p: DesiredPeer)
    ensures AsksFor(p, NormalizedSpec(p))
  {
    hide Strip, Blank;
    EmptyStrips();
    if p.psk.Some? {
      StripEmptyIsBlank(p.psk.value);
    }
    DefaultTrimmed();
  }

  lemma {:induction false} EmptyStrips()
    ensures Strip("") == ""
  {
  }

  lemma {:induction false} DefaultTrimmed()
    ensures Strip("0.0.0.0/0, ::/0") == "0.0.0.0/0, ::/0"
  {
    StripOfTrimmed("0.0.0.0/0, ::/0");
  }

  // Collecting a list is collecting its front and then its last peer.
  lemma {:induction false} CollectSnoc(ps: seq<DesiredPeer>, acc: Dict<Spec>)
    requires ps != []
    ensures var front, last := CollectDesired(ps[..|ps| - 1], acc), ps[|ps| - 1];
            CollectDesired(ps, acc) ==
              if front.None? || SanitizePubkey(last.publicKey).None? then None
              else Some(front.value.Put(SanitizePubkey(last.publicKey).value, NormalizedSpec(last)))
    decreases |ps|
  {
    hide SanitizePubkey, NormalizedSpec;
    if |ps| > 1 && SanitizePubkey(ps[0].publicKey).Some? {
      var next := acc.Put(SanitizePubkey(ps[0].publicKey).value, NormalizedSpec(ps[0]));
      CollectSnoc(ps[1..], next);
      assert ps[1..][..|ps| - 2] == ps[..|ps| - 1][1..];
    } else {
      assert |ps| > 1 ==> ps[..|ps| - 1][0] == ps[0];
    }
  }

  /** A desired list is refused exactly when some stripped key is not 32 to 64 key characters. */
  lemma {:induction false} RefusedExactlyWhen(ps: seq<DesiredPeer>)
    ensures CollectDesired(ps, Dict([], map[])).None? <==>
            exists i :: 0 <= i < |ps| && !KeyText(Strip(ps[i].publicKey))
  {
    hide KeyText, KeyOk, Strip, NormalizedSpec;
    if ps != [] {
      var n := |ps| - 1;
      CollectSnoc(ps, Dict([], map[]));
      RefusedExactlyWhen(ps[..n]);
      KeyOkExactly(Strip(ps[n].publicKey));
    }
  }

  lemma {:induction false} NoneWanted()
    ensures CollectDesired([], Dict([], map[])) == Some(Dict([], map[]))
  {
  }

  lemma {:induction false} NoMention(k: string)
    ensures forall i :: !LastMention([], k, i)
  {
  }

  lemma {:induction false} MentionedSnoc(ps: seq<DesiredPeer>, k: string)
    requires ps != []
    ensures var n := |ps| - 1;
            (exists i :: 0 <= i < |ps| && Mentions(ps[i], k)) <==>
              (Mentions(ps[n], k) || exists i :: 0 <= i < |ps[..n]| && Mentions(ps[..n][i], k))
    ensures var n := |ps| - 1;
            forall i :: LastMention(ps, k, i) <==>
              if Mentions(ps[n], k) then i == n else LastMention(ps[..n], k, i)
    ensures var front := ps[..|ps| - 1]; forall i :: 0 <= i < |front| ==> front[i] == ps[i]
    ensures var front := ps[..|ps| - 1]; forall i :: LastMention(front, k, i) ==> 0 <= i < |front|
  {
    hide Mentions;
    var n := |ps| - 1;
    assert forall i :: 0 <= i < n ==> ps[..n][i] == ps[i];
    if exists i :: 0 <= i < |ps| && Mentions(ps[i], k) {
      var i :| 0 <= i < |ps| && Mentions(ps[i], k);
      assert i < n ==> Mentions(ps[..n][i], k);
    }
  }

  /** The desired map holds exactly the mentioned keys, each with what its last mention asks for. */
  lemma {:induction false} WantedExactly(ps: seq<DesiredPeer>, k: string)
    requires CollectDesired(ps, Dict([], map[])).Some?
    ensures k in Wanted(ps).at <==> exists i :: 0 <= i < |ps| && Mentions(ps[i], k)
    ensures forall i :: LastMention(ps, k, i) ==> k in Wanted(ps).at && AsksFor(ps[i], Wanted(ps).at[k])
  {
    hide AsksFor, KeyOk, Strip, NormalizedSpec, CollectDesired, LastMention;
    if ps == [] {
      NoneWanted();
      assert forall i :: !LastMention(ps, k, i) by { NoMention(k); }
    } else {
      var n := |ps| - 1;
      CollectSnoc(ps, Dict([], map[]));
      WantedExactly(ps[..n], k);
      SpecAsked(ps[n]);
      MentionedSnoc(ps, k);
    }
  }

  // Keys in the order of their first mention.
  ghost predicate FirstMentioned(ps: seq<DesiredPeer>, order: seq<string>) {
    forall a, b, i, j ::
      0 <= a < b < |order| && FirstMention(ps, order[a], i) && FirstMention(ps, order[b], j) ==> i < j
  }

  /** And it keeps them in the order of their first mention. */
  lemma {:induction false} WantedOrder(ps: seq<DesiredPeer>)
    requires CollectDesired(ps, Dict([], map[])).Some?
    ensures FirstMentioned(ps, Wanted(ps).order)
  {
    hide KeyOk, Strip, NormalizedSpec, Mentions;
    if ps != [] {
      var n := |ps| - 1;
      var none: Dict<Spec> := Dict([], map[]);
      CollectSnoc(ps, none);
      WantedOrder(ps[..n]);
      var front, order := Wanted(ps[..n]).order, Wanted(ps).order;
      assert none.Valid() && Wanted(ps[..n]).Valid();
      forall k, i | k in front && FirstMention(ps, k, i) ensures FirstMention(ps[..n], k, i) {
        assert k in Elements(front);
        WantedExactly(ps[..n], k);
        var j :| 0 <= j < n && Mentions(ps[..n][j], k);
        assert Mentions(ps[j], k);
      }
      forall a, b, i, j | 0 <= a < b < |order| && FirstMention(ps, order[a], i) && FirstMention(ps, order[b], j)
        ensures i < j
      {
        assert order[a] in front;
        if b < |front| {
          assert order[b] in front;
        } else {
          LastIsNew(ps, order[b]);
        }
      }
    }
  }

  lemma {:induction false} LastIsNew(ps: seq<DesiredPeer>, k: string)
    requires ps != [] && CollectDesired(ps, Dict([], map[])).Some?
    requires CollectDesired(ps[..|ps| - 1], Dict([], map[])).Some? && k !in Wanted(ps[..|ps| - 1]).at
    ensures forall j :: FirstMention(ps, k, j) ==> j == |ps| - 1
  {
    hide KeyOk, Strip, NormalizedSpec, Mentions;
    var n := |ps| - 1;
    WantedExactly(ps[..n], k);
    forall j | 0 <= j < n ensures !Mentions(ps[j], k) {
      assert ps[..n][j] == ps[j];
    }
  }

  // ---- the runtime snapshot ----

  ghost predicate LastShown(ps: seq<RuntimePeer>, k: string, i: int) {
    0 <= i < |ps| && ps[i].publicKey == k && forall j :: i < j < |ps| ==> ps[j].publicKey != k
  }

  lemma {:induction false} RuntimeSnoc(ps: seq<RuntimePeer>, acc: Dict<RuntimePeer>)
    requires ps != []
    ensures var front, last := CollectRuntime(ps[..|ps| - 1], acc), ps[|ps| - 1];
            CollectRuntime(ps, acc) == if last.publicKey == "" then front else front.Put(last.publicKey, last)
    decreases |ps|
  {
    if |ps| > 1 {
      var next := if ps[0].publicKey == "" then acc else acc.Put(ps[0].publicKey, ps[0]);
      RuntimeSnoc(ps[1..], next);
      assert ps[1..][..|ps| - 2] == ps[..|ps| - 1][1..];
    }
  }

  lemma {:induction false} ShownSnoc(ps: seq<RuntimePeer>, k: string)
    requires ps != []
    ensures var n := |ps| - 1;
            (exists i :: 0 <= i < |ps| && ps[i].publicKey == k) <==>
              (ps[n].publicKey == k || exists i :: 0 <= i < |ps[..n]| && ps[..n][i].publicKey == k)
    ensures var n := |ps| - 1;
            forall i :: LastShown(ps, k, i) <==> if ps[n].publicKey == k then i == n else LastShown(ps[..n], k, i)
    ensures var front := ps[..|ps| - 1]; forall i :: LastShown(front, k, i) ==> 0 <= i < |front| && front[i] == ps[i]
  {
    var n := |ps| - 1;
    assert forall i :: 0 <= i < n ==> ps[..n][i] == ps[i];
    if exists i :: 0 <= i < |ps| && ps[i].publicKey == k {
      var i :| 0 <= i < |ps| && ps[i].publicKey == k;
      assert i < n ==> ps[..n][i].publicKey == k;
    }
  }

  /** The snapshot holds exactly the nonempty keys that are shown, each with its last entry. */
  lemma {:induction false} SnapshotExactly(ps: seq<RuntimePeer>, k: string)
    ensures k in CollectRuntime(ps, Dict([], map[])).at <==>
              (k != "" && exists i :: 0 <= i < |ps| && ps[i].publicKey == k)
    ensures var at := CollectRuntime(ps, Dict([], map[])).at;
            forall i :: k != "" && LastShown(ps, k, i) ==> 0 <= i < |ps| && k in at && at[k] == ps[i]
  {
    if ps != [] {
      hide CollectRuntime, LastShown;
      RuntimeSnoc(ps, Dict([], map[]));
      SnapshotExactly(ps[..|ps| - 1], k);
      ShownSnoc(ps, k);
      assert LastShown(ps, k, |ps| - 1) <==> ps[|ps| - 1].publicKey == k;
    }
  }

  // ---- the main results, said of the list ----

  lemma {:induction false} SomeLastMention(ps: seq<DesiredPeer>, k: string) returns (i: int)
    requires exists j :: 0 <= j < |ps| && Mentions(ps[j], k)
    ensures LastMention(ps, k, i)
  {
    hide Mentions;
    var n := |ps| - 1;
    if Mentions(ps[n], k) {
      i := n;
    } else {
      var j :| 0 <= j < |ps| && Mentions(ps[j], k);
      assert ps[..n][j] == ps[j];
      i := SomeLastMention(ps[..n], k);
      forall m | i < m < |ps| ensures !Mentions(ps[m], k) {
        assert m < n ==> ps[..n][m] == ps[m];
      }
    }
  }

  // The interface holds what a listed peer asks for: its allowed-ips show alike, and its preshared key is set.
  ghost predicate Holds(show: string -> string, p: DesiredPeer, np: NodePeer) {
    && (p.allowedIps == "" ==> show(np.allowedIps) == show("0.0.0.0/0, ::/0"))
    && (!Blank(p.allowedIps) ==> show(np.allowedIps) == show(Strip(p.allowedIps)))
    && (p.psk.Some? && !Blank(p.psk.value) ==> np.psk == Some(Strip(p.psk.value)))
  }

  lemma {:induction false} MatchesWhatIsAsked(show: string -> string, p: DesiredPeer, spec: Spec, np: NodePeer)
    requires AsksFor(p, spec)
    ensures Matches(show, spec, np) <==> Holds(show, p, np)
  {
    hide Strip;
    StripEmptyIsBlank(p.allowedIps);
  }

  /** Convergence ends in the listed state: no peer is wrong exactly when the interface has exactly the mentioned keys,
      and each holds what its last mention asks for. */
  lemma {:induction false} NothingWrongOnList(show: string -> string, ps: seq<DesiredPeer>, peers: Peers)
    requires CollectDesired(ps, Dict([], map[])).Some?
    ensures Wrong(show, Wanted(ps).at, peers) == {} <==>
              ((forall k :: k in peers <==> exists i :: 0 <= i < |ps| && Mentions(ps[i], k)) &&
               (forall k, i :: k in peers && LastMention(ps, k, i) ==> Holds(show, ps[i], peers[k])))
  {
    hide Mentions, Holds, AsksFor, CollectDesired, Matches;
    var want := Wanted(ps).at;
    forall k ensures k in want <==> exists i :: 0 <= i < |ps| && Mentions(ps[i], k) {
      WantedExactly(ps, k);
    }
    forall k, i | k in want && k in peers && LastMention(ps, k, i)
      ensures Matches(show, want[k], peers[k]) <==> Holds(show, ps[i], peers[k])
    {
      WantedExactly(ps, k);
      MatchesWhatIsAsked(show, ps[i], want[k], peers[k]);
    }
    forall k | k in want ensures exists i :: LastMention(ps, k, i) {
      var i := SomeLastMention(ps, k);
    }
    WrongExactly(show, want, peers);
  }

  lemma {:induction false} WrongExactly(show: string -> string, want: Wants, peers: Peers)
    ensures Wrong(show, want, peers) == {} <==>
              ((forall k :: k in peers <==> k in want) &&
               forall k :: k in want && k in peers ==> Matches(show, want[k], peers[k]))
  {
    hide Matches;
    if Wrong(show, want, peers) == {} {
      forall k ensures (k in peers <==> k in want) && (k in want && k in peers ==> Matches(show, want[k], peers[k])) {
        assert k !in Wrong(show, want, peers);
      }
    }
  }

  // What a successful command for a listed peer leaves.
  ghost predicate SetAs(p: DesiredPeer, before: Peers, k: string, np: NodePeer) {
    && np.allowedIps == (if p.allowedIps == "" then "0.0.0.0/0, ::/0" else Strip(p.allowedIps))
    && np.psk == (if p.psk.Some? && !Blank(p.psk.value) then Some(Strip(p.psk.value))
                  else if k in before then before[k].psk else None)
  }

  /** Safety in the same terms: only a snapshot key that the list does not mention goes away, and a peer that changes is
      one the list mentions, set to what its last mention asks for, its preshared key kept when none is given. */
  lemma {:induction false} PassIsSafeOnList(cfg: Config, ps: seq<DesiredPeer>, runtime: seq<RuntimePeer>,
                                            ok: nat -> bool, peers: Peers, log: seq<Logged>, k: string)
    requires StrippedKeys(runtime) && CollectDesired(ps, Dict([], map[])).Some?
    ensures var after := Pass(cfg, ps, runtime, ok, peers, log).final.peers;
            && (k in peers && k !in after ==>
                  (forall i :: 0 <= i < |ps| ==> !Mentions(ps[i], k)) &&
                  exists i :: 0 <= i < |runtime| && runtime[i].publicKey == k)
            && (k in after && (k !in peers || after[k] != peers[k]) ==>
                  exists i :: LastMention(ps, k, i) && SetAs(ps[i], peers, k, after[k]))
  {
    hide Pass, CollectDesired, StrippedKeys, Mentions, Strip, Blank;
    PassIsSafe(cfg, ps, runtime, ok, peers, log, k);
    WantedExactly(ps, k);
    if k in Wanted(ps).at {
      var i := SomeLastMention(ps, k);
      assert AsksFor(ps[i], Wanted(ps).at[k]);
    }
  }
}

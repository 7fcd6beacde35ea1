/** Repeated reconcile passes: when they reach the desired peers, how fast, and when they never do. */
module ReconcilerConvergence {
  import opened Text
  import opened OrderedDict
  import opened Reconciler
  import opened ReconcilerSafety

  const AlwaysOk: nat -> bool := (n: nat) => true

  // A snapshot that shows, in any order, what the interface holds.
  ghost predicate IsDump(show: string -> string, runtime: seq<RuntimePeer>, peers: Peers) {
    && (forall i :: 0 <= i < |runtime| ==>
          runtime[i].publicKey in peers && runtime[i].allowedIps == show(peers[runtime[i].publicKey].allowedIps))
    && (forall k :: k in peers ==> exists i :: 0 <= i < |runtime| && runtime[i].publicKey == k)
  }

  ghost predicate KeysOk(peers: Peers) {
    forall k :: k in peers ==> KeyOk(k)
  }

  function Wanted(desired: seq<DesiredPeer>): Dict<Spec>
    requires CollectDesired(desired, Dict([], map[])).Some?
  {
    CollectDesired(desired, Dict([], map[])).value
  }

  // Desired peers that are re-sent in every cycle: those with a preshared key, which the dump does not show, and those
  // whose allowed-ips are not written the way the dump shows them.
  function Restless(show: string -> string, want: Wants): set<string> {
    set k | k in want && Resent(show, want[k])
  }

  predicate Resent(show: string -> string, spec: Spec) {
    spec.psk.Some? || (spec.allowedIps != "" && show(spec.allowedIps) != spec.allowedIps)
  }

  // One cycle in which every command succeeds.
  function Cycle(cfg: Config, desired: seq<DesiredPeer>, dump: seq<RuntimePeer>, peers: Peers): Peers {
    Pass(cfg, desired, dump, AlwaysOk, peers, []).final.peers
  }

  function After(cfg: Config, desired: seq<DesiredPeer>, dumps: seq<seq<RuntimePeer>>, peers: Peers): Peers {
    if dumps == [] then peers else After(cfg, desired, dumps[1..], Cycle(cfg, desired, dumps[0], peers))
  }

  // Each cycle reads the interface as the cycle before left it.
  ghost predicate Faithful(show: string -> string, cfg: Config, desired: seq<DesiredPeer>,
                           dumps: seq<seq<RuntimePeer>>, peers: Peers) {
    dumps == [] ||
    (IsDump(show, dumps[0], peers) && Faithful(show, cfg, desired, dumps[1..], Cycle(cfg, desired, dumps[0], peers)))
  }

  // Whether passes act at all: not read-only, and an empty desired state is allowed to prune.
  predicate Acts(cfg: Config, want: Wants) {
    !cfg.readOnly && (want != map[] || cfg.pruneEmpty)
  }

  // ---- one cycle ----

  lemma {:induction false} CollectDump(show: string -> string, ps: seq<RuntimePeer>, acc: Dict<RuntimePeer>,
                                       peers: Peers)
    requires acc.Valid() && KeysOk(peers)
    requires forall i :: 0 <= i < |ps| ==>
               ps[i].publicKey in peers && ps[i].allowedIps == show(peers[ps[i].publicKey].allowedIps)
    requires forall k :: k in acc.at ==> k in peers && acc.at[k].allowedIps == show(peers[k].allowedIps)
    ensures var d := CollectRuntime(ps, acc);
            && d.Valid()
            && d.at.Keys == acc.at.Keys + (set i | 0 <= i < |ps| :: ps[i].publicKey)
            && forall k :: k in d.at ==> k in peers && d.at[k].allowedIps == show(peers[k].allowedIps)
    decreases |ps|
  {
    if ps != [] {
      assert KeyOk(ps[0].publicKey);
      CollectDump(show, ps[1..], acc.Put(ps[0].publicKey, ps[0]), peers);
      KeySetStep(ps);
    }
  }

  lemma {:induction false} KeySetStep(ps: seq<RuntimePeer>)
    requires ps != []
    ensures (set i | 0 <= i < |ps| :: ps[i].publicKey) ==
            {ps[0].publicKey} + set i | 0 <= i < |ps[1..]| :: ps[1..][i].publicKey
  {
    var front, rest := set i | 0 <= i < |ps| :: ps[i].publicKey, set i | 0 <= i < |ps[1..]| :: ps[1..][i].publicKey;
    forall i | 0 <= i < |ps[1..]| ensures ps[1..][i].publicKey in front {
      assert ps[i + 1].publicKey in front;
    }
    forall i | 0 <= i < |ps| ensures ps[i].publicKey in {ps[0].publicKey} + rest {
      assert i == 0 || ps[1..][i - 1].publicKey in rest;
    }
  }

  lemma {:induction false} DumpCollected(show: string -> string, dump: seq<RuntimePeer>,
                                         peers: Peers) returns (r: Dict<RuntimePeer>)
    requires IsDump(show, dump, peers) && KeysOk(peers)
    ensures r == CollectRuntime(dump, Dict([], map[])) && r.Valid() && r.at.Keys == peers.Keys
    ensures forall k :: k in r.at ==> r.at[k].allowedIps == show(peers[k].allowedIps)
  {
    r := CollectRuntime(dump, Dict([], map[]));
    CollectDump(show, dump, Dict([], map[]), peers);
    var keys := set i | 0 <= i < |dump| :: dump[i].publicKey;
    forall k ensures k in keys <==> k in peers {
      if k in peers {
        var i :| 0 <= i < |dump| && dump[i].publicKey == k;
        assert dump[i].publicKey in keys;
      }
    }
  }

  function PlanKeys(d: Dict<Spec>, r: Dict<RuntimePeer>): seq<string>
    requires d.Valid()
  {
    Without(d.order, r.at.Keys) + ToUpdate(d.order, d.at, r.at) + Without(r.order, d.at.Keys)
  }

  // The i-th command is well formed and names the i-th key.
  ghost predicate Names(cmds: seq<Command>, keys: seq<string>) {
    |cmds| == |keys| && forall i :: 0 <= i < |cmds| ==> !cmds[i].Malformed? && KeyOf(cmds[i]) == keys[i]
  }

  lemma {:induction false} NamesConcat(a: seq<Command>, ka: seq<string>, b: seq<Command>, kb: seq<string>)
    requires Names(a, ka) && Names(b, kb)
    ensures Names(a + b, ka + kb)
  {
  }

  lemma {:induction false} RemovesName(x: seq<string>)
    requires forall i :: 0 <= i < |x| ==> KeyOk(x[i])
    ensures Names(Removes(x), x)
  {
    forall i | 0 <= i < |x| ensures Removes(x)[i] == Remove(x[i]) {
      SanitizeOfKey(x[i]);
    }
  }

  lemma {:induction false} PlanNamesKeys(d: Dict<Spec>, r: Dict<RuntimePeer>)
    requires d.Valid() && r.Valid() && forall k :: k in r.at ==> KeyOk(k)
    ensures Names(Plan(d, r), PlanKeys(d, r))
  {
    var a, u, x := Without(d.order, r.at.Keys), ToUpdate(d.order, d.at, r.at), Without(r.order, d.at.Keys);
    forall i | 0 <= i < |x| ensures KeyOk(x[i]) {
      assert x[i] in r.order && x[i] in Elements(r.order);
    }
    RemovesName(x);
    NamesConcat(Adds(a, d.at), a, Updates(u, d.at), u);
    NamesConcat(Adds(a, d.at) + Updates(u, d.at), a + u, Removes(x), x);
  }

  lemma {:induction false} PlanKeysDistinct(d: Dict<Spec>, r: Dict<RuntimePeer>)
    requires d.Valid() && r.Valid()
    ensures Distinct(PlanKeys(d, r))
  {
    var a, u, x := Without(d.order, r.at.Keys), ToUpdate(d.order, d.at, r.at), Without(r.order, d.at.Keys);
    ToUpdateMembers(d.order, d.at, r.at);
    forall k | k in a || k in u ensures k in d.at {
      assert k in Elements(d.order);
    }
    DistinctConcat(a, u);
    DistinctConcat(a + u, x);
  }

  lemma {:induction false} DistinctConcat(a: seq<string>, b: seq<string>)
    requires Distinct(a) && Distinct(b) && forall k :: k in a ==> k !in b
    ensures Distinct(a + b)
  {
    var c := a + b;
    forall i, j | 0 <= i < j < |c| ensures c[i] != c[j] {
      if i < |a| <= j {
        assert c[i] in a && c[j] in b;
      }
    }
  }

  // A peer that is wanted and present drifts exactly when it is wrong or re-sent anyway.
  lemma {:induction false} DriftsWhenWrong(show: string -> string, want: Wants, runtime: map<string, RuntimePeer>,
                                           peers: Peers, k: string)
    requires Prints(show) && runtime.Keys == peers.Keys
    requires forall k :: k in runtime ==> runtime[k].allowedIps == show(peers[k].allowedIps)
    ensures k in want && k !in runtime ==> k in Wrong(show, want, peers)
    ensures k !in want && k in runtime ==> k in Wrong(show, want, peers)
    ensures k in want && k in runtime ==>
              (Drifts(want[k], runtime[k]) <==> (k in Wrong(show, want, peers) || k in Restless(show, want)))
  {
    hide Strip;
    if k in want && k in runtime {
      StripOfTrimmed(runtime[k].allowedIps);
    }
  }

  // Every wrong peer is a candidate, and a candidate that is already right is one that is re-sent anyway.
  lemma {:induction false} PlanCovers(show: string -> string, d: Dict<Spec>, r: Dict<RuntimePeer>, peers: Peers)
    requires Prints(show) && d.Valid() && r.Valid() && r.at.Keys == peers.Keys
    requires forall k :: k in r.at ==> r.at[k].allowedIps == show(peers[k].allowedIps)
    ensures Wrong(show, d.at, peers) <= Elements(PlanKeys(d, r))
    ensures Elements(PlanKeys(d, r)) - Wrong(show, d.at, peers) <= Restless(show, d.at)
  {
    hide ToUpdate, Without, Drifts;
    var keys := PlanKeys(d, r);
    var a, u, x := Without(d.order, r.at.Keys), ToUpdate(d.order, d.at, r.at), Without(r.order, d.at.Keys);
    assert keys == a + u + x;
    ToUpdateMembers(d.order, d.at, r.at);
    forall k ensures k in d.at <==> k in d.order {
      assert k in d.at <==> k in Elements(d.order);
    }
    forall k ensures k in r.at <==> k in r.order {
      assert k in r.at <==> k in Elements(r.order);
    }
    forall k | k in Wrong(show, d.at, peers) ensures k in Elements(keys) {
      DriftsWhenWrong(show, d.at, r.at, peers, k);
      assert k in a || k in u || k in x;
    }
    forall k | k in Elements(keys) && k !in Wrong(show, d.at, peers) ensures k in Restless(show, d.at) {
      DriftsWhenWrong(show, d.at, r.at, peers, k);
      assert k in a || k in u || k in x;
    }
  }

  // With every command succeeding, the first commands of the plan settle their keys, as many as the budget allows.
  lemma {:induction false} Drains(show: string -> string, want: Wants, plan: seq<Command>, keys: seq<string>,
                                  p: Progress)
    requires WellFormed(want) && Names(plan, keys) && forall i :: 0 <= i < |plan| ==> Fits(want, plan[i])
    ensures var n := if p.left < |plan| then p.left else |plan|;
            Wrong(show, want, Execute(plan, AlwaysOk, p).final.peers) ==
              Wrong(show, want, p.peers) - Elements(keys[..n])
    decreases |plan|
  {
    if plan == [] || p.left == 0 {
      assert Elements(keys[..0]) == {};
    } else {
      var mid := Issue(plan[0], AlwaysOk, p);
      EffectSettles(show, want, plan[0], p.peers);
      Drains(show, want, plan[1..], keys[1..], mid);
      var n := if p.left < |plan| then p.left else |plan|;
      assert keys[..n] == [keys[0]] + keys[1..][..n - 1];
      assert Elements(keys[..n]) == {keys[0]} + Elements(keys[1..][..n - 1]);
    }
  }

  lemma {:induction false} KeysStayOk(plan: seq<Command>, keys: seq<string>, p: Progress)
    requires KeysOk(p.peers) && Names(plan, keys) && forall i :: 0 <= i < |keys| ==> KeyOk(keys[i])
    ensures KeysOk(Execute(plan, AlwaysOk, p).final.peers)
    decreases |plan|
  {
    if plan != [] && p.left > 0 {
      KeysStayOk(plan[1..], keys[1..], Issue(plan[0], AlwaysOk, p));
    }
  }

  // As many keys as the budget allows.
  function Afforded(keys: seq<string>, budget: nat): seq<string> {
    if budget < |keys| then keys[..budget] else keys
  }

  lemma {:induction false} ExecuteDrains(show: string -> string, d: Dict<Spec>, r: Dict<RuntimePeer>, peers: Peers,
                                         budget: nat)
    requires d.Valid() && WellFormed(d.at) && r.Valid() && r.at.Keys == peers.Keys && KeysOk(peers)
    ensures KeysOk(Execute(Plan(d, r), AlwaysOk, Progress(peers, [], budget)).final.peers)
    ensures Wrong(show, d.at, Execute(Plan(d, r), AlwaysOk, Progress(peers, [], budget)).final.peers) ==
              Wrong(show, d.at, peers) - Elements(Afforded(PlanKeys(d, r), budget))
  {
    hide Wrong, ToUpdate, Without, Plan, Execute, Names, Fits, AlwaysOk;
    forall k | k in r.at ensures KeyOk(k) && Strip(k) == k {
      SanitizeOfKey(k);
    }
    PlanNamesKeys(d, r);
    PlanFits(d, r);
    var plan, keys := Plan(d, r), PlanKeys(d, r);
    forall i | 0 <= i < |keys| ensures KeyOk(keys[i]) {
      PlanKeysKnown(d, r, keys[i]);
    }
    assert keys[..|keys|] == keys;
    assert |plan| == |keys| by { NamesLength(plan, keys); }
    Drains(show, d.at, plan, keys, Progress(peers, [], budget));
    KeysStayOk(plan, keys, Progress(peers, [], budget));
  }

  lemma {:induction false} NamesLength(plan: seq<Command>, keys: seq<string>)
    requires Names(plan, keys)
    ensures |plan| == |keys|
  {
  }

  // What one successful cycle over a true snapshot does: it settles a prefix of the plan's keys.
  lemma {:induction false} CycleDrains(show: string -> string, cfg: Config, desired: seq<DesiredPeer>,
                                       dump: seq<RuntimePeer>, peers: Peers)
    returns (r: Dict<RuntimePeer>)
    requires CollectDesired(desired, Dict([], map[])).Some? && Acts(cfg, Wanted(desired).at)
    requires IsDump(show, dump, peers) && KeysOk(peers)
    ensures r.Valid() && r.at.Keys == peers.Keys
    ensures forall k :: k in r.at ==> r.at[k].allowedIps == show(peers[k].allowedIps)
    ensures Wanted(desired).Valid() && Distinct(PlanKeys(Wanted(desired), r))
    ensures KeysOk(Cycle(cfg, desired, dump, peers))
    ensures Wrong(show, Wanted(desired).at, Cycle(cfg, desired, dump, peers)) ==
              Wrong(show, Wanted(desired).at, peers) - Elements(Afforded(PlanKeys(Wanted(desired), r), cfg.Budget()))
  {
    hide Wrong, ToUpdate, Without, Plan, Execute, IsDump, PlanKeys, CollectRuntime, CollectDesired, KeysOk;
    CollectDesiredWellFormed(desired, Dict([], map[]));
    r := DumpCollected(show, dump, peers);
    PlanKeysDistinct(Wanted(desired), r);
    ExecuteDrains(show, Wanted(desired), r, peers, cfg.Budget());
  }

  lemma {:induction false} PlanKeysKnown(d: Dict<Spec>, r: Dict<RuntimePeer>, k: string)
    requires d.Valid() && r.Valid() && k in PlanKeys(d, r)
    ensures k in d.at || k in r.at
  {
    assert k in Elements(d.order) || k in Elements(r.order);
  }

  // ---- many cycles ----

  /** One cycle mends at least budget minus re-sent peers, or everything. */
  lemma {:induction false} CycleMends(show: string -> string, cfg: Config, desired: seq<DesiredPeer>,
                                      dump: seq<RuntimePeer>, peers: Peers)
    requires Prints(show) && CollectDesired(desired, Dict([], map[])).Some? && Acts(cfg, Wanted(desired).at)
    requires IsDump(show, dump, peers) && KeysOk(peers)
    ensures var want, after := Wanted(desired).at, Cycle(cfg, desired, dump, peers);
            && KeysOk(after)
            && (Wrong(show, want, after) == {} ||
                |Wrong(show, want, after)| + cfg.maxMutations <= |Wrong(show, want, peers)| + |Restless(show, want)|)
  {
    hide PlanKeys, Wrong, Cycle, IsDump;
    var want, after := Wanted(desired).at, Cycle(cfg, desired, dump, peers);
    var r := CycleDrains(show, cfg, desired, dump, peers);
    var keys := PlanKeys(Wanted(desired), r);
    PlanCovers(show, Wanted(desired), r, peers);
    var hit := Elements(Afforded(keys, cfg.Budget()));
    if cfg.Budget() < |keys| {
      ElementsSize(Afforded(keys, cfg.Budget()));
      assert forall k :: k in hit ==> k in Elements(keys);
      Mended(Wrong(show, want, peers), hit, Restless(show, want));
    }
  }

  lemma {:induction false} Mended<T>(wrong: set<T>, hit: set<T>, psk: set<T>)
    requires hit - wrong <= psk
    ensures |wrong - hit| + |hit| <= |wrong| + |psk|
  {
    var useful, wasted := hit * wrong, hit - wrong;
    assert hit == useful + wasted && wrong == (wrong - hit) + useful;
    SubsetSize(wasted, psk);
  }

  /** Convergence: with B = the budget, P < B desired peers that are re-sent in every cycle and m wrong peers,
      ceil(m / (B - P)) cycles (and any later number) leave no wrong peer. */
  lemma {:induction false} Converges(show: string -> string, cfg: Config, desired: seq<DesiredPeer>,
                                     dumps: seq<seq<RuntimePeer>>, peers: Peers)
    requires Prints(show) && CollectDesired(desired, Dict([], map[])).Some? && Acts(cfg, Wanted(desired).at)
    requires |Restless(show, Wanted(desired).at)| < cfg.maxMutations
    requires KeysOk(peers) && Faithful(show, cfg, desired, dumps, peers)
    requires |Wrong(show, Wanted(desired).at, peers)| <=
               |dumps| * (cfg.maxMutations - |Restless(show, Wanted(desired).at)|)
    ensures Wrong(show, Wanted(desired).at, After(cfg, desired, dumps, peers)) == {}
    decreases |dumps|
  {
    var want, gain := Wanted(desired).at, cfg.maxMutations - |Restless(show, Wanted(desired).at)|;
    if dumps != [] {
      var next := Cycle(cfg, desired, dumps[0], peers);
      CycleMends(show, cfg, desired, dumps[0], peers);
      Remaining(|dumps|, gain, |Wrong(show, want, peers)|, |Wrong(show, want, next)|);
      Converges(show, cfg, desired, dumps[1..], next);
    }
  }

  lemma {:induction false} Remaining(n: nat, gain: nat, m: nat, left: nat)
    requires n > 0 && m <= n * gain && (left == 0 || left + gain <= m)
    ensures left <= (n - 1) * gain
  {
    assert n * gain == (n - 1) * gain + gain;
  }

  /** What no wrong peer means for the interface. */
  lemma {:induction false} NothingWrong(show: string -> string, want: Wants, peers: Peers)
    ensures Wrong(show, want, peers) == {} <==>
            && peers.Keys == want.Keys
            && forall k :: k in want ==>
                 && (want[k].allowedIps != "" ==> show(peers[k].allowedIps) == show(want[k].allowedIps))
                 && (want[k].psk.Some? ==> peers[k].psk == want[k].psk)
  {
    if Wrong(show, want, peers) == {} {
      forall k ensures k in peers <==> k in want {
        assert k !in Wrong(show, want, peers);
      }
      forall k | k in want ensures Matches(show, want[k], peers[k]) {
        assert k !in Wrong(show, want, peers);
      }
    }
  }

  /** Starvation: when the re-sent peers alone use up the budget, a single undesired peer is never removed. */
  lemma {:induction false} Starves(show: string -> string, cfg: Config, desired: seq<DesiredPeer>,
                                   dumps: seq<seq<RuntimePeer>>, peers: Peers,
                                   extra: string)
    requires Prints(show) && CollectDesired(desired, Dict([], map[])).Some?
    requires cfg.maxMutations <= |Restless(show, Wanted(desired).at)| || !Acts(cfg, Wanted(desired).at)
    requires KeysOk(peers) && extra !in Wanted(desired).at && Wrong(show, Wanted(desired).at, peers) == {extra}
    requires Faithful(show, cfg, desired, dumps, peers)
    ensures Wrong(show, Wanted(desired).at, After(cfg, desired, dumps, peers)) == {extra}
    decreases |dumps|
  {
    var want := Wanted(desired).at;
    if dumps != [] {
      var next := Cycle(cfg, desired, dumps[0], peers);
      if Acts(cfg, want) {
        StarvedCycle(show, cfg, desired, dumps[0], peers, extra);
      } else {
        IdleCycle(show, cfg, desired, dumps[0], peers, extra);
      }
      Starves(show, cfg, desired, dumps[1..], next, extra);
    }
  }

  lemma {:induction false} IdleCycle(show: string -> string, cfg: Config, desired: seq<DesiredPeer>,
                                     dump: seq<RuntimePeer>, peers: Peers,
                                     extra: string)
    requires CollectDesired(desired, Dict([], map[])).Some? && !Acts(cfg, Wanted(desired).at)
    requires KeysOk(peers) && IsDump(show, dump, peers) && extra in peers
    ensures Cycle(cfg, desired, dump, peers) == peers
  {
    var r := DumpCollected(show, dump, peers);
    assert extra in r.at;
  }

  lemma {:induction false} StarvedCycle(show: string -> string, cfg: Config, desired: seq<DesiredPeer>,
                                        dump: seq<RuntimePeer>, peers: Peers,
                                        extra: string)
    requires Prints(show) && CollectDesired(desired, Dict([], map[])).Some? && Acts(cfg, Wanted(desired).at)
    requires cfg.maxMutations <= |Restless(show, Wanted(desired).at)|
    requires KeysOk(peers) && IsDump(show, dump, peers)
    requires extra !in Wanted(desired).at && Wrong(show, Wanted(desired).at, peers) == {extra}
    ensures KeysOk(Cycle(cfg, desired, dump, peers))
    ensures Wrong(show, Wanted(desired).at, Cycle(cfg, desired, dump, peers)) == {extra}
  {
    hide ToUpdate, Without, Drifts, Cycle, PlanKeys, Wrong, CollectDesired, IsDump, Acts, KeysOk, Restless;
    var d := Wanted(desired);
    var r := CycleDrains(show, cfg, desired, dump, peers);
    UpdatesComeFirst(show, d, r, peers, extra);
    PrefixMisses(PlanKeys(d, r), |Restless(show, d.at)|, cfg.Budget(), extra);
    assert Afforded(PlanKeys(d, r), cfg.Budget()) == PlanKeys(d, r)[..cfg.Budget()];
  }

  lemma {:induction false} PrefixMisses(keys: seq<string>, m: nat, n: nat, k: string)
    requires n <= m <= |keys| && k !in keys[..m]
    ensures k !in Elements(keys[..n])
  {
    assert keys[..n] == keys[..m][..n];
  }

  lemma {:induction false} PresentUnlessWrong(show: string -> string, want: Wants, peers: Peers, k: string)
    requires k in want && k !in Wrong(show, want, peers)
    ensures k in peers
  {
  }

  lemma {:induction false} RestlessWanted(show: string -> string, want: Wants)
    ensures Restless(show, want) <= want.Keys
  {
  }

  // With everything desired in place, the plan starts with one update for each re-sent peer.
  lemma {:induction false} UpdatesComeFirst(show: string -> string, d: Dict<Spec>, r: Dict<RuntimePeer>, peers: Peers,
                                            extra: string)
    requires Prints(show) && d.Valid() && r.at.Keys == peers.Keys && extra !in d.at
    requires Wrong(show, d.at, peers) == {extra}
    requires forall k :: k in r.at ==> r.at[k].allowedIps == show(peers[k].allowedIps)
    ensures Without(d.order, r.at.Keys) == []
    ensures |ToUpdate(d.order, d.at, r.at)| == |Restless(show, d.at)| <= |PlanKeys(d, r)|
    ensures PlanKeys(d, r)[..|Restless(show, d.at)|] == ToUpdate(d.order, d.at, r.at)
    ensures extra !in ToUpdate(d.order, d.at, r.at)
  {
    hide ToUpdate, Drifts, Wrong, Restless, Prints;
    var u := ToUpdate(d.order, d.at, r.at);
    ToUpdateMembers(d.order, d.at, r.at);
    forall k ensures k in d.at <==> k in d.order {
      assert k in d.at <==> k in Elements(d.order);
    }
    forall k | k in d.at ensures k in peers && (k in u <==> k in Restless(show, d.at)) {
      PresentUnlessWrong(show, d.at, peers, k);
      DriftsWhenWrong(show, d.at, r.at, peers, k);
    }
    RestlessWanted(show, d.at);
    assert Elements(u) == Restless(show, d.at);
    ElementsSize(u);
    assert Without(d.order, r.at.Keys) == [];
  }

  // ---- exactly when every start converges ----

  ghost predicate ConvergesWithin(show: string -> string, cfg: Config, desired: seq<DesiredPeer>, peers: Peers, n: nat)
    requires CollectDesired(desired, Dict([], map[])).Some?
  {
    forall dumps :: |dumps| >= n && Faithful(show, cfg, desired, dumps, peers) ==>
      Wrong(show, Wanted(desired).at, After(cfg, desired, dumps, peers)) == {}
  }

  // Some listing of a node's peers.
  lemma {:induction false} SomeDump(show: string -> string, peers: Peers) returns (dump: seq<RuntimePeer>)
    ensures IsDump(show, dump, peers)
    decreases |peers|
  {
    if peers == map[] {
      dump := [];
    } else {
      var k :| k in peers;
      var rest := SomeDump(show, peers - {k});
      dump := [RuntimePeer(k, show(peers[k].allowedIps))] + rest;
      OneMoreListed(show, peers, k, rest);
    }
  }

  lemma {:induction false} OneMoreListed(show: string -> string, peers: Peers, k: string, rest: seq<RuntimePeer>)
    requires k in peers && IsDump(show, rest, peers - {k})
    ensures IsDump(show, [RuntimePeer(k, show(peers[k].allowedIps))] + rest, peers)
  {
    var dump := [RuntimePeer(k, show(peers[k].allowedIps))] + rest;
    assert dump[0].publicKey == k;
    forall j | j in peers && j != k ensures exists i :: 0 <= i < |dump| && dump[i].publicKey == j {
      assert j in peers - {k};
      var i :| 0 <= i < |rest| && rest[i].publicKey == j;
      assert dump[i + 1].publicKey == j;
    }
    forall i | 0 <= i < |dump|
      ensures dump[i].publicKey in peers && dump[i].allowedIps == show(peers[dump[i].publicKey].allowedIps)
    {
      assert i > 0 ==> dump[i] == rest[i - 1] && rest[i - 1].publicKey in peers - {k};
    }
  }

  lemma {:induction false} SomeRun(show: string -> string, cfg: Config, desired: seq<DesiredPeer>, peers: Peers, n: nat)
    returns (dumps: seq<seq<RuntimePeer>>)
    ensures |dumps| == n && Faithful(show, cfg, desired, dumps, peers)
    decreases n
  {
    if n == 0 {
      dumps := [];
    } else {
      var first := SomeDump(show, peers);
      var rest := SomeRun(show, cfg, desired, Cycle(cfg, desired, first, peers), n - 1);
      dumps := [first] + rest;
      assert dumps[1..] == rest;
    }
  }

  // Everything desired in place plus one more peer.
  function WithExtra(want: Wants, extra: string): Peers {
    (map k | k in want :: NodePeer(want[k].allowedIps, want[k].psk))[extra := NodePeer("", None)]
  }

  lemma {:induction false} WithExtraWrong(show: string -> string, want: Wants, extra: string)
    requires WellFormed(want) && extra !in want
    ensures Wrong(show, want, WithExtra(want, extra)) == {extra}
  {
    assert forall k :: k in want ==> Settled(show, want, WithExtra(want, extra), k);
  }

  lemma {:induction false} ConvergesFrom(show: string -> string, cfg: Config, desired: seq<DesiredPeer>, peers: Peers)
    requires Prints(show) && CollectDesired(desired, Dict([], map[])).Some? && KeysOk(peers)
    requires Acts(cfg, Wanted(desired).at) && |Restless(show, Wanted(desired).at)| < cfg.maxMutations
    ensures ConvergesWithin(show, cfg, desired, peers, |Wrong(show, Wanted(desired).at, peers)|)
  {
    hide CollectDesired, Prints, Acts, KeysOk, Restless, Wrong, After, Faithful;
    var want := Wanted(desired).at;
    forall dumps | |dumps| >= |Wrong(show, want, peers)| && Faithful(show, cfg, desired, dumps, peers)
      ensures Wrong(show, want, After(cfg, desired, dumps, peers)) == {}
    {
      MulGrows(|dumps|, cfg.maxMutations - |Restless(show, want)|);
      Converges(show, cfg, desired, dumps, peers);
    }
  }

  lemma {:induction false} NeverConverges(show: string -> string, cfg: Config, desired: seq<DesiredPeer>, peers: Peers,
                                          extra: string, n: nat)
    requires Prints(show) && CollectDesired(desired, Dict([], map[])).Some? && KeysOk(peers)
    requires cfg.maxMutations <= |Restless(show, Wanted(desired).at)| || !Acts(cfg, Wanted(desired).at)
    requires extra !in Wanted(desired).at && Wrong(show, Wanted(desired).at, peers) == {extra}
    ensures !ConvergesWithin(show, cfg, desired, peers, n)
  {
    hide CollectDesired, Prints, Acts, KeysOk, Restless, Wrong, After, Faithful;
    var dumps := SomeRun(show, cfg, desired, peers, n);
    Starves(show, cfg, desired, dumps, peers, extra);
    assert extra in Wrong(show, Wanted(desired).at, After(cfg, desired, dumps, peers));
  }

  lemma {:induction false} WithExtraOk(desired: seq<DesiredPeer>, extra: string)
    requires CollectDesired(desired, Dict([], map[])).Some? && KeyOk(extra)
    ensures KeysOk(WithExtra(Wanted(desired).at, extra)) && WellFormed(Wanted(desired).at)
  {
    hide CollectDesired, KeyOk;
    CollectDesiredWellFormed(desired, Dict([], map[]));
  }

  /** However the dump shows allowed-ips: passes converge from every state of the interface exactly when they act and
      the budget exceeds the number of desired peers that are re-sent in every cycle. (extra is any well-formed key
      that is not desired.) */
  lemma {:induction false} ConvergesExactlyWhen(show: string -> string, cfg: Config, desired: seq<DesiredPeer>,
                                                extra: string)
    requires Prints(show) && CollectDesired(desired, Dict([], map[])).Some?
    requires KeyOk(extra) && extra !in Wanted(desired).at
    ensures (forall peers :: KeysOk(peers) ==> exists n :: ConvergesWithin(show, cfg, desired, peers, n)) <==>
            (Acts(cfg, Wanted(desired).at) && |Restless(show, Wanted(desired).at)| < cfg.maxMutations)
  {
    hide CollectDesired, Prints, Acts, KeysOk, Restless, Wrong, ConvergesWithin, WithExtra, KeyOk, WellFormed;
    var want := Wanted(desired).at;
    if Acts(cfg, want) && |Restless(show, want)| < cfg.maxMutations {
      forall peers | KeysOk(peers) ensures exists n :: ConvergesWithin(show, cfg, desired, peers, n) {
        ConvergesFrom(show, cfg, desired, peers);
      }
    } else {
      var peers := WithExtra(want, extra);
      WithExtraOk(desired, extra);
      WithExtraWrong(show, want, extra);
      forall n: nat ensures !ConvergesWithin(show, cfg, desired, peers, n) {
        NeverConverges(show, cfg, desired, peers, extra, n);
      }
    }
  }

  // ---- two ways a dump may show allowed-ips ----

  /** A dump that prints texts as they were set is read stripped; then only preshared-key peers are re-sent. */
  lemma {:induction false} PrintedAsSet(desired: seq<DesiredPeer>)
    requires CollectDesired(desired, Dict([], map[])).Some?
    ensures Prints(Strip)
    ensures var want := Wanted(desired).at; Restless(Strip, want) == set k | k in want && want[k].psk.Some?
  {
    hide CollectDesired, Strip;
    forall s: string ensures Trimmed(Strip(s)) && Strip(Strip(s)) == Strip(s) {
      StripTrims(s);
      StripOfTrimmed(Strip(s));
    }
    CollectDesiredWellFormed(desired, Dict([], map[]));
    forall k | k in Wanted(desired).at
      ensures Strip(Wanted(desired).at[k].allowedIps) == Wanted(desired).at[k].allowedIps
    {
      StripOfTrimmed(Wanted(desired).at[k].allowedIps);
    }
  }

  // The kernel's own form: items with no blank between them.
  function Unspaced(s: string): string {
    if s == "" then "" else (if IsSpace(s[0]) then "" else [s[0]]) + Unspaced(s[1..])
  }

  lemma {:induction false} UnspacedStays(s: string)
    requires forall i :: 0 <= i < |s| ==> !IsSpace(s[i])
    ensures Unspaced(s) == s
  {
    hide IsSpace;
    if s != "" {
      UnspacedStays(s[1..]);
      assert s == [s[0]] + s[1..];
    }
  }

  lemma {:induction false} UnspacedHasNoSpace(s: string)
    ensures forall i :: 0 <= i < |Unspaced(s)| ==> !IsSpace(Unspaced(s)[i])
  {
    hide IsSpace;
    if s != "" {
      UnspacedHasNoSpace(s[1..]);
    }
  }

  /** A dump without blanks: then every desired peer whose allowed-ips hold a blank is re-sent in every cycle, and so is
      every peer that leaves them to the agent's own default. */
  lemma {:induction false} PrintedUnspaced(want: Wants, k: string)
    requires k in want
    ensures Prints(Unspaced)
    ensures k in Restless(Unspaced, want) <==>
              (want[k].psk.Some? || exists i :: 0 <= i < |want[k].allowedIps| && IsSpace(want[k].allowedIps[i]))
    ensures want[k].allowedIps == DEFAULT_ALLOWED_IPS ==> k in Restless(Unspaced, want)
  {
    hide IsSpace, Unspaced;
    forall s: string ensures Trimmed(Unspaced(s)) && Unspaced(Unspaced(s)) == Unspaced(s) {
      UnspacedHasNoSpace(s);
      UnspacedStays(Unspaced(s));
    }
    var text := want[k].allowedIps;
    UnspacedHasNoSpace(text);
    if forall i :: 0 <= i < |text| ==> !IsSpace(text[i]) {
      UnspacedStays(text);
    }
    assert IsSpace(DEFAULT_ALLOWED_IPS[10]) by { DefaultHasBlank(); }
  }

  lemma {:induction false} DefaultHasBlank()
    ensures |DEFAULT_ALLOWED_IPS| > 10 && IsSpace(DEFAULT_ALLOWED_IPS[10])
  {
  }

  lemma {:induction false} MulGrows(n: nat, g: nat)
    requires g > 0
    ensures n * g >= n
  {
  }
}

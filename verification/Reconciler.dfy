/** The node agent's reconcile pass: desired peers against a runtime snapshot, under a mutation budget. */
module Reconciler {
  import opened Text
  import opened OrderedDict

  // A peer of the control plane's desired state; psk is None when absent or not text.
  datatype DesiredPeer = DesiredPeer(publicKey: string, allowedIps: string, keepalive: int, psk: Option<string>)

  datatype Spec = Spec(allowedIps: string, keepalive: int, psk: Option<string>)

  // What `awg show dump` tells about a peer.
  datatype RuntimePeer = RuntimePeer(publicKey: string, allowedIps: string)

  // What the interface holds for a peer.
  datatype NodePeer = NodePeer(allowedIps: string, psk: Option<string>)
  type Peers = map<string, NodePeer>

  // Malformed stands for a removal whose key fails the check made just before it is sent.
  datatype Command =
    | Add(key: string, spec: Spec)
    | Update(key: string, spec: Spec)
    | Remove(key: string)
    | Malformed
  datatype Logged = Logged(cmd: Command, ok: bool)
  datatype Report = Counts(added: nat, removed: nat, updated: nat) | InvalidKey | InvalidName

  datatype Config = Config(maxMutations: int, readOnly: bool, pruneEmpty: bool) {
    function Budget(): nat {
      if maxMutations < 0 then 0 else maxMutations
    }
  }

  const DEFAULT_ALLOWED_IPS := "0.0.0.0/0, ::/0"

  predicate IsKeyChar(c: char) {
    'A' <= c <= 'Z' || 'a' <= c <= 'z' || '0' <= c <= '9' || c == '+' || c == '/' || c == '='
  }

  predicate KeyChars(k: string) {
    k == "" || (IsKeyChar(k[0]) && KeyChars(k[1..]))
  }

  predicate KeyOk(k: string) {
    32 <= |k| <= 64 && KeyChars(k)
  }

  function SanitizePubkey(raw: string): Option<string> {
    if KeyOk(Strip(raw)) then Some(Strip(raw)) else None
  }

  predicate IsNameChar(c: char) {
    'A' <= c <= 'Z' || 'a' <= c <= 'z' || '0' <= c <= '9' || c == '_' || c == '.' || c == '-'
  }

  // A container's name starts with a letter or digit; an interface's may also hold colons.
  predicate NamesOk(container: string, iface: string) {
    var c, i := Strip(container), Strip(iface);
    && 1 <= |c| <= 128 && IsNameChar(c[0]) && c[0] != '_' && c[0] != '.' && c[0] != '-'
    && (forall j :: 0 <= j < |c| ==> IsNameChar(c[j]))
    && 1 <= |i| <= 32 && (forall j :: 0 <= j < |i| ==> IsNameChar(i[j]) || i[j] == ':')
  }

  lemma {:induction false} KeyCharsAt(k: string, i: nat)
    requires KeyChars(k) && i < |k|
    ensures IsKeyChar(k[i])
  {
    if i > 0 {
      KeyCharsAt(k[1..], i - 1);
    }
  }

  lemma {:induction false} SanitizeOfKey(k: string)
    requires KeyOk(k)
    ensures Strip(k) == k && SanitizePubkey(k) == Some(k)
  {
    KeyCharsAt(k, 0);
    KeyCharsAt(k, |k| - 1);
    StripOfTrimmed(k);
  }

  function NormalizedSpec(p: DesiredPeer): Spec {
    Spec(Strip(if p.allowedIps == "" then DEFAULT_ALLOWED_IPS else p.allowedIps),
         if p.keepalive == 0 then 25 else p.keepalive,
         if p.psk.None? || Strip(p.psk.value) == "" then None else Some(Strip(p.psk.value)))
  }

  // The desired map built peer by peer; None when a key is malformed.
  function CollectDesired(ps: seq<DesiredPeer>, acc: Dict<Spec>): (r: Option<Dict<Spec>>)
    ensures r.Some? && acc.Valid() ==> r.value.Valid()
    decreases |ps|
  {
    if ps == [] then Some(acc)
    else
      match SanitizePubkey(ps[0].publicKey)
      case None => None
      case Some(pk) => CollectDesired(ps[1..], acc.Put(pk, NormalizedSpec(ps[0])))
  }

  function CollectRuntime(ps: seq<RuntimePeer>, acc: Dict<RuntimePeer>): (d: Dict<RuntimePeer>)
    ensures acc.Valid() ==> d.Valid()
    decreases |ps|
  {
    if ps == [] then acc
    else CollectRuntime(ps[1..], if ps[0].publicKey == "" then acc else acc.Put(ps[0].publicKey, ps[0]))
  }

  predicate Drifts(spec: Spec, rp: RuntimePeer) {
    (spec.allowedIps != "" && spec.allowedIps != Strip(rp.allowedIps)) || spec.psk.Some?
  }

  function ToUpdate(keys: seq<string>, desired: map<string, Spec>, runtime: map<string, RuntimePeer>): (r: seq<string>)
    ensures forall k :: k in r ==> k in keys
  {
    if keys == [] then []
    else
      var front, pk := ToUpdate(keys[..|keys| - 1], desired, runtime), keys[|keys| - 1];
      if pk in desired && pk in runtime && Drifts(desired[pk], runtime[pk]) then front + [pk] else front
  }

  lemma {:induction false} ToUpdateMembers(keys: seq<string>, desired: map<string, Spec>, runtime: map<string,
                                           RuntimePeer>)
    requires forall k :: k in keys ==> k in desired
    ensures var r := ToUpdate(keys, desired, runtime);
            && (forall k :: k in r <==> k in keys && k in runtime && Drifts(desired[k], runtime[k]))
            && (Distinct(keys) ==> Distinct(r))
  {
    if keys != [] {
      ToUpdateMembers(keys[..|keys| - 1], desired, runtime);
    }
  }

  function Adds(keys: seq<string>, desired: map<string, Spec>): (r: seq<Command>)
    requires forall k :: k in keys ==> k in desired
    ensures |r| == |keys| && forall i :: 0 <= i < |r| ==> r[i] == Add(keys[i], desired[keys[i]])
  {
    seq(|keys|, i requires 0 <= i < |keys| => Add(keys[i], desired[keys[i]]))
  }

  function Updates(keys: seq<string>, desired: map<string, Spec>): (r: seq<Command>)
    requires forall k :: k in keys ==> k in desired
    ensures |r| == |keys| && forall i :: 0 <= i < |r| ==> r[i] == Update(keys[i], desired[keys[i]])
  {
    seq(|keys|, i requires 0 <= i < |keys| => Update(keys[i], desired[keys[i]]))
  }

  function RemoveOf(key: string): (c: Command)
    ensures c.Malformed? || (c.Remove? && c.key == Strip(key))
  {
    match SanitizePubkey(key)
    case None => Malformed
    case Some(k) => Remove(k)
  }

  function Removes(keys: seq<string>): (r: seq<Command>)
    ensures |r| == |keys| && forall i :: 0 <= i < |r| ==> r[i] == RemoveOf(keys[i])
  {
    seq(|keys|, i requires 0 <= i < |keys| => RemoveOf(keys[i]))
  }

  // Every candidate command of a pass, in the order it is tried.
  function Plan(desired: Dict<Spec>, runtime: Dict<RuntimePeer>): seq<Command>
    requires desired.Valid()
  {
    Adds(Without(desired.order, runtime.at.Keys), desired.at) +
    Updates(ToUpdate(desired.order, desired.at, runtime.at), desired.at) +
    Removes(Without(runtime.order, desired.at.Keys))
  }

  // `set` replaces the allowed-ips and, when one is given, the preshared key; `remove` deletes the peer.
  function Effect(cmd: Command, peers: Peers): Peers {
    match cmd
    case Remove(k) => peers - {k}
    case Malformed => peers
    case _ => peers[cmd.key := AfterSet(cmd.spec, cmd.key, peers)]
  }

  function AfterSet(spec: Spec, k: string, peers: Peers): NodePeer {
    NodePeer(spec.allowedIps, if spec.psk.None? && k in peers then peers[k].psk else spec.psk)
  }

  datatype Progress = Progress(peers: Peers, log: seq<Logged>, left: nat)
  datatype Outcome = Done(final: Progress) | Raised(final: Progress)

  // The n-th command ever issued succeeds when ok(n); a failed one changes nothing and costs nothing.
  function Issue(cmd: Command, ok: nat -> bool, p: Progress): Progress
    requires p.left > 0
  {
    if ok(|p.log|) then Progress(Effect(cmd, p.peers), p.log + [Logged(cmd, true)], p.left - 1)
    else p.(log := p.log + [Logged(cmd, false)])
  }

  // The three command loops as one: stop when the budget is spent, raise at a malformed key.
  function Execute(plan: seq<Command>, ok: nat -> bool, p: Progress): Outcome
    decreases |plan|
  {
    if plan == [] || p.left == 0 then Done(p)
    else if plan[0].Malformed? then Raised(p)
    else Execute(plan[1..], ok, Issue(plan[0], ok, p))
  }

  // Successful commands of a stretch of the log, by kind.
  function Successes(log: seq<Logged>): (r: Report)
    ensures r.Counts?
  {
    if log == [] then Counts(0, 0, 0)
    else
      var r := Successes(log[1..]);
      if !log[0].ok then r
      else
        match log[0].cmd
        case Add(_, _) => r.(added := r.added + 1)
        case Update(_, _) => r.(updated := r.updated + 1)
        case Remove(_) => r.(removed := r.removed + 1)
        case Malformed => r
  }

  function Pass(cfg: Config, desired: seq<DesiredPeer>, runtime: seq<RuntimePeer>, ok: nat -> bool,
                peers: Peers, log: seq<Logged>): Outcome
  {
    var start := Progress(peers, log, cfg.Budget());
    match CollectDesired(desired, Dict([], map[]))
    case None => Raised(start)
    case Some(d) =>
      var r := CollectRuntime(runtime, Dict([], map[]));
      if (d.at == map[] && r.at != map[] && !cfg.pruneEmpty) || cfg.readOnly then Done(start)
      else Execute(Plan(d, r), ok, start)
  }

  // The interface and the docker channel to it.
  class Node {
    var peers: Peers
    var log: seq<Logged>
    var saves: nat
    const ok: nat -> bool

    constructor (peers: Peers, ok: nat -> bool)
      ensures this.peers == peers && this.ok == ok && log == [] && saves == 0
    {
      this.peers, this.ok, log, saves := peers, ok, [], 0;
    }

    // Asks the interface to save its configuration; whether that works is not looked at.
    method Save()
      modifies this`saves
      ensures saves == old(saves) + 1
    {
      saves := saves + 1;
    }

    method Run(cmd: Command) returns (success: bool)
      modifies this`peers, this`log
      ensures success == ok(old(|log|))
      ensures log == old(log) + [Logged(cmd, success)]
      ensures peers == if success then Effect(cmd, old(peers)) else old(peers)
    {
      success := ok(|log|);
      log := log + [Logged(cmd, success)];
      if success {
        peers := Effect(cmd, peers);
      }
    }
  }

  // The log grew and the new part holds exactly these successes.
  ghost predicate Tally(before: seq<Logged>, now: seq<Logged>, added: nat, removed: nat, updated: nat) {
    before <= now && Successes(now[|before|..]) == Counts(added, removed, updated)
  }

  lemma {:induction false} SuccessesConcat(a: seq<Logged>, b: seq<Logged>)
    ensures var ra, rb := Successes(a), Successes(b);
            Successes(a + b) == Counts(ra.added + rb.added, ra.removed + rb.removed, ra.updated + rb.updated)
  {
    if a == [] {
      assert a + b == b;
    } else {
      assert (a + b)[1..] == a[1..] + b;
      SuccessesConcat(a[1..], b);
    }
  }

  lemma {:induction false} NothingYet(log: seq<Logged>)
    ensures Tally(log, log, 0, 0, 0)
  {
  }

  lemma {:induction false} TallyStep(before: seq<Logged>, now: seq<Logged>, entry: Logged,
                                     added: nat, removed: nat, updated: nat)
    requires Tally(before, now, added, removed, updated)
    ensures Tally(before, now + [entry], added + (if entry.ok && entry.cmd.Add? then 1 else 0),
                  removed + (if entry.ok && entry.cmd.Remove? then 1 else 0),
                  updated + (if entry.ok && entry.cmd.Update? then 1 else 0))
  {
    assert (now + [entry])[|before|..] == now[|before|..] + [entry];
    assert [entry][1..] == [];
    SuccessesConcat(now[|before|..], [entry]);
  }

  // Consecutive stretches of the log add up.
  lemma {:induction false} TallyConcat(first: seq<Logged>, mid: seq<Logged>, last: seq<Logged>, m: Report, l: Report)
    requires m.Counts? && l.Counts?
    requires Tally(first, mid, m.added, m.removed, m.updated) && Tally(mid, last, l.added, l.removed, l.updated)
    ensures Tally(first, last, m.added + l.added, m.removed + l.removed, m.updated + l.updated)
  {
    assert last[|first|..] == mid[|first|..] + last[|mid|..];
    SuccessesConcat(mid[|first|..], last[|mid|..]);
  }

  /** One reconcile call: it raises before doing anything when a name is malformed; else the node ends as Pass says, the
      report counts this call's successes by kind, and the configuration is saved once if there were any. A call that
      raises part-way keeps what it did unsaved. */
  method Reconcile(node: Node, container: string, iface: string, cfg: Config, desired: seq<DesiredPeer>,
                   runtime: seq<RuntimePeer>)
    returns (report: Report)
    modifies node
    ensures report.InvalidName? == !NamesOk(container, iface)
    ensures report.InvalidName? ==> node.peers == old(node.peers) && node.log == old(node.log)
    ensures !report.InvalidName? ==>
              var o := Pass(cfg, desired, runtime, node.ok, old(node.peers), old(node.log));
              && node.peers == o.final.peers && node.log == o.final.log
              && report.InvalidKey? == o.Raised?
    ensures report.Counts? ==> Tally(old(node.log), node.log, report.added, report.removed, report.updated)
    ensures node.saves == old(node.saves) +
              if report.Counts? && report.added + report.removed + report.updated > 0 then 1 else 0
  {
    hide NamesOk, Execute, Tally, ToUpdate, Without, CollectDesired, CollectRuntime, Adds, Updates, Removes;
    if !NamesOk(container, iface) {
      return InvalidName;
    }
    NothingYet(node.log);
    var collected := BuildDesired(desired);
    if collected.None? {
      return InvalidKey;
    }
    var desiredMap := collected.value;
    var runtimeMap := CollectRuntime(runtime, Dict([], map[]));
    var toAdd := Without(desiredMap.order, runtimeMap.at.Keys);
    var toRemove := Without(runtimeMap.order, desiredMap.at.Keys);
    var toUpdate := FindDrift(desiredMap, runtimeMap);
    if (desiredMap.at == map[] && runtimeMap.at != map[] && !cfg.pruneEmpty) || cfg.readOnly {
      return Counts(0, 0, 0);
    }
    report := RunPlan(node, desiredMap, toAdd, toUpdate, toRemove, cfg.Budget());
    if report.Counts? && (report.added > 0 || report.removed > 0 || report.updated > 0) {
      node.Save();
    }
  }

  // The add, update and remove loops with their shared budget.
  method RunPlan(node: Node, desired: Dict<Spec>, toAdd: seq<string>, toUpdate: seq<string>, toRemove: seq<string>,
                 budget: nat)
    returns (report: Report)
    requires forall k :: k in toAdd || k in toUpdate ==> k in desired.at
    modifies node`peers, node`log
    ensures var plan := Adds(toAdd, desired.at) + Updates(toUpdate, desired.at) + Removes(toRemove);
            var o := Execute(plan, node.ok, Progress(old(node.peers), old(node.log), budget));
            && node.peers == o.final.peers && node.log == o.final.log
            && report.InvalidKey? == o.Raised? && !report.InvalidName?
    ensures report.Counts? ==> Tally(old(node.log), node.log, report.added, report.removed, report.updated)
  {
    ghost var later := Updates(toUpdate, desired.at) + Removes(toRemove);
    assert Adds(toAdd, desired.at) + later ==
           Adds(toAdd, desired.at) + Updates(toUpdate, desired.at) + Removes(toRemove);
    var added, left := AddPeers(node, desired, toAdd, later, budget);
    ghost var afterAdds := node.log;
    var updated;
    updated, left := UpdatePeers(node, desired, toUpdate, Removes(toRemove), left);
    ghost var afterUpdates := node.log;
    TallyConcat(old(node.log), afterAdds, node.log, Counts(added, 0, 0), Counts(0, 0, updated));
    var removed;
    removed, left := RemovePeers(node, toRemove, Removes(toRemove), left);
    if removed.None? {
      return InvalidKey;
    }
    TallyConcat(old(node.log), afterUpdates, node.log, Counts(added, 0, updated), Counts(0, removed.value, 0));
    report := Counts(added, removed.value, updated);
  }

  // The desired map, filled entry by entry; None when a key is malformed.
  method BuildDesired(desired: seq<DesiredPeer>) returns (r: Option<Dict<Spec>>)
    ensures r == CollectDesired(desired, Dict([], map[]))
    ensures r.Some? ==> r.value.Valid()
  {
    var none: Dict<Spec> := Dict([], map[]);
    var desiredMap := none;
    var i := 0;
    while i < |desired|
      invariant 0 <= i <= |desired| && desiredMap.Valid()
      invariant CollectDesired(desired, none) == CollectDesired(desired[i..], desiredMap)
    {
      var pk := SanitizePubkey(desired[i].publicKey);
      assert desired[i..][1..] == desired[i + 1..];
      if pk.None? {
        return None;
      }
      desiredMap := desiredMap.Put(pk.value, NormalizedSpec(desired[i]));
      i := i + 1;
    }
    r := Some(desiredMap);
  }

  method FindDrift(desired: Dict<Spec>, runtime: Dict<RuntimePeer>) returns (toUpdate: seq<string>)
    requires desired.Valid()
    ensures toUpdate == ToUpdate(desired.order, desired.at, runtime.at)
  {
    toUpdate := [];
    var i := 0;
    while i < |desired.order|
      invariant 0 <= i <= |desired.order|
      invariant toUpdate == ToUpdate(desired.order[..i], desired.at, runtime.at)
    {
      var pk := desired.order[i];
      assert pk in Elements(desired.order) && desired.order[..i + 1][..i] == desired.order[..i];
      if pk in runtime.at && Drifts(desired.at[pk], runtime.at[pk]) {
        toUpdate := toUpdate + [pk];
      }
      i := i + 1;
    }
    assert desired.order[..i] == desired.order;
  }

  method AddPeers(node: Node, desired: Dict<Spec>, keys: seq<string>, ghost later: seq<Command>, budget: nat)
    returns (added: nat, left: nat)
    requires forall k :: k in keys ==> k in desired.at
    modifies node`peers, node`log
    ensures Execute(Adds(keys, desired.at) + later, node.ok, Progress(old(node.peers), old(node.log), budget)) ==
            Execute(later, node.ok, Progress(node.peers, node.log, left))
    ensures Tally(old(node.log), node.log, added, 0, 0)
  {
    ghost var cmds := Adds(keys, desired.at);
    ghost var goal := Execute(cmds + later, node.ok, Progress(node.peers, node.log, budget));
    added, left := 0, budget;
    var i := 0;
    assert cmds[0..] == cmds;
    while i < |keys| && left > 0
      invariant 0 <= i <= |keys|
      invariant goal == Execute(cmds[i..] + later, node.ok, Progress(node.peers, node.log, left))
      invariant Tally(old(node.log), node.log, added, 0, 0)
    {
      assert (cmds[i..] + later)[1..] == cmds[i + 1..] + later;
      TallyStep(old(node.log), node.log, Logged(cmds[i], node.ok(|node.log|)), added, 0, 0);
      var sent := node.Run(Add(keys[i], desired.at[keys[i]]));
      if sent {
        added, left := added + 1, left - 1;
      }
      i := i + 1;
    }
    if left > 0 {
      assert cmds[i..] + later == later;
    }
  }

  method UpdatePeers(node: Node, desired: Dict<Spec>, keys: seq<string>, ghost later: seq<Command>, budget: nat)
    returns (updated: nat, left: nat)
    requires forall k :: k in keys ==> k in desired.at
    modifies node`peers, node`log
    ensures Execute(Updates(keys, desired.at) + later, node.ok, Progress(old(node.peers), old(node.log), budget)) ==
            Execute(later, node.ok, Progress(node.peers, node.log, left))
    ensures Tally(old(node.log), node.log, 0, 0, updated)
  {
    ghost var cmds := Updates(keys, desired.at);
    ghost var goal := Execute(cmds + later, node.ok, Progress(node.peers, node.log, budget));
    updated, left := 0, budget;
    var i := 0;
    assert cmds[0..] == cmds;
    while i < |keys| && left > 0
      invariant 0 <= i <= |keys|
      invariant goal == Execute(cmds[i..] + later, node.ok, Progress(node.peers, node.log, left))
      invariant Tally(old(node.log), node.log, 0, 0, updated)
    {
      assert (cmds[i..] + later)[1..] == cmds[i + 1..] + later;
      TallyStep(old(node.log), node.log, Logged(cmds[i], node.ok(|node.log|)), 0, 0, updated);
      var sent := node.Run(Update(keys[i], desired.at[keys[i]]));
      if sent {
        updated, left := updated + 1, left - 1;
      }
      i := i + 1;
    }
    if left > 0 {
      assert cmds[i..] + later == later;
    }
  }

  // None when a key to remove is malformed; what was sent before it stays sent.
  method RemovePeers(node: Node, keys: seq<string>, ghost cmds: seq<Command>, budget: nat)
    returns (removed: Option<nat>, left: nat)
    requires |cmds| == |keys| && forall i :: 0 <= i < |keys| ==> cmds[i] == RemoveOf(keys[i])
    modifies node`peers, node`log
    ensures Execute(cmds, node.ok, Progress(old(node.peers), old(node.log), budget)) ==
            var final := Progress(node.peers, node.log, left);
            if removed.None? then Raised(final) else Done(final)
    ensures removed.Some? ==> Tally(old(node.log), node.log, 0, removed.value, 0)
  {
    hide SanitizePubkey, Effect, Successes;
    ghost var goal := Execute(cmds, node.ok, Progress(node.peers, node.log, budget));
    NothingYet(node.log);
    var count := 0;
    left := budget;
    var i := 0;
    assert cmds[0..] == cmds;
    while i < |keys| && left > 0
      invariant 0 <= i <= |keys|
      invariant goal == Execute(cmds[i..], node.ok, Progress(node.peers, node.log, left))
      invariant Tally(old(node.log), node.log, 0, count, 0)
    {
      var cmd := RemoveOf(keys[i]);
      assert cmd == cmds[i] && cmds[i..][1..] == cmds[i + 1..];
      if cmd.Malformed? {
        assert goal == Raised(Progress(node.peers, node.log, left));
        return None, left;
      }
      TallyStep(old(node.log), node.log, Logged(cmd, node.ok(|node.log|)), 0, count, 0);
      var sent := node.Run(cmd);
      if sent {
        count, left := count + 1, left - 1;
      }
      i := i + 1;
    }
    assert goal == Done(Progress(node.peers, node.log, left)) by {
      assert left > 0 ==> cmds[i..] == [];
    }
    removed := Some(count);
  }
}

/** What one reconcile pass may do to the interface, whatever subset of its commands fails. */
module ReconcilerSafety {
  import opened Text
  import opened OrderedDict
  import opened Reconciler

  type Wants = map<string, Spec>

  // How a dump, once parsed, shows an allowed-ips text: trimmed, and in a form that itself shows as it is.
  ghost predicate Prints(show: string -> string) {
    forall s :: Trimmed(show(s)) && show(show(s)) == show(s)
  }

  // Allowed-ips match when they show alike; a blank desired text and an absent preshared key ask for nothing.
  predicate Matches(show: string -> string, spec: Spec, np: NodePeer) {
    (spec.allowedIps == "" || show(np.allowedIps) == show(spec.allowedIps)) && (spec.psk.Some? ==> np.psk == spec.psk)
  }

  predicate Settled(show: string -> string, want: Wants, peers: Peers, k: string) {
    if k in want then k in peers && Matches(show, want[k], peers[k]) else k !in peers
  }

  // The missing, extra and differing peers.
  function Wrong(show: string -> string, want: Wants, peers: Peers): set<string> {
    set k | k in want.Keys + peers.Keys && !Settled(show, want, peers, k)
  }

  ghost predicate WellFormed(want: Wants) {
    forall k :: k in want ==> KeyOk(k) && Trimmed(want[k].allowedIps)
  }

  // Sets carry the desired spec of a desired key; removals name an undesired key.
  predicate Fits(want: Wants, c: Command) {
    match c
    case Malformed => true
    case Remove(k) => k !in want
    case _ => c.key in want && c.spec == want[c.key]
  }

  function KeyOf(c: Command): string {
    if c.Malformed? then "" else c.key
  }

  ghost predicate SameAt(a: Peers, b: Peers, k: string) {
    (k in a <==> k in b) && (k in a ==> a[k] == b[k])
  }

  // The only ways a peer may come out of a pass: as it was, set to its spec, or removed when undesired.
  ghost predicate Allowed(want: Wants, before: Peers, after: Peers, k: string) {
    || SameAt(before, after, k)
    || (if k in want then k in after && after[k] == AfterSet(want[k], k, before) else k !in after)
  }

  // Dump keys as _parse_dump leaves them: stripped.
  ghost predicate StrippedKeys(runtime: seq<RuntimePeer>) {
    forall i :: 0 <= i < |runtime| ==> Strip(runtime[i].publicKey) == runtime[i].publicKey
  }

  lemma {:induction false} EffectElsewhere(c: Command, peers: Peers, k: string)
    requires k != KeyOf(c)
    ensures SameAt(peers, Effect(c, peers), k)
  {
  }

  lemma {:induction false} EffectSettles(show: string -> string, want: Wants, c: Command, peers: Peers)
    requires WellFormed(want) && Fits(want, c) && !c.Malformed?
    ensures Wrong(show, want, Effect(c, peers)) == Wrong(show, want, peers) - {c.key}
  {
    var after := Effect(c, peers);
    assert Settled(show, want, after, c.key);
    forall k | k != c.key ensures Settled(show, want, after, k) == Settled(show, want, peers, k) {
      EffectElsewhere(c, peers, k);
    }
  }

  // The peers after a stretch of the log.
  function Replay(sent: seq<Logged>, peers: Peers): Peers {
    if sent == [] then peers
    else Replay(sent[1..], if sent[0].ok then Effect(sent[0].cmd, peers) else peers)
  }

  ghost predicate AllFit(want: Wants, sent: seq<Logged>) {
    forall i :: 0 <= i < |sent| ==> Fits(want, sent[i].cmd) && !sent[i].cmd.Malformed?
  }

  // Some successful command of the log names k.
  ghost predicate Touched(sent: seq<Logged>, k: string) {
    exists i :: 0 <= i < |sent| && sent[i].ok && KeyOf(sent[i].cmd) == k
  }

  lemma {:induction false} ReplayShrinksWrong(show: string -> string, want: Wants, sent: seq<Logged>, peers: Peers)
    requires WellFormed(want) && AllFit(want, sent)
    ensures Wrong(show, want, Replay(sent, peers)) <= Wrong(show, want, peers)
  {
    if sent != [] {
      if sent[0].ok {
        EffectSettles(show, want, sent[0].cmd, peers);
      }
      ReplayShrinksWrong(show, want, sent[1..], if sent[0].ok then Effect(sent[0].cmd, peers) else peers);
    }
  }

  lemma {:induction false} EffectAllowed(want: Wants, c: Command, before: Peers, peers: Peers, k: string)
    requires Fits(want, c) && !c.Malformed? && Allowed(want, before, peers, k)
    ensures Allowed(want, before, Effect(c, peers), k)
  {
  }

  lemma {:induction false} ReplayAllowed(want: Wants, sent: seq<Logged>, before: Peers, peers: Peers, k: string)
    requires AllFit(want, sent) && Allowed(want, before, peers, k)
    ensures Allowed(want, before, Replay(sent, peers), k)
  {
    if sent != [] {
      EffectAllowed(want, sent[0].cmd, before, peers, k);
      ReplayAllowed(want, sent[1..], before, if sent[0].ok then Effect(sent[0].cmd, peers) else peers, k);
    }
  }

  lemma {:induction false} ReplayTouches(sent: seq<Logged>, peers: Peers, k: string)
    ensures SameAt(peers, Replay(sent, peers), k) || Touched(sent, k)
  {
    if sent != [] {
      var next := if sent[0].ok then Effect(sent[0].cmd, peers) else peers;
      ReplayTouches(sent[1..], next, k);
      if Touched(sent[1..], k) {
        var i :| 0 <= i < |sent[1..]| && sent[1..][i].ok && KeyOf(sent[1..][i].cmd) == k;
        assert sent[i + 1] == sent[1..][i];
      } else if sent[0].ok && KeyOf(sent[0].cmd) != k {
        EffectElsewhere(sent[0].cmd, peers, k);
      }
    }
  }

  function Total(r: Report): nat
    requires r.Counts?
  {
    r.added + r.removed + r.updated
  }

  // The commands sent are a prefix of the plan, one unit of budget per success, and q's peers are what they replay to.
  ghost predicate Executed(plan: seq<Command>, p: Progress, q: Progress, sent: seq<Logged>) {
    && q.log == p.log + sent
    && |sent| <= |plan| && (forall i :: 0 <= i < |sent| ==> sent[i].cmd == plan[i] && !plan[i].Malformed?)
    && q.left + Total(Successes(sent)) == p.left
    && q.peers == Replay(sent, p.peers)
  }

  lemma {:induction false} ExecutedNothing(plan: seq<Command>, p: Progress)
    ensures Executed(plan, p, p, [])
  {
    var sent: seq<Logged> := [];
    assert p.log == p.log + sent;
    assert Replay(sent, p.peers) == p.peers && Successes(sent) == Counts(0, 0, 0);
  }

  lemma {:induction false} ExecutedStep(plan: seq<Command>, ok: nat -> bool, p: Progress, q: Progress,
                                        rest: seq<Logged>)
    requires plan != [] && !plan[0].Malformed? && p.left > 0
    requires Executed(plan[1..], Issue(plan[0], ok, p), q, rest)
    ensures Executed(plan, p, q, [Logged(plan[0], ok(|p.log|))] + rest)
  {
    var sent := [Logged(plan[0], ok(|p.log|))] + rest;
    assert sent[1..] == rest;
    forall i | 0 <= i < |sent| ensures sent[i].cmd == plan[i] && !plan[i].Malformed? {
      if i > 0 {
        assert sent[i] == rest[i - 1] && plan[i] == plan[1..][i - 1];
      }
    }
  }

  /** Running a plan sends a prefix of it, spends one unit of budget per success, and leaves what the log replays to. */
  lemma {:induction false} ExecuteLog(plan: seq<Command>, ok: nat -> bool, p: Progress) returns (sent: seq<Logged>)
    ensures Executed(plan, p, Execute(plan, ok, p).final, sent)
    decreases |plan|
  {
    if plan == [] || p.left == 0 || plan[0].Malformed? {
      sent := [];
      ExecutedNothing(plan, p);
    } else {
      var mid := Issue(plan[0], ok, p);
      var rest := ExecuteLog(plan[1..], ok, mid);
      ExecutedStep(plan, ok, p, Execute(plan[1..], ok, mid).final, rest);
      sent := [Logged(plan[0], ok(|p.log|))] + rest;
    }
  }

  lemma {:induction false} CollectDesiredWellFormed(ps: seq<DesiredPeer>, acc: Dict<Spec>)
    requires acc.Valid() && WellFormed(acc.at) && CollectDesired(ps, acc).Some?
    ensures CollectDesired(ps, acc).value.Valid() && WellFormed(CollectDesired(ps, acc).value.at)
    decreases |ps|
  {
    if ps != [] {
      var spec := NormalizedSpec(ps[0]);
      StripTrims(if ps[0].allowedIps == "" then DEFAULT_ALLOWED_IPS else ps[0].allowedIps);
      CollectDesiredWellFormed(ps[1..], acc.Put(SanitizePubkey(ps[0].publicKey).value, spec));
    }
  }

  lemma {:induction false} CollectRuntimeKeys(ps: seq<RuntimePeer>, acc: Dict<RuntimePeer>)
    ensures forall k :: k in CollectRuntime(ps, acc).at ==>
              k in acc.at || exists i :: 0 <= i < |ps| && ps[i].publicKey == k
    decreases |ps|
  {
    if ps != [] {
      var next := if ps[0].publicKey == "" then acc else acc.Put(ps[0].publicKey, ps[0]);
      CollectRuntimeKeys(ps[1..], next);
      forall k | k in CollectRuntime(ps, acc).at && k !in acc.at
        ensures exists i :: 0 <= i < |ps| && ps[i].publicKey == k
      {
        if k in next.at {
          assert ps[0].publicKey == k;
        } else {
          var i :| 0 <= i < |ps[1..]| && ps[1..][i].publicKey == k;
          assert ps[i + 1].publicKey == k;
        }
      }
    }
  }

  lemma {:induction false} PlanFits(d: Dict<Spec>, r: Dict<RuntimePeer>)
    requires d.Valid() && r.Valid() && forall k :: k in r.at ==> Strip(k) == k
    ensures forall c :: c in Plan(d, r) ==> Fits(d.at, c)
  {
    var adds := Adds(Without(d.order, r.at.Keys), d.at);
    var updates := Updates(ToUpdate(d.order, d.at, r.at), d.at);
    var removes := Removes(Without(r.order, d.at.Keys));
    forall c | c in Plan(d, r) ensures Fits(d.at, c) {
      assert c in adds || c in updates || c in removes;
    }
  }

  lemma {:induction false} RemovedSomewhere(log: seq<Logged>)
    requires Successes(log).removed > 0
    ensures exists i :: 0 <= i < |log| && log[i].cmd.Remove?
  {
    if !log[0].cmd.Remove? {
      RemovedSomewhere(log[1..]);
      var i :| 0 <= i < |log[1..]| && log[1..][i].cmd.Remove?;
      assert log[i + 1].cmd.Remove?;
    }
  }

  /** Safety of one reconcile call, for every desired list it accepts, every snapshot with stripped keys and every
      pattern of command failures, also when a malformed runtime key stops it part-way: only undesired keys of the
      snapshot go away, only desired keys are set, each exactly to its spec, everything else stays. */
  lemma {:induction false} PassIsSafe(cfg: Config, desired: seq<DesiredPeer>, runtime: seq<RuntimePeer>,
                                      ok: nat -> bool,
                   peers: Peers, log: seq<Logged>, k: string)
    requires StrippedKeys(runtime) && CollectDesired(desired, Dict([], map[])).Some?
    ensures var d := CollectDesired(desired, Dict([], map[])).value;
            var after := Pass(cfg, desired, runtime, ok, peers, log).final.peers;
            && (k in peers && k !in after ==>
                  k !in d.at && exists i :: 0 <= i < |runtime| && runtime[i].publicKey == k)
            && (k in after && !SameAt(peers, after, k) ==> k in d.at && after[k] == AfterSet(d.at[k], k, peers))
  {
    var d, r := CollectDesired(desired, Dict([], map[])).value, CollectRuntime(runtime, Dict([], map[]));
    CollectRuntimeKeys(runtime, Dict([], map[]));
    PlanFits(d, r);
    var p, q := Progress(peers, log, cfg.Budget()), Pass(cfg, desired, runtime, ok, peers, log).final;
    if q != p {
      var sent := ExecuteLog(Plan(d, r), ok, p);
      ReplayAllowed(d.at, sent, peers, peers, k);
      ReplayTouches(sent, peers, k);
      if k in peers && k !in q.peers {
        var i :| 0 <= i < |sent| && sent[i].ok && KeyOf(sent[i].cmd) == k;
        RemovesNameRuntimeKeys(d, r, Plan(d, r)[i]);
      }
    }
  }

  lemma {:induction false} RemovesNameRuntimeKeys(d: Dict<Spec>, r: Dict<RuntimePeer>, c: Command)
    requires d.Valid() && r.Valid() && c in Plan(d, r) && c.Remove? && forall k :: k in r.at ==> Strip(k) == k
    ensures c.key in r.at && c.key !in d.at
  {
    hide ToUpdate, Without, Drifts, RemoveOf, Adds, Updates, Removes;
    var removes := Removes(Without(r.order, d.at.Keys));
    assert c in removes;
    var i :| 0 <= i < |removes| && removes[i] == c;
    assert Without(r.order, d.at.Keys)[i] in r.order;
  }

  /** Under the same failures: the number of wrong peers never grows, successes stay within the budget, and nothing is
      removed before every add and update candidate has been tried. */
  lemma {:induction false} PassMakesProgress(show: string -> string, cfg: Config, desired: seq<DesiredPeer>,
                                             runtime: seq<RuntimePeer>,
                                             ok: nat -> bool, peers: Peers, log: seq<Logged>)
    requires StrippedKeys(runtime) && CollectDesired(desired, Dict([], map[])).Some?
    ensures var d := CollectDesired(desired, Dict([], map[])).value;
            var q := Pass(cfg, desired, runtime, ok, peers, log).final;
            && log <= q.log
            && |Wrong(show, d.at, q.peers)| <= |Wrong(show, d.at, peers)|
            && var sent := q.log[|log|..];
            && Total(Successes(sent)) <= (if cfg.maxMutations < 0 then 0 else cfg.maxMutations)
            && (Successes(sent).removed > 0 ==>
                  forall c :: c in Plan(d, CollectRuntime(runtime, Dict([], map[]))) && (c.Add? || c.Update?) ==>
                    exists i :: 0 <= i < |sent| && sent[i].cmd == c)
  {
    var d, r := CollectDesired(desired, Dict([], map[])).value, CollectRuntime(runtime, Dict([], map[]));
    CollectDesiredWellFormed(desired, Dict([], map[]));
    CollectRuntimeKeys(runtime, Dict([], map[]));
    PlanFits(d, r);
    var p, q := Progress(peers, log, cfg.Budget()), Pass(cfg, desired, runtime, ok, peers, log).final;
    if q == p {
      assert q.log[|log|..] == [];
    } else {
      PlanMakesProgress(show, d, r, ok, p);
    }
  }

  lemma {:induction false} PlanMakesProgress(show: string -> string, d: Dict<Spec>, r: Dict<RuntimePeer>,
                                             ok: nat -> bool, p: Progress)
    requires d.Valid() && WellFormed(d.at) && forall c :: c in Plan(d, r) ==> Fits(d.at, c)
    ensures var q := Execute(Plan(d, r), ok, p).final;
            && p.log <= q.log
            && |Wrong(show, d.at, q.peers)| <= |Wrong(show, d.at, p.peers)|
            && var sent := q.log[|p.log|..];
            && Total(Successes(sent)) <= p.left
            && (Successes(sent).removed > 0 ==>
                  forall c :: c in Plan(d, r) && (c.Add? || c.Update?) ==>
                    exists i :: 0 <= i < |sent| && sent[i].cmd == c)
  {
    var sent := ExecuteLog(Plan(d, r), ok, p);
    var q := Execute(Plan(d, r), ok, p).final;
    assert q.log[|p.log|..] == sent;
    ReplayShrinksWrong(show, d.at, sent, p.peers);
    SubsetSize(Wrong(show, d.at, q.peers), Wrong(show, d.at, p.peers));
    TriedBeforeRemoval(d, r, sent);
  }

  lemma {:induction false} TriedBeforeRemoval(d: Dict<Spec>, r: Dict<RuntimePeer>, sent: seq<Logged>)
    requires d.Valid() && |sent| <= |Plan(d, r)| && forall i :: 0 <= i < |sent| ==> sent[i].cmd == Plan(d, r)[i]
    ensures Successes(sent).removed > 0 ==>
              forall c :: c in Plan(d, r) && (c.Add? || c.Update?) ==> exists i :: 0 <= i < |sent| && sent[i].cmd == c
  {
    if Successes(sent).removed > 0 {
      RemovedSomewhere(sent);
      var last :| 0 <= last < |sent| && sent[last].cmd.Remove?;
      RemovesComeLast(d, r, last);
      forall c | c in Plan(d, r) && (c.Add? || c.Update?) ensures exists i :: 0 <= i < |sent| && sent[i].cmd == c {
        var j :| 0 <= j < |Plan(d, r)| && Plan(d, r)[j] == c;
        assert sent[j].cmd == c;
      }
    }
  }

  lemma {:induction false} SubsetSize<T>(a: set<T>, b: set<T>)
    requires a <= b
    ensures |a| <= |b|
  {
    assert b == a + (b - a);
  }

  lemma {:induction false} RemovesComeLast(d: Dict<Spec>, r: Dict<RuntimePeer>, i: nat)
    requires d.Valid() && i < |Plan(d, r)| && Plan(d, r)[i].Remove?
    ensures forall j :: i <= j < |Plan(d, r)| ==> !Plan(d, r)[j].Add? && !Plan(d, r)[j].Update?
  {
    hide ToUpdate, Without, Drifts, RemoveOf, Adds, Updates, Removes;
    ConcatRemovesLast(Adds(Without(d.order, r.at.Keys), d.at) + Updates(ToUpdate(d.order, d.at, r.at), d.at),
                      Removes(Without(r.order, d.at.Keys)), i);
  }

  lemma {:induction false} ConcatRemovesLast(sets: seq<Command>, removes: seq<Command>, i: nat)
    requires i < |sets + removes| && (sets + removes)[i].Remove?
    requires forall c :: c in sets ==> c.Add? || c.Update?
    requires forall c :: c in removes ==> c.Remove? || c.Malformed?
    ensures forall j :: i <= j < |sets + removes| ==> !(sets + removes)[j].Add? && !(sets + removes)[j].Update?
  {
    assert forall j :: 0 <= j < |sets| ==> (sets + removes)[j] in sets;
    forall j | i <= j < |sets + removes| ensures (sets + removes)[j] in removes {
      assert (sets + removes)[j] == removes[j - |sets|];
    }
  }
}

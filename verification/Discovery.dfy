/** The target cache of the discovery loop: every target seen lately, kept across runs in a state file. */
module Discovery {
  import opened Text
  import opened OrderedDict

  datatype Target = Target(labels: Option<map<string, string>>, targets: Option<seq<string>>)
  datatype Entry = Entry(lastSeen: real, target: Target)

  // One run's inputs; an unreadable state file loads as empty.
  datatype Run = Run(now: real, found: seq<Target>, readable: bool, ttl: int)

  function KeyOf(t: Target): string {
    var job := if t.labels.Some? && "sd_job" in t.labels.value then t.labels.value["sd_job"] else "unknown";
    var first := if t.targets.Some? && t.targets.value != [] then t.targets.value[0] else "";
    job + "|" + first
  }

  // The job label and the first address of a target, with their defaults.
  ghost predicate Describes(t: Target, job: string, first: string) {
    && (if t.labels.Some? && "sd_job" in t.labels.value then t.labels.value["sd_job"] == job else job == "unknown")
    && (match t.targets case Some(ts) => first == (if |ts| > 0 then ts[0] else "") case None => first == "")
  }

  /** Two targets share a key exactly when their job and first address agree, for jobs without a '|'. */
  lemma {:induction false} SharedKeyExactly(t: Target, job: string, first: string,
                                            u: Target, job': string, first': string)
    requires Describes(t, job, first) && Describes(u, job', first') && '|' !in job && '|' !in job'
    ensures KeyOf(t) == KeyOf(u) <==> (job == job' && first == first')
  {
    hide KeyOf, Describes, IndexOf;
    DescribedKey(t, job, first);
    DescribedKey(u, job', first');
  }

  lemma {:induction false} DescribedKey(t: Target, job: string, first: string)
    requires Describes(t, job, first) && '|' !in job
    ensures KeyOf(t) == job + "|" + first && IndexOf(KeyOf(t), '|') == |job|
    ensures KeyOf(t)[..|job|] == job && KeyOf(t)[|job| + 1..] == first
  {
    hide IndexOf;
    var key := job + "|" + first;
    assert key[..|job|] == job && key[|job|] == '|';
    IndexOfIs(key, '|', |job|);
  }

  /** A '|' in a job can make two different targets share a key. */
  lemma {:induction false} BarSharesKey()
    ensures exists t, u :: KeyOf(t) == KeyOf(u) && Describes(t, "a|b", "c") && Describes(u, "a", "b|c")
  {
    var t := Target(Some(map["sd_job" := "a|b"]), Some(["c"]));
    var u := Target(Some(map["sd_job" := "a"]), Some(["b|c"]));
    assert KeyOf(t) == "a|b|c" && KeyOf(u) == "a|b|c";
    assert Describes(t, "a|b", "c") && Describes(u, "a", "b|c");
  }

  function Empty(): (d: Dict<Entry>)
    ensures d.Valid()
  {
    Dict([], map[])
  }

  function Noted(state: Dict<Entry>, found: seq<Target>, now: real): (d: Dict<Entry>)
    ensures state.Valid() ==> d.Valid()
  {
    if found == [] then state
    else
      var t := found[|found| - 1];
      Noted(state, found[..|found| - 1], now).Put(KeyOf(t), Entry(now, t))
  }

  predicate Fresh(e: Entry, now: real, ttl: int) {
    now - e.lastSeen <= ttl as real
  }

  // The targets of the fresh entries among the first keys, in the state's order.
  function Written(keys: seq<string>, at: map<string, Entry>, now: real, ttl: int): seq<Target>
    requires forall k :: k in keys ==> k in at
  {
    if keys == [] then []
    else
      var k := keys[|keys| - 1];
      Written(keys[..|keys| - 1], at, now, ttl) + if Fresh(at[k], now, ttl) then [at[k].target] else []
  }

  function Step(state: Dict<Entry>, r: Run): (d: Dict<Entry>)
    ensures state.Valid() ==> d.Valid()
  {
    Noted(if r.readable then state else Empty(), r.found, r.now)
  }

  class Cache {
    var state: Dict<Entry>

    constructor ()
      ensures state == Empty()
    {
      state := Empty();
    }

    // Overwrites an entry per target found.
    method Note(found: seq<Target>, now: real)
      modifies this
      ensures state == Noted(old(state), found, now)
    {
      hide KeyOf;
      for i := 0 to |found|
        invariant state == Noted(old(state), found[..i], now)
      {
        var t := found[i];
        assert found[..i + 1][..i] == found[..i];
        state := state.Put(KeyOf(t), Entry(now, t));
      }
      assert found[..|found|] == found;
    }

    // Collects the targets of fresh entries.
    method Collect(now: real, ttl: int) returns (out: seq<Target>)
      requires forall k :: k in state.order ==> k in state.at
      ensures out == Written(state.order, state.at, now, ttl)
    {
      hide Fresh;
      out := [];
      for i := 0 to |state.order|
        invariant out == Written(state.order[..i], state.at, now, ttl)
      {
        var e := state.at[state.order[i]];
        assert state.order[..i + 1][..i] == state.order[..i];
        if Fresh(e, now, ttl) {
          out := out + [e.target];
        }
      }
      assert state.order[..|state.order|] == state.order;
    }

    /** One run: load the state, note what was found, write out what is fresh, save the state. */
    method RunOnce(r: Run) returns (out: seq<Target>)
      requires state.Valid()
      modifies this
      ensures state == Step(old(state), r) && state.Valid()
      ensures out == Written(state.order, state.at, r.now, r.ttl)
    {
      hide Noted, Written;
      if !r.readable {
        state := Empty();
      }
      Note(r.found, r.now);
      assert forall k :: k in state.order ==> k in Elements(state.order);
      out := Collect(r.now, r.ttl);
    }
  }

  // ---- whole runs ----

  function After(history: seq<Run>): (d: Dict<Entry>)
    ensures d.Valid()
  {
    if history == [] then Empty() else Step(After(history[..|history| - 1]), history[|history| - 1])
  }

  // What the latest run of a history writes.
  function Output(history: seq<Run>): seq<Target>
    requires history != []
  {
    var d, r := After(history), history[|history| - 1];
    Written(d.order, d.at, r.now, r.ttl)
  }

  // Position j is the key's last one in a run's targets.
  ghost predicate LastAt(found: seq<Target>, key: string, j: nat) {
    j < |found| && KeyOf(found[j]) == key && forall j' :: j < j' < |found| ==> KeyOf(found[j']) != key
  }

  // The j-th target of the i-th run is the key's latest sighting, and the state file was readable ever since.
  ghost predicate Latest(history: seq<Run>, key: string, i: nat, j: nat) {
    && i < |history| && LastAt(history[i].found, key, j)
    && (forall i' :: i < i' < |history| ==> history[i'].readable && NotFound(history[i'], key))
  }

  ghost predicate NotFound(r: Run, key: string) {
    forall j :: 0 <= j < |r.found| ==> KeyOf(r.found[j]) != key
  }

  lemma {:induction false} NotedHit(state: Dict<Entry>, found: seq<Target>, now: real, key: string, j: nat)
    requires LastAt(found, key, j)
    ensures var at := Noted(state, found, now).at; key in at && at[key] == Entry(now, found[j])
  {
    hide KeyOf;
    var n := |found| - 1;
    if j < n {
      NotedHit(state, found[..n], now, key, j);
    }
  }

  lemma {:induction false} NotedMiss(state: Dict<Entry>, found: seq<Target>, now: real, key: string)
    requires forall j :: 0 <= j < |found| ==> KeyOf(found[j]) != key
    ensures var at := Noted(state, found, now).at;
            (key in at <==> key in state.at) && (key in at ==> at[key] == state.at[key])
  {
    hide KeyOf;
    if found != [] {
      NotedMiss(state, found[..|found| - 1], now, key);
    }
  }

  lemma {:induction false} LastSighting(found: seq<Target>, key: string) returns (j: nat)
    requires exists j :: 0 <= j < |found| && KeyOf(found[j]) == key
    ensures LastAt(found, key, j)
  {
    hide KeyOf;
    j := |found| - 1;
    while KeyOf(found[j]) != key
      invariant 0 <= j < |found|
      invariant exists m :: 0 <= m <= j && KeyOf(found[m]) == key
      invariant forall j' :: j < j' < |found| ==> KeyOf(found[j']) != key
      decreases j
    {
      j := j - 1;
    }
  }

  lemma {:induction false} LatestPrefix(history: seq<Run>, key: string, i: nat, j: nat)
    requires history != [] && i < |history| - 1
    ensures Latest(history, key, i, j) <==>
              (var n := |history| - 1;
               Latest(history[..n], key, i, j) && history[n].readable && NotFound(history[n], key))
  {
    hide KeyOf, NotFound, LastAt;
    var n := |history| - 1;
    assert forall m :: 0 <= m < n ==> history[..n][m] == history[m];
  }

  lemma {:induction false} EntryIsLatest(history: seq<Run>, key: string, i: nat, j: nat)
    requires Latest(history, key, i, j)
    ensures key in After(history).at && After(history).at[key] == Entry(history[i].now, history[i].found[j])
  {
    hide KeyOf, Noted;
    var n := |history| - 1;
    var loaded := if history[n].readable then After(history[..n]) else Empty();
    if i == n {
      NotedHit(loaded, history[n].found, history[n].now, key, j);
    } else {
      NotedMiss(loaded, history[n].found, history[n].now, key);
      LatestPrefix(history, key, i, j);
      EntryIsLatest(history[..n], key, i, j);
    }
  }

  lemma {:induction false} EntryHasLatest(history: seq<Run>, key: string) returns (i: nat, j: nat)
    requires key in After(history).at
    ensures Latest(history, key, i, j)
  {
    hide KeyOf, Noted;
    var n := |history| - 1;
    var loaded := if history[n].readable then After(history[..n]) else Empty();
    if NotFound(history[n], key) {
      NotedMiss(loaded, history[n].found, history[n].now, key);
      i, j := EntryHasLatest(history[..n], key);
      LatestPrefix(history, key, i, j);
    } else {
      i := n;
      j := LastSighting(history[n].found, key);
    }
  }

  // ---- what is written ----

  ghost predicate KeyedBy(at: map<string, Entry>) {
    forall k :: k in at ==> KeyOf(at[k].target) == k
  }

  lemma {:induction false} AfterKeyed(history: seq<Run>)
    ensures KeyedBy(After(history).at)
  {
    hide KeyOf, After;
    forall k | k in After(history).at ensures KeyOf(After(history).at[k].target) == k {
      var i, j := EntryHasLatest(history, k);
      EntryIsLatest(history, k, i, j);
    }
  }

  lemma {:induction false} WrittenMembers(keys: seq<string>, at: map<string, Entry>, now: real, ttl: int, t: Target)
    requires (forall k :: k in keys ==> k in at) && KeyedBy(at)
    ensures t in Written(keys, at, now, ttl) <==>
              (KeyOf(t) in keys && at[KeyOf(t)].target == t && Fresh(at[KeyOf(t)], now, ttl))
  {
    hide KeyOf, Fresh;
    if keys != [] {
      WrittenMembers(keys[..|keys| - 1], at, now, ttl, t);
      assert keys == keys[..|keys| - 1] + [keys[|keys| - 1]];
    }
  }

  ghost predicate DistinctKeys(ts: seq<Target>) {
    forall a, b :: 0 <= a < b < |ts| ==> KeyOf(ts[a]) != KeyOf(ts[b])
  }

  lemma {:induction false} WrittenOnce(keys: seq<string>, at: map<string, Entry>, now: real, ttl: int)
    requires (forall k :: k in keys ==> k in at) && KeyedBy(at) && Distinct(keys)
    ensures DistinctKeys(Written(keys, at, now, ttl))
  {
    hide KeyOf, Fresh;
    if keys != [] {
      var n := |keys| - 1;
      WrittenOnce(keys[..n], at, now, ttl);
      var front := Written(keys[..n], at, now, ttl);
      forall a | 0 <= a < |front| ensures KeyOf(front[a]) != keys[n] {
        WrittenMembers(keys[..n], at, now, ttl, front[a]);
        assert front[a] in front;
      }
    }
  }

  /**
   * A run writes exactly the targets of latest sightings within the time to live, one entry per key: of the whole
   * history, as far back as the state file has been readable, and the last one wherever a run saw a key twice.
   */
  lemma {:induction false} WritesLatestSightings(history: seq<Run>, t: Target)
    requires history != []
    ensures var n := |history| - 1;
            t in Output(history) <==>
              exists i: nat, j: nat :: Latest(history, KeyOf(t), i, j) && history[i].found[j] == t &&
                                        history[n].now - history[i].now <= history[n].ttl as real
  {
    hide KeyOf, After, Written, Latest;
    var n := |history| - 1;
    var d := After(history);
    AfterKeyed(history);
    WrittenMembers(d.order, d.at, history[n].now, history[n].ttl, t);
    assert KeyOf(t) in d.order <==> KeyOf(t) in Elements(d.order);
    if t in Output(history) {
      var i, j := EntryHasLatest(history, KeyOf(t));
      EntryIsLatest(history, KeyOf(t), i, j);
      LatestInRange(history, KeyOf(t), i, j);
    }
    forall i: nat, j: nat | Latest(history, KeyOf(t), i, j) && InRange(history, i, j) && history[i].found[j] == t &&
                  history[n].now - history[i].now <= history[n].ttl as real
      ensures t in Output(history)
    {
      EntryIsLatest(history, KeyOf(t), i, j);
    }
    forall i: nat, j: nat | Latest(history, KeyOf(t), i, j) ensures InRange(history, i, j) {
      LatestInRange(history, KeyOf(t), i, j);
    }
  }

  ghost predicate InRange(history: seq<Run>, i: nat, j: nat) {
    i < |history| && j < |history[i].found|
  }

  lemma {:induction false} LatestInRange(history: seq<Run>, key: string, i: nat, j: nat)
    requires Latest(history, key, i, j)
    ensures InRange(history, i, j)
  {
  }

  /** No key is written twice. */
  lemma {:induction false} WritesEachKeyOnce(history: seq<Run>)
    requires history != []
    ensures DistinctKeys(Output(history))
  {
    hide KeyOf, After, Written;
    var n := |history| - 1;
    var d := After(history);
    AfterKeyed(history);
    WrittenOnce(d.order, d.at, history[n].now, history[n].ttl);
  }

  ghost predicate ClockForward(history: seq<Run>) {
    forall i, j :: 0 <= i <= j < |history| ==> history[i].now <= history[j].now
  }

  /** With a clock that never goes back, any sighting within the time to live keeps its key in the output. */
  lemma {:induction false} RecentKeysStay(history: seq<Run>, i: nat, j: nat)
    requires ClockForward(history) && InRange(history, i, j)
    requires forall m :: i < m < |history| ==> history[m].readable
    requires history[|history| - 1].now - history[i].now <= history[|history| - 1].ttl as real
    ensures exists t :: t in Output(history) && KeyOf(t) == KeyOf(history[i].found[j])
  {
    hide KeyOf, Output;
    var key := KeyOf(history[i].found[j]);
    var i', j' := LatestFrom(history, i, j);
    LatestInRange(history, key, i', j');
    var t := history[i'].found[j'];
    assert KeyOf(t) == key;
    assert history[i].now <= history[i'].now;
    WritesLatestSightings(history, t);
    assert t in Output(history);
  }

  lemma {:induction false} LatestFrom(history: seq<Run>, i: nat, j: nat) returns (i': nat, j': nat)
    requires InRange(history, i, j) && forall m :: i < m < |history| ==> history[m].readable
    ensures i <= i' && Latest(history, KeyOf(history[i].found[j]), i', j')
  {
    hide KeyOf;
    var key := KeyOf(history[i].found[j]);
    i' := |history| - 1;
    while i' > i && NotFound(history[i'], key)
      invariant i <= i' < |history|
      invariant forall m :: i' < m < |history| ==> NotFound(history[m], key)
    {
      i' := i' - 1;
    }
    j' := LastSighting(history[i'].found, key);
  }
}

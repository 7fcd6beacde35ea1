/** Per-server backoff of the background sync: doubling waits after failures, forgotten on success. */
module SyncBackoff {

  datatype Entry = Entry(nextTs: real, failCount: nat)

  function Pow2(n: nat): (p: nat)
    ensures p >= 1
  {
    if n == 0 then 1 else 2 * Pow2(n - 1)
  }

  function Max(a: int, b: int): int {
    if a < b then b else a
  }

  // The wait after the n-th failure in a row.
  function Delay(n: nat, cap: int): int
    requires n >= 1
  {
    var d := 60 * Pow2(n - 1);
    if d < cap then d else cap
  }

  predicate Skips(entries: map<string, Entry>, sid: string, now: real) {
    sid in entries && now < entries[sid].nextTs
  }

  function Failed(entries: map<string, Entry>, sid: string, now: real, cap: int): map<string, Entry> {
    var n := (if sid in entries then entries[sid].failCount else 0) + 1;
    entries[sid := Entry(now + Delay(n, cap) as real, n)]
  }

  // ---- the loop as a state machine: syncs of different servers interleave ----

  datatype Event =
    | Begin(sid: string, now: real)
    | Finish(sid: string, now: real, ok: bool)

  datatype State = State(entries: map<string, Entry>, running: set<string>)

  function Step(s: State, e: Event, cap: int): State {
    match e
    case Begin(sid, now) => if Skips(s.entries, sid, now) then s else State(s.entries, s.running + {sid})
    case Finish(sid, now, ok) =>
      State(if ok then s.entries - {sid} else Failed(s.entries, sid, now, cap), s.running - {sid})
  }

  function After(events: seq<Event>, cap: int): State {
    if events == [] then State(map[], {})
    else Step(After(events[..|events| - 1], cap), events[|events| - 1], cap)
  }

  // The clock never goes back, a server is not started twice at once, and only a started sync finishes.
  ghost predicate Legal(events: seq<Event>, cap: int) {
    events != [] ==>
      var n := |events| - 1;
      var e, running := events[n], After(events[..n], cap).running;
      && Legal(events[..n], cap)
      && (n > 0 ==> events[n - 1].now <= e.now)
      && (if e.Begin? then e.sid !in running else e.sid in running)
  }

  class Backoff {
    var entries: map<string, Entry>
    var running: set<string>
    const cap: int

    constructor (backoffMaxSeconds: int)
      ensures entries == map[] && running == {} && cap == (if backoffMaxSeconds < 60 then 60 else backoffMaxSeconds)
    {
      entries, running, cap := map[], {}, Max(60, backoffMaxSeconds);
    }

    function Now(): State
      reads this
    {
      State(entries, running)
    }

    method ShouldSkip(sid: string, now: real) returns (skip: bool)
      ensures skip == Skips(entries, sid, now)
    {
      if sid !in entries {
        return false;
      }
      return now < entries[sid].nextTs;
    }

    method RecordFailure(sid: string, now: real)
      modifies this`entries
      ensures entries == Failed(old(entries), sid, now, cap)
    {
      var failCount: nat := if sid in entries then entries[sid].failCount else 0;
      failCount := failCount + 1;
      var delay := 60 * Pow2(failCount - 1);
      if cap <= delay {
        delay := cap;
      }
      entries := entries[sid := Entry(now + delay as real, failCount)];
    }

    method RecordSuccess(sid: string)
      modifies this`entries
      ensures entries == old(entries) - {sid}
    {
      entries := entries - {sid};
    }

    // Up to the first wait: the skip test.
    method Start(sid: string, now: real) returns (started: bool)
      modifies this
      ensures Now() == Step(old(Now()), Begin(sid, now), cap)
      ensures started == !Skips(old(entries), sid, now)
    {
      var skip := ShouldSkip(sid, now);
      if skip {
        return false;
      }
      running := running + {sid};
      return true;
    }

    // After it: the outcome is recorded.
    method Complete(sid: string, now: real, ok: bool)
      modifies this
      ensures Now() == Step(old(Now()), Finish(sid, now, ok), cap)
    {
      if ok {
        RecordSuccess(sid);
      } else {
        RecordFailure(sid, now);
      }
      running := running - {sid};
    }

    /** A whole run of events, of any servers in any order. */
    method Replay(events: seq<Event>)
      requires Now() == State(map[], {})
      modifies this
      ensures Now() == After(events, cap)
    {
      for i := 0 to |events|
        invariant Now() == After(events[..i], cap)
      {
        assert events[..i + 1][..i] == events[..i];
        match events[i]
        case Begin(sid, now) => var _ := Start(sid, now);
        case Finish(sid, now, ok) => Complete(sid, now, ok);
      }
      assert events[..|events|] == events;
    }
  }

  // ---- what the history says ----

  // The times of a server's failures since its last success.
  function FailTimes(events: seq<Event>, sid: string): seq<real> {
    if events == [] then []
    else
      var front, e := FailTimes(events[..|events| - 1], sid), events[|events| - 1];
      if e.Begin? || e.sid != sid then front
      else if e.ok then []
      else front + [e.now]
  }

  /** The stored entry is the number of failures since the last success and the last of them plus its wait. */
  lemma {:induction false} StoredIsHistory(events: seq<Event>, cap: int, sid: string)
    ensures var fails, entries := FailTimes(events, sid), After(events, cap).entries;
            && (sid in entries <==> fails != [])
            && (fails != [] ==>
                  entries[sid] == Entry(fails[|fails| - 1] + Delay(|fails|, cap) as real, |fails|))
  {
    hide Delay;
    if events != [] {
      StoredIsHistory(events[..|events| - 1], cap, sid);
    }
  }

  // A started sync began after the wait of the last failure was over.
  lemma {:induction false} RunningWaited(events: seq<Event>, cap: int, sid: string)
    requires Legal(events, cap) && events != [] && FailTimes(events, sid) != []
    requires sid in After(events, cap).running
    ensures var fails := FailTimes(events, sid);
            events[|events| - 1].now >= fails[|fails| - 1] + Delay(|fails|, cap) as real
  {
    hide Delay, Failed;
    var n := |events| - 1;
    StoredIsHistory(events[..n], cap, sid);
    StoredIsHistory(events, cap, sid);
    if sid in After(events[..n], cap).running {
      if n > 0 && FailTimes(events[..n], sid) != [] {
        RunningWaited(events[..n], cap, sid);
      }
    }
  }

  /** Consecutive failures of a server are apart by at least the wait after the earlier one. */
  lemma {:induction false} FailuresApart(events: seq<Event>, cap: int, sid: string, j: nat)
    requires Legal(events, cap) && j + 1 < |FailTimes(events, sid)|
    ensures var fails := FailTimes(events, sid); fails[j + 1] - fails[j] >= Delay(j + 1, cap) as real
  {
    hide Delay, Step, After;
    var n := |events| - 1;
    var front := FailTimes(events[..n], sid);
    if j + 1 < |front| {
      FailuresApart(events[..n], cap, sid, j);
    } else {
      RunningWaited(events[..n], cap, sid);
    }
  }

  // The waits after failures 1 to n together.
  function TotalDelay(n: nat, cap: int): int {
    if n == 0 then 0 else TotalDelay(n - 1, cap) + Delay(n, cap)
  }

  /** Any stretch of failures in a row, the (k+1)-th to the (l+1)-th, spans the waits between them. */
  lemma {:induction false} FailuresSpan(events: seq<Event>, cap: int, sid: string, k: nat, l: nat)
    requires Legal(events, cap) && k <= l < |FailTimes(events, sid)|
    ensures var fails := FailTimes(events, sid);
            fails[l] - fails[k] >= (TotalDelay(l, cap) - TotalDelay(k, cap)) as real
  {
    hide Delay, Legal, FailTimes;
    if k < l {
      FailuresSpan(events, cap, sid, k, l - 1);
      FailuresApart(events, cap, sid, l - 1);
      assert TotalDelay(l, cap) == TotalDelay(l - 1, cap) + Delay(l, cap);
    }
  }

  lemma {:induction false} DelaysGrow(i: nat, j: nat, cap: int)
    requires 1 <= i <= j
    ensures Delay(i, cap) <= Delay(j, cap)
  {
    if i < j {
      DelaysGrow(i, j - 1, cap);
    }
  }

  lemma {:induction false} LaterWaitsLonger(k: nat, n: nat, cap: int)
    ensures TotalDelay(k + n, cap) - TotalDelay(k, cap) >= TotalDelay(n, cap)
  {
    hide Delay;
    if n > 0 {
      LaterWaitsLonger(k, n - 1, cap);
      DelaysGrow(n, k + n, cap);
      assert TotalDelay(k + n, cap) == TotalDelay(k + n - 1, cap) + Delay(k + n, cap);
    }
  }

  /** Any n failures in a row of one server span at least the first n - 1 waits, wherever the row starts. */
  lemma {:induction false} NFailuresSpan(events: seq<Event>, cap: int, sid: string, k: nat, n: nat)
    requires Legal(events, cap) && n >= 1 && k + n <= |FailTimes(events, sid)|
    ensures var fails := FailTimes(events, sid); fails[k + n - 1] - fails[k] >= TotalDelay(n - 1, cap) as real
  {
    hide Delay, Legal, FailTimes, TotalDelay;
    FailuresSpan(events, cap, sid, k, k + n - 1);
    LaterWaitsLonger(k, n - 1, cap);
  }

  /** Below the cap the waits add up to 60 (2^n - 1) seconds. */
  lemma {:induction false} TotalBelowCap(n: nat, cap: int)
    requires n == 0 || 60 * Pow2(n - 1) <= cap
    ensures TotalDelay(n, cap) == 60 * (Pow2(n) - 1)
  {
    if n >= 1 {
      TotalBelowCap(n - 1, cap);
    }
  }

  lemma {:induction false} DelayAtCap(i: nat, j: nat, cap: int)
    requires 1 <= i <= j && 60 * Pow2(i - 1) >= cap
    ensures Delay(j, cap) == cap
  {
    DelaysGrow(i, j, cap);
  }

  /** At the cap each further failure adds exactly the cap. */
  lemma {:induction false} TotalAtCap(n: nat, m: nat, cap: int)
    requires n >= 1 && 60 * Pow2(n - 1) >= cap
    ensures TotalDelay(n - 1 + m, cap) == TotalDelay(n - 1, cap) + m * cap
  {
    hide Delay, Pow2;
    if m > 0 {
      TotalAtCap(n, m - 1, cap);
      DelayAtCap(n, n - 1 + m, cap);
      assert m * cap == (m - 1) * cap + cap;
      assert TotalDelay(n - 1 + m, cap) == TotalDelay(n - 1 + (m - 1), cap) + Delay(n - 1 + m, cap);
    }
  }

  /** A server is passed over exactly while the wait after its last failure lasts. */
  lemma {:induction false} SkippedExactlyWhileWaiting(events: seq<Event>, cap: int, sid: string, now: real)
    ensures Skips(After(events, cap).entries, sid, now) <==>
              var fails := FailTimes(events, sid);
              fails != [] && now < fails[|fails| - 1] + Delay(|fails|, cap) as real
  {
    hide Delay, FailTimes, After;
    StoredIsHistory(events, cap, sid);
  }
}

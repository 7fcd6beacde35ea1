/** The fixed-window request limiter: one expiring counter per address. */
module RateLimit {
  import opened Text

  // What the counter store does during one request.
  datatype Store = Up | IncrFails | ExpireFails

  datatype Request = Request(ip: string, underApi: bool, exempt: bool, now: real, store: Store)

  datatype Counter = Counter(n: nat, expiresAt: Option<real>)

  datatype Outcome = Outcome(counters: map<string, Counter>, passed: bool)

  predicate Live(counters: map<string, Counter>, ip: string, now: real) {
    ip in counters && (counters[ip].expiresAt.None? || now < counters[ip].expiresAt.value)
  }

  // A request that reaches the counter.
  predicate Counts(r: Request, limit: int) {
    limit > 0 && r.underApi && !r.exempt && !r.store.IncrFails?
  }

  // A missing or expired key counts from zero and has no expiry.
  function Current(counters: map<string, Counter>, ip: string, now: real): Counter {
    if Live(counters, ip, now) then counters[ip] else Counter(0, None)
  }

  // INCR, then EXPIRE when the count is one. A store that fails lets the request through.
  function Step(counters: map<string, Counter>, r: Request, limit: int, window: real): Outcome {
    if !Counts(r, limit) then Outcome(counters, true)
    else
      var c := Current(counters, r.ip, r.now);
      var n := c.n + 1;
      if n == 1 && r.store.ExpireFails? then Outcome(counters[r.ip := Counter(n, c.expiresAt)], true)
      else
        var expiresAt := if n == 1 then Some(r.now + window) else c.expiresAt;
        Outcome(counters[r.ip := Counter(n, expiresAt)], n <= limit)
  }

  function After(rs: seq<Request>, limit: int, window: real): map<string, Counter> {
    if rs == [] then map[]
    else Step(After(rs[..|rs| - 1], limit, window), rs[|rs| - 1], limit, window).counters
  }

  predicate Passes(rs: seq<Request>, i: nat, limit: int, window: real)
    requires i < |rs|
  {
    Step(After(rs[..i], limit, window), rs[i], limit, window).passed
  }

  class Limiter {
    var counters: map<string, Counter>
    const limit: int
    const window: real

    constructor (limit: int, window: real)
      ensures counters == map[] && this.limit == limit && this.window == window
    {
      counters, this.limit, this.window := map[], limit, window;
    }

    method Incr(key: string, now: real) returns (n: nat)
      modifies this`counters
      ensures n == Current(old(counters), key, now).n + 1
      ensures counters == old(counters)[key := Counter(n, Current(old(counters), key, now).expiresAt)]
    {
      var c := Current(counters, key, now);
      n := c.n + 1;
      counters := counters[key := Counter(n, c.expiresAt)];
    }

    method Dispatch(r: Request) returns (passed: bool)
      modifies this`counters
      ensures Outcome(counters, passed) == Step(old(counters), r, limit, window)
    {
      hide Current;
      if limit <= 0 || !r.underApi || r.exempt {
        return true;
      }
      if r.store.IncrFails? {
        return true;
      }
      ghost var before := counters;
      var n := Incr(r.ip, r.now);
      if n == 1 {
        if r.store.ExpireFails? {
          return true;
        }
        counters := counters[r.ip := Counter(n, Some(r.now + window))];
        assert counters == before[r.ip := Counter(n, Some(r.now + window))];
      }
      if n > limit {
        return false;
      }
      return true;
    }
  }

  /** A request passes and leaves every counter alone when limiting is off, when it is outside the API or exempt, or
      when the store cannot count it; any other leaves a live count of at least one, or its expiry already over. */
  lemma {:induction false} UncountedExactly(rs: seq<Request>, i: nat, limit: int, window: real)
    requires i < |rs|
    ensures var r, before, now := rs[i], After(rs[..i], limit, window), After(rs[..i + 1], limit, window);
            && (limit <= 0 || !r.underApi || r.exempt || r.store.IncrFails? ==>
                  Passes(rs, i, limit, window) && now == before)
            && (limit > 0 && r.underApi && !r.exempt && !r.store.IncrFails? ==>
                  && r.ip in now && now[r.ip].n >= 1
                  && (Live(before, r.ip, r.now) ==> now[r.ip].n == before[r.ip].n + 1))
            && (forall ip :: ip != r.ip ==>
                  (ip in now <==> ip in before) && (ip in before ==> now[ip] == before[ip]))
  {
    assert rs[..i + 1][..i] == rs[..i];
  }

  // ---- windows ----

  ghost predicate Ordered(rs: seq<Request>) {
    forall i, j :: 0 <= i <= j < |rs| ==> rs[i].now <= rs[j].now
  }

  predicate CountsFor(r: Request, ip: string, limit: int) {
    r.ip == ip && Counts(r, limit)
  }

  // Which request opened the address's latest window: the first one, then each that finds the last window over.
  // A window whose first request could not set the expiry is never over.
  function Opening(rs: seq<Request>, ip: string, limit: int, window: real): (o: Option<nat>)
    ensures o.Some? ==> o.value < |rs|
  {
    if rs == [] then None
    else
      var n := |rs| - 1;
      var front := Opening(rs[..n], ip, limit, window);
      if !CountsFor(rs[n], ip, limit) then front
      else if front.Some? && !IsOver(rs, front.value, window, rs[n].now) then front
      else Some(n)
  }

  predicate IsOver(rs: seq<Request>, o: nat, window: real, now: real)
    requires o < |rs|
  {
    !rs[o].store.ExpireFails? && rs[o].now + window <= now
  }

  // The requests of an address from the k-th request on.
  function CountFrom(rs: seq<Request>, ip: string, limit: int, k: nat): nat {
    if |rs| <= k then 0
    else CountFrom(rs[..|rs| - 1], ip, limit, k) + if CountsFor(rs[|rs| - 1], ip, limit) then 1 else 0
  }

  function ExpiryOf(r: Request, window: real): Option<real> {
    if r.store.ExpireFails? then None else Some(r.now + window)
  }

  /** Whatever the store did: the counter is the number of counted requests in the address's latest window, and expires
      when that ends, or never if its first request could not set the expiry. */
  lemma {:induction false} CounterIsWindow(rs: seq<Request>, ip: string, limit: int, window: real)
    ensures var o, counters := Opening(rs, ip, limit, window), After(rs, limit, window);
            && (ip in counters <==> o.Some?)
            && (o.Some? ==> CountFrom(rs, ip, limit, o.value) >= 1)
            && (o.Some? ==>
                  CountsFor(rs[o.value], ip, limit) &&
                  counters[ip] == Counter(CountFrom(rs, ip, limit, o.value), ExpiryOf(rs[o.value], window)))
  {
    if rs != [] {
      var n := |rs| - 1;
      CounterIsWindow(rs[..n], ip, limit, window);
      assert CountFrom(rs[..n], ip, limit, n) == 0;
    }
  }

  /** Each window passes exactly its first `limit` requests. */
  lemma {:induction false} WindowPassesFirst(rs: seq<Request>, ip: string, limit: int, window: real, i: nat)
    requires i < |rs| && CountsFor(rs[i], ip, limit)
    ensures var o := Opening(rs[..i + 1], ip, limit, window);
            o.Some? && (Passes(rs, i, limit, window) <==> CountFrom(rs[..i], ip, limit, o.value) < limit)
  {
    hide CountFrom;
    CounterIsWindow(rs[..i], ip, limit, window);
    assert rs[..i + 1][..i] == rs[..i];
    EmptyCount(rs[..i], ip, limit, i);
  }

  lemma {:induction false} EmptyCount(rs: seq<Request>, ip: string, limit: int, k: nat)
    requires |rs| <= k
    ensures CountFrom(rs, ip, limit, k) == 0
  {
  }

  // ---- any span of one window's length ----

  predicate Within(t: real, a: real, b: real) {
    a <= t < b
  }

  // How many counted requests of the address passed in [a, b).
  function PassedIn(rs: seq<Request>, ip: string, limit: int, window: real, a: real, b: real): nat {
    if rs == [] then 0
    else
      var n := |rs| - 1;
      PassedIn(rs[..n], ip, limit, window, a, b) +
      if CountsFor(rs[n], ip, limit) && Within(rs[n].now, a, b) && Passes(rs, n, limit, window) then 1 else 0
  }

  lemma {:induction false} NothingBefore(rs: seq<Request>, ip: string, limit: int, window: real, a: real, b: real)
    requires forall i :: 0 <= i < |rs| ==> rs[i].now < a
    ensures PassedIn(rs, ip, limit, window, a, b) == 0
  {
    if rs != [] {
      NothingBefore(rs[..|rs| - 1], ip, limit, window, a, b);
    }
  }

  function Capped(n: nat, limit: nat): nat {
    if n < limit then n else limit
  }

  // What the latest window leaves room for in the span [a, a + window).
  function SpanBound(start: real, n: nat, limit: nat, window: real, a: real): int {
    if start < a then Capped(n, limit) - 1
    else if start < a + window then limit - 1 + Capped(n, limit)
    else 2 * limit - 1
  }

  lemma {:induction false} SpanInvariant(rs: seq<Request>, ip: string, limit: nat, window: real, a: real)
    requires Ordered(rs) && limit > 0 && window > 0.0
    ensures var o, passed := Opening(rs, ip, limit, window), PassedIn(rs, ip, limit, window, a, a + window);
            if o.None? then passed == 0
            else CountFrom(rs, ip, limit, o.value) >= 1 &&
                 passed <= SpanBound(rs[o.value].now, CountFrom(rs, ip, limit, o.value), limit, window, a)
  {
    hide After, Step, Passes, Counts;
    if rs != [] {
      var n := |rs| - 1;
      SpanInvariant(rs[..n], ip, limit, window, a);
      EmptyCount(rs[..n], ip, limit, n);
      if CountsFor(rs[n], ip, limit) {
        WindowPassesFirst(rs, ip, limit, window, n);
        assert rs[..n + 1] == rs;
        if rs[n].now < a {
          NothingBefore(rs, ip, limit, window, a, a + window);
        }
      }
    }
  }

  /** A span of one window's length lets at most 2 limit - 1 counted requests of one address through, even when the
      store fails now and then. */
  lemma {:induction false} SpanPassesAtMost(rs: seq<Request>, ip: string, limit: nat, window: real, a: real)
    requires Ordered(rs) && limit > 0 && window > 0.0
    ensures PassedIn(rs, ip, limit, window, a, a + window) <= 2 * limit - 1
  {
    hide PassedIn, Opening, CountFrom;
    SpanInvariant(rs, ip, limit, window, a);
  }

  // k requests of one address at one moment.
  function Burst(ip: string, t: real, k: nat): seq<Request> {
    seq(k, _ => Request(ip, true, false, t, Up))
  }

  lemma {:induction false} OneMore(rs: seq<Request>, r: Request, limit: int, window: real, a: real, b: real)
    requires CountsFor(r, r.ip, limit)
    ensures var step := Step(After(rs, limit, window), r, limit, window);
            && After(rs + [r], limit, window) == step.counters
            && PassedIn(rs + [r], r.ip, limit, window, a, b) ==
                 PassedIn(rs, r.ip, limit, window, a, b) + (if Within(r.now, a, b) && step.passed then 1 else 0)
  {
    hide Step, CountsFor;
    assert (rs + [r])[..|rs|] == rs && (rs + [r])[|rs|] == r;
  }

  lemma {:induction false} BurstPasses(rs: seq<Request>, ip: string, t: real, k: nat, limit: int, window: real,
                                       a: real, b: real)
    requires var counters := After(rs, limit, window);
             Live(counters, ip, t) && counters[ip].n >= 1 && counters[ip].n + k <= limit
    ensures var rs', counters := rs + Burst(ip, t, k), After(rs, limit, window);
            && Live(After(rs', limit, window), ip, t)
            && After(rs', limit, window)[ip] == Counter(counters[ip].n + k, counters[ip].expiresAt)
            && PassedIn(rs', ip, limit, window, a, b) ==
                 PassedIn(rs, ip, limit, window, a, b) + if Within(t, a, b) then k else 0
  {
    hide After, PassedIn;
    if k == 0 {
      assert rs + Burst(ip, t, 0) == rs;
    } else {
      BurstPasses(rs, ip, t, k - 1, limit, window, a, b);
      var r := Request(ip, true, false, t, Up);
      OneMore(rs + Burst(ip, t, k - 1), r, limit, window, a, b);
      assert rs + Burst(ip, t, k) == rs + Burst(ip, t, k - 1) + [r];
    }
  }

  // The store worked for every request of the address.
  ghost predicate Healthy(rs: seq<Request>, ip: string) {
    forall i :: 0 <= i < |rs| && rs[i].ip == ip ==> rs[i].store.Up?
  }

  /** The bound is met even by a healthy store: one request, the rest of its window late, and a full window after it. */
  lemma {:induction false} BoundIsMet(ip: string, limit: nat, window: real)
    requires limit > 0 && window > 0.0
    ensures exists rs :: Ordered(rs) && Healthy(rs, ip) &&
              PassedIn(rs, ip, limit, window, window / 2.0, window / 2.0 + window) == 2 * limit - 1
  {
    hide After, PassedIn, Burst;
    var a, b := window / 2.0, window / 2.0 + window;
    var first, next := Request(ip, true, false, 0.0, Up), Request(ip, true, false, window, Up);
    NoRequests(ip, limit, window, a, b);
    OneMore([], first, limit, window, a, b);
    var rs1 := [] + [first];
    BurstPasses(rs1, ip, a, limit - 1, limit, window, a, b);
    var rs2 := rs1 + Burst(ip, a, limit - 1);
    OneMore(rs2, next, limit, window, a, b);
    var rs3 := rs2 + [next];
    BurstPasses(rs3, ip, window, limit - 1, limit, window, a, b);
    var rs := rs3 + Burst(ip, window, limit - 1);
    WitnessFits(ip, limit, window);
    assert PassedIn(rs, ip, limit, window, a, b) == 2 * limit - 1;
  }

  lemma {:induction false} NoRequests(ip: string, limit: int, window: real, a: real, b: real)
    ensures After([], limit, window) == map[] && PassedIn([], ip, limit, window, a, b) == 0
  {
  }

  lemma {:induction false} WitnessFits(ip: string, limit: nat, window: real)
    requires limit > 0 && window > 0.0
    ensures var first, next := Request(ip, true, false, 0.0, Up), Request(ip, true, false, window, Up);
            var rs := [] + [first] + Burst(ip, window / 2.0, limit - 1) + [next] + Burst(ip, window, limit - 1);
            Ordered(rs) && Healthy(rs, ip)
  {
    var first, next := Request(ip, true, false, 0.0, Up), Request(ip, true, false, window, Up);
    var rs := [] + [first] + Burst(ip, window / 2.0, limit - 1) + [next] + Burst(ip, window, limit - 1);
    forall i | 0 <= i < |rs|
      ensures rs[i].store.Up?
      ensures rs[i].now == if i == 0 then 0.0 else if i < limit then window / 2.0 else window
    {
    }
  }

  // ---- a lost expiry ----

  // The i-th request opens a window and its EXPIRE fails.
  ghost predicate LosesExpiry(rs: seq<Request>, ip: string, limit: int, window: real, i: nat) {
    i < |rs| && Opening(rs[..i + 1], ip, limit, window) == Some(i) && rs[i].store.ExpireFails?
  }

  lemma {:induction false} LostWindowStays(rs: seq<Request>, ip: string, limit: int, window: real, i: nat)
    requires LosesExpiry(rs, ip, limit, window, i)
    ensures Opening(rs, ip, limit, window) == Some(i)
  {
    var n := |rs| - 1;
    if i < n {
      assert rs[..n][..i + 1] == rs[..i + 1];
      LostWindowStays(rs[..n], ip, limit, window, i);
    } else {
      assert rs[..i + 1] == rs;
    }
  }

  lemma {:induction false} OpeningOpened(rs: seq<Request>, ip: string, limit: int, window: real)
    ensures var o := Opening(rs, ip, limit, window);
            o.Some? ==> Opening(rs[..o.value + 1], ip, limit, window) == o
  {
    if rs != [] {
      var n := |rs| - 1;
      OpeningOpened(rs[..n], ip, limit, window);
      var o := Opening(rs, ip, limit, window);
      if o.Some? {
        assert o.value < n ==> rs[..n][..o.value + 1] == rs[..o.value + 1];
        assert o.value == n ==> rs[..n + 1] == rs;
      }
    }
  }

  /** A counter without expiry exists exactly when some request opened a window and its EXPIRE failed. */
  lemma {:induction false} NoExpiryExactlyWhenLost(rs: seq<Request>, ip: string, limit: int, window: real)
    ensures (ip in After(rs, limit, window) && After(rs, limit, window)[ip].expiresAt.None?) <==>
            exists i: nat :: LosesExpiry(rs, ip, limit, window, i)
  {
    hide After, Opening, CountFrom;
    CounterIsWindow(rs, ip, limit, window);
    OpeningOpened(rs, ip, limit, window);
    var o := Opening(rs, ip, limit, window);
    if o.Some? && rs[o.value].store.ExpireFails? {
      assert LosesExpiry(rs, ip, limit, window, o.value);
    }
    forall i: nat | LosesExpiry(rs, ip, limit, window, i) ensures o == Some(i) {
      LostWindowStays(rs, ip, limit, window, i);
    }
  }

  /** A request that comes once the latest window's time has passed starts a new count exactly when the EXPIRE of that
      window's first request did not fail. */
  lemma {:induction false} RenewsExactlyWhen(rs: seq<Request>, ip: string, limit: int, window: real, i: nat)
    requires i < |rs| && CountsFor(rs[i], ip, limit) && Opening(rs[..i], ip, limit, window).Some?
    requires rs[i].now >= rs[Opening(rs[..i], ip, limit, window).value].now + window
    ensures After(rs[..i + 1], limit, window)[ip].n == 1 <==>
            !rs[Opening(rs[..i], ip, limit, window).value].store.ExpireFails?
  {
    hide CountFrom, Opening;
    assert rs[..i + 1][..i] == rs[..i];
    CounterIsWindow(rs[..i], ip, limit, window);
  }

  /** After a lost expiry the window passes `limit` requests in all and then none, however late they come. */
  lemma {:induction false} LostExpiryNeverRenews(rs: seq<Request>, ip: string, limit: int, window: real, i: nat, j: nat)
    requires LosesExpiry(rs, ip, limit, window, i) && i < j < |rs| && CountsFor(rs[j], ip, limit)
    ensures Passes(rs, j, limit, window) <==> CountFrom(rs[..j], ip, limit, i) < limit
  {
    hide After, CountFrom, Step, Passes;
    assert rs[..j + 1][..i + 1] == rs[..i + 1];
    LostWindowStays(rs[..j + 1], ip, limit, window, i);
    WindowPassesFirst(rs, ip, limit, window, j);
  }

  /** Such a run: with a limit of one, a single lost expiry refuses the address at any later time. */
  lemma {:induction false} LostExpiryExample(ip: string, window: real, later: real)
    ensures var rs := [Request(ip, true, false, 0.0, ExpireFails), Request(ip, true, false, later, Up)];
            LosesExpiry(rs, ip, 1, window, 0) && Passes(rs, 0, 1, window) && !Passes(rs, 1, 1, window)
  {
    var first, second := Request(ip, true, false, 0.0, ExpireFails), Request(ip, true, false, later, Up);
    var rs := [first, second];
    assert rs[..1] == [first] && [first][..0] == [] && rs[..0] == [];
    assert After([first], 1, window) == map[ip := Counter(1, None)];
  }
}

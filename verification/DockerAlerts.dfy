/** The Docker alert evaluator: firing rules against the table of alerts. */
module DockerAlerts {
  import opened Text

  datatype Severity = Critical | Warning
  datatype Context =
    | Health(health: string, state: string)
    | Restarts(count: int, uptime: Option<real>)
    | Cpu(pct: Option<real>)
    | Mem(pct: Option<real>)
    | Disk(usedPct: real, free: nat)

  datatype Container = Container(id: string, name: string, health: string, state: string, restartLoop: bool,
                                 restarts: int, uptime: Option<real>, cpu: Option<real>, mem: Option<real>)
  datatype Host = Host(id: string, reachable: bool, containers: seq<Container>)
  datatype DiskUsage = DiskUsage(total: nat, used: nat, free: nat)

  // One evaluation's inputs.
  datatype Eval = Eval(now: int, hosts: seq<Host>, disk: DiskUsage)

  datatype Settings =
    Settings(cpuCritical: real, cpuWarning: real, memCritical: real, memWarning: real, diskPressure: real, ttl: int)

  datatype Firing = Firing(rule: string, severity: Severity, hostId: string, containerId: Option<string>,
                           name: Option<string>, context: Context)

  datatype Row = Row(fingerprint: string, rule: string, severity: Severity, hostId: string, containerId: Option<string>,
                     name: Option<string>, context: Context, firstSeen: int, lastSeen: int, resolvedAt: Option<int>)

  // ---- which rules fire ----

  function OrZero(x: Option<real>): real {
    match x case Some(v) => v case None => 0.0
  }

  function HealthRules(h: string, c: Container): seq<Firing> {
    if c.health == "unhealthy"
    then [Firing("DockerContainerUnhealthy", Critical, h, Some(c.id), Some(c.name), Health(c.health, c.state))] else []
  }

  function RestartRules(h: string, c: Container): seq<Firing> {
    if c.restartLoop
    then [Firing("DockerContainerRestartLoop", Critical, h, Some(c.id), Some(c.name), Restarts(c.restarts, c.uptime))]
    else []
  }

  function CpuRules(h: string, c: Container, s: Settings): seq<Firing> {
    if OrZero(c.cpu) >= s.cpuCritical
    then [Firing("DockerContainerHighCPUCritical", Critical, h, Some(c.id), Some(c.name), Cpu(c.cpu))]
    else if OrZero(c.cpu) >= s.cpuWarning
    then [Firing("DockerContainerHighCPUWarning", Warning, h, Some(c.id), Some(c.name), Cpu(c.cpu))]
    else []
  }

  function MemRules(h: string, c: Container, s: Settings): seq<Firing> {
    if OrZero(c.mem) >= s.memCritical
    then [Firing("DockerContainerHighMemoryCritical", Critical, h, Some(c.id), Some(c.name), Mem(c.mem))]
    else if OrZero(c.mem) >= s.memWarning
    then [Firing("DockerContainerHighMemoryWarning", Warning, h, Some(c.id), Some(c.name), Mem(c.mem))]
    else []
  }

  function ContainerRules(h: string, c: Container, s: Settings): seq<Firing> {
    HealthRules(h, c) + RestartRules(h, c) + CpuRules(h, c, s) + MemRules(h, c, s)
  }

  function ContainersRules(h: string, cs: seq<Container>, s: Settings): seq<Firing> {
    if cs == [] then [] else ContainersRules(h, cs[..|cs| - 1], s) + ContainerRules(h, cs[|cs| - 1], s)
  }

  function HostsRules(hosts: seq<Host>, s: Settings): seq<Firing> {
    if hosts == [] then []
    else
      var front, h := HostsRules(hosts[..|hosts| - 1], s), hosts[|hosts| - 1];
      if h.reachable then front + ContainersRules(h.id, h.containers, s) else front
  }

  function UsedPct(d: DiskUsage): real {
    if d.total == 0 then 0.0 else d.used as real / d.total as real * 100.0
  }

  predicate DiskFires(e: Eval, s: Settings) {
    UsedPct(e.disk) >= s.diskPressure
  }

  function DiskRules(e: Eval, s: Settings): seq<Firing> {
    if DiskFires(e, s)
    then [Firing("DockerHostDiskPressure", Warning, "local", None, None, Disk(UsedPct(e.disk), e.disk.free))] else []
  }

  function Active(e: Eval, s: Settings): seq<Firing> {
    HostsRules(e.hosts, s) + DiskRules(e, s)
  }

  function Reachable(hosts: seq<Host>): set<string> {
    set h | h in hosts && h.reachable :: h.id
  }

  // The hosts whose alerts this evaluation judges.
  function Covered(e: Eval, s: Settings): set<string> {
    Reachable(e.hosts) + if DiskFires(e, s) then {"local"} else {}
  }

  // ---- the table ----

  // The text whose digest is the stored fingerprint.
  function FingerprintOf(rule: string, host: string, container: Option<string>): string {
    rule + ":" + host + ":" + ContainerKey(container)
  }

  function ContainerKey(container: Option<string>): string {
    if container.None? || container.value == "" then "-" else container.value
  }

  function Print(f: Firing): string {
    FingerprintOf(f.rule, f.hostId, f.containerId)
  }

  // The last firing of a list with a fingerprint, or None.
  function LastWith(active: seq<Firing>, fp: string): Option<Firing> {
    if active == [] then None
    else if Print(active[|active| - 1]) == fp then Some(active[|active| - 1])
    else LastWith(active[..|active| - 1], fp)
  }

  predicate Judged(r: Row, covered: set<string>) {
    r.resolvedAt.None? && r.hostId in covered
  }

  // An open alert of a covered host takes over the details of its firing rule.
  function Refreshed(r: Row, active: seq<Firing>, covered: set<string>, now: int): Row {
    match LastWith(active, r.fingerprint)
    case Some(f) =>
      if Judged(r, covered)
      then r.(lastSeen := now, context := f.context, severity := f.severity, rule := f.rule, name := f.name) else r
    case None => r
  }

  // One without a firing rule is resolved.
  function Swept(r: Row, active: seq<Firing>, covered: set<string>, now: int): Row {
    if Judged(r, covered) && LastWith(active, r.fingerprint).None? then r.(resolvedAt := Some(now), lastSeen := now)
    else Refreshed(r, active, covered, now)
  }

  function SweptAll(rows: seq<Row>, active: seq<Firing>, covered: set<string>, now: int): (r: seq<Row>)
    ensures |r| == |rows| && forall i :: 0 <= i < |rows| ==> r[i] == Swept(rows[i], active, covered, now)
  {
    seq(|rows|, i requires 0 <= i < |rows| => Swept(rows[i], active, covered, now))
  }

  function OpenPrints(rows: seq<Row>, covered: set<string>): set<string> {
    set r | r in rows && Judged(r, covered) :: r.fingerprint
  }

  function NewRow(f: Firing, now: int): Row {
    Row(Print(f), f.rule, f.severity, f.hostId, f.containerId, f.name, f.context, now, now, None)
  }

  // A row for every firing rule that has no open alert.
  function NewRows(active: seq<Firing>, known: set<string>, now: int): seq<Row> {
    if active == [] then []
    else
      var front, f := NewRows(active[..|active| - 1], known, now), active[|active| - 1];
      if Print(f) in known then front else front + [NewRow(f, now)]
  }

  function Threshold(now: int, s: Settings): int {
    now - if s.ttl < 60 then 60 else s.ttl
  }

  predicate Expired(r: Row, threshold: int) {
    r.resolvedAt.Some? && r.resolvedAt.value < threshold
  }

  function Cleaned(rows: seq<Row>, threshold: int): seq<Row> {
    if rows == [] then []
    else
      var front, r := Cleaned(rows[..|rows| - 1], threshold), rows[|rows| - 1];
      if Expired(r, threshold) then front else front + [r]
  }

  function Prints(active: seq<Firing>): set<string> {
    set f | f in active :: Print(f)
  }

  // The table after one evaluation.
  function Judge(rows: seq<Row>, e: Eval, s: Settings): seq<Row> {
    var active, covered := Active(e, s), Covered(e, s);
    if covered == {} then rows
    else SweptAll(rows, active, covered, e.now) + NewRows(active, OpenPrints(rows, covered), e.now)
  }

  function Step(rows: seq<Row>, e: Eval, s: Settings): seq<Row> {
    Cleaned(Judge(rows, e, s), Threshold(e.now, s))
  }

  // The database's unique index: one open alert per fingerprint.
  ghost predicate OneOpenEach(rows: seq<Row>) {
    forall i, j :: 0 <= i < j < |rows| && rows[i].resolvedAt.None? && rows[j].resolvedAt.None? ==>
      rows[i].fingerprint != rows[j].fingerprint
  }

  class AlertTable {
    var rows: seq<Row>
    const settings: Settings

    constructor (settings: Settings)
      ensures rows == [] && this.settings == settings
    {
      this.rows, this.settings := [], settings;
    }

    /** One evaluation: gather the firing rules, update or add an alert for each, resolve the rest, clean up. */
    method EvaluateOnce(e: Eval) returns (count: nat)
      requires OneOpenEach(rows)
      modifies this
      ensures rows == Step(old(rows), e, settings)
      ensures count == if Covered(e, settings) == {} then 0 else |Prints(Active(e, settings))|
    {
      hide Active, Covered, Threshold, Cleaned, Prints;
      var active, hostIds := Gather(e);
      if hostIds == {} {
        CleanUp(e.now);
        return 0;
      }
      ghost var before := rows;
      var known := OpenPrints(rows, hostIds);
      Apply(active, hostIds, e.now);
      CleanUp(e.now);
      count := |Prints(active)|;
    }

    // The rules that fire and the hosts they were looked for on.
    method Gather(e: Eval) returns (active: seq<Firing>, hostIds: set<string>)
      ensures active == Active(e, settings) && hostIds == Covered(e, settings)
    {
      hide HealthRules, RestartRules, CpuRules, MemRules, UsedPct;
      active := [];
      hostIds := {};
      for i := 0 to |e.hosts|
        invariant active == HostsRules(e.hosts[..i], settings)
        invariant hostIds == Reachable(e.hosts[..i])
      {
        var h := e.hosts[i];
        assert e.hosts[..i + 1][..i] == e.hosts[..i] && e.hosts[..i + 1] == e.hosts[..i] + [h];
        if h.reachable {
          hostIds := hostIds + {h.id};
          var found := GatherHost(h);
          active := active + found;
        }
      }
      assert e.hosts[..|e.hosts|] == e.hosts;
      if DiskFires(e, settings) {
        active := active + DiskRules(e, settings);
        hostIds := hostIds + {"local"};
      }
    }

    method GatherHost(h: Host) returns (active: seq<Firing>)
      ensures active == ContainersRules(h.id, h.containers, settings)
    {
      hide HealthRules, RestartRules, CpuRules, MemRules;
      active := [];
      for j := 0 to |h.containers|
        invariant active == ContainersRules(h.id, h.containers[..j], settings)
      {
        var c := h.containers[j];
        assert h.containers[..j + 1][..j] == h.containers[..j];
        var found := HealthRules(h.id, c);
        found := found + RestartRules(h.id, c);
        found := found + CpuRules(h.id, c, settings);
        found := found + MemRules(h.id, c, settings);
        active := active + found;
      }
      assert h.containers[..|h.containers|] == h.containers;
    }

    // Updates open alerts in place, adds missing ones, resolves those whose rule no longer fires.
    method Apply(active: seq<Firing>, covered: set<string>, now: int)
      requires OneOpenEach(rows)
      modifies this
      ensures rows == SweptAll(old(rows), active, covered, now) + NewRows(active, OpenPrints(old(rows), covered), now)
    {
      hide LastWith, Print, Refreshed, Judged, NewRow, OpenPrints;
      ghost var before := rows;
      var known := OpenPrints(rows, covered);
      var n := |rows|;
      forall k | 0 <= k < n ensures Refreshed(before[k], active[..0], covered, now) == before[k] {
        NotRefreshed(before[k], covered, now);
      }
      for i := 0 to |active|
        invariant |rows| >= n == |before|
        invariant forall k :: 0 <= k < n ==> rows[k] == Refreshed(before[k], active[..i], covered, now)
        invariant rows[n..] == NewRows(active[..i], known, now)
      {
        var f := active[i];
        assert active[..i + 1][..i] == active[..i];
        if Print(f) in known {
          var k := FindOpen(n, Print(f), covered, before, active[..i], now);
          rows := rows[k := rows[k].(lastSeen := now, context := f.context, severity := f.severity, rule := f.rule,
                                     name := f.name)];
        } else {
          NoneOpen(before, covered, Print(f));
          rows := rows + [NewRow(f, now)];
        }
        forall j | 0 <= j < n ensures rows[j] == Refreshed(before[j], active[..i + 1], covered, now) {
          RefreshedStep(before[j], active, i, covered, now);
        }
      }
      assert active[..|active|] == active;
      ResolveRest(n, active, covered, now, before);
      assert rows == rows[..n] + rows[n..];
    }

    // Resolves the judged alerts without a firing rule.
    method ResolveRest(n: nat, active: seq<Firing>, covered: set<string>, now: int, ghost before: seq<Row>)
      requires n == |before| <= |rows|
      requires forall j :: 0 <= j < n ==> rows[j] == Refreshed(before[j], active, covered, now)
      modifies this
      ensures |rows| == |old(rows)| && rows[n..] == old(rows)[n..]
      ensures forall j :: 0 <= j < n ==> rows[j] == Swept(before[j], active, covered, now)
    {
      hide LastWith, Print;
      for k := 0 to n
        invariant |rows| == |old(rows)| && rows[n..] == old(rows)[n..]
        invariant forall j :: 0 <= j < k ==> rows[j] == Swept(before[j], active, covered, now)
        invariant forall j :: k <= j < n ==> rows[j] == Refreshed(before[j], active, covered, now)
      {
        if Judged(rows[k], covered) && LastWith(active, rows[k].fingerprint).None? {
          rows := rows[k := rows[k].(resolvedAt := Some(now), lastSeen := now)];
        }
      }
    }

    // The open alert of a covered host with a fingerprint.
    method FindOpen(n: nat, fp: string, covered: set<string>, ghost before: seq<Row>, ghost seen: seq<Firing>, now: int)
      returns (k: nat)
      requires n == |before| <= |rows| && OneOpenEach(before) && fp in OpenPrints(before, covered)
      requires forall j :: 0 <= j < n ==> rows[j] == Refreshed(before[j], seen, covered, now)
      ensures k < n && Judged(before[k], covered) && before[k].fingerprint == fp
      ensures forall j :: 0 <= j < n && j != k ==> !(Judged(before[j], covered) && before[j].fingerprint == fp)
    {
      hide LastWith;
      k := 0;
      while !(Judged(rows[k], covered) && rows[k].fingerprint == fp)
        invariant k < n && forall j :: 0 <= j < k ==> !(Judged(before[j], covered) && before[j].fingerprint == fp)
        decreases n - k
      {
        ghost var r :| r in before && Judged(r, covered) && r.fingerprint == fp;
        ghost var j :| 0 <= j < n && before[j] == r;
        k := k + 1;
      }
    }

    method CleanUp(now: int)
      modifies this
      ensures rows == Cleaned(old(rows), Threshold(now, settings))
    {
      var threshold := Threshold(now, settings);
      var kept: seq<Row> := [];
      for i := 0 to |rows|
        invariant rows == old(rows) && kept == Cleaned(rows[..i], threshold)
      {
        assert rows[..i + 1][..i] == rows[..i];
        if !Expired(rows[i], threshold) {
          kept := kept + [rows[i]];
        }
      }
      assert rows[..|rows|] == rows;
      rows := kept;
    }
  }

  lemma {:induction false} LastWithOne(active: seq<Firing>, i: nat, fp: string)
    requires i < |active|
    ensures LastWith(active[..i + 1], fp) ==
            if Print(active[i]) == fp then Some(active[i]) else LastWith(active[..i], fp)
  {
    hide Print;
    assert active[..i + 1][..i] == active[..i] && active[..i + 1][i] == active[i];
  }

  lemma {:induction false} NoneOpen(rows: seq<Row>, covered: set<string>, fp: string)
    requires fp !in OpenPrints(rows, covered)
    ensures forall j :: 0 <= j < |rows| ==> !(Judged(rows[j], covered) && rows[j].fingerprint == fp)
  {
    hide Judged;
    forall j | 0 <= j < |rows| && Judged(rows[j], covered) ensures rows[j].fingerprint != fp {
      assert rows[j] in rows;
    }
  }

  // A firing rule as the next one: what it does to a row.
  lemma {:induction false} RefreshedStep(r: Row, active: seq<Firing>, i: nat, covered: set<string>, now: int)
    requires i < |active|
    ensures var q, f := Refreshed(r, active[..i], covered, now), active[i];
            Refreshed(r, active[..i + 1], covered, now) ==
              if Judged(r, covered) && Print(f) == r.fingerprint
              then q.(lastSeen := now, context := f.context, severity := f.severity, rule := f.rule, name := f.name)
              else q
  {
    hide Print, LastWith, Judged;
    LastWithOne(active, i, r.fingerprint);
  }

  lemma {:induction false} NotRefreshed(r: Row, covered: set<string>, now: int)
    ensures Refreshed(r, [], covered, now) == r
  {
  }
}

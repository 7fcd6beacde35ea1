/** Which alerts an evaluation fires, in plain terms. */
module DockerAlertRules {
  import opened Text
  import opened DockerAlerts
  import opened DockerAlertsRuns

  // What each container rule asks; a missing measurement counts as zero.
  predicate Expected(rule: string, c: Container, s: Settings) {
    || (rule == "DockerContainerUnhealthy" && c.health == "unhealthy")
    || (rule == "DockerContainerRestartLoop" && c.restartLoop)
    || (rule == "DockerContainerHighCPUCritical" && OrZero(c.cpu) >= s.cpuCritical)
    || (rule == "DockerContainerHighCPUWarning" && s.cpuWarning <= OrZero(c.cpu) < s.cpuCritical)
    || (rule == "DockerContainerHighMemoryCritical" && OrZero(c.mem) >= s.memCritical)
    || (rule == "DockerContainerHighMemoryWarning" && s.memWarning <= OrZero(c.mem) < s.memCritical)
  }

  ghost predicate HasRule(fs: seq<Firing>, rule: string) {
    exists i :: 0 <= i < |fs| && fs[i].rule == rule
  }

  lemma {:induction false} AtMostOne(fs: seq<Firing>, rule: string)
    requires |fs| <= 1
    ensures HasRule(fs, rule) <==> (fs != [] && fs[0].rule == rule)
  {
  }

  lemma {:induction false} StateRules(h: string, c: Container, rule: string)
    ensures HasRule(HealthRules(h, c), rule) <==> (rule == "DockerContainerUnhealthy" && c.health == "unhealthy")
    ensures HasRule(RestartRules(h, c), rule) <==> (rule == "DockerContainerRestartLoop" && c.restartLoop)
  {
    AtMostOne(HealthRules(h, c), rule);
    AtMostOne(RestartRules(h, c), rule);
  }

  lemma {:induction false} LoadRules(h: string, c: Container, s: Settings, rule: string)
    ensures HasRule(CpuRules(h, c, s), rule) <==>
              (if OrZero(c.cpu) >= s.cpuCritical then rule == "DockerContainerHighCPUCritical"
               else rule == "DockerContainerHighCPUWarning" && OrZero(c.cpu) >= s.cpuWarning)
    ensures HasRule(MemRules(h, c, s), rule) <==>
              (if OrZero(c.mem) >= s.memCritical then rule == "DockerContainerHighMemoryCritical"
               else rule == "DockerContainerHighMemoryWarning" && OrZero(c.mem) >= s.memWarning)
  {
    hide OrZero;
    AtMostOne(CpuRules(h, c, s), rule);
    AtMostOne(MemRules(h, c, s), rule);
  }

  lemma {:induction false} HasRuleConcat(a: seq<Firing>, b: seq<Firing>, rule: string)
    ensures HasRule(a + b, rule) <==> (HasRule(a, rule) || HasRule(b, rule))
  {
    if HasRule(a, rule) {
      var i :| 0 <= i < |a| && a[i].rule == rule;
      assert (a + b)[i].rule == rule;
    }
    if HasRule(b, rule) {
      var i :| 0 <= i < |b| && b[i].rule == rule;
      assert (a + b)[|a| + i].rule == rule;
    }
  }

  lemma {:induction false} ContainerHasRule(h: string, c: Container, s: Settings, rule: string)
    ensures HasRule(ContainerRules(h, c, s), rule) <==> Expected(rule, c, s)
  {
    hide HealthRules, RestartRules, CpuRules, MemRules, HasRule, OrZero;
    StateRules(h, c, rule);
    LoadRules(h, c, s, rule);
    var a, b, d, m := HealthRules(h, c), RestartRules(h, c), CpuRules(h, c, s), MemRules(h, c, s);
    HasRuleConcat(a, b, rule);
    HasRuleConcat(a + b, d, rule);
    HasRuleConcat(a + b + d, m, rule);
  }

  // A firing of the j-th container of the i-th host.
  ghost predicate ComesFrom(f: Firing, hosts: seq<Host>, s: Settings, i: int, j: int) {
    && 0 <= i < |hosts| && hosts[i].reachable && 0 <= j < |hosts[i].containers|
    && f in ContainerRules(hosts[i].id, hosts[i].containers[j], s)
  }

  lemma {:induction false} ContainersMembers(h: string, cs: seq<Container>, s: Settings, f: Firing)
    ensures f in ContainersRules(h, cs, s) <==> exists j :: 0 <= j < |cs| && f in ContainerRules(h, cs[j], s)
  {
    hide ContainerRules;
    if cs != [] {
      ContainersMembers(h, cs[..|cs| - 1], s, f);
    }
  }

  lemma {:induction false} HostsMembers(hosts: seq<Host>, s: Settings, f: Firing)
    ensures f in HostsRules(hosts, s) <==> exists i, j :: ComesFrom(f, hosts, s, i, j)
  {
    hide ContainerRules, ContainersRules;
    if hosts != [] {
      var n := |hosts| - 1;
      HostsMembers(hosts[..n], s, f);
      ContainersMembers(hosts[n].id, hosts[n].containers, s, f);
      forall i, j | ComesFrom(f, hosts[..n], s, i, j) ensures ComesFrom(f, hosts, s, i, j) {
      }
      forall i, j | ComesFrom(f, hosts, s, i, j) && i < n ensures ComesFrom(f, hosts[..n], s, i, j) {
      }
      if hosts[n].reachable {
        forall j | 0 <= j < |hosts[n].containers| && f in ContainerRules(hosts[n].id, hosts[n].containers[j], s)
          ensures ComesFrom(f, hosts, s, n, j)
        {
        }
      }
    }
  }

  /** A container's alert fires exactly when its host is reachable and its rule's condition holds. */
  lemma {:induction false} ContainerFiresExactly(e: Eval, s: Settings, i: nat, j: nat, rule: string)
    requires WellFormed(e) && i < |e.hosts| && j < |e.hosts[i].containers|
    ensures Fires(e, s, Target(rule, e.hosts[i].id, Some(e.hosts[i].containers[j].id))) <==>
              (e.hosts[i].reachable && Expected(rule, e.hosts[i].containers[j], s))
  {
    hide ContainerRules, HostsRules, Expected, UsedPct;
    var h, c := e.hosts[i], e.hosts[i].containers[j];
    var t := Target(rule, h.id, Some(c.id));
    ContainerHasRule(h.id, c, s, rule);
    if Fires(e, s, t) {
      var f :| f in Active(e, s) && TargetOf(f) == t;
      DiskRulesFacts(e, s);
      assert f !in DiskRules(e, s) by { DiskHasNoContainer(e, s, f); }
      HostsMembers(e.hosts, s, f);
      var i', j' :| ComesFrom(f, e.hosts, s, i', j');
      var c' := e.hosts[i'].containers[j'];
      RuleOfContainer(e.hosts[i'].id, c', s, f);
      assert i' == i && j' == j;
      var m :| 0 <= m < |ContainerRules(h.id, c, s)| && ContainerRules(h.id, c, s)[m] == f;
    }
    if h.reachable && Expected(rule, c, s) {
      var m :| 0 <= m < |ContainerRules(h.id, c, s)| && ContainerRules(h.id, c, s)[m].rule == rule;
      var f := ContainerRules(h.id, c, s)[m];
      RuleOfContainer(h.id, c, s, f);
      assert ComesFrom(f, e.hosts, s, i, j);
      HostsMembers(e.hosts, s, f);
      assert f in Active(e, s) && TargetOf(f) == t;
    }
  }

  lemma {:induction false} RuleOfContainer(h: string, c: Container, s: Settings, f: Firing)
    requires f in ContainerRules(h, c, s)
    ensures f.hostId == h && f.containerId == Some(c.id)
  {
    hide HealthRules, RestartRules, CpuRules, MemRules;
    FamiliesSingle(h, c, s);
    assert f in HealthRules(h, c) || f in RestartRules(h, c) || f in CpuRules(h, c, s) || f in MemRules(h, c, s);
  }

  lemma {:induction false} DiskHasNoContainer(e: Eval, s: Settings, f: Firing)
    requires f.containerId.Some?
    ensures f !in DiskRules(e, s)
  {
    hide UsedPct;
  }

  // The used share of the disk in percent is at or above the threshold; an unknown size counts as nothing used.
  ghost predicate UnderPressure(d: DiskUsage, s: Settings) {
    if d.total == 0 then s.diskPressure <= 0.0 else d.used as real * 100.0 >= s.diskPressure * d.total as real
  }

  lemma {:induction false} PressureExactly(d: DiskUsage, s: Settings)
    ensures UnderPressure(d, s) <==> UsedPct(d) >= s.diskPressure
  {
    if d.total != 0 {
      var used, total := d.used as real, d.total as real;
      assert UsedPct(d) * total == used * 100.0;
      ScaledOrder(s.diskPressure, UsedPct(d), total);
    }
  }

  lemma {:induction false} ScaledOrder(x: real, y: real, t: real)
    requires t > 0.0
    ensures x <= y <==> x * t <= y * t
  {
    assert y * t - x * t == (y - x) * t;
  }

  /** The disk alert fires exactly at the threshold, and marks its pseudo host as covered. */
  lemma {:induction false} DiskFiresExactly(e: Eval, s: Settings)
    requires WellFormed(e)
    ensures Fires(e, s, Target("DockerHostDiskPressure", "local", None)) <==> UnderPressure(e.disk, s)
    ensures UnderPressure(e.disk, s) ==> "local" in Covered(e, s)
  {
    hide HostsRules, UsedPct, Reachable, UnderPressure;
    var t := Target("DockerHostDiskPressure", "local", None);
    PressureExactly(e.disk, s);
    HostsRulesFacts(e.hosts, s);
    forall f | f in HostsRules(e.hosts, s) ensures TargetOf(f).rule != t.rule {
      var i :| 0 <= i < |HostsRules(e.hosts, s)| && HostsRules(e.hosts, s)[i] == f;
      assert |f.rule| != |t.rule|;
    }
    if DiskFires(e, s) {
      var f := DiskRules(e, s)[0];
      assert f in Active(e, s) && TargetOf(f) == t;
    } else {
      assert Active(e, s) == HostsRules(e.hosts, s);
    }
  }

  lemma {:induction false} ReachableExactly(hosts: seq<Host>)
    ensures forall id :: id in Reachable(hosts) <==> exists h :: h in hosts && h.reachable && h.id == id
  {
  }

  lemma {:induction false} CoversLocal(e: Eval, s: Settings)
    ensures "local" in Covered(e, s) <==> ("local" in Reachable(e.hosts) || UnderPressure(e.disk, s))
  {
    hide UnderPressure, Reachable, UsedPct;
    PressureExactly(e.disk, s);
  }

  /**
   * An open disk alert is resolved exactly when the pressure has ended and a reachable host is called "local":
   * otherwise its pseudo host is not judged, however much space is free.
   */
  lemma {:induction false} DiskAlertResolvedExactlyWhen(rows: seq<Row>, e: Eval, s: Settings)
    requires TableOk(rows) && WellFormed(e) && IsOpen(rows, Target("DockerHostDiskPressure", "local", None))
    ensures !IsOpen(Step(rows, e, s), Target("DockerHostDiskPressure", "local", None)) <==>
              ((exists h :: h in e.hosts && h.reachable && h.id == "local") && !UnderPressure(e.disk, s))
  {
    hide UnderPressure, Step, TableOk, WellFormed, HostsRules, UsedPct, Reachable, OpenRow, Fires, Covered;
    var t := Target("DockerHostDiskPressure", "local", None);
    MoreRuleNamesPlain();
    StepOpen(rows, e, s, t);
    DiskFiresExactly(e, s);
    ReachableExactly(e.hosts);
    CoversLocal(e, s);
    SameOpenIf(Step(rows, e, s), rows, t);
  }

  // ---- what an alert says ----

  // A firing of a container: critical or a warning by its rule, named after the container, with the measured values.
  ghost predicate DetailsOf(f: Firing, c: Container) {
    && f.name == Some(c.name)
    && (f.severity == Warning <==>
          (f.rule == "DockerContainerHighCPUWarning" || f.rule == "DockerContainerHighMemoryWarning"))
    && (f.rule == "DockerContainerUnhealthy" ==> f.context == Health(c.health, c.state))
    && (f.rule == "DockerContainerRestartLoop" ==> f.context == Restarts(c.restarts, c.uptime))
    && (f.rule == "DockerContainerHighCPUCritical" || f.rule == "DockerContainerHighCPUWarning" ==>
          f.context == Cpu(c.cpu))
    && (f.rule == "DockerContainerHighMemoryCritical" || f.rule == "DockerContainerHighMemoryWarning" ==>
          f.context == Mem(c.mem))
  }

  lemma {:induction false} StateDetails(h: string, c: Container)
    ensures forall f :: f in HealthRules(h, c) || f in RestartRules(h, c) ==> DetailsOf(f, c)
  {
  }

  lemma {:induction false} LoadDetails(h: string, c: Container, s: Settings)
    ensures forall f :: f in CpuRules(h, c, s) || f in MemRules(h, c, s) ==> DetailsOf(f, c)
  {
    hide OrZero;
  }

  /** Every firing of a container carries its rule's severity, the container's name and the measured values. */
  lemma {:induction false} ContainerDetails(e: Eval, s: Settings, f: Firing, i: nat, j: nat)
    requires WellFormed(e) && i < |e.hosts| && j < |e.hosts[i].containers|
    requires f in Active(e, s) && f.hostId == e.hosts[i].id && f.containerId == Some(e.hosts[i].containers[j].id)
    ensures DetailsOf(f, e.hosts[i].containers[j])
  {
    hide HealthRules, RestartRules, CpuRules, MemRules, HostsRules, UsedPct, DetailsOf;
    DiskHasNoContainer(e, s, f);
    HostsMembers(e.hosts, s, f);
    var i', j' :| ComesFrom(f, e.hosts, s, i', j');
    var h, c := e.hosts[i'].id, e.hosts[i'].containers[j'];
    RuleOfContainer(h, c, s, f);
    assert i' == i && j' == j;
    StateDetails(h, c);
    LoadDetails(h, c, s);
    assert f in HealthRules(h, c) || f in RestartRules(h, c) || f in CpuRules(h, c, s) || f in MemRules(h, c, s);
  }

  /** The disk's firing is a warning without a container name, with the measured sizes. */
  lemma {:induction false} DiskDetails(e: Eval, s: Settings, f: Firing)
    requires WellFormed(e) && f in Active(e, s) && f.containerId.None?
    ensures f.rule == "DockerHostDiskPressure" && f.hostId == "local" && f.severity == Warning && f.name.None?
  {
    hide HostsRules, UsedPct, ContainerRules;
    HostsMembers(e.hosts, s, f);
    forall i, j | ComesFrom(f, e.hosts, s, i, j) ensures false {
      RuleOfContainer(e.hosts[i].id, e.hosts[i].containers[j], s, f);
    }
  }

  // A row tells what a firing of its target says, as of a moment.
  ghost predicate Tells(r: Row, f: Firing, now: int) {
    && TargetOfRow(r) == TargetOf(f) && r.fingerprint == Print(f)
    && r.severity == f.severity && r.name == f.name && r.context == f.context && r.lastSeen == now
  }

  /** After an evaluation every open alert of a covered host tells what its firing rule says now. */
  lemma {:induction false} OpenAlertsTell(rows: seq<Row>, e: Eval, s: Settings, r: Row)
    requires TableOk(rows) && WellFormed(e)
    requires r in Step(rows, e, s) && r.resolvedAt.None? && r.hostId in Covered(e, s)
    ensures exists f :: f in Active(e, s) && Tells(r, f, e.now)
  {
    hide Active, Covered, WellNamed, FingerprintOf, NewRows, Cleaned, OpenPrints, LastWith, WellFormed;
    var active, covered := Active(e, s), Covered(e, s);
    CleanedMembers(Judge(rows, e, s), Threshold(e.now, s), r);
    ActiveFacts(e, s);
    NewRowsMembers(active, OpenPrints(rows, covered), e.now, r);
    if r in NewRows(active, OpenPrints(rows, covered), e.now) {
      var f :| f in active && Print(f) !in OpenPrints(rows, covered) && r == NewRow(f, e.now);
      assert Tells(r, f, e.now);
    } else {
      var swept := SweptAll(rows, active, covered, e.now);
      var i :| 0 <= i < |rows| && swept[i] == r;
      LastWithFacts(active, TargetOfRow(rows[i]));
      assert Judged(rows[i], covered);
      var f := LastWith(active, rows[i].fingerprint);
      assert f.Some? && Tells(r, f.value, e.now);
    }
  }

  /** An alert that an evaluation resolves is resolved at that moment, and otherwise keeps what it told. */
  lemma {:induction false} ResolvedNow(rows: seq<Row>, e: Eval, s: Settings, i: nat)
    requires TableOk(rows) && WellFormed(e) && i < |rows| && rows[i].resolvedAt.None?
    requires rows[i].hostId in Covered(e, s) && !Fires(e, s, TargetOfRow(rows[i]))
    ensures rows[i].(resolvedAt := Some(e.now), lastSeen := e.now) in Step(rows, e, s)
  {
    hide Active, Covered, WellNamed, FingerprintOf, LastWith, WellFormed, Step;
    ActiveFacts(e, s);
    LastWithFacts(Active(e, s), TargetOfRow(rows[i]));
    OnlyExpiredRowsGo(rows, e, s, rows[i]);
  }

  /** An evaluation counts its firing rules, which have distinct fingerprints. */
  lemma {:induction false} CountIsFirings(e: Eval, s: Settings)
    requires WellFormed(e)
    ensures |Prints(Active(e, s))| == |Active(e, s)|
  {
    hide Active;
    ActiveFacts(e, s);
    PrintsSize(Active(e, s));
  }

  lemma {:induction false} PrintsSize(active: seq<Firing>)
    requires AllNamed(active) && DistinctTargets(active)
    ensures |Prints(active)| == |active|
  {
    hide WellNamed, Print;
    if active == [] {
      assert Prints(active) == {};
    } else {
      var n := |active| - 1;
      PrintsSize(active[..n]);
      assert active == active[..n] + [active[n]];
      assert Prints(active) == Prints(active[..n]) + {Print(active[n])};
      forall f | f in active[..n] ensures Print(f) != Print(active[n]) {
        var j :| 0 <= j < n && active[..n][j] == f;
        DistinctPrints(active, j, n);
      }
    }
  }
}

/** Whole runs of the alert evaluator: which alerts are open, since when, and what cleanup deletes. */
module DockerAlertsRuns {
  import opened Text
  import opened DockerAlerts

  // What an alert is about; two firings with one target describe the same trouble.
  datatype Target = Target(rule: string, host: string, container: Option<string>)

  function TargetOf(f: Firing): Target {
    Target(f.rule, f.hostId, f.containerId)
  }

  function PrintOf(t: Target): string {
    FingerprintOf(t.rule, t.host, t.container)
  }

  // Names that the fingerprint's colons cannot confuse.
  predicate WellNamed(t: Target) {
    ':' !in t.rule && ':' !in t.host && t.container != Some("") && t.container != Some("-")
  }

  lemma {:induction false} SplitsAtColon(a: string, rest: string, b: string, rest': string)
    requires ':' !in a && ':' !in b && a + ":" + rest == b + ":" + rest'
    ensures a == b && rest == rest'
  {
    var s := a + ":" + rest;
    assert s[..|a|] == a && s[|a|] == ':';
    assert s[..|b|] == b && s[|b|] == ':';
    IndexOfIs(s, ':', |a|);
    IndexOfIs(s, ':', |b|);
    assert rest == s[|a| + 1..] && rest' == s[|b| + 1..];
  }

  /** Well-named targets have distinct fingerprints (up to collisions of the digest itself). */
  lemma {:induction false} PrintInjective(t: Target, u: Target)
    requires WellNamed(t) && WellNamed(u) && PrintOf(t) == PrintOf(u)
    ensures t == u
  {
    var tail, tail' := t.host + ":" + ContainerKey(t.container), u.host + ":" + ContainerKey(u.container);
    assert PrintOf(t) == t.rule + ":" + tail && PrintOf(u) == u.rule + ":" + tail';
    SplitsAtColon(t.rule, tail, u.rule, tail');
    SplitsAtColon(t.host, ContainerKey(t.container), u.host, ContainerKey(u.container));
  }

  // ---- the inputs of an evaluation ----

  // Distinct host ids without a colon, distinct real container ids per host.
  ghost predicate WellFormed(e: Eval) {
    && (forall i, j :: 0 <= i < j < |e.hosts| ==> e.hosts[i].id != e.hosts[j].id)
    && (forall i :: 0 <= i < |e.hosts| ==> HostOk(e.hosts[i]))
  }

  ghost predicate HostOk(h: Host) {
    && ':' !in h.id
    && (forall j :: 0 <= j < |h.containers| ==> h.containers[j].id != "" && h.containers[j].id != "-")
    && (forall j, k :: 0 <= j < k < |h.containers| ==> h.containers[j].id != h.containers[k].id)
  }

  ghost predicate DistinctTargets(fs: seq<Firing>) {
    forall i, j :: 0 <= i < j < |fs| ==> TargetOf(fs[i]) != TargetOf(fs[j])
  }

  ghost predicate AllNamed(fs: seq<Firing>) {
    forall i :: 0 <= i < |fs| ==> WellNamed(TargetOf(fs[i]))
  }

  lemma {:induction false} RuleNamesPlain()
    ensures ':' !in "DockerContainerUnhealthy" && ':' !in "DockerContainerRestartLoop"
    ensures ':' !in "DockerContainerHighCPUCritical" && ':' !in "DockerContainerHighCPUWarning"
  {
  }

  lemma {:induction false} MoreRuleNamesPlain()
    ensures ':' !in "DockerContainerHighMemoryCritical" && ':' !in "DockerContainerHighMemoryWarning"
    ensures ':' !in "DockerHostDiskPressure"
  {
  }

  // At most one firing of this family, about this container.
  ghost predicate Single(fs: seq<Firing>, h: string, c: Container) {
    |fs| <= 1 && forall i :: 0 <= i < |fs| ==>
      fs[i].hostId == h && fs[i].containerId == Some(c.id) && ':' !in fs[i].rule
  }

  lemma {:induction false} FamiliesSingle(h: string, c: Container, s: Settings)
    ensures Single(HealthRules(h, c), h, c) && Single(RestartRules(h, c), h, c)
    ensures Single(CpuRules(h, c, s), h, c) && Single(MemRules(h, c, s), h, c)
  {
    RuleNamesPlain();
    MoreRuleNamesPlain();
  }

  // Rule names of different families differ, already in their length.
  lemma {:induction false} FamilyLengths(h: string, c: Container, s: Settings)
    ensures forall f :: f in HealthRules(h, c) ==> |f.rule| == 24
    ensures forall f :: f in RestartRules(h, c) ==> |f.rule| == 26
    ensures forall f :: f in CpuRules(h, c, s) ==> |f.rule| == 30 || |f.rule| == 29
    ensures forall f :: f in MemRules(h, c, s) ==> |f.rule| == 33 || |f.rule| == 32
  {
  }

  lemma {:induction false} ContainerRulesFacts(h: string, c: Container, s: Settings)
    requires ':' !in h && c.id != "" && c.id != "-"
    ensures var fs := ContainerRules(h, c, s);
            && DistinctTargets(fs) && AllNamed(fs)
            && forall i :: 0 <= i < |fs| ==>
                 fs[i].hostId == h && fs[i].containerId == Some(c.id) && |fs[i].rule| != |"DockerHostDiskPressure"|
  {
    hide HealthRules, RestartRules, CpuRules, MemRules;
    FamiliesSingle(h, c, s);
    FamilyLengths(h, c, s);
    var a, b, d, m := HealthRules(h, c), RestartRules(h, c), CpuRules(h, c, s), MemRules(h, c, s);
    ConcatTargets(a, b);
    ConcatTargets(a + b, d);
    ConcatTargets(a + b + d, m);
    var fs := ContainerRules(h, c, s);
    forall i | 0 <= i < |fs|
      ensures WellNamed(TargetOf(fs[i])) && fs[i].hostId == h && fs[i].containerId == Some(c.id)
      ensures |fs[i].rule| != |"DockerHostDiskPressure"|
    {
      assert fs[i] in a || fs[i] in b || fs[i] in d || fs[i] in m;
    }
  }

  lemma {:induction false} ConcatTargets(a: seq<Firing>, b: seq<Firing>)
    requires DistinctTargets(a) && DistinctTargets(b)
    requires forall i, j :: 0 <= i < |a| && 0 <= j < |b| ==> TargetOf(a[i]) != TargetOf(b[j])
    ensures DistinctTargets(a + b)
  {
  }

  lemma {:induction false} ContainersRulesFacts(h: string, cs: seq<Container>, s: Settings)
    requires ':' !in h
    requires forall j :: 0 <= j < |cs| ==> cs[j].id != "" && cs[j].id != "-"
    requires forall j, k :: 0 <= j < k < |cs| ==> cs[j].id != cs[k].id
    ensures var fs := ContainersRules(h, cs, s);
            && DistinctTargets(fs) && AllNamed(fs)
            && forall i :: 0 <= i < |fs| ==>
                 fs[i].hostId == h && |fs[i].rule| != |"DockerHostDiskPressure"| &&
                 exists j :: 0 <= j < |cs| && fs[i].containerId == Some(cs[j].id)
  {
    hide ContainerRules, WellNamed;
    if cs != [] {
      var n := |cs| - 1;
      ContainersRulesFacts(h, cs[..n], s);
      ContainerRulesFacts(h, cs[n], s);
      ConcatTargets(ContainersRules(h, cs[..n], s), ContainerRules(h, cs[n], s));
    }
  }

  lemma {:induction false} HostsRulesFacts(hosts: seq<Host>, s: Settings)
    requires forall i :: 0 <= i < |hosts| ==> HostOk(hosts[i])
    requires forall i, j :: 0 <= i < j < |hosts| ==> hosts[i].id != hosts[j].id
    ensures var fs := HostsRules(hosts, s);
            && DistinctTargets(fs) && AllNamed(fs)
            && forall i :: 0 <= i < |fs| ==>
                 fs[i].hostId in Reachable(hosts) && |fs[i].rule| != |"DockerHostDiskPressure"|
  {
    hide ContainersRules, WellNamed;
    if hosts != [] {
      var n := |hosts| - 1;
      HostsRulesFacts(hosts[..n], s);
      ContainersRulesFacts(hosts[n].id, hosts[n].containers, s);
      assert hosts == hosts[..n] + [hosts[n]];
      if hosts[n].reachable {
        forall id | id in Reachable(hosts[..n]) ensures id != hosts[n].id && id in Reachable(hosts) {
          var h :| h in hosts[..n] && h.reachable && h.id == id;
          var i :| 0 <= i < n && hosts[i] == h;
        }
        ConcatTargets(HostsRules(hosts[..n], s), ContainersRules(hosts[n].id, hosts[n].containers, s));
      } else {
        assert Reachable(hosts) == Reachable(hosts[..n]);
      }
    }
  }

  lemma {:induction false} DiskRulesFacts(e: Eval, s: Settings)
    ensures var fs := DiskRules(e, s);
            && |fs| <= 1 && AllNamed(fs)
            && forall i :: 0 <= i < |fs| ==>
                 fs[i].rule == "DockerHostDiskPressure" && fs[i].hostId == "local" && fs[i].hostId in Covered(e, s)
  {
    MoreRuleNamesPlain();
  }

  /** Firing rules name distinct, well-named targets on covered hosts. */
  lemma {:induction false} ActiveFacts(e: Eval, s: Settings)
    requires WellFormed(e)
    ensures var fs := Active(e, s);
            DistinctTargets(fs) && AllNamed(fs) && forall i :: 0 <= i < |fs| ==> fs[i].hostId in Covered(e, s)
  {
    hide HostsRules, UsedPct, Reachable;
    hide WellNamed;
    HostsRulesFacts(e.hosts, s);
    DiskRulesFacts(e, s);
    ConcatTargets(HostsRules(e.hosts, s), DiskRules(e, s));
  }

  // ---- one evaluation ----

  function TargetOfRow(r: Row): Target {
    Target(r.rule, r.hostId, r.containerId)
  }

  // Every row's fingerprint is its target's; at most one open row each.
  ghost predicate TableOk(rows: seq<Row>) {
    && OneOpenEach(rows)
    && forall i :: 0 <= i < |rows| ==>
         WellNamed(TargetOfRow(rows[i])) && rows[i].fingerprint == PrintOf(TargetOfRow(rows[i]))
  }

  ghost predicate OpenRow(rows: seq<Row>, t: Target, r: Row) {
    r in rows && r.resolvedAt.None? && TargetOfRow(r) == t
  }

  ghost predicate IsOpen(rows: seq<Row>, t: Target) {
    exists r :: OpenRow(rows, t, r)
  }

  ghost predicate OpenSince(rows: seq<Row>, t: Target, time: int) {
    exists r :: OpenRow(rows, t, r) && r.firstSeen == time
  }

  ghost predicate Fires(e: Eval, s: Settings, t: Target) {
    exists f :: f in Active(e, s) && TargetOf(f) == t
  }

  lemma {:induction false} LastWithFacts(active: seq<Firing>, t: Target)
    requires AllNamed(active) && WellNamed(t)
    ensures var r := LastWith(active, PrintOf(t));
            && (r.None? <==> forall f :: f in active ==> TargetOf(f) != t)
            && (r.Some? ==> r.value in active && TargetOf(r.value) == t)
  {
    hide WellNamed, FingerprintOf;
    if active != [] {
      var n := |active| - 1;
      LastWithFacts(active[..n], t);
      assert active == active[..n] + [active[n]];
      if Print(active[n]) == PrintOf(t) {
        PrintInjective(TargetOf(active[n]), t);
      }
    }
  }

  // What sweeping does to a row, in terms of its target.
  lemma {:induction false} SweptFacts(r: Row, e: Eval, s: Settings)
    requires WellFormed(e) && WellNamed(TargetOfRow(r)) && r.fingerprint == PrintOf(TargetOfRow(r))
    ensures var q := Swept(r, Active(e, s), Covered(e, s), e.now);
            && TargetOfRow(q) == TargetOfRow(r) && q.fingerprint == r.fingerprint && q.firstSeen == r.firstSeen
            && (q.resolvedAt.None? <==>
                  r.resolvedAt.None? && (r.hostId in Covered(e, s) ==> Fires(e, s, TargetOfRow(r))))
            && (r.resolvedAt.Some? || r.hostId !in Covered(e, s) ==> q == r)
  {
    hide Active, Covered, LastWith, WellNamed, FingerprintOf;
    ActiveFacts(e, s);
    LastWithFacts(Active(e, s), TargetOfRow(r));
  }

  lemma {:induction false} NewRowsMembers(active: seq<Firing>, known: set<string>, now: int, r: Row)
    ensures r in NewRows(active, known, now) <==> exists f :: f in active && Print(f) !in known && r == NewRow(f, now)
  {
    hide Print, NewRow;
    if active != [] {
      var n := |active| - 1;
      NewRowsMembers(active[..n], known, now, r);
      assert active == active[..n] + [active[n]];
    }
  }

  lemma {:induction false} DistinctPrints(active: seq<Firing>, j: nat, n: nat)
    requires AllNamed(active) && DistinctTargets(active) && j < n < |active|
    ensures Print(active[j]) != Print(active[n])
  {
    hide WellNamed, FingerprintOf;
    assert Print(active[j]) == PrintOf(TargetOf(active[j])) && Print(active[n]) == PrintOf(TargetOf(active[n]));
    assert TargetOf(active[j]) != TargetOf(active[n]);
    if Print(active[j]) == Print(active[n]) {
      PrintInjective(TargetOf(active[j]), TargetOf(active[n]));
    }
  }

  lemma {:induction false} NewRowsOk(active: seq<Firing>, known: set<string>, now: int)
    requires AllNamed(active) && DistinctTargets(active)
    ensures TableOk(NewRows(active, known, now))
  {
    hide WellNamed, FingerprintOf;
    if active != [] {
      var n := |active| - 1;
      var f := active[n];
      NewRowsOk(active[..n], known, now);
      var front := NewRows(active[..n], known, now);
      forall i | 0 <= i < |front| ensures front[i].fingerprint != Print(f) {
        OthersDiffer(active, known, now, front[i]);
      }
      if Print(f) !in known {
        NewRowsMembers(active, known, now, NewRow(f, now));
        assert WellNamed(TargetOf(f));
      }
    }
  }

  lemma {:induction false} OthersDiffer(active: seq<Firing>, known: set<string>, now: int, r: Row)
    requires AllNamed(active) && DistinctTargets(active) && |active| > 0
    requires r in NewRows(active[..|active| - 1], known, now)
    ensures r.fingerprint != Print(active[|active| - 1])
  {
    hide WellNamed, Print, NewRows, AllNamed, DistinctTargets;
    var n := |active| - 1;
    NewRowsMembers(active[..n], known, now, r);
    var g :| g in active[..n] && Print(g) !in known && r == NewRow(g, now);
    var j :| 0 <= j < n && active[..n][j] == g;
    DistinctPrints(active, j, n);
  }

  // ---- the judged table ----

  lemma {:induction false} SweptOpen(rows: seq<Row>, e: Eval, s: Settings, t: Target)
    requires TableOk(rows) && WellFormed(e)
    ensures var swept := SweptAll(rows, Active(e, s), Covered(e, s), e.now);
            && TableOk(swept)
            && (t.host !in Covered(e, s) ==> forall r :: OpenRow(swept, t, r) <==> OpenRow(rows, t, r))
            && (t.host in Covered(e, s) ==> (IsOpen(swept, t) <==> (IsOpen(rows, t) && Fires(e, s, t))))
            && (t.host in Covered(e, s) && Fires(e, s, t) ==>
                  forall time :: OpenSince(swept, t, time) <==> OpenSince(rows, t, time))
  {
    hide Active, Covered, WellNamed, FingerprintOf, Swept, Fires;
    var swept := SweptAll(rows, Active(e, s), Covered(e, s), e.now);
    forall i | 0 <= i < |rows|
      ensures TargetOfRow(swept[i]) == TargetOfRow(rows[i]) && swept[i].fingerprint == rows[i].fingerprint
      ensures swept[i].firstSeen == rows[i].firstSeen
      ensures swept[i].resolvedAt.None? <==>
                (rows[i].resolvedAt.None? && (rows[i].hostId in Covered(e, s) ==> Fires(e, s, TargetOfRow(rows[i]))))
      ensures rows[i].resolvedAt.Some? || rows[i].hostId !in Covered(e, s) ==> swept[i] == rows[i]
    {
      SweptFacts(rows[i], e, s);
    }
    SweptRows(rows, swept, t);
  }

  // Rows that keep their target and first sighting: the open ones correspond.
  lemma {:induction false} SweptRows(rows: seq<Row>, swept: seq<Row>, t: Target)
    requires |swept| == |rows|
    requires forall i :: 0 <= i < |rows| ==>
               TargetOfRow(swept[i]) == TargetOfRow(rows[i]) && swept[i].firstSeen == rows[i].firstSeen &&
               (swept[i].resolvedAt.None? ==> rows[i].resolvedAt.None?)
    ensures forall r :: OpenRow(swept, t, r) ==>
              exists i :: 0 <= i < |rows| && swept[i] == r && OpenRow(rows, t, rows[i])
    ensures forall r :: OpenRow(rows, t, r) ==>
              exists i :: 0 <= i < |rows| && rows[i] == r && (swept[i].resolvedAt.None? ==> OpenRow(swept, t, swept[i]))
  {
    forall r | OpenRow(swept, t, r) ensures exists i :: 0 <= i < |rows| && swept[i] == r && OpenRow(rows, t, rows[i]) {
      var i :| 0 <= i < |swept| && swept[i] == r;
      assert OpenRow(rows, t, rows[i]);
    }
    forall r | OpenRow(rows, t, r)
      ensures exists i :: 0 <= i < |rows| && rows[i] == r && (swept[i].resolvedAt.None? ==> OpenRow(swept, t, swept[i]))
    {
      var i :| 0 <= i < |rows| && rows[i] == r;
      assert swept[i] in swept;
    }
  }

  // A covered host's alert is open exactly when its fingerprint is among the open ones.
  lemma {:induction false} KnownPrints(rows: seq<Row>, covered: set<string>, t: Target)
    requires TableOk(rows) && WellNamed(t) && t.host in covered
    ensures PrintOf(t) in OpenPrints(rows, covered) <==> IsOpen(rows, t)
  {
    hide WellNamed, FingerprintOf;
    if PrintOf(t) in OpenPrints(rows, covered) {
      var r :| r in rows && Judged(r, covered) && r.fingerprint == PrintOf(t);
      PrintInjective(TargetOfRow(r), t);
      assert OpenRow(rows, t, r);
    }
    if IsOpen(rows, t) {
      var r :| OpenRow(rows, t, r);
      assert Judged(r, covered) && r.fingerprint == PrintOf(t);
    }
  }

  lemma {:induction false} FreshOpen(active: seq<Firing>, known: set<string>, now: int, t: Target)
    ensures var added := NewRows(active, known, now);
            && (IsOpen(added, t) <==> (PrintOf(t) !in known && exists f :: f in active && TargetOf(f) == t))
            && (forall r :: OpenRow(added, t, r) ==> r.firstSeen == now)
  {
    hide NewRows, FingerprintOf;
    var added := NewRows(active, known, now);
    forall r | OpenRow(added, t, r)
      ensures r.firstSeen == now && PrintOf(t) !in known && exists f :: f in active && TargetOf(f) == t
    {
      NewRowsMembers(active, known, now, r);
      var f :| f in active && Print(f) !in known && r == NewRow(f, now);
      assert TargetOf(f) == t;
    }
    if PrintOf(t) !in known && exists f :: f in active && TargetOf(f) == t {
      var f :| f in active && TargetOf(f) == t;
      NewRowsMembers(active, known, now, NewRow(f, now));
      assert Print(f) == PrintOf(t);
      assert OpenRow(added, t, NewRow(f, now));
    }
  }

  lemma {:induction false} AppendOpen(a: seq<Row>, b: seq<Row>, t: Target)
    ensures forall r :: OpenRow(a + b, t, r) <==> (OpenRow(a, t, r) || OpenRow(b, t, r))
    ensures IsOpen(a + b, t) <==> (IsOpen(a, t) || IsOpen(b, t))
    ensures forall time :: OpenSince(a + b, t, time) <==> (OpenSince(a, t, time) || OpenSince(b, t, time))
  {
    assert forall r :: OpenRow(a + b, t, r) <==> (OpenRow(a, t, r) || OpenRow(b, t, r));
    if IsOpen(a + b, t) {
      var r :| OpenRow(a + b, t, r);
    }
    forall time | OpenSince(a + b, t, time) ensures OpenSince(a, t, time) || OpenSince(b, t, time) {
      var r :| OpenRow(a + b, t, r) && r.firstSeen == time;
    }
    forall time | OpenSince(a, t, time) || OpenSince(b, t, time) ensures OpenSince(a + b, t, time) {
      if OpenSince(a, t, time) {
        var r :| OpenRow(a, t, r) && r.firstSeen == time;
        assert OpenRow(a + b, t, r);
      } else {
        var r :| OpenRow(b, t, r) && r.firstSeen == time;
        assert OpenRow(a + b, t, r);
      }
    }
  }

  // Old and new rows never claim the same fingerprint.
  lemma {:induction false} JudgedTableOk(rows: seq<Row>, e: Eval, s: Settings)
    requires TableOk(rows) && WellFormed(e)
    ensures TableOk(SweptAll(rows, Active(e, s), Covered(e, s), e.now)
                    + NewRows(Active(e, s), OpenPrints(rows, Covered(e, s)), e.now))
  {
    hide Active, Covered, WellNamed, FingerprintOf, Swept, NewRows, Fires, OpenPrints;
    var active, covered := Active(e, s), Covered(e, s);
    var known := OpenPrints(rows, covered);
    var swept, added := SweptAll(rows, active, covered, e.now), NewRows(active, known, e.now);
    ActiveFacts(e, s);
    NewRowsOk(active, known, e.now);
    if rows != [] {
      SweptOpen(rows, e, s, TargetOfRow(rows[0]));
    }
    forall i, j | 0 <= i < |swept| && 0 <= j < |added| && swept[i].resolvedAt.None? && added[j].resolvedAt.None?
      ensures swept[i].fingerprint != added[j].fingerprint
    {
      SweptFacts(rows[i], e, s);
      NewRowsMembers(active, known, e.now, added[j]);
      var f :| f in active && Print(f) !in known && added[j] == NewRow(f, e.now);
      assert f.hostId in covered && Print(f) == PrintOf(TargetOf(f));
      KnownPrints(rows, covered, TargetOf(f));
      assert !OpenRow(rows, TargetOf(f), rows[i]);
      if swept[i].fingerprint == added[j].fingerprint {
        PrintInjective(TargetOfRow(rows[i]), TargetOf(f));
      }
    }
  }

  lemma {:induction false} JudgeOpen(rows: seq<Row>, e: Eval, s: Settings, t: Target)
    requires TableOk(rows) && WellFormed(e) && WellNamed(t)
    ensures TableOk(Judge(rows, e, s))
    ensures t.host !in Covered(e, s) ==> forall r :: OpenRow(Judge(rows, e, s), t, r) <==> OpenRow(rows, t, r)
    ensures t.host in Covered(e, s) ==> (IsOpen(Judge(rows, e, s), t) <==> Fires(e, s, t))
    ensures t.host in Covered(e, s) && Fires(e, s, t) ==> forall time ::
              OpenSince(Judge(rows, e, s), t, time) <==>
                if IsOpen(rows, t) then OpenSince(rows, t, time) else time == e.now
  {
    hide Active, Covered, WellNamed, FingerprintOf, Swept, NewRows, OpenPrints, TableOk;
    var active, covered := Active(e, s), Covered(e, s);
    if covered != {} {
      var known := OpenPrints(rows, covered);
      var swept, added := SweptAll(rows, active, covered, e.now), NewRows(active, known, e.now);
      SweptOpen(rows, e, s, t);
      FreshOpen(active, known, e.now, t);
      AppendOpen(swept, added, t);
      JudgedTableOk(rows, e, s);
      ActiveFacts(e, s);
      if t.host in covered {
        KnownPrints(rows, covered, t);
        FreshSince(added, t, e.now);
        SinceOpen(swept, t);
        SinceOpen(rows, t);
      } else {
        assert !IsOpen(added, t);
      }
    }
  }

  lemma {:induction false} FreshSince(added: seq<Row>, t: Target, now: int)
    requires forall r :: OpenRow(added, t, r) ==> r.firstSeen == now
    ensures forall time :: OpenSince(added, t, time) <==> (IsOpen(added, t) && time == now)
  {
    hide OpenRow;
    if IsOpen(added, t) {
      var r :| OpenRow(added, t, r);
      assert OpenSince(added, t, now);
    }
  }

  lemma {:induction false} SinceOpen(rows: seq<Row>, t: Target)
    ensures forall time :: OpenSince(rows, t, time) ==> IsOpen(rows, t)
  {
  }

  // ---- cleanup ----

  /** Cleanup deletes exactly the rows resolved before the threshold. */
  lemma {:induction false} CleanedMembers(rows: seq<Row>, threshold: int, r: Row)
    ensures r in Cleaned(rows, threshold) <==> r in rows && !Expired(r, threshold)
  {
    if rows != [] {
      var n := |rows| - 1;
      CleanedMembers(rows[..n], threshold, r);
      assert rows == rows[..n] + [rows[n]];
    }
  }

  lemma {:induction false} CleanedOk(rows: seq<Row>, threshold: int)
    requires TableOk(rows)
    ensures TableOk(Cleaned(rows, threshold))
  {
    hide WellNamed, FingerprintOf, Expired;
    if rows != [] {
      var n := |rows| - 1;
      CleanedOk(rows[..n], threshold);
      var front := Cleaned(rows[..n], threshold);
      forall i | 0 <= i < |front| && front[i].resolvedAt.None? && rows[n].resolvedAt.None?
        ensures front[i].fingerprint != rows[n].fingerprint
      {
        CleanedMembers(rows[..n], threshold, front[i]);
        assert front[i] in front;
        var j :| 0 <= j < n && rows[..n][j] == front[i];
        assert rows[j] == front[i];
      }
    }
  }

  lemma {:induction false} CleanedOpen(rows: seq<Row>, threshold: int, t: Target)
    ensures forall r :: OpenRow(Cleaned(rows, threshold), t, r) <==> OpenRow(rows, t, r)
    ensures IsOpen(Cleaned(rows, threshold), t) <==> IsOpen(rows, t)
    ensures forall time :: OpenSince(Cleaned(rows, threshold), t, time) <==> OpenSince(rows, t, time)
  {
    hide Cleaned;
    forall r ensures OpenRow(Cleaned(rows, threshold), t, r) <==> OpenRow(rows, t, r) {
      CleanedMembers(rows, threshold, r);
    }
    SameOpen(Cleaned(rows, threshold), rows, t);
  }

  lemma {:induction false} SameOpen(a: seq<Row>, b: seq<Row>, t: Target)
    requires forall r :: OpenRow(a, t, r) <==> OpenRow(b, t, r)
    ensures IsOpen(a, t) <==> IsOpen(b, t)
    ensures forall time :: OpenSince(a, t, time) <==> OpenSince(b, t, time)
  {
    hide OpenRow;
  }

  /** One evaluation: what it leaves open for a target, and since when. */
  lemma {:induction false} StepOpen(rows: seq<Row>, e: Eval, s: Settings, t: Target)
    requires TableOk(rows) && WellFormed(e) && WellNamed(t)
    ensures TableOk(Step(rows, e, s))
    ensures t.host !in Covered(e, s) ==> forall r :: OpenRow(Step(rows, e, s), t, r) <==> OpenRow(rows, t, r)
    ensures t.host in Covered(e, s) ==> (IsOpen(Step(rows, e, s), t) <==> Fires(e, s, t))
    ensures t.host in Covered(e, s) && Fires(e, s, t) ==> forall time ::
              OpenSince(Step(rows, e, s), t, time) <==>
                if IsOpen(rows, t) then OpenSince(rows, t, time) else time == e.now
  {
    hide Judge, Covered, Fires, WellNamed, WellFormed, TableOk, Cleaned, IsOpen, OpenSince, OpenRow;
    JudgeOpen(rows, e, s, t);
    CleanedOk(Judge(rows, e, s), Threshold(e.now, s));
    CleanedOpen(Judge(rows, e, s), Threshold(e.now, s), t);
  }

  /** An evaluation deletes a row exactly when it was resolved longer ago than the time to live (at least a minute). */
  lemma {:induction false} OnlyExpiredRowsGo(rows: seq<Row>, e: Eval, s: Settings, r: Row)
    requires r in rows
    ensures r.resolvedAt.None? ==> Swept(r, Active(e, s), Covered(e, s), e.now) in Step(rows, e, s)
    ensures r.resolvedAt.Some? ==>
              (r !in Step(rows, e, s) <==> (r.resolvedAt.value < e.now - 60 && r.resolvedAt.value < e.now - s.ttl))
  {
    hide Active, Covered, LastWith, NewRows, Cleaned, OpenPrints;
    var active, covered := Active(e, s), Covered(e, s);
    var swept := SweptAll(rows, active, covered, e.now);
    var i :| 0 <= i < |rows| && rows[i] == r;
    var q := Swept(r, active, covered, e.now);
    assert swept[i] == q && q in swept;
    assert r.resolvedAt.Some? ==> q == r;
    assert covered == {} ==> q == r;
    assert q in Judge(rows, e, s);
    CleanedMembers(Judge(rows, e, s), Threshold(e.now, s), q);
  }

  // ---- whole runs ----

  // The table after a run of evaluations from an empty one.
  function After(history: seq<Eval>, s: Settings): seq<Row> {
    if history == [] then [] else Step(After(history[..|history| - 1], s), history[|history| - 1], s)
  }

  ghost predicate AllWellFormed(history: seq<Eval>) {
    forall i :: 0 <= i < |history| ==> WellFormed(history[i])
  }

  ghost predicate Covers(e: Eval, s: Settings, t: Target) {
    t.host in Covered(e, s)
  }

  // The last evaluation before the n-th that covered the host saw the rule fire.
  ghost predicate FiredLast(history: seq<Eval>, s: Settings, t: Target, n: nat)
    requires n <= |history|
  {
    exists k :: 0 <= k < n && Covers(history[k], s, t) && Fires(history[k], s, t) &&
                forall m :: k < m < n ==> !Covers(history[m], s, t)
  }

  // The i-th evaluation begins the unbroken streak that lasts to the end of the history.
  ghost predicate StreakFrom(history: seq<Eval>, s: Settings, t: Target, i: int) {
    && 0 <= i < |history|
    && Covers(history[i], s, t)
    && !FiredLast(history, s, t, i)
    && forall j :: i <= j < |history| && Covers(history[j], s, t) ==> Fires(history[j], s, t)
  }

  lemma {:induction false} AfterOk(history: seq<Eval>, s: Settings)
    requires AllWellFormed(history)
    ensures TableOk(After(history, s))
  {
    hide Step, WellFormed;
    if history != [] {
      var n := |history| - 1;
      AfterOk(history[..n], s);
      var t := Target("", "", None);
      assert WellNamed(t);
      StepOpen(After(history[..n], s), history[n], s, t);
    }
  }

  lemma {:induction false} FiredLastPrefix(history: seq<Eval>, s: Settings, t: Target, n: nat, k: nat)
    requires k <= n <= |history|
    ensures FiredLast(history[..n], s, t, k) <==> FiredLast(history, s, t, k)
  {
    hide Covers, Fires;
    assert forall i :: 0 <= i < k ==> history[..n][i] == history[i];
    if FiredLast(history[..n], s, t, k) {
      var i :| 0 <= i < k && Covers(history[..n][i], s, t) && Fires(history[..n][i], s, t) &&
               forall m :: i < m < k ==> !Covers(history[..n][m], s, t);
      assert Covers(history[i], s, t);
      assert forall m :: i < m < k ==> history[..n][m] == history[m];
    }
    if FiredLast(history, s, t, k) {
      var i :| 0 <= i < k && Covers(history[i], s, t) && Fires(history[i], s, t) &&
               forall m :: i < m < k ==> !Covers(history[m], s, t);
      assert Covers(history[..n][i], s, t);
    }
  }

  lemma {:induction false} FiredLastStep(history: seq<Eval>, s: Settings, t: Target, n: nat)
    requires n < |history|
    ensures FiredLast(history, s, t, n + 1) <==>
            if Covers(history[n], s, t) then Fires(history[n], s, t) else FiredLast(history, s, t, n)
  {
    hide Covers, Fires;
  }

  lemma {:induction false} NeverFired(history: seq<Eval>, s: Settings, t: Target)
    ensures !FiredLast(history, s, t, 0)
  {
  }

  lemma {:induction false} SameOpenIf(a: seq<Row>, b: seq<Row>, t: Target)
    ensures (forall r :: OpenRow(a, t, r) <==> OpenRow(b, t, r)) ==>
              (IsOpen(a, t) <==> IsOpen(b, t)) && forall time :: OpenSince(a, t, time) <==> OpenSince(b, t, time)
  {
    if forall r :: OpenRow(a, t, r) <==> OpenRow(b, t, r) {
      SameOpen(a, b, t);
    }
  }

  /** An alert is open exactly when the last evaluation that covered its host saw its rule fire. */
  lemma {:induction false} OpenExactlyWhenFiredLast(history: seq<Eval>, s: Settings, t: Target)
    requires AllWellFormed(history) && WellNamed(t)
    ensures IsOpen(After(history, s), t) <==> FiredLast(history, s, t, |history|)
  {
    hide Step, WellFormed, WellNamed, Fires, FiredLast, TableOk;
    if history == [] {
      NeverFired(history, s, t);
    } else {
      var n := |history| - 1;
      OpenExactlyWhenFiredLast(history[..n], s, t);
      AfterOk(history[..n], s);
      StepOpen(After(history[..n], s), history[n], s, t);
      SameOpenIf(After(history, s), After(history[..n], s), t);
      FiredLastPrefix(history, s, t, n, n);
      FiredLastStep(history, s, t, n);
    }
  }

  lemma {:induction false} StreakPrefix(history: seq<Eval>, s: Settings, t: Target, i: int)
    requires |history| > 0 && i < |history| - 1
    ensures var n := |history| - 1;
            StreakFrom(history, s, t, i) <==>
              (StreakFrom(history[..n], s, t, i) && (Covers(history[n], s, t) ==> Fires(history[n], s, t)))
  {
    hide Covers, Fires, FiredLast;
    var n := |history| - 1;
    assert forall j :: 0 <= j < n ==> history[..n][j] == history[j];
    if 0 <= i {
      FiredLastPrefix(history, s, t, n, i);
    }
  }

  /**
   * An alert is open exactly when an unbroken streak of firing lasts to the end of the history, counting only
   * evaluations that covered its host; and it has been open since that streak's first evaluation.
   */
  lemma {:induction false} OpenSinceStreakStart(history: seq<Eval>, s: Settings, t: Target)
    requires AllWellFormed(history) && WellNamed(t)
    ensures IsOpen(After(history, s), t) <==> exists i :: StreakFrom(history, s, t, i)
    ensures forall i :: StreakFrom(history, s, t, i) ==>
              forall time :: OpenSince(After(history, s), t, time) <==> time == history[i].now
  {
    hide Step, WellFormed, WellNamed, Fires, FiredLast, TableOk, StreakFrom, IsOpen, OpenSince;
    OpenExactlyWhenFiredLast(history, s, t);
    if history == [] {
      NoStreakInNothing(s, t);
      NeverFired(history, s, t);
    } else {
      var n := |history| - 1;
      var front := history[..n];
      OpenSinceStreakStart(front, s, t);
      OpenExactlyWhenFiredLast(front, s, t);
      AfterOk(front, s);
      StepOpen(After(front, s), history[n], s, t);
      SameOpenIf(After(history, s), After(front, s), t);
      FiredLastPrefix(history, s, t, n, n);
      FiredLastStep(history, s, t, n);
      StreakAtEnd(history, s, t);
      forall i | i < n
        ensures StreakFrom(history, s, t, i) <==>
                  (StreakFrom(front, s, t, i) && (Covers(history[n], s, t) ==> Fires(history[n], s, t)))
      {
        StreakPrefix(history, s, t, i);
      }
      StreakInRange(history, s, t);
      StreakInRange(front, s, t);
      var now := history[n];
      if !Covers(now, s, t) {
        assert forall i :: StreakFrom(history, s, t, i) <==> StreakFrom(front, s, t, i);
      } else if !Fires(now, s, t) {
        assert forall i :: !StreakFrom(history, s, t, i);
      } else if FiredLast(history, s, t, n) {
        assert forall i :: StreakFrom(history, s, t, i) <==> StreakFrom(front, s, t, i);
        assert IsOpen(After(front, s), t);
      } else {
        assert !IsOpen(After(front, s), t);
        assert forall i :: StreakFrom(history, s, t, i) <==> i == n;
        assert StreakFrom(history, s, t, n);
      }
    }
  }

  lemma {:induction false} NoStreakInNothing(s: Settings, t: Target)
    ensures forall i :: !StreakFrom([], s, t, i)
  {
  }

  lemma {:induction false} StreakInRange(history: seq<Eval>, s: Settings, t: Target)
    ensures forall i :: StreakFrom(history, s, t, i) ==> 0 <= i < |history|
  {
  }

  lemma {:induction false} StreakAtEnd(history: seq<Eval>, s: Settings, t: Target)
    requires |history| > 0
    ensures var n := |history| - 1;
            StreakFrom(history, s, t, n) <==>
              (Covers(history[n], s, t) && Fires(history[n], s, t) && !FiredLast(history, s, t, n))
  {
    hide Covers, Fires, FiredLast;
  }
}

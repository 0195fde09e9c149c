/** Why an agent must not miss versions: a run of the controller whose pool versions, some of them skipped,
    make the agent answer two clients with one address. */
module Rebinding {
  import opened Basics
  import opened Prefix
  import opened Admission
  import opened Ipam
  import opened Stores
  import opened VmNetCfg
  import opened PoolControl
  import opened Dhcp
  import opened Agent
  import opened AgentLaws
  import opened Agreement
  import opened Invariant
  import opened Runs
  import opened Recovery
  import opened EndToEnd
  import opened Reachability
  import opened Witnesses

  // ---------------------------------------------------------------- one run through several states

  /** Steps lead from one state to the other. */
  ghost predicate Leads(s: Sys, s': Sys) {
    exists path, gone :: IsPath(path, gone, s, s')
  }

  ghost predicate IsPath(path: seq<Sys>, gone: seq<seq<NcStatus>>, s: Sys, s': Sys) {
    && |path| == |gone| + 1 && path[0] == s && path[|gone|] == s'
    && forall i :: 0 <= i < |gone| ==> Step(path[i], gone[i], path[i + 1])
  }

  lemma LeadsNowhere(s: Sys)
    ensures Leads(s, s)
  {
    assert IsPath([s], [], s, s);
  }

  lemma LeadsOn(s: Sys, s': Sys, g: seq<NcStatus>, s'': Sys)
    requires Leads(s, s') && Step(s', g, s'')
    ensures Leads(s, s'')
  {
    hide Step;
    var path, gone :| IsPath(path, gone, s, s');
    forall i | 0 <= i < |gone + [g]| ensures Step((path + [s''])[i], (gone + [g])[i], (path + [s''])[i + 1]) {
      if i < |gone| { assert Step(path[i], gone[i], path[i + 1]); }
    }
    assert IsPath(path + [s''], gone + [g], s, s'');
  }

  // ---------------------------------------------------------------- a pool that serves some clients

  /** Reachable, after `origin`; the pool is ready and serves exactly these clients. */
  ghost predicate Stage(services: CidrText, origin: Sys, s: Sys, net: NetName, p: PoolConfig, clients: map<Addr, Mac>) {
    && Reachable(services, s) && Leads(origin, s)
    && net in s.ctl.pools && net in s.ctl.ipam && net in s.ctl.cache
    && s.ctl.pools[net].config == p && s.ctl.pools[net].cacheReady == True
    && MacsOfPool(s.ctl.pools[net]) == clients
    && forall m :: m in s.ctl.cache[net] ==> s.ctl.cache[net][m] in clients && clients[s.ctl.cache[net][m]] == m
  }

  /** An object with one NIC, served. */
  function Done(net: NetName, m: Mac, a: Addr): Cfg {
    Wanted(net, m).(status := CfgStatus([NcStatus(Ip(a), m, net, AllocatedState)], True, Absent, Absent))
  }

  lemma FreeAddress(services: CidrText, origin: Sys, s: Sys, net: NetName, p: PoolConfig, clients: map<Addr, Mac>,
                    a: Addr)
    requires Stage(services, origin, s, net, p, clients) && Sound(services, p) && a in Pooled(p) && a !in clients
    ensures CanTake(s.ctl.ipam, net, Unset, a)
  {
    hide Reachable, Leads, Sound, Pooled, PoolOk, MacsOfPool;
    ReachableOk(services, s);
    LiveKeys(s.ctl.pools[net], s.ctl.ipam[net], s.ctl.cache[net]);
    assert Agrees(s.ctl.ipam[net].ips, s.ctl.cache[net]);
  }

  lemma EnteredMacs(p: Pool, a: Addr, m: Mac)
    ensures MacsOfPool(WithRecord(p, a, MacRec(m))) == MacsOfPool(p)[a := m]
  {
  }

  lemma ErasedMacs(p: Pool, a: Addr)
    requires p.ipv4.Some?
    ensures MacsOfPool(WithoutRecord(p, a)) == MacsOfPool(p) - {a}
  {
  }

  /** A new object asks for an address and gets a free one. */
  lemma Joins(services: CidrText, origin: Sys, s: Sys, net: NetName, p: PoolConfig, clients: map<Addr, Mac>,
              key: Key, m: Mac, a: Addr) returns (s': Sys)
    requires Stage(services, origin, s, net, p, clients) && Sound(services, p) && key !in s.cfgs
    requires a in Pooled(p) && a !in clients && m !in clients.Values
    ensures Stage(services, origin, s', net, p, clients[a := m]) && s'.cfgs == s.cfgs[key := Done(net, m, a)]
  {
    hide Reachable, Leads, Sound, Pooled, MacsOfPool, AllocateExit, CanTake, WithRecord, Step;
    var nc := NetworkConfig(net, m, Unset);
    FreeAddress(services, origin, s, net, p, clients, a);
    var s1 := s.(cfgs := s.cfgs[key := Wanted(net, m)]);
    AsksStep(s, key, net, m);
    LeadsOn(origin, s, [], s1);
    ReachableStep(services, s, [], s1);
    var c := ServesOne(s1.ctl, s1.cfgs[key], nc, a);
    s' := AfterServing(s1, key, c, [Published(nc, a)]);
    ServeIsStep(s1, key, c, [Published(nc, a)]);
    LeadsOn(origin, s1, [], s');
    ReachableStep(services, s1, [], s');
    EnteredMacs(s.ctl.pools[net], a, m);
    assert s'.cfgs == s.cfgs[key := Done(net, m, a)];
    assert c.pools[net] == WithRecord(s.ctl.pools[net], a, MacRec(m));
    EntryKeeps(s.ctl.pools[net], a, m);
  }

  lemma EntryKeeps(p: Pool, a: Addr, m: Mac)
    ensures WithRecord(p, a, MacRec(m)).config == p.config && WithRecord(p, a, MacRec(m)).cacheReady == p.cacheReady
  {
  }

  lemma AsksStep(s: Sys, key: Key, net: NetName, m: Mac)
    requires key !in s.cfgs
    ensures Step(s, [], s.(cfgs := s.cfgs[key := Wanted(net, m)]))
  {
    var s' := s.(cfgs := s.cfgs[key := Wanted(net, m)]);
    assert Edited(s.cfgs, key, Wanted(net, m), s'.cfgs);
    assert EditStep(s, s') && QuietStep(s, s');
  }

  lemma ServeIsStep(s: Sys, key: Key, c': Ctl, outs: seq<NcStatus>)
    requires key in s.cfgs && AllocateExit(s.ctl, s.cfgs[key], c', Ok(outs))
    ensures Step(s, [], AfterServing(s, key, c', outs))
  {
    hide AllocateExit;
    assert HandlerExit(AllocateKind, s.ctl, s.cfgs[key], c', Ok(outs));
    assert WrappedExit(AllocateKind, s, key, AfterServing(s, key, c', outs));
    assert QuietStep(s, AfterServing(s, key, c', outs));
  }

  lemma RemoveIsStep(services: CidrText, s: Sys, key: Key, r: NcStatus)
    requires CtlOk(services, s.ctl) && key in s.cfgs && s.cfgs[key].status.records == [r]
    requires Durable(s.ctl, r) && r.net in s.ctl.ipam
    ensures Holds(s.ctl.ipam, r.net, r.ip) && r.net in s.ctl.cache && r.net in s.ctl.pools
    ensures s.ctl.pools[r.net].ipv4.Some? && Step(s, [r], Sys(Cleaned(s.ctl, r), s.cfgs - {key}))
  {
    hide CtlOk, Durable, Cleaned, CleanupUpTo, CleanupExit, Current, Holds;
    RecordIsManaged(services, s.ctl, r);
    DurableIsCurrent(services, s.ctl, r);
    CleansOne(s.ctl, r);
    var s' := Sys(Cleaned(s.ctl, r), s.cfgs - {key});
    assert Releases(s.ctl, [r], [r], s'.ctl);
    assert OnRemoveExit(s, key, s');
    assert RemoveStep(s, key, [r], s');
  }

  lemma CleanedPool(c: Ctl, r: NcStatus)
    requires Holds(c.ipam, r.net, r.ip) && r.net in c.cache && r.net in c.pools && c.pools[r.net].ipv4.Some?
    ensures var d := Cleaned(c, r);
      && r.net in d.pools && r.net in d.ipam && r.net in d.cache
      && d.pools[r.net] == WithoutRecord(c.pools[r.net], r.ip.addr) && d.cache[r.net] == c.cache[r.net] - {r.mac}
      && d.pools[r.net].config == c.pools[r.net].config && d.pools[r.net].cacheReady == c.pools[r.net].cacheReady
  {
  }

  /** An object goes, and its address with it. */
  lemma Leaves(services: CidrText, origin: Sys, s: Sys, net: NetName, p: PoolConfig, clients: map<Addr, Mac>,
               key: Key, m: Mac, a: Addr) returns (s': Sys)
    requires Stage(services, origin, s, net, p, clients) && key in s.cfgs && s.cfgs[key] == Done(net, m, a)
    requires a in clients && clients[a] == m && forall b :: b in clients && clients[b] == m ==> b == a
    ensures Stage(services, origin, s', net, p, clients - {a}) && s'.cfgs == s.cfgs - {key}
  {
    hide Reachable, Leads, CtlOk, MacsOfPool, Cleaned, WithoutRecord, Step;
    var r := NcStatus(Ip(a), m, net, AllocatedState);
    ReachableOk(services, s);
    MacsAreMacsAt(s.ctl.pools[net]);
    RecordedByMacsAt(s.ctl.pools[net], a, m);
    RemoveIsStep(services, s, key, r);
    s' := Sys(Cleaned(s.ctl, r), s.cfgs - {key});
    LeadsOn(origin, s, [r], s');
    ReachableStep(services, s, [r], s');
    CleanedPool(s.ctl, r);
    ErasedMacs(s.ctl.pools[net], a);
  }

  lemma MacsAreMacsAt(p: Pool)
    ensures MacsOfPool(p) == MacsAt(RecordsOf(p))
  {
  }

  /** The pool, built and without clients. */
  lemma Opens(services: CidrText, net: NetName, p: PoolConfig) returns (s: Sys)
    requires Sound(services, p)
    ensures Stage(services, s, s, net, p, map[]) && s.cfgs == map[]
  {
    hide Sound, Buildable, Loaded, Step;
    var s0 := Created(net, p);
    assert EndsIn(services, [s0], [], s0);
    Builds(services, s0, net);
    s := s0.(ctl := BuiltCtl(s0.ctl, net));
    LeadsNowhere(s);
  }

  lemma SameOrigin(services: CidrText, origin: Sys, s: Sys, net: NetName, p: PoolConfig, clients: map<Addr, Mac>)
    requires Stage(services, origin, s, net, p, clients)
    ensures Stage(services, s, s, net, p, clients)
  {
    hide Reachable;
    LeadsNowhere(s);
  }

  // ---------------------------------------------------------------- the agent

  /** An agent that has nothing takes over two records. */
  lemma TwoLeases(p: PoolConfig, leaseTime: Option<int>, a: Addr, b: Addr, m: Mac, n: Mac)
    requires p.cidr.Cidr? && a != b && m != n && m.Hw? && n.Hw?
    ensures UpdateExit(AgentState(map[], map[]), map[a := m, b := n], p, leaseTime,
                       AgentState(map[a := m, b := n],
                                  map[m := LeaseFor(p, leaseTime, a), n := LeaseFor(p, leaseTime, b)]), Ok(()))
  {
    hide LeaseFor;
    var s, latest := AgentState(map[], map[]), map[a := m, b := n];
    var t := AgentState(latest, map[m := LeaseFor(p, leaseTime, a), n := LeaseFor(p, leaseTime, b)]);
    assert Pruned(s, latest, s.poolCache.Keys, s);
    assert a in latest && b in latest && latest[a] == m && latest[b] == n;
    assert MacsFor(latest, {a, b}) == {m, n};
    assert Restricted(latest, {a, b}) == latest && s.poolCache + latest == latest;
    assert Extended(s, latest, p, leaseTime, {a, b}, t);
    assert latest.Keys - s.poolCache.Keys == {a, b};
    UpdateIntro(s, latest, p, leaseTime, s, {a, b}, t);
  }

  /** The agent is handed this version of the pool. */
  lemma Delivers(x: AgentState, p: Pool, y: AgentState)
    requires p.cacheReady == True && p.ipv4.Some? && UpdateExit(x, MacsOfPool(p), p.config, None, y, Ok(()))
    ensures DeliverExit(x, p, None, y, Ok(()))
  {
  }

  lemma HasStatus(p: Pool)
    requires MacsOfPool(p) != map[]
    ensures p.ipv4.Some?
  {
  }

  /** From any admitted pool, a run through four versions of the pool; the agent is handed these and no
      others, each update succeeds, and in the end two clients are answered with one address. */
  lemma MissedVersionsShareAnAddress(services: CidrText, net: NetName, p: PoolConfig, a: Addr, b: Addr,
                                     m: Mac, n: Mac, k: Mac) returns (v: seq<Sys>, x: seq<AgentState>)
    requires Sound(services, p) && a in Pooled(p) && b in Pooled(p) && a != b
    requires m != n && n != k && m != k && m.Hw? && n.Hw? && k.Hw?
    ensures |v| == 4 && |x| == 5 && Reachable(services, v[0]) && x[0] == AgentState(map[], map[])
    ensures Leads(v[0], v[1]) && Leads(v[1], v[2]) && Leads(v[2], v[3])
    ensures forall i :: 0 <= i < 4 ==>
              net in v[i].ctl.pools && DeliverExit(x[i], v[i].ctl.pools[net], None, x[i + 1], Ok(()))
    ensures AnswerFor(x[4].leases, m) == Some(a) && AnswerFor(x[4].leases, k) == Some(a)
  {
    hide Stage, Sound, Pooled, UpdateExit, LeaseFor, DeliverExit, AnswerFor;
    var k1, k2, k3, k4, k5 := Key("vm", "1"), Key("vm", "2"), Key("vm", "3"), Key("vm", "4"), Key("vm", "5");
    var s0 := Opens(services, net, p);
    var s1 := Joins(services, s0, s0, net, p, map[], k1, m, a);
    var s2 := Joins(services, s0, s1, net, p, map[][a := m], k2, n, b);
    assert map[][a := m][b := n] == map[a := m, b := n];
    var v0 := s2;
    SameOrigin(services, s0, v0, net, p, map[a := m, b := n]);
    var s3 := Leaves(services, v0, v0, net, p, map[a := m, b := n], k1, m, a);
    assert map[a := m, b := n] - {a} == map[b := n];
    var s4 := Leaves(services, v0, s3, net, p, map[b := n], k2, n, b);
    assert map[b := n] - {b} == map[];
    var s5 := Joins(services, v0, s4, net, p, map[], k3, m, b);
    var s6 := Joins(services, v0, s5, net, p, map[][b := m], k4, n, a);
    assert map[][b := m][a := n] == map[a := n, b := m];
    var v1 := s6;
    SameOrigin(services, v0, v1, net, p, map[a := n, b := m]);
    var v2 := Leaves(services, v1, v1, net, p, map[a := n, b := m], k4, n, a);
    assert map[a := n, b := m] - {a} == map[b := m];
    SameOrigin(services, v1, v2, net, p, map[b := m]);
    var v3 := Joins(services, v2, v2, net, p, map[b := m], k5, k, a);
    assert map[b := m][a := k] == map[b := m, a := k];
    v := [v0, v1, v2, v3];
    x := HandsOut(services, net, p, a, b, m, n, k, [s0, v0, v1, v2], v);
  }

  /** The agent's part of it. */
  lemma HandsOut(services: CidrText, net: NetName, p: PoolConfig, a: Addr, b: Addr, m: Mac, n: Mac, k: Mac,
                 from: seq<Sys>, v: seq<Sys>) returns (x: seq<AgentState>)
    requires |from| == 4 && |v| == 4 && Sound(services, p) && a != b
    requires m != n && n != k && m != k && m.Hw? && n.Hw? && k.Hw?
    requires Stage(services, from[0], v[0], net, p, map[a := m, b := n])
    requires Stage(services, from[1], v[1], net, p, map[a := n, b := m])
    requires Stage(services, from[2], v[2], net, p, map[b := m])
    requires Stage(services, from[3], v[3], net, p, map[b := m, a := k])
    ensures Reachable(services, v[0])
    ensures Leads(from[1], v[1]) && Leads(from[2], v[2]) && Leads(from[3], v[3])
    ensures |x| == 5 && x[0] == AgentState(map[], map[])
    ensures forall i :: 0 <= i < 4 ==>
              net in v[i].ctl.pools && DeliverExit(x[i], v[i].ctl.pools[net], None, x[i + 1], Ok(()))
    ensures AnswerFor(x[4].leases, m) == Some(a) && AnswerFor(x[4].leases, k) == Some(a)
  {
    hide Reachable, Leads, UpdateExit, LeaseFor, DeliverExit, AnswerFor, MacsOfPool, Agree;
    var la, lb := LeaseFor(p, None, a), LeaseFor(p, None, b);
    var x1 := AgentState(map[a := m, b := n], map[m := la, n := lb]);
    var x2 := x1.(poolCache := map[a := n, b := m]);
    var x3 := AgentState(map[b := m], x1.leases - {n});
    var x4 := AgentState(map[b := m, a := k], x3.leases[k := la]);
    x := [AgentState(map[], map[]), x1, x2, x3, x4];
    TwoLeases(p, None, a, b, m, n);
    RebindingSharesAnAddress(p, None, a, b, m, n, k);
    assert a in map[a := m, b := n] && a in map[a := n, b := m] && b in map[b := m] && b in map[b := m, a := k];
    HasStatus(v[0].ctl.pools[net]);
    HasStatus(v[1].ctl.pools[net]);
    HasStatus(v[2].ctl.pools[net]);
    HasStatus(v[3].ctl.pools[net]);
    Delivers(x[0], v[0].ctl.pools[net], x[1]);
    Delivers(x[1], v[1].ctl.pools[net], x[2]);
    Delivers(x[2], v[2].ctl.pools[net], x[3]);
    Delivers(x[3], v[3].ctl.pools[net], x[4]);
  }
}

/** Which answers a run can give at all: the partner of the safety results. Every address of an admitted
    pool reaches every client with a well-formed hardware address in some run, and nothing else does. */
module Reachability {
  import opened Basics
  import opened Prefix
  import opened Admission
  import opened Ipam
  import opened Stores
  import opened VmNetCfg
  import opened PoolControl
  import opened Dhcp
  import opened Agent
  import opened PoolLaws
  import opened FreeRuns
  import opened Runs
  import opened EndToEnd

  // ---------------------------------------------------------------- a run that serves one client

  function FreshPool(p: PoolConfig): Pool {
    Pool(p, false, false, Absent, Absent, None)
  }

  function Created(net: NetName, p: PoolConfig): Sys {
    Sys(Ctl(map[], map[], map[net := FreshPool(p)]), map[])
  }

  function Wanted(net: NetName, hw: Mac): Cfg {
    Cfg([NetworkConfig(net, hw, Unset)], false, CfgStatus([], Absent, Absent, Absent))
  }

  function Requested(net: NetName, p: PoolConfig, key: Key, hw: Mac): Sys {
    Created(net, p).(cfgs := map[key := Wanted(net, hw)])
  }

  /** Memory as BuildCache leaves it, before its condition is published. */
  function Unannounced(net: NetName, p: PoolConfig): Ctl
    requires Buildable(p.cidr, p.start, p.end)
  {
    Ctl(map[net := Loaded(p, {})], map[net := map[]], map[net := FreshPool(p)])
  }

  function Opened(net: NetName, p: PoolConfig): Ctl
    requires Buildable(p.cidr, p.start, p.end)
  {
    Unannounced(net, p).(pools := map[net := FreshPool(p).(cacheReady := True)])
  }

  function Served(net: NetName, p: PoolConfig, hw: Mac, a: Addr): Ctl
    requires Buildable(p.cidr, p.start, p.end)
  {
    var nc := NetworkConfig(net, hw, Unset);
    Entered(Taken(Opened(net, p), nc, a), nc, a)
  }

  /** The whole state then: the address is published as allocated. */
  function AllServed(net: NetName, p: PoolConfig, key: Key, hw: Mac, a: Addr): Sys
    requires Buildable(p.cidr, p.start, p.end)
  {
    var record := Published(NetworkConfig(net, hw, Unset), a);
    Sys(Served(net, p, hw, a), map[key := Wanted(net, hw).(status := CfgStatus([record], True, Absent, Absent))])
  }

  lemma RequestStep(net: NetName, p: PoolConfig, key: Key, hw: Mac)
    ensures Step(Created(net, p), [], Requested(net, p, key, hw))
  {
    var s, s' := Created(net, p), Requested(net, p, key, hw);
    assert Edited(s.cfgs, key, Wanted(net, hw), s'.cfgs);
    assert EditStep(s, s') && QuietStep(s, s');
  }

  lemma OpenStep(services: CidrText, net: NetName, p: PoolConfig, key: Key, hw: Mac)
    requires Sound(services, p)
    ensures Buildable(p.cidr, p.start, p.end)
    ensures Step(Requested(net, p, key, hw), [], Requested(net, p, key, hw).(ctl := Opened(net, p)))
  {
    hide Sound, Buildable, Loaded, Pooled;
    AdmittedIsBuildable(services, p);
    var c, d := Requested(net, p, key, hw).ctl, Unannounced(net, p);
    assert MacAddrs(RecordsOf(c.pools[net])) == {};
    assert d == c.(ipam := c.ipam[net := Loaded(p, {})], cache := c.cache[net := map[]]);
    assert RebuiltTo(c, net, {}, map[], d);
    assert BuildExit(c, net, d, Ok(()));
    assert Opened(net, p) == d.(pools := d.pools[net := d.pools[net].(cacheReady := True)]);
    assert BuildStep(c, net, Opened(net, p));
  }

  lemma ServeRound(net: NetName, p: PoolConfig, hw: Mac, a: Addr)
    requires Buildable(p.cidr, p.start, p.end) && a in Pooled(p)
    ensures var nc := NetworkConfig(net, hw, Unset);
      AllocateOne(Opened(net, p), nc, [], Served(net, p, hw, a), Ok(Published(nc, a)))
  {
    hide Buildable, Built, Pooled;
    var c, nc := Opened(net, p), NetworkConfig(net, hw, Unset);
    LoadedUsed(p, {});
    assert CanTake(c.ipam, net, Designated(nc, []), a);
  }

  lemma ServeStep(net: NetName, p: PoolConfig, key: Key, hw: Mac, a: Addr)
    requires Buildable(p.cidr, p.start, p.end) && a in Pooled(p)
    ensures Step(Requested(net, p, key, hw).(ctl := Opened(net, p)), [], AllServed(net, p, key, hw, a))
  {
    hide Buildable, AllocateOne, Opened, Served, Pooled;
    var c, nc, cfg := Opened(net, p), NetworkConfig(net, hw, Unset), Wanted(net, hw);
    ServeRound(net, p, hw, a);
    var outs := [Published(nc, a)];
    assert AllocateAll(c, Init(cfg.configs), [], c, Init(outs));
    assert AllocateAll(c, cfg.configs, [], Served(net, p, hw, a), outs);
    assert HandlerExit(AllocateKind, c, cfg, Served(net, p, hw, a), Ok(outs));
    var s := Requested(net, p, key, hw).(ctl := c);
    assert s.cfgs[key := cfg.(status := StatusAfter(AllocateKind, cfg.status, Ok(outs)))]
        == AllServed(net, p, key, hw, a).cfgs;
    assert WrappedExit(AllocateKind, s, key, AllServed(net, p, key, hw, a));
  }

  lemma ServedPool(net: NetName, p: PoolConfig, hw: Mac, a: Addr)
    requires Buildable(p.cidr, p.start, p.end)
    ensures net in Served(net, p, hw, a).pools
    ensures var q := Served(net, p, hw, a).pools[net];
      q.config == p && q.cacheReady == True && q.ipv4.Some? && MacsOfPool(q) == map[a := hw]
  {
    hide Buildable, Loaded;
  }

  /** An agent that has nothing takes over one record. */
  lemma FirstLease(p: PoolConfig, hw: Mac, a: Addr) returns (s': AgentState)
    requires p.cidr.Cidr? && hw.Hw?
    ensures UpdateExit(AgentState(map[], map[]), map[a := hw], p, None, s', Ok(()))
    ensures AnswerFor(s'.leases, hw) == Some(a)
  {
    hide NetOf;
    var s, latest := AgentState(map[], map[]), map[a := hw];
    s' := AgentState(latest, map[hw := LeaseFor(p, None, a)]);
    assert Pruned(s, latest, s.poolCache.Keys, s);
    assert MacsFor(latest, {a}) == {hw} by { assert a in latest && latest[a] == hw; }
    assert Restricted(latest, {a}) == latest;
    assert Extended(s, latest, p, None, {a}, s');
    assert ExtendExit(s, latest, p, None, {a}, s', Ok(()));
  }

  // ---------------------------------------------------------------- exactly the pooled addresses

  /** In some run of the whole system on this pool, the client `hw` is answered with `a`. */
  ghost predicate Answerable(services: CidrText, net: NetName, p: PoolConfig, hw: Mac, a: Addr) {
    exists tr: seq<World> :: AnsweredAtEnd(services, net, p, hw, a, tr)
  }

  ghost predicate AnsweredAtEnd(services: CidrText, net: NetName, p: PoolConfig, hw: Mac, a: Addr, tr: seq<World>) {
    && WorldRun(services, net, tr) && tr[0].ctl.pools[net].config == p
    && AnswerFor(Last(tr).agent.leases, hw) == Some(a)
  }

  /** From any admitted pool, a run that publishes a given pooled address for a given MAC. */
  lemma ServingRun(services: CidrText, net: NetName, p: PoolConfig, key: Key, hw: Mac, a: Addr) returns (tr: seq<Sys>)
    requires Sound(services, p) && a in Pooled(p)
    ensures Buildable(p.cidr, p.start, p.end) && Run(services, tr, [[], [], []])
    ensures tr == [Created(net, p), Requested(net, p, key, hw), Requested(net, p, key, hw).(ctl := Opened(net, p)),
                   AllServed(net, p, key, hw, a)]
  {
    hide Sound, Buildable, Pooled, Step, Opened, Served;
    RequestStep(net, p, key, hw);
    OpenStep(services, net, p, key, hw);
    ServeStep(net, p, key, hw, a);
    var s1 := Requested(net, p, key, hw);
    tr := [Created(net, p), s1, s1.(ctl := Opened(net, p)), AllServed(net, p, key, hw, a)];
  }

  /** The same run, with an agent that is then handed the pool. */
  lemma AnsweringRun(services: CidrText, net: NetName, p: PoolConfig, hw: Mac, a: Addr) returns (tr: seq<World>)
    requires Sound(services, p) && a in Pooled(p) && hw.Hw?
    ensures AnsweredAtEnd(services, net, p, hw, a, tr)
  {
    hide Sound, Buildable, Pooled, Step, FreeStep, Opened, Served, UpdateExit, MacsOfPool, AnswerFor;
    var idle := AgentState(map[], map[]);
    var run := ServingRun(services, net, p, Key("default", "vm"), hw, a);
    ServedPool(net, p, hw, a);
    OpenedPools(net, p);
    assert p.cidr.Cidr?;
    var agent := FirstLease(p, hw, a);
    var c0, c1, c2, c3 := run[0].ctl, run[1].ctl, run[2].ctl, run[3].ctl;
    assert Step(run[0], [], run[0 + 1]) && Step(run[1], [], run[1 + 1]) && Step(run[2], [], run[2 + 1]);
    StepIsFree(run[0], [], run[1]);
    StepIsFree(run[1], [], run[2]);
    StepIsFree(run[2], [], run[3]);
    var v1 := {c0.pools[net]};
    var v2 := v1 + {c2.pools[net]};
    var v3 := v2 + {c3.pools[net]};
    tr := [World(c0, v1, idle), World(c1, v1, idle), World(c2, v2, idle), World(c3, v3, idle), World(c3, v3, agent)];
    assert v1 == v1 + {c1.pools[net]};
    assert DeliverExit(idle, c3.pools[net], None, agent, Ok(()));
    assert Delivered(tr[3], agent);
    assert WorldStep(net, tr[0], tr[1]) && WorldStep(net, tr[1], tr[2]);
    assert WorldStep(net, tr[2], tr[3]) && WorldStep(net, tr[3], tr[4]);
  }

  lemma OpenedPools(net: NetName, p: PoolConfig)
    requires Buildable(p.cidr, p.start, p.end)
    ensures net in Opened(net, p).pools
  {
    hide Buildable, Loaded;
  }

  ghost predicate WellFormed(leases: LeaseTable) {
    forall m :: m in leases ==> m.Hw?
  }

  lemma UpdateWellFormed(s: AgentState, latest: map<Addr, Mac>, p: PoolConfig, leaseTime: Option<int>,
                         s': AgentState, r: Result<(), LeaseError>)
    requires WellFormed(s.leases) && UpdateExit(s, latest, p, leaseTime, s', r)
    ensures WellFormed(s'.leases)
  {
    hide Compared, LeaseFor, Restricted, AddFails;
    if r != Err(NoLease) {
      var m, added :| Pruned(s, latest, s.poolCache.Keys, m) && ExtendExit(m, latest, p, leaseTime, added, s', r);
    }
  }

  /** Only well-formed hardware addresses ever get a lease, whatever the pool status records. */
  lemma {:induction false} LeasesWellFormed(services: CidrText, net: NetName, tr: seq<World>, i: nat)
    requires WorldRun(services, net, tr) && i < |tr|
    ensures WellFormed(tr[i].agent.leases)
  {
    hide Fresh, FreeStep, UpdateExit, MacsOfPool;
    if i > 0 {
      LeasesWellFormed(services, net, tr, i - 1);
      var w, w' := tr[i - 1], tr[i - 1 + 1];
      assert WorldStep(net, w, w');
      if w'.agent != w.agent && Delivered(w, w'.agent) {
        var p, leaseTime, r :| p in w.seen && NoRebind(w.agent.poolCache, MacsOfPool(p))
                               && DeliverExit(w.agent, p, leaseTime, w'.agent, r);
        UpdateWellFormed(w.agent, MacsOfPool(p), p.config, leaseTime, w'.agent, r);
      }
    }
  }

  /** The terms of every lease are those of the pool. */
  ghost predicate OnTerms(leases: LeaseTable, p: PoolConfig) {
    p.cidr.Cidr? && forall m :: m in leases ==>
      && leases[m].serverIP == (if p.server.Ip? then Some(p.server.addr) else None)
      && leases[m].router == (if p.router.Ip? then Some(p.router.addr) else None)
      && leases[m].subnetMask == NetOf(p.cidr).mask
  }

  lemma LeaseOnTerms(p: PoolConfig, leaseTime: Option<int>, a: Addr)
    requires p.cidr.Cidr?
    ensures var lease := LeaseFor(p, leaseTime, a);
      && lease.serverIP == (if p.server.Ip? then Some(p.server.addr) else None)
      && lease.router == (if p.router.Ip? then Some(p.router.addr) else None)
      && lease.subnetMask == NetOf(p.cidr).mask && lease.clientIP == Some(a)
      && lease.leaseTime == (if leaseTime.Some? then leaseTime.value else 0)
  {
  }

  lemma UpdateOnTerms(s: AgentState, latest: map<Addr, Mac>, p: PoolConfig, leaseTime: Option<int>,
                      s': AgentState, r: Result<(), LeaseError>)
    requires OnTerms(s.leases, p) && UpdateExit(s, latest, p, leaseTime, s', r)
    ensures OnTerms(s'.leases, p)
    ensures forall m :: m in s'.leases && m !in s.leases ==>
              s'.leases[m].leaseTime == (if leaseTime.Some? then leaseTime.value else 0)
  {
    hide Compared, Restricted, AddFails, NetOf, LeaseFor;
    if r != Err(NoLease) {
      var m, added :| Pruned(s, latest, s.poolCache.Keys, m) && ExtendExit(m, latest, p, leaseTime, added, s', r);
      forall h | h in s'.leases && h !in m.leases
        ensures exists a :: a in added && a in latest && latest[a] == h && s'.leases[h] == LeaseFor(p, leaseTime, a)
      {
        assert h in MacsFor(latest, added);
      }
      forall a ensures LeaseFor(p, leaseTime, a).serverIP == (if p.server.Ip? then Some(p.server.addr) else None)
                       && LeaseFor(p, leaseTime, a).router == (if p.router.Ip? then Some(p.router.addr) else None)
                       && LeaseFor(p, leaseTime, a).subnetMask == NetOf(p.cidr).mask
                       && LeaseFor(p, leaseTime, a).leaseTime == (if leaseTime.Some? then leaseTime.value else 0)
      {
        LeaseOnTerms(p, leaseTime, a);
      }
    }
  }

  /** In every world run: whatever client is answered, the lease carries the pool's server address, router
      and mask; its lease time is the one configured when it was made, or none. */
  lemma {:induction false} LeasesOnTerms(services: CidrText, net: NetName, tr: seq<World>, i: nat)
    requires WorldRun(services, net, tr) && i < |tr|
    ensures OnTerms(tr[i].agent.leases, tr[0].ctl.pools[net].config)
  {
    hide Fits, Fresh, FreeStep, UpdateExit, MacsOfPool, OnTerms, PoolFits, Sound, Agree;
    EveryWorldOk(services, net, tr, 0);
    var p := tr[0].ctl.pools[net].config;
    NoLeasesOnTerms(services, p);
    if i > 0 {
      LeasesOnTerms(services, net, tr, i - 1);
      EveryWorldOk(services, net, tr, i - 1);
      var w, w' := tr[i - 1], tr[i - 1 + 1];
      assert WorldStep(net, w, w');
      if w'.agent != w.agent && Delivered(w, w'.agent) {
        var q, leaseTime, r :| q in w.seen && NoRebind(w.agent.poolCache, MacsOfPool(q))
                               && DeliverExit(w.agent, q, leaseTime, w'.agent, r);
        UpdateOnTerms(w.agent, MacsOfPool(q), q.config, leaseTime, w'.agent, r);
      }
    }
  }

  lemma NoLeasesOnTerms(services: CidrText, p: PoolConfig)
    requires Sound(services, p)
    ensures OnTerms(map[], p)
  {
  }

  /** For an admitted pool, a client can be answered with an address if and only if the pool manages
      the address and the client's hardware address is well formed. */
  lemma AnswerableExactly(services: CidrText, net: NetName, p: PoolConfig, hw: Mac, a: Addr)
    requires Sound(services, p)
    ensures Answerable(services, net, p, hw, a) <==> a in Pooled(p) && hw.Hw?
  {
    hide Sound, Pooled, WorldRun, Fits, PoolFits;
    RangeOrdered(services, p);
    if a in Pooled(p) && hw.Hw? {
      var tr := AnsweringRun(services, net, p, hw, a);
    }
    if Answerable(services, net, p, hw, a) {
      var tr: seq<World> :| AnsweredAtEnd(services, net, p, hw, a, tr);
      assert |tr| > 0 && net in tr[0].ctl.pools by { RunStarts(services, net, tr); }
      EveryWorldOk(services, net, tr, |tr| - 1);
      LeasesWellFormed(services, net, tr, |tr| - 1);
    }
  }

  lemma RunStarts(services: CidrText, net: NetName, tr: seq<World>)
    requires WorldRun(services, net, tr)
    ensures |tr| > 0 && net in tr[0].ctl.pools
  {
  }
}

/** From admission to the DHCP reply: what clients are answered over whole runs of the controller and
    of an agent that follows one of its pools. */
module EndToEnd {
  import opened Basics
  import opened Prefix
  import opened Admission
  import opened Stores
  import opened VmNetCfg
  import opened PoolControl
  import opened Dhcp
  import opened Agent
  import opened AgentLaws
  import opened SyncLaws
  import opened PoolLaws
  import opened Invariant
  import opened FreeRuns
  import opened Runs

  // ---------------------------------------------------------------- what one step does to a pool

  predicate Submap(x: map<Addr, Mac>, y: map<Addr, Mac>) {
    forall a :: a in x ==> a in y && y[a] == x[a]
  }

  function MacsOfPool(p: Pool): map<Addr, Mac> {
    MacsAt(RecordsOf(p))
  }

  /** A step erases records, or adds some while the pool's cache is ready; never both. */
  ghost predicate Shape(p: Pool, q: Pool) {
    && q.config == p.config && (p.ipv4.Some? ==> q.ipv4.Some?)
    && (|| Submap(MacsOfPool(q), MacsOfPool(p))
        || (Submap(MacsOfPool(p), MacsOfPool(q)) && p.cacheReady == True && q.cacheReady == True))
  }

  /** Either untouched, or ready before and after. */
  ghost predicate ReadyIfChanged(p: Pool, q: Pool) {
    q == p || (p.cacheReady == True && q.cacheReady == True && q.config == p.config && (p.ipv4.Some? ==> q.ipv4.Some?))
  }

  ghost predicate AllReadyIfChanged(c: Ctl, c': Ctl) {
    c'.pools.Keys == c.pools.Keys && forall net :: net in c.pools ==> ReadyIfChanged(c.pools[net], c'.pools[net])
  }

  lemma AllocateOneReady(c: Ctl, nc: NetworkConfig, records: seq<NcStatus>, c': Ctl, r: Result<NcStatus, Failure>)
    requires AllocateOne(c, nc, records, c', r)
    ensures AllReadyIfChanged(c, c')
  {
    hide AllocateOne, Designated;
    var chosen := AllocateOneCases(c, nc, records, c', r);
  }

  lemma {:induction false} AllocateAllReady(c: Ctl, ncs: seq<NetworkConfig>, records: seq<NcStatus>, c': Ctl,
                                            outs: seq<NcStatus>)
    requires AllocateAll(c, ncs, records, c', outs)
    ensures AllReadyIfChanged(c, c')
    decreases |ncs|
  {
    hide AllocateOne;
    if ncs != [] {
      var m :| AllocateAll(c, Init(ncs), records, m, Init(outs))
               && AllocateOne(m, Last(ncs), records, c', Ok(Last(outs)));
      AllocateAllReady(c, Init(ncs), records, m, Init(outs));
      AllocateOneReady(m, Last(ncs), records, c', Ok(Last(outs)));
    }
  }

  lemma AllocateReady(c: Ctl, cfg: Cfg, c': Ctl, r: Result<seq<NcStatus>, Failure>)
    requires AllocateExit(c, cfg, c', r)
    ensures AllReadyIfChanged(c, c')
  {
    hide AllocateOne, AllocateAll;
    var ncs, records := cfg.configs, cfg.status.records;
    if c' != c {
      if r.Ok? {
        AllocateAllReady(c, ncs, records, c', r.value);
      } else {
        var i, m, outs :| 0 <= i < |ncs| && AllocateAll(c, ncs[..i], records, m, outs)
                          && AllocateOne(m, ncs[i], records, c', Err(r.error));
        AllocateAllReady(c, ncs[..i], records, m, outs);
        AllocateOneReady(m, ncs[i], records, c', Err(r.error));
      }
    }
  }

  lemma RetainsSubmap(p: Pool, q: Pool)
    requires Retains(p, q)
    ensures Submap(MacsOfPool(p), MacsOfPool(q))
  {
    forall a | a in MacsOfPool(p) ensures a in MacsOfPool(q) && MacsOfPool(q)[a] == MacsOfPool(p)[a] {
      assert RecordedFor(p, a, MacsOfPool(p)[a]);
    }
  }

  lemma AllocateShape(services: CidrText, c: Ctl, cfg: Cfg, c': Ctl, r: Result<seq<NcStatus>, Failure>, net: NetName)
    requires CtlOk(services, c) && AllocateExit(c, cfg, c', r) && net in c.pools
    ensures net in c'.pools && Shape(c.pools[net], c'.pools[net])
  {
    hide CtlOk, AllocateExit, Retains, MacsOfPool;
    AllocateReady(c, cfg, c', r);
    AllocateOk(services, c, cfg, c', r);
    RetainsSubmap(c.pools[net], c'.pools[net]);
  }

  lemma SameShape(p: Pool)
    ensures Shape(p, p)
  {
  }

  lemma ReleaseShape(c: Ctl, records: seq<NcStatus>, gone: seq<NcStatus>, c': Ctl, net: NetName)
    requires Frees(c, records, gone, c') && net in c.pools
    ensures net in c'.pools && Shape(c.pools[net], c'.pools[net])
  {
    hide CleanupUpTo, Shape;
    SameShape(c.pools[net]);
    if !(gone == [] && c' == c) {
      var f :| CleanupUpTo(c, records, |gone|, c', f) && !LostWrite(f);
      CleanupErases(c, records, |gone|, c', f);
      ErasedShape(c.pools[net], AddrsOn(records[..|gone|], net));
    }
  }

  lemma ErasedShape(p: Pool, addrs: set<Addr>)
    ensures Shape(p, ErasedFrom(p, addrs))
  {
  }

  lemma SameMacsShape(p: Pool, q: Pool)
    requires SameMacs(p, q) && (p.ipv4.Some? ==> q.ipv4.Some?)
    ensures Shape(p, q)
  {
  }

  lemma PoolOnChangeShape(services: CidrText, c: Ctl, n: NetName, c': Ctl, net: NetName)
    requires CtlOk(services, c) && PoolOnChangeExit(c, n, c') && net in c.pools
    ensures net in c'.pools && Shape(c.pools[net], c'.pools[net])
  {
    hide CtlOk, SameMacs, Marks;
    RefreshedSameMacs(services, c, n);
    SameShape(c.pools[net]);
    SameMacsShape(c.pools[n], Refreshed(c, n));
  }

  lemma BuildShape(services: CidrText, c: Ctl, n: NetName, c': Ctl, net: NetName)
    requires CtlOk(services, c) && BuildStep(c, n, c') && net in c.pools
    ensures net in c'.pools && Shape(c.pools[net], c'.pools[net])
  {
    hide CtlOk, BuildExit, SameMacs;
    var d, r :| BuildExit(c, n, d, r) && n in d.pools
      && (c' == d || c' == d.(pools := d.pools[n := d.pools[n].(cacheReady := if r.Ok? then True else False)]));
    BuildOk(services, c, n, d, r);
    SameShape(c.pools[net]);
    var q := c.pools[n].(cacheReady := if r.Ok? then True else False);
    TouchedSameMacs(c.pools[n], q);
    SameMacsShape(c.pools[n], q);
  }

  lemma PoolStepShape(services: CidrText, c: Ctl, c': Ctl, net: NetName)
    requires CtlOk(services, c) && PoolStep(c, c') && net in c.pools
    ensures net in c'.pools && Shape(c.pools[net], c'.pools[net])
  {
    hide CtlOk, BuildStep, PoolOnChangeExit, Shape, SameMacs;
    SameShape(c.pools[net]);
    if n :| BuildStep(c, n, c') {
      BuildShape(services, c, n, c', net);
    } else if n :| PoolOnChangeExit(c, n, c') {
      PoolOnChangeShape(services, c, n, c', net);
    } else if TouchStep(c, c') {
      var n, q :| Touched(c, n, q, c');
      TouchedSameMacs(c.pools[n], q);
      SameMacsShape(c.pools[n], q);
    }
  }

  /** Every step of a run leaves each pool in such a shape. */
  lemma StepShape(services: CidrText, s: Sys, gone: seq<NcStatus>, s': Sys, net: NetName)
    requires CtlOk(services, s.ctl) && Step(s, gone, s') && net in s.ctl.pools
    ensures net in s'.ctl.pools && Shape(s.ctl.pools[net], s'.ctl.pools[net])
  {
    hide CtlOk, PoolStep, AllocateExit, Frees, Shape, OnChangeExit, OnRemoveExit, StaleRecords;
    SameShape(s.ctl.pools[net]);
    if gone == [] && QuietStep(s, s') {
      if key :| WrappedExit(AllocateKind, s, key, s') {
        var r :| HandlerExit(AllocateKind, s.ctl, s.cfgs[key], s'.ctl, r);
        AllocateShape(services, s.ctl, s.cfgs[key], s'.ctl, r, net);
      } else if PoolStep(s.ctl, s'.ctl) {
        PoolStepShape(services, s.ctl, s'.ctl, net);
      }
    } else if key :| SyncStep(s, key, gone, s') {
      ReleaseShape(s.ctl, StaleRecords(s.cfgs[key]), gone, s'.ctl, net);
    } else if key :| ChangeStep(s, key, gone, s') {
      ReleaseShape(s.ctl, s.cfgs[key].status.records, gone, s'.ctl, net);
    } else {
      var key :| RemoveStep(s, key, gone, s');
      ReleaseShape(s.ctl, s.cfgs[key].status.records, gone, s'.ctl, net);
    }
  }

  /** In no run does a step give a recorded address to another MAC. */
  lemma RunsNeverRebind(services: CidrText, tr: seq<Sys>, gone: seq<seq<NcStatus>>, i: nat, net: NetName)
    requires Run(services, tr, gone) && i < |gone| && net in tr[i].ctl.pools
    ensures net in tr[i + 1].ctl.pools
    ensures NoRebind(MacsOfPool(tr[i].ctl.pools[net]), MacsOfPool(tr[i + 1].ctl.pools[net]))
  {
    hide CtlOk, Step, Fresh, MacsOfPool;
    EveryRunOk(services, tr, gone, i);
    StepShape(services, tr[i], gone[i], tr[i + 1], net);
  }

  // ---------------------------------------------------------------- any delivery order

  /** Controller, agent of one pool, and every version of that pool the agent may still be handed. */
  datatype World = World(ctl: Ctl, seen: set<Pool>, agent: AgentState)

  /** Update on one snapshot, at any of its exits. */
  ghost predicate DeliverExit(s: AgentState, p: Pool, leaseTime: Option<int>, s': AgentState,
                              r: Result<(), LeaseError>) {
    if p.cacheReady != True || p.ipv4.None? then s' == s && r.Ok?
    else UpdateExit(s, MacsOfPool(p), p.config, leaseTime, s', r)
  }

  /** The controller takes any step at all; or the agent is handed any version, stale ones included, that
      rebinds none of its addresses; or the agent restarts. */
  ghost predicate WorldStep(net: NetName, w: World, w': World) {
    || (FreeStep(w.ctl, w'.ctl) && w'.agent == w.agent
        && net in w'.ctl.pools && w'.seen == w.seen + {w'.ctl.pools[net]})
    || (w'.ctl == w.ctl && w'.seen == w.seen && Delivered(w, w'.agent))
    || w' == w.(agent := AgentState(map[], map[]))
  }

  ghost predicate Delivered(w: World, agent: AgentState) {
    exists p, leaseTime, r ::
      p in w.seen && NoRebind(w.agent.poolCache, MacsOfPool(p)) && DeliverExit(w.agent, p, leaseTime, agent, r)
  }

  ghost predicate WorldRun(services: CidrText, net: NetName, tr: seq<World>) {
    && |tr| > 0 && Fresh(services, tr[0].ctl) && net in tr[0].ctl.pools
    && tr[0].seen == {tr[0].ctl.pools[net]} && tr[0].agent == AgentState(map[], map[])
    && forall i :: 0 <= i < |tr| - 1 ==> WorldStep(net, tr[i], tr[i + 1])
  }

  ghost predicate WorldOk(services: CidrText, net: NetName, config: PoolConfig, w: World) {
    && Fits(services, w.ctl) && net in w.ctl.pools && w.ctl.pools[net].config == config
    && (forall p :: p in w.seen ==> PoolFits(services, p) && p.config == config)
    && Agree(w.agent) && Sound(services, config)
    && forall a :: a in w.agent.poolCache ==> a in Pooled(config)
  }

  lemma SnapshotWithin(services: CidrText, p: Pool)
    requires PoolFits(services, p)
    ensures forall a :: a in MacsOfPool(p) ==> a in Pooled(p.config)
  {
    hide Sound, Pooled;
    assert MacsOfPool(p).Keys == MacAddrs(RecordsOf(p));
  }

  lemma WorldStepOk(services: CidrText, net: NetName, config: PoolConfig, w: World, w': World)
    requires WorldOk(services, net, config, w) && WorldStep(net, w, w')
    ensures WorldOk(services, net, config, w')
  {
    hide Fits, FreeStep, PoolFits, Agree, Sound, UpdateExit, MacsOfPool, NoRebind, Pooled;
    if FreeStep(w.ctl, w'.ctl) && w'.agent == w.agent && net in w'.ctl.pools
        && w'.seen == w.seen + {w'.ctl.pools[net]} {
      FreeStepFits(services, w.ctl, w'.ctl);
      PoolOfCtl(services, w'.ctl, net);
    } else if w'.ctl == w.ctl && w'.seen == w.seen && Delivered(w, w'.agent) {
      var p, leaseTime, r :| p in w.seen && NoRebind(w.agent.poolCache, MacsOfPool(p))
                             && DeliverExit(w.agent, p, leaseTime, w'.agent, r);
      if w'.agent != w.agent {
        SnapshotWithin(services, p);
        EveryExitAgrees(w.agent, MacsOfPool(p), p.config, leaseTime, w'.agent, r);
      }
    } else {
      EmptyAgrees();
    }
  }

  lemma EmptyAgrees()
    ensures Agree(AgentState(map[], map[]))
  {
  }

  lemma {:induction false} EveryWorldOk(services: CidrText, net: NetName, tr: seq<World>, i: nat)
    requires WorldRun(services, net, tr) && i < |tr|
    ensures WorldOk(services, net, tr[0].ctl.pools[net].config, tr[i])
  {
    hide Fits, WorldStep, Agree, Sound;
    if i == 0 {
      FreshFits(services, tr[0].ctl);
      PoolOfCtl(services, tr[0].ctl, net);
      EmptyAgrees();
    } else {
      EveryWorldOk(services, net, tr, i - 1);
      WorldStepOk(services, net, tr[0].ctl.pools[net].config, tr[i - 1], tr[i - 1 + 1]);
    }
  }

  /** Two different clients are never answered with the same address (section 4.3 of RFC 2131), and no
      client with the network, broadcast, server, router or an excluded address. */
  lemma RepliesAreSound(services: CidrText, net: NetName, tr: seq<World>, i: nat, hw: Mac, a: Addr)
    requires WorldRun(services, net, tr) && i < |tr| && AnswerFor(tr[i].agent.leases, hw) == Some(a)
    ensures forall other :: AnswerFor(tr[i].agent.leases, other) == Some(a) ==> other == hw
    ensures var p := tr[0].ctl.pools[net].config;
      && p.cidr.Cidr? && Network(p.cidr) < a < Broadcast(p.cidr)
      && Ip(a) != p.server && Ip(a) != p.router && Ip(a) !in p.exclude
  {
    hide Fits, WorldStep, PoolFits, Fresh, Network, Broadcast, Disjoint;
    EveryWorldOk(services, net, tr, i);
    PooledIsClean(services, tr[0].ctl.pools[net].config, a);
  }

  // ---------------------------------------------------------------- an agent that misses nothing

  /** The agent is handed the pool after every step of the controller, and its updates succeed. */
  ghost predicate Lockstep(services: CidrText, net: NetName, tr: seq<Sys>, gone: seq<seq<NcStatus>>,
                           agents: seq<AgentState>) {
    && Run(services, tr, gone) && |agents| == |tr| && net in tr[0].ctl.pools && agents[0] == AgentState(map[], map[])
    && forall i :: 0 <= i < |tr| - 1 ==> Follows(net, tr[i + 1], agents[i], agents[i + 1])
  }

  ghost predicate Follows(net: NetName, s: Sys, agent: AgentState, agent': AgentState) {
    net in s.ctl.pools && exists leaseTime :: DeliverExit(agent, s.ctl.pools[net], leaseTime, agent', Ok(()))
  }

  /** What such an agent holds: exactly the recorded MACs while the pool is ready, and no less otherwise. */
  ghost predicate InStep(agent: AgentState, p: Pool) {
    && Agree(agent) && Submap(MacsOfPool(p), agent.poolCache)
    && (p.ipv4.None? ==> agent.poolCache == map[])
    && (p.ipv4.Some? && p.cacheReady == True ==> agent.poolCache == MacsOfPool(p))
  }

  lemma SubmapTrans(x: map<Addr, Mac>, y: map<Addr, Mac>, z: map<Addr, Mac>)
    requires Submap(x, y) && Submap(y, z)
    ensures Submap(x, z)
  {
  }

  lemma NoStatusNoMacs(p: Pool)
    requires p.ipv4.None?
    ensures MacsOfPool(p) == map[]
  {
  }

  lemma FollowOk(p: Pool, q: Pool, agent: AgentState, leaseTime: Option<int>, agent': AgentState)
    requires InStep(agent, p) && Shape(p, q) && DeliverExit(agent, q, leaseTime, agent', Ok(()))
    ensures InStep(agent', q)
  {
    hide Agree, UpdateExit, MacsOfPool;
    if p.ipv4.None? { NoStatusNoMacs(p); }
    if q.ipv4.None? { NoStatusNoMacs(q); }
    if Submap(MacsOfPool(q), MacsOfPool(p)) {
      SubmapTrans(MacsOfPool(q), MacsOfPool(p), agent.poolCache);
    }
    if q.cacheReady == True && q.ipv4.Some? {
      UpdateRefines(agent, MacsOfPool(q), q.config, leaseTime, agent');
    }
  }

  lemma {:induction false} LockstepOk(services: CidrText, net: NetName, tr: seq<Sys>, gone: seq<seq<NcStatus>>,
                                      agents: seq<AgentState>, i: nat)
    requires Lockstep(services, net, tr, gone, agents) && i < |tr|
    ensures net in tr[i].ctl.pools && InStep(agents[i], tr[i].ctl.pools[net])
  {
    hide CtlOk, Step, InStep, DeliverExit, Shape;
    if i == 0 {
      LockstepStart(services, net, tr[0].ctl);
    } else {
      LockstepOk(services, net, tr, gone, agents, i - 1);
      EveryRunOk(services, tr, gone, i - 1);
      assert Step(tr[i - 1], gone[i - 1], tr[i - 1 + 1]);
      assert Follows(net, tr[i - 1 + 1], agents[i - 1], agents[i - 1 + 1]);
      StepShape(services, tr[i - 1], gone[i - 1], tr[i], net);
      var leaseTime :| DeliverExit(agents[i - 1], tr[i].ctl.pools[net], leaseTime, agents[i], Ok(()));
      FollowOk(tr[i - 1].ctl.pools[net], tr[i].ctl.pools[net], agents[i - 1], leaseTime, agents[i]);
    }
  }

  lemma LockstepStart(services: CidrText, net: NetName, c: Ctl)
    requires Fresh(services, c) && net in c.pools
    ensures InStep(AgentState(map[], map[]), c.pools[net])
  {
    hide Sound;
    EmptyAgrees();
    NoStatusNoMacs(c.pools[net]);
  }

  /** Without any guard on rebinding: while its pool is ready, such an agent answers a client with an
      address exactly when the pool status records it for that client. */
  lemma LockstepAnswersExactly(services: CidrText, net: NetName, tr: seq<Sys>, gone: seq<seq<NcStatus>>,
                               agents: seq<AgentState>, i: nat, hw: Mac, a: Addr)
    requires Lockstep(services, net, tr, gone, agents) && i < |tr|
    requires net in tr[i].ctl.pools && tr[i].ctl.pools[net].cacheReady == True && tr[i].ctl.pools[net].ipv4.Some?
    ensures AnswerFor(agents[i].leases, hw) == Some(a) <==> RecordedFor(tr[i].ctl.pools[net], a, hw)
  {
    hide Run, Follows;
    LockstepOk(services, net, tr, gone, agents, i);
    RecordedByMacsAt(tr[i].ctl.pools[net], a, hw);
  }
}

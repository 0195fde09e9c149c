/** Runs from freshly admitted pools into the states in which the code goes wrong: why a run has to have
    guards, and that the states in question are reached. */
module Witnesses {
  import opened Basics
  import opened Prefix
  import opened Admission
  import opened Ipam
  import opened Stores
  import opened VmNetCfg
  import opened PoolControl
  import opened Agreement
  import opened PoolLaws
  import opened FreeRuns
  import opened Invariant
  import opened Retries
  import opened Runs
  import opened Recovery
  import opened Sticky
  import opened MovedNics
  import opened Reachability

  // ---------------------------------------------------------------- reachable states

  /** Some guarded run ends here. */
  ghost predicate Reachable(services: CidrText, s: Sys) {
    exists tr, gone :: EndsIn(services, tr, gone, s)
  }

  ghost predicate EndsIn(services: CidrText, tr: seq<Sys>, gone: seq<seq<NcStatus>>, s: Sys) {
    Run(services, tr, gone) && tr[|gone|] == s
  }

  lemma ReachableStep(services: CidrText, s: Sys, g: seq<NcStatus>, s': Sys)
    requires Reachable(services, s) && Step(s, g, s')
    ensures Reachable(services, s')
  {
    hide Step, Fresh;
    var tr, gone :| EndsIn(services, tr, gone, s);
    forall i | 0 <= i < |gone + [g]| ensures Step((tr + [s'])[i], (gone + [g])[i], (tr + [s'])[i + 1]) {
      if i < |gone| { assert Step(tr[i], gone[i], tr[i + 1]); }
    }
    assert EndsIn(services, tr + [s'], gone + [g], s');
  }

  lemma ReachableOk(services: CidrText, s: Sys)
    requires Reachable(services, s)
    ensures CtlOk(services, s.ctl)
  {
    hide Run, CtlOk;
    var tr, gone :| EndsIn(services, tr, gone, s);
    assert |tr| == |gone| + 1 by { RunShape(services, tr, gone); }
    EveryRunOk(services, tr, gone, |gone|);
  }

  lemma Edit(services: CidrText, s: Sys, key: Key, cfg: Cfg)
    requires Reachable(services, s)
    requires cfg.status.records == (if key in s.cfgs then s.cfgs[key].status.records else [])
    ensures Reachable(services, s.(cfgs := s.cfgs[key := cfg]))
  {
    hide Reachable;
    var s' := s.(cfgs := s.cfgs[key := cfg]);
    assert Edited(s.cfgs, key, cfg, s'.cfgs);
    assert EditStep(s, s') && QuietStep(s, s');
    ReachableStep(services, s, [], s');
  }

  /** The pool side moves. */
  lemma PoolMoves(services: CidrText, s: Sys, c': Ctl)
    requires Reachable(services, s) && PoolStep(s.ctl, c')
    ensures Reachable(services, s.(ctl := c'))
  {
    hide Reachable, PoolStep;
    assert QuietStep(s, s.(ctl := c'));
    ReachableStep(services, s, [], s.(ctl := c'));
  }

  function AfterServing(s: Sys, key: Key, c': Ctl, outs: seq<NcStatus>): Sys
    requires key in s.cfgs
  {
    var cfg := s.cfgs[key];
    Sys(c', s.cfgs[key := cfg.(status := StatusAfter(AllocateKind, cfg.status, Ok(outs)))])
  }

  lemma Serve(services: CidrText, s: Sys, key: Key, c': Ctl, outs: seq<NcStatus>)
    requires Reachable(services, s) && key in s.cfgs && AllocateExit(s.ctl, s.cfgs[key], c', Ok(outs))
    ensures Reachable(services, AfterServing(s, key, c', outs))
  {
    hide Reachable, AllocateExit;
    assert HandlerExit(AllocateKind, s.ctl, s.cfgs[key], c', Ok(outs));
    assert WrappedExit(AllocateKind, s, key, AfterServing(s, key, c', outs));
    assert QuietStep(s, AfterServing(s, key, c', outs));
    ReachableStep(services, s, [], AfterServing(s, key, c', outs));
  }

  // ---------------------------------------------------------------- one record cleaned up

  function Cleaned(c: Ctl, r: NcStatus): Ctl
    requires Holds(c.ipam, r.net, r.ip) && r.net in c.cache && r.net in c.pools && c.pools[r.net].ipv4.Some?
  {
    Erased(Released(c, r), r)
  }

  lemma CleansOne(c: Ctl, r: NcStatus)
    requires Holds(c.ipam, r.net, r.ip) && r.net in c.cache && r.net in c.pools && c.pools[r.net].ipv4.Some?
    ensures CleanupUpTo(c, [r], 1, Cleaned(c, r), None) && CleanupExit(c, [r], Cleaned(c, r), None)
  {
    hide Erased, Released;
    assert Init([r]) == [] && Last([r]) == r;
    assert CleanupAll(c, Init([r]), c) && CleanupOne(c, Last([r]), Cleaned(c, r), None);
  }

  function PausedObject(s: Sys, key: Key, c': Ctl): Sys
    requires key in s.cfgs
  {
    Sys(c', s.cfgs[key := s.cfgs[key].(status := StatusOnChange(s.cfgs[key]))])
  }

  /** OnChange of a paused object with one record, every write landing. */
  lemma CleansPaused(s: Sys, key: Key, r: NcStatus)
    requires key in s.cfgs && s.cfgs[key].paused && s.cfgs[key].status.records == [r]
    requires Holds(s.ctl.ipam, r.net, r.ip) && r.net in s.ctl.cache
    requires r.net in s.ctl.pools && s.ctl.pools[r.net].ipv4.Some?
    ensures OnChangeExit(s, key, PausedObject(s, key, Cleaned(s.ctl, r)))
    ensures Current(s.ctl, r) ==> Step(s, [r], PausedObject(s, key, Cleaned(s.ctl, r)))
  {
    hide Cleaned, CleanupUpTo, CleanupExit, Current;
    var s' := PausedObject(s, key, Cleaned(s.ctl, r));
    CleansOne(s.ctl, r);
    if Current(s.ctl, r) {
      assert Releases(s.ctl, [r], [r], s'.ctl);
      assert ChangeStep(s, key, [r], s');
    }
  }

  // ---------------------------------------------------------------- a second cleanup

  lemma CleanedFrees(services: CidrText, c: Ctl, r: NcStatus)
    requires CtlOk(services, c) && Durable(c, r) && r.net in c.ipam
    ensures Holds(c.ipam, r.net, r.ip) && r.net in c.cache && r.net in c.pools && c.pools[r.net].ipv4.Some?
    ensures var d := Cleaned(c, r);
      && r.net in d.ipam && r.net in d.cache && r.net in d.pools && d.pools[r.net].ipv4.Some?
      && d.ipam[r.net] == c.ipam[r.net].(ips := c.ipam[r.net].ips[r.ip.addr := false])
      && d.cache[r.net] == c.cache[r.net] - {r.mac} && d.pools[r.net].cacheReady == c.pools[r.net].cacheReady
  {
    hide CtlOk;
    RecordIsManaged(services, c, r);
  }

  /** A single NIC is served a free address. */
  lemma ServesOne(c: Ctl, cfg: Cfg, nc: NetworkConfig, a: Addr) returns (c': Ctl)
    requires cfg.configs == [nc] && !cfg.paused && cfg.status.inSynced != False && cfg.status.records == []
    requires nc.net in c.pools && c.pools[nc.net].cacheReady == True && nc.net in c.cache && nc.mac !in c.cache[nc.net]
    requires CanTake(c.ipam, nc.net, nc.ip, a)
    ensures AllocateExit(c, cfg, c', Ok([Published(nc, a)])) && c' == Entered(Taken(c, nc, a), nc, a)
  {
    hide AllocateOne, AllocateAll, CanTake;
    c' := RoundCanTake(c, nc, [], a);
    NoRounds(c, []);
    OneRoundMore(c, [], [], c, [], nc, c', Published(nc, a));
    assert [] + [nc] == [nc] && [] + [Published(nc, a)] == [Published(nc, a)];
  }

  lemma AllocateDurable(services: CidrText, s: Sys, key: Key, c': Ctl, outs: seq<NcStatus>)
    requires Reachable(services, s) && key in s.cfgs && AllocateExit(s.ctl, s.cfgs[key], c', Ok(outs))
    ensures CtlOk(services, c') && AllDurable(c', outs)
  {
    hide Reachable, CtlOk, AllocateExit, AllDurable;
    ReachableOk(services, s);
    AllocateOk(services, s.ctl, s.cfgs[key], c', Ok(outs));
  }

  /** The pool is served to `m` at `a`, and nothing else. */
  lemma ServedState(services: CidrText, net: NetName, p: PoolConfig, key: Key, m: Mac, a: Addr) returns (s: Sys)
    requires Sound(services, p) && a in Pooled(p)
    ensures Reachable(services, s) && net in s.ctl.pools && s.ctl.pools[net].cacheReady == True
    ensures net in s.ctl.ipam && net in s.ctl.cache && s.ctl.cache[net] == map[m := a]
    ensures s.cfgs == map[key := Wanted(net, m).(status :=
              CfgStatus([Published(NetworkConfig(net, m, Unset), a)], True, Absent, Absent))]
    ensures Durable(s.ctl, Published(NetworkConfig(net, m, Unset), a))
  {
    hide Sound, Pooled, Buildable, Loaded, Run;
    var tr := ServingRun(services, net, p, key, m, a);
    s := AllServed(net, p, key, m, a);
    var gone: seq<seq<NcStatus>> := [[], [], []];
    assert EndsIn(services, tr, gone, s);
  }

  /** The paused object has given up its address. */
  lemma PausedState(services: CidrText, net: NetName, p: PoolConfig, key: Key, m: Mac, a: Addr) returns (s: Sys)
    requires Sound(services, p) && a in Pooled(p)
    ensures Reachable(services, s) && net in s.ctl.pools && s.ctl.pools[net].cacheReady == True
    ensures net in s.ctl.cache && s.ctl.cache[net] == map[] && CanTake(s.ctl.ipam, net, Unset, a)
    ensures s.cfgs.Keys == {key} && s.cfgs[key].paused
    ensures s.cfgs[key].status.records == [NcStatus(Ip(a), m, net, PendingState)]
  {
    hide Sound, Pooled, Reachable, CtlOk, Cleaned, RecordedFor;
    var r := Published(NetworkConfig(net, m, Unset), a);
    var s0 := ServedState(services, net, p, key, m, a);
    var s1 := s0.(cfgs := s0.cfgs[key := s0.cfgs[key].(paused := true)]);
    Edit(services, s0, key, s0.cfgs[key].(paused := true));
    ReachableOk(services, s1);
    CleanedFrees(services, s1.ctl, r);
    DurableIsCurrent(services, s1.ctl, r);
    CleansPaused(s1, key, r);
    s := PausedObject(s1, key, Cleaned(s1.ctl, r));
    ReachableStep(services, s1, [r], s);
    assert Suspended([r]) == [NcStatus(Ip(a), m, net, PendingState)];
  }

  lemma OthersAddress(services: CidrText, c: Ctl, r: NcStatus, m: Mac)
    requires CtlOk(services, c) && Durable(c, r) && r.net in c.ipam && m != r.mac
    ensures !Current(c, r.(mac := m))
  {
    hide CtlOk, RecordedFor;
    RecordIsManaged(services, c, r);
    assert Recorded(c, TicketOf(r));
    RecordedIsCached(services, c, TicketOf(r));
    assert c.cache[r.net][r.mac] in c.cache[r.net].Values;
  }

  /** Cleaning up a record of `m` at an address that is recorded for another MAC. */
  lemma CleanupTakesAddress(services: CidrText, c: Ctl, r: NcStatus, q: NcStatus)
    requires CtlOk(services, c) && Durable(c, r) && r.net in c.ipam
    requires q.net == r.net && q.ip == r.ip && q.mac != r.mac
    ensures Holds(c.ipam, q.net, q.ip) && q.net in c.cache && q.net in c.pools && c.pools[q.net].ipv4.Some?
    ensures !Consistent(Cleaned(c, q)) && !Durable(Cleaned(c, q), r)
  {
    hide CtlOk, Consistent, Current, Durable, Cleaned;
    RecordIsManaged(services, c, r);
    CtlConsistent(services, c);
    CleansOne(c, q);
    OthersAddress(services, c, r, q.mac);
    CurrentIgnoresState(c, r.(mac := q.mac), q);
    var m :| CleanupAll(c, Init([q]), m) && CleanupOne(m, Last([q]), Cleaned(c, q), None);
    assert Init([q]) == [] && m == c && Last([q]) == q;
    CleanupOneConsistentExactly(c, q, Cleaned(c, q), None);
    DurableSurvivesExactly(c, [q], 1, Cleaned(c, q), None, r);
    assert q in [q][..1];
  }

  lemma CurrentIgnoresState(c: Ctl, r: NcStatus, q: NcStatus)
    requires r.net == q.net && r.ip == q.ip && r.mac == q.mac
    ensures Current(c, r) <==> Current(c, q)
  {
  }

  /** OnChange cleans up a paused object again on every change. From any admitted pool a run leads to a state
      in which the address of a paused object has gone to another one; the next OnChange of the paused
      object, with every write landing, takes it away: memory no longer agrees, and the address is still
      published but not recorded. */
  lemma SecondCleanupTakesAddress(services: CidrText, net: NetName, p: PoolConfig, a: Addr, m: Mac, n: Mac,
                                  first: Key, second: Key) returns (s: Sys, s': Sys, r: NcStatus)
    requires Sound(services, p) && a in Pooled(p) && m != n && first != second
    ensures Reachable(services, s) && second in s.cfgs && second in s'.cfgs
    ensures s.cfgs[second].status.records == [r] && r == NcStatus(Ip(a), n, net, AllocatedState)
    ensures Consistent(s.ctl) && Durable(s.ctl, r)
    ensures OnChangeExit(s, first, s') && s'.cfgs[second] == s.cfgs[second]
    ensures !Consistent(s'.ctl) && !Durable(s'.ctl, r)
  {
    hide Sound, Pooled, Reachable, CtlOk, Consistent, Cleaned, Durable, OnChangeExit, AllocateExit, CanTake;
    var nc := NetworkConfig(net, n, Unset);
    var s0 := PausedState(services, net, p, first, m, a);
    Edit(services, s0, second, Wanted(net, n));
    var s1 := s0.(cfgs := s0.cfgs[second := Wanted(net, n)]);
    var c := ServesOne(s1.ctl, s1.cfgs[second], nc, a);
    Serve(services, s1, second, c, [Published(nc, a)]);
    AllocateDurable(services, s1, second, c, [Published(nc, a)]);
    s := AfterServing(s1, second, c, [Published(nc, a)]);
    r := Published(nc, a);
    assert [r][0] == r;
    CtlConsistent(services, c);
    InMemory(s1.ctl, net, a);
    TakenStays(s1.ctl, s1.cfgs[second], c, [r], net);
    var q := NcStatus(Ip(a), m, net, PendingState);
    CleanupTakesAddress(services, c, r, q);
    CleansPaused(s, first, q);
    s' := PausedObject(s, first, Cleaned(c, q));
  }

  /** Allocate drops no network from memory. */
  lemma TakenStays(c: Ctl, cfg: Cfg, c': Ctl, outs: seq<NcStatus>, net: NetName)
    requires AllocateExit(c, cfg, c', Ok(outs)) && net in c.ipam
    ensures net in c'.ipam
  {
    hide AllocateExit, GrownMacs, GrownRecords, Matches;
    AllocateGrows(c, cfg, c', Ok(outs));
  }

  // ---------------------------------------------------------------- an interrupted removal

  function BuiltCtl(c: Ctl, net: NetName): Ctl
    requires net in c.pools && Buildable(c.pools[net].config.cidr, c.pools[net].config.start, c.pools[net].config.end)
  {
    var p := c.pools[net];
    Ctl(c.ipam[net := Loaded(p.config, {})], c.cache[net := map[]], c.pools[net := p.(cacheReady := True)])
  }

  lemma Builds(services: CidrText, s: Sys, net: NetName)
    requires Reachable(services, s) && net in s.ctl.pools && Sound(services, s.ctl.pools[net].config)
    requires s.ctl.pools[net] == FreshPool(s.ctl.pools[net].config)
    ensures var p := s.ctl.pools[net].config; Buildable(p.cidr, p.start, p.end)
    ensures Reachable(services, s.(ctl := BuiltCtl(s.ctl, net)))
  {
    hide Reachable, Sound, Buildable, Loaded, Pooled;
    var c, p := s.ctl, s.ctl.pools[net].config;
    AdmittedIsBuildable(services, p);
    var d := c.(ipam := c.ipam[net := Loaded(p, {})], cache := c.cache[net := map[]]);
    assert MacAddrs(RecordsOf(c.pools[net])) == {};
    assert RebuiltTo(c, net, {}, map[], d);
    assert BuildExit(c, net, d, Ok(()));
    assert BuildStep(c, net, BuiltCtl(c, net));
    assert PoolStep(c, BuiltCtl(c, net));
    PoolMoves(services, s, BuiltCtl(c, net));
  }

  lemma BuiltIsFree(c: Ctl, net: NetName, a: Addr)
    requires net in c.pools && Buildable(c.pools[net].config.cidr, c.pools[net].config.start, c.pools[net].config.end)
    requires a in Pooled(c.pools[net].config)
    ensures CanTake(BuiltCtl(c, net).ipam, net, Unset, a)
  {
    hide Buildable, Built, Pooled;
    LoadedUsed(c.pools[net].config, {});
  }

  /** An object with a NIC on each of two pools, both in memory. */
  lemma TwoPools(services: CidrText, key: Key, first: NetworkConfig, p: PoolConfig, a: Addr,
                 second: NetworkConfig, q: PoolConfig, b: Addr) returns (s: Sys)
    requires Sound(services, p) && Sound(services, q) && a in Pooled(p) && b in Pooled(q) && first.net != second.net
    ensures Reachable(services, s) && first.net in s.ctl.pools && second.net in s.ctl.pools
    ensures s.ctl.pools[first.net].cacheReady == True && s.ctl.pools[second.net].cacheReady == True
    ensures s.ctl.pools[first.net].config == p && s.ctl.pools[second.net].config == q
    ensures first.net in s.ctl.cache && s.ctl.cache[first.net] == map[]
    ensures second.net in s.ctl.cache && s.ctl.cache[second.net] == map[]
    ensures CanTake(s.ctl.ipam, first.net, Unset, a) && CanTake(s.ctl.ipam, second.net, Unset, b)
    ensures s.cfgs == map[key := Cfg([first, second], false, CfgStatus([], Absent, Absent, Absent))]
  {
    hide Sound, Pooled, Buildable, Loaded, Step;
    var cfg := Cfg([first, second], false, CfgStatus([], Absent, Absent, Absent));
    var s0 := Sys(Ctl(map[], map[], map[first.net := FreshPool(p), second.net := FreshPool(q)]), map[]);
    assert EndsIn(services, [s0], [], s0);
    Edit(services, s0, key, cfg);
    var s1 := s0.(cfgs := s0.cfgs[key := cfg]);
    Builds(services, s1, first.net);
    BuiltIsFree(s1.ctl, first.net, a);
    var s2 := s1.(ctl := BuiltCtl(s1.ctl, first.net));
    Builds(services, s2, second.net);
    BuiltIsFree(s2.ctl, second.net, b);
    s := s2.(ctl := BuiltCtl(s2.ctl, second.net));
  }

  /** Both NICs are served. */
  lemma ServesTwo(c: Ctl, cfg: Cfg, first: NetworkConfig, a: Addr, second: NetworkConfig, b: Addr) returns (c': Ctl)
    requires cfg == Cfg([first, second], false, CfgStatus([], Absent, Absent, Absent))
    requires first.net != second.net && first.ip == Unset && second.ip == Unset
    requires first.net in c.pools && c.pools[first.net].cacheReady == True
    requires second.net in c.pools && c.pools[second.net].cacheReady == True
    requires first.net in c.cache && c.cache[first.net] == map[]
    requires second.net in c.cache && c.cache[second.net] == map[]
    requires CanTake(c.ipam, first.net, Unset, a) && CanTake(c.ipam, second.net, Unset, b)
    ensures AllocateExit(c, cfg, c', Ok([Published(first, a), Published(second, b)]))
    ensures c'.ipam.Keys == c.ipam.Keys
  {
    hide AllocateOne, AllocateAll, WithRecord;
    var m := RoundCanTake(c, first, [], a);
    c' := RoundCanTake(m, second, [], b);
    NoRounds(c, []);
    OneRoundMore(c, [], [], c, [], first, m, Published(first, a));
    OneRoundMore(c, [] + [first], [], m, [] + [Published(first, a)], second, c', Published(second, b));
    assert [] + [first] + [second] == cfg.configs;
    assert [] + [Published(first, a)] + [Published(second, b)] == [Published(first, a), Published(second, b)];
  }

  /** A pool with a deployed agent is paused, and its network leaves memory. */
  lemma PausesPool(services: CidrText, s: Sys, net: NetName) returns (s': Sys)
    requires Reachable(services, s) && net in s.ctl.pools
    ensures Reachable(services, s') && s'.cfgs == s.cfgs && s'.ctl.ipam == s.ctl.ipam - {net}
    ensures s'.ctl.pools.Keys == s.ctl.pools.Keys && s'.ctl.pools - {net} == s.ctl.pools - {net}
  {
    hide Reachable, Refreshed;
    var q := s.ctl.pools[net].(paused := true, agentPod := true);
    var c := s.ctl.(pools := s.ctl.pools[net := q]);
    assert Touched(s.ctl, net, q, c);
    assert PoolStep(s.ctl, c);
    PoolMoves(services, s, c);
    var d := Dropped(c, net);
    assert BeforeWrite(c, net, d, true);
    assert PoolOnChangeExit(c, net, d);
    assert PoolStep(c, d);
    PoolMoves(services, s.(ctl := c), d);
    s' := s.(ctl := d);
  }

  lemma StillDurable(c: Ctl, c': Ctl, net: NetName, r: NcStatus)
    requires Durable(c, r) && r.net != net && c'.pools.Keys == c.pools.Keys && c'.pools - {net} == c.pools - {net}
    ensures Durable(c', r)
  {
    assert (c'.pools - {net})[r.net] == (c.pools - {net})[r.net];
  }

  /** From any two admitted pools a run leads to a removal that stops half way although every write lands:
      one address is released and stays published. */
  lemma InterruptionIsReached(services: CidrText, key: Key, here: NetName, p: PoolConfig, a: Addr, m: Mac,
                              there: NetName, q: PoolConfig, b: Addr, n: Mac) returns (s: Sys, s': Sys, r: NcStatus)
    requires Sound(services, p) && Sound(services, q) && a in Pooled(p) && b in Pooled(q) && here != there
    ensures Reachable(services, s) && r == NcStatus(Ip(a), m, here, AllocatedState)
    ensures key in s.cfgs && RemoveStep(s, key, [r], s') && s'.cfgs == s.cfgs
    ensures r in s'.cfgs[key].status.records && Durable(s.ctl, r) && !Durable(s'.ctl, r)
  {
    hide Sound, Pooled, Reachable, CtlOk, Durable, RemoveStep, AllocateExit, CanTake;
    var first, second := NetworkConfig(here, m, Unset), NetworkConfig(there, n, Unset);
    var s0 := TwoPools(services, key, first, p, a, second, q, b);
    var c := ServesTwo(s0.ctl, s0.cfgs[key], first, a, second, b);
    var outs := [Published(first, a), Published(second, b)];
    Serve(services, s0, key, c, outs);
    AllocateDurable(services, s0, key, c, outs);
    var s1 := AfterServing(s0, key, c, outs);
    r := outs[0];
    assert here in c.ipam && there in c.pools by { InMemory(s0.ctl, here, a); DurableHasAddress(c, outs[1]); }
    s := PausesPool(services, s1, there);
    StillDurable(c, s.ctl, there, r);
    ReachableOk(services, s);
    s' := InterruptedRemoval(services, s, key, r, outs[1]);
  }

  // ---------------------------------------------------------------- a moved NIC

  lemma UncachedIsCleared(services: CidrText, c: Ctl, net: NetName, mac: Mac)
    requires CtlOk(services, c) && net in c.ipam && net in c.cache && mac !in c.cache[net]
    ensures Cleared(c, net, mac)
  {
    hide CtlOk, RecordedFor;
    forall x ensures !Recorded(c, Ticket(net, x, mac)) {
      if Recorded(c, Ticket(net, x, mac)) { RecordedIsCached(services, c, Ticket(net, x, mac)); }
    }
  }

  lemma ServedConfigs(services: CidrText, s: Sys, key: Key, c': Ctl, outs: seq<NcStatus>)
    requires Reachable(services, s) && key in s.cfgs && AllocateExit(s.ctl, s.cfgs[key], c', Ok(outs))
    ensures SameConfigs(s.ctl, c')
  {
    hide Reachable, AllocateExit, CtlOk, Fits, SameConfigs;
    ReachableOk(services, s);
    OkFits(services, s.ctl);
    AllocateFits(services, s.ctl, s.cfgs[key], c', Ok(outs));
  }

  /** From any two admitted pools a run leads to a moved NIC that Allocate can never serve: its old address
      is not one of the new pool. */
  lemma MovedNicIsReached(services: CidrText, key: Key, there: NetName, p: PoolConfig, a: Addr, m: Mac,
                          here: NetName, q: PoolConfig, b: Addr) returns (s: Sys)
    requires Sound(services, p) && Sound(services, q) && a in Pooled(p) && b in Pooled(q) && here != there
    requires a !in Pooled(q)
    ensures Reachable(services, s) && Stuck(services, s, key, here, m, a) && OnlyAskedBy(s.cfgs, key, here, m)
  {
    hide Sound, Pooled, Reachable, CtlOk, Durable, AllocateExit, CanTake, Cleared;
    var before, after := NetworkConfig(there, m, Unset), NetworkConfig(here, m, Unset);
    var s0 := TwoPools(services, key, before, p, a, after, q, b);
    ReachableOk(services, s0);
    InMemory(s0.ctl, here, b);
    UncachedIsCleared(services, s0.ctl, here, m);
    PooledIsClean(services, p, a);
    var cfg := s0.cfgs[key].(configs := [before]);
    Edit(services, s0, key, cfg);
    var s1 := s0.(cfgs := s0.cfgs[key := cfg]);
    var c := ServesOne(s1.ctl, cfg, before, a);
    Serve(services, s1, key, c, [Published(before, a)]);
    ServedConfigs(services, s1, key, c, [Published(before, a)]);
    AllocateStaysCleared(s1.ctl, cfg, c, Ok([Published(before, a)]), here, m);
    var s2 := AfterServing(s1, key, c, [Published(before, a)]);
    var moved := s2.cfgs[key].(configs := [after]);
    Edit(services, s2, key, moved);
    s := s2.(cfgs := s2.cfgs[key := moved]);
    ReachableOk(services, s);
    assert moved.configs[0] == after;
  }

  lemma InMemory(c: Ctl, net: NetName, a: Addr)
    requires CanTake(c.ipam, net, Unset, a)
    ensures net in c.ipam
  {
  }
}

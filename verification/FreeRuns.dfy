/** Runs without any guard: handlers act on whatever objects they hold, any of their API writes may be
    lost, and they may stop anywhere. What memory and pools hold still stays inside each pool. */
module FreeRuns {
  import opened Basics
  import opened Prefix
  import opened Admission
  import opened Ipam
  import opened Stores
  import opened VmNetCfg
  import opened PoolControl
  import opened Agent
  import opened PoolLaws

  // ---------------------------------------------------------------- steps

  function Forgetful(c: Ctl): Ctl {
    c.(ipam := map[], cache := map[])
  }

  /** Two versions of a pool object that differ neither in configuration nor in IPv4 status. */
  predicate SameStatus(p: Pool, q: Pool) {
    q.config == p.config && q.ipv4 == p.ipv4
  }

  ghost predicate Touched(c: Ctl, net: NetName, q: Pool, c': Ctl) {
    net in c.pools && SameStatus(c.pools[net], q) && c' == c.(pools := c.pools[net := q])
  }

  /** A pool is paused or resumed, its agent pod is deployed or goes away, a condition is set. */
  ghost predicate TouchStep(c: Ctl, c': Ctl) {
    exists net, q :: Touched(c, net, q, c')
  }

  ghost predicate FreeStep(c: Ctl, c': Ctl) {
    || (exists cfg, r :: AllocateExit(c, cfg, c', r))
    || (exists records, f :: CleanupExit(c, records, c', f))
    || (exists net :: BuildStep(c, net, c'))
    || (exists net :: PoolOnChangeExit(c, net, c'))
    || TouchStep(c, c') || c' == Forgetful(c) || c' == c
  }

  /** Admitted pools without any status, nothing in memory. */
  ghost predicate Fresh(services: CidrText, c: Ctl) {
    && c.ipam == map[] && c.cache == map[]
    && forall net :: net in c.pools ==> Sound(services, c.pools[net].config) && c.pools[net].ipv4 == None
  }

  ghost predicate FreeRun(services: CidrText, tr: seq<Ctl>) {
    && |tr| > 0 && Fresh(services, tr[0])
    && forall i :: 0 <= i < |tr| - 1 ==> FreeStep(tr[i], tr[i + 1])
  }

  // ---------------------------------------------------------------- the invariant

  /** An admitted pool whose MAC records lie in it. */
  ghost predicate PoolFits(services: CidrText, p: Pool) {
    Sound(services, p.config) && MacAddrs(RecordsOf(p)) <= Pooled(p.config)
  }

  /** Memory manages exactly the addresses of a pool, and caches no other. */
  ghost predicate Fits(services: CidrText, c: Ctl) {
    && (forall net :: net in c.pools ==> PoolFits(services, c.pools[net]))
    && (forall net :: net in c.ipam ==>
          net in c.pools && c.ipam[net].ips.Keys == Pooled(c.pools[net].config))
    && (forall net :: net in c.cache ==>
          net in c.pools && c.cache[net].Values <= Pooled(c.pools[net].config))
  }

  ghost predicate SameConfigs(c: Ctl, c': Ctl) {
    c'.pools.Keys == c.pools.Keys && forall net :: net in c.pools ==> c'.pools[net].config == c.pools[net].config
  }

  lemma EntryFits(services: CidrText, p: Pool, a: Addr, m: Mac)
    requires PoolFits(services, p) && a in Pooled(p.config)
    ensures PoolFits(services, WithRecord(p, a, MacRec(m))) && WithRecord(p, a, MacRec(m)).config == p.config
  {
    hide Sound, Pooled;
    assert MacAddrs(RecordsOf(WithRecord(p, a, MacRec(m)))) <= MacAddrs(RecordsOf(p)) + {a};
  }

  lemma ErasureFits(services: CidrText, p: Pool, a: Addr)
    requires PoolFits(services, p) && p.ipv4.Some?
    ensures PoolFits(services, WithoutRecord(p, a)) && WithoutRecord(p, a).config == p.config
  {
    hide Sound, Pooled;
  }

  /** A subnet marked, or a MAC set changed within the pool. */
  lemma SubnetFits(services: CidrText, c: Ctl, net: NetName, a: Addr, taken: bool)
    requires Fits(services, c) && net in c.ipam && a in c.ipam[net].ips
    ensures Fits(services, c.(ipam := Marked(c.ipam, net, a, taken)))
  {
    hide PoolFits, Pooled;
  }

  lemma MacsFit(services: CidrText, c: Ctl, net: NetName, macs: map<Mac, Addr>)
    requires Fits(services, c) && net in c.pools && PoolFits(services, c.pools[net])
    requires macs.Values <= Pooled(c.pools[net].config)
    ensures Fits(services, c.(cache := c.cache[net := macs]))
  {
    hide PoolFits, Pooled;
  }

  /** A pool object exchanged for one with the same configuration whose MAC records lie in the pool. */
  lemma SwapFits(services: CidrText, c: Ctl, net: NetName, q: Pool)
    requires Fits(services, c) && net in c.pools && PoolFits(services, q) && q.config == c.pools[net].config
    ensures Fits(services, c.(pools := c.pools[net := q]))
  {
    hide PoolFits, Pooled;
  }

  /** What is managed or cached on a network is an address of its pool. */
  lemma KnownAddress(services: CidrText, c: Ctl, net: NetName, a: Addr)
    requires Fits(services, c)
    requires (net in c.ipam && a in c.ipam[net].ips) || (net in c.cache && a in c.cache[net].Values)
    ensures net in c.pools && PoolFits(services, c.pools[net]) && a in Pooled(c.pools[net].config)
  {
    hide PoolFits, Pooled;
  }

  lemma OneMoreValue(macs: map<Mac, Addr>, m: Mac, a: Addr)
    ensures macs[m := a].Values <= macs.Values + {a} && (macs - {m}).Values <= macs.Values
  {
  }

  lemma CachedFits(services: CidrText, c: Ctl, net: NetName)
    requires Fits(services, c) && net in c.cache
    ensures net in c.pools && PoolFits(services, c.pools[net]) && c.cache[net].Values <= Pooled(c.pools[net].config)
  {
    hide PoolFits, Pooled;
  }

  lemma TakenFits(services: CidrText, c: Ctl, nc: NetworkConfig, a: Addr)
    requires Fits(services, c) && nc.net in c.ipam && nc.net in c.cache && a in c.ipam[nc.net].ips
    ensures Fits(services, Taken(c, nc, a))
  {
    hide Fits, PoolFits, Pooled;
    KnownAddress(services, c, nc.net, a);
    CachedFits(services, c, nc.net);
    OneMoreValue(c.cache[nc.net], nc.mac, a);
    SubnetFits(services, c, nc.net, a, true);
    MacsFit(services, c.(ipam := Marked(c.ipam, nc.net, a, true)), nc.net, c.cache[nc.net][nc.mac := a]);
  }

  lemma AllocateOneFits(services: CidrText, c: Ctl, nc: NetworkConfig, records: seq<NcStatus>, c': Ctl,
                        r: Result<NcStatus, Failure>)
    requires Fits(services, c) && AllocateOne(c, nc, records, c', r)
    ensures Fits(services, c') && SameConfigs(c, c')
  {
    hide AllocateOne, Designated, Fits, PoolFits, Pooled, WithRecord;
    var chosen := AllocateOneCases(c, nc, records, c', r);
    var m := c.(ipam := c'.ipam, cache := c'.cache);
    if chosen.Some? { TakenFits(services, c, nc, chosen.value); }
    if r.Ok? {
      var a := c'.cache[nc.net][nc.mac];
      KnownAddress(services, m, nc.net, a);
      EntryFits(services, c.pools[nc.net], a, nc.mac);
      SwapFits(services, m, nc.net, WithRecord(c.pools[nc.net], a, MacRec(nc.mac)));
    }
  }

  lemma {:induction false} AllocateAllFits(services: CidrText, c: Ctl, ncs: seq<NetworkConfig>,
                                           records: seq<NcStatus>, c': Ctl, outs: seq<NcStatus>)
    requires Fits(services, c) && AllocateAll(c, ncs, records, c', outs)
    ensures Fits(services, c') && SameConfigs(c, c')
    decreases |ncs|
  {
    hide AllocateOne, Fits;
    if ncs != [] {
      var m :| AllocateAll(c, Init(ncs), records, m, Init(outs))
               && AllocateOne(m, Last(ncs), records, c', Ok(Last(outs)));
      AllocateAllFits(services, c, Init(ncs), records, m, Init(outs));
      AllocateOneFits(services, m, Last(ncs), records, c', Ok(Last(outs)));
    }
  }

  lemma AllocateFits(services: CidrText, c: Ctl, cfg: Cfg, c': Ctl, r: Result<seq<NcStatus>, Failure>)
    requires Fits(services, c) && AllocateExit(c, cfg, c', r)
    ensures Fits(services, c') && SameConfigs(c, c')
  {
    hide AllocateOne, AllocateAll, Fits;
    var ncs, records := cfg.configs, cfg.status.records;
    if c' != c {
      if r.Ok? {
        AllocateAllFits(services, c, ncs, records, c', r.value);
      } else {
        var i, m, outs :| 0 <= i < |ncs| && AllocateAll(c, ncs[..i], records, m, outs)
                          && AllocateOne(m, ncs[i], records, c', Err(r.error));
        AllocateAllFits(services, c, ncs[..i], records, m, outs);
        AllocateOneFits(services, m, ncs[i], records, c', Err(r.error));
      }
    }
  }

  lemma ReleasedFits(services: CidrText, c: Ctl, r: NcStatus)
    requires Fits(services, c) && Holds(c.ipam, r.net, r.ip) && r.net in c.cache
    ensures Fits(services, Released(c, r))
  {
    hide Fits, PoolFits, Pooled;
    CachedFits(services, c, r.net);
    OneMoreValue(c.cache[r.net], r.mac, r.ip.addr);
    SubnetFits(services, c, r.net, r.ip.addr, false);
    MacsFit(services, c.(ipam := Marked(c.ipam, r.net, r.ip.addr, false)), r.net, c.cache[r.net] - {r.mac});
  }

  lemma CleanupOneFits(services: CidrText, c: Ctl, r: NcStatus, c': Ctl, f: Option<Failure>)
    requires Fits(services, c) && CleanupOne(c, r, c', f)
    ensures Fits(services, c') && SameConfigs(c, c')
  {
    hide Fits, PoolFits, WithoutRecord, Marked, Released;
    if Holds(c.ipam, r.net, r.ip) {
      SubnetFits(services, c, r.net, r.ip.addr, false);
      if r.net in c.cache {
        ReleasedFits(services, c, r);
        KnownAddress(services, c, r.net, r.ip.addr);
        SamePools(c, r);
        if c.pools[r.net].ipv4.Some? {
          ErasureFits(services, c.pools[r.net], r.ip.addr);
          SwapFits(services, Released(c, r), r.net, WithoutRecord(c.pools[r.net], r.ip.addr));
        }
      }
    }
  }

  lemma SamePools(c: Ctl, r: NcStatus)
    requires Holds(c.ipam, r.net, r.ip) && r.net in c.cache
    ensures Released(c, r).pools == c.pools
  {
  }

  lemma {:induction false} CleanupAllFits(services: CidrText, c: Ctl, records: seq<NcStatus>, c': Ctl)
    requires Fits(services, c) && CleanupAll(c, records, c')
    ensures Fits(services, c') && SameConfigs(c, c')
    decreases |records|
  {
    hide CleanupOne, Fits;
    if records != [] {
      var m :| CleanupAll(c, Init(records), m) && CleanupOne(m, Last(records), c', None);
      CleanupAllFits(services, c, Init(records), m);
      CleanupOneFits(services, m, Last(records), c', None);
    }
  }

  lemma CleanupFits(services: CidrText, c: Ctl, records: seq<NcStatus>, c': Ctl, f: Option<Failure>)
    requires Fits(services, c) && CleanupExit(c, records, c', f)
    ensures Fits(services, c') && SameConfigs(c, c')
  {
    hide CleanupOne, CleanupAll, Fits;
    var n: nat :| CleanupUpTo(c, records, n, c', f);
    if f.None? {
      CleanupAllFits(services, c, records, c');
    } else {
      var m :| CleanupAll(c, records[..n], m) && CleanupOne(m, records[n], c', f);
      CleanupAllFits(services, c, records[..n], m);
      CleanupOneFits(services, m, records[n], c', f);
    }
  }

  lemma RebuiltFits(services: CidrText, c: Ctl, net: NetName, done: set<Addr>, macs: map<Mac, Addr>, c': Ctl)
    requires Fits(services, c) && net in c.pools && RebuiltTo(c, net, done, macs, c')
    ensures Fits(services, c')
  {
    hide PoolFits, Buildable, Built, Loaded, Pooled;
    LoadedUsed(c.pools[net].config, done);
    assert macs.Values <= done;
  }

  /** BuildCache of an admitted pool never fails, whatever run came before. */
  lemma BuildFits(services: CidrText, c: Ctl, net: NetName, c': Ctl, r: Result<(), Failure>)
    requires Fits(services, c) && BuildExit(c, net, c', r)
    ensures Fits(services, c') && c'.pools == c.pools
    ensures r.Ok? || c.pools[net].paused
  {
    hide Fits, Sound, Buildable, Pooled, Replayed, Loaded;
    var p := c.pools[net];
    if !p.paused && p.cacheReady != True {
      PoolOfCtl(services, c, net);
      AdmittedIsBuildable(services, p.config);
      RebuildSucceedsExactly(c, net, c', r);
      var done, macs :| RebuiltTo(c, net, done, macs, c');
      RebuiltFits(services, c, net, done, macs, c');
    }
  }

  lemma RefreshedFits(services: CidrText, c: Ctl, net: NetName)
    requires Fits(services, c) && net in c.pools
    ensures PoolFits(services, Refreshed(c, net)) && Refreshed(c, net).config == c.pools[net].config
  {
    hide Sound, Pooled, Marks;
    RangeOrdered(services, c.pools[net].config);
    MarksKeepMacs(c.pools[net].config, RecordsOf(c.pools[net]));
  }

  lemma LessMemoryFits(services: CidrText, c: Ctl, net: NetName)
    requires Fits(services, c)
    ensures Fits(services, Dropped(c, net)) && Fits(services, Forgetful(c))
  {
    hide PoolFits, Pooled;
  }

  lemma PoolOnChangeFits(services: CidrText, c: Ctl, net: NetName, c': Ctl)
    requires Fits(services, c) && PoolOnChangeExit(c, net, c')
    ensures Fits(services, c') && SameConfigs(c, c')
  {
    hide Fits, PoolFits, Refreshed;
    var d, ok :| BeforeWrite(c, net, d, ok)
                 && (c' == d || (ok && c' == d.(pools := d.pools[net := Refreshed(c, net)])));
    LessMemoryFits(services, c, net);
    RefreshedFits(services, c, net);
    SwapFits(services, d, net, Refreshed(c, net));
  }

  lemma PoolOfCtl(services: CidrText, c: Ctl, net: NetName)
    requires Fits(services, c) && net in c.pools
    ensures PoolFits(services, c.pools[net])
  {
  }

  lemma TouchedFits(services: CidrText, p: Pool, q: Pool)
    requires PoolFits(services, p) && SameStatus(p, q)
    ensures PoolFits(services, q)
  {
    hide Sound, Pooled;
  }

  lemma BuildStepFits(services: CidrText, c: Ctl, net: NetName, c': Ctl)
    requires Fits(services, c) && BuildStep(c, net, c')
    ensures Fits(services, c') && SameConfigs(c, c')
  {
    hide BuildExit, Fits, PoolFits;
    var d, r :| BuildExit(c, net, d, r) && net in d.pools
      && (c' == d
          || c' == d.(pools := d.pools[net := d.pools[net].(cacheReady := if r.Ok? then True else False)]));
    BuildFits(services, c, net, d, r);
    PoolOfCtl(services, d, net);
    var q := d.pools[net].(cacheReady := if r.Ok? then True else False);
    TouchedFits(services, d.pools[net], q);
    SwapFits(services, d, net, q);
  }

  lemma TouchStepFits(services: CidrText, c: Ctl, c': Ctl)
    requires Fits(services, c) && TouchStep(c, c')
    ensures Fits(services, c') && SameConfigs(c, c')
  {
    hide Fits, PoolFits;
    var net, q :| Touched(c, net, q, c');
    PoolOfCtl(services, c, net);
    TouchedFits(services, c.pools[net], q);
    SwapFits(services, c, net, q);
  }

  lemma FreeStepFits(services: CidrText, c: Ctl, c': Ctl)
    requires Fits(services, c) && FreeStep(c, c')
    ensures Fits(services, c') && SameConfigs(c, c')
  {
    hide Fits, AllocateExit, CleanupExit, BuildStep, PoolOnChangeExit, TouchStep;
    if cfg, r :| AllocateExit(c, cfg, c', r) {
      AllocateFits(services, c, cfg, c', r);
    } else if records, f :| CleanupExit(c, records, c', f) {
      CleanupFits(services, c, records, c', f);
    } else if net :| BuildStep(c, net, c') {
      BuildStepFits(services, c, net, c');
    } else if net :| PoolOnChangeExit(c, net, c') {
      PoolOnChangeFits(services, c, net, c');
    } else if TouchStep(c, c') {
      TouchStepFits(services, c, c');
    } else if c' == Forgetful(c) && c' != c {
      LessMemoryFits(services, c, NetName(""));
    }
  }

  lemma FreshFits(services: CidrText, c: Ctl)
    requires Fresh(services, c)
    ensures Fits(services, c)
  {
    hide Sound;
    forall net | net in c.pools ensures PoolFits(services, c.pools[net]) {
      RangeOrdered(services, c.pools[net].config);
      assert MacAddrs(RecordsOf(c.pools[net])) == {};
    }
  }

  lemma {:induction false} EveryFreeRunFits(services: CidrText, tr: seq<Ctl>, i: nat)
    requires FreeRun(services, tr) && i < |tr|
    ensures Fits(services, tr[i])
  {
    hide Fits, FreeStep, Fresh;
    if i == 0 {
      FreshFits(services, tr[0]);
    } else {
      EveryFreeRunFits(services, tr, i - 1);
      FreeStepFits(services, tr[i - 1], tr[i - 1 + 1]);
    }
  }

  // ---------------------------------------------------------------- what follows for every run

  /** In every state of every run: BuildCache of a pool that is not paused succeeds. */
  lemma RebuildNeverFails(services: CidrText, tr: seq<Ctl>, i: nat, net: NetName, c': Ctl, r: Result<(), Failure>)
    requires FreeRun(services, tr) && i < |tr| && BuildExit(tr[i], net, c', r)
    ensures r.Ok? <==> !tr[i].pools[net].paused
  {
    hide Fits, FreeStep;
    EveryFreeRunFits(services, tr, i);
    BuildFits(services, tr[i], net, c', r);
  }

  /** In every state of every run: pool OnChange overwrites, loses and invents no MAC record, in any pool. */
  lemma OnChangeKeepsMacs(services: CidrText, tr: seq<Ctl>, i: nat, net: NetName, c': Ctl, n: NetName)
    requires FreeRun(services, tr) && i < |tr| && PoolOnChangeExit(tr[i], net, c') && n in tr[i].pools
    ensures n in c'.pools && MacsAt(RecordsOf(c'.pools[n])) == MacsAt(RecordsOf(tr[i].pools[n]))
  {
    hide FreeStep, Sound, Pooled, Marks, MacsAt, Fits;
    EveryFreeRunFits(services, tr, i);
    PoolOfCtl(services, tr[i], net);
    RangeOrdered(services, tr[i].pools[net].config);
    MarksKeepMacs(tr[i].pools[net].config, RecordsOf(tr[i].pools[net]));
  }

  /** In every state of every run, for every network in memory: used and available add up to the range
      less the withheld addresses in it, and an undesignated allocation has a candidate exactly when
      available is not 0. */
  lemma RunsConserve(services: CidrText, tr: seq<Ctl>, i: nat, net: NetName)
    requires FreeRun(services, tr) && i < |tr| && net in tr[i].ipam
    ensures net in tr[i].pools
    ensures var p, ips := tr[i].pools[net].config, tr[i].ipam[net].ips;
      && p.start.Ip? && p.end.Ip? && ips.Keys == Pooled(p)
      && |Used(ips)| + |Free(ips)| == p.end.addr - p.start.addr + 1 - |WithheldInRange(p)|
      && ((exists a :: CanTake(tr[i].ipam, net, Unset, a)) <==> |Free(ips)| != 0)
  {
    hide FreeStep, Pooled, WithheldInRange, Sound;
    EveryFreeRunFits(services, tr, i);
    RangeOrdered(services, tr[i].pools[net].config);
    Conservation(tr[i].pools[net].config, tr[i].ipam[net].ips);
    ExhaustedExactly(tr[i].ipam, net, Unset);
  }
}

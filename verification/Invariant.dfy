/** The invariant that ties the in-memory allocators to the pool objects, and the handlers' part in
    keeping it. */
module Invariant {
  import opened Basics
  import opened Prefix
  import opened Admission
  import opened Ipam
  import opened Stores
  import opened VmNetCfg
  import opened PoolControl
  import opened Agreement
  import opened Agent
  import opened PoolLaws
  import opened FreeRuns

  // ---------------------------------------------------------------- one pool

  /** An admitted pool whose MAC records lie in it and name no MAC twice. */
  ghost predicate PoolOk(services: CidrText, p: Pool) {
    PoolFits(services, p) && MacsDistinct(RecordsOf(p))
  }

  /** The subnet was built from this pool, and every MAC record is cached. */
  ghost predicate LiveOk(p: Pool, subnet: IPSubnet, macs: map<Mac, Addr>) {
    && Buildable(p.config.cidr, p.config.start, p.config.end)
    && Used(subnet.ips) <= Pooled(p.config) && subnet == Loaded(p.config, Used(subnet.ips))
    && forall a, m :: RecordedFor(p, a, m) ==> m in macs && macs[m] == a
  }

  /** Whatever `p` records for a MAC, `q` records too. */
  ghost predicate Retains(p: Pool, q: Pool) {
    forall a, m :: RecordedFor(p, a, m) ==> RecordedFor(q, a, m)
  }

  lemma LoadedMarked(p: PoolConfig, done: set<Addr>, a: Addr)
    requires Buildable(p.cidr, p.start, p.end) && done <= Pooled(p) && a in Pooled(p)
    ensures Loaded(p, done).(ips := Loaded(p, done).ips[a := true]) == Loaded(p, done + {a})
    ensures Loaded(p, done).(ips := Loaded(p, done).ips[a := false]) == Loaded(p, done - {a})
  {
    hide Buildable, NetOf, Broadcast;
    assert Loaded(p, done).ips[a := true] == Loaded(p, done + {a}).ips;
    assert Loaded(p, done).ips[a := false] == Loaded(p, done - {a}).ips;
  }

  lemma LiveKeys(p: Pool, subnet: IPSubnet, macs: map<Mac, Addr>)
    requires LiveOk(p, subnet, macs)
    ensures subnet.ips.Keys == Pooled(p.config)
  {
    hide Buildable, Built;
    LoadedUsed(p.config, Used(subnet.ips));
  }

  lemma TakeLive(p: Pool, subnet: IPSubnet, macs: map<Mac, Addr>, m: Mac, a: Addr)
    requires LiveOk(p, subnet, macs) && a in subnet.ips && m !in macs
    ensures LiveOk(p, subnet.(ips := subnet.ips[a := true]), macs[m := a])
  {
    hide Buildable, Loaded, RecordedFor, Pooled;
    LiveKeys(p, subnet, macs);
    var done := Used(subnet.ips);
    LoadedMarked(p.config, done, a);
    assert Used(subnet.ips[a := true]) == done + {a};
  }

  lemma RecordedAfterEntry(p: Pool, a: Addr, m: Mac, b: Addr, n: Mac)
    ensures RecordedFor(WithRecord(p, a, MacRec(m)), b, n) <==> if b == a then n == m else RecordedFor(p, b, n)
  {
  }

  lemma RecordedAfterErasure(p: Pool, a: Addr, b: Addr, n: Mac)
    requires p.ipv4.Some?
    ensures RecordedFor(WithoutRecord(p, a), b, n) <==> b != a && RecordedFor(p, b, n)
  {
  }

  lemma DistinctMeans(p: Pool)
    ensures MacsDistinct(RecordsOf(p)) <==> forall a, b, m :: RecordedFor(p, a, m) && RecordedFor(p, b, m) ==> a == b
  {
    var entries := RecordsOf(p);
    if forall a, b, m :: RecordedFor(p, a, m) && RecordedFor(p, b, m) ==> a == b {
      forall a, b | a in MacAddrs(entries) && b in MacAddrs(entries) && entries[a] == entries[b] ensures a == b {
        assert RecordedFor(p, a, entries[a].mac) && RecordedFor(p, b, entries[a].mac);
      }
    }
  }

  /** Entering the cached address of a MAC displaces nobody. */
  lemma EnterLive(services: CidrText, p: Pool, subnet: IPSubnet, macs: map<Mac, Addr>, m: Mac)
    requires PoolOk(services, p) && LiveOk(p, subnet, macs) && Agrees(subnet.ips, macs) && m in macs
    ensures var q := WithRecord(p, macs[m], MacRec(m));
      PoolOk(services, q) && LiveOk(q, subnet, macs) && Retains(p, q)
  {
    hide Buildable, Loaded, RecordedFor, Sound, MacsDistinct, Pooled;
    var a := macs[m];
    var q := WithRecord(p, a, MacRec(m));
    LiveKeys(p, subnet, macs);
    forall b, n ensures RecordedFor(q, b, n) <==> if b == a then n == m else RecordedFor(p, b, n) {
      RecordedAfterEntry(p, a, m, b, n);
    }
    DistinctMeans(p);
    DistinctMeans(q);
    assert MacAddrs(RecordsOf(q)) == MacAddrs(RecordsOf(p)) + {a};
    assert q.config == p.config;
  }

  /** Releasing a current record, in memory and in the pool. */
  lemma ReleaseLive(services: CidrText, p: Pool, subnet: IPSubnet, macs: map<Mac, Addr>, m: Mac, a: Addr)
    requires PoolOk(services, p) && LiveOk(p, subnet, macs) && a in subnet.ips && p.ipv4.Some?
    requires CurrentPair(macs, m, a)
    ensures var q := WithoutRecord(p, a);
      PoolOk(services, q) && LiveOk(q, subnet.(ips := subnet.ips[a := false]), macs - {m})
  {
    hide Buildable, Loaded, RecordedFor, Sound, MacsDistinct, Pooled;
    var q := WithoutRecord(p, a);
    LiveKeys(p, subnet, macs);
    forall b, n ensures RecordedFor(q, b, n) <==> b != a && RecordedFor(p, b, n) {
      RecordedAfterErasure(p, a, b, n);
    }
    DistinctMeans(p);
    DistinctMeans(q);
    assert MacAddrs(RecordsOf(q)) <= MacAddrs(RecordsOf(p));
    var done := Used(subnet.ips);
    LoadedMarked(p.config, done, a);
    assert Used(subnet.ips[a := false]) == done - {a};
    assert q.config == p.config;
  }

  // ---------------------------------------------------------------- all pools

  ghost predicate CtlOk(services: CidrText, c: Ctl) {
    && Consistent(c)
    && (forall net :: net in c.pools ==> PoolOk(services, c.pools[net]))
    && (forall net :: net in c.ipam ==>
          net in c.cache && net in c.pools && LiveOk(c.pools[net], c.ipam[net], c.cache[net]))
  }

  /** The same pools, and none has lost a MAC record. */
  ghost predicate Retained(c: Ctl, c': Ctl) {
    c'.pools.Keys == c.pools.Keys && forall net :: net in c.pools ==> Retains(c.pools[net], c'.pools[net])
  }

  lemma RetainedTrans(c: Ctl, d: Ctl, e: Ctl)
    requires Retained(c, d) && Retained(d, e)
    ensures Retained(c, e)
  {
    hide RecordedFor;
  }

  lemma TakenOk(services: CidrText, c: Ctl, nc: NetworkConfig, t: AddrText, a: Addr)
    requires CtlOk(services, c) && nc.net in c.cache && nc.mac !in c.cache[nc.net] && CanTake(c.ipam, nc.net, t, a)
    ensures CtlOk(services, Taken(c, nc, a))
  {
    hide PoolOk, LiveOk, Agrees;
    TakeLive(c.pools[nc.net], c.ipam[nc.net], c.cache[nc.net], nc.mac, a);
    TakeAgrees(c.ipam[nc.net].ips, c.cache[nc.net], nc.mac, a);
  }

  lemma EnteredOk(services: CidrText, c: Ctl, nc: NetworkConfig)
    requires CtlOk(services, c) && nc.net in c.cache && nc.mac in c.cache[nc.net] && nc.net in c.pools
    ensures var d := Entered(c, nc, c.cache[nc.net][nc.mac]);
      && CtlOk(services, d) && Retained(c, d) && nc.net in d.pools
      && RecordedFor(d.pools[nc.net], c.cache[nc.net][nc.mac], nc.mac)
  {
    hide PoolOk, LiveOk, Agrees, RecordedFor, WithRecord;
    var p, a := c.pools[nc.net], c.cache[nc.net][nc.mac];
    EnterLive(services, p, c.ipam[nc.net], c.cache[nc.net], nc.mac);
    RecordedAfterEntry(p, a, nc.mac, a, nc.mac);
  }

  /** One round of Allocate keeps the invariant; what it publishes is recorded in the pool. */
  lemma AllocateOneOk(services: CidrText, c: Ctl, nc: NetworkConfig, records: seq<NcStatus>, c': Ctl,
                      r: Result<NcStatus, Failure>)
    requires CtlOk(services, c) && AllocateOne(c, nc, records, c', r)
    ensures CtlOk(services, c') && Retained(c, c')
    ensures r.Ok? ==> Durable(c', r.value)
  {
    hide CtlOk, AllocateOne, RecordedFor, Designated, WithRecord;
    var chosen := AllocateOneCases(c, nc, records, c', r);
    var mid := c.(ipam := c'.ipam, cache := c'.cache);
    if chosen.Some? {
      TakenOk(services, c, nc, Designated(nc, records), chosen.value);
      assert mid == Taken(c, nc, chosen.value);
    }
    if r.Ok? {
      EnteredOk(services, mid, nc);
      assert c' == Entered(mid, nc, c'.cache[nc.net][nc.mac]);
    } else {
      assert c' == mid;
    }
  }

  /** The pool status records what the record says. */
  ghost predicate Durable(c: Ctl, r: NcStatus) {
    r.ip.Ip? && r.net in c.pools && RecordedFor(c.pools[r.net], r.ip.addr, r.mac)
  }

  lemma DurableRetained(c: Ctl, c': Ctl, r: NcStatus)
    requires Durable(c, r) && Retained(c, c')
    ensures Durable(c', r)
  {
    hide RecordedFor;
  }

  ghost predicate AllDurable(c: Ctl, records: seq<NcStatus>) {
    forall i :: 0 <= i < |records| && records[i].state == AllocatedState ==> Durable(c, records[i])
  }

  lemma AllDurableRetained(c: Ctl, c': Ctl, records: seq<NcStatus>)
    requires AllDurable(c, records) && Retained(c, c')
    ensures AllDurable(c', records)
  {
    hide Durable, Retained;
    forall i | 0 <= i < |records| && records[i].state == AllocatedState ensures Durable(c', records[i]) {
      DurableRetained(c, c', records[i]);
    }
  }

  lemma RetainedSame(c: Ctl)
    ensures Retained(c, c)
  {
  }

  lemma {:induction false} AllocateAllOk(services: CidrText, c: Ctl, ncs: seq<NetworkConfig>,
                                         records: seq<NcStatus>, c': Ctl, outs: seq<NcStatus>)
    requires CtlOk(services, c) && AllocateAll(c, ncs, records, c', outs)
    ensures CtlOk(services, c') && Retained(c, c') && AllDurable(c', outs)
    ensures |outs| == |ncs|
    decreases |ncs|
  {
    hide CtlOk, AllocateOne, Retained, Durable;
    if ncs == [] {
      RetainedSame(c);
    } else {
      var m :| AllocateAll(c, Init(ncs), records, m, Init(outs))
               && AllocateOne(m, Last(ncs), records, c', Ok(Last(outs)));
      AllocateAllOk(services, c, Init(ncs), records, m, Init(outs));
      AllocateOneOk(services, m, Last(ncs), records, c', Ok(Last(outs)));
      RetainedTrans(c, m, c');
      AllDurableRetained(m, c', Init(outs));
      assert forall i :: 0 <= i < |outs| - 1 ==> outs[i] == Init(outs)[i];
    }
  }

  /** Allocate keeps the invariant at every exit; a published record is in the pool status by then. */
  lemma AllocateOk(services: CidrText, c: Ctl, cfg: Cfg, c': Ctl, r: Result<seq<NcStatus>, Failure>)
    requires CtlOk(services, c) && AllocateExit(c, cfg, c', r)
    ensures CtlOk(services, c') && Retained(c, c')
    ensures r.Ok? ==> AllDurable(c', r.value)
  {
    hide CtlOk, AllocateOne, AllocateAll, Retained, AllDurable;
    var ncs, records := cfg.configs, cfg.status.records;
    if cfg.paused || cfg.status.inSynced == False || ncs == [] {
      RetainedSame(c);
    } else if r.Ok? {
      AllocateAllOk(services, c, ncs, records, c', r.value);
    } else {
      var i, m, outs :| 0 <= i < |ncs| && AllocateAll(c, ncs[..i], records, m, outs)
                        && AllocateOne(m, ncs[i], records, c', Err(r.error));
      AllocateAllOk(services, c, ncs[..i], records, m, outs);
      AllocateOneOk(services, m, ncs[i], records, c', Err(r.error));
      RetainedTrans(c, m, c');
    }
  }

  // ---------------------------------------------------------------- cleanup

  lemma CleanupOneOk(services: CidrText, c: Ctl, r: NcStatus, c': Ctl)
    requires CtlOk(services, c) && CleanupOne(c, r, c', None) && Current(c, r)
    ensures CtlOk(services, c')
  {
    hide PoolOk, LiveOk, Agrees, WithoutRecord;
    CleanupOneConsistentExactly(c, r, c', None);
    ReleaseLive(services, c.pools[r.net], c.ipam[r.net], c.cache[r.net], r.mac, r.ip.addr);
  }

  lemma {:induction false} CleanupAllOk(services: CidrText, c: Ctl, records: seq<NcStatus>, c': Ctl, all: seq<NcStatus>)
    requires CtlOk(services, c) && AllCurrent(c, all) && records <= all && CleanupAll(c, records, c')
    ensures CtlOk(services, c')
    decreases |records|
  {
    hide CtlOk, CleanupOne, Current;
    if records != [] {
      var m :| CleanupAll(c, Init(records), m) && CleanupOne(m, Last(records), c', None);
      CleanupAllOk(services, c, Init(records), m, all);
      CtlConsistent(services, c);
      CleanupAllConsistent(c, Init(records), m, all);
      assert Last(records) == all[|records| - 1];
      CleanupOneOk(services, m, Last(records), c');
    }
  }

  lemma ReleaseUnrecorded(p: Pool, subnet: IPSubnet, macs: map<Mac, Addr>, m: Mac, a: Addr)
    requires LiveOk(p, subnet, macs) && a in subnet.ips && p.ipv4.None?
    ensures LiveOk(p, subnet.(ips := subnet.ips[a := false]), macs - {m})
  {
    hide Buildable, Loaded, Pooled;
    LiveKeys(p, subnet, macs);
    LoadedMarked(p.config, Used(subnet.ips), a);
    assert Used(subnet.ips[a := false]) == Used(subnet.ips) - {a};
  }

  /** A cleanup stopped by anything but a lost write leaves the pools alone and keeps the invariant. */
  lemma StoppedOk(services: CidrText, c: Ctl, r: NcStatus, c': Ctl, f: Failure)
    requires CtlOk(services, c) && CleanupOne(c, r, c', Some(f)) && !WriteFailure(f) && Current(c, r)
    ensures CtlOk(services, c') && c'.pools == c.pools
  {
    hide PoolOk, LiveOk, Agrees, WithoutRecord;
    CleanupOneConsistentExactly(c, r, c', Some(f));
    if c' != c { ReleaseUnrecorded(c.pools[r.net], c.ipam[r.net], c.cache[r.net], r.mac, r.ip.addr); }
  }

  /** A cleanup of current records keeps the invariant wherever it stops, unless an erasure is lost. */
  lemma CleanupOk(services: CidrText, c: Ctl, records: seq<NcStatus>, n: nat, c': Ctl, f: Option<Failure>)
    requires CtlOk(services, c) && AllCurrent(c, records) && CleanupUpTo(c, records, n, c', f)
    requires f.Some? ==> !WriteFailure(f.value)
    ensures CtlOk(services, c')
  {
    hide CtlOk, CleanupOne, CleanupAll, Current;
    if f.None? {
      CleanupAllOk(services, c, records, c', records);
    } else {
      var m :| CleanupAll(c, records[..n], m) && CleanupOne(m, records[n], c', f);
      CleanupAllOk(services, c, records[..n], m, records);
      CtlConsistent(services, c);
      CleanupAllConsistent(c, records[..n], m, records);
      StoppedOk(services, m, records[n], c', f.value);
    }
  }

  lemma CtlConsistent(services: CidrText, c: Ctl)
    requires CtlOk(services, c)
    ensures Consistent(c)
  {
  }

  /** A record the pool status backs is current. */
  lemma DurableIsCurrent(services: CidrText, c: Ctl, r: NcStatus)
    requires CtlOk(services, c) && Durable(c, r)
    ensures Current(c, r)
  {
    hide PoolOk, RecordedFor, Agrees;
  }

  // ---------------------------------------------------------------- the pool controller

  lemma BuildOk(services: CidrText, c: Ctl, net: NetName, c': Ctl, r: Result<(), Failure>)
    requires CtlOk(services, c) && BuildExit(c, net, c', r)
    ensures CtlOk(services, c') && c'.pools == c.pools
  {
    hide Sound, Buildable, Built, Loaded, Replayed, MacsDistinct, RecordedFor, Agrees, Pooled;
    if c' != c {
      var p := c.pools[net];
      AdmittedPools(services, c, net);
      BuildConsistent(c, net, c', r);
      RebuildExact(services, c, net, c', r);
      var done, macs :| RebuiltTo(c, net, done, macs, c');
      LoadedUsed(p.config, done);
      assert LiveOk(p, c'.ipam[net], c'.cache[net]);
    }
  }

  lemma AdmittedPools(services: CidrText, c: Ctl, net: NetName)
    requires CtlOk(services, c) && net in c.pools
    ensures Sound(services, c.pools[net].config)
            && Buildable(c.pools[net].config.cidr, c.pools[net].config.start, c.pools[net].config.end)
    ensures MacAddrs(RecordsOf(c.pools[net])) <= Pooled(c.pools[net].config) && MacsDistinct(RecordsOf(c.pools[net]))
    ensures 0 !in MacAddrs(RecordsOf(c.pools[net]))
  {
    AdmittedIsBuildable(services, c.pools[net].config);
  }

  /** Two pool objects that differ only outside config and MAC records. */
  ghost predicate SameMacs(p: Pool, q: Pool) {
    q.config == p.config && MacsAt(RecordsOf(q)) == MacsAt(RecordsOf(p))
  }

  lemma RecordedByMacsAt(p: Pool, a: Addr, m: Mac)
    ensures RecordedFor(p, a, m) <==> a in MacsAt(RecordsOf(p)) && MacsAt(RecordsOf(p))[a] == m
  {
  }

  lemma SameMacsOk(services: CidrText, p: Pool, q: Pool)
    requires SameMacs(p, q)
    ensures PoolOk(services, p) ==> PoolOk(services, q)
    ensures forall subnet, macs :: LiveOk(p, subnet, macs) ==> LiveOk(q, subnet, macs)
    ensures Retains(p, q) && Retains(q, p)
  {
    hide Sound, Buildable, Loaded, RecordedFor, MacsDistinct;
    forall a, m ensures RecordedFor(p, a, m) <==> RecordedFor(q, a, m) {
      RecordedByMacsAt(p, a, m);
      RecordedByMacsAt(q, a, m);
    }
    DistinctMeans(p);
    DistinctMeans(q);
    assert MacAddrs(RecordsOf(p)) == MacsAt(RecordsOf(p)).Keys && MacAddrs(RecordsOf(q)) == MacsAt(RecordsOf(q)).Keys;
  }

  /** Exchanging one pool object for such a one keeps the invariant. */
  lemma SwapPool(services: CidrText, c: Ctl, net: NetName, q: Pool)
    requires CtlOk(services, c) && net in c.pools && SameMacs(c.pools[net], q)
    ensures var d := c.(pools := c.pools[net := q]); CtlOk(services, d) && Retained(c, d) && Retained(d, c)
  {
    hide PoolOk, LiveOk, Agrees, RecordedFor, SameMacs;
    SameMacsOk(services, c.pools[net], q);
  }

  lemma RefreshedSameMacs(services: CidrText, c: Ctl, net: NetName)
    requires CtlOk(services, c) && net in c.pools
    ensures SameMacs(c.pools[net], Refreshed(c, net))
  {
    hide Marks, MacsAt;
    AdmittedPools(services, c, net);
    MarksKeepMacs(c.pools[net].config, RecordsOf(c.pools[net]));
  }

  lemma DroppedOk(services: CidrText, c: Ctl, net: NetName)
    requires CtlOk(services, c)
    ensures CtlOk(services, Dropped(c, net))
  {
    hide PoolOk, LiveOk, Agrees;
  }

  /** Pool OnChange keeps the invariant and every MAC record, neither losing nor inventing one. */
  lemma PoolOnChangeOk(services: CidrText, c: Ctl, net: NetName, c': Ctl)
    requires CtlOk(services, c) && PoolOnChangeExit(c, net, c')
    ensures CtlOk(services, c') && Retained(c, c') && Retained(c', c)
  {
    hide CtlOk, Retained, Refreshed, SameMacs;
    DroppedOk(services, c, net);
    RefreshedSameMacs(services, c, net);
    RetainedSame(c);
    var d, ok :| BeforeWrite(c, net, d, ok)
                 && (c' == d || (ok && c' == d.(pools := d.pools[net := Refreshed(c, net)])));
    PoolsOnly(c, Dropped(c, net));
    SwapPool(services, d, net, Refreshed(c, net));
    PoolsOnly(c, d);
    if c' != d {
      RetainedTrans(c, d, c');
      RetainedTrans(c', d, c);
    }
  }

  lemma PoolsOnly(c: Ctl, d: Ctl)
    requires c.pools == d.pools
    ensures Retained(c, d) && Retained(d, c)
  {
  }
}

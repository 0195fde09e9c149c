/** What admission, rebuilding and refreshing guarantee about one pool. */
module PoolLaws {
  import opened Basics
  import opened Prefix
  import opened Admission
  import opened Ipam
  import opened Stores
  import opened PoolControl
  import opened Agreement
  import opened Agent

  // ---------------------------------------------------------------- admission

  /** Every admitted pool is accepted by NewIPSubnet, and every address it expands to lies strictly
      between the network and the broadcast address. */
  lemma AdmittedIsBuildable(services: CidrText, p: PoolConfig)
    requires Sound(services, p)
    ensures Buildable(p.cidr, p.start, p.end)
    ensures forall a :: a in Addresses(p.start.addr, p.end.addr) ==> Interior(p.cidr, a)
    ensures 0 !in Addresses(p.start.addr, p.end.addr)
  {
    hide Network, Broadcast, Disjoint;
  }

  lemma RangeOrdered(services: CidrText, p: PoolConfig)
    requires Sound(services, p)
    ensures p.start.Ip? && p.end.Ip? && p.start.addr <= p.end.addr
  {
  }

  /** The whole pipeline: what the mutator defaulted and the validator accepted, NewIPSubnet builds. */
  lemma AdmissionPipeline(services: CidrText, p: PoolConfig, q: PoolConfig)
    requires Defaulted(p, q) && ValidateCreate(services, q).None?
    ensures Sound(services, q) && Buildable(q.cidr, q.start, q.end)
    ensures forall a :: a in Addresses(q.start.addr, q.end.addr) ==> Network(q.cidr) < a < Broadcast(q.cidr)
  {
    hide Network, Broadcast, Defaulted, ValidateCreate, Disjoint;
    PipelineExact(services, p, q);
    AdmittedIsBuildable(services, q);
  }

  /** The addresses handed out avoid everything a client must not get. */
  lemma PooledIsClean(services: CidrText, p: PoolConfig, a: Addr)
    requires Sound(services, p) && a in Pooled(p)
    ensures Interior(p.cidr, a) && a != 0
    ensures Ip(a) != p.server && Ip(a) != p.router && Ip(a) !in p.exclude
  {
    AdmittedIsBuildable(services, p);
  }

  // ---------------------------------------------------------------- rebuilding

  /** BuildCache fails exactly when the status records an address the pool does not manage. */
  lemma RebuildSucceedsExactly(c: Ctl, net: NetName, c': Ctl, r: Result<(), Failure>)
    requires BuildExit(c, net, c', r) && !c.pools[net].paused && c.pools[net].cacheReady != True
    requires Buildable(c.pools[net].config.cidr, c.pools[net].config.start, c.pools[net].config.end)
    requires 0 !in MacAddrs(RecordsOf(c.pools[net]))
    ensures r.Ok? <==> MacAddrs(RecordsOf(c.pools[net])) <= Pooled(c.pools[net].config)
  {
    hide Buildable, Built, Loaded, Replayed, MacAddrs;
    var done, macs :| RebuiltTo(c, net, done, macs, c') && (r.Ok? ==> done == MacAddrs(RecordsOf(c.pools[net])))
                      && (r.Err? ==>
                            r.error == AddressRefused
                            && !(MacAddrs(RecordsOf(c.pools[net])) <= Pooled(c.pools[net].config)));
  }

  /** The allocators a rebuild must produce: the pooled addresses, taken exactly where a MAC is
      recorded, and the cache as the inverse of the records. */
  ghost predicate RebuiltExactly(c: Ctl, net: NetName, c': Ctl)
    requires net in c.pools
  {
    var p := c.pools[net];
    && p.config.start.Ip? && p.config.end.Ip?
    && c'.pools == c.pools && net in c'.ipam && net in c'.cache
    && c'.ipam[net].ips.Keys == Pooled(p.config)
    && Used(c'.ipam[net].ips) == MacAddrs(RecordsOf(p))
    && (forall m, a :: m in c'.cache[net] && c'.cache[net][m] == a <==> RecordedFor(p, a, m))
    && c'.ipam - {net} == c.ipam - {net} && c'.cache - {net} == c.cache - {net}
  }

  lemma LoadedUsed(p: PoolConfig, done: set<Addr>)
    requires Buildable(p.cidr, p.start, p.end) && done <= Pooled(p)
    ensures Loaded(p, done).ips.Keys == Pooled(p) && Used(Loaded(p, done).ips) == done
  {
    hide Buildable, NetOf, Broadcast;
  }

  lemma ReplayedInverse(p: Pool, macs: map<Mac, Addr>, m: Mac, a: Addr)
    requires Replayed(RecordsOf(p), MacAddrs(RecordsOf(p)), macs) && MacsDistinct(RecordsOf(p))
    ensures m in macs && macs[m] == a <==> RecordedFor(p, a, m)
  {
    var entries := RecordsOf(p);
    if RecordedFor(p, a, m) {
      assert a in MacAddrs(entries) && entries[macs[m]] == entries[a];
    }
  }

  lemma RebuiltIsExact(c: Ctl, net: NetName, macs: map<Mac, Addr>, c': Ctl)
    requires net in c.pools && RebuiltTo(c, net, MacAddrs(RecordsOf(c.pools[net])), macs, c')
    requires MacsDistinct(RecordsOf(c.pools[net]))
    ensures RebuiltExactly(c, net, c')
  {
    hide Buildable, Built, Loaded, Replayed, MacsDistinct, RecordedFor, MacAddrs, Pooled, Used;
    var p := c.pools[net];
    LoadedUsed(p.config, MacAddrs(RecordsOf(p)));
    forall m, a ensures m in macs && macs[m] == a <==> RecordedFor(p, a, m) {
      ReplayedInverse(p, macs, m, a);
    }
    assert c'.ipam - {net} == c.ipam - {net};
    assert c'.cache - {net} == c.cache - {net};
  }

  /** Rebuilding a pool whose records are its own and name no MAC twice never fails and is exact,
      whatever the order of the records. */
  lemma RebuildExact(services: CidrText, c: Ctl, net: NetName, c': Ctl, r: Result<(), Failure>)
    requires BuildExit(c, net, c', r) && !c.pools[net].paused && c.pools[net].cacheReady != True
    requires Sound(services, c.pools[net].config)
    requires MacAddrs(RecordsOf(c.pools[net])) <= Pooled(c.pools[net].config) && MacsDistinct(RecordsOf(c.pools[net]))
    ensures r.Ok? && RebuiltExactly(c, net, c')
  {
    hide Sound, Buildable, RebuiltTo, RebuiltExactly, MacsDistinct;
    var p := c.pools[net];
    AdmittedIsBuildable(services, p.config);
    RebuildSucceedsExactly(c, net, c', r);
    var done, macs :| RebuiltTo(c, net, done, macs, c') && (r.Ok? ==> done == MacAddrs(RecordsOf(p)));
    RebuiltIsExact(c, net, macs, c');
  }

  /** A completed replay leaves the allocators in agreement exactly when no MAC is recorded twice. */
  lemma ReplayAgreesExactly(entries: map<Addr, Rec>, macs: map<Mac, Addr>, ips: map<Addr, bool>)
    requires Replayed(entries, MacAddrs(entries), macs)
    requires MacAddrs(entries) <= ips.Keys && forall a :: a in ips ==> (ips[a] <==> a in MacAddrs(entries))
    ensures Agrees(ips, macs) <==> MacsDistinct(entries)
  {
    if MacsDistinct(entries) {
      ReplayAgrees(entries, MacAddrs(entries), macs, ips);
    } else {
      var a, b :| a in MacAddrs(entries) && b in MacAddrs(entries) && entries[a] == entries[b] && a != b;
      var lost := if macs[entries[a].mac] == a then b else a;
      assert lost in ips && ips[lost];
      assert forall m :: m in macs && macs[m] == lost ==> entries[lost] == MacRec(m);
    }
  }

  // ---------------------------------------------------------------- refreshing

  lemma PooledIsUnmarked(p: PoolConfig, a: Addr)
    requires p.start.Ip? && p.end.Ip? && a in Pooled(p)
    ensures MarkAt(p, a).None?
  {
  }

  /** OnChange overwrites no MAC record, and stripping the marks gives back exactly the MAC records. */
  lemma MarksKeepMacs(p: PoolConfig, entries: map<Addr, Rec>)
    requires p.start.Ip? && p.end.Ip? && MacAddrs(entries) <= Pooled(p)
    ensures MacsAt(entries + Marks(p)) == MacsAt(entries)
    ensures MacAddrs(entries + Marks(p)) == MacAddrs(entries)
    ensures forall a :: a in MacAddrs(entries) ==> (entries + Marks(p))[a] == entries[a]
  {
    hide Pooled;
    forall a | a in MacAddrs(entries) ensures a !in Marks(p) {
      PooledIsUnmarked(p, a);
    }
    assert forall a :: a in Marks(p) ==> !Marks(p)[a].MacRec?;
  }

  lemma MarksIdempotent(p: PoolConfig, entries: map<Addr, Rec>)
    ensures entries + Marks(p) + Marks(p) == entries + Marks(p)
  {
  }

  /** A second OnChange on the pool the first one wrote, with IPAM unchanged, has nothing to write. */
  lemma RefreshSettles(c: Ctl, net: NetName)
    requires net in c.pools
    ensures var d := c.(pools := c.pools[net := Refreshed(c, net)]); Refreshed(d, net) == d.pools[net]
  {
    MarksIdempotent(c.pools[net].config, RecordsOf(c.pools[net]));
  }

  // ---------------------------------------------------------------- conservation

  function WithheldInRange(p: PoolConfig): set<Addr>
    requires p.start.Ip? && p.end.Ip?
  {
    set a | a in Addresses(p.start.addr, p.end.addr) && Withheld(p, a)
  }

  /** The size of a pool: its range less the withheld addresses that fall into it. */
  lemma PooledSize(p: PoolConfig)
    requires p.start.Ip? && p.end.Ip? && p.start.addr <= p.end.addr
    ensures |Pooled(p)| == p.end.addr - p.start.addr + 1 - |WithheldInRange(p)|
  {
    AddressesSize(p.start.addr, p.end.addr);
    var all := Addresses(p.start.addr, p.end.addr);
    assert Pooled(p) !! WithheldInRange(p) && Pooled(p) + WithheldInRange(p) == all;
    assert |Pooled(p) + WithheldInRange(p)| == |Pooled(p)| + |WithheldInRange(p)|;
  }

  /** Used and available always add up to the size of the pool. */
  lemma Conservation(p: PoolConfig, ips: map<Addr, bool>)
    requires p.start.Ip? && p.end.Ip? && p.start.addr <= p.end.addr && ips.Keys == Pooled(p)
    ensures |Used(ips)| + |Free(ips)| == p.end.addr - p.start.addr + 1 - |WithheldInRange(p)|
  {
    UsedPlusFree(ips);
    PooledSize(p);
    assert |ips| == |ips.Keys|;
  }
}

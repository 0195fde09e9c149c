/** The agent: it brings its pool cache and its lease table in line with each pool status it sees. */
module Agent {
  import opened Basics
  import opened Admission
  import opened Stores
  import opened Dhcp

  // ---------------------------------------------------------------- specification

  datatype AgentState = AgentState(poolCache: map<Addr, Mac>, leases: LeaseTable)

  /** The records of a status without its marks. */
  function MacsAt(entries: map<Addr, Rec>): map<Addr, Mac> {
    map a | a in entries && entries[a].MacRec? :: entries[a].mac
  }

  function LeaseFor(p: PoolConfig, leaseTime: Option<int>, a: Addr): DHCPLease
    requires p.cidr.Cidr?
  {
    NewLease(p.server, Ip(a), p.cidr, p.router, leaseTime)
  }

  /** The lease table is exactly the inverse of the pool cache. */
  ghost predicate Agree(s: AgentState) {
    && (forall a :: a in s.poolCache ==> s.poolCache[a] in s.leases && s.leases[s.poolCache[a]].clientIP == Some(a))
    && (forall m :: m in s.leases ==>
          s.leases[m].clientIP.Some? && s.leases[m].clientIP.value in s.poolCache
          && s.poolCache[s.leases[m].clientIP.value] == m)
  }

  ghost predicate Distinct(latest: map<Addr, Mac>) {
    forall a, b :: a in latest && b in latest && latest[a] == latest[b] ==> a == b
  }

  /** No cached address is bound to another MAC in the snapshot. */
  predicate NoRebind(poolCache: map<Addr, Mac>, latest: map<Addr, Mac>) {
    forall a :: a in poolCache && a in latest ==> poolCache[a] == latest[a]
  }

  /** The pool cache after the addresses in `done` were compared with the snapshot. */
  function Compared(poolCache: map<Addr, Mac>, latest: map<Addr, Mac>, done: set<Addr>): map<Addr, Mac> {
    map a | a in poolCache && (a in done ==> a in latest) :: if a in done then latest[a] else poolCache[a]
  }

  /** The MACs whose lease goes because their address left the snapshot. */
  function Gone(poolCache: map<Addr, Mac>, latest: map<Addr, Mac>, done: set<Addr>): set<Mac> {
    set a | a in done && a in poolCache && a !in latest :: poolCache[a]
  }

  /** First loop: `done` was handled, each removed lease existed when its turn came. */
  ghost predicate Pruned(s: AgentState, latest: map<Addr, Mac>, done: set<Addr>, s': AgentState) {
    && done <= s.poolCache.Keys
    && Gone(s.poolCache, latest, done) <= s.leases.Keys
    && s' == AgentState(Compared(s.poolCache, latest, done), s.leases - Gone(s.poolCache, latest, done))
  }

  /** The first loop stopped at `a`, whose MAC had no lease. */
  ghost predicate PruneStuck(s: AgentState, latest: map<Addr, Mac>, done: set<Addr>, a: Addr, s': AgentState) {
    Pruned(s, latest, done, s') && a in s.poolCache && a !in done && a !in latest && s.poolCache[a] !in s'.leases
  }

  function MacsFor(latest: map<Addr, Mac>, added: set<Addr>): set<Mac> {
    set a | a in added && a in latest :: latest[a]
  }

  function Restricted(latest: map<Addr, Mac>, added: set<Addr>): map<Addr, Mac> {
    map a | a in added && a in latest :: latest[a]
  }

  /** Every address in `added` has a lease of its own beside those in `base`. */
  ghost predicate LeasesFor(base: LeaseTable, latest: map<Addr, Mac>, p: PoolConfig, leaseTime: Option<int>,
                            added: set<Addr>, leases: LeaseTable) {
    && (forall m :: m in leases <==> m in base || m in MacsFor(latest, added))
    && (forall m :: m in base ==> m !in MacsFor(latest, added) && leases[m] == base[m])
    && (forall a :: a in added && a in latest ==>
          p.cidr.Cidr? && latest[a].Hw? && leases[latest[a]] == LeaseFor(p, leaseTime, a))
  }

  /** Second loop: the addresses in `added` got a lease each. */
  ghost predicate Extended(s: AgentState, latest: map<Addr, Mac>, p: PoolConfig, leaseTime: Option<int>,
                           added: set<Addr>, s': AgentState) {
    && added <= latest.Keys - s.poolCache.Keys
    && s'.poolCache == s.poolCache + Restricted(latest, added)
    && LeasesFor(s.leases, latest, p, leaseTime, added, s'.leases)
  }

  /** Why a lease could not be added. */
  ghost predicate AddFails(s: AgentState, m: Mac, p: PoolConfig, e: LeaseError) {
    || (e == BadHardwareAddress && m.BadMac?)
    || (e == LeaseExists && m in s.leases)
    || (e == BadNetwork && p.cidr.BadCidr?)
  }

  /** Every way the second loop can end. */
  ghost predicate ExtendExit(s: AgentState, latest: map<Addr, Mac>, p: PoolConfig, leaseTime: Option<int>,
                             added: set<Addr>, s': AgentState, r: Result<(), LeaseError>) {
    && Extended(s, latest, p, leaseTime, added, s')
    && match r
       case Ok(_) => added == latest.Keys - s.poolCache.Keys
       case Err(e) => e != NoLease && exists a :: a in latest && a !in s'.poolCache && AddFails(s', latest[a], p, e)
  }

  /** Every way updatePoolCacheAndLeaseStore can end. */
  ghost predicate UpdateExit(s: AgentState, latest: map<Addr, Mac>, p: PoolConfig, leaseTime: Option<int>,
                             s': AgentState, r: Result<(), LeaseError>) {
    if r == Err(NoLease) then
      exists done, a :: PruneStuck(s, latest, done, a, s')
    else
      exists m, added ::
        Pruned(s, latest, s.poolCache.Keys, m) && ExtendExit(m, latest, p, leaseTime, added, s', r)
  }

  // ---------------------------------------------------------------- the code

  /** An IPPool as the informer's cache holds it. */
  class PoolObject {
    var pool: Pool

    constructor (pool: Pool)
      ensures this.pool == pool
    {
      this.pool := pool;
    }
  }

  class Controller {
    const dhcpAllocator: DHCPAllocator
    var poolCache: map<Addr, Mac>

    constructor (dhcpAllocator: DHCPAllocator)
      ensures poolCache == map[] && this.dhcpAllocator == dhcpAllocator
    {
      this.dhcpAllocator := dhcpAllocator;
      poolCache := map[];
    }

    ghost function View(): AgentState
      reads this, dhcpAllocator
    {
      AgentState(poolCache, dhcpAllocator.leases)
    }

    /** filterExcludedAndReserved, on the object's own map. */
    method FilterExcludedAndReserved(obj: PoolObject)
      requires obj.pool.ipv4.Some?
      modifies obj
      ensures obj.pool.ipv4.Some?
      ensures obj.pool
          == old(obj.pool).(ipv4 := Some(old(obj.pool).ipv4.value.(entries := obj.pool.ipv4.value.entries)))
      ensures obj.pool.ipv4.value.entries == map a | a in old(obj.pool).ipv4.value.entries
              && old(obj.pool).ipv4.value.entries[a].MacRec?
                                             :: old(obj.pool).ipv4.value.entries[a]
    {
      var entries := obj.pool.ipv4.value.entries;
      ghost var before := entries;
      var rest := entries.Keys;
      while rest != {}
        invariant rest <= before.Keys
        invariant entries == map a | a in before && (a in rest || before[a].MacRec?) :: before[a]
        decreases rest
      {
        var ip :| ip in rest;
        rest := rest - {ip};
        if entries[ip] == Excluded || entries[ip] == Reserved {
          entries := entries - {ip};
        }
      }
      obj.pool := obj.pool.(ipv4 := Some(obj.pool.ipv4.value.(entries := entries)));
    }

    /** First loop. */
    method Prune(latest: map<Addr, Mac>) returns (r: Result<(), LeaseError>)
      modifies this, dhcpAllocator
      ensures r.Ok? ==> Pruned(old(View()), latest, old(poolCache.Keys), View())
      ensures r.Err? ==> r == Err(NoLease) && exists done, a :: PruneStuck(old(View()), latest, done, a, View())
    {
      hide Compared, Gone;
      ghost var before := View();
      var rest := poolCache.Keys;
      ghost var done: set<Addr> := {};
      NothingPruned(before, latest);
      while rest != {}
        invariant done == before.poolCache.Keys - rest && rest <= before.poolCache.Keys
        invariant Pruned(before, latest, done, View())
        decreases rest
      {
        var ip :| ip in rest;
        rest := rest - {ip};
        PruneStep(before, latest, done, ip, View());
        if ip in latest {
          if poolCache[ip] != latest[ip] {
            poolCache := poolCache[ip := latest[ip]];
          }
        } else {
          var deleted := dhcpAllocator.DeleteLease(poolCache[ip]);
          if deleted.Err? {
            assert PruneStuck(before, latest, done, ip, View());
            return Err(NoLease);
          }
          poolCache := poolCache - {ip};
        }
        done := done + {ip};
      }
      assert done == before.poolCache.Keys;
      return Ok(());
    }

    /** Leases one new address and caches it. */
    method AddOne(newIP: Addr, mac: Mac, p: PoolConfig, leaseTime: Option<int>) returns (r: Result<(), LeaseError>)
      modifies this, dhcpAllocator
      ensures r.Ok? ==>
        && mac.Hw? && mac !in old(dhcpAllocator.leases) && p.cidr.Cidr?
        && View() == AgentState(old(poolCache)[newIP := mac],
                                old(dhcpAllocator.leases)[mac :=
                                  NewLease(p.server, Ip(newIP), p.cidr, p.router, leaseTime)])
      ensures r.Err? ==> View() == old(View()) && r.error != NoLease && AddFails(View(), mac, p, r.error)
    {
      hide NewLease;
      var lease := dhcpAllocator.AddLease(mac, p.server, Ip(newIP), p.cidr, p.router, leaseTime);
      if lease.Err? {
        return lease;
      }
      poolCache := poolCache[newIP := mac];
      return Ok(());
    }

    /** Second loop. */
    method Extend(latest: map<Addr, Mac>, p: PoolConfig, leaseTime: Option<int>) returns (r: Result<(), LeaseError>)
      modifies this, dhcpAllocator
      ensures r != Err(NoLease) && exists added :: ExtendExit(old(View()), latest, p, leaseTime, added, View(), r)
    {
      hide Extended, ExtendExit, AddFails, NewLease;
      ghost var before := View();
      var rest := latest.Keys;
      ghost var added: set<Addr> := {};
      NothingExtended(before, latest, p, leaseTime);
      while rest != {}
        invariant rest <= latest.Keys && added == latest.Keys - rest - before.poolCache.Keys
        invariant Extended(before, latest, p, leaseTime, added, View())
        decreases rest
      {
        var newIP :| newIP in rest;
        rest := rest - {newIP};
        ExtendedKeys(before, latest, p, leaseTime, added, View());
        if newIP !in poolCache {
          ghost var now := View();
          var lease := AddOne(newIP, latest[newIP], p, leaseTime);
          if lease.Err? {
            ExtendStops(before, latest, p, leaseTime, added, now, newIP, lease.error);
            return lease;
          }
          ExtendStep(before, latest, p, leaseTime, added, newIP, now);
          added := added + {newIP};
        }
      }
      ExtendDone(before, latest, p, leaseTime, added, View());
      return Ok(());
    }

    method UpdatePoolCacheAndLeaseStore(latest: map<Addr, Mac>, p: PoolConfig, leaseTime: Option<int>)
      returns (r: Result<(), LeaseError>)
      modifies this, dhcpAllocator
      ensures UpdateExit(old(View()), latest, p, leaseTime, View(), r)
    {
      hide Pruned, ExtendExit;
      r := Prune(latest);
      if r.Err? {
        return;
      }
      ghost var m := View();
      r := Extend(latest, p, leaseTime);
      assert Pruned(old(View()), latest, old(View()).poolCache.Keys, m);
    }

    method Update(obj: PoolObject, leaseTime: Option<int>) returns (r: Result<(), LeaseError>)
      modifies this, dhcpAllocator, obj
      ensures old(obj.pool).cacheReady != True || old(obj.pool).ipv4.None? ==> r.Ok? && View() == old(View())
      ensures old(obj.pool).cacheReady == True && old(obj.pool).ipv4.Some? ==>
        UpdateExit(old(View()), MacsAt(RecordsOf(old(obj.pool))), old(obj.pool).config, leaseTime, View(), r)
    {
      hide UpdateExit;
      if obj.pool.cacheReady != True {
        return Ok(());
      }
      if obj.pool.ipv4.None? {
        return Ok(());
      }
      FilterExcludedAndReserved(obj);
      var entries := obj.pool.ipv4.value.entries;
      var latest := MacsAt(entries);
      assert latest == MacsAt(old(obj.pool).ipv4.value.entries);
      r := UpdatePoolCacheAndLeaseStore(latest, obj.pool.config, leaseTime);
    }
  }

  // ---------------------------------------------------------------- loop steps

  lemma NothingPruned(s: AgentState, latest: map<Addr, Mac>)
    ensures Pruned(s, latest, {}, s)
  {
    assert Compared(s.poolCache, latest, {}) == s.poolCache;
    assert s.leases - Gone(s.poolCache, latest, {}) == s.leases;
  }

  lemma PruneStep(s: AgentState, latest: map<Addr, Mac>, done: set<Addr>, a: Addr, now: AgentState)
    requires Pruned(s, latest, done, now) && a in s.poolCache && a !in done
    ensures a in now.poolCache && now.poolCache[a] == s.poolCache[a]
    ensures a in latest ==> Pruned(s, latest, done + {a}, now.(poolCache := now.poolCache[a := latest[a]]))
    ensures a in latest && s.poolCache[a] == latest[a] ==> now.poolCache[a := latest[a]] == now.poolCache
    ensures a !in latest && now.poolCache[a] in now.leases ==>
      Pruned(s, latest, done + {a}, AgentState(now.poolCache - {a}, now.leases - {now.poolCache[a]}))
  {
    var more := done + {a};
    if a in latest {
      assert Compared(s.poolCache, latest, more) == now.poolCache[a := latest[a]];
      assert Gone(s.poolCache, latest, more) == Gone(s.poolCache, latest, done);
    } else {
      assert Compared(s.poolCache, latest, more) == now.poolCache - {a};
      assert Gone(s.poolCache, latest, more) == Gone(s.poolCache, latest, done) + {s.poolCache[a]};
      assert s.leases - Gone(s.poolCache, latest, more) == now.leases - {s.poolCache[a]};
    }
  }

  lemma NothingExtended(s: AgentState, latest: map<Addr, Mac>, p: PoolConfig, leaseTime: Option<int>)
    ensures Extended(s, latest, p, leaseTime, {}, s)
  {
    assert MacsFor(latest, {}) == {};
    assert Restricted(latest, {}) == map[];
  }

  lemma ExtendedKeys(s: AgentState, latest: map<Addr, Mac>, p: PoolConfig, leaseTime: Option<int>, added: set<Addr>,
                     now: AgentState)
    requires Extended(s, latest, p, leaseTime, added, now)
    ensures now.poolCache.Keys == s.poolCache.Keys + added
  {
  }

  lemma ExtendStops(s: AgentState, latest: map<Addr, Mac>, p: PoolConfig, leaseTime: Option<int>, added: set<Addr>,
                    now: AgentState, a: Addr, e: LeaseError)
    requires Extended(s, latest, p, leaseTime, added, now) && a in latest && a !in now.poolCache
    requires e != NoLease && AddFails(now, latest[a], p, e)
    ensures ExtendExit(s, latest, p, leaseTime, added, now, Err(e))
  {
  }

  lemma ExtendDone(s: AgentState, latest: map<Addr, Mac>, p: PoolConfig, leaseTime: Option<int>, added: set<Addr>,
                   now: AgentState)
    requires Extended(s, latest, p, leaseTime, added, now) && added == latest.Keys - s.poolCache.Keys
    ensures ExtendExit(s, latest, p, leaseTime, added, now, Ok(()))
  {
  }

  lemma LeaseStep(base: LeaseTable, latest: map<Addr, Mac>, p: PoolConfig, leaseTime: Option<int>, added: set<Addr>,
                  leases: LeaseTable, a: Addr)
    requires LeasesFor(base, latest, p, leaseTime, added, leases)
    requires a in latest && latest[a].Hw? && latest[a] !in leases && p.cidr.Cidr?
    ensures LeasesFor(base, latest, p, leaseTime, added + {a}, leases[latest[a] := LeaseFor(p, leaseTime, a)])
  {
    hide LeaseFor;
    assert MacsFor(latest, added + {a}) == MacsFor(latest, added) + {latest[a]};
    forall b | b in added && b in latest ensures latest[b] != latest[a] {
      assert latest[b] in MacsFor(latest, added);
    }
  }

  lemma ExtendStep(s: AgentState, latest: map<Addr, Mac>, p: PoolConfig, leaseTime: Option<int>, added: set<Addr>,
                   a: Addr, now: AgentState)
    requires Extended(s, latest, p, leaseTime, added, now)
    requires a in latest && a !in now.poolCache && latest[a].Hw? && latest[a] !in now.leases && p.cidr.Cidr?
    ensures Extended(s, latest, p, leaseTime, added + {a}, AgentState(
      now.poolCache[a := latest[a]], now.leases[latest[a] := NewLease(p.server, Ip(a), p.cidr, p.router, leaseTime)]))
  {
    hide LeasesFor, NewLease;
    ExtendedKeys(s, latest, p, leaseTime, added, now);
    LeaseStep(s.leases, latest, p, leaseTime, added, now.leases, a);
    assert s.poolCache + Restricted(latest, added + {a}) == now.poolCache[a := latest[a]];
  }
}

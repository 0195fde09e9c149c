/** The ippool controller's code. */
module PoolHandler {
  import opened Basics
  import opened Prefix
  import opened Admission
  import opened Ipam
  import opened MacCache
  import opened Stores
  import opened PoolControl

  class Handler {
    const ipAllocator: IPAllocator
    const cacheAllocator: CacheAllocator
    const api: ApiServer

    constructor (ipAllocator: IPAllocator, cacheAllocator: CacheAllocator, api: ApiServer)
      ensures this.ipAllocator == ipAllocator && this.cacheAllocator == cacheAllocator && this.api == api
    {
      this.ipAllocator, this.cacheAllocator, this.api := ipAllocator, cacheAllocator, api;
    }

    ghost function View(): Ctl
      reads ipAllocator, cacheAllocator, api
    {
      Ctl(ipAllocator.ipam, cacheAllocator.cache, api.pools)
    }

    // -------------------------------------------------------------- BuildCache

    method RevokeExcluded(net: NetName, exclude: seq<AddrText>)
      requires net in ipAllocator.ipam
      modifies ipAllocator
      ensures ipAllocator.ipam == old(ipAllocator.ipam)[net :=
        old(ipAllocator.ipam)[net].(ips := Without(old(ipAllocator.ipam)[net].ips, exclude))]
    {
      ghost var before := ipAllocator.ipam[net];
      assert Without(before.ips, exclude[..0]) == before.ips;
      for i := 0 to |exclude|
        invariant ipAllocator.ipam == old(ipAllocator.ipam)[net := before.(ips := Without(before.ips, exclude[..i]))]
      {
        assert exclude[..i + 1] == exclude[..i] + [exclude[i]];
        ghost var ips := Without(before.ips, exclude[..i]);
        var revoked := ipAllocator.RevokeIP(net, exclude[i]);
        assert Without(before.ips, exclude[..i + 1]) == if exclude[i].Ip? then ips - {exclude[i].addr} else ips;
      }
      assert exclude[..|exclude|] == exclude;
    }

    /** A fresh subnet without the withheld addresses, and an empty MAC set. */
    method InitStores(net: NetName, p: PoolConfig) returns (ok: bool)
      modifies ipAllocator, cacheAllocator
      ensures ok <==> Buildable(p.cidr, p.start, p.end)
      ensures !ok ==> ipAllocator.ipam == old(ipAllocator.ipam) && cacheAllocator.cache == old(cacheAllocator.cache)
      ensures ok ==> ipAllocator.ipam == old(ipAllocator.ipam)[net := Loaded(p, {})]
      ensures ok ==> cacheAllocator.cache == old(cacheAllocator.cache)[net := map[]]
    {
      hide Buildable, Built, Loaded, Without, Less, Revoked;
      ok := ipAllocator.NewIPSubnet(net, p.cidr, p.start, p.end);
      if !ok {
        return;
      }
      cacheAllocator.NewMACSet(net);
      RevokedIsLess(ipAllocator.ipam, net, p.server);
      var server := ipAllocator.RevokeIP(net, p.server);
      RevokedIsLess(ipAllocator.ipam, net, p.router);
      var router := ipAllocator.RevokeIP(net, p.router);
      RevokeExcluded(net, p.exclude);
      WithheldRevoked(p);
    }

    /** Takes back every address the status records for a MAC, in any order. */
    method Replay(net: NetName, p: PoolConfig, entries: map<Addr, Rec>) returns (ok: bool)
      requires Buildable(p.cidr, p.start, p.end)
      requires net in ipAllocator.ipam && ipAllocator.ipam[net] == Loaded(p, {})
      requires net in cacheAllocator.cache && cacheAllocator.cache[net] == map[]
      modifies ipAllocator, cacheAllocator
      ensures ipAllocator.ipam.Keys == old(ipAllocator.ipam.Keys)
              && cacheAllocator.cache.Keys == old(cacheAllocator.cache.Keys)
      ensures ipAllocator.ipam - {net} == old(ipAllocator.ipam) - {net}
      ensures cacheAllocator.cache - {net} == old(cacheAllocator.cache) - {net}
      ensures 0 !in MacAddrs(entries) ==> exists done ::
        && done <= Pooled(p) && Replayed(entries, done, cacheAllocator.cache[net])
        && ipAllocator.ipam[net] == Loaded(p, done)
        && (ok ==> done == MacAddrs(entries)) && (!ok ==> !(MacAddrs(entries) <= Pooled(p)))
    {
      hide Buildable, Loaded, Pooled, Replayed, CanTake;
      ReplayStart(entries);
      var rest := entries.Keys;
      ghost var done: set<Addr> := {};
      ghost var strict := 0 !in MacAddrs(entries);
      ghost var ipams, caches := ipAllocator.ipam, cacheAllocator.cache;
      while rest != {}
        invariant rest <= entries.Keys
        invariant net in ipAllocator.ipam && net in cacheAllocator.cache
        invariant ipAllocator.ipam == ipams[net := ipAllocator.ipam[net]]
        invariant cacheAllocator.cache == caches[net := cacheAllocator.cache[net]]
        invariant strict ==> done == MacAddrs(entries) - rest && done <= Pooled(p)
        invariant strict ==> Replayed(entries, done, cacheAllocator.cache[net])
        invariant strict ==> ipAllocator.ipam[net] == Loaded(p, done)
        decreases rest
      {
        var ip :| ip in rest;
        rest := rest - {ip};
        ghost var before := cacheAllocator.cache[net];
        if entries[ip].MacRec? {
          var taken := ipAllocator.AllocateIP(net, Ip(ip));
          assert strict ==> (taken.Ok? <==> ip in Pooled(p)) by {
            if strict { LoadedTakes(p, done, ip, ipams, net); }
          }
          assert strict && taken.Ok? ==> taken.value == ip by {
            if strict && taken.Ok? { OnlyDesignated(ipams[net := Loaded(p, done)], net, ip, taken.value); }
          }
          if taken.Err? {
            return false;
          }
          var added := cacheAllocator.AddMAC(net, entries[ip].mac, ip);
          if strict {
            ReplayStep(p, entries, done, before, ip);
            done := done + {ip};
          }
        }
      }
      return true;
    }

    method BuildCache(net: NetName) returns (r: Result<(), Failure>)
      requires net in api.pools
      modifies ipAllocator, cacheAllocator
      ensures BuildExit(old(View()), net, View(), r)
    {
      hide Buildable, Built, Pooled, Replayed;
      var ipPool := api.pools[net];
      if ipPool.paused {
        return Err(AdminDisabled);
      }
      if ipPool.cacheReady == True {
        return Ok(());
      }
      var built := InitStores(net, ipPool.config);
      if !built {
        return Err(SubnetRefused);
      }
      var entries := if ipPool.ipv4.Some? then ipPool.ipv4.value.entries else map[];
      var ok := Replay(net, ipPool.config, entries);
      if 0 !in MacAddrs(entries) {
        ghost var done :|
          && done <= Pooled(ipPool.config) && Replayed(entries, done, cacheAllocator.cache[net])
          && ipAllocator.ipam[net] == Loaded(ipPool.config, done)
          && (ok ==> done == MacAddrs(entries)) && (!ok ==> !(MacAddrs(entries) <= Pooled(ipPool.config)));
        OneKey(old(View()).ipam, ipAllocator.ipam, net);
        OneKey(old(View()).cache, cacheAllocator.cache, net);
        assert RebuiltTo(old(View()), net, done, cacheAllocator.cache[net], View());
      }
      return if ok then Ok(()) else Err(AddressRefused);
    }

    /** The generated wrapper around BuildCache: it publishes whether the cache is ready. `r` is what BuildCache
        returned, `w` how the status write fared, None if the condition was right already. */
    method StatusSync(net: NetName) returns (r: Result<(), Failure>, w: Option<WriteResult>)
      requires net in api.pools
      modifies ipAllocator, cacheAllocator, api`pools, api`writes
      ensures BuildStep(old(View()), net, View())
      ensures BuildExit(old(View()), net, Ctl(ipAllocator.ipam, cacheAllocator.cache, old(api.pools)), r)
      ensures w == Some(Landed) ==>
                api.pools == old(api.pools)[net :=
                  old(api.pools)[net].(cacheReady := if r.Ok? then True else False)]
      ensures w != Some(Landed) ==> api.pools == old(api.pools)
      ensures w.None? ==> (r.Ok? <==> old(api.pools)[net].cacheReady == True)
      ensures w.Some? ==> api.writes > old(api.writes) && w.value == api.answer(api.writes - 1)
    {
      hide BuildExit;
      var origPool := api.pools[net];
      r := BuildCache(net);
      ghost var d := View();
      var cond := if r.Ok? then True else False;
      w := None;
      if origPool.cacheReady != cond {
        var written := api.UpdatePoolStatus(net, origPool.(cacheReady := cond));
        w := Some(written);
        assert written == Landed ==> View() == d.(pools := d.pools[net := d.pools[net].(cacheReady := cond)]);
      }
    }

    // -------------------------------------------------------------- OnChange

    /** Whether the agent pod could be deleted is up to the API server. */
    method Cleanup(net: NetName, podDeleted: bool) returns (ok: bool)
      requires net in api.pools
      modifies ipAllocator, cacheAllocator
      ensures PoolCleanupExit(old(View()), net, View(), ok)
      ensures ok <==> !api.pools[net].agentPod || podDeleted
      ensures ipAllocator.ipam == if api.pools[net].agentPod && podDeleted then old(ipAllocator.ipam) - {net}
                                  else old(ipAllocator.ipam)
      ensures cacheAllocator.cache == if api.pools[net].agentPod && podDeleted then old(cacheAllocator.cache) - {net}
                                      else old(cacheAllocator.cache)
    {
      if !api.pools[net].agentPod {
        return true;
      }
      if !podDeleted {
        return false;
      }
      ipAllocator.DeleteIPSubnet(net);
      cacheAllocator.DeleteMACSet(net);
      return true;
    }

    /** Enters the marks, one address after the other. */
    method EnterMarks(p: PoolConfig, entries: map<Addr, Rec>) returns (r: map<Addr, Rec>)
      ensures r == entries + Marks(p)
    {
      hide MarkedSoFar, Marks;
      r := entries;
      if InBetween(p.server, p.start, p.end) {
        r := r[p.server.addr := Reserved];
      }
      if InBetween(p.router, p.start, p.end) {
        r := r[p.router.addr := Reserved];
      }
      ReservedEntered(p, entries);
      for i := 0 to |p.exclude|
        invariant MarkedSoFar(p.(exclude := p.exclude[..i]), entries, r)
      {
        ExcludedEntered(p, entries, r, i);
        if p.exclude[i].Ip? {
          r := r[p.exclude[i].addr := Excluded];
        }
      }
      assert p.(exclude := p.exclude[..|p.exclude|]) == p;
      AllEntered(p, entries, r);
    }

    /** `ok` says whether the cleanup of a paused pool went through, `w` how the status write fared, None if
        there was nothing to write. */
    method OnChange(net: NetName, podDeleted: bool) returns (ok: bool, w: Option<WriteResult>)
      requires net in api.pools
      modifies ipAllocator, cacheAllocator, api`pools, api`writes
      ensures PoolOnChangeExit(old(View()), net, View())
      ensures ok <==> !old(api.pools)[net].paused || !old(api.pools)[net].agentPod || podDeleted
      ensures !ok ==> w.None?
      ensures w == Some(Landed) ==>
        && api.pools.Keys == old(api.pools.Keys) && api.pools == old(api.pools)[net := api.pools[net]]
        && Describes(old(View()), net, api.pools[net])
      ensures w != Some(Landed) ==> api.pools == old(api.pools)
      ensures ok && w.None? ==> Describes(old(View()), net, old(api.pools)[net])
      ensures w.Some? ==> api.writes > old(api.writes) && w.value == api.answer(api.writes - 1)
    {
      hide Marks, Describes;
      var ipPool := api.pools[net];
      var copy := ipPool;
      ok, w := true, None;
      if ipPool.paused {
        ok := Cleanup(net, podDeleted);
        if !ok {
          assert BeforeWrite(old(View()), net, View(), false);
          return;
        }
        copy := copy.(agentPod := false, stopped := True);
      } else {
        copy := copy.(stopped := False);
        if !ipAllocator.IsNetworkInitialized(net) {
          copy := copy.(cacheReady := False);
        } else {
          var used := ipAllocator.GetUsed(net);
          var available := ipAllocator.GetAvailable(net);
          var entries := if ipPool.ipv4.Some? then ipPool.ipv4.value.entries else map[];
          entries := EnterMarks(ipPool.config, entries);
          copy := copy.(ipv4 := Some(IPv4Status(entries, used.value, available.value)));
        }
      }
      ghost var mid := View();
      assert BeforeWrite(old(View()), net, mid, true);
      assert copy == Refreshed(old(View()), net);
      RefreshedDescribes(old(View()), net);
      if copy != ipPool {
        var written := api.UpdatePoolStatus(net, copy);
        w := Some(written);
        assert written == Landed ==> View() == mid.(pools := mid.pools[net := copy]);
      }
    }
  }

  /** util.LoadAllocated: splits a status into allocated, excluded and reserved addresses. */
  method LoadAllocated(entries: map<Addr, Rec>) returns (macs: seq<Addr>, excluded: seq<Addr>, reserved: seq<Addr>)
    ensures forall a :: a in macs <==> a in MacAddrs(entries)
    ensures forall a :: a in excluded <==> a in entries && entries[a] == Excluded
    ensures forall a :: a in reserved <==> a in entries && entries[a] == Reserved
    ensures |macs| + |excluded| + |reserved| == |entries|
  {
    macs, excluded, reserved := [], [], [];
    var rest := entries.Keys;
    ghost var seen: set<Addr> := {};
    while rest != {}
      invariant rest <= entries.Keys && seen == entries.Keys - rest
      invariant forall a :: a in macs <==> a in seen && entries[a].MacRec?
      invariant forall a :: a in excluded <==> a in seen && entries[a] == Excluded
      invariant forall a :: a in reserved <==> a in seen && entries[a] == Reserved
      invariant |macs| + |excluded| + |reserved| == |seen|
      decreases rest
    {
      var ip :| ip in rest;
      rest := rest - {ip};
      match entries[ip] {
        case Excluded => excluded := excluded + [ip];
        case Reserved => reserved := reserved + [ip];
        case MacRec(_) => macs := macs + [ip];
      }
      seen := seen + {ip};
    }
    assert seen == entries.Keys;
  }

  function Without(ips: map<Addr, bool>, ts: seq<AddrText>): map<Addr, bool> {
    map a | a in ips && Ip(a) !in ts :: ips[a]
  }

  function Less(ips: map<Addr, bool>, t: AddrText): map<Addr, bool> {
    if t.Ip? then ips - {t.addr} else ips
  }

  lemma RevokedIsLess(ipam: IpamState, net: NetName, t: AddrText)
    requires net in ipam
    ensures Revoked(ipam, net, t) == ipam[net := ipam[net].(ips := Less(ipam[net].ips, t))]
  {
  }

  /** Revoking server, router and exclusions from a fresh subnet leaves the pooled addresses. */
  lemma WithheldRevoked(p: PoolConfig)
    requires Buildable(p.cidr, p.start, p.end)
    ensures var b := Built(p.cidr, p.start.addr, p.end.addr);
      b.(ips := Without(Less(Less(b.ips, p.server), p.router), p.exclude)) == Loaded(p, {})
  {
    hide NetOf, Broadcast, Buildable;
    var b := Built(p.cidr, p.start.addr, p.end.addr);
    assert Without(Less(Less(b.ips, p.server), p.router), p.exclude) == Loaded(p, {}).ips;
  }

  /** One more record replayed. */
  lemma ReplayStep(p: PoolConfig, entries: map<Addr, Rec>, done: set<Addr>, macs: map<Mac, Addr>, a: Addr)
    requires Buildable(p.cidr, p.start, p.end) && Replayed(entries, done, macs)
    requires a in MacAddrs(entries) && a in Pooled(p)
    ensures Replayed(entries, done + {a}, macs[entries[a].mac := a])
    ensures Loaded(p, done).(ips := Loaded(p, done).ips[a := true]) == Loaded(p, done + {a})
  {
    hide NetOf, Broadcast, Buildable;
    assert Loaded(p, done).ips[a := true] == Loaded(p, done + {a}).ips;
  }

  ghost predicate MarkedSoFar(p: PoolConfig, entries: map<Addr, Rec>, r: map<Addr, Rec>) {
    && (forall a: Addr :: a in r <==> a in entries || MarkAt(p, a).Some?)
    && (forall a: Addr :: a in r ==> r[a] == if MarkAt(p, a).Some? then MarkAt(p, a).value else entries[a])
  }

  lemma ReservedEntered(p: PoolConfig, entries: map<Addr, Rec>)
    ensures
      var r := if InBetween(p.server, p.start, p.end) then entries[p.server.addr := Reserved] else entries;
      var q := if InBetween(p.router, p.start, p.end) then r[p.router.addr := Reserved] else r;
      MarkedSoFar(p.(exclude := p.exclude[..0]), entries, q)
  {
  }

  lemma ExcludedEntered(p: PoolConfig, entries: map<Addr, Rec>, r: map<Addr, Rec>, i: nat)
    requires i < |p.exclude| && MarkedSoFar(p.(exclude := p.exclude[..i]), entries, r)
    ensures MarkedSoFar(p.(exclude := p.exclude[..i + 1]), entries,
                        if p.exclude[i].Ip? then r[p.exclude[i].addr := Excluded] else r)
  {
    assert p.exclude[..i + 1] == p.exclude[..i] + [p.exclude[i]];
  }

  lemma AllEntered(p: PoolConfig, entries: map<Addr, Rec>, r: map<Addr, Rec>)
    requires MarkedSoFar(p, entries, r)
    ensures r == entries + Marks(p)
  {
  }

  /** A loaded subnet hands out a recorded address exactly when the pool manages it. */
  lemma LoadedTakes(p: PoolConfig, done: set<Addr>, a: Addr, ipam: IpamState, net: NetName)
    requires Buildable(p.cidr, p.start, p.end) && a != 0 && a !in done
    ensures var now := ipam[net := Loaded(p, done)];
      && (a in Pooled(p) ==> CanTake(now, net, Ip(a), a))
      && (a !in Pooled(p) ==> forall b :: !CanTake(now, net, Ip(a), b))
  {
    hide NetOf, Network, Broadcast, Contains;
    ContainsMeans(p.cidr, a);
  }

  lemma OnlyDesignated(ipam: IpamState, net: NetName, a: Addr, b: Addr)
    requires a != 0 && CanTake(ipam, net, Ip(a), b)
    ensures a == b
  {
  }

  lemma ReplayStart(entries: map<Addr, Rec>)
    ensures Replayed(entries, {}, map[])
  {
  }

  lemma OneKey<V>(m: map<NetName, V>, n: map<NetName, V>, net: NetName)
    requires net in n && n - {net} == m - {net}
    ensures n == m[net := n[net]]
  {
    forall k | k in n || k in m
      ensures k in n && k in m[net := n[net]] && n[k] == m[net := n[net]][k]
    {
      if k != net {
        assert k in n <==> k in n - {net};
        assert k in m <==> k in m - {net};
      }
    }
  }
}

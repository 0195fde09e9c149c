/** The two in-memory allocators agree: over every run, at every exit of every handler, they know the
    same networks, the addresses marked taken are exactly the cached ones, and no two MACs share one. */
module Agreement {
  import opened Basics
  import opened Ipam
  import opened Stores
  import opened VmNetCfg
  import opened PoolControl

  // ---------------------------------------------------------------- one network

  ghost predicate Injective(macs: map<Mac, Addr>) {
    forall m, n :: m in macs && n in macs && macs[m] == macs[n] ==> m == n
  }

  ghost predicate Agrees(ips: map<Addr, bool>, macs: map<Mac, Addr>) {
    && Injective(macs)
    && (forall m :: m in macs ==> macs[m] in ips && ips[macs[m]])
    && (forall a :: a in ips && ips[a] ==> a in macs.Values)
  }

  /** A record is current: exactly the cached pair, or neither half of it is cached. */
  predicate CurrentPair(macs: map<Mac, Addr>, m: Mac, a: Addr) {
    (m in macs && macs[m] == a) || (m !in macs && a !in macs.Values)
  }

  lemma TakeAgrees(ips: map<Addr, bool>, macs: map<Mac, Addr>, m: Mac, a: Addr)
    requires Agrees(ips, macs) && a in ips && !ips[a] && m !in macs
    ensures Agrees(ips[a := true], macs[m := a])
  {
    var now := macs[m := a];
    assert now[m] == a;
    forall b | b in ips[a := true] && ips[a := true][b] ensures b in now.Values {
      if b != a {
        var n :| n in macs && macs[n] == b;
        assert now[n] == b;
      }
    }
  }

  /** Freeing `a` and forgetting `m` keeps the allocators in agreement exactly when the record they
      come from is current. */
  lemma ReleaseAgreesExactly(ips: map<Addr, bool>, macs: map<Mac, Addr>, m: Mac, a: Addr)
    requires Agrees(ips, macs) && a in ips
    ensures Agrees(ips[a := false], macs - {m}) <==> CurrentPair(macs, m, a)
  {
    var now, left := ips[a := false], macs - {m};
    if CurrentPair(macs, m, a) {
      forall b | b in now && now[b] ensures b in left.Values {
        var n :| n in macs && macs[n] == b;
        assert left[n] == b;
      }
    } else if m in macs {
      assert now[macs[m]] && macs[m] !in left.Values;
    } else {
      var n :| n in macs && macs[n] == a;
      assert n in left && left[n] == a;
    }
  }

  lemma ReplayAgrees(entries: map<Addr, Rec>, done: set<Addr>, macs: map<Mac, Addr>, ips: map<Addr, bool>)
    requires Replayed(entries, done, macs) && MacsDistinct(entries)
    requires done <= ips.Keys && forall a :: a in ips ==> (ips[a] <==> a in done)
    ensures Agrees(ips, macs)
    ensures forall a :: a in done ==> entries[a].mac in macs && macs[entries[a].mac] == a
  {
    forall a | a in done ensures entries[a].mac in macs && macs[entries[a].mac] == a {
      var m := entries[a].mac;
      assert macs[m] in done && entries[macs[m]] == entries[a];
    }
  }

  lemma OneLess(ips: map<Addr, bool>, a: Addr, macs: map<Mac, Addr>, m: Mac)
    requires a in ips && ips[a] && m in macs
    ensures |Used(ips)| == |Used(ips[a := false])| + 1
    ensures |macs| == |macs - {m}| + 1
  {
    assert Used(ips) == Used(ips[a := false]) + {a};
    assert macs.Keys == (macs - {m}).Keys + {m};
  }

  /** As many addresses are taken as MACs are cached. */
  lemma {:induction false} UsedIsCached(ips: map<Addr, bool>, macs: map<Mac, Addr>)
    requires Agrees(ips, macs)
    ensures |Used(ips)| == |macs|
    decreases |macs|
  {
    if macs == map[] {
      assert Used(ips) == {};
    } else {
      var m :| m in macs;
      OneLess(ips, macs[m], macs, m);
      ReleaseAgreesExactly(ips, macs, m, macs[m]);
      UsedIsCached(ips[macs[m] := false], macs - {m});
    }
  }

  // ---------------------------------------------------------------- all networks

  ghost predicate Consistent(c: Ctl) {
    && c.ipam.Keys == c.cache.Keys
    && forall net :: net in c.ipam ==> Agrees(c.ipam[net].ips, c.cache[net])
  }

  /** Cleaning up `r` would touch the allocators only where they hold exactly what it says. */
  ghost predicate Current(c: Ctl, r: NcStatus) {
    Holds(c.ipam, r.net, r.ip) && r.net in c.cache ==> CurrentPair(c.cache[r.net], r.mac, r.ip.addr)
  }

  ghost predicate AllCurrent(c: Ctl, records: seq<NcStatus>) {
    forall i :: 0 <= i < |records| ==> Current(c, records[i])
  }

  lemma AllocateOneConsistent(c: Ctl, nc: NetworkConfig, records: seq<NcStatus>, c': Ctl, r: Result<NcStatus, Failure>)
    requires Consistent(c) && AllocateOne(c, nc, records, c', r)
    ensures Consistent(c')
  {
    hide AllocateOne, Designated, Agrees;
    var chosen := AllocateOneCases(c, nc, records, c', r);
    if chosen.Some? {
      TakeAgrees(c.ipam[nc.net].ips, c.cache[nc.net], nc.mac, chosen.value);
    }
  }

  lemma {:induction false} AllocateAllConsistent(c: Ctl, ncs: seq<NetworkConfig>, records: seq<NcStatus>, c': Ctl,
                                                 outs: seq<NcStatus>)
    requires Consistent(c) && AllocateAll(c, ncs, records, c', outs)
    ensures Consistent(c')
    decreases |ncs|
  {
    hide Consistent, AllocateOne;
    if ncs != [] {
      var m :| AllocateAll(c, Init(ncs), records, m, Init(outs))
               && AllocateOne(m, Last(ncs), records, c', Ok(Last(outs)));
      AllocateAllConsistent(c, Init(ncs), records, m, Init(outs));
      AllocateOneConsistent(m, Last(ncs), records, c', Ok(Last(outs)));
    }
  }

  lemma AllocateConsistent(c: Ctl, cfg: Cfg, c': Ctl, r: Result<seq<NcStatus>, Failure>)
    requires Consistent(c) && AllocateExit(c, cfg, c', r)
    ensures Consistent(c')
  {
    hide Consistent, AllocateOne, AllocateAll;
    if c' != c {
      var records := cfg.status.records;
      if r.Ok? {
        AllocateAllConsistent(c, cfg.configs, records, c', r.value);
      } else {
        var i, m, outs :| 0 <= i < |cfg.configs| && AllocateAll(c, cfg.configs[..i], records, m, outs)
                          && AllocateOne(m, cfg.configs[i], records, c', Err(r.error));
        AllocateAllConsistent(c, cfg.configs[..i], records, m, outs);
        AllocateOneConsistent(m, cfg.configs[i], records, c', Err(r.error));
      }
    }
  }

  /** Whatever a cleanup of one record runs into, the in-memory stores are untouched or released. */
  lemma CleanupOneMemory(c: Ctl, r: NcStatus, c': Ctl, f: Option<Failure>)
    requires Consistent(c) && CleanupOne(c, r, c', f)
    ensures if Holds(c.ipam, r.net, r.ip) then
              r.net in c.cache && c'.ipam == Released(c, r).ipam && c'.cache == Released(c, r).cache
            else c' == c
    ensures f.None? ==> Holds(c.ipam, r.net, r.ip)
  {
  }

  lemma ReleasedConsistentExactly(c: Ctl, r: NcStatus)
    requires Consistent(c) && Holds(c.ipam, r.net, r.ip) && r.net in c.cache
    ensures Consistent(Released(c, r)) <==> Current(c, r)
  {
    var d := Released(c, r);
    ReleaseAgreesExactly(c.ipam[r.net].ips, c.cache[r.net], r.mac, r.ip.addr);
    assert d.ipam[r.net].ips == c.ipam[r.net].ips[r.ip.addr := false];
    assert d.cache[r.net] == c.cache[r.net] - {r.mac};
  }

  /** One record's cleanup, at any of its exits, keeps the allocators in agreement exactly when the
      record is current. */
  lemma CleanupOneConsistentExactly(c: Ctl, r: NcStatus, c': Ctl, f: Option<Failure>)
    requires Consistent(c) && CleanupOne(c, r, c', f)
    ensures Consistent(c') <==> Current(c, r)
  {
    hide CleanupOne, Agrees;
    CleanupOneMemory(c, r, c', f);
    if Holds(c.ipam, r.net, r.ip) {
      ReleasedConsistentExactly(c, r);
    }
  }

  /** Releasing one current record leaves the others current. */
  lemma CurrentStays(c: Ctl, r: NcStatus, q: NcStatus)
    requires Consistent(c) && Holds(c.ipam, r.net, r.ip) && Current(c, r) && Current(c, q)
    ensures Current(Released(c, r), q)
  {
    var d := Released(c, r);
    if Holds(d.ipam, q.net, q.ip) && q.net == r.net {
      var macs := c.cache[q.net];
      assert Holds(c.ipam, q.net, q.ip);
      assert Injective(macs);
      var left := macs - {r.mac};
      assert d.cache[q.net] == left;
      assert forall a :: a in left.Values ==> a in macs.Values;
    }
  }

  lemma {:induction false} CleanupAllConsistent(c: Ctl, records: seq<NcStatus>, c': Ctl, all: seq<NcStatus>)
    requires Consistent(c) && AllCurrent(c, all) && records <= all && CleanupAll(c, records, c')
    ensures Consistent(c') && AllCurrent(c', all)
    decreases |records|
  {
    hide Consistent, Current, CleanupOne, Holds, Released;
    if records != [] {
      var m :| CleanupAll(c, Init(records), m) && CleanupOne(m, Last(records), c', None);
      CleanupAllConsistent(c, Init(records), m, all);
      var r := Last(records);
      assert r == all[|records| - 1];
      CleanupOneConsistentExactly(m, r, c', None);
      CleanupOneMemory(m, r, c', None);
      forall i | 0 <= i < |all| ensures Current(c', all[i]) {
        CurrentStays(m, r, all[i]);
        CurrentDependsOnMemory(Released(m, r), c', all[i]);
      }
    }
  }

  lemma CurrentDependsOnMemory(c: Ctl, d: Ctl, r: NcStatus)
    requires c.ipam == d.ipam && c.cache == d.cache
    ensures Current(c, r) <==> Current(d, r)
  {
  }

  lemma CleanupConsistent(c: Ctl, records: seq<NcStatus>, c': Ctl, f: Option<Failure>)
    requires Consistent(c) && AllCurrent(c, records) && CleanupExit(c, records, c', f)
    ensures Consistent(c')
  {
    hide Consistent, Current, CleanupOne, CleanupAll;
    var n: nat :| CleanupUpTo(c, records, n, c', f);
    if f.None? {
      CleanupAllConsistent(c, records, c', records);
    } else {
      var m :| CleanupAll(c, records[..n], m) && CleanupOne(m, records[n], c', f);
      CleanupAllConsistent(c, records[..n], m, records);
      CleanupOneConsistentExactly(m, records[n], c', f);
    }
  }

  lemma BuildConsistent(c: Ctl, net: NetName, c': Ctl, r: Result<(), Failure>)
    requires Consistent(c) && BuildExit(c, net, c', r)
    requires MacsDistinct(RecordsOf(c.pools[net])) && 0 !in MacAddrs(RecordsOf(c.pools[net]))
    ensures Consistent(c')
  {
    hide Buildable, Built, Pooled, Replayed, MacsDistinct, Agrees;
    if c' != c {
      var done, macs :| RebuiltTo(c, net, done, macs, c');
      ReplayAgrees(RecordsOf(c.pools[net]), done, macs, c'.ipam[net].ips);
    }
  }

  // ---------------------------------------------------------------- every run

  /** One step of the controller process, or of the world around it. Pool objects may change in any
      way between steps; what is asked for is that cleaned-up records are current, and that a pool
      being rebuilt records no MAC twice. */
  ghost predicate MemoryStep(c: Ctl, c': Ctl) {
    || (exists cfg, r :: AllocateExit(c, cfg, c', r))
    || (exists records, f :: AllCurrent(c, records) && CleanupExit(c, records, c', f))
    || (exists net ::
          net in c.pools && BuildStep(c, net, c') && MacsDistinct(RecordsOf(c.pools[net]))
          && 0 !in MacAddrs(RecordsOf(c.pools[net])))
    || (exists net :: PoolOnChangeExit(c, net, c'))
    || c' == c.(ipam := map[], cache := map[])
    || (c'.ipam == c.ipam && c'.cache == c.cache)
  }

  ghost predicate MemoryRun(tr: seq<Ctl>) {
    && |tr| > 0 && tr[0].ipam == map[] && tr[0].cache == map[]
    && forall i :: 0 <= i < |tr| - 1 ==> MemoryStep(tr[i], tr[i + 1])
  }

  lemma DroppedConsistent(c: Ctl, net: NetName)
    requires Consistent(c)
    ensures Consistent(Dropped(c, net))
  {
    hide Agrees;
  }

  lemma PoolsDoNotMatter(c: Ctl, d: Ctl)
    requires Consistent(c) && c.ipam == d.ipam && c.cache == d.cache
    ensures Consistent(d)
  {
  }

  lemma MemoryStepConsistent(c: Ctl, c': Ctl)
    requires Consistent(c) && MemoryStep(c, c')
    ensures Consistent(c')
  {
    hide Consistent, AllCurrent, AllocateExit, CleanupExit, BuildExit, Refreshed, MacsDistinct;
    if cfg, r :| AllocateExit(c, cfg, c', r) {
      AllocateConsistent(c, cfg, c', r);
    } else if records, f :| AllCurrent(c, records) && CleanupExit(c, records, c', f) {
      CleanupConsistent(c, records, c', f);
    } else if net :| net in c.pools && BuildStep(c, net, c') && MacsDistinct(RecordsOf(c.pools[net]))
                     && 0 !in MacAddrs(RecordsOf(c.pools[net])) {
      var d, r :| BuildExit(c, net, d, r) && c'.ipam == d.ipam && c'.cache == d.cache;
      BuildConsistent(c, net, d, r);
      PoolsDoNotMatter(d, c');
    } else if net :| PoolOnChangeExit(c, net, c') {
      DroppedConsistent(c, net);
      PoolsDoNotMatter(Dropped(c, net), Dropped(c, net).(pools := c'.pools));
      PoolsDoNotMatter(c, c.(pools := c'.pools));
    } else if c'.ipam == map[] && c'.cache == map[] {
      EmptyConsistent(c');
    } else {
      PoolsDoNotMatter(c, c');
    }
  }

  lemma EmptyConsistent(c: Ctl)
    requires c.ipam == map[] && c.cache == map[]
    ensures Consistent(c)
  {
  }

  /** Whatever happens, and wherever each handler stops, the allocators agree. */
  lemma {:induction false} AllocatorsAgreeInEveryRun(tr: seq<Ctl>, i: nat)
    requires MemoryRun(tr) && i < |tr|
    ensures Consistent(tr[i])
  {
    hide Consistent, MemoryStep;
    if i == 0 {
      EmptyConsistent(tr[0]);
    } else {
      AllocatorsAgreeInEveryRun(tr, i - 1);
      MemoryStepConsistent(tr[i - 1], tr[i - 1 + 1]);
    }
  }
}

/** What one successful Sync does, through the record slice it shares with cleanup. */
module SyncLaws {
  import opened Basics
  import opened Stores
  import opened VmNetCfg

  /** The addresses and the MACs that a list of records names on a network. */
  function AddrsOn(records: seq<NcStatus>, net: NetName): set<Addr> {
    set r | r in records && r.net == net && r.ip.Ip? :: r.ip.addr
  }

  function MacsOn(records: seq<NcStatus>, net: NetName): set<Mac> {
    set r | r in records && r.net == net :: r.mac
  }

  function FreedIps(ips: map<Addr, bool>, addrs: set<Addr>): map<Addr, bool> {
    map a | a in ips :: ips[a] && a !in addrs
  }

  function ErasedFrom(p: Pool, addrs: set<Addr>): Pool {
    if p.ipv4.Some? then p.(ipv4 := Some(p.ipv4.value.(entries := p.ipv4.value.entries - addrs))) else p
  }

  /** Exactly the named addresses are freed and erased, exactly the named MACs forgotten, on their
      networks; nothing else differs. */
  ghost predicate ReleasedExactly(c: Ctl, records: seq<NcStatus>, c': Ctl) {
    && c'.ipam.Keys == c.ipam.Keys && c'.cache.Keys == c.cache.Keys && c'.pools.Keys == c.pools.Keys
    && (forall net :: net in c.ipam ==>
        c'.ipam[net] == c.ipam[net].(ips := FreedIps(c.ipam[net].ips, AddrsOn(records, net))))
    && (forall net :: net in c.cache ==> c'.cache[net] == c.cache[net] - MacsOn(records, net))
    && (forall net :: net in c.pools ==> c'.pools[net] == ErasedFrom(c.pools[net], AddrsOn(records, net)))
  }

  lemma OneMore(records: seq<NcStatus>, net: NetName)
    requires records != [] && Last(records).ip.Ip?
    ensures var r := Last(records);
      && (r.net == net ==> AddrsOn(records, net) == AddrsOn(Init(records), net) + {r.ip.addr})
      && (r.net == net ==> MacsOn(records, net) == MacsOn(Init(records), net) + {r.mac})
      && (r.net != net ==>
            AddrsOn(records, net) == AddrsOn(Init(records), net)
            && MacsOn(records, net) == MacsOn(Init(records), net))
  {
    assert records == Init(records) + [Last(records)];
  }

  /** What the cleanup of one record changes, store by store. */
  lemma CleanupOneEffect(m: Ctl, r: NcStatus, c': Ctl)
    requires CleanupOne(m, r, c', None)
    ensures r.ip.Ip? && r.net in m.ipam && r.net in m.cache && r.net in m.pools && m.pools[r.net].ipv4.Some?
    ensures r.ip.addr in m.ipam[r.net].ips
    ensures c'.ipam == m.ipam[r.net := m.ipam[r.net].(ips := m.ipam[r.net].ips[r.ip.addr := false])]
    ensures c'.cache == m.cache[r.net := m.cache[r.net] - {r.mac}]
    ensures c'.pools == m.pools[r.net := WithoutRecord(m.pools[r.net], r.ip.addr)]
  {
  }

  lemma FreedTwice(ips: map<Addr, bool>, addrs: set<Addr>, a: Addr)
    requires a in ips
    ensures FreedIps(ips, addrs)[a := false] == FreedIps(ips, addrs + {a})
  {
  }

  lemma ErasedTwice(p: Pool, addrs: set<Addr>, a: Addr)
    requires p.ipv4.Some?
    ensures WithoutRecord(ErasedFrom(p, addrs), a) == ErasedFrom(p, addrs + {a})
  {
    assert p.ipv4.value.entries - addrs - {a} == p.ipv4.value.entries - (addrs + {a});
  }

  lemma ForgottenTwice(macs: map<Mac, Addr>, gone: set<Mac>, m: Mac)
    ensures macs - gone - {m} == macs - (gone + {m})
  {
  }

  lemma NothingReleased(c: Ctl)
    ensures ReleasedExactly(c, [], c)
  {
    forall net | net in c.ipam ensures c.ipam[net] == c.ipam[net].(ips := FreedIps(c.ipam[net].ips, AddrsOn([], net))) {
      assert FreedIps(c.ipam[net].ips, AddrsOn([], net)) == c.ipam[net].ips;
    }
    forall net | net in c.cache ensures c.cache[net] == c.cache[net] - MacsOn([], net) {
    }
    forall net | net in c.pools ensures c.pools[net] == ErasedFrom(c.pools[net], AddrsOn([], net)) {
      if c.pools[net].ipv4.Some? {
        assert c.pools[net].ipv4.value.entries - AddrsOn([], net) == c.pools[net].ipv4.value.entries;
      }
    }
  }

  lemma OneMoreReleased(c: Ctl, records: seq<NcStatus>, m: Ctl, c': Ctl)
    requires records != [] && ReleasedExactly(c, Init(records), m) && CleanupOne(m, Last(records), c', None)
    ensures ReleasedExactly(c, records, c')
  {
    hide AddrsOn, MacsOn, FreedIps, ErasedFrom, CleanupOne, WithoutRecord;
    var r := Last(records);
    CleanupOneEffect(m, r, c');
    forall net | net in c.ipam
      ensures c'.ipam[net] == c.ipam[net].(ips := FreedIps(c.ipam[net].ips, AddrsOn(records, net)))
    {
      OneMore(records, net);
      if net == r.net {
        FreedKeys(c.ipam[net].ips, AddrsOn(Init(records), net));
        FreedTwice(c.ipam[net].ips, AddrsOn(Init(records), net), r.ip.addr);
      }
    }
    forall net | net in c.cache ensures c'.cache[net] == c.cache[net] - MacsOn(records, net) {
      OneMore(records, net);
      if net == r.net { ForgottenTwice(c.cache[net], MacsOn(Init(records), net), r.mac); }
    }
    forall net | net in c.pools ensures c'.pools[net] == ErasedFrom(c.pools[net], AddrsOn(records, net)) {
      OneMore(records, net);
      if net == r.net {
        ErasedKeepsStatus(c.pools[net], AddrsOn(Init(records), net));
        ErasedTwice(c.pools[net], AddrsOn(Init(records), net), r.ip.addr);
      }
    }
  }

  lemma FreedKeys(ips: map<Addr, bool>, addrs: set<Addr>)
    ensures FreedIps(ips, addrs).Keys == ips.Keys
  {
  }

  lemma ErasedKeepsStatus(p: Pool, addrs: set<Addr>)
    ensures ErasedFrom(p, addrs).ipv4.Some? <==> p.ipv4.Some?
  {
  }

  /** A cleanup that succeeds releases exactly what its records name. */
  lemma {:induction false} CleanupExact(c: Ctl, records: seq<NcStatus>, c': Ctl)
    requires CleanupAll(c, records, c')
    ensures ReleasedExactly(c, records, c')
    decreases |records|
  {
    hide CleanupOne, ReleasedExactly;
    if records == [] {
      NothingReleased(c);
    } else {
      var m :| CleanupAll(c, Init(records), m) && CleanupOne(m, Last(records), c', None);
      CleanupExact(c, Init(records), m);
      OneMoreReleased(c, records, m, c');
    }
  }

  lemma StopKeepsPools(c: Ctl, r: NcStatus, c': Ctl, f: Failure)
    requires CleanupOne(c, r, c', Some(f))
    ensures c'.pools == c.pools
  {
  }

  /** Wherever a cleanup stops, exactly the addresses of the records before that point are erased. */
  lemma CleanupErases(c: Ctl, records: seq<NcStatus>, n: nat, c': Ctl, f: Option<Failure>)
    requires CleanupUpTo(c, records, n, c', f)
    ensures n <= |records| && c'.pools.Keys == c.pools.Keys
    ensures forall net :: net in c.pools ==> c'.pools[net] == ErasedFrom(c.pools[net], AddrsOn(records[..n], net))
  {
    hide CleanupOne, CleanupAll, ErasedFrom, AddrsOn;
    if f.None? {
      assert records[..n] == records;
      CleanupExact(c, records, c');
    } else {
      var m :| CleanupAll(c, records[..n], m) && CleanupOne(m, records[n], c', f);
      CleanupExact(c, records[..n], m);
      StopKeepsPools(m, records[n], c', f.value);
    }
  }

  // ---------------------------------------------------------------- which records are stale

  /** The records the spec no longer names, in their order. */
  function Lost(records: seq<NcStatus>, macs: set<Mac>): seq<NcStatus> {
    if records == [] then []
    else if Last(records).mac in macs then Lost(Init(records), macs)
    else Lost(Init(records), macs) + [Last(records)]
  }

  function AsStale(records: seq<NcStatus>): (r: seq<NcStatus>)
    ensures |r| == |records|
  {
    seq(|records|, i requires 0 <= i < |records| => records[i].(state := StaleState))
  }

  /** `part` is what `whole` holds at the positions `at`, in their order. */
  predicate InOrder(whole: seq<NcStatus>, part: seq<NcStatus>, at: seq<nat>) {
    && |at| == |part|
    && (forall i :: 0 <= i < |at| ==> at[i] < |whole| && part[i] == whole[at[i]])
    && (forall i, j :: 0 <= i < j < |at| ==> at[i] < at[j])
  }

  lemma OneMoreInOrder(whole: seq<NcStatus>, part: seq<NcStatus>, at: seq<nat>)
    requires whole != [] && InOrder(Init(whole), part, at)
    ensures InOrder(whole, part, at) && InOrder(whole, part + [Last(whole)], at + [|whole| - 1])
  {
  }

  /** Both lists keep the original order. */
  lemma {:induction false} KeptInOrder(records: seq<NcStatus>, macs: set<Mac>) returns (kept: seq<nat>, lost: seq<nat>)
    ensures InOrder(records, Kept(records, macs), kept) && InOrder(records, Lost(records, macs), lost)
  {
    kept, lost := [], [];
    if records != [] {
      kept, lost := KeptInOrder(Init(records), macs);
      OneMoreInOrder(records, Kept(Init(records), macs), kept);
      OneMoreInOrder(records, Lost(Init(records), macs), lost);
      if Last(records).mac in macs {
        kept := kept + [|records| - 1];
      } else {
        lost := lost + [|records| - 1];
      }
    }
  }

  /** Every record is kept or lost, never both. */
  lemma {:induction false} KeptOrLost(records: seq<NcStatus>, macs: set<Mac>)
    ensures multiset(records) == multiset(Kept(records, macs)) + multiset(Lost(records, macs))
    ensures forall r :: r in Kept(records, macs) ==> r in records && r.mac in macs
    ensures forall r :: r in Lost(records, macs) ==> r in records && r.mac !in macs
    ensures forall r :: r in records ==> r in (if r.mac in macs then Kept(records, macs) else Lost(records, macs))
  {
    if records != [] {
      KeptOrLost(Init(records), macs);
      assert records == Init(records) + [Last(records)];
    }
  }

  /** The marks select exactly the lost records, unless something was stale beforehand. */
  lemma {:induction false} MarksSelectLost(records: seq<NcStatus>, macs: set<Mac>)
    requires forall i :: 0 <= i < |records| ==> records[i].state != StaleState
    ensures Selected(MarkStale(records, macs), true) == AsStale(Lost(records, macs))
  {
    if records != [] {
      MarksSelectLost(Init(records), macs);
      assert Init(MarkStale(records, macs)) == MarkStale(Init(records), macs);
      if Last(records).mac !in macs {
        assert AsStale(Lost(records, macs))
            == AsStale(Lost(Init(records), macs)) + [Last(records).(state := StaleState)];
      }
    }
  }

  lemma StaleNamesTheSame(records: seq<NcStatus>, net: NetName)
    ensures AddrsOn(AsStale(records), net) == AddrsOn(records, net)
    ensures MacsOn(AsStale(records), net) == MacsOn(records, net)
  {
    var stale := AsStale(records);
    forall r | r in records ensures r.(state := StaleState) in stale {
      var i :| 0 <= i < |records| && records[i] == r;
      assert stale[i] == r.(state := StaleState);
    }
    forall q | q in stale ensures exists r :: r in records && r.(state := StaleState) == q {
      var i :| 0 <= i < |stale| && stale[i] == q;
      assert records[i] in records && records[i].(state := StaleState) == q;
    }
  }

  /** Sync leaves an object that is in sync alone: nothing is released, and its wrapper has nothing to write. */
  lemma InSyncIsLeftAlone(c: Ctl, cfg: Cfg, c': Ctl, r: Result<seq<NcStatus>, Failure>)
    requires SyncExit(c, cfg, c', r) && !cfg.paused && cfg.status.inSynced == True
    ensures c' == c && StatusAfter(SyncKind, cfg.status, r) == cfg.status
  {
  }

  /** A successful Sync of an object that is not in sync keeps, in order, the records whose MAC the
      spec names, and releases exactly the others. */
  lemma SyncExact(c: Ctl, cfg: Cfg, c': Ctl, outs: seq<NcStatus>)
    requires SyncExit(c, cfg, c', Ok(outs)) && cfg.status.inSynced != True
    requires forall i :: 0 <= i < |cfg.status.records| ==> cfg.status.records[i].state != StaleState
    ensures outs == Kept(cfg.status.records, MacsOf(cfg.configs))
    ensures ReleasedExactly(c, Lost(cfg.status.records, MacsOf(cfg.configs)), c')
  {
    hide ReleasedExactly, CleanupAll;
    var records, macs := cfg.status.records, MacsOf(cfg.configs);
    MarksSelectLost(records, macs);
    CleanupExact(c, AsStale(Lost(records, macs)), c');
    SameNamesSameRelease(c, Lost(records, macs), c');
  }

  lemma SameNamesSameRelease(c: Ctl, records: seq<NcStatus>, c': Ctl)
    requires ReleasedExactly(c, AsStale(records), c')
    ensures ReleasedExactly(c, records, c')
  {
    hide AddrsOn, MacsOn, FreedIps, ErasedFrom, AsStale;
    forall net ensures AddrsOn(AsStale(records), net) == AddrsOn(records, net)
        && MacsOn(AsStale(records), net) == MacsOn(records, net) {
      StaleNamesTheSame(records, net);
    }
  }

  // ---------------------------------------------------------------- NICs that move

  /** The spec has a NIC with this MAC on this network. */
  predicate Named(configs: seq<NetworkConfig>, net: NetName, mac: Mac) {
    exists i :: 0 <= i < |configs| && configs[i].net == net && configs[i].mac == mac
  }

  /** Sync compares MACs only. Every record it leaves is one of a NIC in the spec if and only if no record
      belongs to a NIC that the spec has moved to another network. */
  lemma SyncSettlesExactly(c: Ctl, cfg: Cfg, c': Ctl, outs: seq<NcStatus>)
    requires SyncExit(c, cfg, c', Ok(outs)) && cfg.status.inSynced != True
    ensures (forall r :: r in outs ==> Named(cfg.configs, r.net, r.mac)) <==>
      forall r :: r in cfg.status.records && !Named(cfg.configs, r.net, r.mac) ==> r.mac !in MacsOf(cfg.configs)
  {
    hide CleanupExit, Kept, Selected, MarkStale, Named, MacsOf;
    KeptOrLost(cfg.status.records, MacsOf(cfg.configs));
  }

  lemma NothingToClean(c: Ctl, c': Ctl, f: Option<Failure>)
    requires CleanupExit(c, [], c', f)
    ensures f.None? && c' == c
  {
    hide CleanupOne;
  }

  lemma OneKept(r: NcStatus, macs: set<Mac>)
    requires r.mac in macs && r.state != StaleState
    ensures Kept([r], macs) == [r] && Selected(MarkStale([r], macs), true) == []
  {
    assert Init([r]) == [] && MarkStale([r], macs) == [r];
  }

  /** Such a NIC: whatever Sync runs into, its old address is neither released nor withdrawn, and Allocate
      goes on to ask for that address on the new network. */
  lemma MovedNicKeepsAddress(c: Ctl, m: Mac, a: Addr, there: NetName, here: NetName, c': Ctl,
                             r: Result<seq<NcStatus>, Failure>)
    requires there != here
    requires var cfg := Cfg([NetworkConfig(here, m, Unset)], false,
                            CfgStatus([NcStatus(Ip(a), m, there, AllocatedState)], True, Absent, False));
      SyncExit(c, cfg, c', r)
    ensures var records := [NcStatus(Ip(a), m, there, AllocatedState)];
      && c' == c && r == Ok(records) && !Named([NetworkConfig(here, m, Unset)], there, m)
      && Designated(NetworkConfig(here, m, Unset), records) == Ip(a)
  {
    hide CleanupExit, Selected, MarkStale, Kept;
    var configs, record := [NetworkConfig(here, m, Unset)], NcStatus(Ip(a), m, there, AllocatedState);
    assert configs[0].mac in MacsOf(configs);
    OneKept(record, MacsOf(configs));
    NothingToClean(c, c', if r.Ok? then None else Some(r.error));
  }
}

/** A MAC gets the address it had: exactly when one round of Allocate guarantees it, and over whole runs. */
module Sticky {
  import opened Basics
  import opened Prefix
  import opened Admission
  import opened Ipam
  import opened Stores
  import opened VmNetCfg
  import opened PoolControl
  import opened Agreement
  import opened Retries
  import opened SyncLaws
  import opened PoolLaws
  import opened FreeRuns
  import opened Invariant
  import opened Runs
  import opened Recovery

  // ---------------------------------------------------------------- one round

  /** The record the lookup by MAC finds: the first that is not empty, on whatever network. */
  function FirstRecord(records: seq<NcStatus>, mac: Mac): Option<NcStatus> {
    if records == [] then None
    else if records[0].mac == mac && !records[0].ip.Unset? then Some(records[0])
    else FirstRecord(records[1..], mac)
  }

  /** The address recorded first for the MAC on this network. */
  function RecordedOn(records: seq<NcStatus>, net: NetName, mac: Mac): Option<AddrText> {
    if records == [] then None
    else if records[0].net == net && records[0].mac == mac && !records[0].ip.Unset? then Some(records[0].ip)
    else RecordedOn(records[1..], net, mac)
  }

  lemma {:induction false} LookupIgnoresNetwork(records: seq<NcStatus>, net: NetName, mac: Mac)
    ensures RecordedIP(records, mac)
         == if FirstRecord(records, mac).Some? then Some(FirstRecord(records, mac).value.ip) else None
    ensures RecordedOn(records, net, mac).Some? ==> FirstRecord(records, mac).Some?
    ensures FirstRecord(records, mac).Some? && FirstRecord(records, mac).value.net == net ==>
              RecordedOn(records, net, mac) == Some(FirstRecord(records, mac).value.ip)
  {
    if records != [] { LookupIgnoresNetwork(records[1..], net, mac); }
  }

  /** Every round that succeeds publishes `b`. */
  ghost predicate AlwaysPublishes(c: Ctl, nc: NetworkConfig, records: seq<NcStatus>, b: Addr) {
    forall c', r :: AllocateOne(c, nc, records, c', r) && r.Ok? ==> r.value == Published(nc, b)
  }

  /** Taking an address that can be taken, with every write landing, is one way a round can end. */
  lemma RoundCanTake(c: Ctl, nc: NetworkConfig, records: seq<NcStatus>, a: Addr) returns (c': Ctl)
    requires nc.net in c.pools && c.pools[nc.net].cacheReady == True
    requires nc.net in c.cache && nc.mac !in c.cache[nc.net] && CanTake(c.ipam, nc.net, Designated(nc, records), a)
    ensures AllocateOne(c, nc, records, c', Ok(Published(nc, a))) && c' == Entered(Taken(c, nc, a), nc, a)
  {
    hide Designated;
    c' := Entered(Taken(c, nc, a), nc, a);
    assert EnterStep(Taken(c, nc, a), nc, a, c', Ok(Published(nc, a)));
  }

  /** No record of the MAC holds an address. */
  predicate Unrecorded(records: seq<NcStatus>, mac: Mac) {
    forall k :: 0 <= k < |records| && records[k].mac == mac ==> records[k].ip == Unset
  }

  lemma {:induction false} NothingRecorded(records: seq<NcStatus>, mac: Mac)
    requires Unrecorded(records, mac)
    ensures RecordedIP(records, mac) == None
  {
    if records != [] {
      assert forall k :: 0 <= k < |records[1..]| ==> records[1..][k] == records[k + 1];
      NothingRecorded(records[1..], mac);
    }
  }

  /** A new NIC whose spec asks for an address: a round for a ready pool can succeed if and only if that very
      address is free, and publishes it then and no other. */
  lemma SpecAddressExactly(c: Ctl, nc: NetworkConfig, records: seq<NcStatus>, b: Addr)
    requires nc.net in c.pools && c.pools[nc.net].cacheReady == True && nc.net in c.cache && nc.mac !in c.cache[nc.net]
    requires Unrecorded(records, nc.mac) && nc.ip == Ip(b) && b != 0
    ensures (exists c', out :: AllocateOne(c, nc, records, c', Ok(out))) <==> CanTake(c.ipam, nc.net, Ip(b), b)
    ensures forall c', out :: AllocateOne(c, nc, records, c', Ok(out)) ==> out == Published(nc, b)
  {
    hide RecordedIP, Contains;
    NothingRecorded(records, nc.mac);
    if CanTake(c.ipam, nc.net, Ip(b), b) {
      var c' := RoundCanTake(c, nc, records, b);
    }
  }

  /** A new NIC whose spec asks for no address, or for 0.0.0.0, may get any free one, and only those. */
  lemma AnyAddressExactly(c: Ctl, nc: NetworkConfig, records: seq<NcStatus>, a: Addr)
    requires nc.net in c.pools && c.pools[nc.net].cacheReady == True && nc.net in c.cache && nc.mac !in c.cache[nc.net]
    requires Unrecorded(records, nc.mac) && (nc.ip == Unset || nc.ip == Ip(0))
    ensures (exists c' :: AllocateOne(c, nc, records, c', Ok(Published(nc, a))))
       <==> nc.net in c.ipam && a in c.ipam[nc.net].ips && !c.ipam[nc.net].ips[a]
  {
    hide RecordedIP, Contains;
    NothingRecorded(records, nc.mac);
    if CanTake(c.ipam, nc.net, nc.ip, a) {
      var c' := RoundCanTake(c, nc, records, a);
    }
  }

  /** One whose spec asks for text that is no address gets none. */
  lemma MalformedNeverServed(c: Ctl, nc: NetworkConfig, records: seq<NcStatus>, c': Ctl, r: Result<NcStatus, Failure>)
    requires AllocateOne(c, nc, records, c', r) && nc.net in c.cache && nc.mac !in c.cache[nc.net]
    requires Unrecorded(records, nc.mac) && nc.ip == Malformed
    ensures r.Err? && c' == c
  {
    hide RecordedIP, Contains;
    NothingRecorded(records, nc.mac);
  }

  /** In a state of a run, an address can be asked for by name exactly if the subnet manages it and it is free. */
  lemma FreeCanBeNamed(services: CidrText, c: Ctl, net: NetName, b: Addr)
    requires CtlOk(services, c) && b != 0
    ensures CanTake(c.ipam, net, Ip(b), b) <==> net in c.ipam && b in c.ipam[net].ips && !c.ipam[net].ips[b]
  {
    hide Contains, Network, Broadcast, NetOf, Pooled, Agrees, Disjoint;
    if net in c.ipam && b in c.ipam[net].ips {
      var p := c.pools[net].config;
      LiveKeys(c.pools[net], c.ipam[net], c.cache[net]);
      PooledIsClean(services, p, b);
      ContainsMeans(p.cidr, b);
    }
  }

  /** The records name `b` for this network and MAC, and they are current. A round for a ready pool then
      keeps to `b` if and only if the MAC is still cached, or the first record of the MAC is on this
      network, or the address recorded first elsewhere cannot be taken here. */
  lemma StickyExactly(c: Ctl, nc: NetworkConfig, records: seq<NcStatus>, b: Addr)
    requires nc.net in c.pools && c.pools[nc.net].cacheReady == True && nc.net in c.cache
    requires RecordedOn(records, nc.net, nc.mac) == Some(Ip(b)) && CurrentPair(c.cache[nc.net], nc.mac, b)
    ensures FirstRecord(records, nc.mac).Some?
    ensures AlwaysPublishes(c, nc, records, b) <==>
      var first := FirstRecord(records, nc.mac).value;
      || nc.mac in c.cache[nc.net]
      || (first.net == nc.net && b != 0)
      || forall a :: CanTake(c.ipam, nc.net, first.ip, a) ==> a == b
  {
    hide RecordedOn, FirstRecord, RecordedIP, Contains;
    LookupIgnoresNetwork(records, nc.net, nc.mac);
    var first := FirstRecord(records, nc.mac).value;
    if nc.mac !in c.cache[nc.net] && exists a :: CanTake(c.ipam, nc.net, first.ip, a) && a != b {
      var a :| CanTake(c.ipam, nc.net, first.ip, a) && a != b;
      var c' := RoundCanTake(c, nc, records, a);
    }
  }

  /** One MAC on two networks: the lookup by MAC finds the record of the other network, and Allocate
      publishes that address although this network had recorded another. */
  lemma OtherNetworkWins(c: Ctl, m: Mac, there: NetName, a: Addr, here: NetName, b: Addr) returns (c': Ctl)
    requires here in c.pools && c.pools[here].cacheReady == True && here in c.cache && m !in c.cache[here]
    requires there != here && a != b && CanTake(c.ipam, here, Ip(a), a)
    ensures var nc := NetworkConfig(here, m, Unset);
      var records := [NcStatus(Ip(a), m, there, PendingState), NcStatus(Ip(b), m, here, PendingState)];
      && RecordedOn(records, here, m) == Some(Ip(b))
      && AllocateOne(c, nc, records, c', Ok(Published(nc, a)))
  {
    hide CanTake;
    var nc := NetworkConfig(here, m, Unset);
    var records := [NcStatus(Ip(a), m, there, PendingState), NcStatus(Ip(b), m, here, PendingState)];
    assert RecordedOn(records[1..], here, m) == Some(Ip(b));
    c' := RoundCanTake(c, nc, records, a);
  }

  // ---------------------------------------------------------------- while allocated

  /** In every state of every run: a record is published as allocated, and no cleanup released it while it
      was. A run of Allocate that succeeds, for any object, publishes that address for that NIC. */
  lemma AllocatedIsSticky(services: CidrText, tr: seq<Sys>, gone: seq<seq<NcStatus>>, j: nat, key: Key, r: NcStatus,
                          cfg: Cfg, c': Ctl, outs: seq<NcStatus>)
    requires Run(services, tr, gone) && j < |tr| && key in tr[j].cfgs && r in tr[j].cfgs[key].status.records
    requires r.state == AllocatedState && KeptWhilePublished(tr, gone, key, r, j)
    requires AllocateExit(tr[j].ctl, cfg, c', Ok(outs))
    ensures r.ip.Ip? && |outs| == |cfg.configs|
    ensures forall k :: 0 <= k < |outs| && cfg.configs[k].net == r.net && cfg.configs[k].mac == r.mac ==>
              outs[k] == Published(cfg.configs[k], r.ip.addr)
  {
    hide Step, Fresh, CtlOk, RecordedFor, AllocateExit, KeptWhilePublished;
    PublishedIsDurable(services, tr, gone, j, key, r);
    EveryRunOk(services, tr, gone, j);
    RecordedNic(services, tr[j].ctl, TicketOf(r), cfg, c', outs);
  }

  /** The records that an object publishes as allocated for its NICs, one for each in turn. */
  ghost predicate Settled(cfg: Cfg, picks: seq<NcStatus>) {
    && |picks| == |cfg.configs|
    && forall k :: 0 <= k < |picks| ==>
      && picks[k] in cfg.status.records && picks[k].state == AllocatedState
      && picks[k].net == cfg.configs[k].net && picks[k].mac == cfg.configs[k].mac
  }

  /** If that is so for every NIC of an object, running Allocate on it again changes nothing. It succeeds
      exactly when the object may be served and all its pools are ready and in memory, and then publishes
      the same addresses. */
  lemma ObjectIsSticky(services: CidrText, tr: seq<Sys>, gone: seq<seq<NcStatus>>, j: nat, key: Key,
                       picks: seq<NcStatus>, c': Ctl, r: Result<seq<NcStatus>, Failure>)
    requires Run(services, tr, gone) && j < |tr| && key in tr[j].cfgs && Settled(tr[j].cfgs[key], picks)
    requires forall k :: 0 <= k < |picks| ==> KeptWhilePublished(tr, gone, key, picks[k], j)
    requires AllocateExit(tr[j].ctl, tr[j].cfgs[key], c', r)
    ensures c' == tr[j].ctl
    ensures var cfg := tr[j].cfgs[key];
      && (r.Ok? <==>
            && !cfg.paused && cfg.status.inSynced != False && cfg.configs != []
            && forall k :: 0 <= k < |cfg.configs| ==> Serving(tr[j].ctl, cfg.configs[k].net))
      && (r.Ok? ==>
            && |r.value| == |picks|
            && forall k :: 0 <= k < |picks| ==>
                 picks[k].ip.Ip? && r.value[k] == Published(cfg.configs[k], picks[k].ip.addr))
  {
    hide Step, Fresh, CtlOk, RecordedFor, AllocateExit, KeptWhilePublished, Serving;
    forall k | 0 <= k < |picks| ensures Durable(tr[j].ctl, picks[k]) {
      PublishedIsDurable(services, tr, gone, j, key, picks[k]);
    }
    var tickets := seq(|picks|, k requires 0 <= k < |picks| =>
      assert Durable(tr[j].ctl, picks[k]); TicketOf(picks[k]));
    EveryRunOk(services, tr, gone, j);
    RecordedObject(services, tr[j].ctl, tr[j].cfgs[key], tickets, c', r);
  }

  // ---------------------------------------------------------------- from pause to resume

  /** Neither memory nor the pool status knows the MAC on this network. */
  ghost predicate Cleared(c: Ctl, net: NetName, mac: Mac) {
    && (net in c.cache ==> mac !in c.cache[net])
    && forall a :: !Recorded(c, Ticket(net, a, mac))
  }

  /** Only paused objects ask for the MAC on this network. */
  ghost predicate OnlyPaused(cfgs: map<Key, Cfg>, net: NetName, mac: Mac) {
    forall k :: k in cfgs && mac in SpecMacs(cfgs[k].configs, net) ==> cfgs[k].paused
  }

  /** What memory knows of a MAC afterwards it knew before, or the pool status did; no record is new. */
  ghost predicate KnowsLess(c: Ctl, c': Ctl) {
    && Retained(c', c)
    && forall net, m :: net in c'.cache && m in c'.cache[net] ==> KnewBefore(c, net, m, c'.cache[net][m])
  }

  ghost predicate KnewBefore(c: Ctl, net: NetName, m: Mac, a: Addr) {
    (net in c.cache && m in c.cache[net] && c.cache[net][m] == a) || Recorded(c, Ticket(net, a, m))
  }

  /** No network caches what it did not cache before. */
  ghost predicate CachesLess(c: Ctl, c': Ctl) {
    forall net, m :: net in c'.cache && m in c'.cache[net] ==>
      net in c.cache && m in c.cache[net] && c.cache[net][m] == c'.cache[net][m]
  }

  lemma LessStaysCleared(c: Ctl, c': Ctl, net: NetName, mac: Mac)
    requires Cleared(c, net, mac) && KnowsLess(c, c')
    ensures Cleared(c', net, mac)
  {
    hide RecordedFor;
    assert net in c'.cache && mac in c'.cache[net] ==> KnewBefore(c, net, mac, c'.cache[net][mac]);
  }

  lemma StopCachesLess(c: Ctl, r: NcStatus, c': Ctl, f: Option<Failure>)
    requires CleanupOne(c, r, c', f)
    ensures CachesLess(c, c')
  {
  }

  /** Wherever a cleanup stops, the MACs of the records before that point are no longer cached. */
  lemma CleanupForgets(c: Ctl, records: seq<NcStatus>, n: nat, c': Ctl, f: Option<Failure>)
    requires CleanupUpTo(c, records, n, c', f)
    ensures n <= |records| && CachesLess(c, c')
    ensures forall r :: r in records[..n] && r.net in c'.cache ==> r.mac !in c'.cache[r.net]
  {
    hide CleanupOne, CleanupAll, ErasedFrom, FreedIps, AddrsOn;
    if f.None? {
      assert records[..n] == records;
      CleanupExact(c, records, c');
      assert forall r :: r in records ==> r.mac in MacsOn(records, r.net);
    } else {
      var m :| CleanupAll(c, records[..n], m) && CleanupOne(m, records[n], c', f);
      CleanupExact(c, records[..n], m);
      assert forall r :: r in records[..n] ==> r.mac in MacsOn(records[..n], r.net);
      StopCachesLess(m, records[n], c', f);
    }
  }

  lemma CleanupRetains(c: Ctl, records: seq<NcStatus>, n: nat, c': Ctl, f: Option<Failure>)
    requires CleanupUpTo(c, records, n, c', f)
    ensures Retained(c', c)
  {
    hide CleanupUpTo, AddrsOn, ErasedFrom, RecordedFor;
    CleanupErases(c, records, n, c', f);
    forall net, a, m | net in c.pools && RecordedFor(c'.pools[net], a, m) ensures RecordedFor(c.pools[net], a, m) {
      ErasedRecords(c.pools[net], AddrsOn(records[..n], net), a, m);
    }
  }

  /** What a cleanup released, both memory and the pool status have forgotten. */
  lemma ReleasedIsCleared(services: CidrText, c: Ctl, records: seq<NcStatus>, gone: seq<NcStatus>, c': Ctl, r: NcStatus)
    requires CtlOk(services, c) && Releases(c, records, gone, c') && r in gone
    ensures Cleared(c', r.net, r.mac) && Holds(c.ipam, r.net, r.ip)
  {
    hide CtlOk, CleanupAll, CleanupOne, RecordedFor;
    var f :| CleanupUpTo(c, records, |gone|, c', f) && !LostWrite(f);
    ReleaseSettles(services, c, records, gone, c');
    CleanupForgets(c, records, |gone|, c', f);
    CleanupRetains(c, records, |gone|, c', f);
    assert records[..|gone|] == gone;
    assert f.None? ==> gone == records;
    var m :| CleanupAll(c, gone, m);
    ReleasedWereHeld(c, gone, m);
    var i :| 0 <= i < |gone| && gone[i] == r;
    assert Current(c, records[i]) && records[i] == r;
    assert r.ip.Ip? && Ticket(r.net, r.ip.addr, r.mac) in TicketsOf(gone);
    forall a ensures !Recorded(c', Ticket(r.net, a, r.mac)) {
      if Recorded(c', Ticket(r.net, a, r.mac)) {
        HeldRecord(services, c, r, a);
      }
    }
  }

  lemma HeldRecord(services: CidrText, c: Ctl, r: NcStatus, a: Addr)
    requires CtlOk(services, c) && Current(c, r) && Holds(c.ipam, r.net, r.ip) && Recorded(c, Ticket(r.net, a, r.mac))
    ensures r.ip == Ip(a)
  {
    hide CtlOk, Recorded;
    RecordedIsCached(services, c, Ticket(r.net, a, r.mac));
  }

  lemma AllocateStaysCleared(c: Ctl, cfg: Cfg, c': Ctl, r: Result<seq<NcStatus>, Failure>, net: NetName, mac: Mac)
    requires AllocateExit(c, cfg, c', r) && Cleared(c, net, mac) && (mac in SpecMacs(cfg.configs, net) ==> cfg.paused)
    ensures Cleared(c', net, mac)
  {
    hide AllocateAll, AllocateBroken, Matches, SpecMacs, RecordedFor;
    AllocateGrows(c, cfg, c', r);
  }

  lemma BuildKnowsLess(services: CidrText, c: Ctl, n: NetName, c': Ctl)
    requires CtlOk(services, c) && BuildStep(c, n, c')
    ensures KnowsLess(c, c')
  {
    hide CtlOk, BuildExit, RebuiltExactly, RecordedFor, Sound, MacsDistinct, Pooled;
    BuildStepOk(services, c, n, c');
    var d, r :| BuildExit(c, n, d, r) && c'.cache == d.cache && c'.pools.Keys == d.pools.Keys;
    if d != c {
      AdmittedPools(services, c, n);
      assert !c.pools[n].paused && c.pools[n].cacheReady != True by { Idle(c, n, d, r); }
      RebuildExact(services, c, n, d, r);
      forall net, m | net in d.cache && m in d.cache[net] ensures KnewBefore(c, net, m, d.cache[net][m]) {
        RebuiltCaches(c, n, d, net, m);
      }
    }
  }

  lemma Idle(c: Ctl, net: NetName, c': Ctl, r: Result<(), Failure>)
    requires BuildExit(c, net, c', r) && c' != c
    ensures !c.pools[net].paused && c.pools[net].cacheReady != True
  {
    hide RebuiltTo, OnlyNetwork;
  }

  lemma RebuiltCaches(c: Ctl, n: NetName, d: Ctl, net: NetName, mac: Mac)
    requires n in c.pools && RebuiltExactly(c, n, d) && net in d.cache && mac in d.cache[net]
    ensures KnewBefore(c, net, mac, d.cache[net][mac])
  {
    hide RecordedFor, Pooled;
    if net != n {
      assert net in d.cache - {n} && (d.cache - {n})[net] == d.cache[net];
      assert (c.cache - {n})[net] == c.cache[net];
    }
  }

  lemma PoolKnowsLess(services: CidrText, c: Ctl, c': Ctl)
    requires CtlOk(services, c) && PoolStep(c, c')
    ensures KnowsLess(c, c')
  {
    hide CtlOk, BuildStep, Refreshed, Recorded, Retained;
    PoolStepOk(services, c, c');
    if n :| BuildStep(c, n, c') { BuildKnowsLess(services, c, n, c'); }
  }

  lemma SameKnowsLess(c: Ctl)
    ensures KnowsLess(c, c)
  {
    hide RecordedFor;
  }

  lemma FreesKnowsLess(c: Ctl, records: seq<NcStatus>, gone: seq<NcStatus>, c': Ctl)
    requires Frees(c, records, gone, c')
    ensures KnowsLess(c, c')
  {
    hide CleanupUpTo, Recorded, Retained;
    if gone == [] && c' == c {
      SameKnowsLess(c);
    } else {
      var f :| CleanupUpTo(c, records, |gone|, c', f) && !LostWrite(f);
      CleanupForgets(c, records, |gone|, c', f);
      CleanupRetains(c, records, |gone|, c', f);
    }
  }

  /** Every step that is not a run of Allocate leaves less known than before. */
  lemma OtherKnowsLess(services: CidrText, s: Sys, gone: seq<NcStatus>, s': Sys)
    requires CtlOk(services, s.ctl) && Step(s, gone, s') && !exists key :: WrappedExit(AllocateKind, s, key, s')
    ensures KnowsLess(s.ctl, s'.ctl)
  {
    hide CtlOk, KnewBefore, Retained, WrappedExit, PoolStep, OnChangeExit, OnRemoveExit, Frees, StaleRecords;
    if gone == [] && QuietStep(s, s') {
      if PoolStep(s.ctl, s'.ctl) {
        PoolKnowsLess(services, s.ctl, s'.ctl);
      } else {
        assert s'.ctl == s.ctl;
        SameKnowsLess(s.ctl);
      }
    } else if key :| SyncStep(s, key, gone, s') {
      FreesKnowsLess(s.ctl, StaleRecords(s.cfgs[key]), gone, s'.ctl);
    } else if key :| ChangeStep(s, key, gone, s') {
      FreesKnowsLess(s.ctl, s.cfgs[key].status.records, gone, s'.ctl);
    } else {
      var key :| RemoveStep(s, key, gone, s');
      FreesKnowsLess(s.ctl, s.cfgs[key].status.records, gone, s'.ctl);
    }
  }

  /** Once forgotten, a MAC stays so until Allocate runs for an object that asks for it. */
  lemma StepStaysCleared(services: CidrText, s: Sys, gone: seq<NcStatus>, s': Sys, net: NetName, mac: Mac)
    requires CtlOk(services, s.ctl) && Step(s, gone, s') && Cleared(s.ctl, net, mac) && OnlyPaused(s.cfgs, net, mac)
    ensures Cleared(s'.ctl, net, mac)
  {
    hide CtlOk, Cleared, AllocateExit, Step, SpecMacs;
    if key :| WrappedExit(AllocateKind, s, key, s') {
      var r :| HandlerExit(AllocateKind, s.ctl, s.cfgs[key], s'.ctl, r);
      AllocateStaysCleared(s.ctl, s.cfgs[key], s'.ctl, r, net, mac);
    } else {
      OtherStaysCleared(services, s, gone, s', net, mac);
    }
  }

  lemma OtherStaysCleared(services: CidrText, s: Sys, gone: seq<NcStatus>, s': Sys, net: NetName, mac: Mac)
    requires CtlOk(services, s.ctl) && Step(s, gone, s') && Cleared(s.ctl, net, mac)
    requires !exists key :: WrappedExit(AllocateKind, s, key, s')
    ensures Cleared(s'.ctl, net, mac)
  {
    hide CtlOk, Step, Cleared, KnowsLess, WrappedExit;
    OtherKnowsLess(services, s, gone, s');
    LessStaysCleared(s.ctl, s'.ctl, net, mac);
  }

  lemma StepForgets(services: CidrText, s: Sys, gone: seq<NcStatus>, s': Sys, r: NcStatus)
    requires CtlOk(services, s.ctl) && Step(s, gone, s') && r in gone
    ensures Cleared(s'.ctl, r.net, r.mac) && Holds(s.ctl.ipam, r.net, r.ip)
  {
    hide CtlOk, Cleared, QuietStep, WrappedExit, OnChangeExit, OnRemoveExit, Releases, StaleRecords, Holds;
    if key :| SyncStep(s, key, gone, s') {
      ReleasedIsCleared(services, s.ctl, StaleRecords(s.cfgs[key]), gone, s'.ctl, r);
    } else if key :| ChangeStep(s, key, gone, s') {
      ReleasedIsCleared(services, s.ctl, s.cfgs[key].status.records, gone, s'.ctl, r);
    } else {
      var key :| RemoveStep(s, key, gone, s');
      ReleasedIsCleared(services, s.ctl, s.cfgs[key].status.records, gone, s'.ctl, r);
    }
  }

  lemma {:induction false} ClearedUntilResumed(services: CidrText, tr: seq<Sys>, gone: seq<seq<NcStatus>>,
                                                 i: nat, j: nat, r: NcStatus)
    requires Run(services, tr, gone) && i < j < |tr| && r in gone[i]
    requires forall k :: i < k < j ==> OnlyPaused(tr[k].cfgs, r.net, r.mac)
    ensures Cleared(tr[j].ctl, r.net, r.mac)
    decreases j
  {
    hide Step, Fresh, CtlOk, Cleared, OnlyPaused;
    EveryRunOk(services, tr, gone, j - 1);
    assert Step(tr[j - 1], gone[j - 1], tr[j - 1 + 1]);
    if i == j - 1 {
      StepForgets(services, tr[i], gone[i], tr[j], r);
    } else {
      ClearedUntilResumed(services, tr, gone, i, j - 1, r);
      StepStaysCleared(services, tr[j - 1], gone[j - 1], tr[j], r.net, r.mac);
    }
  }

  lemma HeldIsNotZero(services: CidrText, c: Ctl, r: NcStatus)
    requires CtlOk(services, c) && Holds(c.ipam, r.net, r.ip)
    ensures r.ip.addr != 0
  {
    hide Pooled, Sound, Buildable, Loaded, Agrees;
    LiveKeys(c.pools[r.net], c.ipam[r.net], c.cache[r.net]);
    PooledIsClean(services, c.pools[r.net].config, r.ip.addr);
  }

  /** Released, and not asked for by an unpaused object since: not recorded any more. */
  lemma ReleasedIsNotDurable(services: CidrText, tr: seq<Sys>, gone: seq<seq<NcStatus>>, i: nat, j: nat, r: NcStatus)
    requires Run(services, tr, gone) && i < j < |tr| && r in gone[i]
    requires forall k :: i < k < j ==> OnlyPaused(tr[k].cfgs, r.net, r.mac)
    ensures forall q: NcStatus :: q.net == r.net && q.mac == r.mac ==> !Durable(tr[j].ctl, q)
  {
    hide Step, Fresh, OnlyPaused, RecordedFor;
    ClearedUntilResumed(services, tr, gone, i, j, r);
    forall q: NcStatus | q.net == r.net && q.mac == r.mac ensures !Durable(tr[j].ctl, q) {
      assert q.ip.Ip? ==> !Recorded(tr[j].ctl, Ticket(r.net, q.ip.addr, r.mac));
    }
  }
}

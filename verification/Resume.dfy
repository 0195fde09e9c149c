/** From pause to resume and beyond: over every run, a NIC whose address is remembered gets that address or
    none; and how long an address survives that was chosen and is not recorded yet. */
module Resume {
  import opened Basics
  import opened Prefix
  import opened Ipam
  import opened Stores
  import opened VmNetCfg
  import opened PoolControl
  import opened Agreement
  import opened Retries
  import opened SyncLaws
  import opened FreeRuns
  import opened Invariant
  import opened Runs
  import opened Recovery
  import opened Sticky

  // ---------------------------------------------------------------- nowhere else

  /** Memory and pool status know the MAC at this address, or not at all. */
  ghost predicate OnlyAt(c: Ctl, net: NetName, mac: Mac, a: Addr) {
    && (net in c.cache && mac in c.cache[net] ==> c.cache[net][mac] == a)
    && forall x :: Recorded(c, Ticket(net, x, mac)) ==> x == a
  }

  /** If the object is served and has the NIC, it remembers this address for the MAC. */
  ghost predicate Remembers(cfg: Cfg, net: NetName, mac: Mac, a: Addr) {
    !cfg.paused && Named(cfg.configs, net, mac) ==> RecordedIP(cfg.status.records, mac) == Some(Ip(a))
  }

  ghost predicate AllRemember(cfgs: map<Key, Cfg>, net: NetName, mac: Mac, a: Addr) {
    forall k :: k in cfgs ==> Remembers(cfgs[k], net, mac, a)
  }

  /** For the NIC, exactly this address is published. */
  predicate PublishesAt(ncs: seq<NetworkConfig>, outs: seq<NcStatus>, net: NetName, mac: Mac, a: Addr) {
    && |outs| == |ncs|
    && forall k :: 0 <= k < |ncs| && ncs[k].net == net && ncs[k].mac == mac ==> outs[k] == Published(ncs[k], a)
  }

  lemma OnlyAtRound(c: Ctl, nc: NetworkConfig, records: seq<NcStatus>, c': Ctl, r: Result<NcStatus, Failure>,
                    net: NetName, mac: Mac, a: Addr)
    requires AllocateOne(c, nc, records, c', r) && OnlyAt(c, net, mac, a) && a != 0
    requires nc.net == net && nc.mac == mac ==> RecordedIP(records, mac) == Some(Ip(a))
    ensures OnlyAt(c', net, mac, a)
    ensures r.Ok? && nc.net == net && nc.mac == mac ==> r.value == Published(nc, a)
  {
    hide AllocateOne, RecordedIP, WithRecord, RecordedFor, Contains;
    var chosen := AllocateOneCases(c, nc, records, c', r);
    forall x ensures Recorded(c', Ticket(net, x, mac)) ==> x == a {
      assert Recorded(c, Ticket(net, x, mac)) ==> x == a;
      if r.Ok? { RecordedAfterEntry(c.pools[nc.net], c'.cache[nc.net][nc.mac], nc.mac, x, mac); }
    }
  }

  lemma RoundRefused(c: Ctl, nc: NetworkConfig, records: seq<NcStatus>, c': Ctl, a: Addr)
    requires AllocateOne(c, nc, records, c', Err(AddressRefused))
    requires RecordedIP(records, nc.mac) == Some(Ip(a))
    ensures !CanTake(c.ipam, nc.net, Ip(a), a)
  {
    hide RecordedIP, Contains;
  }

  lemma {:induction false} OnlyAtRounds(c: Ctl, ncs: seq<NetworkConfig>, records: seq<NcStatus>, c': Ctl,
                                        outs: seq<NcStatus>, net: NetName, mac: Mac, a: Addr)
    requires AllocateAll(c, ncs, records, c', outs) && OnlyAt(c, net, mac, a) && a != 0
    requires Named(ncs, net, mac) ==> RecordedIP(records, mac) == Some(Ip(a))
    ensures OnlyAt(c', net, mac, a) && PublishesAt(ncs, outs, net, mac, a)
    decreases |ncs|
  {
    hide AllocateOne, RecordedIP, OnlyAt;
    if ncs != [] {
      var m :| AllocateAll(c, Init(ncs), records, m, Init(outs))
               && AllocateOne(m, Last(ncs), records, c', Ok(Last(outs)));
      assert forall k :: 0 <= k < |ncs| - 1 ==> ncs[k] == Init(ncs)[k] && outs[k] == Init(outs)[k];
      OnlyAtRounds(c, Init(ncs), records, m, Init(outs), net, mac, a);
      OnlyAtRound(m, Last(ncs), records, c', Ok(Last(outs)), net, mac, a);
    }
  }

  lemma OnlyAtAllocate(c: Ctl, cfg: Cfg, c': Ctl, r: Result<seq<NcStatus>, Failure>, net: NetName, mac: Mac, a: Addr)
    requires AllocateExit(c, cfg, c', r) && OnlyAt(c, net, mac, a) && a != 0 && Remembers(cfg, net, mac, a)
    ensures OnlyAt(c', net, mac, a)
    ensures r.Ok? ==> PublishesAt(cfg.configs, r.value, net, mac, a)
  {
    hide AllocateOne, AllocateAll, RecordedIP, OnlyAt;
    var ncs, records := cfg.configs, cfg.status.records;
    if !cfg.paused && cfg.status.inSynced != False && ncs != [] {
      if r.Ok? {
        OnlyAtRounds(c, ncs, records, c', r.value, net, mac, a);
      } else {
        var i, m, outs :| 0 <= i < |ncs| && AllocateAll(c, ncs[..i], records, m, outs)
                          && AllocateOne(m, ncs[i], records, c', Err(r.error));
        OnlyAtRounds(c, ncs[..i], records, m, outs, net, mac, a);
        OnlyAtRound(m, ncs[i], records, c', Err(r.error), net, mac, a);
      }
    }
  }

  lemma LessStaysAt(c: Ctl, c': Ctl, net: NetName, mac: Mac, a: Addr)
    requires OnlyAt(c, net, mac, a) && KnowsLess(c, c')
    ensures OnlyAt(c', net, mac, a)
  {
    hide RecordedFor;
    assert net in c'.cache && mac in c'.cache[net] ==> KnewBefore(c, net, mac, c'.cache[net][mac]);
    forall x | Recorded(c', Ticket(net, x, mac)) ensures x == a {
      assert Recorded(c, Ticket(net, x, mac));
    }
  }

  /** As long as those that are served and have the NIC remember the address, no step makes memory or pool
      status know the MAC at another one. */
  lemma StepStaysAt(services: CidrText, s: Sys, gone: seq<NcStatus>, s': Sys, net: NetName, mac: Mac, a: Addr)
    requires CtlOk(services, s.ctl) && Step(s, gone, s') && OnlyAt(s.ctl, net, mac, a) && a != 0
    requires AllRemember(s.cfgs, net, mac, a)
    ensures OnlyAt(s'.ctl, net, mac, a)
  {
    hide CtlOk, Step, OnlyAt, AllocateExit, KnowsLess, Remembers;
    if key :| WrappedExit(AllocateKind, s, key, s') {
      var r :| HandlerExit(AllocateKind, s.ctl, s.cfgs[key], s'.ctl, r);
      OnlyAtAllocate(s.ctl, s.cfgs[key], s'.ctl, r, net, mac, a);
    } else {
      OtherKnowsLess(services, s, gone, s');
      LessStaysAt(s.ctl, s'.ctl, net, mac, a);
    }
  }

  lemma {:induction false} RunStaysAt(services: CidrText, tr: seq<Sys>, gone: seq<seq<NcStatus>>, i: nat, j: nat,
                                      net: NetName, mac: Mac, a: Addr)
    requires Run(services, tr, gone) && i <= j < |tr| && OnlyAt(tr[i].ctl, net, mac, a) && a != 0
    requires forall k :: i <= k < j ==> AllRemember(tr[k].cfgs, net, mac, a)
    ensures OnlyAt(tr[j].ctl, net, mac, a)
    decreases j
  {
    hide Step, Fresh, CtlOk, OnlyAt, AllRemember;
    if i < j {
      RunStaysAt(services, tr, gone, i, j - 1, net, mac, a);
      EveryRunOk(services, tr, gone, j - 1);
      StepStaysAt(services, tr[j - 1], gone[j - 1], tr[j - 1 + 1], net, mac, a);
    }
  }

  /** Over every run: the MAC was known at one address at most, and all objects that were served with the
      NIC remembered that address. Then any object's Allocate that succeeds publishes it for the NIC. */
  lemma NicIsSticky(services: CidrText, tr: seq<Sys>, gone: seq<seq<NcStatus>>, i: nat, j: nat,
                    net: NetName, mac: Mac, a: Addr, key: Key, c': Ctl, outs: seq<NcStatus>)
    requires Run(services, tr, gone) && i <= j < |tr| && OnlyAt(tr[i].ctl, net, mac, a) && a != 0
    requires forall k :: i <= k <= j ==> AllRemember(tr[k].cfgs, net, mac, a)
    requires key in tr[j].cfgs && AllocateExit(tr[j].ctl, tr[j].cfgs[key], c', Ok(outs))
    ensures PublishesAt(tr[j].cfgs[key].configs, outs, net, mac, a)
  {
    hide Step, Fresh, OnlyAt, AllocateExit, Remembers;
    RunStaysAt(services, tr, gone, i, j, net, mac, a);
    assert AllRemember(tr[j].cfgs, net, mac, a);
    OnlyAtAllocate(tr[j].ctl, tr[j].cfgs[key], c', Ok(outs), net, mac, a);
  }

  // ---------------------------------------------------------------- what one object remembers

  /** No step changes the address that a paused object remembers for a MAC. */
  lemma PausedObjectRemembers(s: Sys, gone: seq<NcStatus>, s': Sys, key: Key, mac: Mac)
    requires Step(s, gone, s') && key in s.cfgs && s.cfgs[key].paused && key in s'.cfgs
    ensures RecordedIP(s'.cfgs[key].status.records, mac) == RecordedIP(s.cfgs[key].status.records, mac)
  {
    hide PoolStep, Frees, CleanupExit, StaleRecords, RecordedIP, Suspended;
    PauseRemembers(s.cfgs[key].status.records, mac);
  }

  /** The spec uses the MAC on no other network. */
  predicate OneNetwork(configs: seq<NetworkConfig>, net: NetName, mac: Mac) {
    forall k :: 0 <= k < |configs| && configs[k].mac == mac ==> configs[k].net == net
  }

  predicate ShowsAllocated(records: seq<NcStatus>, mac: Mac) {
    exists k :: 0 <= k < |records| && records[k].mac == mac && records[k].state == AllocatedState
  }

  /** A step from one version of the object to the next keeps the NIC: the object is paused; or it has the
      NIC, and uses the MAC on no other network or still publishes nothing as allocated for it. */
  predicate KeepsNic(cfg: Cfg, next: Cfg, net: NetName, mac: Mac) {
    || cfg.paused
    || (Named(cfg.configs, net, mac)
        && (OneNetwork(cfg.configs, net, mac) || !ShowsAllocated(next.status.records, mac)))
  }

  lemma {:induction false} RecordedAmong(records: seq<NcStatus>, mac: Mac, a: Addr, n: nat)
    requires n < |records| && records[n].mac == mac
    requires forall k :: 0 <= k < |records| && records[k].mac == mac ==> records[k].ip == Ip(a)
    ensures RecordedIP(records, mac) == Some(Ip(a))
  {
    if records[0].mac != mac { RecordedAmong(records[1..], mac, a, n - 1); }
  }

  /** A run of Allocate that succeeds leaves the object with the same address for the MAC. */
  lemma AllocateRemembers(c: Ctl, cfg: Cfg, c': Ctl, outs: seq<NcStatus>, net: NetName, mac: Mac, a: Addr)
    requires AllocateExit(c, cfg, c', Ok(outs)) && PublishesAt(cfg.configs, outs, net, mac, a)
    requires Named(cfg.configs, net, mac)
    ensures ShowsAllocated(outs, mac)
    ensures OneNetwork(cfg.configs, net, mac) ==> RecordedIP(outs, mac) == Some(Ip(a))
  {
    hide AllocateAll, Grown, RecordedIP;
    AllocateGrows(c, cfg, c', Ok(outs));
    var n :| 0 <= n < |cfg.configs| && cfg.configs[n].net == net && cfg.configs[n].mac == mac;
    assert outs[n].mac == mac && outs[n].state == AllocatedState;
    if OneNetwork(cfg.configs, net, mac) { RecordedAmong(outs, mac, a, n); }
  }

  lemma SyncOutcome(c: Ctl, cfg: Cfg, c': Ctl, outs: seq<NcStatus>, mac: Mac)
    requires SyncExit(c, cfg, c', Ok(outs)) && mac in MacsOf(cfg.configs)
    ensures RecordedIP(outs, mac) == RecordedIP(cfg.status.records, mac)
  {
    hide CleanupExit, RecordedIP, Kept, MacsOf;
    SyncRemembers(cfg.status.records, MacsOf(cfg.configs), mac);
  }

  lemma NamedMac(configs: seq<NetworkConfig>, net: NetName, mac: Mac)
    requires Named(configs, net, mac)
    ensures mac in MacsOf(configs)
  {
  }

  lemma WrappedObjectRemembers(kind: Kind, s: Sys, s': Sys, key: Key, net: NetName, mac: Mac, a: Addr)
    requires WrappedExit(kind, s, key, s') && key in s'.cfgs && a != 0
    requires !s.cfgs[key].paused && KeepsNic(s.cfgs[key], s'.cfgs[key], net, mac)
    requires OnlyAt(s.ctl, net, mac, a) && RecordedIP(s.cfgs[key].status.records, mac) == Some(Ip(a))
    ensures RecordedIP(s'.cfgs[key].status.records, mac) == Some(Ip(a))
  {
    hide OnlyAt, AllocateExit, SyncExit, RecordedIP, Named, OneNetwork, ShowsAllocated;
    var cfg := s.cfgs[key];
    var r :| HandlerExit(kind, s.ctl, cfg, s'.ctl, r) && (s'.cfgs == s.cfgs
             || s'.cfgs == s.cfgs[key := cfg.(status := StatusAfter(kind, cfg.status, r))]);
    if r.Ok? {
      if kind.AllocateKind? {
        OnlyAtAllocate(s.ctl, cfg, s'.ctl, r, net, mac, a);
        AllocateRemembers(s.ctl, cfg, s'.ctl, r.value, net, mac, a);
      } else {
        NamedMac(cfg.configs, net, mac);
        SyncOutcome(s.ctl, cfg, s'.ctl, r.value, mac);
      }
    }
  }

  /** Nor does any step change what an object remembers for the NIC it keeps. */
  lemma ObjectRemembers(s: Sys, gone: seq<NcStatus>, s': Sys, key: Key, net: NetName, mac: Mac, a: Addr)
    requires Step(s, gone, s') && key in s.cfgs && key in s'.cfgs && a != 0
    requires KeepsNic(s.cfgs[key], s'.cfgs[key], net, mac)
    requires OnlyAt(s.ctl, net, mac, a) && RecordedIP(s.cfgs[key].status.records, mac) == Some(Ip(a))
    ensures RecordedIP(s'.cfgs[key].status.records, mac) == Some(Ip(a))
  {
    hide OnlyAt, PoolStep, HandlerExit, Frees, CleanupExit, StaleRecords, RecordedIP, Suspended, KeepsNic;
    PauseRemembers(s.cfgs[key].status.records, mac);
    if s.cfgs[key].paused {
      PausedObjectRemembers(s, gone, s', key, mac);
    } else if WrappedExit(AllocateKind, s, key, s') {
      WrappedObjectRemembers(AllocateKind, s, s', key, net, mac, a);
    } else if WrappedExit(SyncKind, s, key, s') {
      WrappedObjectRemembers(SyncKind, s, s', key, net, mac, a);
    }
  }

  /** The object is there before and after the step, and the step keeps its NIC. */
  ghost predicate HoldsOnTo(s: Sys, s': Sys, key: Key, net: NetName, mac: Mac) {
    key in s.cfgs && key in s'.cfgs && KeepsNic(s.cfgs[key], s'.cfgs[key], net, mac)
  }

  /** The other objects that are served and have the NIC remember the address. */
  ghost predicate OthersRemember(s: Sys, key: Key, net: NetName, mac: Mac, a: Addr) {
    AllRemember(s.cfgs - {key}, net, mac, a)
  }

  lemma {:induction false} ObjectStaysAt(services: CidrText, tr: seq<Sys>, gone: seq<seq<NcStatus>>, i: nat, j: nat,
                                         key: Key, net: NetName, mac: Mac, a: Addr)
    requires Run(services, tr, gone) && i <= j < |tr| && OnlyAt(tr[i].ctl, net, mac, a) && a != 0
    requires key in tr[i].cfgs && RecordedIP(tr[i].cfgs[key].status.records, mac) == Some(Ip(a))
    requires key in tr[j].cfgs && forall k :: i <= k < j ==> HoldsOnTo(tr[k], tr[k + 1], key, net, mac)
    requires forall k :: i <= k < j ==> OthersRemember(tr[k], key, net, mac, a)
    ensures OnlyAt(tr[j].ctl, net, mac, a) && RecordedIP(tr[j].cfgs[key].status.records, mac) == Some(Ip(a))
    decreases j
  {
    hide Step, Fresh, CtlOk, OnlyAt, RecordedIP, KeepsNic, Named;
    if i < j {
      var s, s' := tr[j - 1], tr[j - 1 + 1];
      assert HoldsOnTo(s, s', key, net, mac) && OthersRemember(s, key, net, mac, a);
      ObjectStaysAt(services, tr, gone, i, j - 1, key, net, mac, a);
      EveryRunOk(services, tr, gone, j - 1);
      assert Step(s, gone[j - 1], s');
      forall k | k in s.cfgs ensures Remembers(s.cfgs[k], net, mac, a) {
        if k != key { assert k in s.cfgs - {key} && (s.cfgs - {key})[k] == s.cfgs[k]; }
      }
      StepStaysAt(services, s, gone[j - 1], s', net, mac, a);
      ObjectRemembers(s, gone[j - 1], s', key, net, mac, a);
    }
  }

  /** Over every run: an object remembers an address for a NIC, and the MAC is known at that address or not
      at all. As long as the object keeps the NIC, every run of Allocate on it that succeeds publishes that
      address; pauses, resumes, failed attempts, restarts and whatever else may come in between. */
  lemma ObjectStaysSticky(services: CidrText, tr: seq<Sys>, gone: seq<seq<NcStatus>>, i: nat, j: nat,
                          key: Key, net: NetName, mac: Mac, a: Addr, c': Ctl, outs: seq<NcStatus>)
    requires Run(services, tr, gone) && i <= j < |tr| && OnlyAt(tr[i].ctl, net, mac, a) && a != 0
    requires key in tr[i].cfgs && RecordedIP(tr[i].cfgs[key].status.records, mac) == Some(Ip(a))
    requires key in tr[j].cfgs && forall k :: i <= k < j ==> HoldsOnTo(tr[k], tr[k + 1], key, net, mac)
    requires forall k :: i <= k < j ==> OthersRemember(tr[k], key, net, mac, a)
    requires AllocateExit(tr[j].ctl, tr[j].cfgs[key], c', Ok(outs))
    ensures PublishesAt(tr[j].cfgs[key].configs, outs, net, mac, a)
  {
    hide Step, Fresh, OnlyAt, RecordedIP, AllocateExit, HoldsOnTo, OthersRemember;
    ObjectStaysAt(services, tr, gone, i, j, key, net, mac, a);
    OnlyAtAllocate(tr[j].ctl, tr[j].cfgs[key], c', Ok(outs), net, mac, a);
  }

  // ---------------------------------------------------------------- from pause to resume

  /** A current record of a held address: its MAC is known there or not at all. */
  lemma HeldIsAt(services: CidrText, c: Ctl, r: NcStatus)
    requires CtlOk(services, c) && Current(c, r) && Holds(c.ipam, r.net, r.ip)
    ensures OnlyAt(c, r.net, r.mac, r.ip.addr)
  {
    hide CtlOk, Recorded;
    forall x | Recorded(c, Ticket(r.net, x, r.mac)) ensures x == r.ip.addr {
      HeldRecord(services, c, r, x);
    }
  }

  lemma FreedWasCurrent(c: Ctl, records: seq<NcStatus>, gone: seq<NcStatus>, c': Ctl, r: NcStatus)
    requires Frees(c, records, gone, c') && r in gone
    ensures Current(c, r)
  {
    hide CleanupUpTo, Current;
    var n :| 0 <= n < |gone| && gone[n] == r;
    assert Current(c, records[n]) && records[n] == r;
  }

  lemma ReleasedWasCurrent(s: Sys, gone: seq<NcStatus>, s': Sys, r: NcStatus)
    requires Step(s, gone, s') && r in gone
    ensures Current(s.ctl, r)
  {
    hide QuietStep, WrappedExit, OnChangeExit, OnRemoveExit, Frees, StaleRecords, Current;
    if key :| SyncStep(s, key, gone, s') {
      FreedWasCurrent(s.ctl, StaleRecords(s.cfgs[key]), gone, s'.ctl, r);
    } else if key :| ChangeStep(s, key, gone, s') {
      FreedWasCurrent(s.ctl, s.cfgs[key].status.records, gone, s'.ctl, r);
    } else {
      var key :| RemoveStep(s, key, gone, s');
      FreedWasCurrent(s.ctl, s.cfgs[key].status.records, gone, s'.ctl, r);
    }
  }

  lemma ClearedIsAt(c: Ctl, net: NetName, mac: Mac, a: Addr)
    requires Cleared(c, net, mac)
    ensures OnlyAt(c, net, mac, a)
  {
    hide Recorded;
  }

  /** Step i released the record, as OnChange of the paused object does. From then on, as long as the object
      keeps the NIC, the MAC is known at the old address or not at all, and the object
      remembers that address. */
  lemma ReleasedStaysAt(services: CidrText, tr: seq<Sys>, gone: seq<seq<NcStatus>>, i: nat, j: nat, key: Key,
                        r: NcStatus)
    requires Run(services, tr, gone) && i < j < |tr| && r in gone[i] && key in tr[j].cfgs
    requires key in tr[i].cfgs && RecordedIP(tr[i].cfgs[key].status.records, r.mac) == Some(r.ip)
    requires forall k :: i <= k < j ==> HoldsOnTo(tr[k], tr[k + 1], key, r.net, r.mac)
    requires r.ip.Ip? ==> forall k :: i < k < j ==> OthersRemember(tr[k], key, r.net, r.mac, r.ip.addr)
    ensures r.ip.Ip? && r.ip.addr != 0 && OnlyAt(tr[j].ctl, r.net, r.mac, r.ip.addr)
    ensures RecordedIP(tr[j].cfgs[key].status.records, r.mac) == Some(r.ip)
  {
    hide Step, Fresh, CtlOk, OnlyAt, RecordedIP, KeepsNic, OthersRemember, Current, Cleared;
    EveryRunOk(services, tr, gone, i);
    var s, s' := tr[i], tr[i + 1];
    assert Step(s, gone[i], s');
    StepForgets(services, s, gone[i], s', r);
    HeldIsNotZero(services, s.ctl, r);
    ReleasedWasCurrent(s, gone[i], s', r);
    HeldIsAt(services, s.ctl, r);
    ClearedIsAt(s'.ctl, r.net, r.mac, r.ip.addr);
    assert HoldsOnTo(s, s', key, r.net, r.mac);
    ObjectRemembers(s, gone[i], s', key, r.net, r.mac, r.ip.addr);
    ObjectStaysAt(services, tr, gone, i + 1, j, key, r.net, r.mac, r.ip.addr);
  }

  /** However long the object was paused, whatever ran then and since it was resumed, and however many
      attempts have failed: a run of Allocate on it that succeeds publishes for the NIC the address it
      had. The first record of the MAC has to carry that address when it is released. */
  lemma ResumeIsSticky(services: CidrText, tr: seq<Sys>, gone: seq<seq<NcStatus>>, i: nat, j: nat, key: Key,
                       r: NcStatus, c': Ctl, outs: seq<NcStatus>)
    requires Run(services, tr, gone) && i < j < |tr| && r in gone[i] && key in tr[j].cfgs
    requires key in tr[i].cfgs && RecordedIP(tr[i].cfgs[key].status.records, r.mac) == Some(r.ip)
    requires forall k :: i <= k < j ==> HoldsOnTo(tr[k], tr[k + 1], key, r.net, r.mac)
    requires r.ip.Ip? ==> forall k :: i < k < j ==> OthersRemember(tr[k], key, r.net, r.mac, r.ip.addr)
    requires AllocateExit(tr[j].ctl, tr[j].cfgs[key], c', Ok(outs))
    ensures r.ip.Ip? && PublishesAt(tr[j].cfgs[key].configs, outs, r.net, r.mac, r.ip.addr)
  {
    hide Run, OnlyAt, RecordedIP, AllocateExit, HoldsOnTo, OthersRemember;
    assert |tr| == |gone| + 1 by { RunShape(services, tr, gone); }
    ReleasedStaysAt(services, tr, gone, i, j, key, r);
    OnlyAtAllocate(tr[j].ctl, tr[j].cfgs[key], c', Ok(outs), r.net, r.mac, r.ip.addr);
  }

  /** Where such a run fails on that NIC for want of the address, the address was not to be had. */
  lemma ResumeRefusedOnlyIfTaken(services: CidrText, tr: seq<Sys>, gone: seq<seq<NcStatus>>, i: nat, j: nat, key: Key,
                                 r: NcStatus, n: nat, m: Ctl, outs: seq<NcStatus>, c': Ctl)
    requires Run(services, tr, gone) && i < j < |tr| && r in gone[i] && key in tr[j].cfgs
    requires key in tr[i].cfgs && RecordedIP(tr[i].cfgs[key].status.records, r.mac) == Some(r.ip)
    requires forall k :: i <= k < j ==> HoldsOnTo(tr[k], tr[k + 1], key, r.net, r.mac)
    requires r.ip.Ip? ==> forall k :: i < k < j ==> OthersRemember(tr[k], key, r.net, r.mac, r.ip.addr)
    requires var cfg := tr[j].cfgs[key];
      && n < |cfg.configs| && cfg.configs[n].net == r.net && cfg.configs[n].mac == r.mac
      && AllocateAll(tr[j].ctl, cfg.configs[..n], cfg.status.records, m, outs)
      && AllocateOne(m, cfg.configs[n], cfg.status.records, c', Err(AddressRefused))
    ensures r.ip.Ip? && !CanTake(m.ipam, r.net, r.ip, r.ip.addr)
  {
    hide Run, OnlyAt, RecordedIP, AllocateAll, AllocateOne, HoldsOnTo, OthersRemember;
    assert |tr| == |gone| + 1 by { RunShape(services, tr, gone); }
    ReleasedStaysAt(services, tr, gone, i, j, key, r);
    RoundRefused(m, tr[j].cfgs[key].configs[n], tr[j].cfgs[key].status.records, c', r.ip.addr);
  }

  // ---------------------------------------------------------------- chosen, not recorded yet

  /** Memory holds the address for the MAC. */
  predicate Chosen(c: Ctl, net: NetName, mac: Mac, a: Addr) {
    net in c.cache && mac in c.cache[net] && c.cache[net][mac] == a
  }

  predicate ReleasesNic(gone: seq<NcStatus>, net: NetName, mac: Mac) {
    exists r :: r in gone && r.net == net && r.mac == mac
  }

  /** The pool is ready, so that BuildCache leaves memory alone, and has a status. */
  predicate Established(c: Ctl, net: NetName) {
    net in c.pools && c.pools[net].cacheReady == True && c.pools[net].ipv4.Some?
  }

  lemma PoolKeepsChosen(c: Ctl, c': Ctl, net: NetName, mac: Mac, a: Addr)
    requires PoolStep(c, c') && Chosen(c, net, mac, a) && Established(c, net) && net in c'.cache
    ensures Chosen(c', net, mac, a)
  {
    hide RebuiltTo, Refreshed, Buildable;
    if n :| BuildStep(c, n, c') {
      var d, r :| BuildExit(c, n, d, r) && c'.cache == d.cache;
      if n != net && d != c { BuildLeavesOthers(c, n, d, r, net); }
    }
  }

  lemma BuildLeavesOthers(c: Ctl, n: NetName, d: Ctl, r: Result<(), Failure>, net: NetName)
    requires BuildExit(c, n, d, r) && n != net && net in c.cache
    ensures net in d.cache && d.cache[net] == c.cache[net]
  {
    hide Buildable, Replayed, Loaded, Pooled;
    assert net in c.cache - {n} && (c.cache - {n})[net] == c.cache[net];
    assert net in d.cache - {n} ==> (d.cache - {n})[net] == d.cache[net];
  }

  lemma StopKeepsCache(m: Ctl, r: NcStatus, c': Ctl, f: Failure, net: NetName)
    requires CleanupOne(m, r, c', Some(f)) && !WriteFailure(f) && net in m.cache && Established(m, net)
    ensures net in c'.cache && c'.cache[net] == m.cache[net]
  {
  }

  lemma ErasedEstablished(c: Ctl, m: Ctl, gone: seq<NcStatus>, net: NetName)
    requires Established(c, net) && net in m.pools && m.pools[net] == ErasedFrom(c.pools[net], AddrsOn(gone, net))
    ensures Established(m, net)
  {
  }

  lemma FreesKeepsChosen(c: Ctl, records: seq<NcStatus>, gone: seq<NcStatus>, c': Ctl, net: NetName, mac: Mac, a: Addr)
    requires Frees(c, records, gone, c') && Chosen(c, net, mac, a)
    requires Established(c, net) && !ReleasesNic(gone, net, mac)
    ensures Chosen(c', net, mac, a)
  {
    hide CleanupAll, CleanupOne, Established, AddrsOn, ErasedFrom, FreedIps;
    if !(gone == [] && c' == c) {
      var f :| CleanupUpTo(c, records, |gone|, c', f) && !LostWrite(f);
      assert mac !in MacsOn(gone, net);
      if f.None? {
        assert gone == records;
        CleanupExact(c, gone, c');
      } else {
        var m :| CleanupAll(c, records[..|gone|], m) && CleanupOne(m, records[|gone|], c', f);
        assert records[..|gone|] == gone;
        CleanupExact(c, gone, m);
        InPools(c, net);
        ErasedEstablished(c, m, gone, net);
        StopKeepsCache(m, records[|gone|], c', f.value, net);
      }
    }
  }

  lemma InPools(c: Ctl, net: NetName)
    requires Established(c, net)
    ensures net in c.pools
  {
  }

  lemma AllocateKeepsChosen(c: Ctl, cfg: Cfg, c': Ctl, r: Result<seq<NcStatus>, Failure>, net: NetName, mac: Mac,
                            a: Addr)
    requires AllocateExit(c, cfg, c', r) && Chosen(c, net, mac, a)
    ensures Chosen(c', net, mac, a)
    ensures r.Ok? ==> PublishesAt(cfg.configs, r.value, net, mac, a)
  {
    hide AllocateExit, GrownRecords;
    AllocateGrows(c, cfg, c', r);
  }

  /** With the pool ready, an address that memory holds for a MAC survives a step if and only if the network
      stays in memory (no restart, and its pool is not dropped) and no cleanup releases the NIC. */
  lemma ChosenSurvivesExactly(services: CidrText, s: Sys, gone: seq<NcStatus>, s': Sys, net: NetName, mac: Mac, a: Addr)
    requires CtlOk(services, s.ctl) && Step(s, gone, s') && Chosen(s.ctl, net, mac, a) && Established(s.ctl, net)
    ensures Chosen(s'.ctl, net, mac, a) <==> net in s'.ctl.ipam && !ReleasesNic(gone, net, mac)
  {
    hide CtlOk, Settles, Established, AllocateExit, PoolStep, OnChangeExit, OnRemoveExit, Frees, StaleRecords;
    StepOk(services, s, gone, s');
    SameNetworks(services, s'.ctl);
    if ReleasesNic(gone, net, mac) {
      var r :| r in gone && r.net == net && r.mac == mac;
      StepForgets(services, s, gone, s', r);
    } else if net in s'.ctl.ipam {
      if gone == [] && QuietStep(s, s') {
        if key :| WrappedExit(AllocateKind, s, key, s') {
          var r :| HandlerExit(AllocateKind, s.ctl, s.cfgs[key], s'.ctl, r);
          AllocateKeepsChosen(s.ctl, s.cfgs[key], s'.ctl, r, net, mac, a);
        } else if PoolStep(s.ctl, s'.ctl) {
          PoolKeepsChosen(s.ctl, s'.ctl, net, mac, a);
        }
      } else if key :| SyncStep(s, key, gone, s') {
        FreesKeepsChosen(s.ctl, StaleRecords(s.cfgs[key]), gone, s'.ctl, net, mac, a);
      } else if key :| ChangeStep(s, key, gone, s') {
        FreesKeepsChosen(s.ctl, s.cfgs[key].status.records, gone, s'.ctl, net, mac, a);
      } else {
        var key :| RemoveStep(s, key, gone, s');
        FreesKeepsChosen(s.ctl, s.cfgs[key].status.records, gone, s'.ctl, net, mac, a);
      }
    }
  }

  ghost predicate LeavesChosen(s: Sys, gone: seq<NcStatus>, s': Sys, net: NetName, mac: Mac) {
    Established(s.ctl, net) && net in s'.ctl.ipam && !ReleasesNic(gone, net, mac)
  }

  lemma {:induction false} ChosenUntil(services: CidrText, tr: seq<Sys>, gone: seq<seq<NcStatus>>, i: nat, j: nat,
                                       net: NetName, mac: Mac, a: Addr)
    requires Run(services, tr, gone) && i <= j < |tr| && Chosen(tr[i].ctl, net, mac, a)
    requires forall k :: i <= k < j ==> LeavesChosen(tr[k], gone[k], tr[k + 1], net, mac)
    ensures Chosen(tr[j].ctl, net, mac, a)
    decreases j
  {
    hide Step, Fresh, CtlOk, Established, ReleasesNic;
    if i < j {
      ChosenUntil(services, tr, gone, i, j - 1, net, mac, a);
      EveryRunOk(services, tr, gone, j - 1);
      assert LeavesChosen(tr[j - 1], gone[j - 1], tr[j - 1 + 1], net, mac);
      ChosenSurvivesExactly(services, tr[j - 1], gone[j - 1], tr[j - 1 + 1], net, mac, a);
    }
  }

  /** Over every run: until then, whatever else runs between the attempts, a run of Allocate that succeeds
      publishes the address that was chosen first. */
  lemma ChosenIsPublished(services: CidrText, tr: seq<Sys>, gone: seq<seq<NcStatus>>, i: nat, j: nat,
                          net: NetName, mac: Mac, a: Addr, cfg: Cfg, c': Ctl, outs: seq<NcStatus>)
    requires Run(services, tr, gone) && i <= j < |tr| && Chosen(tr[i].ctl, net, mac, a)
    requires forall k :: i <= k < j ==> LeavesChosen(tr[k], gone[k], tr[k + 1], net, mac)
    requires AllocateExit(tr[j].ctl, cfg, c', Ok(outs))
    ensures PublishesAt(cfg.configs, outs, net, mac, a)
  {
    hide Step, Fresh, LeavesChosen, AllocateExit;
    ChosenUntil(services, tr, gone, i, j, net, mac, a);
    AllocateKeepsChosen(tr[j].ctl, cfg, c', Ok(outs), net, mac, a);
  }
}

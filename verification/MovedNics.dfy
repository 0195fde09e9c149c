/** A NIC that the spec has moved to another network while its old record is kept: Allocate asks for the
    old address on the new network, and for no other. */
module MovedNics {
  import opened Basics
  import opened Prefix
  import opened Ipam
  import opened Stores
  import opened VmNetCfg
  import opened PoolControl
  import opened Retries
  import opened SyncLaws
  import opened FreeRuns
  import opened Invariant
  import opened Runs
  import opened Sticky
  import opened Resume

  // ---------------------------------------------------------------- one round

  /** A round for a NIC whose MAC is recorded elsewhere can succeed if and only if the address recorded
      there can be taken here. */
  lemma MovedNicServedExactly(c: Ctl, nc: NetworkConfig, records: seq<NcStatus>, a: Addr)
    requires nc.net in c.pools && c.pools[nc.net].cacheReady == True && nc.net in c.cache && nc.mac !in c.cache[nc.net]
    requires RecordedIP(records, nc.mac) == Some(Ip(a)) && a != 0
    ensures (exists c', out :: AllocateOne(c, nc, records, c', Ok(out))) <==> CanTake(c.ipam, nc.net, Ip(a), a)
  {
    hide RecordedIP, Contains;
    if CanTake(c.ipam, nc.net, Ip(a), a) {
      var c' := RoundCanTake(c, nc, records, a);
    }
  }

  // ---------------------------------------------------------------- stuck for good

  /** The subnet, if it is in memory, does not manage the address. */
  predicate Foreign(c: Ctl, net: NetName, a: Addr) {
    net in c.ipam ==> a !in c.ipam[net].ips
  }

  lemma ForeignRound(c: Ctl, nc: NetworkConfig, records: seq<NcStatus>, c': Ctl, r: Result<NcStatus, Failure>,
                     net: NetName, mac: Mac, a: Addr)
    requires AllocateOne(c, nc, records, c', r) && Cleared(c, net, mac) && Foreign(c, net, a)
    requires RecordedIP(records, mac) == Some(Ip(a)) && a != 0
    ensures Cleared(c', net, mac) && Foreign(c', net, a)
    ensures nc.net == net && nc.mac == mac ==> r.Err?
  {
    hide AllocateOne, RecordedIP, WithRecord, RecordedFor, Contains;
    var chosen := AllocateOneCases(c, nc, records, c', r);
    if r.Ok? {
      var b := c'.cache[nc.net][nc.mac];
      forall x ensures !Recorded(c', Ticket(net, x, mac)) {
        assert !Recorded(c, Ticket(net, x, mac));
        RecordedAfterEntry(c.pools[nc.net], b, nc.mac, x, mac);
      }
    } else {
      assert forall x :: Recorded(c', Ticket(net, x, mac)) ==> Recorded(c, Ticket(net, x, mac));
    }
  }

  lemma {:induction false} ForeignRounds(c: Ctl, ncs: seq<NetworkConfig>, records: seq<NcStatus>, c': Ctl,
                                         outs: seq<NcStatus>, net: NetName, mac: Mac, a: Addr)
    requires AllocateAll(c, ncs, records, c', outs) && Cleared(c, net, mac) && Foreign(c, net, a)
    requires RecordedIP(records, mac) == Some(Ip(a)) && a != 0
    ensures Cleared(c', net, mac) && Foreign(c', net, a) && !Named(ncs, net, mac)
    decreases |ncs|
  {
    hide AllocateOne, RecordedIP, Cleared, Foreign;
    if ncs != [] {
      var m :| AllocateAll(c, Init(ncs), records, m, Init(outs))
               && AllocateOne(m, Last(ncs), records, c', Ok(Last(outs)));
      ForeignRounds(c, Init(ncs), records, m, Init(outs), net, mac, a);
      ForeignRound(m, Last(ncs), records, c', Ok(Last(outs)), net, mac, a);
      assert forall i :: 0 <= i < |ncs| - 1 ==> ncs[i] == Init(ncs)[i];
    }
  }

  /** Allocate of an object with such a NIC fails, and leaves the NIC without an address. */
  lemma ForeignAllocate(c: Ctl, cfg: Cfg, c': Ctl, r: Result<seq<NcStatus>, Failure>, net: NetName, mac: Mac, a: Addr)
    requires AllocateExit(c, cfg, c', r) && Cleared(c, net, mac) && Foreign(c, net, a)
    requires RecordedIP(cfg.status.records, mac) == Some(Ip(a)) && a != 0 && Named(cfg.configs, net, mac)
    ensures r.Err? && Cleared(c', net, mac)
  {
    hide AllocateOne, AllocateAll, RecordedIP, Cleared, Foreign, Named;
    var ncs, records := cfg.configs, cfg.status.records;
    if !cfg.paused && cfg.status.inSynced != False && ncs != [] {
      if r.Ok? {
        ForeignRounds(c, ncs, records, c', r.value, net, mac, a);
      } else {
        var i, m, outs :| 0 <= i < |ncs| && AllocateAll(c, ncs[..i], records, m, outs)
                          && AllocateOne(m, ncs[i], records, c', Err(r.error));
        ForeignRounds(c, ncs[..i], records, m, outs, net, mac, a);
        ForeignRound(m, ncs[i], records, c', Err(r.error), net, mac, a);
      }
    }
  }

  /** The object asks for the NIC, remembers an address for its MAC that the network's pool does not
      manage, and neither memory nor the pool status knows the MAC there. */
  ghost predicate Stuck(services: CidrText, s: Sys, key: Key, net: NetName, mac: Mac, a: Addr) {
    && CtlOk(services, s.ctl) && key in s.cfgs && net in s.ctl.pools && a != 0
    && RecordedIP(s.cfgs[key].status.records, mac) == Some(Ip(a))
    && a !in Pooled(s.ctl.pools[net].config) && Cleared(s.ctl, net, mac)
  }

  /** The object names the NIC, and no other unpaused object does. */
  ghost predicate OnlyAskedBy(cfgs: map<Key, Cfg>, key: Key, net: NetName, mac: Mac) {
    && key in cfgs && Named(cfgs[key].configs, net, mac)
    && OnlyPaused(cfgs - {key}, net, mac)
  }

  lemma StuckIsForeign(services: CidrText, s: Sys, key: Key, net: NetName, mac: Mac, a: Addr)
    requires Stuck(services, s, key, net, mac, a)
    ensures Foreign(s.ctl, net, a)
  {
    hide Pooled, PoolOk, Cleared;
    if net in s.ctl.ipam { LiveKeys(s.ctl.pools[net], s.ctl.ipam[net], s.ctl.cache[net]); }
  }

  lemma StuckStepCleared(services: CidrText, s: Sys, gone: seq<NcStatus>, s': Sys, key: Key, net: NetName, mac: Mac,
                         a: Addr)
    requires Stuck(services, s, key, net, mac, a) && Step(s, gone, s') && OnlyAskedBy(s.cfgs, key, net, mac)
    ensures Cleared(s'.ctl, net, mac)
  {
    hide CtlOk, Cleared, AllocateExit, Step, SpecMacs, Named, Foreign, RecordedIP, Pooled;
    if k :| WrappedExit(AllocateKind, s, k, s') {
      var r :| HandlerExit(AllocateKind, s.ctl, s.cfgs[k], s'.ctl, r);
      if k == key {
        StuckIsForeign(services, s, key, net, mac, a);
        ForeignAllocate(s.ctl, s.cfgs[key], s'.ctl, r, net, mac, a);
      } else {
        assert k in s.cfgs - {key};
        AllocateStaysCleared(s.ctl, s.cfgs[k], s'.ctl, r, net, mac);
      }
    } else {
      OtherStaysCleared(services, s, gone, s', net, mac);
    }
  }

  /** What one wrapped run leaves of the address remembered for the MAC. */
  lemma WrappedRemembers(services: CidrText, kind: Kind, s: Sys, k: Key, s': Sys, key: Key, net: NetName, mac: Mac,
                         a: Addr)
    requires Stuck(services, s, key, net, mac, a) && Named(s.cfgs[key].configs, net, mac)
    requires WrappedExit(kind, s, k, s') && key in s'.cfgs
    ensures RecordedIP(s'.cfgs[key].status.records, mac) == Some(Ip(a))
  {
    hide CtlOk, Cleared, AllocateExit, SyncExit, Named, Foreign, RecordedIP, Pooled;
    if k == key {
      var cfg := s.cfgs[key];
      var r :| HandlerExit(kind, s.ctl, cfg, s'.ctl, r) && (s'.cfgs == s.cfgs
               || s'.cfgs == s.cfgs[key := cfg.(status := StatusAfter(kind, cfg.status, r))]);
      if kind.AllocateKind? {
        StuckIsForeign(services, s, key, net, mac, a);
        ForeignAllocate(s.ctl, cfg, s'.ctl, r, net, mac, a);
      } else if r.Ok? {
        NamedMac(cfg.configs, net, mac);
        SyncOutcome(s.ctl, cfg, s'.ctl, r.value, mac);
      }
    }
  }

  lemma StuckStepRemembers(services: CidrText, s: Sys, gone: seq<NcStatus>, s': Sys, key: Key, net: NetName,
                           mac: Mac, a: Addr)
    requires Stuck(services, s, key, net, mac, a) && Step(s, gone, s') && key in s'.cfgs
    requires Named(s.cfgs[key].configs, net, mac)
    ensures RecordedIP(s'.cfgs[key].status.records, mac) == Some(Ip(a))
  {
    hide Stuck, PoolStep, WrappedExit, Frees, CleanupExit, StaleRecords, RecordedIP, Suspended, Named;
    assert RecordedIP(s.cfgs[key].status.records, mac) == Some(Ip(a)) by {
      StuckRemembers(services, s, key, net, mac, a);
    }
    if k :| WrappedExit(AllocateKind, s, k, s') {
      WrappedRemembers(services, AllocateKind, s, k, s', key, net, mac, a);
    } else if k :| SyncStep(s, k, gone, s') {
      WrappedRemembers(services, SyncKind, s, k, s', key, net, mac, a);
    } else {
      PauseRemembers(s.cfgs[key].status.records, mac);
    }
  }

  lemma StuckRemembers(services: CidrText, s: Sys, key: Key, net: NetName, mac: Mac, a: Addr)
    requires Stuck(services, s, key, net, mac, a)
    ensures key in s.cfgs && RecordedIP(s.cfgs[key].status.records, mac) == Some(Ip(a))
  {
  }

  lemma StuckStep(services: CidrText, s: Sys, gone: seq<NcStatus>, s': Sys, key: Key, net: NetName, mac: Mac, a: Addr)
    requires Stuck(services, s, key, net, mac, a) && Step(s, gone, s') && OnlyAskedBy(s.cfgs, key, net, mac)
    requires key in s'.cfgs
    ensures Stuck(services, s', key, net, mac, a)
  {
    hide CtlOk, Cleared, Step, Settles, FreeStep, RecordedIP, Pooled, OnlyPaused, Named;
    StuckStepCleared(services, s, gone, s', key, net, mac, a);
    StuckStepRemembers(services, s, gone, s', key, net, mac, a);
    StepOk(services, s, gone, s');
    StepIsFree(s, gone, s');
    OkFits(services, s.ctl);
    FreeStepFits(services, s.ctl, s'.ctl);
  }

  /** In every run: from the moment an object asks for a NIC on a network whose pool does not manage the
      address remembered for its MAC, every run of Allocate on the object fails, however often it is
      retried and whatever else runs, as long as the NIC stays in the spec. */
  lemma {:induction false} MovedNicStaysStuck(services: CidrText, tr: seq<Sys>, gone: seq<seq<NcStatus>>,
                                              i: nat, j: nat, key: Key, net: NetName, mac: Mac, a: Addr)
    requires Run(services, tr, gone) && i <= j < |tr| && Stuck(services, tr[i], key, net, mac, a)
    requires forall k :: i <= k <= j ==> OnlyAskedBy(tr[k].cfgs, key, net, mac)
    ensures Stuck(services, tr[j], key, net, mac, a)
    ensures forall c', r :: AllocateExit(tr[j].ctl, tr[j].cfgs[key], c', r) ==> r.Err?
    decreases j
  {
    hide Step, Fresh, Stuck, OnlyPaused, Named, AllocateExit;
    if i < j {
      MovedNicStaysStuck(services, tr, gone, i, j - 1, key, net, mac, a);
      assert OnlyAskedBy(tr[j - 1].cfgs, key, net, mac) && OnlyAskedBy(tr[j].cfgs, key, net, mac);
      assert Step(tr[j - 1], gone[j - 1], tr[j - 1 + 1]);
      StuckStep(services, tr[j - 1], gone[j - 1], tr[j], key, net, mac, a);
    }
    assert OnlyAskedBy(tr[j].cfgs, key, net, mac);
    forall c', r | AllocateExit(tr[j].ctl, tr[j].cfgs[key], c', r) ensures r.Err? {
      StuckAllocate(services, tr[j], key, net, mac, a, c', r);
    }
  }

  lemma StuckAllocate(services: CidrText, s: Sys, key: Key, net: NetName, mac: Mac, a: Addr, c': Ctl,
                      r: Result<seq<NcStatus>, Failure>)
    requires Stuck(services, s, key, net, mac, a) && Named(s.cfgs[key].configs, net, mac)
    requires AllocateExit(s.ctl, s.cfgs[key], c', r)
    ensures r.Err?
  {
    hide CtlOk, Cleared, AllocateExit, Named, Foreign, RecordedIP, Pooled;
    StuckIsForeign(services, s, key, net, mac, a);
    ForeignAllocate(s.ctl, s.cfgs[key], c', r, net, mac, a);
  }
}

/** What repeated Allocate runs consume and publish, and what pausing and Sync remember. */
module Retries {
  import opened Basics
  import opened Ipam
  import opened Stores
  import opened VmNetCfg
  import opened Agreement

  // ---------------------------------------------------------------- growth

  /** The MACs the spec puts on a network. */
  function SpecMacs(configs: seq<NetworkConfig>, net: NetName): set<Mac> {
    set nc | nc in configs && nc.net == net :: nc.mac
  }

  /** Cached pairs stay as they are; what is new, in memory or in a pool, belongs to the spec. */
  ghost predicate Grown(c: Ctl, configs: seq<NetworkConfig>, c': Ctl) {
    && c'.ipam.Keys == c.ipam.Keys && c'.cache.Keys == c.cache.Keys && c'.pools.Keys == c.pools.Keys
    && (forall net :: net in c.cache ==> GrownMacs(c.cache[net], SpecMacs(configs, net), c'.cache[net]))
    && (forall net :: net in c.pools ==> GrownRecords(c.pools[net], SpecMacs(configs, net), c'.pools[net]))
  }

  ghost predicate GrownRecords(p: Pool, extra: set<Mac>, p': Pool) {
    forall a, m :: RecordedFor(p', a, m) ==> RecordedFor(p, a, m) || m in extra
  }

  ghost predicate GrownMacs(macs: map<Mac, Addr>, extra: set<Mac>, macs': map<Mac, Addr>) {
    && (forall m :: m in macs ==> m in macs' && macs'[m] == macs[m])
    && (forall m :: m in macs' && m !in macs ==> m in extra)
  }

  lemma GrownTrans(c: Ctl, configs: seq<NetworkConfig>, d: Ctl, e: Ctl)
    requires Grown(c, configs, d) && Grown(d, configs, e)
    ensures Grown(c, configs, e)
  {
  }

  /** One round adds at most its own MAC, and publishes what the cache then holds for it. */
  lemma AllocateOneGrows(c: Ctl, nc: NetworkConfig, records: seq<NcStatus>, c': Ctl, r: Result<NcStatus, Failure>,
                         configs: seq<NetworkConfig>)
    requires AllocateOne(c, nc, records, c', r) && nc in configs
    ensures Grown(c, configs, c')
    ensures r.Ok? ==>
              nc.net in c'.cache && nc.mac in c'.cache[nc.net] && r.value == Published(nc, c'.cache[nc.net][nc.mac])
  {
    hide AllocateOne, Designated;
    var chosen := AllocateOneCases(c, nc, records, c', r);
    assert nc.mac in SpecMacs(configs, nc.net);
  }

  /** What was published matches the cache. */
  ghost predicate Matches(c: Ctl, ncs: seq<NetworkConfig>, outs: seq<NcStatus>) {
    && |outs| == |ncs|
    && forall i :: 0 <= i < |ncs| ==>
      && ncs[i].net in c.cache && ncs[i].mac in c.cache[ncs[i].net]
      && outs[i] == Published(ncs[i], c.cache[ncs[i].net][ncs[i].mac])
  }

  lemma MatchesGrown(c: Ctl, configs: seq<NetworkConfig>, c': Ctl, ncs: seq<NetworkConfig>, outs: seq<NcStatus>)
    requires Matches(c, ncs, outs) && Grown(c, configs, c')
    ensures Matches(c', ncs, outs)
  {
    forall i | 0 <= i < |ncs|
      ensures ncs[i].net in c'.cache && ncs[i].mac in c'.cache[ncs[i].net]
              && outs[i] == Published(ncs[i], c'.cache[ncs[i].net][ncs[i].mac])
    {
      assert ncs[i].net in c.cache;
    }
  }

  lemma {:induction false} AllocateAllGrows(c: Ctl, ncs: seq<NetworkConfig>, records: seq<NcStatus>, c': Ctl,
                                            outs: seq<NcStatus>, configs: seq<NetworkConfig>)
    requires AllocateAll(c, ncs, records, c', outs) && ncs <= configs
    ensures Grown(c, configs, c') && Matches(c', ncs, outs)
    decreases |ncs|
  {
    hide AllocateOne, Grown;
    if ncs == [] {
      GrownSame(c, configs);
    } else {
      var m :| AllocateAll(c, Init(ncs), records, m, Init(outs))
               && AllocateOne(m, Last(ncs), records, c', Ok(Last(outs)));
      AllocateAllGrows(c, Init(ncs), records, m, Init(outs), configs);
      assert Last(ncs) == configs[|ncs| - 1];
      AllocateOneGrows(m, Last(ncs), records, c', Ok(Last(outs)), configs);
      GrownTrans(c, configs, m, c');
      MatchesGrown(m, configs, c', Init(ncs), Init(outs));
      assert forall i :: 0 <= i < |ncs| - 1 ==> ncs[i] == Init(ncs)[i] && outs[i] == Init(outs)[i];
    }
  }

  lemma GrownSame(c: Ctl, configs: seq<NetworkConfig>)
    ensures Grown(c, configs, c)
  {
  }

  lemma AllocateGrows(c: Ctl, cfg: Cfg, c': Ctl, r: Result<seq<NcStatus>, Failure>)
    requires AllocateExit(c, cfg, c', r)
    ensures Grown(c, cfg.configs, c')
    ensures r.Ok? ==> Matches(c', cfg.configs, r.value)
  {
    hide AllocateOne, AllocateAll, Grown, Matches;
    var ncs, records := cfg.configs, cfg.status.records;
    if cfg.paused || cfg.status.inSynced == False || ncs == [] {
      GrownSame(c, ncs);
    } else if r.Ok? {
      AllocateAllGrows(c, ncs, records, c', r.value, ncs);
    } else {
      var i, m, outs :| 0 <= i < |ncs| && AllocateAll(c, ncs[..i], records, m, outs)
                        && AllocateOne(m, ncs[i], records, c', Err(r.error));
      AllocateAllGrows(c, ncs[..i], records, m, outs, ncs);
      AllocateOneGrows(m, ncs[i], records, c', Err(r.error), ncs);
      GrownTrans(c, ncs, m, c');
    }
  }

  // ---------------------------------------------------------------- retries

  /** A sequence of Allocate runs on the same spec, each ending in any way. */
  ghost predicate Attempts(path: seq<Ctl>, configs: seq<NetworkConfig>, outcomes: seq<Result<seq<NcStatus>, Failure>>) {
    && |path| == |outcomes| + 1
    && forall i :: 0 <= i < |outcomes| ==> Attempt(path[i], configs, path[i + 1], outcomes[i])
  }

  ghost predicate Attempt(c: Ctl, configs: seq<NetworkConfig>, c': Ctl, r: Result<seq<NcStatus>, Failure>) {
    exists cfg: Cfg :: cfg.configs == configs && AllocateExit(c, cfg, c', r)
  }

  lemma {:induction false} AttemptsGrow(path: seq<Ctl>, configs: seq<NetworkConfig>,
                                        outcomes: seq<Result<seq<NcStatus>, Failure>>, i: nat, j: nat)
    requires Attempts(path, configs, outcomes) && i <= j < |path|
    ensures Grown(path[i], configs, path[j])
    ensures Consistent(path[i]) ==> Consistent(path[j])
    decreases j
  {
    hide Grown, Consistent, AllocateExit;
    if i == j {
      GrownSame(path[i], configs);
    } else {
      AttemptsGrow(path, configs, outcomes, i, j - 1);
      assert Attempt(path[j - 1], configs, path[j - 1 + 1], outcomes[j - 1]);
      var cfg: Cfg :| cfg.configs == configs && AllocateExit(path[j - 1], cfg, path[j], outcomes[j - 1]);
      AllocateGrows(path[j - 1], cfg, path[j], outcomes[j - 1]);
      GrownTrans(path[i], configs, path[j - 1], path[j]);
      if Consistent(path[i]) { AllocateConsistent(path[j - 1], cfg, path[j], outcomes[j - 1]); }
    }
  }

  lemma GrownCount(macs: map<Mac, Addr>, extra: set<Mac>, macs': map<Mac, Addr>)
    requires GrownMacs(macs, extra, macs')
    ensures |macs'| <= |macs| + |extra - macs.Keys|
  {
    var had, has := macs.Keys, macs'.Keys;
    assert has <= had + (extra - had);
    SubsetCount(has, had + (extra - had));
  }

  lemma {:induction false} SubsetCount<T>(a: set<T>, b: set<T>)
    requires a <= b
    ensures |a| <= |b|
    decreases |a|
  {
    if a != {} {
      var x :| x in a;
      SubsetCount(a - {x}, b - {x});
    }
  }

  /** However often Allocate is retried and wherever it fails, on each network it takes at most one
      address per MAC of the spec that held none, and gives none back. */
  lemma BoundedConsumption(path: seq<Ctl>, configs: seq<NetworkConfig>,
                           outcomes: seq<Result<seq<NcStatus>, Failure>>, net: NetName)
    requires Attempts(path, configs, outcomes) && Consistent(path[0]) && net in path[0].ipam
    ensures var first, last := path[0], path[|path| - 1];
      && net in last.ipam
      && Used(first.ipam[net].ips) <= Used(last.ipam[net].ips)
      && |Used(last.ipam[net].ips)| <= |Used(first.ipam[net].ips)| + |SpecMacs(configs, net) - first.cache[net].Keys|
  {
    hide Attempt, SpecMacs;
    var first, last := path[0], path[|path| - 1];
    AttemptsGrow(path, configs, outcomes, 0, |path| - 1);
    UsedIsCached(first.ipam[net].ips, first.cache[net]);
    UsedIsCached(last.ipam[net].ips, last.cache[net]);
    GrownCount(first.cache[net], SpecMacs(configs, net), last.cache[net]);
    forall a | a in Used(first.ipam[net].ips) ensures a in Used(last.ipam[net].ips) {
      var m :| m in first.cache[net] && first.cache[net][m] == a;
      assert last.cache[net][m] == a;
    }
  }

  /** The attempt that succeeds publishes, for every MAC, the address an earlier attempt chose first. */
  lemma FirstChoicePublished(path: seq<Ctl>, configs: seq<NetworkConfig>,
                             outcomes: seq<Result<seq<NcStatus>, Failure>>, j: nat, k: nat, i: nat)
    requires Attempts(path, configs, outcomes) && j <= k < |outcomes| && outcomes[k].Ok? && i < |configs|
    requires configs[i].net in path[j].cache && configs[i].mac in path[j].cache[configs[i].net]
    ensures |outcomes[k].value| == |configs|
    ensures outcomes[k].value[i] == Published(configs[i], path[j].cache[configs[i].net][configs[i].mac])
  {
    hide AllocateExit, SpecMacs;
    AttemptsGrow(path, configs, outcomes, j, k + 1);
    assert Attempt(path[k], configs, path[k + 1], outcomes[k]);
    var cfg: Cfg :| cfg.configs == configs && AllocateExit(path[k], cfg, path[k + 1], outcomes[k]);
    AllocateGrows(path[k], cfg, path[k + 1], outcomes[k]);
    assert Grown(path[j], configs, path[k + 1]);
  }

  lemma FailedRoundKeepsChoice(c: Ctl, nc: NetworkConfig, records: seq<NcStatus>, c': Ctl, f: Failure)
    requires AllocateOne(c, nc, records, c', Err(f)) && WriteFailure(f)
    ensures nc.net in c'.cache && nc.mac in c'.cache[nc.net] && c'.pools == c.pools
  {
    hide Designated;
  }

  /** An attempt that fails on a pool write gives nothing back: every NIC up to the one it failed on holds an
      address in memory, for the next attempt to publish. */
  lemma FailedAttemptKeepsChoices(c: Ctl, cfg: Cfg, c': Ctl, f: Failure) returns (n: nat)
    requires AllocateExit(c, cfg, c', Err(f)) && WriteFailure(f)
    ensures n < |cfg.configs|
    ensures forall k :: 0 <= k <= n ==>
              cfg.configs[k].net in c'.cache && cfg.configs[k].mac in c'.cache[cfg.configs[k].net]
  {
    hide AllocateOne, AllocateAll, GrownRecords;
    var ncs, records := cfg.configs, cfg.status.records;
    var i, m, outs :| 0 <= i < |ncs| && AllocateAll(c, ncs[..i], records, m, outs)
                      && AllocateOne(m, ncs[i], records, c', Err(f));
    n := i;
    AllocateAllGrows(c, ncs[..i], records, m, outs, ncs);
    AllocateOneGrows(m, ncs[i], records, c', Err(f), ncs);
    FailedRoundKeepsChoice(m, ncs[i], records, c', f);
    forall k | 0 <= k < n ensures ncs[k].net in c'.cache && ncs[k].mac in c'.cache[ncs[k].net] {
      assert ncs[..i][k] == ncs[k];
    }
  }

  // ---------------------------------------------------------------- what Allocated says

  /** The object publishes an allocated record for each of its NICs in turn, and no other. */
  ghost predicate PublishesSpec(configs: seq<NetworkConfig>, records: seq<NcStatus>) {
    && |records| == |configs|
    && forall k :: 0 <= k < |records| ==>
         records[k].net == configs[k].net && records[k].mac == configs[k].mac && records[k].state == AllocatedState
  }

  /** After a run of Allocate the condition Allocated can be taken at its word if and only if the run did
      not give up on a conflict, or the records it left alone belonged to the spec already. */
  lemma AllocatedTruthfulExactly(c: Ctl, cfg: Cfg, c': Ctl, r: Result<seq<NcStatus>, Failure>)
    requires AllocateExit(c, cfg, c', r)
    ensures var status := StatusAfter(AllocateKind, cfg.status, r);
      (status.allocation == True ==> PublishesSpec(cfg.configs, status.records))
      <==> (r != Err(WriteConflict) || PublishesSpec(cfg.configs, cfg.status.records))
  {
    hide AllocateExit, Grown;
    AllocateGrows(c, cfg, c', r);
  }

  /** A new object whose only write meets a conflict: Allocated becomes True with no record at all. */
  lemma ConflictReportsAllocated(c: Ctl, nc: NetworkConfig, a: Addr) returns (c': Ctl)
    requires nc.net in c.pools && c.pools[nc.net].cacheReady == True && !RecordedFor(c.pools[nc.net], a, nc.mac)
    requires nc.net in c.cache && nc.mac !in c.cache[nc.net] && CanTake(c.ipam, nc.net, nc.ip, a)
    ensures var cfg := Cfg([nc], false, CfgStatus([], Absent, Absent, Absent));
      && AllocateExit(c, cfg, c', Err(WriteConflict))
      && StatusAfter(AllocateKind, cfg.status, Err(WriteConflict)) == CfgStatus([], True, Absent, Absent)
  {
    c' := Taken(c, nc, a);
    assert RecordedFor(Entered(c', nc, a).pools[nc.net], a, nc.mac);
    assert EnterStep(c', nc, a, c', Err(WriteConflict));
    assert AllocateOne(c, [nc][0], [], c', Err(WriteConflict));
    NoRounds(c, []);
    assert [nc][..0] == [];
    assert AllocateBroken(c, [nc], [], c', WriteConflict);
  }

  // ---------------------------------------------------------------- remembered addresses

  /** Pausing keeps every recorded address. */
  lemma {:induction false} PauseRemembers(records: seq<NcStatus>, mac: Mac)
    ensures RecordedIP(Suspended(records), mac) == RecordedIP(records, mac)
  {
    if records != [] {
      PauseRemembers(records[1..], mac);
      assert Suspended(records)[1..] == Suspended(records[1..]);
    }
  }

  lemma {:induction false} RecordedSplit(front: seq<NcStatus>, back: seq<NcStatus>, mac: Mac)
    ensures RecordedIP(front + back, mac)
         == if RecordedIP(front, mac).Some? then RecordedIP(front, mac) else RecordedIP(back, mac)
  {
    if front == [] {
      assert front + back == back;
    } else {
      RecordedSplit(front[1..], back, mac);
      assert (front + back)[1..] == front[1..] + back;
    }
  }

  /** So does Sync, for every MAC the spec still names. */
  lemma {:induction false} SyncRemembers(records: seq<NcStatus>, macs: set<Mac>, mac: Mac)
    requires mac in macs
    ensures RecordedIP(Kept(records, macs), mac) == RecordedIP(records, mac)
  {
    if records != [] {
      var last := Last(records);
      SyncRemembers(Init(records), macs, mac);
      assert records == Init(records) + [last];
      RecordedSplit(Init(records), [last], mac);
      if last.mac in macs { RecordedSplit(Kept(Init(records), macs), [last], mac); }
    }
  }
}

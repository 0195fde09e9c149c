/** The vmnetcfg controller's code, on objects that share their record slices as the Go code does. */
module VmNetCfgHandler {
  import opened Basics
  import opened Ipam
  import opened MacCache
  import opened Stores
  import opened VmNetCfg

  /** A VirtualMachineNetworkConfig in memory. Copying its status copies a reference to `records`. */
  class CfgObject {
    var configs: seq<NetworkConfig>
    var paused: bool
    var records: array<NcStatus>
    var allocation: Cond
    var disabled: Cond
    var inSynced: Cond

    /** A deep copy of a stored object. */
    constructor (cfg: Cfg)
      ensures fresh(records) && Value() == cfg
    {
      configs, paused := cfg.configs, cfg.paused;
      var copy := new NcStatus[|cfg.status.records|](i requires 0 <= i < |cfg.status.records| => cfg.status.records[i]);
      records := copy;
      allocation, disabled, inSynced := cfg.status.allocation, cfg.status.disabled, cfg.status.inSynced;
      new;
      assert records[..] == cfg.status.records;
    }

    ghost function Value(): Cfg
      reads this, records
    {
      Cfg(configs, paused, CfgStatus(records[..], allocation, disabled, inSynced))
    }
  }

  function FailureIn<T>(r: Result<T, Failure>): Option<Failure> {
    if r.Err? then Some(r.error) else None
  }

  /** retry.DefaultBackoff makes four attempts. */
  const RETRIES: nat := 4

  class Handler {
    const ipAllocator: IPAllocator
    const cacheAllocator: CacheAllocator
    const api: ApiServer

    constructor (ipAllocator: IPAllocator, cacheAllocator: CacheAllocator, api: ApiServer)
      ensures this.ipAllocator == ipAllocator && this.cacheAllocator == cacheAllocator && this.api == api
    {
      this.ipAllocator, this.cacheAllocator, this.api := ipAllocator, cacheAllocator, api;
    }

    ghost function View(): Ctl
      reads ipAllocator, cacheAllocator, api
    {
      Ctl(ipAllocator.ipam, cacheAllocator.cache, api.pools)
    }

    ghost function SysView(): Sys
      reads ipAllocator, cacheAllocator, api
    {
      Sys(View(), api.cfgs)
    }

    // -------------------------------------------------------------- Allocate

    method FindRecordedIP(records: array<NcStatus>, mac: Mac) returns (t: Option<AddrText>)
      ensures t == RecordedIP(records[..], mac)
    {
      for i := 0 to records.Length
        invariant RecordedIP(records[..], mac) == RecordedIP(records[i..], mac)
      {
        if records[i].mac == mac && !records[i].ip.Unset? {
          return Some(records[i].ip);
        }
        assert records[i..][1..] == records[i + 1..];
      }
      return None;
    }

    /** Enters `a` for `nc` in the pool status, unless it is there already. */
    method EnterInPool(nc: NetworkConfig, a: Addr) returns (r: Result<NcStatus, Failure>)
      requires nc.net in api.pools
      modifies api`pools, api`writes
      ensures EnterStep(old(View()), nc, a, View(), r)
      ensures api.Accounts(old(api.writes), FailureIn(r))
      ensures api.writes == old(api.writes) + (if RecordedFor(old(api.pools)[nc.net], a, nc.mac) then 0 else 1)
    {
      var ipPool := api.pools[nc.net];
      var copy := WithRecord(ipPool, a, MacRec(nc.mac));
      assert RecordedFor(copy, a, nc.mac);
      assert RecordedFor(ipPool, a, nc.mac) ==> RecordsOf(ipPool)[a := MacRec(nc.mac)] == RecordsOf(ipPool);
      if copy != ipPool {
        var w := api.UpdatePoolStatus(nc.net, copy);
        if w != Landed {
          return Err(FailureOf(w));
        }
      }
      return Ok(Published(nc, a));
    }

    method AllocateRound(nc: NetworkConfig, records: array<NcStatus>) returns (r: Result<NcStatus, Failure>)
      modifies ipAllocator, cacheAllocator, api`pools, api`writes
      ensures AllocateOne(old(View()), nc, records[..], View(), r)
      ensures api.Accounts(old(api.writes), FailureIn(r))
    {
      if nc.net !in api.pools {
        return Err(PoolMissing);
      }
      if api.pools[nc.net].cacheReady != True {
        return Err(PoolNotReady);
      }
      var known := cacheAllocator.HasMAC(nc.net, nc.mac);
      if known.Err? {
        return Err(StoreMissing);
      }
      if known.value {
        var cached := cacheAllocator.GetIPByMAC(nc.net, nc.mac);
        r := EnterInPool(nc, cached.value);
        return;
      }
      var wanted := nc.ip;
      var recorded := FindRecordedIP(records, nc.mac);
      if recorded.Some? {
        wanted := recorded.value;
      }
      ghost var before := View();
      var allocation := ipAllocator.AllocateIP(nc.net, wanted);
      if allocation.Err? {
        return Err(AddressRefused);
      }
      var added := cacheAllocator.AddMAC(nc.net, nc.mac, allocation.value);
      assert View() == Taken(before, nc, allocation.value);
      r := EnterInPool(nc, allocation.value);
    }

    method Allocate(obj: CfgObject) returns (r: Result<seq<NcStatus>, Failure>)
      modifies ipAllocator, cacheAllocator, api`pools, api`writes
      ensures AllocateExit(old(View()), obj.Value(), View(), r)
      ensures api.Accounts(old(api.writes), FailureIn(r))
    {
      hide AllocateOne, AllocateAll;
      if obj.paused {
        return Err(AdminDisabled);
      }
      if obj.inSynced == False {
        return Err(OutOfSync);
      }
      assert AllocateAll(old(View()), [], obj.records[..], View(), []) by { NoRounds(View(), obj.records[..]); }
      var ncStatuses: seq<NcStatus> := [];
      ghost var records := obj.records[..];
      for i := 0 to |obj.configs|
        invariant old(api.writes) <= api.writes
        invariant |ncStatuses| == i && (i == 0 ==> View() == old(View()))
        invariant AllocateAll(old(View()), obj.configs[..i], records, View(), ncStatuses)
      {
        ghost var m := View();
        var round := AllocateRound(obj.configs[i], obj.records);
        if round.Err? {
          return Err(round.error);
        }
        OneRoundMore(old(View()), obj.configs[..i], records, m, ncStatuses, obj.configs[i], View(), round.value);
        ncStatuses := ncStatuses + [round.value];
        assert obj.configs[..i + 1] == obj.configs[..i] + [obj.configs[i]];
      }
      assert obj.configs[..|obj.configs|] == obj.configs;
      if |ncStatuses| == 0 {
        return Err(NothingToAllocate);
      }
      return Ok(ncStatuses);
    }

    // -------------------------------------------------------------- cleanup

    /** Erases one address from the pool status, trying again on conflict. */
    method EraseInPool(rec: NcStatus) returns (f: Option<Failure>)
      requires rec.ip.Ip?
      modifies api`pools, api`writes
      ensures api.Accounts(old(api.writes), f) && api.writes <= old(api.writes) + RETRIES
      ensures forall i :: old(api.writes) <= i < api.writes - 1 ==> api.answer(i) == Conflicted
      ensures f == Some(WriteConflict) ==> api.writes == old(api.writes) + RETRIES
      ensures f.None? && api.pools != old(api.pools) ==>
                api.writes > old(api.writes) && api.answer(api.writes - 1) == Landed
      ensures rec.net !in old(api.pools) ==> f == Some(PoolMissing) && api.pools == old(api.pools)
      ensures rec.net in old(api.pools) && old(api.pools)[rec.net].ipv4.None? ==>
                f == Some(StatusMissing) && api.pools == old(api.pools)
      ensures rec.net in old(api.pools) && old(api.pools)[rec.net].ipv4.Some? ==>
                var c, d := old(View()), Erased(old(View()), rec);
                || (f == None && View() == d)
                || (d != c && View() == c && f.Some? && WriteFailure(f.value))
    {
      for attempt := 0 to RETRIES
        invariant api.pools == old(api.pools) && api.writes == old(api.writes) + attempt
        invariant forall i :: old(api.writes) <= i < api.writes ==> api.answer(i) == Conflicted
        invariant attempt > 0 ==> rec.net in api.pools && api.pools[rec.net].ipv4.Some?
                                  && Erased(View(), rec) != View()
      {
        if rec.net !in api.pools {
          return Some(PoolMissing);
        }
        var ipPool := api.pools[rec.net];
        if ipPool.ipv4.None? {
          return Some(StatusMissing);
        }
        var copy := WithoutRecord(ipPool, rec.ip.addr);
        if copy == ipPool {
          assert api.pools[rec.net := copy] == api.pools;
          return None;
        }
        assert Erased(View(), rec).pools[rec.net] == copy;
        var w := api.UpdatePoolStatus(rec.net, copy);
        if w == Landed {
          return None;
        }
        if w == Refused {
          return Some(WriteRefused);
        }
      }
      return Some(WriteConflict);
    }

    method CleanupRound(rec: NcStatus) returns (f: Option<Failure>)
      modifies ipAllocator, cacheAllocator, api`pools, api`writes
      ensures CleanupOne(old(View()), rec, View(), f)
      ensures api.Accounts(old(api.writes), f)
    {
      ghost var before := View();
      var isAllocated := ipAllocator.IsAllocated(rec.net, rec.ip);
      if isAllocated.Err? {
        return Some(StoreMissing);
      }
      if isAllocated.value {
        var freed := ipAllocator.DeallocateIP(rec.net, rec.ip);
      } else {
        MarkedSame(ipAllocator.ipam, rec.net, rec.ip.addr);
      }
      assert View() == before.(ipam := Marked(before.ipam, rec.net, rec.ip.addr, false));
      var exists_ := cacheAllocator.HasMAC(rec.net, rec.mac);
      if exists_.Err? {
        return Some(StoreMissing);
      }
      if exists_.value {
        var forgotten := cacheAllocator.DeleteMAC(rec.net, rec.mac);
      } else {
        assert cacheAllocator.cache[rec.net] - {rec.mac} == cacheAllocator.cache[rec.net];
      }
      assert View() == Released(before, rec);
      f := EraseInPool(rec);
    }

    method Cleanup(obj: CfgObject, staleOnly: bool) returns (f: Option<Failure>)
      modifies ipAllocator, cacheAllocator, api`pools, api`writes
      ensures CleanupExit(old(View()), Selected(obj.records[..], staleOnly), View(), f)
      ensures api.Accounts(old(api.writes), f)
    {
      hide CleanupOne;
      for i := 0 to obj.records.Length
        invariant old(api.writes) <= api.writes
        invariant CleanupAll(old(View()), Selected(obj.records[..i], staleOnly), View())
      {
        ghost var m := View();
        ghost var done := Selected(obj.records[..i], staleOnly);
        var rec := obj.records[i];
        assert Init(obj.records[..i + 1]) == obj.records[..i];
        if !staleOnly || rec.state == StaleState {
          f := CleanupRound(rec);
          if f.Some? {
            SelectedPrefix(obj.records[..], staleOnly, i);
            assert obj.records[..][..i] == obj.records[..i];
            assert CleanupUpTo(old(View()), Selected(obj.records[..], staleOnly), |done|, View(), f);
            return;
          }
          assert Init(done + [rec]) == done;
          assert CleanupAll(old(View()), Init(done + [rec]), m);
        }
      }
      assert obj.records[..obj.records.Length] == obj.records[..];
      ghost var all := Selected(obj.records[..], staleOnly);
      assert CleanupUpTo(old(View()), all, |all|, View(), None);
      return None;
    }

    // -------------------------------------------------------------- Sync

    /** `status` is the slice of the object itself, as the wrapper passes it: the marks set through
        one are what cleanup reads through the other. */
    method Sync(obj: CfgObject, status: array<NcStatus>) returns (r: Result<seq<NcStatus>, Failure>)
      requires status == obj.records
      modifies ipAllocator, cacheAllocator, api`pools, api`writes, status
      ensures SyncExit(old(View()), old(obj.Value()), View(), r)
      ensures api.Accounts(old(api.writes), FailureIn(r))
      ensures status[..] == old(status[..]) || status[..] == MarkStale(old(status[..]), MacsOf(obj.configs))
    {
      hide CleanupExit, Selected;
      if obj.paused {
        return Err(AdminDisabled);
      }
      if obj.inSynced == True {
        return Ok(status[..]);
      }
      var macs: set<Mac> := {};
      for i := 0 to |obj.configs|
        invariant macs == set j | 0 <= j < i :: obj.configs[j].mac
      {
        macs := macs + {obj.configs[i].mac};
      }
      assert macs == MacsOf(obj.configs);
      ghost var before := status[..];
      var nonStale: seq<NcStatus> := [];
      for i := 0 to status.Length
        invariant nonStale == Kept(before[..i], macs)
        invariant forall j :: 0 <= j < i ==> status[j] == MarkStale(before, macs)[j]
        invariant forall j :: i <= j < status.Length ==> status[j] == before[j]
        invariant View() == old(View()) && api.writes == old(api.writes)
      {
        var rec := status[i];
        assert Init(before[..i + 1]) == before[..i];
        if rec.mac !in macs {
          status[i] := rec.(state := StaleState);
          continue;
        }
        nonStale := nonStale + [rec];
      }
      assert before[..status.Length] == before;
      assert status[..] == MarkStale(before, macs);
      var f := Cleanup(obj, true);
      if f.Some? {
        assert CleanupExit(old(View()), Selected(MarkStale(before, macs), true), View(), Some(f.value));
        return Err(f.value);
      }
      return Ok(nonStale);
    }

    // -------------------------------------------------------------- the generated status wrapper

    /** Runs a handler and publishes its outcome: `r` is what the handler returned, `w` how the status write
        fared, None if the status was as desired already. */
    method StatusSync(kind: Kind, key: Key) returns (r: Result<seq<NcStatus>, Failure>, w: Option<WriteResult>)
      requires key in api.cfgs
      modifies ipAllocator, cacheAllocator, api
      ensures WrappedExit(kind, old(SysView()), key, SysView())
      ensures HandlerExit(kind, old(View()), old(api.cfgs)[key], View(), r)
      ensures w == Some(Landed) ==>
        && api.cfgs.Keys == old(api.cfgs.Keys) && api.cfgs == old(api.cfgs)[key := api.cfgs[key]]
        && api.cfgs[key] == old(api.cfgs)[key].(status := api.cfgs[key].status)
        && Reports(kind, old(api.cfgs)[key].status, r, api.cfgs[key].status)
      ensures w != Some(Landed) ==> api.cfgs == old(api.cfgs)
      ensures w.None? ==> Reports(kind, old(api.cfgs)[key].status, r, old(api.cfgs)[key].status)
      ensures w.Some? ==> api.writes > old(api.writes) && w.value == api.answer(api.writes - 1)
    {
      hide AllocateExit, SyncExit, Reports;
      var stored := api.cfgs[key];
      var origStatus := stored.status;
      var obj := new CfgObject(stored);
      match kind {
        case AllocateKind => r := Allocate(obj);
        case SyncKind => r := Sync(obj, obj.records);
      }
      var newStatus := origStatus;
      if r.Ok? {
        newStatus := newStatus.(records := r.value);
      }
      var cond := if r.Err? && !r.error.WriteConflict? then False else True;
      match kind {
        case AllocateKind => newStatus := newStatus.(allocation := cond);
        case SyncKind => newStatus := newStatus.(inSynced := cond);
      }
      assert newStatus == StatusAfter(kind, origStatus, r);
      StatusReports(kind, origStatus, r);
      w := None;
      if newStatus != origStatus {
        var written := api.UpdateCfgStatus(key, newStatus);
        w := Some(written);
      }
    }

    // -------------------------------------------------------------- OnChange, OnRemove

    /** updateAllNetworkConfigState with the pending state. */
    method SuspendAll(records: array<NcStatus>)
      modifies records
      ensures records[..] == Suspended(old(records[..]))
    {
      for i := 0 to records.Length
        invariant forall j :: 0 <= j < i ==> records[j] == Suspended(old(records[..]))[j]
        invariant forall j :: i <= j < records.Length ==> records[j] == old(records[j])
      {
        records[i] := records[i].(state := PendingState);
      }
    }

    /** `f` is the failure of the cleanup, if there was one; `w` is how the status write fared, None if there
        was nothing to write. */
    method OnChange(key: Key) returns (f: Option<Failure>, w: Option<WriteResult>)
      requires key in api.cfgs
      modifies ipAllocator, cacheAllocator, api
      ensures OnChangeExit(old(SysView()), key, SysView())
      ensures f.Some? ==> api.Accounts(old(api.writes), f)
      ensures f.Some? ==> old(api.cfgs)[key].paused && w.None?
      ensures w == Some(Landed) ==>
        && api.cfgs.Keys == old(api.cfgs.Keys) && api.cfgs == old(api.cfgs)[key := api.cfgs[key]]
        && api.cfgs[key] == old(api.cfgs)[key].(status := api.cfgs[key].status)
        && Announces(old(api.cfgs)[key], api.cfgs[key].status)
      ensures w != Some(Landed) ==> api.cfgs == old(api.cfgs)
      ensures f.None? && w.None? ==> Announces(old(api.cfgs)[key], old(api.cfgs)[key].status)
      ensures w.Some? ==> api.writes > old(api.writes) && w.value == api.answer(api.writes - 1)
    {
      hide CleanupExit, Selected, Suspended;
      var cfg := api.cfgs[key];
      var status := cfg.status;
      f, w := None, None;
      if cfg.paused {
        var obj := new CfgObject(cfg);
        f := Cleanup(obj, false);
        SelectedAll(cfg.status.records);
        if f.Some? {
          return;
        }
        status := status.(disabled := True);
        var copy := new CfgObject(cfg);
        SuspendAll(copy.records);
        status := status.(records := copy.records[..]);
      } else {
        status := status.(disabled := False);
      }
      assert status == StatusOnChange(cfg);
      OnChangeAnnounces(cfg);
      if status != cfg.status {
        var written := api.UpdateCfgStatus(key, status);
        w := Some(written);
      }
    }

    /** The object is let go exactly when its cleanup succeeded and the write lands. */
    method OnRemove(key: Key) returns (f: Option<Failure>, w: Option<WriteResult>)
      requires key in api.cfgs
      modifies ipAllocator, cacheAllocator, api
      ensures OnRemoveExit(old(SysView()), key, SysView())
      ensures f.Some? ==> api.Accounts(old(api.writes), f)
      ensures w.Some? <==> f.None?
      ensures api.cfgs == if w == Some(Landed) then old(api.cfgs) - {key} else old(api.cfgs)
      ensures w.Some? ==> api.writes > old(api.writes) && w.value == api.answer(api.writes - 1)
    {
      hide CleanupExit, Selected;
      var cfg := api.cfgs[key];
      var obj := new CfgObject(cfg);
      w := None;
      f := Cleanup(obj, false);
      SelectedAll(cfg.status.records);
      if f.None? {
        var written := api.ReleaseCfg(key);
        w := Some(written);
      }
    }
  }

  /** The status says what OnChange has to say: Disabled is True for a paused object, whose records are all
      pending then, and False for any other; nothing else differs. */
  ghost predicate Announces(cfg: Cfg, status: CfgStatus) {
    && status.disabled == (if cfg.paused then True else False)
    && status.allocation == cfg.status.allocation && status.inSynced == cfg.status.inSynced
    && |status.records| == |cfg.status.records|
    && forall i :: 0 <= i < |status.records| ==>
      && status.records[i].ip == cfg.status.records[i].ip && status.records[i].mac == cfg.status.records[i].mac
      && status.records[i].net == cfg.status.records[i].net
      && status.records[i].state == (if cfg.paused then PendingState else cfg.status.records[i].state)
  }

  lemma OnChangeAnnounces(cfg: Cfg)
    ensures Announces(cfg, StatusOnChange(cfg))
  {
  }

  lemma StatusReports(kind: Kind, before: CfgStatus, r: Result<seq<NcStatus>, Failure>)
    ensures Reports(kind, before, r, StatusAfter(kind, before, r))
  {
  }

  /** The status reports the outcome of a handler: the records it returned, or the old ones on error; and its
      own condition, False for every error but a conflict. */
  ghost predicate Reports(kind: Kind, before: CfgStatus, r: Result<seq<NcStatus>, Failure>, after: CfgStatus) {
    && after.records == (if r.Ok? then r.value else before.records) && after.disabled == before.disabled
    && match kind
       case AllocateKind =>
         && after.inSynced == before.inSynced
         && after.allocation == (if r.Ok? || r.error == WriteConflict then True else False)
       case SyncKind =>
         && after.allocation == before.allocation
         && after.inSynced == (if r.Ok? || r.error == WriteConflict then True else False)
  }

  lemma {:induction false} SelectedAll(records: seq<NcStatus>)
    ensures Selected(records, false) == records
  {
    if records != [] {
      SelectedAll(Init(records));
      assert records == Init(records) + [Last(records)];
    }
  }

  /** A selected record comes right after the selection from the records before it. */
  lemma {:induction false} SelectedPrefix(records: seq<NcStatus>, staleOnly: bool, i: nat)
    requires i < |records| && (!staleOnly || records[i].state == StaleState)
    ensures var before := Selected(records[..i], staleOnly);
      && |before| < |Selected(records, staleOnly)|
      && Selected(records, staleOnly)[..|before|] == before
      && Selected(records, staleOnly)[|before|] == records[i]
    decreases |records| - i
  {
    if i == |records| - 1 {
      assert Init(records) == records[..i];
    } else {
      SelectedPrefix(Init(records), staleOnly, i);
      assert Init(records)[..i] == records[..i];
    }
  }
}

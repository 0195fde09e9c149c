/** The stores the controllers keep in step: two in-memory allocators and the API objects. */
module Stores {
  import opened Basics
  import opened Admission
  import opened Ipam
  import opened MacCache

  // ---------------------------------------------------------------- IPPool

  datatype IPv4Status = IPv4Status(entries: map<Addr, Rec>, used: nat, available: nat)

  datatype Pool = Pool(
    config: PoolConfig, paused: bool,
    agentPod: bool, cacheReady: Cond, stopped: Cond, ipv4: Option<IPv4Status>)

  function RecordsOf(p: Pool): map<Addr, Rec> {
    if p.ipv4.Some? then p.ipv4.value.entries else map[]
  }

  /** Status.IPv4 with one address entered or erased; a missing status starts empty. */
  function WithRecord(p: Pool, a: Addr, rec: Rec): Pool {
    var before := if p.ipv4.Some? then p.ipv4.value else IPv4Status(map[], 0, 0);
    p.(ipv4 := Some(before.(entries := before.entries[a := rec])))
  }

  function WithoutRecord(p: Pool, a: Addr): Pool
    requires p.ipv4.Some?
  {
    p.(ipv4 := Some(p.ipv4.value.(entries := p.ipv4.value.entries - {a})))
  }

  /** Address `a` is recorded for `mac`. */
  predicate RecordedFor(p: Pool, a: Addr, mac: Mac) {
    a in RecordsOf(p) && RecordsOf(p)[a] == MacRec(mac)
  }

  // ---------------------------------------------------------------- VirtualMachineNetworkConfig

  datatype NetworkConfig = NetworkConfig(net: NetName, mac: Mac, ip: AddrText)

  datatype RecordState = AllocatedState | PendingState | StaleState

  datatype NcStatus = NcStatus(ip: AddrText, mac: Mac, net: NetName, state: RecordState)

  datatype CfgStatus = CfgStatus(records: seq<NcStatus>, allocation: Cond, disabled: Cond, inSynced: Cond)

  datatype Cfg = Cfg(configs: seq<NetworkConfig>, paused: bool, status: CfgStatus)

  function MacsOf(configs: seq<NetworkConfig>): set<Mac> {
    set i | 0 <= i < |configs| :: configs[i].mac
  }

  function MacsIn(records: seq<NcStatus>): set<Mac> {
    set i | 0 <= i < |records| :: records[i].mac
  }

  // ---------------------------------------------------------------- sequences

  function Init<T>(s: seq<T>): (r: seq<T>)
    requires |s| > 0
    ensures |r| == |s| - 1
  {
    s[..|s| - 1]
  }

  function Last<T>(s: seq<T>): T
    requires |s| > 0
  {
    s[|s| - 1]
  }

  // ---------------------------------------------------------------- all of them

  /** What the controller process holds in memory, and the pools it serves. */
  datatype Ctl = Ctl(ipam: IpamState, cache: CacheState, pools: map<NetName, Pool>)

  /** The same together with every VirtualMachineNetworkConfig. */
  datatype Sys = Sys(ctl: Ctl, cfgs: map<Key, Cfg>)

  /** Why a handler gave up. */
  datatype Failure =
    | AdminDisabled | OutOfSync | NothingToAllocate
    | PoolMissing | PoolNotReady | StatusMissing
    | StoreMissing | AddressRefused | SubnetRefused
    | WriteConflict | WriteRefused

  datatype WriteResult = Landed | Conflicted | Refused

  function FailureOf(w: WriteResult): Failure
    requires w != Landed
  {
    if w == Conflicted then WriteConflict else WriteRefused
  }

  predicate WriteFailure(f: Failure) {
    f.WriteConflict? || f.WriteRefused?
  }

  /** The API server. A status write replaces the status and leaves the spec alone; it lands, loses
      against a newer version, or is refused. How the n-th write fares is up to the server. */
  class ApiServer {
    const answer: nat -> WriteResult
    var writes: nat
    var pools: map<NetName, Pool>
    var cfgs: map<Key, Cfg>

    constructor (answer: nat -> WriteResult, pools: map<NetName, Pool>, cfgs: map<Key, Cfg>)
      ensures this.answer == answer && writes == 0 && this.pools == pools && this.cfgs == cfgs
    {
      this.answer, writes := answer, 0;
      this.pools, this.cfgs := pools, cfgs;
    }

    /** A failure that blames a write follows an attempt, the last one made, that did not land. */
    ghost predicate Accounts(before: nat, f: Option<Failure>)
      reads this
    {
      && before <= writes
      && (f.Some? && WriteFailure(f.value) ==>
            before < writes && answer(writes - 1) != Landed && f.value == FailureOf(answer(writes - 1)))
    }

    method UpdatePoolStatus(net: NetName, p: Pool) returns (w: WriteResult)
      requires net in pools
      modifies this`pools, this`writes
      ensures w == answer(old(writes)) && writes == old(writes) + 1
      ensures w == Landed ==>
          pools == old(pools)[net := p.(config := old(pools)[net].config, paused := old(pools)[net].paused)]
      ensures w != Landed ==> pools == old(pools)
    {
      w, writes := answer(writes), writes + 1;
      if w == Landed {
        pools := pools[net := p.(config := pools[net].config, paused := pools[net].paused)];
      }
    }

    method UpdateCfgStatus(key: Key, status: CfgStatus) returns (w: WriteResult)
      requires key in cfgs
      modifies this`cfgs, this`writes
      ensures w == answer(old(writes)) && writes == old(writes) + 1
      ensures w == Landed ==> cfgs == old(cfgs)[key := old(cfgs)[key].(status := status)]
      ensures w != Landed ==> cfgs == old(cfgs)
    {
      w, writes := answer(writes), writes + 1;
      if w == Landed {
        cfgs := cfgs[key := cfgs[key].(status := status)];
      }
    }

    /** Takes the finalizer off an object that is being deleted, which lets it go. */
    method ReleaseCfg(key: Key) returns (w: WriteResult)
      modifies this`cfgs, this`writes
      ensures w == answer(old(writes)) && writes == old(writes) + 1
      ensures w == Landed ==> cfgs == old(cfgs) - {key}
      ensures w != Landed ==> cfgs == old(cfgs)
    {
      w, writes := answer(writes), writes + 1;
      if w == Landed {
        cfgs := cfgs - {key};
      }
    }
  }
}

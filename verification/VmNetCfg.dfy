/** The vmnetcfg controller: Allocate, Sync, cleanup, OnChange, OnRemove, and the generated wrapper
    that runs the first two and publishes their status. Each handler is first specified as a relation
    between the stores before and after one run, error exits included; the methods are proved to
    stay within it. */
module VmNetCfg {
  import opened Basics
  import opened Ipam
  import opened MacCache
  import opened Stores

  // ---------------------------------------------------------------- Allocate

  /** The address recorded first for `mac`, empty addresses skipped. */
  function RecordedIP(records: seq<NcStatus>, mac: Mac): Option<AddrText> {
    if records == [] then None
    else if records[0].mac == mac && !records[0].ip.Unset? then Some(records[0].ip)
    else RecordedIP(records[1..], mac)
  }

  /** The address asked for: the recorded one, else the one in the spec, else any. */
  function Designated(nc: NetworkConfig, records: seq<NcStatus>): AddrText {
    var t := RecordedIP(records, nc.mac);
    if t.Some? then t.value else nc.ip
  }

  /** `nc.mac` takes address `a` in both allocators. */
  function Taken(c: Ctl, nc: NetworkConfig, a: Addr): Ctl
    requires nc.net in c.ipam && nc.net in c.cache
  {
    c.(ipam := Marked(c.ipam, nc.net, a, true), cache := Remembered(c.cache, nc.net, nc.mac, a))
  }

  function Entered(c: Ctl, nc: NetworkConfig, a: Addr): Ctl
    requires nc.net in c.pools
  {
    c.(pools := c.pools[nc.net := WithRecord(c.pools[nc.net], a, MacRec(nc.mac))])
  }

  function Published(nc: NetworkConfig, a: Addr): NcStatus {
    NcStatus(Ip(a), nc.mac, nc.net, AllocatedState)
  }

  /** The pool status comes to record `a` for `nc.mac`, or the write fails and nothing changes. */
  ghost predicate EnterStep(c: Ctl, nc: NetworkConfig, a: Addr, c': Ctl, r: Result<NcStatus, Failure>)
    requires nc.net in c.pools
  {
    var d := Entered(c, nc, a);
    || (c' == d && r == Ok(Published(nc, a)))
    || (d != c && c' == c && r.Err? && WriteFailure(r.error))
  }

  ghost predicate SomeAddress(c: Ctl, nc: NetworkConfig, t: AddrText) {
    exists a :: CanTake(c.ipam, nc.net, t, a)
  }

  /** One round of Allocate's loop. */
  ghost predicate AllocateOne(c: Ctl, nc: NetworkConfig, records: seq<NcStatus>, c': Ctl,
                              r: Result<NcStatus, Failure>) {
    if nc.net !in c.pools then c' == c && r == Err(PoolMissing)
    else if c.pools[nc.net].cacheReady != True then c' == c && r == Err(PoolNotReady)
    else if nc.net !in c.cache then c' == c && r == Err(StoreMissing)
    else if nc.mac in c.cache[nc.net] then EnterStep(c, nc, c.cache[nc.net][nc.mac], c', r)
    else if SomeAddress(c, nc, Designated(nc, records)) then
      exists a :: CanTake(c.ipam, nc.net, Designated(nc, records), a) && EnterStep(Taken(c, nc, a), nc, a, c', r)
    else c' == c && r == Err(AddressRefused)
  }

  /** One round touches memory in at most one way, and the pool only when it succeeds. */
  lemma AllocateOneCases(c: Ctl, nc: NetworkConfig, records: seq<NcStatus>, c': Ctl, r: Result<NcStatus, Failure>)
    returns (chosen: Option<Addr>)
    requires AllocateOne(c, nc, records, c', r)
    ensures chosen.None? ==> c'.ipam == c.ipam && c'.cache == c.cache
    ensures chosen.Some? ==>
      && CanTake(c.ipam, nc.net, Designated(nc, records), chosen.value)
      && nc.net in c.cache && nc.mac !in c.cache[nc.net]
      && c'.ipam == Taken(c, nc, chosen.value).ipam && c'.cache == Taken(c, nc, chosen.value).cache
    ensures r.Ok? ==>
      && nc.net in c'.cache && nc.mac in c'.cache[nc.net] && nc.net in c.pools && c.pools[nc.net].cacheReady == True
      && r.value == Published(nc, c'.cache[nc.net][nc.mac])
      && c'.pools == c.pools[nc.net := WithRecord(c.pools[nc.net], c'.cache[nc.net][nc.mac], MacRec(nc.mac))]
    ensures r.Err? ==> c'.pools == c.pools
  {
    hide Designated;
    chosen := None;
    if nc.net in c.pools && c.pools[nc.net].cacheReady == True && nc.net in c.cache && nc.mac !in c.cache[nc.net]
       && SomeAddress(c, nc, Designated(nc, records)) {
      var a :| CanTake(c.ipam, nc.net, Designated(nc, records), a) && EnterStep(Taken(c, nc, a), nc, a, c', r);
      chosen := Some(a);
    }
  }

  /** Rounds that all succeed, one per network config. */
  ghost predicate AllocateAll(c: Ctl, ncs: seq<NetworkConfig>, records: seq<NcStatus>, c': Ctl, outs: seq<NcStatus>)
    decreases |ncs|
  {
    if ncs == [] then c' == c && outs == []
    else
      && |outs| == |ncs|
      && exists m ::
        && AllocateAll(c, Init(ncs), records, m, Init(outs))
        && AllocateOne(m, Last(ncs), records, c', Ok(Last(outs)))
  }

  lemma NoRounds(c: Ctl, records: seq<NcStatus>)
    ensures AllocateAll(c, [], records, c, [])
  {
  }

  lemma OneRoundMore(c: Ctl, ncs: seq<NetworkConfig>, records: seq<NcStatus>, m: Ctl, outs: seq<NcStatus>,
                     nc: NetworkConfig, c': Ctl, out: NcStatus)
    requires AllocateAll(c, ncs, records, m, outs) && |outs| == |ncs| && AllocateOne(m, nc, records, c', Ok(out))
    ensures AllocateAll(c, ncs + [nc], records, c', outs + [out])
  {
    hide AllocateOne;
    assert Init(ncs + [nc]) == ncs && Init(outs + [out]) == outs;
  }

  /** Rounds up to one that fails. */
  ghost predicate AllocateBroken(c: Ctl, ncs: seq<NetworkConfig>, records: seq<NcStatus>, c': Ctl, f: Failure) {
    exists i, m, outs ::
      && 0 <= i < |ncs| && AllocateAll(c, ncs[..i], records, m, outs)
      && AllocateOne(m, ncs[i], records, c', Err(f))
  }

  /** Every way one run of Allocate can end. */
  ghost predicate AllocateExit(c: Ctl, cfg: Cfg, c': Ctl, r: Result<seq<NcStatus>, Failure>) {
    if cfg.paused then c' == c && r == Err(AdminDisabled)
    else if cfg.status.inSynced == False then c' == c && r == Err(OutOfSync)
    else if cfg.configs == [] then c' == c && r == Err(NothingToAllocate)
    else match r
      case Ok(outs) => AllocateAll(c, cfg.configs, cfg.status.records, c', outs)
      case Err(f) => AllocateBroken(c, cfg.configs, cfg.status.records, c', f)
  }

  // ---------------------------------------------------------------- cleanup

  /** Both allocators give up what the record names: the address by address, the MAC by MAC. */
  function Released(c: Ctl, r: NcStatus): Ctl
    requires Holds(c.ipam, r.net, r.ip) && r.net in c.cache
  {
    c.(ipam := Marked(c.ipam, r.net, r.ip.addr, false), cache := Forgotten(c.cache, r.net, r.mac))
  }

  function Erased(c: Ctl, r: NcStatus): Ctl
    requires r.ip.Ip? && r.net in c.pools && c.pools[r.net].ipv4.Some?
  {
    c.(pools := c.pools[r.net := WithoutRecord(c.pools[r.net], r.ip.addr)])
  }

  /** One record cleaned up; `f` is the failure that stopped it, if any. */
  ghost predicate CleanupOne(c: Ctl, r: NcStatus, c': Ctl, f: Option<Failure>) {
    if !Holds(c.ipam, r.net, r.ip) then c' == c && f == Some(StoreMissing)
    else if r.net !in c.cache then
      c' == c.(ipam := Marked(c.ipam, r.net, r.ip.addr, false)) && f == Some(StoreMissing)
    else
      var d := Released(c, r);
      if r.net !in c.pools then c' == d && f == Some(PoolMissing)
      else if c.pools[r.net].ipv4.None? then c' == d && f == Some(StatusMissing)
      else
        || (c' == Erased(d, r) && f == None)
        || (Erased(d, r) != d && c' == d && f.Some? && WriteFailure(f.value))
  }

  ghost predicate CleanupAll(c: Ctl, records: seq<NcStatus>, c': Ctl)
    decreases |records|
  {
    if records == [] then c' == c
    else exists m :: CleanupAll(c, Init(records), m) && CleanupOne(m, Last(records), c', None)
  }

  /** A cleanup of `records` that released the first `n` of them: all of them, or those before the one
      that stopped it. */
  ghost predicate CleanupUpTo(c: Ctl, records: seq<NcStatus>, n: nat, c': Ctl, f: Option<Failure>) {
    if f.None? then n == |records| && CleanupAll(c, records, c')
    else n < |records| && exists m :: CleanupAll(c, records[..n], m) && CleanupOne(m, records[n], c', f)
  }

  /** Every way a cleanup of `records` can end. */
  ghost predicate CleanupExit(c: Ctl, records: seq<NcStatus>, c': Ctl, f: Option<Failure>) {
    exists n: nat :: CleanupUpTo(c, records, n, c', f)
  }

  /** The records a cleanup works on: all of them, or those marked stale. */
  function Selected(records: seq<NcStatus>, staleOnly: bool): seq<NcStatus> {
    if records == [] then []
    else if !staleOnly || Last(records).state == StaleState then Selected(Init(records), staleOnly) + [Last(records)]
    else Selected(Init(records), staleOnly)
  }

  // ---------------------------------------------------------------- Sync

  /** The records kept: those whose MAC the spec still names, in their order. */
  function Kept(records: seq<NcStatus>, macs: set<Mac>): seq<NcStatus> {
    if records == [] then []
    else if Last(records).mac in macs then Kept(Init(records), macs) + [Last(records)]
    else Kept(Init(records), macs)
  }

  /** The records after marking: those outside the spec become stale. */
  function MarkStale(records: seq<NcStatus>, macs: set<Mac>): (r: seq<NcStatus>)
    ensures |r| == |records|
  {
    seq(|records|, i requires 0 <= i < |records| =>
      if records[i].mac in macs then records[i] else records[i].(state := StaleState))
  }

  /** Every way one run of Sync can end. */
  ghost predicate SyncExit(c: Ctl, cfg: Cfg, c': Ctl, r: Result<seq<NcStatus>, Failure>) {
    if cfg.paused then c' == c && r == Err(AdminDisabled)
    else if cfg.status.inSynced == True then c' == c && r == Ok(cfg.status.records)
    else
      var macs := MacsOf(cfg.configs);
      var stale := Selected(MarkStale(cfg.status.records, macs), true);
      match r
      case Ok(outs) => CleanupExit(c, stale, c', None) && outs == Kept(cfg.status.records, macs)
      case Err(f) => CleanupExit(c, stale, c', Some(f))
  }

  // ---------------------------------------------------------------- the status wrapper

  datatype Kind = AllocateKind | SyncKind

  ghost predicate HandlerExit(kind: Kind, c: Ctl, cfg: Cfg, c': Ctl, r: Result<seq<NcStatus>, Failure>) {
    match kind
    case AllocateKind => AllocateExit(c, cfg, c', r)
    case SyncKind => SyncExit(c, cfg, c', r)
  }

  /** Condition.SetError, as the wrapper calls it: a conflict counts as no error. */
  function CondOf(r: Result<seq<NcStatus>, Failure>): Cond {
    if r.Ok? || r.error.WriteConflict? then True else False
  }

  /** The status the wrapper publishes: records revert on error, the handler's condition is set. */
  function StatusAfter(kind: Kind, before: CfgStatus, r: Result<seq<NcStatus>, Failure>): CfgStatus {
    var status := before.(records := if r.Ok? then r.value else before.records);
    match kind
    case AllocateKind => status.(allocation := CondOf(r))
    case SyncKind => status.(inSynced := CondOf(r))
  }

  /** One run of a wrapped handler on object `key`. */
  ghost predicate WrappedExit(kind: Kind, s: Sys, key: Key, s': Sys) {
    && key in s.cfgs
    && exists r ::
      && HandlerExit(kind, s.ctl, s.cfgs[key], s'.ctl, r)
      && (s'.cfgs == s.cfgs
          || s'.cfgs == s.cfgs[key := s.cfgs[key].(status := StatusAfter(kind, s.cfgs[key].status, r))])
  }

  // ---------------------------------------------------------------- OnChange, OnRemove

  function Suspended(records: seq<NcStatus>): (r: seq<NcStatus>)
    ensures |r| == |records|
  {
    seq(|records|, i requires 0 <= i < |records| => records[i].(state := PendingState))
  }

  function StatusOnChange(cfg: Cfg): CfgStatus {
    if cfg.paused then cfg.status.(disabled := True, records := Suspended(cfg.status.records))
    else cfg.status.(disabled := False)
  }

  ghost predicate OnChangeExit(s: Sys, key: Key, s': Sys) {
    && key in s.cfgs
    && var cfg := s.cfgs[key];
       var published := s.cfgs[key := cfg.(status := StatusOnChange(cfg))];
       if cfg.paused then
         exists f ::
           && CleanupExit(s.ctl, cfg.status.records, s'.ctl, f)
           && (s'.cfgs == s.cfgs || (f.None? && s'.cfgs == published))
       else s'.ctl == s.ctl && (s'.cfgs == s.cfgs || s'.cfgs == published)
  }

  /** The object goes away only after its cleanup succeeded. */
  ghost predicate OnRemoveExit(s: Sys, key: Key, s': Sys) {
    && key in s.cfgs
    && exists f ::
      && CleanupExit(s.ctl, s.cfgs[key].status.records, s'.ctl, f)
      && (s'.cfgs == s.cfgs || (f.None? && s'.cfgs == s.cfgs - {key}))
  }
}

/** The InSynced handshake between the VM controller and the vmnetcfg controller, over a versioned
    store: handlers may act on any version they ever read, a write is accepted only on the newest. */
module Handshake {
  import opened Basics
  import opened Ipam
  import opened Stores
  import opened VmNetCfg

  /** A stored VirtualMachineNetworkConfig with its resource version. */
  datatype Versioned = Versioned(version: nat, cfg: Cfg)

  /** The stored object, and every version of it that some handler may still hold. */
  datatype Store = Store(current: Versioned, seen: set<Versioned>)

  function Replace(s: Store, cfg: Cfg): Store {
    var next := Versioned(s.current.version + 1, cfg);
    Store(next, s.seen + {next})
  }

  /** UpdateStatus with a copy of `read`: refused as a conflict unless `read` is still the newest. */
  function WriteStatus(s: Store, read: Versioned, status: CfgStatus): Store {
    if read.version != s.current.version then s else Replace(s, s.current.cfg.(status := status))
  }

  /** Update with a copy of `read`: writes the spec only. */
  function WriteConfigs(s: Store, read: Versioned, configs: seq<NetworkConfig>): Store {
    if read.version != s.current.version then s else Replace(s, s.current.cfg.(configs := configs))
  }

  // ---------------------------------------------------------------- steps

  /** What the VM controller's OnChange does, given the object it read: nothing when the spec is as
      desired; change it when the object is out of sync; otherwise declare it out of sync. */
  function VmWrite(s: Store, read: Versioned, desired: seq<NetworkConfig>): Store {
    if read.cfg.configs == desired then s
    else if read.cfg.status.inSynced == False then WriteConfigs(s, read, desired)
    else WriteStatus(s, read, read.cfg.status.(inSynced := False))
  }

  ghost predicate VmStep(s: Store, s': Store) {
    exists read, desired :: read in s.seen && (s' == s || s' == VmWrite(s, read, desired))
  }

  /** A run of Allocate or Sync on `read`, in any state of the other stores. */
  ghost predicate HandlerRun(kind: Kind, cfg: Cfg, r: Result<seq<NcStatus>, Failure>) {
    exists c, c' :: HandlerExit(kind, c, cfg, c', r)
  }

  ghost predicate StatusStep(kind: Kind, s: Store, read: Versioned, r: Result<seq<NcStatus>, Failure>, s': Store) {
    && read in s.seen && HandlerRun(kind, read.cfg, r)
    && (s' == s || s' == WriteStatus(s, read, StatusAfter(kind, read.cfg.status, r)))
  }

  /** The bounded conflict retry inside Sync's cleanup did not run out. */
  predicate RetryHeld(kind: Kind, r: Result<seq<NcStatus>, Failure>) {
    kind.SyncKind? ==> r != Err(WriteConflict)
  }

  ghost predicate StoreStep(s: Store, s': Store) {
    || VmStep(s, s')
    || (exists kind, read, r :: StatusStep(kind, s, read, r, s') && RetryHeld(kind, r))
    || (exists read :: read in s.seen && s' == WriteStatus(s, read, StatusOnChange(read.cfg)))
    || (exists paused :: s' == Replace(s, s.current.cfg.(paused := paused)))
    || s' == s
  }

  ghost predicate StoreRun(tr: seq<Store>) {
    && |tr| > 0 && NewStore(tr[0])
    && forall i :: 0 <= i < |tr| - 1 ==> StoreStep(tr[i], tr[i + 1])
  }

  /** As the VM controller creates the object: no status yet. */
  ghost predicate NewStore(s: Store) {
    s.seen == {s.current} && s.current.cfg.status == CfgStatus([], Absent, Absent, Absent)
  }

  // ---------------------------------------------------------------- safety

  /** Unless the object is out of sync, every record belongs to a MAC the spec names. */
  ghost predicate Safe(cfg: Cfg) {
    cfg.status.inSynced != False ==> MacsIn(cfg.status.records) <= MacsOf(cfg.configs)
  }

  /** A version number identifies an object. */
  ghost predicate Ordered(s: Store) {
    && s.current in s.seen
    && (forall o :: o in s.seen ==> o.version <= s.current.version)
    && (forall o :: o in s.seen && o.version == s.current.version ==> o == s.current)
  }

  lemma {:induction false} AllocateAllMacs(c: Ctl, ncs: seq<NetworkConfig>, records: seq<NcStatus>, c': Ctl,
                                           outs: seq<NcStatus>)
    requires AllocateAll(c, ncs, records, c', outs)
    ensures |outs| == |ncs| && forall i :: 0 <= i < |ncs| ==> outs[i].mac == ncs[i].mac
    decreases |ncs|
  {
    hide AllocateOne;
    if ncs != [] {
      var m :| AllocateAll(c, Init(ncs), records, m, Init(outs))
               && AllocateOne(m, Last(ncs), records, c', Ok(Last(outs)));
      AllocateAllMacs(c, Init(ncs), records, m, Init(outs));
      var chosen := AllocateOneCases(m, Last(ncs), records, c', Ok(Last(outs)));
      assert forall i :: 0 <= i < |ncs| - 1 ==> ncs[i] == Init(ncs)[i] && outs[i] == Init(outs)[i];
    }
  }

  lemma {:induction false} KeptMacs(records: seq<NcStatus>, macs: set<Mac>)
    ensures MacsIn(Kept(records, macs)) <= macs
  {
    if records != [] {
      KeptMacs(Init(records), macs);
      var kept := Kept(records, macs);
      forall m | m in MacsIn(kept) ensures m in macs {
        var i :| 0 <= i < |kept| && kept[i].mac == m;
        if i < |Kept(Init(records), macs)| { assert m in MacsIn(Kept(Init(records), macs)); }
      }
    }
  }

  /** What a successful handler publishes belongs to the spec it worked on. */
  lemma PublishedMacs(kind: Kind, cfg: Cfg, outs: seq<NcStatus>)
    requires HandlerRun(kind, cfg, Ok(outs)) && (kind.SyncKind? ==> cfg.status.inSynced != True)
    ensures MacsIn(outs) <= MacsOf(cfg.configs)
  {
    hide CleanupExit, AllocateAll, Kept;
    var c, c' :| HandlerExit(kind, c, cfg, c', Ok(outs));
    match kind {
      case AllocateKind =>
        AllocateAllMacs(c, cfg.configs, cfg.status.records, c', outs);
        forall m | m in MacsIn(outs) ensures m in MacsOf(cfg.configs) {
          var i :| 0 <= i < |outs| && outs[i].mac == m;
          assert cfg.configs[i].mac == m;
        }
      case SyncKind =>
        KeptMacs(cfg.status.records, MacsOf(cfg.configs));
    }
  }

  lemma InSyncUnchanged(cfg: Cfg, outs: seq<NcStatus>)
    requires HandlerRun(SyncKind, cfg, Ok(outs)) && cfg.status.inSynced == True
    ensures outs == cfg.status.records
  {
  }

  /** A wrapped handler keeps the object safe exactly unless Sync gives up on a conflict while some
      record is outside the spec: the wrapper takes that conflict for success. */
  lemma WrapperSafeExactly(kind: Kind, cfg: Cfg, r: Result<seq<NcStatus>, Failure>)
    requires Safe(cfg) && HandlerRun(kind, cfg, r)
    ensures Safe(cfg.(status := StatusAfter(kind, cfg.status, r)))
       <==> !(kind.SyncKind? && r == Err(WriteConflict) && !(MacsIn(cfg.status.records) <= MacsOf(cfg.configs)))
  {
    hide HandlerRun, MacsIn, MacsOf;
    if r.Ok? {
      if kind.SyncKind? && cfg.status.inSynced == True {
        InSyncUnchanged(cfg, r.value);
      } else {
        PublishedMacs(kind, cfg, r.value);
      }
    }
  }

  lemma SuspendedMacs(records: seq<NcStatus>)
    ensures MacsIn(Suspended(records)) == MacsIn(records)
  {
    var s := Suspended(records);
    assert |s| == |records| && forall i :: 0 <= i < |records| ==> s[i].mac == records[i].mac;
    forall m | m in MacsIn(records) ensures m in MacsIn(s) {
      var i :| 0 <= i < |records| && records[i].mac == m;
      assert s[i].mac == m;
    }
    forall m | m in MacsIn(s) ensures m in MacsIn(records) {
      var i :| 0 <= i < |s| && s[i].mac == m;
      assert records[i].mac == m;
    }
  }

  lemma ReplaceOrdered(s: Store, cfg: Cfg)
    requires Ordered(s)
    ensures Ordered(Replace(s, cfg))
  {
  }

  /** One step keeps the object safe, and touches the spec's configs only while it is out of sync. */
  lemma StepSafe(s: Store, s': Store)
    requires Ordered(s) && Safe(s.current.cfg) && StoreStep(s, s')
    ensures Ordered(s') && Safe(s'.current.cfg)
    ensures s'.current.cfg.configs != s.current.cfg.configs ==> s.current.cfg.status.inSynced == False
  {
    hide HandlerRun, MacsIn, MacsOf, StatusAfter, Suspended;
    ReplaceOrdered(s, s'.current.cfg);
    if VmStep(s, s') {
    } else if kind, read, r :| StatusStep(kind, s, read, r, s') && RetryHeld(kind, r) {
      if s' != s { WrapperSafeExactly(kind, s.current.cfg, r); }
    } else if read :| read in s.seen && s' == WriteStatus(s, read, StatusOnChange(read.cfg)) {
      SuspendedMacs(s.current.cfg.status.records);
    }
  }

  /** Handshake safety, over every run with stale reads and lost writes. */
  lemma {:induction false} HandshakeSafe(tr: seq<Store>, i: nat)
    requires StoreRun(tr) && i < |tr|
    ensures Ordered(tr[i]) && Safe(tr[i].current.cfg)
    ensures i + 1 < |tr| && tr[i + 1].current.cfg.configs != tr[i].current.cfg.configs
            ==> tr[i].current.cfg.status.inSynced == False
  {
    hide StoreStep, Safe, Ordered;
    if i == 0 {
      FreshSafe(tr[0]);
    } else {
      HandshakeSafe(tr, i - 1);
      StepSafe(tr[i - 1], tr[i - 1 + 1]);
    }
    if i + 1 < |tr| { StepSafe(tr[i], tr[i + 1]); }
  }

  lemma FreshSafe(s: Store)
    requires NewStore(s)
    ensures Ordered(s) && Safe(s.current.cfg)
  {
  }

  // ---------------------------------------------------------------- progress

  /** With writes that land on the newest version, two runs of the VM controller bring the spec to what the VM
      asks for: the first declares the object out of sync, if it was not, the second replaces the configs;
      neither touches anything else, and a third has nothing to write. */
  lemma TwoRunsReach(s: Store, desired: seq<NetworkConfig>)
    requires s.current.cfg.configs != desired
    ensures var s1 := VmWrite(s, s.current, desired);
      var s2 := VmWrite(s1, s1.current, desired);
      && (s.current.cfg.status.inSynced != False ==>
            s1.current.cfg == s.current.cfg.(status := s.current.cfg.status.(inSynced := False)))
      && s2.current.cfg == s.current.cfg.(configs := desired, status := s.current.cfg.status.(inSynced := False))
      && VmWrite(s2, s2.current, desired) == s2
  {
  }

  /** A single record whose erasure from the pool status keeps meeting conflicts. */
  lemma CleanupCanConflict(c: Ctl, r: NcStatus)
    requires Holds(c.ipam, r.net, r.ip) && r.net in c.cache && r.net in c.pools && c.pools[r.net].ipv4.Some?
    requires r.ip.addr in RecordsOf(c.pools[r.net])
    ensures exists c' :: CleanupExit(c, [r], c', Some(WriteConflict))
  {
    var d := Released(c, r);
    assert r.ip.addr !in RecordsOf(Erased(d, r).pools[r.net]) && r.ip.addr in RecordsOf(d.pools[r.net]);
    assert CleanupOne(c, [r][0], d, Some(WriteConflict));
    assert CleanupAll(c, [r][..0], c);
    assert CleanupUpTo(c, [r], 0, d, Some(WriteConflict));
    assert CleanupExit(c, [r], d, Some(WriteConflict));
  }

  lemma OneStale(r: NcStatus)
    requires r.state != StaleState
    ensures Selected(MarkStale([r], {}), true) == [r.(state := StaleState)]
  {
    var marked := MarkStale([r], {});
    assert marked == [r.(state := StaleState)] && Init(marked) == [];
  }

  /** The guard is needed: one leased NIC removed from the spec, and every attempt to erase its address
      meets a conflict. The object then counts as in sync although its record is outside the spec. */
  lemma ConflictLooksLikeSuccess(c: Ctl, rec: NcStatus)
    requires Holds(c.ipam, rec.net, rec.ip) && rec.net in c.cache && rec.net in c.pools && c.pools[rec.net].ipv4.Some?
    requires rec.ip.addr in RecordsOf(c.pools[rec.net]) && rec.state == AllocatedState
    ensures
      var cfg := Cfg([], false, CfgStatus([rec], True, Absent, False));
      && Safe(cfg) && HandlerRun(SyncKind, cfg, Err(WriteConflict))
      && !Safe(cfg.(status := StatusAfter(SyncKind, cfg.status, Err(WriteConflict))))
  {
    hide CleanupExit, Selected, MarkStale;
    var cfg := Cfg([], false, CfgStatus([rec], True, Absent, False));
    var stale := rec.(state := StaleState);
    CleanupCanConflict(c, stale);
    var d :| CleanupExit(c, [stale], d, Some(WriteConflict));
    OneStale(rec);
    assert MacsOf(cfg.configs) == {};
    assert HandlerExit(SyncKind, c, cfg, d, Err(WriteConflict));
    assert cfg.status.records[0].mac in MacsIn(cfg.status.records);
  }
}

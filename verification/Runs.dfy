/** Whole runs of the control plane: every handler at every exit, pauses, restarts, edits of objects. Two
    things are asked of a run: cleaned-up records are current, and the erasure that follows a release in
    memory is not lost. */
module Runs {
  import opened Basics
  import opened Prefix
  import opened Admission
  import opened Ipam
  import opened Stores
  import opened VmNetCfg
  import opened PoolControl
  import opened Agreement
  import opened SyncLaws
  import opened FreeRuns
  import opened Invariant

  // ---------------------------------------------------------------- steps

  predicate LostWrite(f: Option<Failure>) {
    f.Some? && WriteFailure(f.value)
  }

  /** A cleanup of `records` that released those in `gone` and then ended, or stopped on the next one. */
  ghost predicate Releases(c: Ctl, records: seq<NcStatus>, gone: seq<NcStatus>, c': Ctl) {
    && AllCurrent(c, records) && gone <= records
    && exists f :: CleanupUpTo(c, records, |gone|, c', f) && !LostWrite(f)
  }

  ghost predicate Frees(c: Ctl, records: seq<NcStatus>, gone: seq<NcStatus>, c': Ctl) {
    (gone == [] && c' == c) || Releases(c, records, gone, c')
  }

  /** The records Sync hands to cleanup. */
  function StaleRecords(cfg: Cfg): seq<NcStatus> {
    Selected(MarkStale(cfg.status.records, MacsOf(cfg.configs)), true)
  }

  ghost predicate SyncStep(s: Sys, key: Key, gone: seq<NcStatus>, s': Sys) {
    key in s.cfgs && WrappedExit(SyncKind, s, key, s') && Frees(s.ctl, StaleRecords(s.cfgs[key]), gone, s'.ctl)
  }

  ghost predicate ChangeStep(s: Sys, key: Key, gone: seq<NcStatus>, s': Sys) {
    key in s.cfgs && OnChangeExit(s, key, s') && Frees(s.ctl, s.cfgs[key].status.records, gone, s'.ctl)
  }

  ghost predicate RemoveStep(s: Sys, key: Key, gone: seq<NcStatus>, s': Sys) {
    key in s.cfgs && OnRemoveExit(s, key, s') && Frees(s.ctl, s.cfgs[key].status.records, gone, s'.ctl)
  }

  /** Someone creates an object, edits its spec or sets a condition. */
  ghost predicate EditStep(s: Sys, s': Sys) {
    s'.ctl == s.ctl && exists key, cfg :: Edited(s.cfgs, key, cfg, s'.cfgs)
  }

  ghost predicate Edited(cfgs: map<Key, Cfg>, key: Key, cfg: Cfg, cfgs': map<Key, Cfg>) {
    && cfgs' == cfgs[key := cfg]
    && cfg.status.records == (if key in cfgs then cfgs[key].status.records else [])
  }

  /** The pool controller runs, a pool object is touched, or the controller process restarts. */
  ghost predicate PoolStep(c: Ctl, c': Ctl) {
    || (exists net :: BuildStep(c, net, c'))
    || (exists net :: PoolOnChangeExit(c, net, c'))
    || TouchStep(c, c') || c' == Forgetful(c)
  }

  /** A step that frees nothing. */
  ghost predicate QuietStep(s: Sys, s': Sys) {
    || (s'.cfgs == s.cfgs && PoolStep(s.ctl, s'.ctl))
    || (exists key :: WrappedExit(AllocateKind, s, key, s'))
    || EditStep(s, s')
  }

  /** One step, and the records it released. */
  ghost predicate Step(s: Sys, gone: seq<NcStatus>, s': Sys) {
    || (gone == [] && QuietStep(s, s'))
    || (exists key :: SyncStep(s, key, gone, s'))
    || (exists key :: ChangeStep(s, key, gone, s'))
    || (exists key :: RemoveStep(s, key, gone, s'))
  }

  /** From admitted pools, no objects and empty memory; `gone[i]` is what step i released. */
  ghost predicate Run(services: CidrText, tr: seq<Sys>, gone: seq<seq<NcStatus>>) {
    && |tr| == |gone| + 1 && Fresh(services, tr[0].ctl) && tr[0].cfgs == map[]
    && forall i :: 0 <= i < |gone| ==> Step(tr[i], gone[i], tr[i + 1])
  }

  // ---------------------------------------------------------------- what the pool status records

  /** An address recorded for a MAC on a network. */
  datatype Ticket = Ticket(net: NetName, addr: Addr, mac: Mac)

  ghost predicate Recorded(c: Ctl, t: Ticket) {
    t.net in c.pools && RecordedFor(c.pools[t.net], t.addr, t.mac)
  }

  function TicketsOf(records: seq<NcStatus>): set<Ticket> {
    set r | r in records && r.ip.Ip? :: Ticket(r.net, r.ip.addr, r.mac)
  }

  /** Exactly what was released is lost from the pool status. */
  ghost predicate Settles(c: Ctl, gone: seq<NcStatus>, c': Ctl) {
    && c'.pools.Keys == c.pools.Keys
    && (forall t :: Recorded(c, t) ==> Recorded(c', t) || t in TicketsOf(gone))
    && (forall t :: t in TicketsOf(gone) ==> !Recorded(c', t))
  }

  lemma {:induction false} ReleasedWereHeld(c: Ctl, records: seq<NcStatus>, c': Ctl)
    requires CleanupAll(c, records, c')
    ensures c'.ipam.Keys == c.ipam.Keys
    ensures forall net :: net in c.ipam ==> c'.ipam[net].ips.Keys == c.ipam[net].ips.Keys
    ensures forall i :: 0 <= i < |records| ==> Holds(c.ipam, records[i].net, records[i].ip)
    decreases |records|
  {
    hide CleanupOne;
    if records != [] {
      var m :| CleanupAll(c, Init(records), m) && CleanupOne(m, Last(records), c', None);
      ReleasedWereHeld(c, Init(records), m);
      CleanupOneEffect(m, Last(records), c');
      assert forall i :: 0 <= i < |records| - 1 ==> records[i] == Init(records)[i];
    }
  }

  lemma RecordedIsCached(services: CidrText, c: Ctl, t: Ticket)
    requires CtlOk(services, c) && Recorded(c, t) && t.net in c.ipam
    ensures t.net in c.cache && t.mac in c.cache[t.net] && c.cache[t.net][t.mac] == t.addr
    ensures Injective(c.cache[t.net]) && t.addr in c.ipam[t.net].ips
  {
    hide PoolOk, RecordedFor;
  }

  /** A current record of a held address that is recorded for a MAC is a record of that MAC. */
  lemma SameMac(services: CidrText, c: Ctl, t: Ticket, q: NcStatus)
    requires CtlOk(services, c) && Recorded(c, t) && Current(c, q) && Holds(c.ipam, q.net, q.ip)
    requires q.net == t.net && q.ip.addr == t.addr
    ensures q.mac == t.mac
  {
    hide CtlOk, Recorded;
    RecordedIsCached(services, c, t);
    assert c.cache[t.net][t.mac] in c.cache[t.net].Values;
  }

  lemma ErasedRecords(p: Pool, addrs: set<Addr>, a: Addr, m: Mac)
    ensures RecordedFor(ErasedFrom(p, addrs), a, m) <==> RecordedFor(p, a, m) && a !in addrs
  {
  }

  /** Wherever a guarded cleanup stops, exactly the records it released are lost from the pool status. */
  lemma ReleaseSettles(services: CidrText, c: Ctl, records: seq<NcStatus>, gone: seq<NcStatus>, c': Ctl)
    requires CtlOk(services, c) && Releases(c, records, gone, c')
    ensures CtlOk(services, c') && Settles(c, gone, c')
  {
    hide CtlOk, CleanupAll, CleanupOne, Current, RecordedFor, ErasedFrom, Holds;
    var f :| CleanupUpTo(c, records, |gone|, c', f) && !LostWrite(f);
    CleanupOk(services, c, records, |gone|, c', f);
    CleanupErases(c, records, |gone|, c', f);
    assert records[..|gone|] == gone;
    assert f.None? ==> gone == records;
    var m :| CleanupAll(c, gone, m);
    ReleasedWereHeld(c, gone, m);
    forall t ensures Recorded(c', t) <==> Recorded(c, t) && t.addr !in AddrsOn(gone, t.net) {
      if t.net in c.pools { ErasedRecords(c.pools[t.net], AddrsOn(gone, t.net), t.addr, t.mac); }
    }
    forall t | Recorded(c, t) && t.addr in AddrsOn(gone, t.net) ensures t in TicketsOf(gone) {
      var q :| q in gone && q.net == t.net && q.ip.Ip? && q.ip.addr == t.addr;
      var i :| 0 <= i < |gone| && gone[i] == q;
      assert records[i] == q;
      SameMac(services, c, t, q);
    }
  }

  lemma FreesSettles(services: CidrText, c: Ctl, records: seq<NcStatus>, gone: seq<NcStatus>, c': Ctl)
    requires CtlOk(services, c) && Frees(c, records, gone, c')
    ensures CtlOk(services, c') && Settles(c, gone, c')
  {
    hide CtlOk, Releases, Recorded;
    if !(gone == [] && c' == c) { ReleaseSettles(services, c, records, gone, c'); }
  }

  lemma RetainedSettles(c: Ctl, c': Ctl)
    requires Retained(c, c')
    ensures Settles(c, [], c')
  {
    hide RecordedFor;
  }

  // ---------------------------------------------------------------- the other steps

  lemma TouchedSameMacs(p: Pool, q: Pool)
    requires SameStatus(p, q)
    ensures SameMacs(p, q)
  {
  }

  lemma BuildStepOk(services: CidrText, c: Ctl, net: NetName, c': Ctl)
    requires CtlOk(services, c) && BuildStep(c, net, c')
    ensures CtlOk(services, c') && Retained(c, c') && Retained(c', c)
  {
    hide CtlOk, Retained, BuildExit, SameMacs;
    var d, r :| BuildExit(c, net, d, r) && net in d.pools
      && (c' == d
          || c' == d.(pools := d.pools[net := d.pools[net].(cacheReady := if r.Ok? then True else False)]));
    BuildOk(services, c, net, d, r);
    PoolsOnly(c, d);
    var q := d.pools[net].(cacheReady := if r.Ok? then True else False);
    TouchedSameMacs(d.pools[net], q);
    SwapPool(services, d, net, q);
    if c' != d {
      RetainedTrans(c, d, c');
      RetainedTrans(c', d, c);
    }
  }

  lemma TouchStepOk(services: CidrText, c: Ctl, c': Ctl)
    requires CtlOk(services, c) && TouchStep(c, c')
    ensures CtlOk(services, c') && Retained(c, c') && Retained(c', c)
  {
    hide CtlOk, Retained, SameMacs;
    var net, q :| Touched(c, net, q, c');
    TouchedSameMacs(c.pools[net], q);
    SwapPool(services, c, net, q);
  }

  lemma ForgetfulOk(services: CidrText, c: Ctl)
    requires CtlOk(services, c)
    ensures CtlOk(services, Forgetful(c))
  {
    hide PoolOk, LiveOk, Agrees;
  }

  /** The pool side neither loses nor invents a record. */
  lemma PoolStepOk(services: CidrText, c: Ctl, c': Ctl)
    requires CtlOk(services, c) && PoolStep(c, c')
    ensures CtlOk(services, c') && Retained(c, c') && Retained(c', c)
  {
    hide CtlOk, Retained, BuildStep, PoolOnChangeExit, TouchStep;
    if net :| BuildStep(c, net, c') {
      BuildStepOk(services, c, net, c');
    } else if net :| PoolOnChangeExit(c, net, c') {
      PoolOnChangeOk(services, c, net, c');
    } else if TouchStep(c, c') {
      TouchStepOk(services, c, c');
    } else {
      ForgetfulOk(services, c);
      PoolsOnly(c, c');
    }
  }

  lemma AllocateStepOk(services: CidrText, s: Sys, key: Key, s': Sys)
    requires CtlOk(services, s.ctl) && WrappedExit(AllocateKind, s, key, s')
    ensures CtlOk(services, s'.ctl) && Retained(s.ctl, s'.ctl)
  {
    hide CtlOk, Retained, AllocateExit;
    var r :| HandlerExit(AllocateKind, s.ctl, s.cfgs[key], s'.ctl, r);
    AllocateOk(services, s.ctl, s.cfgs[key], s'.ctl, r);
  }

  lemma QuietStepOk(services: CidrText, s: Sys, s': Sys)
    requires CtlOk(services, s.ctl) && QuietStep(s, s')
    ensures CtlOk(services, s'.ctl) && Retained(s.ctl, s'.ctl)
  {
    hide CtlOk, Retained, PoolStep, WrappedExit;
    if key :| WrappedExit(AllocateKind, s, key, s') {
      AllocateStepOk(services, s, key, s');
    } else if EditStep(s, s') {
      RetainedSame(s.ctl);
    } else {
      PoolStepOk(services, s.ctl, s'.ctl);
    }
  }

  /** Every step keeps the invariant, and takes exactly what it released out of the pool status. */
  lemma StepOk(services: CidrText, s: Sys, gone: seq<NcStatus>, s': Sys)
    requires CtlOk(services, s.ctl) && Step(s, gone, s')
    ensures CtlOk(services, s'.ctl) && Settles(s.ctl, gone, s'.ctl)
  {
    hide CtlOk, Settles, QuietStep, WrappedExit, OnChangeExit, OnRemoveExit, Frees, StaleRecords;
    if gone == [] && QuietStep(s, s') {
      QuietStepOk(services, s, s');
      RetainedSettles(s.ctl, s'.ctl);
    } else if key :| SyncStep(s, key, gone, s') {
      FreesSettles(services, s.ctl, StaleRecords(s.cfgs[key]), gone, s'.ctl);
    } else if key :| ChangeStep(s, key, gone, s') {
      FreesSettles(services, s.ctl, s.cfgs[key].status.records, gone, s'.ctl);
    } else {
      var key :| RemoveStep(s, key, gone, s');
      FreesSettles(services, s.ctl, s.cfgs[key].status.records, gone, s'.ctl);
    }
  }

  lemma FreshOk(services: CidrText, c: Ctl)
    requires Fresh(services, c)
    ensures CtlOk(services, c)
  {
    hide PoolFits, Sound;
    FreshFits(services, c);
    forall net | net in c.pools ensures MacsDistinct(RecordsOf(c.pools[net])) {
    }
  }

  /** The invariant holds in every state of every run. */
  lemma {:induction false} EveryRunOk(services: CidrText, tr: seq<Sys>, gone: seq<seq<NcStatus>>, i: nat)
    requires Run(services, tr, gone) && i < |tr|
    ensures CtlOk(services, tr[i].ctl)
  {
    hide CtlOk, Step, Fresh;
    if i == 0 {
      FreshOk(services, tr[0].ctl);
    } else {
      EveryRunOk(services, tr, gone, i - 1);
      StepOk(services, tr[i - 1], gone[i - 1], tr[i - 1 + 1]);
    }
  }

  // ---------------------------------------------------------------- guarded runs are free runs

  lemma OkFits(services: CidrText, c: Ctl)
    requires CtlOk(services, c)
    ensures Fits(services, c)
  {
    hide PoolFits, Pooled, MacsDistinct, Loaded, Buildable;
    forall net | net in c.ipam ensures c.ipam[net].ips.Keys == Pooled(c.pools[net].config) {
      LiveKeys(c.pools[net], c.ipam[net], c.cache[net]);
    }
  }

  lemma FreesIsFree(c: Ctl, records: seq<NcStatus>, gone: seq<NcStatus>, c': Ctl)
    requires Frees(c, records, gone, c')
    ensures FreeStep(c, c')
  {
    hide CleanupUpTo;
    if c' != c {
      var f :| CleanupUpTo(c, records, |gone|, c', f);
      assert CleanupExit(c, records, c', f);
    }
  }

  lemma StepIsFree(s: Sys, gone: seq<NcStatus>, s': Sys)
    requires Step(s, gone, s')
    ensures FreeStep(s.ctl, s'.ctl)
  {
    hide AllocateExit, CleanupExit, BuildStep, PoolOnChangeExit, TouchStep, OnChangeExit, OnRemoveExit, Frees;
    if gone == [] && QuietStep(s, s') {
      if key :| WrappedExit(AllocateKind, s, key, s') {
        var r :| HandlerExit(AllocateKind, s.ctl, s.cfgs[key], s'.ctl, r);
        assert AllocateExit(s.ctl, s.cfgs[key], s'.ctl, r);
      }
    } else if key :| SyncStep(s, key, gone, s') {
      FreesIsFree(s.ctl, StaleRecords(s.cfgs[key]), gone, s'.ctl);
    } else if key :| ChangeStep(s, key, gone, s') {
      FreesIsFree(s.ctl, s.cfgs[key].status.records, gone, s'.ctl);
    } else {
      var key :| RemoveStep(s, key, gone, s');
      FreesIsFree(s.ctl, s.cfgs[key].status.records, gone, s'.ctl);
    }
  }
}

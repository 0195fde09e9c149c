/** What the invariant of the runs buys: publication backed by the pool status, crash safety, exact
    rebuilds; and exactly where publication ends. */
module Recovery {
  import opened Basics
  import opened Prefix
  import opened Admission
  import opened Ipam
  import opened Stores
  import opened VmNetCfg
  import opened PoolControl
  import opened Agreement
  import opened Retries
  import opened SyncLaws
  import opened PoolLaws
  import opened FreeRuns
  import opened Invariant
  import opened Runs

  // ---------------------------------------------------------------- recorded until released

  /** No step from i on, before j, released just that address of that MAC. */
  ghost predicate Unreleased(gone: seq<seq<NcStatus>>, i: nat, j: nat, t: Ticket)
    requires j <= |gone|
  {
    forall k :: i <= k < j ==> t !in TicketsOf(gone[k])
  }

  /** Once recorded, an address stays recorded for its MAC until a cleanup releases just that; no other
      step of any handler, no restart and no release for another MAC can take it away. */
  lemma {:induction false} RecordedUntilReleased(services: CidrText, tr: seq<Sys>, gone: seq<seq<NcStatus>>,
                                                 i: nat, j: nat, t: Ticket)
    requires Run(services, tr, gone) && i <= j < |tr| && Recorded(tr[i].ctl, t) && Unreleased(gone, i, j, t)
    ensures Recorded(tr[j].ctl, t)
    decreases j
  {
    hide Step, Fresh, CtlOk, Recorded, TicketsOf;
    if i < j {
      RecordedUntilReleased(services, tr, gone, i, j - 1, t);
      EveryRunOk(services, tr, gone, j - 1);
      StepOk(services, tr[j - 1], gone[j - 1], tr[j - 1 + 1]);
    }
  }

  /** A step that releases it has taken it out of the pool status. */
  lemma ReleaseUnrecords(services: CidrText, tr: seq<Sys>, gone: seq<seq<NcStatus>>, k: nat, t: Ticket)
    requires Run(services, tr, gone) && k < |gone| && t in TicketsOf(gone[k])
    ensures !Recorded(tr[k + 1].ctl, t)
  {
    hide Step, Fresh, CtlOk, Recorded, TicketsOf;
    EveryRunOk(services, tr, gone, k);
    StepOk(services, tr[k], gone[k], tr[k + 1]);
  }

  // ---------------------------------------------------------------- what objects publish

  function TicketOf(r: NcStatus): Ticket
    requires r.ip.Ip?
  {
    Ticket(r.net, r.ip.addr, r.mac)
  }

  /** A record of the new state is pending, freshly backed by the pool status, or was there before. */
  ghost predicate Inherits(s: Sys, s': Sys) {
    forall k, r :: k in s'.cfgs && r in s'.cfgs[k].status.records ==> Inherited(s, s'.ctl, k, r)
  }

  ghost predicate Inherited(s: Sys, c': Ctl, k: Key, r: NcStatus) {
    || r.state == PendingState
    || (r.state == AllocatedState && Durable(c', r))
    || (k in s.cfgs && r in s.cfgs[k].status.records)
  }

  lemma ReplacedInherits(s: Sys, key: Key, cfg: Cfg, s': Sys)
    requires s'.cfgs == s.cfgs || s'.cfgs == s.cfgs[key := cfg]
    requires forall r :: r in cfg.status.records ==> Inherited(s, s'.ctl, key, r)
    ensures Inherits(s, s')
  {
    hide Durable;
  }

  lemma {:induction false} AllocateAllStates(c: Ctl, ncs: seq<NetworkConfig>, records: seq<NcStatus>, c': Ctl,
                                             outs: seq<NcStatus>)
    requires AllocateAll(c, ncs, records, c', outs)
    ensures forall i :: 0 <= i < |outs| ==> outs[i].state == AllocatedState
    decreases |ncs|
  {
    hide AllocateOne;
    if ncs != [] {
      var m :| AllocateAll(c, Init(ncs), records, m, Init(outs))
               && AllocateOne(m, Last(ncs), records, c', Ok(Last(outs)));
      AllocateAllStates(c, Init(ncs), records, m, Init(outs));
      var chosen := AllocateOneCases(m, Last(ncs), records, c', Ok(Last(outs)));
      assert forall i :: 0 <= i < |outs| - 1 ==> outs[i] == Init(outs)[i];
    }
  }

  lemma AllocateInherits(services: CidrText, s: Sys, key: Key, s': Sys)
    requires CtlOk(services, s.ctl) && WrappedExit(AllocateKind, s, key, s')
    ensures Inherits(s, s')
  {
    hide CtlOk, Retained, AllocateAll, AllocateBroken, Durable;
    var cfg := s.cfgs[key];
    var r :| HandlerExit(AllocateKind, s.ctl, cfg, s'.ctl, r) && (s'.cfgs == s.cfgs
             || s'.cfgs == s.cfgs[key := cfg.(status := StatusAfter(AllocateKind, cfg.status, r))]);
    AllocateOk(services, s.ctl, cfg, s'.ctl, r);
    if r.Ok? { AllocateAllStates(s.ctl, cfg.configs, cfg.status.records, s'.ctl, r.value); }
    ReplacedInherits(s, key, cfg.(status := StatusAfter(AllocateKind, cfg.status, r)), s');
  }

  lemma SyncInherits(s: Sys, key: Key, s': Sys)
    requires WrappedExit(SyncKind, s, key, s')
    ensures Inherits(s, s')
  {
    hide CleanupExit, Kept, Durable;
    var cfg := s.cfgs[key];
    var r :| HandlerExit(SyncKind, s.ctl, cfg, s'.ctl, r) && (s'.cfgs == s.cfgs
             || s'.cfgs == s.cfgs[key := cfg.(status := StatusAfter(SyncKind, cfg.status, r))]);
    KeptOrLost(cfg.status.records, MacsOf(cfg.configs));
    ReplacedInherits(s, key, cfg.(status := StatusAfter(SyncKind, cfg.status, r)), s');
  }

  lemma ChangeInherits(s: Sys, key: Key, s': Sys)
    requires OnChangeExit(s, key, s')
    ensures Inherits(s, s')
  {
    hide CleanupExit, Durable;
    ReplacedInherits(s, key, s.cfgs[key].(status := StatusOnChange(s.cfgs[key])), s');
  }

  lemma StepInherits(services: CidrText, s: Sys, gone: seq<NcStatus>, s': Sys)
    requires CtlOk(services, s.ctl) && Step(s, gone, s')
    ensures Inherits(s, s')
  {
    hide CtlOk, WrappedExit, OnChangeExit, PoolStep, Frees, CleanupExit, Durable, StaleRecords;
    if key :| WrappedExit(AllocateKind, s, key, s') {
      AllocateInherits(services, s, key, s');
    } else if key :| SyncStep(s, key, gone, s') {
      SyncInherits(s, key, s');
    } else if key :| ChangeStep(s, key, gone, s') {
      ChangeInherits(s, key, s');
    }
  }

  /** The object publishes the record in every state from i to j. */
  ghost predicate PublishedSince(tr: seq<Sys>, key: Key, r: NcStatus, i: nat, j: nat)
    requires j < |tr|
  {
    forall k :: i <= k <= j ==> key in tr[k].cfgs && r in tr[k].cfgs[key].status.records
  }

  /** A record published as allocated was durable in some state since which it has been published. */
  lemma {:induction false} PublishedWhenDurable(services: CidrText, tr: seq<Sys>, gone: seq<seq<NcStatus>>, j: nat,
                                                key: Key, r: NcStatus) returns (i: nat)
    requires Run(services, tr, gone) && j < |tr| && key in tr[j].cfgs && r in tr[j].cfgs[key].status.records
    requires r.state == AllocatedState
    ensures i <= j && Durable(tr[i].ctl, r) && PublishedSince(tr, key, r, i, j)
    decreases j
  {
    hide Step, Fresh, CtlOk, Durable;
    i := j;
    if !Durable(tr[j].ctl, r) {
      EveryRunOk(services, tr, gone, j - 1);
      StepInherits(services, tr[j - 1], gone[j - 1], tr[j - 1 + 1]);
      assert Inherited(tr[j - 1], tr[j].ctl, key, r);
      i := PublishedWhenDurable(services, tr, gone, j - 1, key, r);
    }
  }

  ghost predicate Names(records: seq<NcStatus>, r: NcStatus) {
    r.ip.Ip? && TicketOf(r) in TicketsOf(records)
  }

  /** No cleanup released the record while the object went on publishing it. */
  ghost predicate KeptWhilePublished(tr: seq<Sys>, gone: seq<seq<NcStatus>>, key: Key, r: NcStatus, j: nat)
    requires |tr| == |gone| + 1 && j < |tr|
  {
    forall k :: 0 <= k < j && PublishedSince(tr, key, r, k, j) ==> !Names(gone[k], r)
  }

  /** In every state of every run, an address published as allocated is in the durable pool status,
      unless a cleanup released it while the object went on publishing it. */
  lemma PublishedIsDurable(services: CidrText, tr: seq<Sys>, gone: seq<seq<NcStatus>>, j: nat, key: Key, r: NcStatus)
    requires Run(services, tr, gone) && j < |tr| && key in tr[j].cfgs && r in tr[j].cfgs[key].status.records
    requires r.state == AllocatedState && KeptWhilePublished(tr, gone, key, r, j)
    ensures Durable(tr[j].ctl, r)
  {
    hide Step, Fresh, RecordedFor, TicketsOf;
    var i := PublishedWhenDurable(services, tr, gone, j, key, r);
    forall k | i <= k < j ensures TicketOf(r) !in TicketsOf(gone[k]) {
      assert PublishedSince(tr, key, r, k, j);
    }
    assert Recorded(tr[i].ctl, TicketOf(r));
    RecordedUntilReleased(services, tr, gone, i, j, TicketOf(r));
  }

  /** No record is ever published as stale: the marks stay in Sync's own copy. */
  lemma {:induction false} NeverStale(services: CidrText, tr: seq<Sys>, gone: seq<seq<NcStatus>>, i: nat, key: Key,
                                      r: NcStatus)
    requires Run(services, tr, gone) && i < |tr| && key in tr[i].cfgs && r in tr[i].cfgs[key].status.records
    ensures r.state != StaleState
  {
    hide Step, Fresh, CtlOk, Durable;
    if i > 0 {
      EveryRunOk(services, tr, gone, i - 1);
      StepInherits(services, tr[i - 1], gone[i - 1], tr[i - 1 + 1]);
      assert Inherited(tr[i - 1], tr[i].ctl, key, r);
      if r.state == StaleState { NeverStale(services, tr, gone, i - 1, key, r); }
    }
  }

  // ---------------------------------------------------------------- when everything published is durable

  /** No object publishes as allocated what was just released. */
  ghost predicate Withdrawn(gone: seq<NcStatus>, cfgs: map<Key, Cfg>) {
    forall k, r :: k in cfgs && r in cfgs[k].status.records && r.state == AllocatedState && r.ip.Ip? ==>
      TicketOf(r) !in TicketsOf(gone)
  }

  ghost predicate AllPublishedDurable(s: Sys) {
    forall k, r :: k in s.cfgs && r in s.cfgs[k].status.records && r.state == AllocatedState ==> Durable(s.ctl, r)
  }

  lemma WithdrawnStep(services: CidrText, s: Sys, gone: seq<NcStatus>, s': Sys)
    requires CtlOk(services, s.ctl) && AllPublishedDurable(s) && Step(s, gone, s')
    ensures AllPublishedDurable(s') <==> Withdrawn(gone, s'.cfgs)
  {
    hide Step, CtlOk, RecordedFor, TicketsOf;
    StepOk(services, s, gone, s');
    StepInherits(services, s, gone, s');
    if Withdrawn(gone, s'.cfgs) {
      forall k, r | k in s'.cfgs && r in s'.cfgs[k].status.records && r.state == AllocatedState
        ensures Durable(s'.ctl, r)
      {
        assert Inherited(s, s'.ctl, k, r);
        assert Durable(s.ctl, r) ==> Recorded(s.ctl, TicketOf(r));
      }
    } else {
      var k, r :| k in s'.cfgs && r in s'.cfgs[k].status.records && r.state == AllocatedState && r.ip.Ip?
                  && TicketOf(r) in TicketsOf(gone);
      assert !Recorded(s'.ctl, TicketOf(r));
    }
  }

  /** Throughout a run everything published is durable, if and only if each step takes off the objects
      what it released. */
  lemma {:induction false} DurableExactly(services: CidrText, tr: seq<Sys>, gone: seq<seq<NcStatus>>, n: nat)
    requires Run(services, tr, gone) && n < |tr|
    ensures (forall i :: 0 <= i <= n ==> AllPublishedDurable(tr[i]))
       <==> (forall i :: 0 <= i < n ==> Withdrawn(gone[i], tr[i + 1].cfgs))
  {
    hide Step, Fresh, CtlOk, AllPublishedDurable, Withdrawn;
    if n == 0 {
      NothingPublished(tr[0]);
    } else {
      DurableExactly(services, tr, gone, n - 1);
      EveryRunOk(services, tr, gone, n - 1);
      assert Step(tr[n - 1], gone[n - 1], tr[n - 1 + 1]);
      if AllPublishedDurable(tr[n - 1]) { WithdrawnStep(services, tr[n - 1], gone[n - 1], tr[n]); }
      assert Withdrawn(gone[n - 1], tr[n - 1 + 1].cfgs) <==> Withdrawn(gone[n - 1], tr[n].cfgs);
    }
  }

  lemma NothingPublished(s: Sys)
    requires s.cfgs == map[]
    ensures AllPublishedDurable(s)
  {
  }

  function AllMacs(cfg: Cfg): set<Mac> {
    MacsOf(cfg.configs) + MacsIn(cfg.status.records)
  }

  /** No MAC occurs in two objects, in spec or status. */
  ghost predicate MacsUnique(cfgs: map<Key, Cfg>) {
    forall k, l :: k in cfgs && l in cfgs && k != l ==> AllMacs(cfgs[k]) !! AllMacs(cfgs[l])
  }

  /** The handler of `key` finished, and its status write landed. */
  ghost predicate StatusLanded(s: Sys, key: Key, gone: seq<NcStatus>, s': Sys)
    requires key in s.cfgs
  {
    var cfg := s.cfgs[key];
    || (SyncStep(s, key, gone, s') && s'.cfgs == s.cfgs[key := cfg.(status :=
          StatusAfter(SyncKind, cfg.status, Ok(Kept(cfg.status.records, MacsOf(cfg.configs)))))])
    || (ChangeStep(s, key, gone, s') && cfg.paused && s'.cfgs == s.cfgs[key := cfg.(status := StatusOnChange(cfg))])
    || (RemoveStep(s, key, gone, s') && s'.cfgs == s.cfgs - {key})
  }

  lemma {:induction false} SelectedWithin(records: seq<NcStatus>, r: NcStatus)
    requires r in Selected(records, true)
    ensures r in records && r.state == StaleState
  {
    if records != [] && r !in Selected(Init(records), true) {
      assert r == Last(records);
    } else if records != [] {
      SelectedWithin(Init(records), r);
    }
  }

  /** What Sync releases has a MAC of the object that its spec does not name. */
  lemma StaleMacs(cfg: Cfg, r: NcStatus)
    requires r in StaleRecords(cfg) && forall q :: q in cfg.status.records ==> q.state != StaleState
    ensures r.mac in MacsIn(cfg.status.records) && r.mac !in MacsOf(cfg.configs)
  {
    hide Selected;
    var marked := MarkStale(cfg.status.records, MacsOf(cfg.configs));
    SelectedWithin(marked, r);
    var i :| 0 <= i < |marked| && marked[i] == r;
    assert cfg.status.records[i] in cfg.status.records && cfg.status.records[i].mac == r.mac;
  }

  lemma FreedMacs(c: Ctl, records: seq<NcStatus>, gone: seq<NcStatus>, c': Ctl, r: NcStatus)
    requires Frees(c, records, gone, c') && r in gone
    ensures r in records
  {
    hide AllCurrent, CleanupUpTo;
    var i :| 0 <= i < |gone| && gone[i] == r;
    assert records[i] == r;
  }

  /** Other objects publish nothing of what was released from this one. */
  lemma OthersWithdrawn(cfgs: map<Key, Cfg>, key: Key, gone: seq<NcStatus>, k: Key, r: NcStatus)
    requires key in cfgs && MacsUnique(cfgs) && k in cfgs && k != key && r in cfgs[k].status.records && r.ip.Ip?
    requires forall q :: q in gone ==> q.mac in MacsIn(cfgs[key].status.records)
    ensures TicketOf(r) !in TicketsOf(gone)
  {
    hide MacsOf;
    var i :| 0 <= i < |cfgs[k].status.records| && cfgs[k].status.records[i] == r;
    assert r.mac in AllMacs(cfgs[k]) && AllMacs(cfgs[k]) !! AllMacs(cfgs[key]);
  }

  /** Enough for a step that releases records of one object and publishes `cfg` for it. */
  lemma ObjectWithdraws(cfgs: map<Key, Cfg>, key: Key, cfg: Cfg, gone: seq<NcStatus>)
    requires key in cfgs && MacsUnique(cfgs) && forall q :: q in gone ==> q.mac in MacsIn(cfgs[key].status.records)
    requires forall q, r :: q in gone && r in cfg.status.records && r.state == AllocatedState ==> q.mac != r.mac
    ensures Withdrawn(gone, cfgs[key := cfg]) && Withdrawn(gone, cfgs - {key})
  {
    hide MacsUnique, MacsIn;
    forall k, r | k in cfgs && k != key && r in cfgs[k].status.records && r.ip.Ip?
      ensures TicketOf(r) !in TicketsOf(gone)
    {
      OthersWithdrawn(cfgs, key, gone, k, r);
    }
  }

  lemma RecordMac(records: seq<NcStatus>, q: NcStatus)
    requires q in records
    ensures q.mac in MacsIn(records)
  {
    var i :| 0 <= i < |records| && records[i] == q;
  }

  /** With MACs unique across objects, a handler that finished and whose writes landed has taken off
      the objects what it released. */
  lemma LandedWithdraws(s: Sys, key: Key, gone: seq<NcStatus>, s': Sys)
    requires key in s.cfgs && StatusLanded(s, key, gone, s') && MacsUnique(s.cfgs)
    requires forall q :: q in s.cfgs[key].status.records ==> q.state != StaleState
    ensures Withdrawn(gone, s'.cfgs)
  {
    hide StaleRecords, Frees, WrappedExit, OnChangeExit, OnRemoveExit, Kept, MacsOf, MacsIn, Withdrawn, MacsUnique;
    var cfg := s.cfgs[key];
    var idle := cfg.(status := cfg.status.(records := []));
    KeptOrLost(cfg.status.records, MacsOf(cfg.configs));
    if RemoveStep(s, key, gone, s') && s'.cfgs == s.cfgs - {key} {
      forall q | q in gone ensures q.mac in MacsIn(cfg.status.records) {
        FreedMacs(s.ctl, cfg.status.records, gone, s'.ctl, q);
        RecordMac(cfg.status.records, q);
      }
      ObjectWithdraws(s.cfgs, key, idle, gone);
    } else if ChangeStep(s, key, gone, s') && cfg.paused
        && s'.cfgs == s.cfgs[key := cfg.(status := StatusOnChange(cfg))] {
      forall q | q in gone ensures q.mac in MacsIn(cfg.status.records) {
        FreedMacs(s.ctl, cfg.status.records, gone, s'.ctl, q);
        RecordMac(cfg.status.records, q);
      }
      ObjectWithdraws(s.cfgs, key, cfg.(status := StatusOnChange(cfg)), gone);
    } else {
      forall q | q in gone ensures q.mac in MacsIn(cfg.status.records) && q.mac !in MacsOf(cfg.configs) {
        FreedMacs(s.ctl, StaleRecords(cfg), gone, s'.ctl, q);
        StaleMacs(cfg, q);
      }
      ObjectWithdraws(s.cfgs, key, s'.cfgs[key], gone);
    }
  }

  lemma RunShape(services: CidrText, tr: seq<Sys>, gone: seq<seq<NcStatus>>)
    requires Run(services, tr, gone)
    ensures |tr| == |gone| + 1
  {
  }

  ghost predicate OrderlyStep(s: Sys, gone: seq<NcStatus>, s': Sys) {
    gone == [] || (MacsUnique(s.cfgs) && exists key :: key in s.cfgs && StatusLanded(s, key, gone, s'))
  }

  lemma NothingWithdrawn(cfgs: map<Key, Cfg>)
    ensures Withdrawn([], cfgs)
  {
  }

  /** In particular: with MACs unique across objects, and handlers that free addresses finishing and
      landing their writes, every address published as allocated is in the durable pool status. */
  lemma OrderlyRunsAreDurable(services: CidrText, tr: seq<Sys>, gone: seq<seq<NcStatus>>, n: nat)
    requires Run(services, tr, gone) && n < |tr|
    requires forall i :: 0 <= i < n ==> OrderlyStep(tr[i], gone[i], tr[i + 1])
    ensures AllPublishedDurable(tr[n])
  {
    hide Run, StatusLanded, Withdrawn, AllPublishedDurable, MacsUnique;
    assert |tr| == |gone| + 1 by { RunShape(services, tr, gone); }
    forall i | 0 <= i < n ensures Withdrawn(gone[i], tr[i + 1].cfgs) {
      assert OrderlyStep(tr[i], gone[i], tr[i + 1]);
      if gone[i] == [] {
        NothingWithdrawn(tr[i + 1].cfgs);
      } else {
        var key :| key in tr[i].cfgs && StatusLanded(tr[i], key, gone[i], tr[i + 1]);
        forall q | q in tr[i].cfgs[key].status.records ensures q.state != StaleState {
          NeverStale(services, tr, gone, i, key, q);
        }
        LandedWithdraws(tr[i], key, gone[i], tr[i + 1]);
      }
    }
    DurableExactly(services, tr, gone, n);
  }

  // ---------------------------------------------------------------- Allocate for recorded NICs

  lemma RecordedIsKept(p: Pool, a: Addr, m: Mac)
    requires RecordedFor(p, a, m)
    ensures WithRecord(p, a, MacRec(m)) == p
  {
    assert p.ipv4.value.entries[a := MacRec(m)] == p.ipv4.value.entries;
  }

  lemma SameNetworks(services: CidrText, c: Ctl)
    requires CtlOk(services, c)
    ensures c.ipam.Keys == c.cache.Keys
  {
  }

  /** The pool is ready and its network is in memory. */
  ghost predicate Serving(c: Ctl, net: NetName) {
    net in c.pools && c.pools[net].cacheReady == True && net in c.ipam
  }

  /** The NIC the ticket is about. */
  predicate IsNic(nc: NetworkConfig, t: Ticket) {
    nc.net == t.net && nc.mac == t.mac
  }

  lemma RecordedRound(services: CidrText, c: Ctl, t: Ticket, nc: NetworkConfig, records: seq<NcStatus>, c': Ctl,
                      out: Result<NcStatus, Failure>)
    requires CtlOk(services, c) && Recorded(c, t) && IsNic(nc, t) && AllocateOne(c, nc, records, c', out)
    ensures c' == c && (out.Ok? <==> Serving(c, t.net)) && (out.Ok? ==> out.value == Published(nc, t.addr))
  {
    hide CtlOk, RecordedFor, WithRecord, SomeAddress, Designated;
    SameNetworks(services, c);
    if t.net in c.ipam {
      RecordedIsCached(services, c, t);
      RecordedIsKept(c.pools[t.net], t.addr, t.mac);
    }
  }

  /** The tickets are recorded, one for each NIC in turn. */
  ghost predicate AllRecorded(c: Ctl, ncs: seq<NetworkConfig>, tickets: seq<Ticket>) {
    |tickets| == |ncs| && forall k :: 0 <= k < |ncs| ==> IsNic(ncs[k], tickets[k]) && Recorded(c, tickets[k])
  }

  predicate PublishesAll(ncs: seq<NetworkConfig>, tickets: seq<Ticket>, outs: seq<NcStatus>)
    requires |tickets| == |ncs|
  {
    |outs| == |ncs| && forall k :: 0 <= k < |ncs| ==> outs[k] == Published(ncs[k], tickets[k].addr)
  }

  lemma {:induction false} RecordedRounds(services: CidrText, c: Ctl, ncs: seq<NetworkConfig>, tickets: seq<Ticket>,
                                          records: seq<NcStatus>, c': Ctl, outs: seq<NcStatus>)
    requires CtlOk(services, c) && AllRecorded(c, ncs, tickets) && AllocateAll(c, ncs, records, c', outs)
    ensures c' == c && PublishesAll(ncs, tickets, outs) && forall k :: 0 <= k < |ncs| ==> Serving(c, ncs[k].net)
    decreases |ncs|
  {
    hide CtlOk, AllocateOne, Recorded, Serving;
    if ncs != [] {
      var m :| AllocateAll(c, Init(ncs), records, m, Init(outs))
               && AllocateOne(m, Last(ncs), records, c', Ok(Last(outs)));
      RecordedRounds(services, c, Init(ncs), Init(tickets), records, m, Init(outs));
      RecordedRound(services, c, Last(tickets), Last(ncs), records, c', Ok(Last(outs)));
      assert forall k :: 0 <= k < |ncs| - 1 ==> ncs[k] == Init(ncs)[k] && outs[k] == Init(outs)[k];
    }
  }

  /** Allocate of an object all of whose NICs are recorded changes nothing. It succeeds if and only if the
      object may be served at all and every one of its pools is ready and in memory, and then publishes
      the recorded addresses. */
  lemma RecordedObject(services: CidrText, c: Ctl, cfg: Cfg, tickets: seq<Ticket>, c': Ctl,
                       r: Result<seq<NcStatus>, Failure>)
    requires CtlOk(services, c) && AllRecorded(c, cfg.configs, tickets) && AllocateExit(c, cfg, c', r)
    ensures c' == c
    ensures r.Ok? <==>
      && !cfg.paused && cfg.status.inSynced != False && cfg.configs != []
      && forall k :: 0 <= k < |cfg.configs| ==> Serving(c, cfg.configs[k].net)
    ensures r.Ok? ==> PublishesAll(cfg.configs, tickets, r.value)
  {
    hide CtlOk, AllocateOne, AllocateAll, Recorded, Serving;
    var ncs, records := cfg.configs, cfg.status.records;
    if !cfg.paused && cfg.status.inSynced != False && ncs != [] {
      if r.Ok? {
        RecordedRounds(services, c, ncs, tickets, records, c', r.value);
      } else {
        var i, m, outs :| 0 <= i < |ncs| && AllocateAll(c, ncs[..i], records, m, outs)
                          && AllocateOne(m, ncs[i], records, c', Err(r.error));
        RecordedRounds(services, c, ncs[..i], tickets[..i], records, m, outs);
        RecordedRound(services, c, tickets[i], ncs[i], records, c', Err(r.error));
      }
    }
  }

  /** Any run of Allocate that succeeds publishes the recorded address for a recorded NIC. */
  lemma RecordedNic(services: CidrText, c: Ctl, t: Ticket, cfg: Cfg, c': Ctl, outs: seq<NcStatus>)
    requires CtlOk(services, c) && Recorded(c, t) && AllocateExit(c, cfg, c', Ok(outs))
    ensures |outs| == |cfg.configs|
    ensures forall k :: 0 <= k < |outs| && IsNic(cfg.configs[k], t) ==> outs[k] == Published(cfg.configs[k], t.addr)
  {
    hide CtlOk, AllocateExit, RecordedFor, Grown;
    AllocateGrows(c, cfg, c', Ok(outs));
    AllocateOk(services, c, cfg, c', Ok(outs));
    SameNetworks(services, c');
    forall k | 0 <= k < |outs| && IsNic(cfg.configs[k], t) ensures outs[k] == Published(cfg.configs[k], t.addr) {
      RecordedIsCached(services, c', t);
    }
  }

  // ---------------------------------------------------------------- restarts

  /** In every state of every run, restarts anywhere before it: if an address was recorded for a NIC and
      not released since, a run of Allocate that succeeds, for any object, publishes that address for
      that NIC. */
  lemma CrashSafe(services: CidrText, tr: seq<Sys>, gone: seq<seq<NcStatus>>, i: nat, j: nat, t: Ticket,
                  cfg: Cfg, c': Ctl, outs: seq<NcStatus>)
    requires Run(services, tr, gone) && i <= j < |tr| && Recorded(tr[i].ctl, t) && Unreleased(gone, i, j, t)
    requires AllocateExit(tr[j].ctl, cfg, c', Ok(outs))
    ensures |outs| == |cfg.configs|
    ensures forall k :: 0 <= k < |outs| && IsNic(cfg.configs[k], t) ==> outs[k] == Published(cfg.configs[k], t.addr)
  {
    hide Step, Fresh, CtlOk, AllocateExit, Recorded, TicketsOf;
    RecordedUntilReleased(services, tr, gone, i, j, t);
    EveryRunOk(services, tr, gone, j);
    RecordedNic(services, tr[j].ctl, t, cfg, c', outs);
  }

  /** If that is so for every NIC of the object, Allocate changes nothing, and succeeds exactly when the
      object may be served and every one of its pools is ready and in memory. */
  lemma CrashSafeObject(services: CidrText, tr: seq<Sys>, gone: seq<seq<NcStatus>>, i: nat, j: nat,
                        tickets: seq<Ticket>, cfg: Cfg, c': Ctl, r: Result<seq<NcStatus>, Failure>)
    requires Run(services, tr, gone) && i <= j < |tr| && AllRecorded(tr[i].ctl, cfg.configs, tickets)
    requires forall k :: 0 <= k < |tickets| ==> Unreleased(gone, i, j, tickets[k])
    requires AllocateExit(tr[j].ctl, cfg, c', r)
    ensures c' == tr[j].ctl
    ensures r.Ok? <==>
      && !cfg.paused && cfg.status.inSynced != False && cfg.configs != []
      && forall k :: 0 <= k < |cfg.configs| ==> Serving(tr[j].ctl, cfg.configs[k].net)
    ensures r.Ok? ==> PublishesAll(cfg.configs, tickets, r.value)
  {
    hide Step, Fresh, CtlOk, AllocateExit, Recorded, Unreleased, Serving;
    forall k | 0 <= k < |tickets| ensures Recorded(tr[j].ctl, tickets[k]) {
      RecordedUntilReleased(services, tr, gone, i, j, tickets[k]);
    }
    EveryRunOk(services, tr, gone, j);
    RecordedObject(services, tr[j].ctl, cfg, tickets, c', r);
  }

  /** The pool controller has looked at the pool. */
  function Noticed(c: Ctl, net: NetName): Ctl
    requires net in c.pools
  {
    c.(pools := c.pools[net := Refreshed(c, net)])
  }

  /** It has, and BuildCache has run and published its condition. */
  ghost predicate Rebuilds(c: Ctl, net: NetName, c': Ctl) {
    net in c.pools && exists d, r ::
      && BuildExit(Noticed(c, net), net, d, r) && net in d.pools
      && c' == d.(pools := d.pools[net := d.pools[net].(cacheReady := if r.Ok? then True else False)])
  }

  ghost predicate RebuildsAll(c: Ctl, nets: seq<NetName>, c': Ctl)
    decreases |nets|
  {
    if nets == [] then c' == c
    else exists m :: RebuildsAll(c, Init(nets), m) && Rebuilds(m, Last(nets), c')
  }

  lemma NoticedOk(services: CidrText, c: Ctl, net: NetName)
    requires CtlOk(services, c) && net in c.pools && !c.pools[net].paused
    ensures CtlOk(services, Noticed(c, net)) && Retained(c, Noticed(c, net))
  {
    hide CtlOk, Retained;
    assert BeforeWrite(c, net, c, true);
    assert PoolOnChangeExit(c, net, Noticed(c, net));
    PoolOnChangeOk(services, c, net, Noticed(c, net));
  }

  /** Which pools are paused stays the same, and those that are served stay so. */
  ghost predicate KeepsServing(c: Ctl, c': Ctl) {
    && c'.pools.Keys == c.pools.Keys
    && (forall n :: n in c.pools ==> c'.pools[n].paused == c.pools[n].paused)
    && (forall n :: Serving(c, n) ==> Serving(c', n))
  }

  lemma BuildServes(services: CidrText, b: Ctl, net: NetName, d: Ctl, r: Result<(), Failure>)
    requires CtlOk(services, b) && BuildExit(b, net, d, r) && !b.pools[net].paused
    requires b.pools[net].cacheReady == True ==> net in b.ipam
    ensures r.Ok? && d.pools == b.pools && net in d.ipam && d.ipam - {net} == b.ipam - {net}
  {
    hide CtlOk, Sound, MacsDistinct, RecordedFor, Pooled;
    if b.pools[net].cacheReady != True {
      AdmittedPools(services, b, net);
      RebuildExact(services, b, net, d, r);
    }
  }

  lemma NoticedServing(c: Ctl, net: NetName)
    requires net in c.pools && !c.pools[net].paused
    ensures var b := Noticed(c, net);
      && b.ipam == c.ipam && !b.pools[net].paused && (b.pools[net].cacheReady == True ==> net in b.ipam)
  {
  }

  lemma RebuildsServes(services: CidrText, c: Ctl, net: NetName, c': Ctl)
    requires CtlOk(services, c) && Rebuilds(c, net, c') && !c.pools[net].paused
    ensures CtlOk(services, c') && Retained(c, c') && Serving(c', net) && KeepsServing(c, c')
  {
    hide CtlOk, BuildExit, Retained, Refreshed;
    var b := Noticed(c, net);
    NoticedOk(services, c, net);
    NoticedServing(c, net);
    var d, r :| BuildExit(b, net, d, r) && net in d.pools
      && c' == d.(pools := d.pools[net := d.pools[net].(cacheReady := if r.Ok? then True else False)]);
    BuildServes(services, b, net, d, r);
    assert BuildStep(b, net, c');
    BuildStepOk(services, b, net, c');
    RetainedTrans(c, b, c');
    forall n | Serving(c, n) ensures Serving(c', n) {
      assert n != net ==> n in d.ipam - {net};
    }
  }

  lemma {:induction false} RebuildsAllServes(services: CidrText, c: Ctl, nets: seq<NetName>, c': Ctl)
    requires CtlOk(services, c) && RebuildsAll(c, nets, c')
    requires forall n :: n in nets ==> n in c.pools && !c.pools[n].paused
    ensures CtlOk(services, c') && Retained(c, c') && KeepsServing(c, c')
    ensures forall n :: n in nets ==> Serving(c', n)
    decreases |nets|
  {
    hide CtlOk, Rebuilds, Retained, Serving;
    if nets == [] {
      RetainedSame(c);
    } else {
      var m :| RebuildsAll(c, Init(nets), m) && Rebuilds(m, Last(nets), c');
      RebuildsAllServes(services, c, Init(nets), m);
      assert Last(nets) in nets;
      RebuildsServes(services, m, Last(nets), c');
      RetainedTrans(c, m, c');
      assert forall n :: n in nets ==> n in Init(nets) || n == Last(nets);
    }
  }

  lemma AllRecordedRetained(c: Ctl, c': Ctl, ncs: seq<NetworkConfig>, tickets: seq<Ticket>)
    requires AllRecorded(c, ncs, tickets) && Retained(c, c')
    ensures AllRecorded(c', ncs, tickets)
  {
    hide RecordedFor;
  }

  /** Restart at any point of a run. Once the pool controller has rebuilt the networks of an object, none
      of them paused, in any order, Allocate of the object succeeds, gives every recorded NIC its address,
      and needs no write that could fail. */
  lemma RestartRestores(services: CidrText, tr: seq<Sys>, gone: seq<seq<NcStatus>>, i: nat, nets: seq<NetName>,
                        c: Ctl, cfg: Cfg, tickets: seq<Ticket>, c': Ctl, r: Result<seq<NcStatus>, Failure>)
    requires Run(services, tr, gone) && i < |tr| && RebuildsAll(Forgetful(tr[i].ctl), nets, c)
    requires forall n :: n in nets ==> n in tr[i].ctl.pools && !tr[i].ctl.pools[n].paused
    requires !cfg.paused && cfg.status.inSynced != False && cfg.configs != []
    requires forall k :: 0 <= k < |cfg.configs| ==> cfg.configs[k].net in nets
    requires AllRecorded(tr[i].ctl, cfg.configs, tickets) && AllocateExit(c, cfg, c', r)
    ensures c' == c && r.Ok? && PublishesAll(cfg.configs, tickets, r.value)
  {
    hide Step, Fresh, CtlOk, AllocateExit, RebuildsAll, AllRecorded, Serving, KeepsServing;
    EveryRunOk(services, tr, gone, i);
    ForgetfulOk(services, tr[i].ctl);
    PoolsOnly(tr[i].ctl, Forgetful(tr[i].ctl));
    RebuildsAllServes(services, Forgetful(tr[i].ctl), nets, c);
    AllRecordedRetained(tr[i].ctl, Forgetful(tr[i].ctl), cfg.configs, tickets);
    AllRecordedRetained(Forgetful(tr[i].ctl), c, cfg.configs, tickets);
    RecordedObject(services, c, cfg, tickets, c', r);
  }

  /** Rebuilding from any pool status a run produced succeeds and is exact: every recorded MAC is cached
      at its address again, and nothing else is. */
  lemma RunsRebuildExactly(services: CidrText, tr: seq<Sys>, gone: seq<seq<NcStatus>>, i: nat, net: NetName,
                           c': Ctl, r: Result<(), Failure>)
    requires Run(services, tr, gone) && i < |tr| && BuildExit(tr[i].ctl, net, c', r)
    requires !tr[i].ctl.pools[net].paused && tr[i].ctl.pools[net].cacheReady != True
    ensures r.Ok? && RebuiltExactly(tr[i].ctl, net, c')
  {
    hide Step, CtlOk, RebuiltExactly, Sound, MacsDistinct, RebuiltTo;
    EveryRunOk(services, tr, gone, i);
    AdmittedPools(services, tr[i].ctl, net);
    RebuildExact(services, tr[i].ctl, net, c', r);
  }

  /** In every state of a run as many addresses are used as MACs are cached. */
  lemma RunsCount(services: CidrText, tr: seq<Sys>, gone: seq<seq<NcStatus>>, i: nat, net: NetName)
    requires Run(services, tr, gone) && i < |tr| && net in tr[i].ctl.ipam
    ensures net in tr[i].ctl.cache && |Used(tr[i].ctl.ipam[net].ips)| == |tr[i].ctl.cache[net]|
  {
    hide Step, PoolOk, LiveOk, Agrees;
    EveryRunOk(services, tr, gone, i);
    UsedIsCached(tr[i].ctl.ipam[net].ips, tr[i].ctl.cache[net]);
  }

  // ---------------------------------------------------------------- cleanups that do not get to the end

  /** Wherever a cleanup stops, a durable record survives it exactly when none of the records before
      that point names its address. */
  lemma DurableSurvivesExactly(c: Ctl, records: seq<NcStatus>, n: nat, c': Ctl, f: Option<Failure>, r: NcStatus)
    requires CleanupUpTo(c, records, n, c', f)
    ensures n <= |records|
    ensures Durable(c', r) <==> Durable(c, r) && r.ip.addr !in AddrsOn(records[..n], r.net)
  {
    hide CleanupUpTo, AddrsOn, ErasedFrom, RecordedFor;
    CleanupErases(c, records, n, c', f);
    if r.ip.Ip? && r.net in c.pools {
      ErasedRecords(c.pools[r.net], AddrsOn(records[..n], r.net), r.ip.addr, r.mac);
    }
  }

  /** If the records stay published, because the cleanup was stopped or its status write was lost, then
      they are all still durable exactly when nothing released was published as allocated. */
  lemma InterruptedExactly(c: Ctl, records: seq<NcStatus>, n: nat, c': Ctl, f: Option<Failure>)
    requires CleanupUpTo(c, records, n, c', f) && AllDurable(c, records)
    requires forall i, j :: 0 <= i < j < |records| ==>
               records[i].net != records[j].net || records[i].ip != records[j].ip
    ensures n <= |records|
    ensures AllDurable(c', records) <==> forall i :: 0 <= i < n ==> records[i].state != AllocatedState
  {
    hide CleanupUpTo, Durable, RecordedFor;
    forall k | 0 <= k < |records| && records[k].state == AllocatedState
      ensures n <= |records| && (Durable(c', records[k]) <==> k >= n)
    {
      DurableSurvivesExactly(c, records, n, c', f, records[k]);
      DurableHasAddress(c, records[k]);
      if k < n {
        assert records[..n][k] == records[k];
      }
    }
    CleanupErases(c, records, n, c', f);
  }

  lemma DurableHasAddress(c: Ctl, r: NcStatus)
    requires Durable(c, r)
    ensures r.ip.Ip? && r.net in c.pools
  {
  }

  lemma RecordIsManaged(services: CidrText, c: Ctl, r: NcStatus)
    requires CtlOk(services, c) && Durable(c, r) && r.net in c.ipam
    ensures Holds(c.ipam, r.net, r.ip) && r.net in c.cache && r.net in c.pools && c.pools[r.net].ipv4.Some?
  {
    hide PoolOk, CtlOk;
    assert Recorded(c, Ticket(r.net, r.ip.addr, r.mac));
    RecordedIsCached(services, c, Ticket(r.net, r.ip.addr, r.mac));
  }

  /** Such a cleanup needs no failing write. An object holds two records, and the network of the second is
      not in memory, as when its pool is paused. Removal releases the first record and stops on the
      second; the object keeps publishing an address that is no longer its own. */
  lemma InterruptedRemoval(services: CidrText, s: Sys, key: Key, first: NcStatus, second: NcStatus) returns (s': Sys)
    requires CtlOk(services, s.ctl) && key in s.cfgs && s.cfgs[key].status.records == [first, second]
    requires Durable(s.ctl, first) && first.net in s.ctl.ipam && second.net !in s.ctl.ipam
    ensures RemoveStep(s, key, [first], s') && CtlOk(services, s'.ctl)
    ensures s'.cfgs == s.cfgs && !Durable(s'.ctl, first)
  {
    hide CtlOk, Durable, WithoutRecord;
    var c, records := s.ctl, s.cfgs[key].status.records;
    RecordIsManaged(services, c, first);
    DurableIsCurrent(services, c, first);
    var d := Erased(Released(c, first), first);
    s' := s.(ctl := d);
    assert CleanupOne(c, first, d, None);
    assert records[..1] == [first] && Init(records[..1]) == [] && Last(records[..1]) == first;
    assert CleanupAll(c, [], c);
    assert CleanupAll(c, records[..1], d);
    assert CleanupOne(d, records[1], d, Some(StoreMissing));
    assert CleanupUpTo(c, records, 1, d, Some(StoreMissing));
    assert CleanupExit(c, records, d, Some(StoreMissing));
    assert Releases(c, records, [first], d);
    ReleaseSettles(services, c, records, [first], d);
    DurableSurvivesExactly(c, records, 1, d, Some(StoreMissing), first);
  }

  /** Erasing a durable record from the pool is what keeps the invariant: a cleanup that gave up in
      between leaves a record in the pool status whose MAC is no longer cached. */
  lemma EraseMustLand(services: CidrText, c: Ctl, r: NcStatus, c': Ctl, f: Option<Failure>)
    requires CtlOk(services, c) && Durable(c, r) && CleanupOne(c, r, c', f)
    ensures CtlOk(services, c') <==> f.None? || r.net !in c.ipam
  {
    hide CtlOk, RecordedFor, WithoutRecord;
    DurableIsCurrent(services, c, r);
    if r.net in c.ipam {
      RecordIsManaged(services, c, r);
      if f.None? {
        CleanupOneOk(services, c, r, c');
      } else {
        UncachedBreaks(services, c', r);
      }
    }
  }

  lemma UncachedBreaks(services: CidrText, c: Ctl, r: NcStatus)
    requires Durable(c, r) && r.net in c.ipam && r.net in c.cache && r.mac !in c.cache[r.net]
    ensures !CtlOk(services, c)
  {
    hide PoolOk, RecordedFor, Consistent;
  }
}

/** What a pool object says after OnChange wrote it: its counts and its marks, over every run. */
module PoolReports {
  import opened Basics
  import opened Prefix
  import opened Admission
  import opened Ipam
  import opened Stores
  import opened VmNetCfg
  import opened PoolControl
  import opened SyncLaws
  import opened PoolLaws
  import opened FreeRuns
  import opened Invariant
  import opened Runs
  import opened Recovery

  // ---------------------------------------------------------------- marks

  /** Every mark is where the configuration wants one. */
  ghost predicate MarksTrue(p: Pool) {
    forall a :: a in RecordsOf(p) ==>
      && (RecordsOf(p)[a] == Excluded ==> Ip(a) in p.config.exclude)
      && (RecordsOf(p)[a] == Reserved ==> Ip(a) == p.config.server || Ip(a) == p.config.router)
  }

  ghost predicate AllMarksTrue(c: Ctl) {
    forall net :: net in c.pools ==> MarksTrue(c.pools[net])
  }

  lemma EntryMarks(p: Pool, a: Addr, m: Mac)
    requires MarksTrue(p)
    ensures MarksTrue(WithRecord(p, a, MacRec(m)))
  {
  }

  lemma ErasedMarks(p: Pool, addrs: set<Addr>)
    requires MarksTrue(p)
    ensures MarksTrue(ErasedFrom(p, addrs))
  {
  }

  lemma DescribedMarks(c: Ctl, net: NetName, q: Pool)
    requires net in c.pools && MarksTrue(c.pools[net]) && Describes(c, net, q)
    ensures MarksTrue(q)
  {
    var p := c.pools[net];
    if !p.paused && net in c.ipam {
      forall a | a in RecordsOf(q)
        ensures RecordsOf(q)[a] == Excluded ==> Ip(a) in q.config.exclude
        ensures RecordsOf(q)[a] == Reserved ==> Ip(a) == q.config.server || Ip(a) == q.config.router
      {
        assert RecordedAs(p.config, RecordsOf(p), q.ipv4.value.entries, a);
      }
    }
  }

  lemma AllocateOneMarks(c: Ctl, nc: NetworkConfig, records: seq<NcStatus>, c': Ctl, r: Result<NcStatus, Failure>)
    requires AllMarksTrue(c) && AllocateOne(c, nc, records, c', r)
    ensures AllMarksTrue(c')
  {
    hide AllocateOne, Designated, MarksTrue, WithRecord;
    var chosen := AllocateOneCases(c, nc, records, c', r);
    if r.Ok? { EntryMarks(c.pools[nc.net], c'.cache[nc.net][nc.mac], nc.mac); }
  }

  lemma {:induction false} AllocateAllMarks(c: Ctl, ncs: seq<NetworkConfig>, records: seq<NcStatus>, c': Ctl,
                                            outs: seq<NcStatus>)
    requires AllMarksTrue(c) && AllocateAll(c, ncs, records, c', outs)
    ensures AllMarksTrue(c')
    decreases |ncs|
  {
    hide AllocateOne, AllMarksTrue;
    if ncs != [] {
      var m :| AllocateAll(c, Init(ncs), records, m, Init(outs))
               && AllocateOne(m, Last(ncs), records, c', Ok(Last(outs)));
      AllocateAllMarks(c, Init(ncs), records, m, Init(outs));
      AllocateOneMarks(m, Last(ncs), records, c', Ok(Last(outs)));
    }
  }

  lemma AllocateMarks(c: Ctl, cfg: Cfg, c': Ctl, r: Result<seq<NcStatus>, Failure>)
    requires AllMarksTrue(c) && AllocateExit(c, cfg, c', r)
    ensures AllMarksTrue(c')
  {
    hide AllocateOne, AllocateAll, AllMarksTrue;
    var ncs, records := cfg.configs, cfg.status.records;
    if c' != c {
      if r.Ok? {
        AllocateAllMarks(c, ncs, records, c', r.value);
      } else {
        var i, m, outs :| 0 <= i < |ncs| && AllocateAll(c, ncs[..i], records, m, outs)
                          && AllocateOne(m, ncs[i], records, c', Err(r.error));
        AllocateAllMarks(c, ncs[..i], records, m, outs);
        AllocateOneMarks(m, ncs[i], records, c', Err(r.error));
      }
    }
  }

  lemma CleanupMarks(c: Ctl, records: seq<NcStatus>, c': Ctl, f: Option<Failure>)
    requires AllMarksTrue(c) && CleanupExit(c, records, c', f)
    ensures AllMarksTrue(c')
  {
    hide CleanupUpTo, MarksTrue, ErasedFrom, AddrsOn;
    var n: nat :| CleanupUpTo(c, records, n, c', f);
    CleanupErases(c, records, n, c', f);
    forall net | net in c'.pools ensures MarksTrue(c'.pools[net]) {
      ErasedMarks(c.pools[net], AddrsOn(records[..n], net));
    }
  }

  lemma OnChangeMarks(c: Ctl, net: NetName, c': Ctl)
    requires AllMarksTrue(c) && PoolOnChangeExit(c, net, c')
    ensures AllMarksTrue(c')
  {
    hide MarksTrue, Refreshed, Describes;
    RefreshedDescribes(c, net);
    DescribedMarks(c, net, Refreshed(c, net));
  }

  lemma TouchedMarks(p: Pool, q: Pool)
    requires MarksTrue(p) && SameStatus(p, q)
    ensures MarksTrue(q)
  {
  }

  lemma BuildMarks(services: CidrText, c: Ctl, net: NetName, c': Ctl)
    requires Fits(services, c) && AllMarksTrue(c) && BuildStep(c, net, c')
    ensures AllMarksTrue(c')
  {
    hide Fits, BuildExit, MarksTrue;
    var d, r :| BuildExit(c, net, d, r) && net in d.pools
      && (c' == d
          || c' == d.(pools := d.pools[net := d.pools[net].(cacheReady := if r.Ok? then True else False)]));
    BuildFits(services, c, net, d, r);
    TouchedMarks(d.pools[net], d.pools[net].(cacheReady := if r.Ok? then True else False));
  }

  lemma FreeStepMarks(services: CidrText, c: Ctl, c': Ctl)
    requires Fits(services, c) && AllMarksTrue(c) && FreeStep(c, c')
    ensures AllMarksTrue(c')
  {
    hide Fits, MarksTrue, AllocateExit, CleanupExit, BuildStep, PoolOnChangeExit;
    if cfg, r :| AllocateExit(c, cfg, c', r) {
      AllocateMarks(c, cfg, c', r);
    } else if records, f :| CleanupExit(c, records, c', f) {
      CleanupMarks(c, records, c', f);
    } else if net :| BuildStep(c, net, c') {
      BuildMarks(services, c, net, c');
    } else if net :| PoolOnChangeExit(c, net, c') {
      OnChangeMarks(c, net, c');
    } else if TouchStep(c, c') {
      var net, q :| Touched(c, net, q, c');
      TouchedMarks(c.pools[net], q);
    }
  }

  lemma {:induction false} EveryMarkTrue(services: CidrText, tr: seq<Ctl>, i: nat)
    requires FreeRun(services, tr) && i < |tr|
    ensures AllMarksTrue(tr[i])
  {
    hide Fits, FreeStep, MarksTrue, Sound;
    if i == 0 {
      forall net | net in tr[0].pools ensures MarksTrue(tr[0].pools[net]) { UnmarkedIsTrue(tr[0].pools[net]); }
    } else {
      EveryMarkTrue(services, tr, i - 1);
      EveryFreeRunFits(services, tr, i - 1);
      FreeStepMarks(services, tr[i - 1], tr[i - 1 + 1]);
    }
  }

  lemma UnmarkedIsTrue(p: Pool)
    requires p.ipv4.None?
    ensures MarksTrue(p)
  {
  }

  /** In every unguarded run: when pool OnChange wrote a pool that is in memory and not paused, an address of
      the range is marked excluded exactly if it is on the list, reserved exactly if it is the server or the
      router and not on the list, and recorded for a MAC exactly as before. */
  lemma MarksMean(services: CidrText, tr: seq<Ctl>, i: nat, net: NetName, c': Ctl, a: Addr)
    requires FreeRun(services, tr) && i < |tr| && PoolOnChangeExit(tr[i], net, c') && c' != tr[i]
    requires !tr[i].pools[net].paused && net in tr[i].ipam
    requires var p := tr[i].pools[net].config; p.start.Ip? && p.end.Ip? && p.start.addr <= a <= p.end.addr
    ensures net in c'.pools && c'.pools[net].ipv4.Some?
    ensures var p, now, was := tr[i].pools[net].config, RecordsOf(c'.pools[net]), RecordsOf(tr[i].pools[net]);
      && (a in now && now[a] == Excluded <==> Ip(a) in p.exclude)
      && (a in now && now[a] == Reserved <==> (Ip(a) == p.server || Ip(a) == p.router) && Ip(a) !in p.exclude)
      && (a in now && now[a].MacRec? <==> a in was && was[a].MacRec?)
      && (a in now && now[a].MacRec? ==> now[a] == was[a])
  {
    hide FreeStep, Refreshed, Sound, Marks, Fits;
    EveryMarkTrue(services, tr, i);
    EveryFreeRunFits(services, tr, i);
    PoolOfCtl(services, tr[i], net);
    RefreshedDescribes(tr[i], net);
    var p, q := tr[i].pools[net], c'.pools[net];
    assert q == Refreshed(tr[i], net);
    assert RecordedAs(p.config, RecordsOf(p), RecordsOf(q), a);
    if a in RecordsOf(p) && RecordsOf(p)[a].MacRec? { RecordedIsPooled(services, p, a); }
  }

  lemma RecordedIsPooled(services: CidrText, p: Pool, a: Addr)
    requires PoolFits(services, p) && a in RecordsOf(p) && RecordsOf(p)[a].MacRec?
    ensures !Withheld(p.config, a)
  {
    hide Sound;
    assert a in MacAddrs(RecordsOf(p));
  }

  // ---------------------------------------------------------------- counts

  lemma WroteRefreshed(c: Ctl, net: NetName, c': Ctl)
    requires PoolOnChangeExit(c, net, c') && c' != c && !c.pools[net].paused && net in c.ipam
    ensures net in c'.pools && c'.pools[net].ipv4.Some?
    ensures c'.pools[net].ipv4.value.used == |Used(c.ipam[net].ips)|
    ensures c'.pools[net].ipv4.value.available == |Free(c.ipam[net].ips)|
  {
    hide Marks;
  }

  /** In every run: when pool OnChange wrote a pool that is in memory and not paused, it publishes as used as
      many addresses as MACs are cached, and used and available add up to the range less the withheld
      addresses in it. */
  lemma CountsMean(services: CidrText, tr: seq<Sys>, gone: seq<seq<NcStatus>>, i: nat, net: NetName, c': Ctl)
    requires Run(services, tr, gone) && i < |tr| && PoolOnChangeExit(tr[i].ctl, net, c') && c' != tr[i].ctl
    requires !tr[i].ctl.pools[net].paused && net in tr[i].ctl.ipam
    ensures net in tr[i].ctl.cache && net in c'.pools && c'.pools[net].ipv4.Some?
    ensures c'.pools[net].ipv4.value.used == |tr[i].ctl.cache[net]|
    ensures var p, status := tr[i].ctl.pools[net].config, c'.pools[net].ipv4.value;
      && p.start.Ip? && p.end.Ip?
      && status.used + status.available == p.end.addr - p.start.addr + 1 - |WithheldInRange(p)|
  {
    hide Run, PoolOnChangeExit, CtlOk, Fits, WithheldInRange, Pooled, Sound;
    var c := tr[i].ctl;
    RunsCount(services, tr, gone, i, net);
    EveryRunOk(services, tr, gone, i);
    OkFits(services, c);
    InMemoryFits(services, c, net);
    RangeOrdered(services, c.pools[net].config);
    Conservation(c.pools[net].config, c.ipam[net].ips);
    WroteRefreshed(c, net, c');
  }

  lemma InMemoryFits(services: CidrText, c: Ctl, net: NetName)
    requires Fits(services, c) && net in c.ipam
    ensures net in c.pools && PoolFits(services, c.pools[net]) && c.ipam[net].ips.Keys == Pooled(c.pools[net].config)
  {
    hide PoolFits, Pooled;
  }
}

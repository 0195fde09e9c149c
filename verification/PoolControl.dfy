/** The ippool controller: BuildCache rebuilds both allocators from a pool object, OnChange writes
    counts and marks back into it, cleanup drops both. Specified as relations, like VmNetCfg. */
module PoolControl {
  import opened Basics
  import opened Admission
  import opened Ipam
  import opened Stores

  // ---------------------------------------------------------------- the addresses of a pool

  /** Addresses that are never handed out: the server's, the router's and the excluded ones. */
  predicate Withheld(p: PoolConfig, a: Addr) {
    Ip(a) == p.server || Ip(a) == p.router || Ip(a) in p.exclude
  }

  /** The addresses a pool manages. */
  function Pooled(p: PoolConfig): (r: set<Addr>)
    requires p.start.Ip? && p.end.Ip?
    ensures forall a: Addr :: a in r <==> p.start.addr <= a <= p.end.addr && !Withheld(p, a)
  {
    set a | a in Addresses(p.start.addr, p.end.addr) && !Withheld(p, a)
  }

  /** The addresses recorded for some MAC. */
  function MacAddrs(entries: map<Addr, Rec>): set<Addr> {
    set a | a in entries && entries[a].MacRec?
  }

  /** No MAC is recorded at two addresses. */
  ghost predicate MacsDistinct(entries: map<Addr, Rec>) {
    forall a, b :: a in MacAddrs(entries) && b in MacAddrs(entries) && entries[a] == entries[b] ==> a == b
  }

  // ---------------------------------------------------------------- BuildCache

  /** The subnet of a pool when the addresses in `done` are taken. */
  function Loaded(p: PoolConfig, done: set<Addr>): IPSubnet
    requires Buildable(p.cidr, p.start, p.end)
  {
    Built(p.cidr, p.start.addr, p.end.addr).(ips := map a | a in Pooled(p) :: a in done)
  }

  /** The MAC cache after the records at `done` were replayed in some order. */
  ghost predicate Replayed(entries: map<Addr, Rec>, done: set<Addr>, macs: map<Mac, Addr>) {
    && (forall a :: a in done ==> a in MacAddrs(entries) && entries[a].mac in macs)
    && (forall m :: m in macs ==> macs[m] in done && entries[macs[m]] == MacRec(m))
  }

  /** Both allocators hold the pool with the records at `done` replayed. */
  ghost predicate RebuiltTo(c: Ctl, net: NetName, done: set<Addr>, macs: map<Mac, Addr>, c': Ctl)
    requires net in c.pools
  {
    var p := c.pools[net];
    && Buildable(p.config.cidr, p.config.start, p.config.end)
    && done <= Pooled(p.config) && Replayed(RecordsOf(p), done, macs)
    && c' == c.(ipam := c.ipam[net := Loaded(p.config, done)], cache := c.cache[net := macs])
  }

  /** Nothing but the in-memory stores of `net` differs. */
  ghost predicate OnlyNetwork(c: Ctl, net: NetName, c': Ctl) {
    c'.pools == c.pools && c'.ipam - {net} == c.ipam - {net} && c'.cache - {net} == c.cache - {net}
  }

  /** Every way one run of BuildCache can end. A record at 0.0.0.0 asks for any address, so that
      case is left loose; admission keeps 0.0.0.0 out of every range. */
  ghost predicate BuildExit(c: Ctl, net: NetName, c': Ctl, r: Result<(), Failure>) {
    && net in c.pools
    && var p := c.pools[net];
       if p.paused then c' == c && r == Err(AdminDisabled)
       else if p.cacheReady == True then c' == c && r == Ok(())
       else if !Buildable(p.config.cidr, p.config.start, p.config.end) then c' == c && r == Err(SubnetRefused)
       else if 0 in MacAddrs(RecordsOf(p)) then OnlyNetwork(c, net, c')
       else
         exists done, macs ::
           && RebuiltTo(c, net, done, macs, c')
           && (r.Ok? ==> done == MacAddrs(RecordsOf(p)))
           && (r.Err? ==> r.error == AddressRefused && !(MacAddrs(RecordsOf(p)) <= Pooled(p.config)))
  }

  /** The condition its generated wrapper then publishes, if the write lands. */
  ghost predicate BuildStep(c: Ctl, net: NetName, c': Ctl) {
    exists d, r ::
      && BuildExit(c, net, d, r) && net in d.pools
      && (c' == d || c' == d.(pools := d.pools[net := d.pools[net].(cacheReady := if r.Ok? then True else False)]))
  }

  // ---------------------------------------------------------------- OnChange, cleanup

  /** util.IsIPInBetweenOf. */
  predicate InBetween(t: AddrText, lo: AddrText, hi: AddrText) {
    t.Ip? && lo.Ip? && hi.Ip? && lo.addr <= t.addr <= hi.addr
  }

  /** The mark OnChange enters at `a`: every excluded address is marked so, the server and the router
      are reserved when they fall into the range. */
  function MarkAt(p: PoolConfig, a: Addr): Option<Rec> {
    if Ip(a) in p.exclude then Some(Excluded)
    else if (Ip(a) == p.server || Ip(a) == p.router) && InBetween(Ip(a), p.start, p.end) then Some(Reserved)
    else None
  }

  function MarkedAddrs(p: PoolConfig): (r: set<Addr>)
    ensures forall a :: a in r <==> MarkAt(p, a).Some?
  {
    var named := (set t | t in p.exclude) + {p.server, p.router};
    set t | t in named && t.Ip? && MarkAt(p, t.addr).Some? :: t.addr
  }

  function Marks(p: PoolConfig): map<Addr, Rec> {
    map a | a in MarkedAddrs(p) :: MarkAt(p, a).value
  }

  /** The pool object OnChange wants to see. */
  function Refreshed(c: Ctl, net: NetName): Pool
    requires net in c.pools
  {
    var p := c.pools[net];
    if p.paused then p.(agentPod := false, stopped := True)
    else
      var q := p.(stopped := False);
      if net !in c.ipam then q.(cacheReady := False)
      else
        q.(ipv4 := Some(IPv4Status(RecordsOf(p) + Marks(p.config),
                                   |Used(c.ipam[net].ips)|, |Free(c.ipam[net].ips)|)))
  }

  /** The record of address `a` after the marks were entered, stated on the configuration. */
  predicate RecordedAs(p: PoolConfig, before: map<Addr, Rec>, after: map<Addr, Rec>, a: Addr) {
    if Ip(a) in p.exclude then a in after && after[a] == Excluded
    else if (Ip(a) == p.server || Ip(a) == p.router) && p.start.Ip? && p.end.Ip? && p.start.addr <= a <= p.end.addr
    then a in after && after[a] == Reserved
    else (a in after <==> a in before) && (a in before ==> after[a] == before[a])
  }

  /** `q` says of the pool what OnChange has to say: it has stopped exactly if it is paused, and then has no
      agent; otherwise its cache is not ready if the network is not in memory; and if it is, the counts are
      those of the taken and of the free addresses, and the marks stand beside the old records. */
  ghost predicate Describes(c: Ctl, net: NetName, q: Pool)
    requires net in c.pools
  {
    var p := c.pools[net];
    && q.config == p.config && q.paused == p.paused
    && q.stopped == (if p.paused then True else False)
    && q.agentPod == (p.agentPod && !p.paused)
    && q.cacheReady == (if !p.paused && net !in c.ipam then False else p.cacheReady)
    && if p.paused || net !in c.ipam then q.ipv4 == p.ipv4
       else
         && q.ipv4.Some?
         && q.ipv4.value.used == |Used(c.ipam[net].ips)|
         && q.ipv4.value.available == |Free(c.ipam[net].ips)|
         && forall a :: RecordedAs(p.config, RecordsOf(p), q.ipv4.value.entries, a)
  }

  lemma MarksRecorded(p: PoolConfig, before: map<Addr, Rec>, a: Addr)
    ensures RecordedAs(p, before, before + Marks(p), a)
  {
  }

  lemma RefreshedDescribes(c: Ctl, net: NetName)
    requires net in c.pools
    ensures Describes(c, net, Refreshed(c, net))
  {
    hide Marks, RecordedAs;
    var p := c.pools[net];
    forall a ensures RecordedAs(p.config, RecordsOf(p), RecordsOf(p) + Marks(p.config), a) {
      MarksRecorded(p.config, RecordsOf(p), a);
    }
  }

  function Dropped(c: Ctl, net: NetName): Ctl {
    c.(ipam := c.ipam - {net}, cache := c.cache - {net})
  }

  /** cleanup: without an agent pod nothing is dropped; otherwise the pod goes first, which may fail. */
  ghost predicate PoolCleanupExit(c: Ctl, net: NetName, c': Ctl, ok: bool) {
    && net in c.pools
    && if !c.pools[net].agentPod then c' == c && ok
       else (c' == Dropped(c, net) && ok) || (c' == c && !ok)
  }

  /** A paused pool is cleaned up before its status is written. */
  ghost predicate BeforeWrite(c: Ctl, net: NetName, d: Ctl, ok: bool)
    requires net in c.pools
  {
    if c.pools[net].paused then PoolCleanupExit(c, net, d, ok) else d == c && ok
  }

  ghost predicate PoolOnChangeExit(c: Ctl, net: NetName, c': Ctl) {
    && net in c.pools
    && exists d, ok ::
      && BeforeWrite(c, net, d, ok)
      && (c' == d || (ok && c' == d.(pools := d.pools[net := Refreshed(c, net)])))
  }
}

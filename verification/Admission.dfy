/** The IPPool admission webhook: the mutator fills in a server address and a range, the validator
    then accepts or refuses the result. */
module Admission {
  import opened Basics
  import opened Prefix

  /** The address fields of an IPPool as submitted. */
  datatype PoolConfig = PoolConfig(
    cidr: CidrText, server: AddrText, router: AddrText,
    start: AddrText, end: AddrText, exclude: seq<AddrText>)

  datatype Refusal =
    | CidrUnparsable | ExcludeUnparsable | NoServerLeft | RangeReversed
    | FieldUnparsable | OverlapsServices
    | OutsideSubnet | IsNetworkAddress | IsBroadcastAddress | ServerIsRouter | ServerOccupied

  // ---------------------------------------------------------------- netip.Addr, 4-byte form

  /** netip.Addr.Next and Prev: beyond either end of the address space lies the invalid address. */
  function Next(a: Addr): Option<Addr> {
    if a == ADDRESS_SPACE - 1 then None else Some(a + 1)
  }

  function Prev(a: Addr): Option<Addr> {
    if a == 0 then None else Some(a - 1)
  }

  /** netip.Addr.Compare(x, y) > 0; the invalid address sorts before every other. */
  predicate After(x: Option<Addr>, y: Option<Addr>) {
    x.Some? && (y.None? || x.value > y.value)
  }

  /** netip.ParseAddr: an empty or unparsable field gives no address. */
  function Parse(t: AddrText): Option<Addr> {
    if t.Ip? then Some(t.addr) else None
  }

  /** netip.Addr.String: the invalid address prints as text that does not parse. */
  function Print(a: Option<Addr>): AddrText {
    if a.Some? then Ip(a.value) else Malformed
  }

  // ---------------------------------------------------------------- mutator

  /** An address the DHCP server could take: strictly inside the block, not the router, not excluded. */
  predicate CanServe(c: CidrText, router: AddrText, exclude: seq<AddrText>, a: Addr)
    requires c.Cidr?
  {
    Network(c) < a < Broadcast(c) && Ip(a) != router && Ip(a) !in exclude
  }

  predicate AllParse(ts: seq<AddrText>) {
    forall i :: 0 <= i < |ts| ==> ts[i].Ip?
  }

  /** Picks the server address: none when one was given, else the smallest address that can serve. */
  method EnsureServerIP(server: AddrText, cidr: CidrText, router: AddrText, exclude: seq<AddrText>)
    returns (r: Result<Option<Addr>, Refusal>)
    ensures r == Err(CidrUnparsable) <==> cidr.BadCidr?
    ensures r == Err(ExcludeUnparsable) <==> cidr.Cidr? && !AllParse(exclude)
    ensures cidr.Cidr? && AllParse(exclude) && server.Ip? ==> r == Ok(None)
    ensures cidr.Cidr? && AllParse(exclude) && !server.Ip? ==>
      if exists a: Addr :: CanServe(cidr, router, exclude, a)
      then r.Ok? && r.value.Some? && CanServe(cidr, router, exclude, r.value.value)
           && forall a: Addr :: CanServe(cidr, router, exclude, a) ==> r.value.value <= a
      else r == Err(NoServerLeft)
  {
    hide Network, Broadcast, NetOf, Contains;
    var loaded := LoadCIDR(cidr);
    if loaded.Err? {
      return Err(CidrUnparsable);
    }
    var Block(ipNet, network, broadcast) := loaded.value;
    var masked: seq<Addr> := [];
    if router.Ip? {
      masked := [router.addr];
    }
    for i := 0 to |exclude|
      invariant forall j :: 0 <= j < i ==> exclude[j].Ip?
      invariant forall a: Addr :: a in masked <==> Ip(a) == router || Ip(a) in exclude[..i]
    {
      if !exclude[i].Ip? {
        return Err(ExcludeUnparsable);
      }
      masked := masked + [exclude[i].addr];
      assert exclude[..i + 1] == exclude[..i] + [exclude[i]];
    }
    assert exclude[..|exclude|] == exclude;
    if server.Ip? {
      return Ok(None);
    }
    var candidate := Next(network);
    while candidate.Some? && Contains(ipNet, candidate.value)
      invariant candidate.Some? ==> network < candidate.value
      invariant forall a: Addr :: network < a && (candidate.Some? ==> a < candidate.value) ==> a in masked
      decreases if candidate.Some? then ADDRESS_SPACE - candidate.value else 0
    {
      ContainsMeans(cidr, candidate.value);
      if candidate.value in masked {
        candidate := Next(candidate.value);
        continue;
      }
      if candidate.value == broadcast {
        break;
      }
      assert CanServe(cidr, router, exclude, candidate.value);
      return Ok(candidate);
    }
    if candidate.Some? { ContainsMeans(cidr, candidate.value); }
    return Err(NoServerLeft);
  }

  datatype Range = Range(start: AddrText, end: AddrText)

  /** The range goes from one number to the other. */
  predicate Spans(range: Range, s: int, e: int) {
    range.start.Ip? && range.start.addr == s && range.end.Ip? && range.end.addr == e
  }

  function DefaultStart(c: CidrText, t: AddrText): Option<Addr>
    requires c.Cidr?
  {
    if t.Ip? then Some(t.addr) else Next(Network(c))
  }

  function DefaultEnd(c: CidrText, t: AddrText): Option<Addr>
    requires c.Cidr?
  {
    if t.Ip? then Some(t.addr) else Prev(Broadcast(c))
  }

  /** Fills in the missing ends of the range; None when nothing had to change. */
  method EnsurePoolRange(pool: Range, cidr: CidrText) returns (r: Result<Option<Range>, Refusal>)
    ensures r == Err(CidrUnparsable) <==> cidr.BadCidr?
    ensures cidr.Cidr? ==>
      var s, e := DefaultStart(cidr, pool.start), DefaultEnd(cidr, pool.end);
      if After(s, e) then r == Err(RangeReversed)
      else r.Ok? && (if r.value.Some? then r.value.value else pool) == Range(Print(s), Print(e))
    ensures cidr.Cidr? && cidr.len <= 30 ==>
      var s: int := if pool.start.Ip? then pool.start.addr else Network(cidr) + 1;
      var e: int := if pool.end.Ip? then pool.end.addr else Broadcast(cidr) - 1;
      if s > e then r == Err(RangeReversed)
      else r.Ok? && Spans(if r.value.Some? then r.value.value else pool, s, e)
  {
    hide Network, Broadcast;
    if cidr.Cidr? && cidr.len <= 30 { RoomInside(cidr); }
    var startAddr, endAddr := Parse(pool.start), Parse(pool.end);
    var loaded := LoadCIDR(cidr);
    if loaded.Err? {
      return Err(CidrUnparsable);
    }
    var newPool := pool;
    if startAddr.None? {
      startAddr := Next(loaded.value.network);
      newPool := newPool.(start := Print(startAddr));
    }
    if endAddr.None? {
      endAddr := Prev(loaded.value.broadcast);
      newPool := newPool.(end := Print(endAddr));
    }
    if After(startAddr, endAddr) {
      return Err(RangeReversed);
    }
    return Ok(if newPool != pool then Some(newPool) else None);
  }

  /** The server field the mutator leaves behind: the given address, or the smallest that can serve. */
  ghost predicate ServerChosen(p: PoolConfig, server: AddrText)
    requires p.cidr.Cidr?
  {
    if p.server.Ip? then server == p.server
    else
      && server.Ip? && CanServe(p.cidr, p.router, p.exclude, server.addr)
      && forall a: Addr :: CanServe(p.cidr, p.router, p.exclude, a) ==> server.addr <= a
  }

  /** What the mutator turns `p` into, stated without its loops. */
  ghost predicate Defaulted(p: PoolConfig, q: PoolConfig) {
    && p.cidr.Cidr? && AllParse(p.exclude)
    && !After(DefaultStart(p.cidr, p.start), DefaultEnd(p.cidr, p.end))
    && q == p.(server := q.server,
               start := Print(DefaultStart(p.cidr, p.start)), end := Print(DefaultEnd(p.cidr, p.end)))
    && ServerChosen(p, q.server)
  }

  /** Mutator.Create, with the returned patch applied. */
  method MutateCreate(p: PoolConfig) returns (r: Result<PoolConfig, Refusal>)
    ensures r.Ok? ==> Defaulted(p, r.value)
    ensures r.Err? ==> forall q :: !Defaulted(p, q)
  {
    var server := EnsureServerIP(p.server, p.cidr, p.router, p.exclude);
    if server.Err? {
      return Err(server.error);
    }
    var pool := EnsurePoolRange(Range(p.start, p.end), p.cidr);
    if pool.Err? {
      return Err(pool.error);
    }
    var q := p;
    if pool.value.Some? {
      q := q.(start := pool.value.value.start, end := pool.value.value.end);
    }
    if server.value.Some? {
      q := q.(server := Ip(server.value.value));
    }
    return Ok(q);
  }

  // ---------------------------------------------------------------- validator

  /** util.PoolInfo. */
  datatype PoolInfo = PoolInfo(
    ipNet: IPNet, network: Addr, broadcast: Addr,
    start: Option<Addr>, end: Option<Addr>, server: Option<Addr>, router: Option<Addr>)

  function LoadPool(p: PoolConfig): Result<PoolInfo, Refusal> {
    if p.cidr.BadCidr? then Err(CidrUnparsable)
    else if p.start.Malformed? || p.end.Malformed? || p.server.Malformed? || p.router.Malformed? then
      Err(FieldUnparsable)
    else Ok(PoolInfo(NetOf(p.cidr), Network(p.cidr), Broadcast(p.cidr),
                     Parse(p.start), Parse(p.end), Parse(p.server), Parse(p.router)))
  }

  function CheckCIDR(services: CidrText, cidr: CidrText): Option<Refusal> {
    if cidr.BadCidr? then None
    else if services.BadCidr? then Some(CidrUnparsable)
    else if Contains(NetOf(cidr), Network(services)) || Contains(NetOf(services), Network(cidr)) then
      Some(OverlapsServices)
    else None
  }

  /** The three tests every address of the pool has to pass. */
  function CheckInside(pi: PoolInfo, a: Addr): Option<Refusal> {
    if !Contains(pi.ipNet, a) then Some(OutsideSubnet)
    else if a == pi.network then Some(IsNetworkAddress)
    else if a == pi.broadcast then Some(IsBroadcastAddress)
    else None
  }

  function CheckPoolRange(pi: PoolInfo): Option<Refusal> {
    if pi.start.Some? && CheckInside(pi, pi.start.value).Some? then CheckInside(pi, pi.start.value)
    else if pi.end.Some? then CheckInside(pi, pi.end.value)
    else None
  }

  function CheckServerIP(pi: PoolInfo, unallocatables: seq<Addr>): Option<Refusal> {
    if pi.server.None? then None
    else if CheckInside(pi, pi.server.value).Some? then CheckInside(pi, pi.server.value)
    else if pi.router.Some? && pi.server.value == pi.router.value then Some(ServerIsRouter)
    else if pi.server.value in unallocatables then Some(ServerOccupied)
    else None
  }

  function CheckRouter(pi: PoolInfo): Option<Refusal> {
    if pi.router.None? then None else CheckInside(pi, pi.router.value)
  }

  /** Validator.Create, after the network attachment definition was found. */
  function ValidateCreate(services: CidrText, p: PoolConfig): Option<Refusal> {
    var loaded := LoadPool(p);
    if loaded.Err? then Some(loaded.error)
    else if CheckCIDR(services, p.cidr).Some? then CheckCIDR(services, p.cidr)
    else if CheckPoolRange(loaded.value).Some? then CheckPoolRange(loaded.value)
    else if CheckServerIP(loaded.value, []).Some? then CheckServerIP(loaded.value, [])
    else CheckRouter(loaded.value)
  }

  // ---------------------------------------------------------------- what the webhook promises

  predicate Interior(c: CidrText, a: Addr)
    requires c.Cidr?
  {
    Network(c) < a < Broadcast(c)
  }

  /** No address belongs to both blocks. */
  ghost predicate Disjoint(c: CidrText, d: CidrText)
    requires c.Cidr? && d.Cidr?
  {
    !exists x: Addr :: InBlock(c, x) && InBlock(d, x)
  }

  /** A pool every controller can work with, stated on numbers only. */
  ghost predicate Sound(services: CidrText, q: PoolConfig) {
    && q.cidr.Cidr? && services.Cidr? && Disjoint(q.cidr, services)
    && q.start.Ip? && q.end.Ip? && q.server.Ip? && !q.router.Malformed? && AllParse(q.exclude)
    && Network(q.cidr) < q.start.addr <= q.end.addr < Broadcast(q.cidr)
    && Interior(q.cidr, q.server.addr) && q.server != q.router
    && (q.router.Ip? ==> Interior(q.cidr, q.router.addr))
  }

  /** checkCIDR accepts exactly the pools whose block is disjoint from the service block. */
  lemma CheckCIDRExact(services: CidrText, cidr: CidrText)
    requires cidr.Cidr?
    ensures CheckCIDR(services, cidr).None? <==> services.Cidr? && Disjoint(cidr, services)
  {
    if services.Cidr? { OverlapTest(cidr, services); }
  }

  lemma CheckInsideExact(p: PoolConfig, a: Addr)
    requires LoadPool(p).Ok?
    ensures CheckInside(LoadPool(p).value, a).None? <==> Interior(p.cidr, a)
  {
    hide Network, Broadcast, NetOf, Contains;
    ContainsMeans(p.cidr, a);
  }

  /** The server check, for any list of occupied addresses: a given server address passes exactly when it
      lies strictly inside the block and is neither the router nor occupied. */
  lemma CheckServerExact(p: PoolConfig, occupied: seq<Addr>)
    requires LoadPool(p).Ok?
    ensures CheckServerIP(LoadPool(p).value, occupied).None?
       <==> p.server.Unset? || (Interior(p.cidr, p.server.addr) && p.server != p.router && p.server.addr !in occupied)
  {
    hide Network, Broadcast, NetOf, Contains, CheckInside;
    if p.server.Ip? { CheckInsideExact(p, p.server.addr); }
  }

  /** The pipeline: of the pools the mutator lets through, the validator accepts exactly the sound
      ones, for every prefix length and at both ends of the address space. */
  lemma PipelineExact(services: CidrText, p: PoolConfig, q: PoolConfig)
    requires Defaulted(p, q)
    ensures ValidateCreate(services, q).None? <==> Sound(services, q)
  {
    hide Network, Broadcast, NetOf, Contains, CheckCIDR, CheckInside, Disjoint;
    CheckCIDRExact(services, q.cidr);
    if LoadPool(q).Ok? {
      if q.start.Ip? { CheckInsideExact(q, q.start.addr); }
      if q.end.Ip? { CheckInsideExact(q, q.end.addr); }
      if q.server.Ip? { CheckInsideExact(q, q.server.addr); }
      if q.router.Ip? { CheckInsideExact(q, q.router.addr); }
    }
  }

  /** Blocks with a prefix of 31 or 32 bits have no address strictly inside: they are never admitted. */
  lemma TinyBlocksRefused(services: CidrText, p: PoolConfig, q: PoolConfig)
    requires Defaulted(p, q) && p.cidr.len >= 31
    ensures ValidateCreate(services, q).Some?
  {
    PipelineExact(services, p, q);
    assert Shl(1, 1) == 2 && Shl(1, 0) == 1;
  }

  // ---------------------------------------------------------------- defaults, on numbers

  /** A block with a prefix of at most 30 bits has an address strictly inside. */
  lemma RoomInside(c: CidrText)
    requires c.Cidr? && c.len <= 30
    ensures Network(c) + 3 <= Broadcast(c)
  {
    BlockSize(c.len);
  }

  lemma {:induction false} ShlGrows(h: nat)
    requires h >= 2
    ensures Shl(1, h) >= 4
  {
    if h > 2 { ShlGrows(h - 1); }
  }

  lemma BlockSize(len: PrefixLen)
    requires len <= 30
    ensures Shl(1, 32 - len) >= 4
  {
    ShlGrows(32 - len);
  }

  /** The ends of the range that the mutator leaves behind: a given end stays; a missing one becomes the
      address next to the network, or to the broadcast address. */
  lemma DefaultRange(p: PoolConfig, q: PoolConfig)
    requires Defaulted(p, q) && p.cidr.len <= 30
    ensures q.start == if p.start.Ip? then p.start else Ip(Network(p.cidr) + 1)
    ensures q.end == if p.end.Ip? then p.end else Ip(Broadcast(p.cidr) - 1)
  {
    hide Network, Broadcast;
    RoomInside(p.cidr);
  }

  /** The smallest block has one address left for the server beside any router. */
  lemma SomeoneServes(c: CidrText, router: AddrText)
    requires c.Cidr? && c.len <= 30 && Network(c) + 3 <= Broadcast(c)
    ensures CanServe(c, router, [], if router == Ip(Network(c) + 1) then Network(c) + 2 else Network(c) + 1)
  {
    hide Network, Broadcast;
    RoomInside(c);
  }

  /** The pool a mutator makes of one that names only its block and a router: the server takes the first
      address that is not the router's, the range is all that lies strictly inside. */
  function PlainPool(c: CidrText, router: AddrText): PoolConfig
    requires c.Cidr? && c.len <= 30 && Network(c) + 3 <= Broadcast(c)
  {
    PoolConfig(c, Ip(if router == Ip(Network(c) + 1) then Network(c) + 2 else Network(c) + 1), router,
               Ip(Network(c) + 1), Ip(Broadcast(c) - 1), [])
  }

  /** Such a pool is defaulted in exactly one way, and is admitted if and only if its block is disjoint from
      the service block and the router, if there is one, lies strictly inside. */
  lemma PlainPoolsAdmitted(services: CidrText, c: CidrText, router: AddrText, q: PoolConfig)
    requires c.Cidr? && c.len <= 30
    ensures Network(c) + 3 <= Broadcast(c)
    ensures Defaulted(PoolConfig(c, Unset, router, Unset, Unset, []), q) <==> q == PlainPool(c, router)
    ensures ValidateCreate(services, PlainPool(c, router)).None? <==>
      && services.Cidr? && Disjoint(c, services)
      && (router == Unset || (router.Ip? && Interior(c, router.addr)))
  {
    hide Network, Broadcast, NetOf, Contains, Disjoint, ValidateCreate;
    RoomInside(c);
    SomeoneServes(c, router);
    var p, plain := PoolConfig(c, Unset, router, Unset, Unset, []), PlainPool(c, router);
    assert forall a: Addr :: CanServe(c, router, [], a) ==> plain.server.addr <= a;
    PipelineExact(services, p, plain);
  }

  /** Why an address is refused: it is not in the block, it is the network, or it is the broadcast address. */
  lemma RefusedBecause(p: PoolConfig, a: Addr)
    requires LoadPool(p).Ok?
    ensures var why := CheckInside(LoadPool(p).value, a);
      && (why == Some(OutsideSubnet) <==> a < Network(p.cidr) || Broadcast(p.cidr) < a)
      && (why == Some(IsNetworkAddress) <==> a == Network(p.cidr))
      && (why == Some(IsBroadcastAddress) <==> a == Broadcast(p.cidr) && a != Network(p.cidr))
  {
    hide Network, Broadcast, NetOf, Contains;
    ContainsMeans(p.cidr, a);
  }
}

/** The in-memory IP allocator: for every network, which addresses of its range are taken. */
module Ipam {
  import opened Basics
  import opened Prefix

  datatype IPSubnet = IPSubnet(ipNet: IPNet, start: Addr, end: Addr, broadcast: Addr, ips: map<Addr, bool>)

  type IpamState = map<NetName, IPSubnet>

  datatype IpamError =
    | UnknownNetwork | BadSubnet
    | NotInSubnet | IsBroadcast | AlreadyAllocated | Exhausted
    | EmptyAddress | NotFound | NotAllocated

  // ---------------------------------------------------------------- specification

  function Used(ips: map<Addr, bool>): set<Addr> {
    set a | a in ips && ips[a]
  }

  function Free(ips: map<Addr, bool>): set<Addr> {
    set a | a in ips && !ips[a]
  }

  /** The addresses from start to end, both included. */
  function Addresses(start: nat, end: Addr): (r: set<Addr>)
    ensures forall a: Addr :: a in r <==> start <= a <= end
    decreases end - start
  {
    if start > end then {} else {start} + Addresses(start + 1, end)
  }

  /** The arguments NewIPSubnet accepts. */
  predicate Buildable(cidr: CidrText, start: AddrText, end: AddrText)
    ensures Buildable(cidr, start, end) ==> cidr.Cidr? && start.Ip? && end.Ip?
  {
    && cidr.Cidr? && start.Ip? && end.Ip?
    && InBlock(cidr, start.addr) && InBlock(cidr, end.addr)
    && start.addr <= end.addr && end.addr != Broadcast(cidr)
  }

  /** The subnet it builds: every address from start to end, all free. */
  function Built(cidr: CidrText, start: Addr, end: Addr): IPSubnet
    requires cidr.Cidr?
  {
    IPSubnet(NetOf(cidr), start, end, Broadcast(cidr), map a | a in Addresses(start, end) :: false)
  }

  /** No particular address is asked for: an empty string, or 0.0.0.0. */
  predicate Unspecified(t: AddrText) {
    t.Unset? || t == Ip(0)
  }

  /** AllocateIP(name, t) may hand out `a`. */
  predicate CanTake(ipam: IpamState, name: NetName, t: AddrText, a: Addr) {
    && name in ipam && a in ipam[name].ips && !ipam[name].ips[a]
    && (Unspecified(t) || (t == Ip(a) && Contains(ipam[name].ipNet, a) && a != ipam[name].broadcast))
  }

  function Marked(ipam: IpamState, name: NetName, a: Addr, taken: bool): IpamState
    requires name in ipam
  {
    ipam[name := ipam[name].(ips := ipam[name].ips[a := taken])]
  }

  function Revoked(ipam: IpamState, name: NetName, t: AddrText): IpamState
    requires name in ipam
  {
    if t.Ip? then ipam[name := ipam[name].(ips := ipam[name].ips - {t.addr})] else ipam
  }

  predicate Holds(ipam: IpamState, name: NetName, t: AddrText) {
    name in ipam && t.Ip? && t.addr in ipam[name].ips
  }

  // ---------------------------------------------------------------- the allocator

  /** ::ffff:0:0, the base of the IPv4-mapped addresses that NewIPSubnet steps through: net.ParseIP
      yields 16 bytes, so Next and Prev do not stop at the ends of the IPv4 space there. */
  const MAPPED: int := 0xFFFF_0000_0000

  class IPAllocator {
    var ipam: IpamState

    constructor ()
      ensures ipam == map[]
    {
      ipam := map[];
    }

    method NewIPSubnet(name: NetName, cidr: CidrText, start: AddrText, end: AddrText) returns (ok: bool)
      modifies this
      ensures ok <==> Buildable(cidr, start, end)
      ensures ok ==> ipam == old(ipam)[name := Built(cidr, start.addr, end.addr)]
      ensures !ok ==> ipam == old(ipam)
    {
      hide Network, Broadcast, NetOf, Contains;
      if cidr.BadCidr? {
        return false;
      }
      var ipNet := NetOf(cidr);
      var broadcast := FillHostBits(ToOctets(cidr.host), ipNet.mask);
      BroadcastFromEither(cidr);
      if start.Ip? { ContainsMeans(cidr, start.addr); }
      if !start.Ip? || !Contains(ipNet, start.addr) {
        return false;
      }
      if end.Ip? { ContainsMeans(cidr, end.addr); }
      if !end.Ip? || !Contains(ipNet, end.addr) {
        return false;
      }
      var startAddr, endAddr := MAPPED + start.addr, MAPPED + end.addr;
      if startAddr > endAddr || end.addr == Value(broadcast) {
        return false;
      }
      var ips: map<Addr, bool> := map[];
      var ip := startAddr;
      while endAddr > ip - 1
        invariant startAddr <= ip <= endAddr + 1
        invariant forall a: Addr :: a in ips <==> start.addr <= a < ip - MAPPED
        invariant forall a: Addr :: a in ips ==> !ips[a]
        decreases endAddr + 1 - ip
      {
        ips := ips[ip - MAPPED := false];
        ip := ip + 1;
      }
      ipam := ipam[name := IPSubnet(ipNet, start.addr, end.addr, Value(broadcast), ips)];
      assert ips == Built(cidr, start.addr, end.addr).ips;
      return true;
    }

    method DeleteIPSubnet(name: NetName)
      modifies this
      ensures ipam == old(ipam) - {name}
    {
      ipam := ipam - {name};
    }

    predicate IsNetworkInitialized(name: NetName)
      reads this
    {
      name in ipam
    }

    method AllocateIP(name: NetName, t: AddrText) returns (r: Result<Addr, IpamError>)
      modifies this
      ensures r.Ok? ==> CanTake(old(ipam), name, t, r.value) && ipam == Marked(old(ipam), name, r.value, true)
      ensures r.Err? ==> ipam == old(ipam) && forall a :: !CanTake(ipam, name, t, a)
      ensures r == Err(UnknownNetwork) <==> name !in old(ipam)
    {
      hide Contains;
      if name !in ipam {
        return Err(UnknownNetwork);
      }
      if !Unspecified(t) {
        if t.Malformed? || !Contains(ipam[name].ipNet, t.addr) {
          return Err(NotInSubnet);
        }
        if ipam[name].broadcast == t.addr {
          return Err(IsBroadcast);
        }
      }
      var rest := ipam[name].ips.Keys;
      while rest != {}
        invariant ipam == old(ipam)
        invariant rest <= ipam[name].ips.Keys
        invariant forall a :: CanTake(ipam, name, t, a) ==> a in rest
        decreases rest
      {
        var ip :| ip in rest;
        if !Unspecified(t) {
          if ip == t.addr {
            if ipam[name].ips[ip] {
              return Err(AlreadyAllocated);
            } else {
              ipam := Marked(ipam, name, ip, true);
              return Ok(ip);
            }
          }
        } else if !ipam[name].ips[ip] {
          ipam := Marked(ipam, name, ip, true);
          return Ok(ip);
        }
        rest := rest - {ip};
      }
      return Err(Exhausted);
    }

    method DeallocateIP(name: NetName, t: AddrText) returns (r: Result<(), IpamError>)
      modifies this
      ensures r.Ok? <==> Holds(old(ipam), name, t) && old(ipam)[name].ips[t.addr]
      ensures r.Ok? ==> ipam == Marked(old(ipam), name, t.addr, false)
      ensures r.Err? ==> ipam == old(ipam)
    {
      if name !in ipam {
        return Err(UnknownNetwork);
      }
      if t.Unset? {
        return Err(EmptyAddress);
      }
      if t.Malformed? || t.addr !in ipam[name].ips {
        return Err(NotFound);
      }
      if !ipam[name].ips[t.addr] {
        return Err(NotAllocated);
      }
      ipam := Marked(ipam, name, t.addr, false);
      return Ok(());
    }

    method RevokeIP(name: NetName, t: AddrText) returns (r: Result<(), IpamError>)
      modifies this
      ensures r.Ok? <==> name in old(ipam)
      ensures r.Ok? ==> ipam == Revoked(old(ipam), name, t)
      ensures r.Err? ==> ipam == old(ipam)
    {
      if name !in ipam {
        return Err(UnknownNetwork);
      }
      if t.Ip? {
        ipam := ipam[name := ipam[name].(ips := ipam[name].ips - {t.addr})];
      }
      return Ok(());
    }

    method IsAllocated(name: NetName, t: AddrText) returns (r: Result<bool, IpamError>)
      ensures r.Ok? <==> Holds(ipam, name, t)
      ensures r.Ok? ==> r.value == ipam[name].ips[t.addr]
    {
      if name !in ipam {
        return Err(UnknownNetwork);
      }
      if !t.Ip? || t.addr !in ipam[name].ips {
        return Err(NotFound);
      }
      return Ok(ipam[name].ips[t.addr]);
    }

    method GetUsed(name: NetName) returns (r: Result<nat, IpamError>)
      ensures r.Ok? <==> name in ipam
      ensures r.Ok? ==> r.value == |Used(ipam[name].ips)|
    {
      if name !in ipam {
        return Err(UnknownNetwork);
      }
      var used := Count(ipam[name].ips, true);
      return Ok(used);
    }

    method GetAvailable(name: NetName) returns (r: Result<nat, IpamError>)
      ensures r.Ok? <==> name in ipam
      ensures r.Ok? ==> r.value == |Free(ipam[name].ips)|
    {
      if name !in ipam {
        return Err(UnknownNetwork);
      }
      var available := Count(ipam[name].ips, false);
      return Ok(available);
    }
  }

  /** Counts the addresses in one of the two states, in any order. */
  method Count(ips: map<Addr, bool>, state: bool) returns (n: nat)
    ensures n == |set a | a in ips && ips[a] == state|
    ensures state ==> n == |Used(ips)|
    ensures !state ==> n == |Free(ips)|
  {
    n := 0;
    var rest := ips.Keys;
    ghost var seen: set<Addr> := {};
    while rest != {}
      invariant rest <= ips.Keys
      invariant seen == set a | a in ips && a !in rest && ips[a] == state
      invariant n == |seen|
      decreases rest
    {
      var ip :| ip in rest;
      if ips[ip] == state {
        n := n + 1;
        seen := seen + {ip};
      }
      rest := rest - {ip};
    }
    assert seen == set a | a in ips && ips[a] == state;
    assert state ==> seen == Used(ips);
    assert !state ==> seen == Free(ips);
  }

  // ---------------------------------------------------------------- laws

  /** Marking an address with the state it is in changes nothing. */
  lemma MarkedSame(ipam: IpamState, name: NetName, a: Addr)
    requires name in ipam && a in ipam[name].ips
    ensures Marked(ipam, name, a, ipam[name].ips[a]) == ipam
  {
    assert ipam[name].ips[a := ipam[name].ips[a]] == ipam[name].ips;
  }

  /** Every address is either used or free. */
  lemma UsedPlusFree(ips: map<Addr, bool>)
    ensures |Used(ips)| + |Free(ips)| == |ips|
  {
    assert Used(ips) !! Free(ips);
    assert Used(ips) + Free(ips) == ips.Keys;
    assert |Used(ips) + Free(ips)| == |Used(ips)| + |Free(ips)|;
  }

  /** An undesignated allocation finds an address exactly while some address is free. */
  lemma ExhaustedExactly(ipam: IpamState, name: NetName, t: AddrText)
    requires name in ipam && Unspecified(t)
    ensures (forall a :: !CanTake(ipam, name, t, a)) <==> |Free(ipam[name].ips)| == 0
  {
    if |Free(ipam[name].ips)| != 0 {
      var a :| a in Free(ipam[name].ips);
      assert CanTake(ipam, name, t, a);
    } else {
      forall a ensures !CanTake(ipam, name, t, a) {
        assert a !in Free(ipam[name].ips);
      }
    }
  }

  /** A range holds end - start + 1 addresses. */
  lemma {:induction false} AddressesSize(start: nat, end: Addr)
    requires start <= end + 1
    ensures |Addresses(start, end)| == end + 1 - start
    decreases end - start
  {
    if start <= end {
      AddressesSize(start + 1, end);
      var rest := Addresses(start + 1, end);
      assert start !in rest;
      assert |{start} + rest| == 1 + |rest|;
    }
  }
}

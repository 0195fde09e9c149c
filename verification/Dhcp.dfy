/** The agent's DHCP lease table and the address a request is answered with. */
module Dhcp {
  import opened Basics
  import opened Prefix

  datatype DHCPLease = DHCPLease(
    serverIP: Option<Addr>, clientIP: Option<Addr>, subnetMask: Octets, router: Option<Addr>, leaseTime: int)

  type LeaseTable = map<Mac, DHCPLease>

  datatype LeaseError = BadHardwareAddress | LeaseExists | BadNetwork | NoLease

  datatype MessageType = Discover | Request | OtherMessage

  datatype ReplyType = Offer | Ack

  datatype Packet = Packet(bootRequest: bool, hwAddr: Mac, message: MessageType)

  datatype Reply = Reply(
    kind: ReplyType, hwAddr: Mac, yourIP: Addr, clientIP: Addr, serverIP: Option<Addr>,
    subnetMask: Octets, router: Option<Addr>, leaseTime: int)

  /** net.ParseIP: no address for text that does not parse. */
  function ParseIP(t: AddrText): Option<Addr> {
    if t.Ip? then Some(t.addr) else None
  }

  /** One year, in seconds. */
  const DEFAULT_LEASE_TIME := 31536000

  /** The address a client with hardware address `hw` is given, if any. */
  function AnswerFor(leases: LeaseTable, hw: Mac): Option<Addr> {
    if hw in leases then leases[hw].clientIP else None
  }

  /** The lease that AddLease builds. */
  function NewLease(server: AddrText, client: AddrText, cidr: CidrText, router: AddrText,
                    leaseTime: Option<int>): DHCPLease
    requires cidr.Cidr?
  {
    DHCPLease(ParseIP(server), ParseIP(client), NetOf(cidr).mask, ParseIP(router),
              if leaseTime.Some? then leaseTime.value else 0)
  }

  /** The reply carries the terms of the lease; a lease without a positive lease time is good for a year. */
  predicate Carries(reply: Reply, lease: DHCPLease) {
    && reply.serverIP == lease.serverIP && reply.subnetMask == lease.subnetMask && reply.router == lease.router
    && reply.leaseTime == (if lease.leaseTime > 0 then lease.leaseTime else 31536000)
  }

  class DHCPAllocator {
    var leases: LeaseTable

    constructor ()
      ensures leases == map[]
    {
      leases := map[];
    }

    method AddLease(hwAddr: Mac, server: AddrText, client: AddrText, cidr: CidrText, router: AddrText,
                    leaseTime: Option<int>)
      returns (r: Result<(), LeaseError>)
      modifies this
      ensures r == Err(BadHardwareAddress) <==> hwAddr.BadMac?
      ensures r == Err(LeaseExists) <==> hwAddr.Hw? && hwAddr in old(leases)
      ensures r == Err(BadNetwork) <==> hwAddr.Hw? && hwAddr !in old(leases) && cidr.BadCidr?
      ensures r.Ok? <==> hwAddr.Hw? && hwAddr !in old(leases) && cidr.Cidr?
      ensures r.Ok? ==> leases == old(leases)[hwAddr := NewLease(server, client, cidr, router, leaseTime)]
      ensures r.Err? ==> leases == old(leases)
    {
      if hwAddr.BadMac? {
        return Err(BadHardwareAddress);
      }
      if hwAddr in leases {
        return Err(LeaseExists);
      }
      if cidr.BadCidr? {
        return Err(BadNetwork);
      }
      var lease := DHCPLease(ParseIP(server), ParseIP(client), NetOf(cidr).mask, ParseIP(router), 0);
      if leaseTime.Some? {
        lease := lease.(leaseTime := leaseTime.value);
      }
      leases := leases[hwAddr := lease];
      return Ok(());
    }

    /** The client address of the lease is what a request of this client is answered with; storing the
        lease again, or deleting a missing one, would change nothing. */
    method GetLease(hwAddr: Mac) returns (lease: Option<DHCPLease>)
      ensures AnswerFor(leases, hwAddr) == (if lease.Some? then lease.value.clientIP else None)
      ensures leases == if lease.Some? then leases[hwAddr := lease.value] else leases - {hwAddr}
    {
      lease := if hwAddr in leases then Some(leases[hwAddr]) else None;
    }

    method DeleteLease(hwAddr: Mac) returns (r: Result<(), LeaseError>)
      modifies this
      ensures r.Ok? <==> hwAddr in old(leases)
      ensures r.Ok? ==> leases == old(leases) - {hwAddr}
      ensures r.Err? ==> r == Err(NoLease) && leases == old(leases)
    {
      if hwAddr !in leases {
        return Err(NoLease);
      }
      leases := leases - {hwAddr};
      return Ok(());
    }

    /** dhcpHandler: a boot request of a known client is answered with its leased address. */
    method Handle(m: Option<Packet>) returns (reply: Option<Reply>)
      ensures reply.Some? <==>
        && m.Some? && m.value.bootRequest && m.value.message != OtherMessage
        && AnswerFor(leases, m.value.hwAddr).Some?
      ensures reply.Some? ==>
        && reply.value.hwAddr == m.value.hwAddr
        && AnswerFor(leases, m.value.hwAddr) == Some(reply.value.yourIP) && reply.value.clientIP == reply.value.yourIP
        && Carries(reply.value, leases[m.value.hwAddr])
        && reply.value.kind == (if m.value.message == Discover then Offer else Ack)
    {
      if m.None? || !m.value.bootRequest {
        return None;
      }
      if m.value.hwAddr !in leases {
        return None;
      }
      var lease := leases[m.value.hwAddr];
      if lease.clientIP.None? {
        return None;
      }
      var time := if lease.leaseTime > 0 then lease.leaseTime else DEFAULT_LEASE_TIME;
      var kind;
      match m.value.message {
        case Discover => kind := Offer;
        case Request => kind := Ack;
        case OtherMessage => return None;
      }
      return Some(Reply(kind, m.value.hwAddr, lease.clientIP.value, lease.clientIP.value,
                        lease.serverIP, lease.subnetMask, lease.router, time));
    }
  }
}

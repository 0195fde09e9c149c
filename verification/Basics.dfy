/** Values shared by every component: addresses as they appear in API objects,
    hardware addresses, object names and the outcomes of fallible calls. */
module Basics {

  datatype Option<+T> = None | Some(value: T)

  /** A call either yields a value or fails for a stated reason. */
  datatype Result<+T, +E> = Ok(value: T) | Err(error: E)

  const ADDRESS_SPACE: int := 0x1_0000_0000

  /** An IPv4 address, as the number its four octets spell. */
  type Addr = a: int | 0 <= a < 0x1_0000_0000

  /** A string field that should hold an IPv4 address: left empty, unparsable, or parsed. */
  datatype AddrText = Unset | Malformed | Ip(addr: Addr)

  /** A hardware address string: `Hw` is one that net.ParseMAC accepts, in canonical
      spelling; `BadMac` is one that it refuses (the empty string included). */
  datatype Mac = Hw(octets: seq<nat>) | BadMac(text: string)

  /** The name of a network attachment definition; every IPPool serves one. */
  datatype NetName = NetName(text: string)

  /** Namespace and name of a VirtualMachineNetworkConfig. */
  datatype Key = Key(namespace: string, name: string)

  /** A status condition: absent (or Unknown), True or False. */
  datatype Cond = Absent | True | False

  /** What is recorded against an address in IPPool.Status.IPv4.Allocated. */
  datatype Rec = MacRec(mac: Mac) | Excluded | Reserved
}

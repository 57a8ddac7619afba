/** Socket addresses and the blocks the copies of result lists point to (src/libc/sys/socket.c,
    src/libc/ifaddrs.c). */
module Sockaddr {

  const LINUX_PF_INET: nat := 2
  const LINUX_PF_INET6: nat := 10
  const LINUX_AF_PACKET: nat := 17

  /** A native address, by its family: AF_INET, AF_INET6, AF_LINK, or one the shim does not know. */
  datatype NativeAddress =
    | In(port: nat, addr4: nat, zero: seq<nat>)
    | In6(port: nat, flowinfo: nat, addr6: seq<nat>, scope: nat)
    | Dl(index: nat)
    | Unknown(family: nat)

  datatype LinuxAddress =
    | LinuxIn(port: nat, addr4: nat, zero: seq<nat>)
    | LinuxIn6(port: nat, flowinfo: nat, addr6: seq<nat>, scope: nat)
    | LinuxLl(protocol: nat, ifindex: nat, hatype: nat, pkttype: nat, halen: nat, addr: seq<nat>)

  function Family(a: LinuxAddress): nat {
    match a
    case LinuxIn(_, _, _) => LINUX_PF_INET
    case LinuxIn6(_, _, _, _) => LINUX_PF_INET6
    case LinuxLl(_, _, _, _, _, _) => LINUX_AF_PACKET
  }

  /** sizeof the Linux structure */
  function Length(a: LinuxAddress): nat {
    match a
    case LinuxIn(_, _, _) => 16
    case LinuxIn6(_, _, _, _) => 28
    case LinuxLl(_, _, _, _, _, _) => 20
  }

  /** native_to_linux_sockaddr_in, _in6 and _dl */
  function TranslateAddress(a: NativeAddress): LinuxAddress
    requires !a.Unknown?
  {
    match a
    case In(port, addr4, zero) => LinuxIn(port, addr4, zero)
    case In6(port, flowinfo, addr6, scope) => LinuxIn6(port, flowinfo, addr6, scope)
    case Dl(index) => LinuxLl(0, index, 0, 0, 0, [0, 0, 0, 0, 0, 0, 0, 0])
  }

  /** Both name the same endpoint, or the same link: the Linux side says so under its own family number, in a structure
      of its own length. */
  predicate SameAddress(a: NativeAddress, l: LinuxAddress) {
    match (a, l)
    case (In(port, addr4, zero), LinuxIn(port', addr4', zero')) =>
      port' == port && addr4' == addr4 && zero' == zero && Family(l) == 2 && Length(l) == 16
    case (In6(port, flowinfo, addr6, scope), LinuxIn6(port', flowinfo', addr6', scope')) =>
      && port' == port && flowinfo' == flowinfo && addr6' == addr6 && scope' == scope
      && Family(l) == 10 && Length(l) == 28
    case (Dl(index), LinuxLl(protocol, ifindex, hatype, pkttype, halen, addr)) =>
      && ifindex == index && protocol == hatype == pkttype == halen == 0 && addr == [0, 0, 0, 0, 0, 0, 0, 0]
      && Family(l) == 17 && Length(l) == 20
    case _ => false
  }

  lemma TranslatedIsSame(a: NativeAddress)
    requires !a.Unknown?
    ensures SameAddress(a, TranslateAddress(a))
  {
  }

  class AddressBlock {
    const address: LinuxAddress

    constructor (address: LinuxAddress)
      ensures this.address == address
    {
      this.address := address;
    }
  }

  class StringBlock {
    const text: string

    constructor (text: string)
      ensures this.text == text
    {
      this.text := text;
    }
  }
}

/** Values of the libnl objects the daemon handles. */
module Libnl {
  import opened Bits
  import opened Wrappers

  datatype Family = INET | INET6

  /** An nl_addr: `prefixLen` is part of its identity (nl_addr_cmp compares it). */
  datatype Address = Address(family: Family, octets: seq<int>, prefixLen: nat)

  datatype Nexthop = Nexthop(gateway: Option<Address>, ifindex: int)

  const RT_TABLE_MAIN := 254
  const RTPROT_STATIC := 4

  datatype Route = Route(family: Family, table: int, protocol: int, dst: Option<Address>,
                         nexthops: seq<Nexthop>, priority: uint32)

  function FirstNexthop(r: Route): Option<Nexthop> {
    if r.nexthops == [] then None else Some(r.nexthops[0])
  }
}

/** The FlatNetworkIP and FlatNetworkSubnet objects (pkg/apis/flatnetwork.pandaria.io/v1/types.go). */
module Objects {
  import opened Options
  import opened Ranges
  import opened Blocks
  import opened Macs

  type Name = string

  datatype IPPhase = IPInit | IPPending | IPActive | IPFailed

  /** addrs and macs are the specification (None: not an IP address), the rest is status.
      deleting: the deletion timestamp is set. */
  datatype IPObject = IPObject(
    addrs: seq<Option<Addr>>,
    macs: seq<MAC>,
    addr: Option<Addr>,
    mac: Option<MAC>,
    phase: IPPhase,
    deleting: bool)

  datatype SubnetPhase = SubnetInit | SubnetActive | SubnetFailed

  datatype SubnetSpec = SubnetSpec(net: Net, ranges: seq<IPRange>, gateway: Option<Addr>)

  /** Specification and status of a subnet; gateway is the one in the status. */
  datatype SubnetObject = SubnetObject(
    spec: SubnetSpec,
    phase: SubnetPhase,
    usedIP: seq<IPRange>,
    usedIPCount: int,
    usedMAC: seq<MAC>,
    gateway: Option<Addr>)

  /** What the handler that holds the subnet lock has in its local variables: nothing, the
      address and MAC it chose for an IP object, these and the subnet as it wrote it, or the
      addresses that a self check has counted. */
  datatype Pending =
    | Nothing
    | Chosen(name: Name, addr: Addr, mac: Option<MAC>)
    | Committed(name: Name, addr: Addr, mac: Option<MAC>, saved: SubnetObject)
    | Checking(counted: seq<Addr>)

  predicate HasChoice(p: Pending) { p.Chosen? || p.Committed? }

  /** A subnet, the IP objects that name it, and the handler under its lock. released: the
      objects whose address their removal handler has freed while their finalizer is still
      there. */
  datatype State = State(
    subnet: SubnetObject,
    ips: map<Name, IPObject>,
    released: set<Name>,
    pending: Pending)
}

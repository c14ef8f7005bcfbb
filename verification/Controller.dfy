/** The allocation state machine of one subnet
(pkg/controller/flatnetworkip and pkg/controller/flatnetworksubnet).

An event is one write to one object, or one choice made from what is stored; the handler
that holds the subnet lock goes from one to the next, and users, the CNI plugin and
handlers that take no lock may write in between. Apply gives the effect of an event.
*/
module Controller {
  import opened Options
  import opened Ranges
  import opened Blocks
  import opened Macs
  import opened Allocator
  import opened Objects
  import opened SelfCheck

  // ----- choosing an address and a MAC -----

  predicate AlreadyAllocatedIP(spec: SubnetSpec, ip: IPObject) {
    && ip.addr.Some?
    && if ip.addrs == [] then Contains(spec.net, ip.addr.value) else ip.addr in ip.addrs
  }

  predicate AlreadyAllocatedMAC(ip: IPObject) {
    ip.macs == [] || (ip.mac.Some? && ip.mac.value in ip.macs)
  }

  /** The first requested address that lies in the ranges and is unused. */
  function FirstListed(addrs: seq<Option<Addr>>, ranges: seq<IPRange>, used: seq<IPRange>): Outcome {
    if addrs == [] || addrs[0].None? then NoAvailable
    else if ranges != [] && !Covers(ranges, addrs[0].value) then FirstListed(addrs[1..], ranges, used)
    else if !Covers(used, addrs[0].value) then Found(addrs[0].value)
    else FirstListed(addrs[1..], ranges, used)
  }

  function AllocateIP(spec: SubnetSpec, ip: IPObject, used: seq<IPRange>): Outcome
    requires Valid(spec.net)
  {
    if AlreadyAllocatedIP(spec, ip) then Found(ip.addr.value)
    else if ip.addrs == [] then GetAvailable(spec.net, spec.ranges, used)
    else FirstListed(ip.addrs, spec.ranges, used)
  }

  datatype MACOutcome = MACFound(mac: Option<MAC>) | MACNotAvailable

  function FirstUnusedMAC(macs: seq<MAC>, used: seq<MAC>): MACOutcome {
    if macs == [] then MACNotAvailable
    else if macs[0] !in used then MACFound(Some(macs[0]))
    else FirstUnusedMAC(macs[1..], used)
  }

  function AllocateMAC(ip: IPObject, used: seq<MAC>): MACOutcome {
    if ip.macs == [] then MACFound(None)
    else if AlreadyAllocatedMAC(ip) then MACFound(ip.mac)
    else FirstUnusedMAC(ip.macs, used)
  }

  predicate Eligible(addr: Option<Addr>, ranges: seq<IPRange>, used: seq<IPRange>) {
    addr.Some? && (ranges == [] || Covers(ranges, addr.value)) && !Covers(used, addr.value)
  }

  /** Specific mode takes the first eligible address, unless an entry that is no
      address stands before it. */
  lemma {:induction false} FirstListedExact(addrs: seq<Option<Addr>>, ranges: seq<IPRange>, used: seq<IPRange>)
    returns (i: nat)
    ensures i <= |addrs|
    ensures forall j :: 0 <= j < i ==> addrs[j].Some? && !Eligible(addrs[j], ranges, used)
    ensures match FirstListed(addrs, ranges, used)
            case Found(a) => i < |addrs| && addrs[i] == Some(a) && Eligible(addrs[i], ranges, used)
            case NoAvailable => i < |addrs| ==> addrs[i].None?
            case Loops => false
  {
    if addrs == [] || addrs[0].None? || Eligible(addrs[0], ranges, used) {
      i := 0;
    } else {
      var k := FirstListedExact(addrs[1..], ranges, used);
      i := k + 1;
      forall j | 0 <= j < i ensures addrs[j].Some? && !Eligible(addrs[j], ranges, used) {
        if j > 0 { assert addrs[j] == addrs[1..][j - 1]; }
      }
    }
  }

  /** The first listed MAC that is unused; failure exactly when all are used. */
  lemma {:induction false} FirstUnusedMACExact(macs: seq<MAC>, used: seq<MAC>) returns (i: nat)
    ensures i <= |macs| && forall j :: 0 <= j < i ==> macs[j] in used
    ensures FirstUnusedMAC(macs, used) ==
            if i < |macs| then MACFound(Some(macs[i])) else MACNotAvailable
    ensures i < |macs| ==> macs[i] !in used
  {
    if macs == [] || macs[0] !in used {
      i := 0;
    } else {
      var k := FirstUnusedMACExact(macs[1..], used);
      i := k + 1;
      forall j | 0 <= j < i ensures macs[j] in used {
        if j > 0 { assert macs[j] == macs[1..][j - 1]; }
      }
    }
  }

  /** An allocated address is the one already held or one that is unused. */
  lemma AllocatedIsOwnOrUnused(spec: SubnetSpec, ip: IPObject, used: seq<IPRange>)
    requires Valid(spec.net)
    ensures match AllocateIP(spec, ip, used)
            case Found(a) => if AlreadyAllocatedIP(spec, ip) then ip.addr == Some(a) else !Covers(used, a)
            case _ => true
  {
    AvailableExact(spec.net, spec.ranges, used);
    var i := FirstListedExact(ip.addrs, spec.ranges, used);
  }

  // ----- the outcome, on the fields of the object -----

  /** Auto mode: the unused candidate that comes before all others. */
  ghost predicate FirstVacant(spec: SubnetSpec, used: seq<IPRange>, o: Outcome) {
    match o
    case Found(a) =>
      && Vacant(spec.net, spec.ranges, used, a)
      && forall c: Addr :: Vacant(spec.net, spec.ranges, used, c) ==> c == a || Before(spec.ranges, a, c)
    case NoAvailable => !EndsAtLast(spec.ranges) && forall c: Addr :: !Vacant(spec.net, spec.ranges, used, c)
    case Loops => EndsAtLast(spec.ranges) && forall c: Addr :: !Vacant(spec.net, spec.ranges, used, c)
  }

  /** Specific mode: the first eligible entry, if only addresses that are not eligible stand
      before it. */
  ghost predicate FirstEligible(addrs: seq<Option<Addr>>, ranges: seq<IPRange>, used: seq<IPRange>, o: Outcome) {
    match o
    case Found(a) =>
      exists i :: 0 <= i < |addrs| && addrs[i] == Some(a) && Eligible(addrs[i], ranges, used)
        && forall j :: 0 <= j < i ==> addrs[j].Some? && !Eligible(addrs[j], ranges, used)
    case NoAvailable =>
      forall i :: 0 <= i < |addrs| && Eligible(addrs[i], ranges, used) ==> exists j :: 0 <= j < i && addrs[j].None?
    case Loops => false
  }

  ghost predicate AllocatedAs(spec: SubnetSpec, ip: IPObject, used: seq<IPRange>, o: Outcome) {
    if ip.addr.Some? && (if ip.addrs == [] then spec.net.first <= ip.addr.value <= Last(spec.net) else ip.addr in ip.addrs)
    then o == Found(ip.addr.value)
    else if ip.addrs == [] then FirstVacant(spec, used, o)
    else FirstEligible(ip.addrs, spec.ranges, used, o)
  }

  lemma AllocateIPExact(spec: SubnetSpec, ip: IPObject, used: seq<IPRange>)
    requires Valid(spec.net)
    ensures AllocatedAs(spec, ip, used, AllocateIP(spec, ip, used))
  {
    if !AlreadyAllocatedIP(spec, ip) {
      if ip.addrs == [] {
        GetAvailableIsFirst(spec, used);
      } else {
        FirstListedIsFirst(ip.addrs, spec.ranges, used);
      }
    }
  }

  lemma GetAvailableIsFirst(spec: SubnetSpec, used: seq<IPRange>)
    requires Valid(spec.net)
    ensures FirstVacant(spec, used, GetAvailable(spec.net, spec.ranges, used))
  {
    AvailableExact(spec.net, spec.ranges, used);
    var o := GetAvailable(spec.net, spec.ranges, used);
    if o.Found? {
      forall c: Addr | Vacant(spec.net, spec.ranges, used, c) ensures c == o.addr || Before(spec.ranges, o.addr, c) {
        AvailableIsFirst(spec.net, spec.ranges, used, c);
      }
    }
  }

  lemma FirstListedIsFirst(addrs: seq<Option<Addr>>, ranges: seq<IPRange>, used: seq<IPRange>)
    ensures FirstEligible(addrs, ranges, used, FirstListed(addrs, ranges, used))
  {
    var i := FirstListedExact(addrs, ranges, used);
    if FirstListed(addrs, ranges, used).NoAvailable? {
      forall k | 0 <= k < |addrs| && Eligible(addrs[k], ranges, used) ensures exists j :: 0 <= j < k && addrs[j].None? {
        assert k >= i && addrs[i].None?;
      }
    }
  }

  /** The fields leave no choice. */
  lemma AllocationIsDetermined(spec: SubnetSpec, ip: IPObject, used: seq<IPRange>, o: Outcome, p: Outcome)
    requires AllocatedAs(spec, ip, used, o) && AllocatedAs(spec, ip, used, p)
    ensures o == p
  {
  }

  ghost predicate MACAllocatedAs(ip: IPObject, used: seq<MAC>, o: MACOutcome) {
    if ip.macs == [] then o == MACFound(None)
    else if ip.mac.Some? && ip.mac.value in ip.macs then o == MACFound(ip.mac)
    else
      match o
      case MACFound(mac) =>
        exists i :: 0 <= i < |ip.macs| && mac == Some(ip.macs[i]) && ip.macs[i] !in used && forall j :: 0 <= j < i ==> ip.macs[j] in used
      case MACNotAvailable => forall i :: 0 <= i < |ip.macs| ==> ip.macs[i] in used
  }

  lemma AllocateMACExact(ip: IPObject, used: seq<MAC>)
    ensures MACAllocatedAs(ip, used, AllocateMAC(ip, used))
  {
    var i := FirstUnusedMACExact(ip.macs, used);
  }

  /** What was allocated stays: whatever is used later, the object with the address, and with
      the MAC if it asked for one, is given these again, and is not reset once it is active. */
  lemma AllocationSettles(spec: SubnetSpec, ip: IPObject, used: seq<IPRange>, usedMAC: seq<MAC>, mac: Option<MAC>,
                          later: SubnetObject, st: State, n: Name)
    requires Valid(spec.net) && AllocateIP(spec, ip, used).Found? && AllocateMAC(ip, usedMAC).MACFound?
    requires ip.macs != [] ==> mac == AllocateMAC(ip, usedMAC).mac
    requires later.spec == spec && ValidState(st)
    ensures var settled := ip.(addr := Some(AllocateIP(spec, ip, used).addr), mac := mac, phase := IPActive);
            && AllocateIP(spec, settled, later.usedIP) == AllocateIP(spec, ip, used)
            && AllocateMAC(settled, later.usedMAC) == AllocateMAC(ip, usedMAC)
            && Apply(st, ResetIP(n, settled, later)) == st
  {
    AllocateIPExact(spec, ip, used);
    AllocateMACExact(ip, usedMAC);
  }

  // ----- writes to the subnet status -----

  function TakeAddr(sub: SubnetObject, a: Addr): SubnetObject {
    if Covers(sub.usedIP, a) then sub
    else sub.(usedIP := Add(a, sub.usedIP), usedIPCount := sub.usedIPCount + 1)
  }

  function DropAddr(sub: SubnetObject, addr: Option<Addr>): SubnetObject {
    if addr.Some? && Covers(sub.usedIP, addr.value)
    then sub.(usedIP := Remove(addr.value, sub.usedIP), usedIPCount := sub.usedIPCount - 1)
    else sub
  }

  function TakeMAC(sub: SubnetObject, mac: Option<MAC>): SubnetObject {
    if mac.Some? then sub.(usedMAC := Sort(sub.usedMAC + [mac.value])) else sub
  }

  function DropMAC(sub: SubnetObject, mac: Option<MAC>): SubnetObject {
    if mac.Some? then sub.(usedMAC := Delete(sub.usedMAC, mac.value)) else sub
  }

  function Commit(sub: SubnetObject, a: Addr, mac: Option<MAC>): SubnetObject {
    TakeMAC(TakeAddr(sub, a), mac)
  }

  function RollBack(sub: SubnetObject, a: Addr, mac: Option<MAC>): SubnetObject {
    DropMAC(DropAddr(sub, Some(a)), mac)
  }

  function ReleaseStatus(sub: SubnetObject, ip: IPObject): SubnetObject {
    var sub1 := DropAddr(sub, ip.addr);
    if ip.mac.Some? then sub1.(usedMAC := Sort(Delete(sub1.usedMAC, ip.mac.value))) else sub1
  }

  function Reserve(sub: SubnetObject): SubnetObject {
    sub.(phase := SubnetActive, usedIP := AddNullable(sub.spec.gateway, sub.usedIP), gateway := sub.spec.gateway)
  }

  /** The self check writes only if both the usage and the gateway differ. */
  predicate CheckWrites(sub: SubnetObject, counted: seq<Addr>) {
    && !(sub.usedIPCount == |counted| && AddAll(counted, []) == sub.usedIP)
    && sub.spec.gateway != sub.gateway
  }

  function Recount(sub: SubnetObject, counted: seq<Addr>): SubnetObject {
    if CheckWrites(sub, counted)
    then sub.(usedIPCount := |counted|, usedIP := AddAll(counted, []), gateway := sub.spec.gateway)
    else sub
  }

  /** The length of a Go slice is a signed 64-bit integer. */
  const MAX_LENGTH: int := 0x7FFF_FFFF_FFFF_FFFF

  /** The listing is the IP objects, in some order. */
  predicate Lists(listing: seq<Listed>, ips: map<Name, IPObject>) {
    && |listing| <= MAX_LENGTH
    && (forall i :: 0 <= i < |listing| ==> listing[i].name in ips && ips[listing[i].name] == listing[i].ip)
    && (forall n :: n in ips ==> exists i :: 0 <= i < |listing| && listing[i].name == n)
    && (forall i, j :: 0 <= i < j < |listing| ==> listing[i].name != listing[j].name)
  }

  // ----- events -----

  datatype Event =
    // the subnet handler; activation, which is decided on a phase that may be out of date,
    // takes no lock, the self check does; it lists the IP objects from a cache, and gateway
    // is the one of the subnet it was called with
    | ActivateSubnet
    | ListIPs(listing: seq<Listed>, gateway: Option<Addr>)
    | WriteCheck
    | SubnetError
    // the IP handler; seen is the object it was called with, sub the subnet in its cache
    | Choose(name: Name, seen: IPObject, sub: SubnetObject)
    | CommitChoice
    | WriteChoice
    | FallBack
    | GiveUp
    | ResetIP(name: Name, seen: IPObject, sub: SubnetObject)
    | IPError(name: Name)
    // the removal handler, and its finalizer; seen is the object it was called with
    | Release(name: Name, seen: IPObject)
    | Finalize(name: Name)
    // users and the CNI plugin
    | EditSubnet(spec: SubnetSpec)
    | CreateIP(name: Name, addrs: seq<Option<Addr>>, macs: seq<MAC>)
    | EditIP(name: Name, addrs: seq<Option<Addr>>, macs: seq<MAC>)
    | ActivateIP(name: Name, cniMAC: MAC)
    | DeleteIP(name: Name)

  /** The events of a handler that holds the subnet lock. */
  predicate UnderLock(e: Event) {
    e.ListIPs? || e.WriteCheck? || e.Choose? || e.CommitChoice? || e.WriteChoice? || e.FallBack? || e.GiveUp? || e.Release?
  }

  /** What the handler looks at before it chooses; all of it may be out of date. */
  predicate MayChoose(st: State, seen: IPObject, sub: SubnetObject) {
    && st.pending.Nothing? && sub.phase == SubnetActive && Valid(sub.spec.net)
    && !seen.deleting && (seen.phase == IPInit || seen.phase == IPFailed)
  }

  function ChoiceFor(sub: SubnetObject, n: Name, seen: IPObject): Pending
    requires Valid(sub.spec.net)
  {
    match AllocateIP(sub.spec, seen, sub.usedIP)
    case Found(a) => (
      match AllocateMAC(seen, sub.usedMAC)
      case MACFound(mac) => Chosen(n, a, mac)
      case MACNotAvailable => Nothing
    )
    case _ => Nothing
  }

  /** The second write of the handler, on the IP object as it is now. */
  function WriteAddr(ip: IPObject, a: Addr, mac: Option<MAC>): IPObject {
    ip.(addr := Some(a), mac := mac, phase := IPPending)
  }

  /** The removal handler of an object frees the address that the object has. */
  predicate FreesOwn(st: State, n: Name, seen: IPObject) {
    n in st.ips && st.ips[n].deleting && seen.addr == st.ips[n].addr
  }

  function SetIP(st: State, n: Name, ip: IPObject): State { st.(ips := st.ips[n := ip]) }

  predicate ValidState(st: State) { Valid(st.subnet.spec.net) }

  function Apply(st: State, e: Event): (st': State)
    requires ValidState(st)
    ensures ValidState(st')
  {
    match e
    case ActivateSubnet =>
      st.(subnet := Reserve(st.subnet))
    case ListIPs(listing, gateway) =>
      if st.pending.Nothing? && |listing| <= MAX_LENGTH && Duplicated(listing) == []
      then st.(pending := Checking(Counted(listing, gateway))) else st
    case WriteCheck =>
      if st.pending.Checking?
      then st.(subnet := Recount(st.subnet, st.pending.counted), pending := Nothing) else st
    case SubnetError => st.(subnet := st.subnet.(phase := SubnetFailed))
    case Choose(n, seen, sub) =>
      if MayChoose(st, seen, sub) then st.(pending := ChoiceFor(sub, n, seen)) else st
    case CommitChoice =>
      if st.pending.Chosen? then
        var sub := Commit(st.subnet, st.pending.addr, st.pending.mac);
        st.(subnet := sub, pending := Committed(st.pending.name, st.pending.addr, st.pending.mac, sub))
      else st
    case WriteChoice =>
      if st.pending.Committed? && st.pending.name in st.ips then
        var n := st.pending.name;
        SetIP(st, n, WriteAddr(st.ips[n], st.pending.addr, st.pending.mac))
          .(released := st.released - {n}, pending := Nothing)
      else st
    case FallBack =>
      if !st.pending.Committed? then st
      else if st.subnet == st.pending.saved
      then st.(subnet := RollBack(st.subnet, st.pending.addr, st.pending.mac), pending := Nothing)
      else st.(pending := Nothing)
    case GiveUp => st.(pending := Nothing)
    case ResetIP(n, seen, sub) =>
      if n in st.ips && seen.phase == IPActive && !(AlreadyAllocatedIP(sub.spec, seen) && AlreadyAllocatedMAC(seen))
      then SetIP(st, n, st.ips[n].(phase := IPInit)) else st
    case IPError(n) =>
      if n in st.ips then SetIP(st, n, st.ips[n].(phase := IPFailed)) else st
    case Release(n, seen) =>
      if st.pending.Nothing?
      then st.(subnet := ReleaseStatus(st.subnet, seen),
               released := if FreesOwn(st, n, seen) then st.released + {n} else st.released)
      else st
    case Finalize(n) =>
      if n in st.ips && st.ips[n].deleting
      then st.(ips := st.ips - {n}, released := st.released - {n}) else st
    case EditSubnet(spec) =>
      if Valid(spec.net) then st.(subnet := st.subnet.(spec := spec)) else st
    case CreateIP(n, addrs, macs) =>
      if n in st.ips then st else SetIP(st, n, IPObject(addrs, macs, None, None, IPInit, false))
    case EditIP(n, addrs, macs) =>
      if n in st.ips then SetIP(st, n, st.ips[n].(addrs := addrs, macs := macs)) else st
    case ActivateIP(n, m) =>
      if n in st.ips && st.ips[n].addr.Some? then SetIP(st, n, st.ips[n].(mac := Some(m), phase := IPActive)) else st
    case DeleteIP(n) =>
      if n in st.ips then SetIP(st, n, st.ips[n].(deleting := true)) else st
  }

  /** Users can bring about any valid specification of the subnet and any of an IP object, and the
      CNI plugin any MAC; nothing else changes with it. */
  lemma UsersDecide(st: State, spec: SubnetSpec, n: Name, ip: IPObject)
    requires ValidState(st) && Valid(spec.net)
    ensures Apply(st, EditSubnet(spec)) == st.(subnet := st.subnet.(spec := spec))
    ensures n !in st.ips ==>
              Apply(st, CreateIP(n, ip.addrs, ip.macs)) == SetIP(st, n, IPObject(ip.addrs, ip.macs, None, None, IPInit, false))
  {
  }

  lemma UsersDecideOfIP(st: State, n: Name, addrs: seq<Option<Addr>>, macs: seq<MAC>)
    requires ValidState(st) && n in st.ips
    ensures Apply(st, EditIP(n, addrs, macs)) == SetIP(st, n, st.ips[n].(addrs := addrs, macs := macs))
    ensures Apply(st, DeleteIP(n)) == SetIP(st, n, st.ips[n].(deleting := true))
  {
  }

  lemma PluginDecides(st: State, n: Name, m: MAC)
    requires ValidState(st) && n in st.ips && st.ips[n].addr.Some?
    ensures Apply(st, ActivateIP(n, m)) == SetIP(st, n, st.ips[n].(mac := Some(m), phase := IPActive))
  {
  }

  function Initial(spec: SubnetSpec): State {
    State(SubnetObject(spec, SubnetInit, [], 0, [], None), map[], {}, Nothing)
  }

  // ----- what every step keeps -----

  /** The object has the address and the removal handler has not freed it. */
  predicate Holds(st: State, n: Name, a: Addr) {
    n in st.ips && n !in st.released && st.ips[n].addr == Some(a)
  }

  predicate NotHeld(st: State, a: Addr) {
    forall n :: n in st.ips ==> !Holds(st, n, a)
  }

  predicate HeldOnlyBy(st: State, n: Name, a: Addr) {
    forall m :: m in st.ips && Holds(st, m, a) ==> m == n
  }

  ghost predicate HeldIsUsed(st: State) {
    forall n, a: Addr :: Holds(st, n, a) ==> Covers(st.subnet.usedIP, a)
  }

  ghost predicate HeldOnce(st: State) {
    forall n, m, a: Addr :: Holds(st, n, a) && Holds(st, m, a) ==> n == m
  }

  /** The gateway in the status is used and held by no one. */
  predicate GatewayReserved(st: State) {
    st.subnet.gateway.Some? ==>
      Covers(st.subnet.usedIP, st.subnet.gateway.value) && NotHeld(st, st.subnet.gateway.value)
  }

  /** What a handler has chosen is held by no one else and not the gateway, and it is used
      as soon as it is written to the subnet. */
  ghost predicate ChoiceOwn(st: State) {
    HasChoice(st.pending) ==>
      && HeldOnlyBy(st, st.pending.name, st.pending.addr)
      && st.subnet.gateway != Some(st.pending.addr)
      && (st.pending.Committed? ==> Covers(st.subnet.usedIP, st.pending.addr))
  }

  predicate CountFits(st: State) {
    st.pending.Checking? ==> |st.pending.counted| <= MAX_LENGTH + 1
  }

  predicate ReleasedAreDeleting(st: State) {
    forall n :: n in st.released ==> n in st.ips && st.ips[n].deleting
  }

  ghost predicate Inv(st: State) {
    && Canonical(st.subnet.usedIP)
    && HeldIsUsed(st)
    && HeldOnce(st)
    && GatewayReserved(st)
    && ChoiceOwn(st)
    && CountFits(st)
    && ReleasedAreDeleting(st)
  }

  /** No one has the address or is about to get it. */
  predicate Unclaimed(st: State, a: Addr) {
    NotHeld(st, a) && (HasChoice(st.pending) ==> st.pending.addr != a)
  }

  predicate HeldWereCounted(st: State, counted: seq<Addr>) {
    forall n :: n in st.ips && n !in st.released && st.ips[n].addr.Some? ==> st.ips[n].addr.value in counted
  }

  /** An object can ask for the address. */
  predicate Askable(spec: SubnetSpec, a: Addr) { spec.ranges == [] || Covers(spec.ranges, a) }

  /** Every address that is held or the gateway, and that can be asked for, is used in the
      subnet that the handler sees. */
  predicate CacheCovers(st: State, sub: SubnetObject) {
    && (forall n :: n in st.ips && n !in st.released && st.ips[n].addr.Some? && Askable(sub.spec, st.ips[n].addr.value) ==>
          Covers(sub.usedIP, st.ips[n].addr.value))
    && (st.subnet.gateway.Some? && Askable(sub.spec, st.subnet.gateway.value) ==>
          Covers(sub.usedIP, st.subnet.gateway.value))
  }

  /** Where a range ends at the last address the scan may leave the ranges; it must not meet
      what is held or the gateway there. */
  predicate WrapStaysClear(st: State, sub: SubnetObject)
    requires Valid(sub.spec.net)
  {
    EndsAtLast(sub.spec.ranges) ==>
      match GetAvailable(sub.spec.net, sub.spec.ranges, sub.usedIP)
      case Found(a) => NotHeld(st, a) && st.subnet.gateway != Some(a)
      case _ => true
  }

  /** Whether an event keeps the invariant, decided from the state before it:
      - a gateway that is put into the status must be unclaimed, and its addition must not wrap;
      - a self check that writes must have counted every address that is held, and the gateway,
        which no one may hold, and its additions must not have wrapped;
      - a choice of the address that the object is seen to have already: no other object may
        hold it, and it must not be the gateway;
      - any other choice: the subnet that the handler sees must cover what is held and the
        gateway;
      - the addition of a choice must not wrap;
      - a choice that is held already must not be rolled back;
      - a removal must not free an address that is someone else's. */
  predicate Safe(st: State, e: Event) {
    match e
    case ActivateSubnet =>
      st.subnet.spec.gateway.Some? ==>
        AddSafe(st.subnet.spec.gateway.value, st.subnet.usedIP) && Unclaimed(st, st.subnet.spec.gateway.value)
    case WriteCheck =>
      st.pending.Checking? && CheckWrites(st.subnet, st.pending.counted) ==>
        && HeldWereCounted(st, st.pending.counted)
        && (st.subnet.spec.gateway.Some? ==>
              st.subnet.spec.gateway.value in st.pending.counted && NotHeld(st, st.subnet.spec.gateway.value))
        && AddAllSafe(st.pending.counted, [])
    case Choose(n, seen, sub) =>
      MayChoose(st, seen, sub) ==>
        if AlreadyAllocatedIP(sub.spec, seen)
        then AllocateMAC(seen, sub.usedMAC).MACFound? ==> HeldOnlyBy(st, n, seen.addr.value) && st.subnet.gateway != seen.addr
        else CacheCovers(st, sub) && WrapStaysClear(st, sub)
    case CommitChoice =>
      st.pending.Chosen? ==> AddSafe(st.pending.addr, st.subnet.usedIP)
    case FallBack =>
      st.pending.Committed? && st.subnet == st.pending.saved ==> NotHeld(st, st.pending.addr)
    case Release(n, seen) =>
      st.pending.Nothing? && seen.addr.Some? ==>
        (if FreesOwn(st, n, seen) then HeldOnlyBy(st, n, seen.addr.value) else NotHeld(st, seen.addr.value))
        && st.subnet.gateway != seen.addr
    case _ => true
  }

  // ----- the events that write the subnet -----

  lemma ActivateKeepsIff(st: State)
    requires ValidState(st) && Inv(st)
    ensures Inv(Apply(st, ActivateSubnet)) <==> Safe(st, ActivateSubnet)
  {
    var st' := Apply(st, ActivateSubnet);
    assert forall n, a: Addr :: Holds(st', n, a) <==> Holds(st, n, a);
    if st.subnet.spec.gateway.Some? {
      var g := st.subnet.spec.gateway.value;
      AddExact(g, st.subnet.usedIP);
      if AddSafe(g, st.subnet.usedIP) {
        assert forall a: Addr :: Covers(st.subnet.usedIP, a) ==> Covers(st'.subnet.usedIP, a);
        assert NotHeld(st', g) <==> NotHeld(st, g);
      }
    }
  }

  lemma CommitKeepsIff(st: State)
    requires ValidState(st) && Inv(st)
    ensures Inv(Apply(st, CommitChoice)) <==> Safe(st, CommitChoice)
  {
    if st.pending.Chosen? {
      var a, st' := st.pending.addr, Apply(st, CommitChoice);
      AddExact(a, st.subnet.usedIP);
      assert st'.subnet.usedIP == Add(a, st.subnet.usedIP) && st'.subnet.gateway == st.subnet.gateway;
      if AddSafe(a, st.subnet.usedIP) {
        TakenKeeps(st, st');
      }
    }
  }

  lemma TakenKeeps(st: State, st': State)
    requires Inv(st) && st.pending.Chosen? && Canonical(st'.subnet.usedIP)
    requires CoverPlus(st.subnet.usedIP, st.pending.addr, st'.subnet.usedIP) && st'.subnet.gateway == st.subnet.gateway
    requires st'.ips == st.ips && st'.released == st.released
    requires st'.pending == Committed(st.pending.name, st.pending.addr, st.pending.mac, st'.subnet)
    ensures Inv(st')
  {
    assert forall n, a: Addr :: Holds(st', n, a) <==> Holds(st, n, a);
  }

  /** Taking out an address that no one holds and that is not the gateway. */
  lemma DropKeeps(st: State, sub: SubnetObject, addr: Option<Addr>)
    requires Inv(st) && st.pending.Nothing?
    requires sub.usedIP == DropAddr(st.subnet, addr).usedIP && sub.gateway == st.subnet.gateway
    requires addr.Some? ==> NotHeld(st, addr.value) && st.subnet.gateway != addr
    ensures Inv(st.(subnet := sub))
  {
    if addr.Some? {
      RemoveExact(addr.value, st.subnet.usedIP);
    }
    var st' := st.(subnet := sub);
    assert forall n, a: Addr :: Holds(st', n, a) <==> Holds(st, n, a);
  }

  lemma FallBackKeepsIff(st: State)
    requires ValidState(st) && Inv(st)
    ensures Inv(Apply(st, FallBack)) <==> Safe(st, FallBack)
  {
    if st.pending.Committed? {
      var a := st.pending.addr;
      var idle := st.(pending := Nothing);
      IdleKeeps(st);
      assert NotHeld(idle, a) <==> NotHeld(st, a);
      if st.subnet == st.pending.saved {
        if NotHeld(st, a) {
          DropKeeps(idle, RollBack(st.subnet, a, st.pending.mac), Some(a));
        } else {
          RemoveExact(a, st.subnet.usedIP);
          var n :| n in st.ips && Holds(st, n, a);
          assert Holds(Apply(st, FallBack), n, a);
        }
      }
    }
  }

  lemma IdleKeeps(st: State)
    requires Inv(st)
    ensures Inv(st.(pending := Nothing))
  {
    var st' := st.(pending := Nothing);
    assert forall n, a: Addr :: Holds(st', n, a) <==> Holds(st, n, a);
  }

  lemma ListKeeps(st: State, listing: seq<Listed>, gateway: Option<Addr>)
    requires ValidState(st) && Inv(st)
    ensures Inv(Apply(st, ListIPs(listing, gateway)))
  {
    var st' := Apply(st, ListIPs(listing, gateway));
    LiveAddrsFewer(listing);
    assert forall n, a: Addr :: Holds(st', n, a) <==> Holds(st, n, a);
  }

  lemma WriteCheckKeepsIff(st: State)
    requires ValidState(st) && Inv(st)
    ensures Inv(Apply(st, WriteCheck)) <==> Safe(st, WriteCheck)
  {
    var st' := Apply(st, WriteCheck);
    assert forall n, a: Addr :: Holds(st', n, a) <==> Holds(st, n, a);
    if st.pending.Checking? && CheckWrites(st.subnet, st.pending.counted) {
      var counted, g := st.pending.counted, st.subnet.spec.gateway;
      AddAllExactIff(counted);
      assert g.Some? ==> (NotHeld(st', g.value) <==> NotHeld(st, g.value));
      if AddAllSafe(counted, []) {
        CountedIsUsedIff(st, st');
      }
    } else {
      IdleKeeps(st);
    }
  }

  lemma CountedIsUsedIff(st: State, st': State)
    requires st.pending.Checking? && st'.ips == st.ips && st'.released == st.released
    requires AddsAllExactly(st.pending.counted, [], st'.subnet.usedIP)
    ensures HeldIsUsed(st') <==> HeldWereCounted(st, st.pending.counted)
  {
    if HeldIsUsed(st') {
      forall n | n in st.ips && n !in st.released && st.ips[n].addr.Some? ensures st.ips[n].addr.value in st.pending.counted {
        assert Holds(st', n, st.ips[n].addr.value);
      }
    }
  }

  // ----- the events that write an IP object -----

  /** A choice keeps the invariant exactly if it is no one else's. */
  lemma ChosenKeepsIff(st: State, p: Pending)
    requires Inv(st) && st.pending.Nothing? && (p.Nothing? || p.Chosen?)
    ensures Inv(st.(pending := p)) <==> (p.Chosen? ==> HeldOnlyBy(st, p.name, p.addr) && st.subnet.gateway != Some(p.addr))
  {
    var st' := st.(pending := p);
    assert forall m, a: Addr :: Holds(st', m, a) <==> Holds(st, m, a);
    assert p.Chosen? ==> (HeldOnlyBy(st', p.name, p.addr) <==> HeldOnlyBy(st, p.name, p.addr));
  }

  lemma ReuseKeepsIff(st: State, n: Name, seen: IPObject, sub: SubnetObject)
    requires ValidState(st) && Inv(st) && AlreadyAllocatedIP(sub.spec, seen)
    ensures Inv(Apply(st, Choose(n, seen, sub))) <==> Safe(st, Choose(n, seen, sub))
  {
    if MayChoose(st, seen, sub) {
      ChosenKeepsIff(st, ChoiceFor(sub, n, seen));
    }
  }

  /** What is chosen anew is unused where the handler looked, and can be asked for unless
      the scan has wrapped. */
  lemma FreshIsUnused(spec: SubnetSpec, ip: IPObject, used: seq<IPRange>)
    requires Valid(spec.net) && !AlreadyAllocatedIP(spec, ip)
    ensures match AllocateIP(spec, ip, used)
            case Found(a) =>
              && !Covers(used, a)
              && (Askable(spec, a) || (EndsAtLast(spec.ranges) && GetAvailable(spec.net, spec.ranges, used) == Found(a)))
            case _ => true
  {
    AvailableExact(spec.net, spec.ranges, used);
    var i := FirstListedExact(ip.addrs, spec.ranges, used);
    var o := AllocateIP(spec, ip, used);
    if ip.addrs == [] && o.Found? && spec.ranges != [] && !EndsAtLast(spec.ranges) {
      var j :| 0 <= j < |spec.ranges| && Reaches(spec.ranges[j], o.addr);
      assert Has(spec.ranges[j], o.addr);
    }
  }

  lemma FreshChoiceKeeps(st: State, n: Name, seen: IPObject, sub: SubnetObject)
    requires ValidState(st) && Inv(st) && !AlreadyAllocatedIP(sub.spec, seen) && Safe(st, Choose(n, seen, sub))
    ensures Inv(Apply(st, Choose(n, seen, sub)))
  {
    if MayChoose(st, seen, sub) {
      var p := ChoiceFor(sub, n, seen);
      FreshIsUnused(sub.spec, seen, sub.usedIP);
      ChosenKeepsIff(st, p);
    }
  }

  /** An object that asks for one address, or for any. */
  function Asks(addrs: seq<Option<Addr>>): IPObject { IPObject(addrs, [], None, None, IPInit, false) }

  lemma AskedIsChosen(st: State, n: Name, a: Addr, sub: SubnetObject)
    requires ValidState(st) && MayChoose(st, Asks([Some(a)]), sub) && Askable(sub.spec, a) && !Covers(sub.usedIP, a)
    ensures Apply(st, Choose(n, Asks([Some(a)]), sub)) == st.(pending := Chosen(n, a, None))
  {
    assert FirstListed([Some(a)], sub.spec.ranges, sub.usedIP) == Found(a);
  }

  lemma OtherName(m: Name) returns (n: Name)
    ensures n != m
  {
    n := m + "x";
  }

  /** A claimed address that some object would get breaks the invariant. */
  lemma ClaimedIsNotKept(st: State, a: Addr) returns (n: Name)
    requires Inv(st) && st.pending.Nothing? && !(NotHeld(st, a) && st.subnet.gateway != Some(a))
    ensures !Inv(st.(pending := Chosen(n, a, None)))
  {
    n := "";
    if !NotHeld(st, a) {
      var m :| m in st.ips && Holds(st, m, a);
      n := OtherName(m);
    }
    ChosenKeepsIff(st, Chosen(n, a, None));
  }

  lemma UncoveredIsNotKept(st: State, sub: SubnetObject, a: Addr) returns (n: Name)
    requires ValidState(st) && Inv(st) && MayChoose(st, Asks([Some(a)]), sub)
    requires !(NotHeld(st, a) && st.subnet.gateway != Some(a)) && Askable(sub.spec, a) && !Covers(sub.usedIP, a)
    ensures !Inv(Apply(st, Choose(n, Asks([Some(a)]), sub)))
  {
    n := ClaimedIsNotKept(st, a);
    AskedIsChosen(st, n, a, sub);
  }

  /** A handler that sees the subnet sub keeps the invariant with every new choice, for whatever
      object, if and only if sub covers what is held and the gateway, as far as it can be asked
      for. */
  lemma FreshChoicesKeepIff(st: State, sub: SubnetObject)
    requires ValidState(st) && Inv(st) && st.pending.Nothing? && sub.phase == SubnetActive && Valid(sub.spec.net)
    ensures (forall n, seen :: !AlreadyAllocatedIP(sub.spec, seen) ==> Inv(Apply(st, Choose(n, seen, sub)))) <==>
            CacheCovers(st, sub) && WrapStaysClear(st, sub)
  {
    if CacheCovers(st, sub) && WrapStaysClear(st, sub) {
      forall n, seen | !AlreadyAllocatedIP(sub.spec, seen) ensures Inv(Apply(st, Choose(n, seen, sub))) {
        FreshChoiceKeeps(st, n, seen, sub);
      }
    } else if !WrapStaysClear(st, sub) {
      var a := GetAvailable(sub.spec.net, sub.spec.ranges, sub.usedIP).addr;
      var n := ClaimedIsNotKept(st, a);
      assert !AlreadyAllocatedIP(sub.spec, Asks([]));
      assert Apply(st, Choose(n, Asks([]), sub)) == st.(pending := Chosen(n, a, None));
    } else {
      var a := MissedByCache(st, sub);
      var n := UncoveredIsNotKept(st, sub, a);
      assert !AlreadyAllocatedIP(sub.spec, Asks([Some(a)]));
    }
  }

  lemma MissedByCache(st: State, sub: SubnetObject) returns (a: Addr)
    requires !CacheCovers(st, sub)
    ensures !(NotHeld(st, a) && st.subnet.gateway != Some(a)) && Askable(sub.spec, a) && !Covers(sub.usedIP, a)
  {
    if st.subnet.gateway.Some? && Askable(sub.spec, st.subnet.gateway.value) && !Covers(sub.usedIP, st.subnet.gateway.value) {
      a := st.subnet.gateway.value;
    } else {
      var n :| n in st.ips && n !in st.released && st.ips[n].addr.Some? && Askable(sub.spec, st.ips[n].addr.value)
        && !Covers(sub.usedIP, st.ips[n].addr.value);
      a := st.ips[n].addr.value;
      assert Holds(st, n, a);
    }
  }

  lemma WriteKeeps(st: State)
    requires ValidState(st) && Inv(st)
    ensures Inv(Apply(st, WriteChoice))
  {
    if st.pending.Committed? && st.pending.name in st.ips {
      var st' := Apply(st, WriteChoice);
      forall m, a: Addr | Holds(st', m, a) ensures if m == st.pending.name then a == st.pending.addr else Holds(st, m, a) {
      }
    }
  }

  /** An object may change in anything but its address and the mark of deletion. */
  lemma TouchKeeps(st: State, n: Name, ip: IPObject)
    requires Inv(st) && n in st.ips && ip.addr == st.ips[n].addr && (st.ips[n].deleting ==> ip.deleting)
    ensures Inv(SetIP(st, n, ip))
  {
    var st' := SetIP(st, n, ip);
    assert forall m, a: Addr :: Holds(st', m, a) <==> Holds(st, m, a);
  }

  lemma ArriveKeeps(st: State, n: Name, ip: IPObject)
    requires Inv(st) && n !in st.ips && ip.addr.None?
    ensures Inv(SetIP(st, n, ip))
  {
    var st' := SetIP(st, n, ip);
    assert forall m, a: Addr :: Holds(st', m, a) <==> Holds(st, m, a);
  }

  lemma FinalizeKeeps(st: State, n: Name)
    requires ValidState(st) && Inv(st)
    ensures Inv(Apply(st, Finalize(n)))
  {
    var st' := Apply(st, Finalize(n));
    assert forall m, a: Addr :: Holds(st', m, a) ==> Holds(st, m, a);
  }

  lemma ReleaseKeepsIff(st: State, n: Name, seen: IPObject)
    requires ValidState(st) && Inv(st)
    ensures Inv(Apply(st, Release(n, seen))) <==> Safe(st, Release(n, seen))
  {
    if st.pending.Nothing? {
      var st' := Apply(st, Release(n, seen));
      var freed := st.(released := st'.released);
      MarkKeeps(st, n, seen);
      if seen.addr.Some? {
        var a := seen.addr.value;
        assert NotHeld(freed, a) <==> if FreesOwn(st, n, seen) then HeldOnlyBy(st, n, a) else NotHeld(st, a);
        if NotHeld(freed, a) && st.subnet.gateway != Some(a) {
          DropKeeps(freed, st'.subnet, seen.addr);
        } else {
          RemoveExact(a, st.subnet.usedIP);
          assert forall m, b: Addr :: Holds(st', m, b) <==> Holds(freed, m, b);
        }
      } else {
        DropKeeps(freed, st'.subnet, seen.addr);
      }
    }
  }

  lemma MarkKeeps(st: State, n: Name, seen: IPObject)
    requires Inv(st) && st.pending.Nothing?
    ensures var freed := st.(released := if FreesOwn(st, n, seen) then st.released + {n} else st.released);
            && Inv(freed)
            && forall m, a: Addr :: Holds(freed, m, a) <==> Holds(st, m, a) && !(FreesOwn(st, n, seen) && m == n)
  {
    var freed := st.(released := if FreesOwn(st, n, seen) then st.released + {n} else st.released);
    assert forall m, a: Addr :: Holds(freed, m, a) <==> Holds(st, m, a) && !(FreesOwn(st, n, seen) && m == n);
  }

  /** The events that change no address, no gateway in the status and no used list. */
  lemma OtherKeeps(st: State, e: Event)
    requires ValidState(st) && Inv(st)
    requires e.SubnetError? || e.EditSubnet? || e.ResetIP? || e.IPError? || e.CreateIP? || e.EditIP? || e.ActivateIP? || e.DeleteIP?
    ensures Inv(Apply(st, e))
  {
    if e.SubnetError? || e.EditSubnet? {
      SubnetEditKeeps(st, Apply(st, e).subnet);
    } else if e.CreateIP? {
      if e.name !in st.ips {
        ArriveKeeps(st, e.name, IPObject(e.addrs, e.macs, None, None, IPInit, false));
      }
    } else if e.name in st.ips {
      TouchedKeepsAddr(st, e);
      TouchKeeps(st, e.name, Apply(st, e).ips[e.name]);
    }
  }

  lemma TouchedKeepsAddr(st: State, e: Event)
    requires ValidState(st) && (e.ResetIP? || e.IPError? || e.EditIP? || e.ActivateIP? || e.DeleteIP?) && e.name in st.ips
    ensures var st' := Apply(st, e);
            && e.name in st'.ips && st' == SetIP(st, e.name, st'.ips[e.name])
            && st'.ips[e.name].addr == st.ips[e.name].addr && (st.ips[e.name].deleting ==> st'.ips[e.name].deleting)
  {
  }

  lemma SubnetEditKeeps(st: State, sub: SubnetObject)
    requires Inv(st) && sub.usedIP == st.subnet.usedIP && sub.gateway == st.subnet.gateway
    ensures Inv(st.(subnet := sub))
  {
    var st' := st.(subnet := sub);
    assert forall n, a: Addr :: Holds(st', n, a) <==> Holds(st, n, a);
  }

  /** A choice that does not take the address the object is seen to have. */
  predicate IsFreshChoice(e: Event) { e.Choose? && !AlreadyAllocatedIP(e.sub.spec, e.seen) }

  /** From a state that satisfies the invariant, a safe event leads to one that does. For all
      but new choices that is so if and only if the event is safe; for these
      FreshChoicesKeepIff has the exact condition. */
  lemma StepKeepsIff(st: State, e: Event)
    requires ValidState(st) && Inv(st)
    ensures Safe(st, e) ==> Inv(Apply(st, e))
    ensures !IsFreshChoice(e) ==> (Inv(Apply(st, e)) <==> Safe(st, e))
  {
    match e
    case ActivateSubnet => ActivateKeepsIff(st);
    case ListIPs(listing, gateway) => ListKeeps(st, listing, gateway);
    case WriteCheck => WriteCheckKeepsIff(st);
    case Choose(n, seen, sub) =>
      if AlreadyAllocatedIP(sub.spec, seen) {
        ReuseKeepsIff(st, n, seen, sub);
      } else if Safe(st, e) {
        FreshChoiceKeeps(st, n, seen, sub);
      }
    case CommitChoice => CommitKeepsIff(st);
    case WriteChoice => WriteKeeps(st);
    case FallBack => FallBackKeepsIff(st);
    case GiveUp => IdleKeeps(st);
    case Release(n, seen) => ReleaseKeepsIff(st, n, seen);
    case Finalize(n) => FinalizeKeeps(st, n);
    case _ => OtherKeeps(st, e);
  }

  // ----- handlers that see what is stored -----

  /** A handler that saw the current used list, or one that covers more, and the current address
      of its object or none, makes a safe choice. */
  lemma CurrentChoiceIsSafe(st: State, n: Name, seen: IPObject, sub: SubnetObject)
    requires ValidState(st) && Inv(st) && forall a: Addr :: Covers(st.subnet.usedIP, a) ==> Covers(sub.usedIP, a)
    requires seen.addr.None? || Holds(st, n, seen.addr.value)
    ensures Safe(st, Choose(n, seen, sub))
  {
    if MayChoose(st, seen, sub) && !AlreadyAllocatedIP(sub.spec, seen) {
      forall m | m in st.ips && m !in st.released && st.ips[m].addr.Some? ensures Covers(sub.usedIP, st.ips[m].addr.value) {
        assert Holds(st, m, st.ips[m].addr.value);
      }
      AvailableExact(sub.spec.net, sub.spec.ranges, sub.usedIP);
    }
  }

  /** A removal that saw the current address, or none, of an object that still holds it, is safe. */
  lemma FirstRemovalIsSafe(st: State, n: Name, seen: IPObject)
    requires Inv(st) && (seen.addr.Some? ==> FreesOwn(st, n, seen) && Holds(st, n, seen.addr.value))
    ensures Safe(st, Release(n, seen))
  {
  }

  /** The objects of the listing that count are the holders that are not being deleted. */
  lemma HeldByListed(st: State, listing: seq<Listed>, a: Addr)
    requires Lists(listing, st.ips) && ReleasedAreDeleting(st)
    ensures Held(listing, a) <==> exists n :: Holds(st, n, a) && !st.ips[n].deleting
  {
    if Held(listing, a) {
      var j :| 0 <= j < |listing| && HoldsAddr(listing[j], a);
      assert Holds(st, listing[j].name, a);
    }
    if exists n :: Holds(st, n, a) && !st.ips[n].deleting {
      var n :| Holds(st, n, a) && !st.ips[n].deleting;
      var j :| 0 <= j < |listing| && listing[j].name == n;
      assert HoldsAddr(listing[j], a);
    }
  }

  /** The listing of what is stored counts every held address if and only if no object that
      is being deleted holds any but the gateway. */
  lemma CurrentListingCountsIff(st: State, listing: seq<Listed>, gateway: Option<Addr>)
    requires Inv(st) && Lists(listing, st.ips)
    ensures HeldWereCounted(st, Counted(listing, gateway)) <==>
            forall n :: n in st.ips && n !in st.released && st.ips[n].deleting && st.ips[n].addr.Some? ==> st.ips[n].addr == gateway
  {
    LiveAddrsExact(listing);
    forall n | n in st.ips && n !in st.released && st.ips[n].addr.Some?
      ensures st.ips[n].addr.value in Counted(listing, gateway) <==> !st.ips[n].deleting || st.ips[n].addr == gateway
    {
      assert Holds(st, n, st.ips[n].addr.value);
      HeldByListed(st, listing, st.ips[n].addr.value);
    }
  }

  // ----- runs -----

  /** The state that events, one after the other, lead to. */
  function Run(spec: SubnetSpec, es: seq<Event>): (st: State)
    requires Valid(spec.net)
    ensures ValidState(st)
  {
    if es == [] then Initial(spec) else Apply(Run(spec, es[..|es| - 1]), es[|es| - 1])
  }

  /** Every event is safe in the state it meets. */
  predicate SafeRun(spec: SubnetSpec, es: seq<Event>)
    requires Valid(spec.net)
  {
    es == [] || (SafeRun(spec, es[..|es| - 1]) && Safe(Run(spec, es[..|es| - 1]), es[|es| - 1]))
  }

  lemma {:induction false} SafeRunKeeps(spec: SubnetSpec, es: seq<Event>)
    requires Valid(spec.net) && SafeRun(spec, es)
    ensures Inv(Run(spec, es))
  {
    if es != [] {
      SafeRunKeeps(spec, es[..|es| - 1]);
      StepKeepsIff(Run(spec, es[..|es| - 1]), es[|es| - 1]);
    }
  }

  lemma {:induction false} SafePrefix(spec: SubnetSpec, es: seq<Event>, k: nat)
    requires Valid(spec.net) && SafeRun(spec, es) && k <= |es|
    ensures SafeRun(spec, es[..k])
  {
    if k < |es| {
      SafePrefix(spec, es[..|es| - 1], k);
      assert es[..|es| - 1][..k] == es[..k];
    } else {
      assert es[..k] == es;
    }
  }

  /** The used list is canonical, each held address is in it, no two objects hold the same
      address, no one holds the gateway of the status, which is used, and what a handler
      under the lock is about to write is held by no other object and not the gateway. */
  ghost predicate EachAddressOnce(st: State) {
    && Canonical(st.subnet.usedIP)
    && (forall n, a: Addr :: Holds(st, n, a) ==> Covers(st.subnet.usedIP, a) && st.subnet.gateway != Some(a))
    && (forall n, m, a: Addr :: Holds(st, n, a) && Holds(st, m, a) ==> n == m)
    && (st.subnet.gateway.Some? ==> Covers(st.subnet.usedIP, st.subnet.gateway.value))
    && (HasChoice(st.pending) ==>
          && st.subnet.gateway != Some(st.pending.addr)
          && HeldOnlyBy(st, st.pending.name, st.pending.addr)
          && (st.pending.Committed? ==> Covers(st.subnet.usedIP, st.pending.addr)))
  }

  lemma InvMeansOnce(st: State)
    requires Inv(st)
    ensures EachAddressOnce(st)
  {
    if st.subnet.gateway.Some? {
      assert NotHeld(st, st.subnet.gateway.value);
    }
  }

  /** In every state of a safe run, also between the writes of a handler, each address is
      held once. */
  lemma NoAddressTwice(spec: SubnetSpec, es: seq<Event>, k: nat)
    requires Valid(spec.net) && SafeRun(spec, es) && k <= |es|
    ensures EachAddressOnce(Run(spec, es[..k]))
  {
    SafePrefix(spec, es, k);
    SafeRunKeeps(spec, es[..k]);
    InvMeansOnce(Run(spec, es[..k]));
  }

  predicate KeepsGateway(e: Event, gateway: Option<Addr>) { e.EditSubnet? ==> e.spec.gateway == gateway }

  /** As long as no one edits the gateway, the one in the status of an active subnet is the
      one in its specification, and the self check writes nothing. */
  lemma {:induction false} UneditedGatewayIsReserved(spec: SubnetSpec, es: seq<Event>)
    requires Valid(spec.net) && forall i :: 0 <= i < |es| ==> KeepsGateway(es[i], spec.gateway)
    ensures var sub := Run(spec, es).subnet;
            && sub.spec.gateway == spec.gateway
            && (sub.phase == SubnetActive ==> sub.gateway == spec.gateway && forall counted :: Recount(sub, counted) == sub)
  {
    if es != [] {
      UneditedGatewayIsReserved(spec, es[..|es| - 1]);
      assert KeepsGateway(es[|es| - 1], spec.gateway);
      GatewayStep(Run(spec, es[..|es| - 1]), es[|es| - 1], spec.gateway);
    }
  }

  lemma GatewayStep(st: State, e: Event, g: Option<Addr>)
    requires ValidState(st) && KeepsGateway(e, g) && st.subnet.spec.gateway == g
    requires st.subnet.phase == SubnetActive ==> st.subnet.gateway == g
    ensures var sub := Apply(st, e).subnet; sub.spec.gateway == g && (sub.phase == SubnetActive ==> sub.gateway == g)
  {
  }

  // ----- MACs -----

  lemma CommitSorted(sub: SubnetObject, a: Addr, mac: Option<MAC>)
    requires Sorted(sub.usedMAC)
    ensures Sorted(Commit(sub, a, mac).usedMAC)
  {
    if mac.Some? {
      SortSorts(sub.usedMAC + [mac.value]);
    }
  }

  lemma RollBackSorted(sub: SubnetObject, a: Addr, mac: Option<MAC>)
    requires Sorted(sub.usedMAC)
    ensures Sorted(RollBack(sub, a, mac).usedMAC)
  {
    if mac.Some? {
      DeleteExact(sub.usedMAC, mac.value);
    }
  }

  lemma ReleaseSorted(sub: SubnetObject, ip: IPObject)
    requires Sorted(sub.usedMAC)
    ensures Sorted(ReleaseStatus(sub, ip).usedMAC)
  {
    if ip.mac.Some? {
      SortSorts(Delete(sub.usedMAC, ip.mac.value));
    }
  }

  lemma MACStep(st: State, e: Event)
    requires ValidState(st) && Sorted(st.subnet.usedMAC)
    ensures Sorted(Apply(st, e).subnet.usedMAC)
  {
    if e.CommitChoice? {
      if st.pending.Chosen? { CommitSorted(st.subnet, st.pending.addr, st.pending.mac); }
    } else if e.FallBack? {
      if st.pending.Committed? { RollBackSorted(st.subnet, st.pending.addr, st.pending.mac); }
    } else if e.Release? {
      ReleaseSorted(st.subnet, e.seen);
    } else if !e.ActivateSubnet? && !e.WriteCheck? {
      UsageUntouched(st, e);
    }
  }

  /** UsedMAC is sorted in every reachable state, safe or not. */
  lemma {:induction false} MACsAreSorted(spec: SubnetSpec, es: seq<Event>)
    requires Valid(spec.net)
    ensures Sorted(Run(spec, es).subnet.usedMAC)
  {
    if es != [] {
      MACsAreSorted(spec, es[..|es| - 1]);
      MACStep(Run(spec, es[..|es| - 1]), es[|es| - 1]);
    }
  }

  // ----- counting -----

  ghost function Drift(sub: SubnetObject): int { sub.usedIPCount - |Addrs(sub.usedIP)| }

  lemma CommitDrift(sub: SubnetObject, a: Addr, mac: Option<MAC>)
    requires Canonical(sub.usedIP) && AddSafe(a, sub.usedIP)
    ensures var sub' := Commit(sub, a, mac); Canonical(sub'.usedIP) && Drift(sub') == Drift(sub)
  {
    AddExact(a, sub.usedIP);
    AddCounts(a, sub.usedIP);
  }

  lemma DropAddrDrift(sub: SubnetObject, addr: Option<Addr>)
    requires Canonical(sub.usedIP)
    ensures Canonical(DropAddr(sub, addr).usedIP) && Drift(DropAddr(sub, addr)) == Drift(sub)
  {
    if addr.Some? {
      RemoveExact(addr.value, sub.usedIP);
      RemoveCounts(addr.value, sub.usedIP);
    }
  }

  lemma RollBackDrift(sub: SubnetObject, a: Addr, mac: Option<MAC>)
    requires Canonical(sub.usedIP)
    ensures var sub' := RollBack(sub, a, mac); Canonical(sub'.usedIP) && Drift(sub') == Drift(sub)
  {
    DropAddrDrift(sub, Some(a));
  }

  lemma ReleaseDrift(sub: SubnetObject, ip: IPObject)
    requires Canonical(sub.usedIP)
    ensures var sub' := ReleaseStatus(sub, ip); Canonical(sub'.usedIP) && Drift(sub') == Drift(sub)
  {
    DropAddrDrift(sub, ip.addr);
  }

  /** Neither the subnet handler's writes nor an addition that wraps. */
  predicate Counts(st: State, e: Event) { !e.ActivateSubnet? && !e.WriteCheck? && (e.CommitChoice? ==> Safe(st, e)) }

  /** From any canonical used list, whatever else is wrong with the state, every event
      outside the subnet handler that does not wrap changes the count by exactly the change
      in the number of covered addresses. */
  lemma DriftConserved(st: State, e: Event)
    requires ValidState(st) && Canonical(st.subnet.usedIP)
    requires Counts(st, e)
    ensures var sub := Apply(st, e).subnet; Canonical(sub.usedIP) && Drift(sub) == Drift(st.subnet)
  {
    if e.CommitChoice? {
      if st.pending.Chosen? { CommitDrift(st.subnet, st.pending.addr, st.pending.mac); }
    } else if e.FallBack? {
      if st.pending.Committed? { RollBackDrift(st.subnet, st.pending.addr, st.pending.mac); }
    } else if e.Release? {
      ReleaseDrift(st.subnet, e.seen);
    } else {
      UsageUntouched(st, e);
    }
  }

  lemma UsageUntouched(st: State, e: Event)
    requires ValidState(st) && !e.ActivateSubnet? && !e.WriteCheck? && !e.CommitChoice? && !e.FallBack? && !e.Release?
    ensures var sub := Apply(st, e).subnet;
            sub.usedIP == st.subnet.usedIP && sub.usedIPCount == st.subnet.usedIPCount && sub.usedMAC == st.subnet.usedMAC
  {
  }

  /** The state that more events lead to. */
  function RunFrom(st: State, es: seq<Event>): State
    requires ValidState(st)
    decreases |es|
  {
    if es == [] then st else RunFrom(Apply(st, es[0]), es[1..])
  }

  predicate AllCount(st: State, es: seq<Event>)
    requires ValidState(st)
    decreases |es|
  {
    es == [] || (Counts(st, es[0]) && AllCount(Apply(st, es[0]), es[1..]))
  }

  lemma {:induction false} RunIsRunFrom(spec: SubnetSpec, es: seq<Event>, more: seq<Event>)
    requires Valid(spec.net)
    ensures Run(spec, es + more) == RunFrom(Run(spec, es), more)
    decreases |more|
  {
    if more == [] {
      assert es + more == es;
    } else {
      assert es + more == (es + [more[0]]) + more[1..];
      assert (es + [more[0]])[..|es|] == es;
      RunIsRunFrom(spec, es + [more[0]], more[1..]);
    }
  }

  lemma {:induction false} DriftConservedFrom(st: State, es: seq<Event>)
    requires ValidState(st) && Canonical(st.subnet.usedIP) && AllCount(st, es)
    ensures var sub := RunFrom(st, es).subnet; Canonical(sub.usedIP) && Drift(sub) == Drift(st.subnet)
    decreases |es|
  {
    if es != [] {
      DriftConserved(st, es[0]);
      DriftConservedFrom(Apply(st, es[0]), es[1..]);
    }
  }

  /** Over a whole stretch of any run without the subnet handler, and without an addition
      that wraps, the difference between the count and the covered addresses stays the same. */
  lemma DriftConservedInRun(spec: SubnetSpec, es: seq<Event>, more: seq<Event>)
    requires Valid(spec.net) && Canonical(Run(spec, es).subnet.usedIP) && AllCount(Run(spec, es), more)
    ensures var sub := Run(spec, es + more).subnet;
            Canonical(sub.usedIP) && Drift(sub) == Drift(Run(spec, es).subnet)
  {
    RunIsRunFrom(spec, es, more);
    DriftConservedFrom(Run(spec, es), more);
  }

  /** The gateways that activation has added without counting them since the last self check
      that wrote, less what that one has counted twice. */
  ghost function Uncounted(spec: SubnetSpec, es: seq<Event>): int
    requires Valid(spec.net)
  {
    if es == [] then 0
    else
      var st, e := Run(spec, es[..|es| - 1]), es[|es| - 1];
      var before := Uncounted(spec, es[..|es| - 1]);
      if e.ActivateSubnet? && st.subnet.spec.gateway.Some?
         && !Covers(st.subnet.usedIP, st.subnet.spec.gateway.value) then before + 1
      else if e.WriteCheck? && st.pending.Checking? && CheckWrites(st.subnet, st.pending.counted)
      then |Elements(st.pending.counted)| - |st.pending.counted|
      else before
  }

  lemma ActivateDrift(st: State)
    requires ValidState(st) && Inv(st) && Safe(st, ActivateSubnet)
    ensures var sub := Apply(st, ActivateSubnet).subnet;
            Drift(sub) == Drift(st.subnet) -
              (if st.subnet.spec.gateway.Some? && !Covers(st.subnet.usedIP, st.subnet.spec.gateway.value) then 1 else 0)
  {
    if st.subnet.spec.gateway.Some? {
      AddCounts(st.subnet.spec.gateway.value, st.subnet.usedIP);
    }
  }

  lemma WriteCheckDrift(st: State)
    requires ValidState(st) && Inv(st) && Safe(st, WriteCheck)
    ensures var sub := Apply(st, WriteCheck).subnet;
            Drift(sub) == if st.pending.Checking? && CheckWrites(st.subnet, st.pending.counted)
                          then |st.pending.counted| - |Elements(st.pending.counted)| else Drift(st.subnet)
  {
    if st.pending.Checking? && CheckWrites(st.subnet, st.pending.counted) {
      AddAllExact(st.pending.counted, []);
      assert Addrs(AddAll(st.pending.counted, [])) == Elements(st.pending.counted);
    }
  }

  /** In every state of a safe run the count misses the number of covered addresses by
      exactly the gateways that activation added uncounted, less what the last self check
      that wrote counted twice. */
  lemma {:induction false} CountInRun(spec: SubnetSpec, es: seq<Event>)
    requires Valid(spec.net) && SafeRun(spec, es)
    ensures var sub := Run(spec, es).subnet; sub.usedIPCount == |Addrs(sub.usedIP)| - Uncounted(spec, es)
  {
    if es == [] {
      assert Addrs([]) == {};
    } else {
      var st, e := Run(spec, es[..|es| - 1]), es[|es| - 1];
      CountInRun(spec, es[..|es| - 1]);
      SafeRunKeeps(spec, es[..|es| - 1]);
      if e.ActivateSubnet? {
        ActivateDrift(st);
      } else if e.WriteCheck? {
        WriteCheckDrift(st);
      } else {
        DriftConserved(st, e);
      }
    }
  }

  // ----- what a self check that writes does -----

  /** From whatever status, a self check with nothing in between its listing and its write
      either changes nothing or covers exactly the addresses of the objects that are not being
      deleted and the gateway: what an object that is being deleted holds becomes free. These
      objects hold distinct addresses, and the count is right unless one holds the gateway. */
  lemma UndisturbedCheckExact(st: State, listing: seq<Listed>)
    requires ValidState(st) && st.pending.Nothing? && ReleasedAreDeleting(st) && forall n :: n in st.ips ==> n != ""
    requires Lists(listing, st.ips) && AddAllSafe(Counted(listing, st.subnet.spec.gateway), [])
    ensures var g := st.subnet.spec.gateway;
            var st' := Apply(Apply(st, ListIPs(listing, g)), WriteCheck);
            st' == st ||
            (&& Canonical(st'.subnet.usedIP) && st'.subnet.gateway == g
             && (forall a: Addr :: Covers(st'.subnet.usedIP, a) <==>
                   (exists n :: Holds(st, n, a) && !st.ips[n].deleting) || g == Some(a))
             && DistinctLive(listing)
             && (st'.subnet.usedIPCount == |Addrs(st'.subnet.usedIP)| <==> (g.Some? ==> !Held(listing, g.value))))
  {
    var g := st.subnet.spec.gateway;
    CurrentRebuiltExact(st, listing, g);
    var counted := Counted(listing, g);
    if Duplicated(listing) == [] {
      assert Apply(st, ListIPs(listing, g)) == st.(pending := Checking(counted));
      assert Apply(st.(pending := Checking(counted)), WriteCheck) == st.(subnet := Recount(st.subnet, counted));
    }
  }

  lemma CurrentRebuiltExact(st: State, listing: seq<Listed>, g: Option<Addr>)
    requires ReleasedAreDeleting(st) && Lists(listing, st.ips) && AddAllSafe(Counted(listing, g), [])
    requires forall n :: n in st.ips ==> n != ""
    ensures var used := Rebuilt(listing, g);
            && Canonical(used)
            && (forall a: Addr :: Covers(used, a) <==> (exists n :: Holds(st, n, a) && !st.ips[n].deleting) || g == Some(a))
            && (Duplicated(listing) == [] ==>
                  && DistinctLive(listing)
                  && (|Counted(listing, g)| == |Addrs(used)| <==> (g.Some? ==> !Held(listing, g.value))))
  {
    NoDuplicatesExact(listing);
    RebuiltExact(listing, g);
    forall a: Addr ensures Held(listing, a) <==> exists n :: Holds(st, n, a) && !st.ips[n].deleting {
      HeldByListed(st, listing, a);
    }
  }

  // ----- the fallback -----

  lemma DeleteUndoesInsert(used: seq<MAC>, m: MAC)
    requires Sorted(used)
    ensures Delete(Sort(used + [m]), m) == used <==> m !in used
  {
    var s := Sort(used + [m]);
    SortSorts(used + [m]);
    DeleteExact(s, m);
    if m !in used {
      DeleteMultiset(s, m);
      assert multiset(Delete(s, m)) == multiset(used);
      SortedUnique(Delete(s, m), used);
    }
  }

  lemma {:induction false} DeleteMultiset(s: seq<MAC>, m: MAC)
    ensures multiset(Delete(s, m)) == multiset(s)[m := 0]
  {
    if s != [] {
      var n := |s| - 1;
      DeleteMultiset(s[..n], m);
      assert multiset(s) == multiset(s[..n]) + multiset{s[n]} by { assert s == s[..n] + [s[n]]; }
      assert Delete(s, m) == if s[n] == m then Delete(s[..n], m) else Delete(s[..n], m) + [s[n]];
    }
  }

  /** Rolling back a fresh allocation restores the used list and the count; the
      whole subnet comes back exactly if the MAC, if any, was fresh too. */
  lemma FallbackRestores(sub: SubnetObject, a: Addr, mac: Option<MAC>)
    requires Canonical(sub.usedIP) && Sorted(sub.usedMAC)
    requires !Covers(sub.usedIP, a) && AddSafe(a, sub.usedIP)
    ensures var sub' := RollBack(Commit(sub, a, mac), a, mac);
            && sub'.usedIP == sub.usedIP && sub'.usedIPCount == sub.usedIPCount
            && (sub' == sub <==> (mac.Some? ==> mac.value !in sub.usedMAC))
  {
    AddExact(a, sub.usedIP);
    RemoveUndoesAdd(a, sub.usedIP);
    if mac.Some? {
      DeleteUndoesInsert(sub.usedMAC, mac.value);
    }
  }
}

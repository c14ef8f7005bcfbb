/** The operator's handlers as they run: they read and overwrite the stored status of one
subnet and its IP objects, one write after the other. */
module Handlers {
  import opened Options
  import opened Ranges
  import opened Blocks
  import opened Macs
  import opened Allocator
  import opened Objects
  import opened SelfCheck
  import C = Controller

  method AllocateIP(spec: SubnetSpec, ip: IPObject, used: seq<IPRange>) returns (o: Outcome)
    requires Valid(spec.net) && WellFormed(used)
    ensures o == C.AllocateIP(spec, ip, used) && C.AllocatedAs(spec, ip, used, o)
  {
    C.AllocateIPExact(spec, ip, used);
    if C.AlreadyAllocatedIP(spec, ip) {
      return Found(ip.addr.value);
    }
    if |ip.addrs| == 0 {
      o := GetAvailableIP(spec.net, spec.ranges, used);
      return;
    }
    for i := 0 to |ip.addrs|
      invariant C.AllocateIP(spec, ip, used) == C.FirstListed(ip.addrs[i..], spec.ranges, used)
    {
      assert ip.addrs[i..][1..] == ip.addrs[i + 1..];
      if ip.addrs[i].None? {
        return NoAvailable;
      }
      var inRanges := IPInRanges(ip.addrs[i], spec.ranges);
      if |spec.ranges| != 0 && !inRanges {
        continue;
      }
      var taken := IPInRanges(ip.addrs[i], used);
      if !taken {
        return Found(ip.addrs[i].value);
      }
    }
    return NoAvailable;
  }

  /** The binary search agrees with membership because UsedMAC is sorted. */
  method AllocateMAC(ip: IPObject, used: seq<MAC>) returns (o: C.MACOutcome)
    requires Sorted(used)
    ensures o == C.AllocateMAC(ip, used) && C.MACAllocatedAs(ip, used, o)
  {
    C.AllocateMACExact(ip, used);
    if |ip.macs| == 0 {
      return C.MACFound(None);
    }
    if C.AlreadyAllocatedMAC(ip) {
      return C.MACFound(ip.mac);
    }
    for i := 0 to |ip.macs|
      invariant C.AllocateMAC(ip, used) == C.FirstUnusedMAC(ip.macs[i..], used)
    {
      assert ip.macs[i..][1..] == ip.macs[i + 1..];
      var _, found := BinarySearch(used, ip.macs[i]);
      if !found {
        return C.MACFound(Some(ip.macs[i]));
      }
    }
    return C.MACNotAvailable;
  }

  /** What the handler has is the outcome of both allocations, or nothing if one of them fails. */
  ghost predicate ChosenAs(seen: IPObject, sub: SubnetObject, n: Name, p: Pending) {
    match p
    case Chosen(m, a, mac) => m == n && C.AllocatedAs(sub.spec, seen, sub.usedIP, Found(a)) && C.MACAllocatedAs(seen, sub.usedMAC, C.MACFound(mac))
    case Nothing =>
      || C.AllocatedAs(sub.spec, seen, sub.usedIP, NoAvailable) || C.AllocatedAs(sub.spec, seen, sub.usedIP, Loops)
      || C.MACAllocatedAs(seen, sub.usedMAC, C.MACNotAvailable)
    case _ => false
  }

  method ChooseFor(n: Name, seen: IPObject, sub: SubnetObject) returns (p: Pending)
    requires Valid(sub.spec.net) && WellFormed(sub.usedIP) && Sorted(sub.usedMAC)
    ensures p == C.ChoiceFor(sub, n, seen) && ChosenAs(seen, sub, n, p)
  {
    var allocatedIP := AllocateIP(sub.spec, seen, sub.usedIP);
    if !allocatedIP.Found? {
      return Nothing;
    }
    var allocatedMAC := AllocateMAC(seen, sub.usedMAC);
    if allocatedMAC.MACNotAvailable? {
      return Nothing;
    }
    return Chosen(n, allocatedIP.addr, allocatedMAC.mac);
  }

  // ----- what the writes do to the status -----

  /** The address is used, counted if it was not, and nothing else has changed: exactly if
      its addition does not wrap. */
  ghost predicate Takes(before: SubnetObject, a: Addr, after: SubnetObject) {
    && AddsExactly(a, before.usedIP, after.usedIP)
    && after.usedIPCount == before.usedIPCount + if Covers(before.usedIP, a) then 0 else 1
  }

  ghost predicate Frees(before: SubnetObject, addr: Option<Addr>, after: SubnetObject) {
    && Canonical(after.usedIP)
    && (if addr.Some? then CoverMinus(before.usedIP, addr.value, after.usedIP) else after.usedIP == before.usedIP)
    && after.usedIPCount == before.usedIPCount - if addr.Some? && Covers(before.usedIP, addr.value) then 1 else 0
  }

  ghost predicate TakesMAC(before: seq<MAC>, mac: Option<MAC>, after: seq<MAC>) {
    Sorted(after) && multiset(after) == multiset(before) + if mac.Some? then multiset{mac.value} else multiset{}
  }

  ghost predicate FreesMAC(before: seq<MAC>, mac: Option<MAC>, after: seq<MAC>) {
    Sorted(after) && multiset(after) == if mac.Some? then multiset(before)[mac.value := 0] else multiset(before)
  }

  /** Phase, gateway and specification stay. */
  predicate SameButUsage(before: SubnetObject, after: SubnetObject) {
    before.(usedIP := after.usedIP, usedIPCount := after.usedIPCount, usedMAC := after.usedMAC) == after
  }

  lemma TakeMACExact(used: seq<MAC>, mac: Option<MAC>)
    requires Sorted(used)
    ensures TakesMAC(used, mac, if mac.Some? then Sort(used + [mac.value]) else used)
  {
    if mac.Some? {
      SortSorts(used + [mac.value]);
      assert multiset(used + [mac.value]) == multiset(used) + multiset{mac.value};
    }
  }

  lemma TakeExact(sub: SubnetObject, a: Addr, mac: Option<MAC>)
    ensures var sub' := C.Commit(sub, a, mac);
            && SameButUsage(sub, sub')
            && sub'.usedMAC == (if mac.Some? then Sort(sub.usedMAC + [mac.value]) else sub.usedMAC)
            && (Canonical(sub.usedIP) ==> (Takes(sub, a, sub') <==> AddSafe(a, sub.usedIP)))
  {
    if Canonical(sub.usedIP) {
      AddExact(a, sub.usedIP);
    }
  }

  lemma CommitExact(sub: SubnetObject, a: Addr, mac: Option<MAC>)
    requires Sorted(sub.usedMAC)
    ensures var sub' := C.Commit(sub, a, mac);
            && SameButUsage(sub, sub') && TakesMAC(sub.usedMAC, mac, sub'.usedMAC)
            && (Canonical(sub.usedIP) ==> (Takes(sub, a, sub') <==> AddSafe(a, sub.usedIP)))
  {
    TakeExact(sub, a, mac);
    TakeMACExact(sub.usedMAC, mac);
  }

  lemma DropExact(sub: SubnetObject, addr: Option<Addr>)
    ensures Canonical(sub.usedIP) ==> Frees(sub, addr, C.DropAddr(sub, addr))
  {
    if addr.Some? && Canonical(sub.usedIP) {
      RemoveExact(addr.value, sub.usedIP);
    }
  }

  lemma RollBackExact(sub: SubnetObject, a: Addr, mac: Option<MAC>)
    requires Sorted(sub.usedMAC)
    ensures var sub' := C.RollBack(sub, a, mac);
            SameButUsage(sub, sub') && (Canonical(sub.usedIP) ==> Frees(sub, Some(a), sub')) && FreesMAC(sub.usedMAC, mac, sub'.usedMAC)
  {
    DropExact(sub, Some(a));
    if mac.Some? {
      DeleteExact(sub.usedMAC, mac.value);
      C.DeleteMultiset(sub.usedMAC, mac.value);
    }
  }

  lemma ReleaseExact(sub: SubnetObject, ip: IPObject)
    requires Sorted(sub.usedMAC)
    ensures var sub' := C.ReleaseStatus(sub, ip);
            SameButUsage(sub, sub') && (Canonical(sub.usedIP) ==> Frees(sub, ip.addr, sub')) && FreesMAC(sub.usedMAC, ip.mac, sub'.usedMAC)
  {
    DropExact(sub, ip.addr);
    if ip.mac.Some? {
      C.DeleteMultiset(sub.usedMAC, ip.mac.value);
      SortSorts(Delete(sub.usedMAC, ip.mac.value));
    }
  }

  lemma NotHeldWhenUncommitted(st: State, st1: State)
    requires C.ChoiceOwn(st) && st.pending.Chosen? && st1.ips == st.ips && st1.released == st.released
    ensures C.NotHeld(st1, st.pending.addr) <==> !C.Holds(st, st.pending.name, st.pending.addr)
  {
    assert forall n :: C.Holds(st1, n, st.pending.addr) <==> C.Holds(st, n, st.pending.addr);
  }

  /** A choice that is committed and rolled back at once. */
  lemma RolledBack(st: State)
    requires C.ValidState(st) && st.pending.Chosen? && Sorted(st.subnet.usedMAC)
    ensures var a, st' := st.pending.addr, C.Apply(C.Apply(st, C.CommitChoice), C.FallBack);
            C.Inv(st) && AddSafe(a, st.subnet.usedIP) ==>
              && (C.Inv(st') <==> !C.Holds(st, st.pending.name, a))
              && (!Covers(st.subnet.usedIP, a) ==>
                    st'.subnet.usedIP == st.subnet.usedIP && st'.subnet.usedIPCount == st.subnet.usedIPCount)
  {
    var a, st1 := st.pending.addr, C.Apply(st, C.CommitChoice);
    if C.Inv(st) && AddSafe(a, st.subnet.usedIP) {
      C.CommitKeepsIff(st);
      C.FallBackKeepsIff(st1);
      NotHeldWhenUncommitted(st, st1);
      if !Covers(st.subnet.usedIP, a) {
        C.FallbackRestores(st.subnet, a, st.pending.mac);
      }
    }
  }

  /** The list that the self check builds is right unless an interval in it is inverted. */
  lemma CountedIsCovered(listing: seq<Listed>, gateway: Option<Addr>)
    requires |listing| <= C.MAX_LENGTH
    ensures WellFormed(Rebuilt(listing, gateway)) ==>
              && Canonical(Rebuilt(listing, gateway))
              && forall a: Addr :: Covers(Rebuilt(listing, gateway), a) <==> Held(listing, a) || gateway == Some(a)
  {
    LiveAddrsFewer(listing);
    AddAllExactIff(Counted(listing, gateway));
    LiveAddrsExact(listing);
  }

  // ----- the stored objects -----

  class Store {
    const start: SubnetSpec
    var subnet: SubnetObject
    var ips: map<Name, IPObject>
    var released: set<Name>
    var pending: Pending
    ghost var history: seq<C.Event>

    function Now(): State
      reads this
    {
      State(subnet, ips, released, pending)
    }

    /** What is stored is what the events so far lead to. */
    ghost predicate Tracked()
      reads this
    {
      Blocks.Valid(start.net) && Now() == C.Run(start, history)
    }

    /** And all of them were safe. */
    ghost predicate Valid()
      reads this
    {
      Tracked() && C.SafeRun(start, history)
    }

    /** After the event e: if all was well before, all is well again if and only if e was safe,
        and then, and for all but new choices only then, what is stored satisfies the
        invariant. */
    twostate predicate Happened(e: C.Event)
      reads this
    {
      && Tracked() && history == old(history) + [e]
      && C.ValidState(old(Now())) && Now() == C.Apply(old(Now()), e)
      && (old(Valid()) ==>
            && (Valid() <==> old(C.Safe(Now(), e)))
            && (Valid() ==> C.Inv(Now()))
            && (!C.IsFreshChoice(e) && C.Inv(Now()) ==> Valid()))
    }

    lemma Facts()
      requires Tracked()
      ensures C.ValidState(Now()) && Sorted(subnet.usedMAC)
      ensures Valid() ==> C.Inv(Now())
    {
      C.MACsAreSorted(start, history);
      if Valid() {
        C.SafeRunKeeps(start, history);
      }
    }

    twostate lemma Record(e: C.Event)
      requires old(Tracked()) && history == old(history) + [e] && C.ValidState(old(Now())) && Now() == C.Apply(old(Now()), e)
      ensures Happened(e)
    {
      assert history[..|history| - 1] == old(history);
      if old(Valid()) {
        C.SafeRunKeeps(start, old(history));
        C.StepKeepsIff(old(Now()), e);
      }
    }

    constructor (spec: SubnetSpec)
      requires Blocks.Valid(spec.net)
      ensures Valid() && Now() == C.Initial(spec)
    {
      start, history := spec, [];
      subnet := SubnetObject(spec, SubnetInit, [], 0, [], None);
      ips, released, pending := map[], {}, Nothing;
    }

    /** The status write of onSubnetCreate. */
    method ActivateSubnet()
      requires Tracked()
      modifies this
      ensures Happened(C.ActivateSubnet)
      ensures ips == old(ips) && released == old(released) && pending == old(pending)
      ensures subnet.phase == SubnetActive && subnet.gateway == subnet.spec.gateway && subnet.spec == old(subnet.spec)
      ensures subnet.usedIPCount == old(subnet.usedIPCount) && subnet.usedMAC == old(subnet.usedMAC)
      ensures match subnet.gateway
              case None => subnet.usedIP == old(subnet.usedIP)
              case Some(g) =>
                old(Canonical(subnet.usedIP)) ==> (AddsExactly(g, old(subnet.usedIP), subnet.usedIP) <==> old(AddSafe(g, subnet.usedIP)))
    {
      Facts();
      var usedIP := AddIPToRange(subnet.spec.gateway, subnet.usedIP);
      if subnet.spec.gateway.Some? && Canonical(subnet.usedIP) {
        AddExact(subnet.spec.gateway.value, subnet.usedIP);
      }
      subnet := subnet.(phase := SubnetActive, usedIP := usedIP, gateway := subnet.spec.gateway);
      history := history + [C.ActivateSubnet];
      Record(C.ActivateSubnet);
    }

    /** The first half of the self check: listing, duplicates, and the new usage. */
    method ListIPs(listing: seq<Listed>, gateway: Option<Addr>) returns (usedIP: seq<IPRange>, usedIPCount: nat)
      requires Tracked() && pending.Nothing? && |listing| <= C.MAX_LENGTH
      modifies this
      ensures Happened(C.ListIPs(listing, gateway)) && (old(Valid()) ==> Valid())
      ensures subnet == old(subnet) && ips == old(ips) && released == old(released)
      ensures pending.Nothing? || (pending.Checking? && usedIP == AddAll(pending.counted, []) && usedIPCount == |pending.counted|)
      ensures (forall l :: l in listing ==> l.name != "") ==> (pending.Checking? <==> DistinctLive(listing))
      ensures pending.Checking? && WellFormed(usedIP) ==>
                Canonical(usedIP) && forall a: Addr :: Covers(usedIP, a) <==> Held(listing, a) || gateway == Some(a)
    {
      Facts();
      usedIP, usedIPCount := [], 0;
      if forall l :: l in listing ==> l.name != "" {
        NoDuplicatesExact(listing);
      }
      var duplicatedIPs := FilterDuplicatedIP(listing);
      if |duplicatedIPs| == 0 {
        usedIP, usedIPCount := RebuildUsage(listing, gateway);
        pending := Checking(Counted(listing, gateway));
        CountedIsCovered(listing, gateway);
      }
      history := history + [C.ListIPs(listing, gateway)];
      Record(C.ListIPs(listing, gateway));
    }

    /** The second half: the write, which a new gateway and a new usage together bring about. */
    method WriteCheck(usedIP: seq<IPRange>, usedIPCount: nat)
      requires Tracked() && pending.Checking? && usedIP == AddAll(pending.counted, []) && usedIPCount == |pending.counted|
      modifies this
      ensures Happened(C.WriteCheck)
      ensures pending.Nothing? && ips == old(ips) && released == old(released)
      ensures subnet == if old(subnet.spec.gateway == subnet.gateway || (subnet.usedIP == usedIP && subnet.usedIPCount == usedIPCount))
                        then old(subnet)
                        else old(subnet).(usedIP := usedIP, usedIPCount := usedIPCount, gateway := old(subnet.spec.gateway))
    {
      Facts();
      var skipUpdate := false;
      if subnet.usedIPCount == usedIPCount && usedIP == subnet.usedIP {
        skipUpdate := true;
      }
      if subnet.spec.gateway == subnet.gateway {
        skipUpdate := true;
      }
      if !skipUpdate {
        subnet := subnet.(usedIPCount := usedIPCount, usedIP := usedIP, gateway := subnet.spec.gateway);
      }
      pending := Nothing;
      history := history + [C.WriteCheck];
      Record(C.WriteCheck);
    }

    /** The choice of onIPCreate, from the subnet as it was after k events. If that is the
        current one, the choice is safe. */
    method Choose(n: Name, seen: IPObject, sub: SubnetObject, ghost k: nat)
      requires Valid() && pending.Nothing? && k <= |history| && sub == C.Run(start, history[..k]).subnet
      modifies this
      ensures Happened(C.Choose(n, seen, sub))
      ensures subnet == old(subnet) && ips == old(ips) && released == old(released)
      ensures if sub.phase == SubnetActive && !seen.deleting && seen.phase != IPPending && seen.phase != IPActive
              then ChosenAs(seen, sub, n, pending) else pending.Nothing?
      ensures old(k == |history| && (seen.addr.None? || C.Holds(Now(), n, seen.addr.value))) ==> Valid()
    {
      Facts();
      C.SafePrefix(start, history, k);
      C.SafeRunKeeps(start, history[..k]);
      C.MACsAreSorted(start, history[..k]);
      assert history[..|history|] == history;
      if k == |history| && (seen.addr.None? || C.Holds(Now(), n, seen.addr.value)) {
        C.CurrentChoiceIsSafe(Now(), n, seen, sub);
      }
      if sub.phase == SubnetActive && !seen.deleting && (seen.phase == IPInit || seen.phase == IPFailed) {
        pending := ChooseFor(n, seen, sub);
      }
      history := history + [C.Choose(n, seen, sub)];
      Record(C.Choose(n, seen, sub));
    }

    /** onIPUpdate: an active object whose address or MAC no longer fits its specification goes
        back to the initial phase, any other is left alone. */
    method ResetIP(n: Name, seen: IPObject, sub: SubnetObject)
      requires Tracked()
      modifies this
      ensures Happened(C.ResetIP(n, seen, sub)) && (old(Valid()) ==> Valid())
      ensures subnet == old(subnet) && released == old(released) && pending == old(pending)
      ensures var addrFits := seen.addr.Some? &&
                (if seen.addrs == [] then sub.spec.net.first <= seen.addr.value <= Last(sub.spec.net) else seen.addr in seen.addrs);
              var macFits := seen.macs == [] || (seen.mac.Some? && seen.mac.value in seen.macs);
              ips == if n in old(ips) && seen.phase == IPActive && !(addrFits && macFits)
                     then old(ips)[n := old(ips)[n].(phase := IPInit)] else old(ips)
    {
      Facts();
      if n in ips && seen.phase == IPActive {
        if !C.AlreadyAllocatedIP(sub.spec, seen) || !C.AlreadyAllocatedMAC(seen) {
          ips := ips[n := ips[n].(phase := IPInit)];
        }
      }
      history := history + [C.ResetIP(n, seen, sub)];
      Record(C.ResetIP(n, seen, sub));
    }

    /** What the error handlers write when a handler of the subnet or of an IP object fails. */
    method SubnetError()
      requires Tracked()
      modifies this
      ensures Happened(C.SubnetError) && (old(Valid()) ==> Valid())
      ensures ips == old(ips) && released == old(released) && pending == old(pending)
      ensures subnet.phase == SubnetFailed && subnet.(phase := old(subnet.phase)) == old(subnet)
    {
      Facts();
      subnet := subnet.(phase := SubnetFailed);
      history := history + [C.SubnetError];
      Record(C.SubnetError);
    }

    method IPError(n: Name)
      requires Tracked()
      modifies this
      ensures Happened(C.IPError(n)) && (old(Valid()) ==> Valid())
      ensures subnet == old(subnet) && released == old(released) && pending == old(pending)
      ensures ips.Keys == old(ips.Keys)
      ensures forall m :: m in ips ==> ips[m] == if m == n then old(ips)[m].(phase := IPFailed) else old(ips)[m]
    {
      Facts();
      if n in ips {
        ips := ips[n := ips[n].(phase := IPFailed)];
      }
      history := history + [C.IPError(n)];
      Record(C.IPError(n));
    }

    /** The subnet write of onIPCreate, on the subnet as it is now. */
    method CommitChoice()
      requires Tracked() && pending.Chosen?
      modifies this
      ensures Happened(C.CommitChoice)
      ensures ips == old(ips) && released == old(released)
      ensures pending == Committed(old(pending.name), old(pending.addr), old(pending.mac), subnet)
      ensures SameButUsage(old(subnet), subnet) && TakesMAC(old(subnet.usedMAC), pending.mac, subnet.usedMAC)
      ensures old(Canonical(subnet.usedIP)) ==> (Takes(old(subnet), pending.addr, subnet) <==> old(AddSafe(pending.addr, subnet.usedIP)))
    {
      Facts();
      CommitExact(subnet, pending.addr, pending.mac);
      var result := subnet;
      var present := IPInRanges(Some(pending.addr), result.usedIP);
      if !present {
        var usedIP := AddIPToRange(Some(pending.addr), result.usedIP);
        result := result.(usedIP := usedIP, usedIPCount := result.usedIPCount + 1);
      }
      if pending.mac.Some? {
        result := result.(usedMAC := Sort(result.usedMAC + [pending.mac.value]));
      }
      assert result == C.Commit(subnet, pending.addr, pending.mac);
      subnet := result;
      pending := Committed(pending.name, pending.addr, pending.mac, result);
      history := history + [C.CommitChoice];
      Record(C.CommitChoice);
    }

    /** The IP write of onIPCreate, on the object as it is now. */
    method WriteChoice()
      requires Tracked() && pending.Committed? && pending.name in ips
      modifies this
      ensures Happened(C.WriteChoice)
      ensures pending.Nothing? && subnet == old(subnet) && released == old(released) - {old(pending.name)}
      ensures var n, ip := old(pending.name), old(ips[pending.name]);
              ips == old(ips)[n := ip.(addr := Some(old(pending.addr)), mac := old(pending.mac), phase := IPPending)]
      ensures C.Holds(Now(), old(pending.name), old(pending.addr))
      ensures old(Valid()) ==> Valid() && C.EachAddressOnce(Now())
    {
      Facts();
      ips := ips[pending.name := ips[pending.name].(addr := Some(pending.addr), mac := pending.mac, phase := IPPending)];
      released, pending := released - {pending.name}, Nothing;
      history := history + [C.WriteChoice];
      Record(C.WriteChoice);
      if C.Inv(Now()) {
        C.InvMeansOnce(Now());
      }
    }

    /** What onIPCreate does when the IP write fails: the API server takes the roll-back only
        if no one has written the subnet since. */
    method FallBack()
      requires Tracked() && pending.Committed?
      modifies this
      ensures Happened(C.FallBack)
      ensures pending.Nothing? && ips == old(ips) && released == old(released)
      ensures if old(subnet == pending.saved)
              then && SameButUsage(old(subnet), subnet)
                   && (old(Canonical(subnet.usedIP)) ==> Frees(old(subnet), Some(old(pending.addr)), subnet))
                   && FreesMAC(old(subnet.usedMAC), old(pending.mac), subnet.usedMAC)
              else subnet == old(subnet)
    {
      Facts();
      RollBackExact(subnet, pending.addr, pending.mac);
      if subnet == pending.saved {
        var result := subnet;
        var present := IPInRanges(Some(pending.addr), result.usedIP);
        if present {
          var usedIP := RemoveIPFromRange(Some(pending.addr), result.usedIP);
          result := result.(usedIP := usedIP, usedIPCount := result.usedIPCount - 1);
        }
        if pending.mac.Some? && |result.usedMAC| != 0 {
          result := result.(usedMAC := Delete(result.usedMAC, pending.mac.value));
        }
        assert result == C.RollBack(subnet, pending.addr, pending.mac);
        subnet := result;
      }
      pending := Nothing;
      history := history + [C.FallBack];
      Record(C.FallBack);
    }

    /** The subnet write of handleIPRemove. */
    method Release(n: Name, seen: IPObject)
      requires Tracked() && pending.Nothing?
      modifies this
      ensures Happened(C.Release(n, seen))
      ensures pending.Nothing? && ips == old(ips)
      ensures released == old(released) + if n in ips && ips[n].deleting && seen.addr == ips[n].addr then {n} else {}
      ensures && SameButUsage(old(subnet), subnet)
              && (old(Canonical(subnet.usedIP)) ==> Frees(old(subnet), seen.addr, subnet))
              && FreesMAC(old(subnet.usedMAC), seen.mac, subnet.usedMAC)
      ensures old(Valid() && (seen.addr.Some? ==> C.FreesOwn(Now(), n, seen) && n !in released)) ==> Valid()
    {
      Facts();
      ReleaseExact(subnet, seen);
      if Valid() && (seen.addr.Some? ==> C.FreesOwn(Now(), n, seen) && n !in released) {
        C.FirstRemovalIsSafe(Now(), n, seen);
      }
      var result := subnet;
      var present := IPInRanges(seen.addr, result.usedIP);
      if present {
        var usedIP := RemoveIPFromRange(seen.addr, result.usedIP);
        result := result.(usedIP := usedIP, usedIPCount := result.usedIPCount - 1);
      }
      if seen.mac.Some? {
        result := result.(usedMAC := Sort(Delete(result.usedMAC, seen.mac.value)));
      }
      assert result == C.ReleaseStatus(subnet, seen);
      subnet := result;
      if C.FreesOwn(Now(), n, seen) {
        released := released + {n};
      }
      history := history + [C.Release(n, seen)];
      Record(C.Release(n, seen));
    }

    /** The two writes of onIPCreate when no one writes in between: the object gets an address
        that no one else has, or, if its write fails, a new address leaves no trace in the used
        list. All stays well then if and only if the address is new to the object. */
    method CommitAndWrite(ipWriteFails: bool)
      requires Valid() && pending.Chosen? && (pending.name in ips || ipWriteFails)
      requires AddSafe(pending.addr, subnet.usedIP)
      modifies this
      ensures Tracked() && pending.Nothing?
      ensures !ipWriteFails ==> Valid() && C.Holds(Now(), old(pending.name), old(pending.addr)) && C.EachAddressOnce(Now())
      ensures ipWriteFails ==>
                && ips == old(ips) && released == old(released)
                && (Valid() <==> !old(C.Holds(Now(), pending.name, pending.addr)))
                && (old(!Covers(subnet.usedIP, pending.addr)) ==>
                      subnet.usedIP == old(subnet.usedIP) && subnet.usedIPCount == old(subnet.usedIPCount))
    {
      Facts();
      CommitChoice();
      if ipWriteFails {
        FallBack();
        RolledBack(old(Now()));
      } else {
        WriteChoice();
      }
    }
  }
}

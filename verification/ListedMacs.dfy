/** When no two IP objects have the same MAC among those that were asked for. The MACs that the
CNI plugin reports for objects that ask for none are not part of UsedMAC and not meant here. */
module ListedMacs {
  import opened Options
  import opened Ranges
  import opened Blocks
  import opened Macs
  import opened Objects
  import opened Controller

  /** The object has a MAC that it asks for, and its removal handler has not run. */
  predicate HoldsMAC(st: State, n: Name, m: MAC) {
    n in st.ips && n !in st.released && st.ips[n].mac == Some(m) && m in st.ips[n].macs
  }

  predicate MACHeldOnlyBy(st: State, n: Name, m: MAC) {
    forall k :: k in st.ips && HoldsMAC(st, k, m) ==> k == n
  }

  predicate MACNotHeld(st: State, m: MAC) {
    forall k :: k in st.ips ==> !HoldsMAC(st, k, m)
  }

  ghost predicate MACInv(st: State) {
    && (forall n, m :: HoldsMAC(st, n, m) ==> m in st.subnet.usedMAC)
    && (forall n, k, m :: HoldsMAC(st, n, m) && HoldsMAC(st, k, m) ==> n == k)
    && (HasChoice(st.pending) && st.pending.mac.Some? ==>
          && MACHeldOnlyBy(st, st.pending.name, st.pending.mac.value)
          && (st.pending.Committed? ==> st.pending.mac.value in st.subnet.usedMAC))
  }

  /** Every MAC that is held is used in the subnet that the handler sees. */
  predicate CacheCoversMACs(st: State, sub: SubnetObject) {
    forall n :: n in st.ips && st.ips[n].mac.Some? && HoldsMAC(st, n, st.ips[n].mac.value) ==>
      st.ips[n].mac.value in sub.usedMAC
  }

  /** The object n may come to hold m. */
  predicate MACIsFor(st: State, n: Name, m: MAC) {
    && m in st.subnet.usedMAC && MACHeldOnlyBy(st, n, m)
    && (HasChoice(st.pending) && st.pending.mac == Some(m) ==> st.pending.name == n)
  }

  /** Whether an event keeps the invariant, decided from the state before it. */
  predicate MACSafe(st: State, e: Event) {
    match e
    case Choose(n, seen, sub) =>
      MayChoose(st, seen, sub) && AllocateIP(sub.spec, seen, sub.usedIP).Found? && seen.macs != [] ==>
        if AlreadyAllocatedMAC(seen) then MACHeldOnlyBy(st, n, seen.mac.value) else CacheCoversMACs(st, sub)
    case FallBack =>
      st.pending.Committed? && st.subnet == st.pending.saved && st.pending.mac.Some? ==> MACNotHeld(st, st.pending.mac.value)
    case Release(n, seen) =>
      st.pending.Nothing? && seen.mac.Some? ==>
        if FreesOwn(st, n, seen) then MACHeldOnlyBy(st, n, seen.mac.value) else MACNotHeld(st, seen.mac.value)
    case EditIP(n, addrs, macs) =>
      n in st.ips && n !in st.released && st.ips[n].mac.Some? && st.ips[n].mac.value in macs ==>
        MACIsFor(st, n, st.ips[n].mac.value)
    case ActivateIP(n, m) =>
      n in st.ips && n !in st.released && st.ips[n].addr.Some? && m in st.ips[n].macs ==> MACIsFor(st, n, m)
    case _ => true
  }

  predicate IsFreshMAC(e: Event) { e.Choose? && e.seen.macs != [] && !AlreadyAllocatedMAC(e.seen) }

  // ----- event by event -----

  lemma MACChosenKeepsIff(st: State, p: Pending)
    requires MACInv(st) && st.pending.Nothing? && (p.Nothing? || p.Chosen?)
    ensures MACInv(st.(pending := p)) <==> (p.Chosen? && p.mac.Some? ==> MACHeldOnlyBy(st, p.name, p.mac.value))
  {
    var st' := st.(pending := p);
    assert forall n, m :: HoldsMAC(st', n, m) <==> HoldsMAC(st, n, m);
    assert p.Chosen? && p.mac.Some? ==>
      (MACHeldOnlyBy(st', p.name, p.mac.value) <==> MACHeldOnlyBy(st, p.name, p.mac.value));
  }

  lemma ReusedMACKeepsIff(st: State, e: Event)
    requires ValidState(st) && MACInv(st) && e.Choose? && !IsFreshMAC(e)
    ensures MACInv(Apply(st, e)) <==> MACSafe(st, e)
  {
    if MayChoose(st, e.seen, e.sub) {
      MACChosenKeepsIff(st, ChoiceFor(e.sub, e.name, e.seen));
    }
  }

  lemma FreshMACKeeps(st: State, e: Event)
    requires ValidState(st) && MACInv(st) && IsFreshMAC(e) && MACSafe(st, e)
    ensures MACInv(Apply(st, e))
  {
    if MayChoose(st, e.seen, e.sub) {
      var p := ChoiceFor(e.sub, e.name, e.seen);
      var i := FirstUnusedMACExact(e.seen.macs, e.sub.usedMAC);
      assert p.Chosen? ==> p.mac.Some? && p.mac.value !in e.sub.usedMAC;
      MACChosenKeepsIff(st, p);
    }
  }

  /** An object that has its address and asks for the MAC m. */
  function AsksMAC(m: MAC): IPObject { IPObject([Some(0)], [m], Some(0), None, IPInit, false) }

  /** A handler that sees the subnet sub keeps the invariant with every new choice of a MAC, for
      whatever object, if and only if sub has every MAC that is held. */
  lemma FreshMACsKeepIff(st: State, sub: SubnetObject)
    requires ValidState(st) && MACInv(st) && st.pending.Nothing? && sub.phase == SubnetActive && Valid(sub.spec.net)
    ensures (forall n, seen :: IsFreshMAC(Choose(n, seen, sub)) ==> MACInv(Apply(st, Choose(n, seen, sub)))) <==>
            CacheCoversMACs(st, sub)
  {
    if CacheCoversMACs(st, sub) {
      forall n, seen | IsFreshMAC(Choose(n, seen, sub)) ensures MACInv(Apply(st, Choose(n, seen, sub))) {
        FreshMACKeeps(st, Choose(n, seen, sub));
      }
    } else {
      var k :| k in st.ips && st.ips[k].mac.Some? && HoldsMAC(st, k, st.ips[k].mac.value) && st.ips[k].mac.value !in sub.usedMAC;
      var m := st.ips[k].mac.value;
      var n := OtherName(k);
      AskedMACIsChosen(st, n, m, sub);
      MACChosenKeepsIff(st, Chosen(n, 0, Some(m)));
      assert IsFreshMAC(Choose(n, AsksMAC(m), sub));
    }
  }

  lemma AskedMACIsChosen(st: State, n: Name, m: MAC, sub: SubnetObject)
    requires ValidState(st) && MayChoose(st, AsksMAC(m), sub) && m !in sub.usedMAC
    ensures Apply(st, Choose(n, AsksMAC(m), sub)) == st.(pending := Chosen(n, 0, Some(m)))
  {
    assert AlreadyAllocatedIP(sub.spec, AsksMAC(m));
    assert FirstUnusedMAC([m], sub.usedMAC) == MACFound(Some(m));
  }

  lemma MACCommitKeeps(st: State)
    requires ValidState(st) && MACInv(st)
    ensures MACInv(Apply(st, CommitChoice))
  {
    if st.pending.Chosen? {
      var st' := Apply(st, CommitChoice);
      CommitHasMACs(st.subnet, st.pending.addr, st.pending.mac);
      assert forall n, m :: HoldsMAC(st', n, m) <==> HoldsMAC(st, n, m);
    }
  }

  lemma CommitHasMACs(sub: SubnetObject, a: Addr, mac: Option<MAC>)
    ensures forall m :: m in Commit(sub, a, mac).usedMAC <==> m in sub.usedMAC || mac == Some(m)
  {
    if mac.Some? {
      SortSorts(sub.usedMAC + [mac.value]);
      SameElements(sub.usedMAC + [mac.value], Sort(sub.usedMAC + [mac.value]));
    }
  }

  lemma SameElements(s: seq<MAC>, t: seq<MAC>)
    requires multiset(s) == multiset(t)
    ensures forall m :: m in s <==> m in t
  {
    assert forall m :: m in s <==> m in multiset(s);
    assert forall m :: m in t <==> m in multiset(t);
  }

  lemma MACWriteKeeps(st: State)
    requires ValidState(st) && MACInv(st)
    ensures MACInv(Apply(st, WriteChoice))
  {
    if st.pending.Committed? && st.pending.name in st.ips {
      var st' := Apply(st, WriteChoice);
      forall n, m | HoldsMAC(st', n, m)
        ensures if n == st.pending.name then st.pending.mac == Some(m) else HoldsMAC(st, n, m) {
      }
    }
  }

  /** All occurrences of a MAC go. */
  lemma MACDropKeepsIff(st: State, st': State, m: MAC)
    requires MACInv(st) && st.pending.Nothing? && st'.pending.Nothing? && st'.ips == st.ips && st'.released == st.released
    requires forall x :: x in st'.subnet.usedMAC <==> x in st.subnet.usedMAC && x != m
    ensures MACInv(st') <==> MACNotHeld(st, m)
  {
    assert forall n, x :: HoldsMAC(st', n, x) <==> HoldsMAC(st, n, x);
  }

  lemma MACFallBackKeepsIff(st: State)
    requires ValidState(st) && MACInv(st)
    ensures MACInv(Apply(st, FallBack)) <==> MACSafe(st, FallBack)
  {
    var idle := st.(pending := Nothing);
    MACIdleKeeps(st);
    if st.pending.Committed? && st.subnet == st.pending.saved && st.pending.mac.Some? {
      var m, st' := st.pending.mac.value, Apply(st, FallBack);
      DeleteExact(st.subnet.usedMAC, m);
      MACDropKeepsIff(idle, st', m);
      assert forall n :: HoldsMAC(idle, n, m) <==> HoldsMAC(st, n, m);
    } else {
      MACSubnetKeeps(idle, Apply(st, FallBack).subnet);
    }
  }

  lemma MACIdleKeeps(st: State)
    requires MACInv(st)
    ensures MACInv(st.(pending := Nothing))
  {
    var st' := st.(pending := Nothing);
    assert forall n, m :: HoldsMAC(st', n, m) <==> HoldsMAC(st, n, m);
  }

  lemma MACSubnetKeeps(st: State, sub: SubnetObject)
    requires MACInv(st) && sub.usedMAC == st.subnet.usedMAC
    ensures MACInv(st.(subnet := sub))
  {
    var st' := st.(subnet := sub);
    assert forall n, m :: HoldsMAC(st', n, m) <==> HoldsMAC(st, n, m);
  }

  lemma MACReleaseKeepsIff(st: State, n: Name, seen: IPObject)
    requires ValidState(st) && MACInv(st)
    ensures MACInv(Apply(st, Release(n, seen))) <==> MACSafe(st, Release(n, seen))
  {
    if st.pending.Nothing? {
      var st' := Apply(st, Release(n, seen));
      var freed := st.(released := st'.released);
      assert forall k, m :: HoldsMAC(freed, k, m) <==> HoldsMAC(st, k, m) && !(FreesOwn(st, n, seen) && k == n);
      assert MACInv(freed);
      if seen.mac.Some? {
        var m := seen.mac.value;
        ReleasedMACs(st.subnet, seen, m);
        MACDropKeepsIff(freed, st', m);
      } else {
        MACSubnetKeeps(freed, st'.subnet);
      }
    }
  }

  lemma ReleasedMACs(sub: SubnetObject, seen: IPObject, m: MAC)
    requires seen.mac == Some(m)
    ensures forall x :: x in ReleaseStatus(sub, seen).usedMAC <==> x in sub.usedMAC && x != m
  {
    DeleteExact(sub.usedMAC, m);
    SortSorts(Delete(sub.usedMAC, m));
    SameElements(Delete(sub.usedMAC, m), Sort(Delete(sub.usedMAC, m)));
  }

  /** The object n is changed to ip, and holds the MAC of ip afterwards if that is asked for. */
  lemma MACTouchKeepsIff(st: State, n: Name, ip: IPObject)
    requires MACInv(st) && n in st.ips
    ensures MACInv(SetIP(st, n, ip)) <==>
            (n !in st.released && ip.mac.Some? && ip.mac.value in ip.macs ==> MACIsFor(st, n, ip.mac.value))
  {
    var st' := SetIP(st, n, ip);
    assert forall k, m :: k != n ==> (HoldsMAC(st', k, m) <==> HoldsMAC(st, k, m));
    if n !in st.released && ip.mac.Some? && ip.mac.value in ip.macs {
      assert HoldsMAC(st', n, ip.mac.value);
      if MACIsFor(st, n, ip.mac.value) {
        TouchedOnlyByIt(st, n, ip);
      }
    }
  }

  lemma TouchedOnlyByIt(st: State, n: Name, ip: IPObject)
    requires MACInv(st) && n in st.ips && ip.mac.Some? && MACIsFor(st, n, ip.mac.value)
    ensures MACInv(SetIP(st, n, ip))
  {
    var st' := SetIP(st, n, ip);
    forall k, m | HoldsMAC(st', k, m) ensures if k == n then m == ip.mac.value else HoldsMAC(st, k, m) {
    }
  }

  /** Nobody's MAC and no list of MACs changes. */
  lemma MACOtherKeeps(st: State, e: Event)
    requires ValidState(st) && MACInv(st)
    requires e.ActivateSubnet? || e.ListIPs? || e.WriteCheck? || e.SubnetError? || e.EditSubnet? || e.ResetIP? || e.IPError?
             || e.CreateIP? || e.DeleteIP? || e.Finalize? || e.GiveUp?
    ensures MACInv(Apply(st, e))
  {
    MACHoldersOnlyGo(st, e);
  }

  lemma MACHoldersOnlyGo(st: State, e: Event)
    requires ValidState(st)
    requires e.ActivateSubnet? || e.ListIPs? || e.WriteCheck? || e.SubnetError? || e.EditSubnet? || e.ResetIP? || e.IPError?
             || e.CreateIP? || e.DeleteIP? || e.Finalize? || e.GiveUp?
    ensures var st' := Apply(st, e);
            && (forall n, m :: HoldsMAC(st', n, m) ==> HoldsMAC(st, n, m))
            && st'.subnet.usedMAC == st.subnet.usedMAC
            && (HasChoice(st'.pending) ==> st'.pending == st.pending)
  {
  }

  /** From a state that satisfies the invariant a safe event leads to one that does; for all but
      new choices that is so if and only if the event is safe. */
  lemma MACStepKeepsIff(st: State, e: Event)
    requires ValidState(st) && MACInv(st)
    ensures MACSafe(st, e) ==> MACInv(Apply(st, e))
    ensures !IsFreshMAC(e) ==> (MACInv(Apply(st, e)) <==> MACSafe(st, e))
  {
    match e
    case Choose(n, seen, sub) =>
      if !IsFreshMAC(e) {
        ReusedMACKeepsIff(st, e);
      } else if MACSafe(st, e) {
        FreshMACKeeps(st, e);
      }
    case CommitChoice => MACCommitKeeps(st);
    case WriteChoice => MACWriteKeeps(st);
    case FallBack => MACFallBackKeepsIff(st);
    case Release(n, seen) => MACReleaseKeepsIff(st, n, seen);
    case EditIP(n, addrs, macs) =>
      if n in st.ips { MACTouchKeepsIff(st, n, st.ips[n].(addrs := addrs, macs := macs)); }
    case ActivateIP(n, m) =>
      if n in st.ips { MACTouchKeepsIff(st, n, st.ips[n].(mac := Some(m), phase := IPActive)); }
    case _ => MACOtherKeeps(st, e);
  }

  // ----- whole runs -----

  predicate MACSafeRun(spec: SubnetSpec, es: seq<Event>)
    requires Valid(spec.net)
  {
    es == [] ||
    (var init, e := es[..|es| - 1], es[|es| - 1];
     MACSafeRun(spec, init) && MACSafe(Run(spec, init), e))
  }

  /** In every state of a run of such events each MAC that is held is used, and held once. */
  lemma {:induction false} NoMACTwice(spec: SubnetSpec, es: seq<Event>)
    requires Valid(spec.net) && MACSafeRun(spec, es)
    ensures MACInv(Run(spec, es))
  {
    if es != [] {
      var init, e := es[..|es| - 1], es[|es| - 1];
      NoMACTwice(spec, init);
      MACStepKeepsIff(Run(spec, init), e);
    }
  }

  /** The roll-back of a MAC that the object already held frees it, and the next object that
      asks for it gets it too. */
  lemma RolledBackMACGivesTwice(st: State, k: Name, m: MAC)
    requires ValidState(st) && st.pending.Committed? && st.pending.mac == Some(m) && st.subnet == st.pending.saved
    requires HoldsMAC(st, st.pending.name, m) && k != st.pending.name && k in st.ips && k !in st.released
    requires st.ips[k].macs == [m] && st.ips[k].mac.None? && MayChoose(st.(pending := Nothing), st.ips[k], st.subnet)
    requires AllocateIP(st.subnet.spec, st.ips[k], RollBack(st.subnet, st.pending.addr, st.pending.mac).usedIP).Found?
    ensures var st1 := Apply(st, FallBack);
            var st2 := Apply(Apply(Apply(st1, Choose(k, st1.ips[k], st1.subnet)), CommitChoice), WriteChoice);
            HoldsMAC(st2, st.pending.name, m) && HoldsMAC(st2, k, m)
  {
    var st1 := Apply(st, FallBack);
    DeleteExact(st.subnet.usedMAC, m);
    assert FirstUnusedMAC([m], st1.subnet.usedMAC) == MACFound(Some(m));
    var a := AllocateIP(st.subnet.spec, st.ips[k], st1.subnet.usedIP).addr;
    assert Apply(st1, Choose(k, st1.ips[k], st1.subnet)) == st1.(pending := Chosen(k, a, Some(m)));
    ChosenMACIsWritten(st1.(pending := Chosen(k, a, Some(m))), st.pending.name, k, a, m);
  }

  lemma ChosenMACIsWritten(st: State, n: Name, k: Name, a: Addr, m: MAC)
    requires ValidState(st) && st.pending == Chosen(k, a, Some(m)) && k in st.ips && m in st.ips[k].macs
    requires n != k && HoldsMAC(st, n, m)
    ensures var st' := Apply(Apply(st, CommitChoice), WriteChoice); HoldsMAC(st', n, m) && HoldsMAC(st', k, m)
  {
  }
}

/** Runs in which the handlers see what is stored and nothing out of the ordinary happens. */
module OrderlyRuns {
  import opened Options
  import opened Ranges
  import opened Blocks
  import opened Objects
  import opened SelfCheck
  import opened Controller

  /** - A choice is made from the current used list and the current address, if any;
      - an address that the object already has is not rolled back;
      - an address is freed by the first removal, which sees the current address;
      - a self check finds the gateway of the status in the specification;
      - a gateway is reserved while it is unclaimed, and no addition wraps. */
  predicate Orderly(st: State, e: Event) {
    match e
    case Choose(n, seen, sub) =>
      sub.usedIP == st.subnet.usedIP && (seen.addr.Some? ==> Holds(st, n, seen.addr.value))
    case FallBack =>
      st.pending.Committed? && st.pending.name in st.ips ==> st.ips[st.pending.name].addr != Some(st.pending.addr)
    case Release(n, seen) => seen.addr.Some? ==> FreesOwn(st, n, seen) && n !in st.released
    case WriteCheck => st.subnet.spec.gateway == st.subnet.gateway
    case ActivateSubnet => Safe(st, e)
    case CommitChoice => Safe(st, e)
    case _ => true
  }

  lemma OrderlyIsSafe(st: State, e: Event)
    requires ValidState(st) && Inv(st) && Orderly(st, e)
    ensures Safe(st, e)
  {
    if e.Choose? {
      CurrentChoiceIsSafe(st, e.name, e.seen, e.sub);
    } else if e.Release? {
      FirstRemovalIsSafe(st, e.name, e.seen);
    } else if e.FallBack? && st.pending.Committed? {
      assert HeldOnlyBy(st, st.pending.name, st.pending.addr);
    }
  }

  // ----- a self check with a new gateway -----

  /** What is stored is listed, no object that is being deleted holds an address, and the
      gateway of the specification is not held. */
  predicate CleanListing(st: State, listing: seq<Listed>, gateway: Option<Addr>) {
    && st.pending.Nothing? && Lists(listing, st.ips) && gateway == st.subnet.spec.gateway
    && (forall n :: n in st.ips && n !in st.released && st.ips[n].deleting ==> st.ips[n].addr.None?)
    && (gateway.Some? ==> NotHeld(st, gateway.value))
    && AddAllSafe(Counted(listing, gateway), [])
  }

  /** The last step under the lock was such a listing, and no one has edited the gateway since. */
  predicate ListedSince(spec: SubnetSpec, es: seq<Event>, g: Option<Addr>)
    requires Valid(spec.net)
  {
    es != [] &&
    var st, e := Run(spec, es[..|es| - 1]), es[|es| - 1];
    if UnderLock(e) then e.ListIPs? && e.gateway == g && CleanListing(st, e.listing, g)
    else KeepsGateway(e, g) && ListedSince(spec, es[..|es| - 1], g)
  }

  /** A check that writes now is safe. */
  predicate CheckIsGood(st: State, g: Option<Addr>) {
    && st.subnet.spec.gateway == g
    && (st.pending.Checking? ==>
          && HeldWereCounted(st, st.pending.counted)
          && (g.Some? ==> g.value in st.pending.counted && NotHeld(st, g.value))
          && AddAllSafe(st.pending.counted, []))
  }

  lemma CleanListingIsGood(st: State, listing: seq<Listed>, g: Option<Addr>)
    requires ValidState(st) && Inv(st) && CleanListing(st, listing, g)
    ensures CheckIsGood(Apply(st, ListIPs(listing, g)), g)
  {
    var st' := Apply(st, ListIPs(listing, g));
    CurrentListingCountsIff(st, listing, g);
    assert forall n, a: Addr :: Holds(st', n, a) <==> Holds(st, n, a);
  }

  /** What was counted stays counted, and what is not held stays so, whoever writes without
      the lock before the check does. */
  lemma GoodStays(st: State, e: Event, g: Option<Addr>)
    requires ValidState(st) && CheckIsGood(st, g) && !UnderLock(e) && KeepsGateway(e, g)
    ensures CheckIsGood(Apply(st, e), g)
  {
    var st' := Apply(st, e);
    HoldersOnlyGo(st, e);
    assert st'.pending == st.pending && st'.subnet.spec.gateway == g;
    if st.pending.Checking? {
      forall n | n in st'.ips && n !in st'.released && st'.ips[n].addr.Some?
        ensures st'.ips[n].addr.value in st.pending.counted
      {
        assert Holds(st', n, st'.ips[n].addr.value);
        assert Holds(st, n, st'.ips[n].addr.value);
      }
    }
  }

  lemma HoldersOnlyGo(st: State, e: Event)
    requires ValidState(st) && !UnderLock(e)
    ensures forall n, a: Addr :: Holds(Apply(st, e), n, a) ==> Holds(st, n, a)
  {
  }

  lemma {:induction false} ListedSinceIsGood(spec: SubnetSpec, es: seq<Event>, g: Option<Addr>)
    requires Valid(spec.net) && SafeRun(spec, es) && ListedSince(spec, es, g)
    ensures CheckIsGood(Run(spec, es), g)
  {
    var init, e := es[..|es| - 1], es[|es| - 1];
    if UnderLock(e) {
      SafeRunKeeps(spec, init);
      CleanListingIsGood(Run(spec, init), e.listing, g);
    } else {
      ListedSinceIsGood(spec, init, g);
      GoodStays(Run(spec, init), e, g);
    }
  }

  // ----- whole runs -----

  /** Every event is orderly, or it is the write of a self check for a new gateway that
      listed what was stored. */
  predicate OrderlyRun(spec: SubnetSpec, es: seq<Event>)
    requires Valid(spec.net)
  {
    es == [] ||
    (var init, e := es[..|es| - 1], es[|es| - 1];
     && OrderlyRun(spec, init)
     && (Orderly(Run(spec, init), e) || (e.WriteCheck? && ListedSince(spec, init, Run(spec, init).subnet.spec.gateway))))
  }

  /** So as long as all goes in order each address is held once. */
  lemma {:induction false} OrderlyRunIsSafe(spec: SubnetSpec, es: seq<Event>)
    requires Valid(spec.net) && OrderlyRun(spec, es)
    ensures SafeRun(spec, es) && EachAddressOnce(Run(spec, es))
  {
    if es != [] {
      var init, e := es[..|es| - 1], es[|es| - 1];
      OrderlyRunIsSafe(spec, init);
      SafeRunKeeps(spec, init);
      if Orderly(Run(spec, init), e) {
        OrderlyIsSafe(Run(spec, init), e);
      } else {
        ListedSinceIsGood(spec, init, Run(spec, init).subnet.spec.gateway);
      }
    }
    SafeRunKeeps(spec, es);
    InvMeansOnce(Run(spec, es));
  }
}

/** When the used list covers nothing but what is held, the gateway, and the choice that is
committed: no address is lost. */
module Leaks {
  import opened Options
  import opened Ranges
  import opened Blocks
  import opened Objects
  import opened SelfCheck
  import opened Controller

  ghost predicate IsHeld(st: State, a: Addr) { exists n :: Holds(st, n, a) }

  ghost predicate Accounted(st: State, a: Addr) {
    IsHeld(st, a) || st.subnet.gateway == Some(a) || (st.pending.Committed? && st.pending.addr == a)
  }

  ghost predicate NoLeak(st: State) {
    forall a: Addr :: Covers(st.subnet.usedIP, a) ==> Accounted(st, a)
  }

  /** Whether a safe event loses no address, decided from the state before it:
      - an object that gets an address must not have had another;
      - a handler that gives up, or whose roll-back is rejected, must leave a committed address
        to the object that holds it;
      - an object that goes must have been released, or have no address;
      - a new gateway must not replace another in the status, unless a self check does it;
      - a self check that writes must have counted only what is still held, and the gateway. */
  predicate Tight(st: State, e: Event) {
    match e
    case WriteChoice =>
      st.pending.Committed? && st.pending.name in st.ips && st.pending.name !in st.released ==>
        st.ips[st.pending.name].addr.None? || st.ips[st.pending.name].addr == Some(st.pending.addr)
    case GiveUp => st.pending.Committed? ==> !NotHeld(st, st.pending.addr)
    case FallBack => st.pending.Committed? && st.subnet != st.pending.saved ==> !NotHeld(st, st.pending.addr)
    case Finalize(n) =>
      n in st.ips && st.ips[n].deleting && n !in st.released && st.ips[n].addr.Some? ==>
        st.pending.Committed? && st.ips[n].addr == Some(st.pending.addr)
    case ActivateSubnet => st.subnet.gateway.None? || st.subnet.gateway == st.subnet.spec.gateway
    case WriteCheck =>
      st.pending.Checking? && CheckWrites(st.subnet, st.pending.counted) ==>
        forall a :: a in st.pending.counted ==> !NotHeld(st, a) || st.subnet.spec.gateway == Some(a)
    case _ => true
  }

  lemma HeldExact(st: State, a: Addr)
    ensures IsHeld(st, a) <==> !NotHeld(st, a)
  {
    if IsHeld(st, a) {
      var n :| Holds(st, n, a);
      assert n in st.ips;
    }
  }

  /** Nothing but the choice changes. */
  lemma SameHolders(st: State, st': State)
    requires st'.ips == st.ips && st'.released == st.released
    ensures forall a: Addr :: IsHeld(st', a) <==> IsHeld(st, a)
  {
    assert forall n, a: Addr :: Holds(st', n, a) <==> Holds(st, n, a);
  }

  // ----- event by event -----

  lemma WriteTightIff(st: State)
    requires ValidState(st) && Inv(st) && NoLeak(st)
    ensures NoLeak(Apply(st, WriteChoice)) <==> Tight(st, WriteChoice)
  {
    if st.pending.Committed? && st.pending.name in st.ips {
      var n, a, st' := st.pending.name, st.pending.addr, Apply(st, WriteChoice);
      assert Holds(st', n, a);
      assert forall m, b: Addr :: m != n ==> (Holds(st', m, b) <==> Holds(st, m, b));
      if Tight(st, WriteChoice) {
        forall b: Addr | Covers(st'.subnet.usedIP, b) ensures Accounted(st', b) {
          if b != a && IsHeld(st, b) {
            var m :| Holds(st, m, b);
            assert Holds(st', m, b);
          }
        }
      } else {
        var b := st.ips[n].addr.value;
        assert Holds(st, n, b) && Covers(st'.subnet.usedIP, b);
        assert !IsHeld(st', b);
        assert GatewayReserved(st);
      }
    }
  }

  /** The committed choice is dropped and stays in the used list. */
  lemma DroppedTightIff(st: State)
    requires Inv(st) && NoLeak(st)
    ensures NoLeak(st.(pending := Nothing)) <==> (st.pending.Committed? ==> IsHeld(st, st.pending.addr))
  {
    var st' := st.(pending := Nothing);
    SameHolders(st, st');
    if NoLeak(st') && st.pending.Committed? {
      assert Accounted(st', st.pending.addr);
    }
  }

  lemma FallBackTightIff(st: State)
    requires ValidState(st) && Inv(st) && Safe(st, FallBack) && NoLeak(st)
    ensures NoLeak(Apply(st, FallBack)) <==> Tight(st, FallBack)
  {
    if st.pending.Committed? {
      var a, st' := st.pending.addr, Apply(st, FallBack);
      if st.subnet == st.pending.saved {
        RemoveExact(a, st.subnet.usedIP);
        SameHolders(st, st');
        forall b: Addr | Covers(st'.subnet.usedIP, b) ensures Accounted(st', b) {
          assert Accounted(st, b) && b != a;
        }
      } else {
        DroppedTightIff(st);
        HeldExact(st, a);
      }
    }
  }

  lemma ReleaseKeepsTight(st: State, n: Name, seen: IPObject)
    requires ValidState(st) && Inv(st) && NoLeak(st)
    ensures NoLeak(Apply(st, Release(n, seen)))
  {
    if st.pending.Nothing? {
      var st' := Apply(st, Release(n, seen));
      if seen.addr.Some? {
        RemoveExact(seen.addr.value, st.subnet.usedIP);
      }
      forall b: Addr | Covers(st'.subnet.usedIP, b) ensures Accounted(st', b) {
        assert Covers(st.subnet.usedIP, b) && seen.addr != Some(b);
        if IsHeld(st, b) {
          var m :| Holds(st, m, b);
          assert Holds(st', m, b);
        }
      }
    }
  }

  lemma FinalizeTightIff(st: State, n: Name)
    requires ValidState(st) && Inv(st) && NoLeak(st)
    ensures NoLeak(Apply(st, Finalize(n))) <==> Tight(st, Finalize(n))
  {
    if n in st.ips && st.ips[n].deleting {
      var st' := Apply(st, Finalize(n));
      assert forall m, b: Addr :: Holds(st', m, b) <==> Holds(st, m, b) && m != n;
      if Tight(st, Finalize(n)) {
        forall b: Addr | Covers(st'.subnet.usedIP, b) ensures Accounted(st', b) {
          if IsHeld(st, b) {
            var m :| Holds(st, m, b);
            assert m != n ==> Holds(st', m, b);
          }
        }
      } else {
        var b := st.ips[n].addr.value;
        assert Holds(st, n, b) && Covers(st'.subnet.usedIP, b);
        assert !IsHeld(st', b);
        assert GatewayReserved(st);
      }
    }
  }

  lemma ActivateTightIff(st: State)
    requires ValidState(st) && Inv(st) && Safe(st, ActivateSubnet) && NoLeak(st)
    ensures NoLeak(Apply(st, ActivateSubnet)) <==> Tight(st, ActivateSubnet)
  {
    var st' := Apply(st, ActivateSubnet);
    SameHolders(st, st');
    if st.subnet.spec.gateway.Some? {
      AddExact(st.subnet.spec.gateway.value, st.subnet.usedIP);
    }
    if !Tight(st, ActivateSubnet) {
      var g := st.subnet.gateway.value;
      HeldExact(st, g);
      assert Covers(st'.subnet.usedIP, g) && !Accounted(st', g);
    }
  }

  lemma WriteCheckTightIff(st: State)
    requires ValidState(st) && Inv(st) && Safe(st, WriteCheck) && NoLeak(st)
    ensures NoLeak(Apply(st, WriteCheck)) <==> Tight(st, WriteCheck)
  {
    var st' := Apply(st, WriteCheck);
    SameHolders(st, st');
    if st.pending.Checking? && CheckWrites(st.subnet, st.pending.counted) {
      AddAllExact(st.pending.counted, []);
      forall a: Addr ensures Accounted(st', a) <==> !NotHeld(st, a) || st.subnet.spec.gateway == Some(a) {
        HeldExact(st, a);
      }
    }
  }

  lemma CommitKeepsTight(st: State)
    requires ValidState(st) && Inv(st) && Safe(st, CommitChoice) && NoLeak(st)
    ensures NoLeak(Apply(st, CommitChoice))
  {
    var st' := Apply(st, CommitChoice);
    SameHolders(st, st');
    if st.pending.Chosen? {
      AddExact(st.pending.addr, st.subnet.usedIP);
    }
  }

  /** The other events take no address from an object, and leave used list and gateway alone. */
  lemma OtherKeepsTight(st: State, e: Event)
    requires ValidState(st) && NoLeak(st)
    requires e.ListIPs? || e.Choose? || e.SubnetError? || e.EditSubnet? || e.ResetIP? || e.IPError? || e.CreateIP?
             || e.EditIP? || e.ActivateIP? || e.DeleteIP?
    ensures NoLeak(Apply(st, e))
  {
    var st' := Apply(st, e);
    HoldersStay(st, e);
    forall a: Addr | Covers(st'.subnet.usedIP, a) ensures Accounted(st', a) {
      assert Accounted(st, a);
      if IsHeld(st, a) {
        var n :| Holds(st, n, a);
        assert Holds(st', n, a);
      }
    }
  }

  lemma HoldersStay(st: State, e: Event)
    requires ValidState(st)
    requires e.ListIPs? || e.Choose? || e.SubnetError? || e.EditSubnet? || e.ResetIP? || e.IPError? || e.CreateIP?
             || e.EditIP? || e.ActivateIP? || e.DeleteIP?
    ensures var st' := Apply(st, e);
            && (forall n, a: Addr :: Holds(st, n, a) ==> Holds(st', n, a))
            && st'.subnet.usedIP == st.subnet.usedIP && st'.subnet.gateway == st.subnet.gateway
            && (st.pending.Committed? ==> st'.pending == st.pending)
  {
  }

  /** From a state without a leak, a safe event leads to one without a leak if and only if it
      is tight. */
  lemma StepTightIff(st: State, e: Event)
    requires ValidState(st) && Inv(st) && Safe(st, e) && NoLeak(st)
    ensures NoLeak(Apply(st, e)) <==> Tight(st, e)
  {
    match e
    case WriteChoice => WriteTightIff(st);
    case GiveUp =>
      DroppedTightIff(st);
      if st.pending.Committed? { HeldExact(st, st.pending.addr); }
    case FallBack => FallBackTightIff(st);
    case Finalize(n) => FinalizeTightIff(st, n);
    case ActivateSubnet => ActivateTightIff(st);
    case WriteCheck => WriteCheckTightIff(st);
    case Release(n, seen) => ReleaseKeepsTight(st, n, seen);
    case CommitChoice => CommitKeepsTight(st);
    case _ => OtherKeepsTight(st, e);
  }

  // ----- whole runs -----

  predicate TightRun(spec: SubnetSpec, es: seq<Event>)
    requires Valid(spec.net)
  {
    es == [] ||
    (var init, e := es[..|es| - 1], es[|es| - 1];
     TightRun(spec, init) && Safe(Run(spec, init), e) && Tight(Run(spec, init), e))
  }

  lemma {:induction false} TightRunKeeps(spec: SubnetSpec, es: seq<Event>)
    requires Valid(spec.net) && TightRun(spec, es)
    ensures SafeRun(spec, es) && NoLeak(Run(spec, es))
  {
    if es != [] {
      var init, e := es[..|es| - 1], es[|es| - 1];
      TightRunKeeps(spec, init);
      SafeRunKeeps(spec, init);
      StepTightIff(Run(spec, init), e);
    }
  }

  /** In every state of a run of safe and tight events the used list covers exactly what is
      held, the gateway, and the choice that is committed. */
  lemma UsedIsExactlyAccounted(spec: SubnetSpec, es: seq<Event>)
    requires Valid(spec.net) && TightRun(spec, es)
    ensures var st := Run(spec, es);
            && Canonical(st.subnet.usedIP)
            && forall a: Addr :: Covers(st.subnet.usedIP, a) <==> Accounted(st, a)
  {
    TightRunKeeps(spec, es);
    SafeRunKeeps(spec, es);
  }

  // ----- what the self check would find -----

  /** When no choice is committed and no holder is being deleted, the list that the self check
      builds from what is stored is the list that the single updates have built, if and only if
      there is no leak. */
  lemma RebuiltIsUsedIff(st: State, listing: seq<Listed>)
    requires Inv(st) && !st.pending.Committed? && Lists(listing, st.ips)
    requires forall n, a: Addr :: Holds(st, n, a) ==> !st.ips[n].deleting
    requires AddAllSafe(Counted(listing, st.subnet.gateway), [])
    ensures Rebuilt(listing, st.subnet.gateway) == st.subnet.usedIP <==> NoLeak(st)
  {
    var rebuilt := Rebuilt(listing, st.subnet.gateway);
    RebuiltExact(listing, st.subnet.gateway);
    forall a: Addr ensures Covers(rebuilt, a) <==> Accounted(st, a) {
      HeldByListed(st, listing, a);
    }
    if NoLeak(st) {
      CanonicalUnique(rebuilt, st.subnet.usedIP);
    }
  }
}

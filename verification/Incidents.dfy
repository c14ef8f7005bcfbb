/** Runs in which an event that is not safe does harm, and what the writes of a handler
outlive. The subnet has no ranges, and the objects ask for one and the same address. */
module Incidents {
  import opened Options
  import opened Ranges
  import opened Blocks
  import opened Allocator
  import opened Objects
  import opened SelfCheck
  import opened Controller

  predicate Plain(spec: SubnetSpec) { Valid(spec.net) && spec.ranges == [] && spec.gateway.None? }

  /** An object that asks for the address a. */
  function Wants(a: Addr, addr: Option<Addr>, phase: IPPhase, deleting: bool): IPObject {
    IPObject([Some(a)], [], addr, None, phase, deleting)
  }

  /** An active subnet on which no handler is at work. */
  function Quiet(spec: SubnetSpec, used: seq<IPRange>, count: int, ips: map<Name, IPObject>, released: set<Name>): State {
    State(SubnetObject(spec, SubnetActive, used, count, [], None), ips, released, Nothing)
  }

  lemma Then(spec: SubnetSpec, es: seq<Event>, e: Event, st: State) returns (longer: seq<Event>)
    requires Valid(spec.net) && Apply(Run(spec, es), e) == st
    ensures longer == es + [e] && Run(spec, longer) == st
  {
    longer := es + [e];
    assert longer[..|es|] == es;
  }

  lemma SingleAddress(a: Addr)
    ensures Add(a, []) == [IPRange(a, a)] && Covers([IPRange(a, a)], a) && Remove(a, [IPRange(a, a)]) == []
  {
    var one := [IPRange(a, a)];
    assert [] + one == one;
    assert Add(a, []) == AddAt(a, [], 0) == SortByFrom(one);
    assert SortByFrom(one) == Place(SortByFrom([]), one[0]);
    assert Has(one[0], a);
    assert Cut(a, one) == Cut(a, []) + Pieces(a, one[0]) == [];
  }

  // ----- one event at a time -----

  lemma ChooseWanted(st: State, n: Name, a: Addr)
    requires ValidState(st) && st.subnet.spec.ranges == [] && st.pending.Nothing? && st.subnet.phase == SubnetActive
    requires n in st.ips && n !in st.released && st.ips[n] == Wants(a, None, IPInit, false) && !Covers(st.subnet.usedIP, a)
    ensures Apply(st, Choose(n, st.ips[n], st.subnet)) == st.(pending := Chosen(n, a, None))
  {
    assert FirstListed([Some(a)], [], st.subnet.usedIP) == Found(a);
  }

  lemma ChooseFromStale(st: State, sub: SubnetObject, n: Name, a: Addr)
    requires ValidState(st) && st.pending.Nothing? && sub.phase == SubnetActive
    requires Plain(sub.spec) && sub.usedIP == []
    ensures Apply(st, Choose(n, Wants(a, None, IPInit, false), sub)) == st.(pending := Chosen(n, a, None))
  {
    assert FirstListed([Some(a)], [], []) == Found(a);
  }

  lemma ChooseAgain(spec: SubnetSpec, st: State, n: Name, a: Addr)
    requires Plain(spec) && st.subnet.spec == spec && st.pending.Nothing? && st.subnet.phase == SubnetActive
    requires n in st.ips && n !in st.released && st.ips[n] == Wants(a, Some(a), IPFailed, false)
    ensures Apply(st, Choose(n, st.ips[n], st.subnet)) == st.(pending := Chosen(n, a, None))
  {
    assert AlreadyAllocatedIP(spec, st.ips[n]);
  }

  lemma CommitReused(st: State, n: Name, a: Addr)
    requires ValidState(st) && st.pending == Chosen(n, a, None) && st.subnet.usedIP == [IPRange(a, a)]
    ensures Apply(st, CommitChoice) == st.(pending := Committed(n, a, None, st.subnet))
  {
    assert Has(st.subnet.usedIP[0], a);
  }

  lemma DropSingle(sub: SubnetObject, a: Addr)
    requires sub.usedIP == [IPRange(a, a)]
    ensures DropAddr(sub, Some(a)) == sub.(usedIP := [], usedIPCount := sub.usedIPCount - 1)
  {
    SingleAddress(a);
  }

  lemma FallBackFrees(st: State, n: Name, a: Addr)
    requires ValidState(st) && st.pending == Committed(n, a, None, st.subnet) && st.subnet.usedIP == [IPRange(a, a)]
    ensures Apply(st, FallBack) ==
            st.(subnet := st.subnet.(usedIP := [], usedIPCount := st.subnet.usedIPCount - 1), pending := Nothing)
  {
    DropSingle(st.subnet, a);
  }

  lemma ReleaseFrees(st: State, n: Name, a: Addr, phase: IPPhase)
    requires ValidState(st) && st.pending.Nothing? && n in st.ips && st.ips[n] == Wants(a, Some(a), phase, true)
    requires st.subnet.usedIP == [IPRange(a, a)]
    ensures Apply(st, Release(n, st.ips[n])) ==
            st.(subnet := st.subnet.(usedIP := [], usedIPCount := st.subnet.usedIPCount - 1), released := st.released + {n})
  {
    DropSingle(st.subnet, a);
    assert ReleaseStatus(st.subnet, st.ips[n]) == DropAddr(st.subnet, Some(a));
  }

  /** Choice, subnet write and IP write, undisturbed. */
  lemma Granted(spec: SubnetSpec, es: seq<Event>, st: State, n: Name, a: Addr) returns (longer: seq<Event>)
    requires Valid(spec.net) && Run(spec, es) == st
    requires st.subnet.spec.ranges == [] && st.pending.Nothing? && st.subnet.phase == SubnetActive
    requires n in st.ips && n !in st.released && st.ips[n] == Wants(a, None, IPInit, false) && !Covers(st.subnet.usedIP, a)
    ensures Run(spec, longer) == SetIP(st, n, Wants(a, Some(a), IPPending, false)).(subnet := TakeAddr(st.subnet, a))
    ensures es <= longer
  {
    ChooseWanted(st, n, a);
    longer := Then(spec, es, Choose(n, st.ips[n], st.subnet), st.(pending := Chosen(n, a, None)));
    var sub := TakeAddr(st.subnet, a);
    longer := Then(spec, longer, CommitChoice, st.(subnet := sub, pending := Committed(n, a, None, sub)));
    CommitAndWrite(st.(pending := Chosen(n, a, None)), n, a);
    longer := Then(spec, longer, WriteChoice, SetIP(st, n, Wants(a, Some(a), IPPending, false)).(subnet := sub));
  }

  lemma Grant(spec: SubnetSpec, es: seq<Event>, count: int, ips: map<Name, IPObject>, released: set<Name>, n: Name, a: Addr)
    returns (longer: seq<Event>)
    requires Plain(spec) && Run(spec, es) == Quiet(spec, [], count, ips, released)
    requires n in ips && n !in released && ips[n] == Wants(a, None, IPInit, false)
    ensures Run(spec, longer) ==
            Quiet(spec, [IPRange(a, a)], count + 1, ips[n := Wants(a, Some(a), IPPending, false)], released)
    ensures es <= longer
  {
    SingleAddress(a);
    longer := Granted(spec, es, Quiet(spec, [], count, ips, released), n, a);
  }

  /** Three objects that wait for the same address. */
  function Waiting(a: Addr): map<Name, IPObject> {
    map["x" := Wants(a, None, IPInit, false), "y" := Wants(a, None, IPInit, false), "z" := Wants(a, None, IPInit, false)]
  }

  lemma ThreeWait(spec: SubnetSpec, a: Addr) returns (es: seq<Event>)
    requires Plain(spec)
    ensures Run(spec, es) == Quiet(spec, [], 0, Waiting(a), {})
  {
    var w := Wants(a, None, IPInit, false);
    es := Then(spec, [], ActivateSubnet, Quiet(spec, [], 0, map[], {}));
    es := Then(spec, es, CreateIP("x", [Some(a)], []), Quiet(spec, [], 0, map["x" := w], {}));
    es := Then(spec, es, CreateIP("y", [Some(a)], []), Quiet(spec, [], 0, map["x" := w, "y" := w], {}));
    es := Then(spec, es, CreateIP("z", [Some(a)], []), Quiet(spec, [], 0, Waiting(a), {}));
  }

  // ----- the incidents -----

  /** The first object gets the address, fails, and is handled again. Its own address is
      chosen, the IP write fails, and the roll-back frees it: then the second gets it too. */
  lemma RolledBackReuseGivesTwice(spec: SubnetSpec, a: Addr) returns (es: seq<Event>)
    requires Plain(spec)
    ensures var st := Run(spec, es); Holds(st, "x", a) && Holds(st, "y", a)
  {
    var one := [IPRange(a, a)];
    es := ThreeWait(spec, a);
    es := Grant(spec, es, 0, Waiting(a), {}, "x", a);
    var ips := Waiting(a)["x" := Wants(a, Some(a), IPFailed, false)];
    var failed := Quiet(spec, one, 1, ips, {});
    assert ips == Waiting(a)["x" := Wants(a, Some(a), IPPending, false)]["x" := Wants(a, Some(a), IPFailed, false)];
    es := Then(spec, es, IPError("x"), failed);
    ChooseAgain(spec, failed, "x", a);
    es := Then(spec, es, Choose("x", ips["x"], failed.subnet), failed.(pending := Chosen("x", a, None)));
    CommitReused(failed.(pending := Chosen("x", a, None)), "x", a);
    es := Then(spec, es, CommitChoice, failed.(pending := Committed("x", a, None, failed.subnet)));
    FallBackFrees(failed.(pending := Committed("x", a, None, failed.subnet)), "x", a);
    es := Then(spec, es, FallBack, Quiet(spec, [], 0, ips, {}));
    es := Grant(spec, es, 0, ips, {}, "y", a);
  }

  /** The first object gets the address. The handler of the second finds the subnet in its
      cache as it was before, and chooses the same address; its write meets the current
      subnet, where the address is used already, and goes through. */
  lemma StaleSubnetGivesTwice(spec: SubnetSpec, a: Addr) returns (es: seq<Event>, before: seq<Event>)
    requires Plain(spec)
    ensures var st := Run(spec, es); Holds(st, "x", a) && Holds(st, "y", a)
    ensures before <= es && |es| >= 3 && es[|es| - 3] == Choose("y", Waiting(a)["y"], Run(spec, before).subnet)
    ensures es[|es| - 2..] == [CommitChoice, WriteChoice]
  {
    before := ThreeWait(spec, a);
    es := Grant(spec, before, 0, Waiting(a), {}, "x", a);
    var now := Quiet(spec, [IPRange(a, a)], 1, Waiting(a)["x" := Wants(a, Some(a), IPPending, false)], {});
    var chosen := now.(pending := Chosen("y", a, None));
    ChooseFromStale(now, Quiet(spec, [], 0, Waiting(a), {}).subnet, "y", a);
    es := Then(spec, es, Choose("y", Waiting(a)["y"], Run(spec, before).subnet), chosen);
    es := WrittenAgain(spec, es, now, "y", a);
  }

  lemma WrittenAgain(spec: SubnetSpec, es: seq<Event>, st: State, n: Name, a: Addr) returns (longer: seq<Event>)
    requires Valid(spec.net) && Run(spec, es) == st.(pending := Chosen(n, a, None)) && st.pending.Nothing?
    requires st.subnet.usedIP == [IPRange(a, a)] && n in st.ips && n !in st.released && st.ips[n] == Wants(a, None, IPInit, false)
    ensures longer == es + [CommitChoice, WriteChoice]
    ensures Run(spec, longer) == SetIP(st, n, Wants(a, Some(a), IPPending, false))
  {
    CommitReused(st.(pending := Chosen(n, a, None)), n, a);
    longer := Then(spec, es, CommitChoice, st.(pending := Committed(n, a, None, st.subnet)));
    longer := Then(spec, longer, WriteChoice, SetIP(st, n, Wants(a, Some(a), IPPending, false)));
  }

  /** The removal of the first object writes the status and keeps its finalizer, the second
      object gets the address, the removal runs again and frees it: then the third gets it too. */
  lemma RepeatedRemovalGivesTwice(spec: SubnetSpec, a: Addr) returns (es: seq<Event>)
    requires Plain(spec)
    ensures var st := Run(spec, es); Holds(st, "y", a) && Holds(st, "z", a)
  {
    es := OneLeaves(spec, a);
    es := Removed(spec, es, {}, Leaving(a), a);
    es := Grant(spec, es, 0, Leaving(a), {"x"}, "y", a);
    es := Removed(spec, es, {"x"}, Leaving(a)["y" := Wants(a, Some(a), IPPending, false)], a);
    es := Grant(spec, es, 0, Leaving(a)["y" := Wants(a, Some(a), IPPending, false)], {"x"}, "z", a);
  }

  lemma Removed(spec: SubnetSpec, es: seq<Event>, released: set<Name>, ips: map<Name, IPObject>, a: Addr) returns (longer: seq<Event>)
    requires Plain(spec) && Run(spec, es) == Quiet(spec, [IPRange(a, a)], 1, ips, released)
    requires "x" in ips && ips["x"] == Wants(a, Some(a), IPPending, true)
    ensures Run(spec, longer) == Quiet(spec, [], 0, ips, released + {"x"})
  {
    var st := Quiet(spec, [IPRange(a, a)], 1, ips, released);
    ReleaseFrees(st, "x", a, IPPending);
    longer := Then(spec, es, Release("x", ips["x"]), Quiet(spec, [], 0, ips, released + {"x"}));
  }

  /** A new gateway g, and the self check that follows it. */
  function Regated(spec: SubnetSpec, g: Addr): SubnetSpec { spec.(gateway := Some(g)) }

  /** Objects that are being deleted or have no address leave no trace in the self check. */
  lemma {:induction false} DeadAreIgnored(init: seq<Listed>, dead: seq<Listed>)
    requires forall i :: 0 <= i < |dead| ==> !Live(dead[i])
    ensures LiveAddrs(init + dead) == LiveAddrs(init) && Duplicated(init + dead) == Duplicated(init)
  {
    if dead == [] {
      assert init + dead == init;
    } else {
      var n := |dead| - 1;
      DeadAreIgnored(init, dead[..n]);
      assert (init + dead)[..|init| + n] == init + dead[..n];
    }
  }

  lemma OnlyDead(listing: seq<Listed>)
    requires forall i :: 0 <= i < |listing| ==> !Live(listing[i])
    ensures Duplicated(listing) == [] && LiveAddrs(listing) == []
  {
    DeadAreIgnored([], listing);
    assert [] + listing == listing;
  }

  lemma RebuiltFromGateway(g: Addr)
    ensures AddAll([g], []) == [IPRange(g, g)]
  {
    SingleAddress(g);
    AddAllSnoc([], g);
    assert [] + [g] == [g];
  }

  /** One object holds the address and is being deleted, the others wait. */
  function Leaving(a: Addr): map<Name, IPObject> { Waiting(a)["x" := Wants(a, Some(a), IPPending, true)] }

  lemma OneLeaves(spec: SubnetSpec, a: Addr) returns (es: seq<Event>)
    requires Plain(spec)
    ensures Run(spec, es) == Quiet(spec, [IPRange(a, a)], 1, Leaving(a), {})
  {
    es := ThreeWait(spec, a);
    es := Grant(spec, es, 0, Waiting(a), {}, "x", a);
    DeletedLeaves(spec, Quiet(spec, [IPRange(a, a)], 1, Waiting(a)["x" := Wants(a, Some(a), IPPending, false)], {}), a);
    es := Then(spec, es, DeleteIP("x"), Quiet(spec, [IPRange(a, a)], 1, Leaving(a), {}));
  }

  lemma DeletedLeaves(spec: SubnetSpec, st: State, a: Addr)
    requires ValidState(st) && st.ips == Waiting(a)["x" := Wants(a, Some(a), IPPending, false)]
    ensures Apply(st, DeleteIP("x")) == st.(ips := Leaving(a))
  {
    assert Leaving(a) == st.ips["x" := Wants(a, Some(a), IPPending, true)];
  }

  /** The status after the self check that follows the new gateway g. */
  function Checked(spec: SubnetSpec, a: Addr, g: Addr): State {
    State(SubnetObject(Regated(spec, g), SubnetActive, [IPRange(g, g)], 1, [], Some(g)), Leaving(a), {}, Nothing)
  }

  lemma CheckFreesHeld(spec: SubnetSpec, a: Addr, g: Addr, es: seq<Event>) returns (longer: seq<Event>)
    requires Plain(spec) && a != g && Run(spec, es) == Quiet(Regated(spec, g), [IPRange(a, a)], 1, Leaving(a), {})
    ensures Run(spec, longer) == Checked(spec, a, g) && ListsStored(spec, es, longer)
  {
    var ips := Leaving(a);
    var listing := [Listed("x", ips["x"]), Listed("y", ips["y"]), Listed("z", ips["z"])];
    OnlyDead(listing);
    RebuiltFromGateway(g);
    assert Counted(listing, Some(g)) == [g];
    ListsThree(ips, listing);
    var st := Quiet(Regated(spec, g), [IPRange(a, a)], 1, Leaving(a), {});
    longer := Then(spec, es, ListIPs(listing, Some(g)), st.(pending := Checking([g])));
    longer := Then(spec, longer, WriteCheck, Checked(spec, a, g));
  }

  /** The first object holds the address and is being deleted. The gateway is changed, and
      the self check writes a used list without the address: then the second gets it too. */
  lemma SelfCheckGivesTwice(spec: SubnetSpec, a: Addr, g: Addr) returns (es: seq<Event>, before: seq<Event>)
    requires Plain(spec) && a != g
    ensures var st := Run(spec, es); Holds(st, "x", a) && Holds(st, "y", a)
    ensures ListsStored(spec, before, es)
  {
    before := OneLeaves(spec, a);
    before := Then(spec, before, EditSubnet(Regated(spec, g)), Quiet(Regated(spec, g), [IPRange(a, a)], 1, Leaving(a), {}));
    es := CheckFreesHeld(spec, a, g, before);
    SinglesCover(IPRange(g, g), IPRange(g, g));
    es := Granted(spec, es, Checked(spec, a, g), "y", a);
  }

  /** After the events before, a self check lists what is stored. */
  predicate ListsStored(spec: SubnetSpec, before: seq<Event>, es: seq<Event>)
    requires Valid(spec.net)
  {
    before < es && es[|before|].ListIPs? && Lists(es[|before|].listing, Run(spec, before).ips)
  }

  lemma ListsThree(ips: map<Name, IPObject>, listing: seq<Listed>)
    requires ips.Keys == {"x", "y", "z"}
    requires listing == [Listed("x", ips["x"]), Listed("y", ips["y"]), Listed("z", ips["z"])]
    ensures Lists(listing, ips)
  {
    assert listing[0].name == "x" && listing[1].name == "y" && listing[2].name == "z";
  }

  lemma OneHolder(x: Listed, dead: seq<Listed>, a: Addr)
    requires HoldsAddr(x, a) && forall i :: 0 <= i < |dead| ==> !Live(dead[i])
    ensures Duplicated([x] + dead) == [] && LiveAddrs([x] + dead) == [a]
  {
    DeadAreIgnored([x], dead);
    assert !Repeats([], x);
    assert [x][..0] == [];
  }

  /** The gateway is changed to the address that the first object holds. The self check
      writes it into the status, and counts the address twice. */
  lemma NewGatewayIsHeld(spec: SubnetSpec, a: Addr) returns (es: seq<Event>, before: seq<Event>)
    requires Plain(spec)
    ensures ListsStored(spec, before, es)
    ensures var st := Run(spec, es);
            st.subnet.gateway == Some(a) && Holds(st, "x", a) && st.subnet.usedIPCount == 2
  {
    before := ThreeWait(spec, a);
    before := Grant(spec, before, 0, Waiting(a), {}, "x", a);
    var ips := Waiting(a)["x" := Wants(a, Some(a), IPPending, false)];
    var regated := Quiet(Regated(spec, a), [IPRange(a, a)], 1, ips, {});
    before := Then(spec, before, EditSubnet(Regated(spec, a)), regated);
    es := CheckCountsTwice(spec, before, regated, a);
  }

  lemma CheckCountsTwice(spec: SubnetSpec, es: seq<Event>, st: State, a: Addr) returns (longer: seq<Event>)
    requires Plain(spec) && Run(spec, es) == st && st.ips == Waiting(a)["x" := Wants(a, Some(a), IPPending, false)]
    requires st == Quiet(Regated(spec, a), [IPRange(a, a)], 1, st.ips, {})
    ensures Run(spec, longer) == st.(subnet := Recount(st.subnet, [a, a])) && CheckWrites(st.subnet, [a, a])
    ensures ListsStored(spec, es, longer)
  {
    var listing := [Listed("x", st.ips["x"]), Listed("y", st.ips["y"]), Listed("z", st.ips["z"])];
    OneHolder(listing[0], listing[1..], a);
    assert listing == [listing[0]] + listing[1..];
    assert Counted(listing, Some(a)) == [a, a];
    ListsThree(st.ips, listing);
    longer := Then(spec, es, ListIPs(listing, Some(a)), st.(pending := Checking([a, a])));
    longer := Then(spec, longer, WriteCheck, st.(subnet := Recount(st.subnet, [a, a])));
  }

  /** The first object had the address and is gone without being released. The self check
      counts the others and no gateway, the gateway is changed to the address before the
      write: it is in the status but not reserved, and the second object gets it. */
  lemma GatewayEditedDuringCheck(spec: SubnetSpec, a: Addr) returns (es: seq<Event>, before: seq<Event>)
    requires Plain(spec)
    ensures ListsStored(spec, before, es)
    ensures var st := Run(spec, es); st.subnet.gateway == Some(a) && Holds(st, "y", a)
  {
    before := OneIsGone(spec, a);
    es := CountsNothing(spec, before, a);
    es := MissesGateway(spec, es, a);
    es := Granted(spec, es, Unreserved(spec, a), "y", a);
  }

  function Remaining(a: Addr): map<Name, IPObject> {
    map["y" := Wants(a, None, IPInit, false), "z" := Wants(a, None, IPInit, false)]
  }

  lemma OneIsGone(spec: SubnetSpec, a: Addr) returns (es: seq<Event>)
    requires Plain(spec)
    ensures Run(spec, es) == Quiet(spec, [IPRange(a, a)], 1, Remaining(a), {})
  {
    es := OneLeaves(spec, a);
    assert Remaining(a) == Leaving(a) - {"x"};
    es := Then(spec, es, Finalize("x"), Quiet(spec, [IPRange(a, a)], 1, Remaining(a), {}));
  }

  function Unreserved(spec: SubnetSpec, a: Addr): State {
    State(SubnetObject(Regated(spec, a), SubnetActive, [], 0, [], Some(a)), Remaining(a), {}, Nothing)
  }

  lemma ListsTwo(ips: map<Name, IPObject>, listing: seq<Listed>)
    requires ips.Keys == {"y", "z"}
    requires listing == [Listed("y", ips["y"]), Listed("z", ips["z"])]
    ensures Lists(listing, ips)
  {
    assert listing[0].name == "y" && listing[1].name == "z";
  }

  lemma CountsNothing(spec: SubnetSpec, es: seq<Event>, a: Addr) returns (longer: seq<Event>)
    requires Plain(spec) && Run(spec, es) == Quiet(spec, [IPRange(a, a)], 1, Remaining(a), {})
    ensures Run(spec, longer) == Quiet(spec, [IPRange(a, a)], 1, Remaining(a), {}).(pending := Checking([]))
    ensures ListsStored(spec, es, longer)
  {
    var ips := Remaining(a);
    var listing := [Listed("y", ips["y"]), Listed("z", ips["z"])];
    OnlyDead(listing);
    assert Counted(listing, None) == [];
    ListsTwo(ips, listing);
    longer := Then(spec, es, ListIPs(listing, None), Quiet(spec, [IPRange(a, a)], 1, ips, {}).(pending := Checking([])));
  }

  lemma MissesGateway(spec: SubnetSpec, es: seq<Event>, a: Addr) returns (longer: seq<Event>)
    requires Plain(spec) && Run(spec, es) == Quiet(spec, [IPRange(a, a)], 1, Remaining(a), {}).(pending := Checking([]))
    ensures Run(spec, longer) == Unreserved(spec, a) && es <= longer
  {
    var regated := Quiet(Regated(spec, a), [IPRange(a, a)], 1, Remaining(a), {}).(pending := Checking([]));
    longer := Then(spec, es, EditSubnet(Regated(spec, a)), regated);
    longer := Then(spec, longer, WriteCheck, Unreserved(spec, a));
  }

  // ----- what a choice outlives -----

  /** The phase of the subnet and the deletion of the object are not looked at again: what a
      handler has chosen it commits and writes, although the subnet has failed and the object
      is being deleted. No address is held twice all the same. */
  lemma ChoiceOutlivesFailure(st: State)
    requires ValidState(st) && Inv(st) && st.pending.Chosen? && st.pending.name in st.ips
    requires AddSafe(st.pending.addr, st.subnet.usedIP)
    ensures var st1 := Apply(Apply(st, SubnetError), CommitChoice);
            var st2 := Apply(Apply(st1, DeleteIP(st.pending.name)), WriteChoice);
            && st2.subnet.phase == SubnetFailed && st2.ips[st.pending.name].deleting
            && Holds(st2, st.pending.name, st.pending.addr) && st2.ips[st.pending.name].phase == IPPending
            && EachAddressOnce(st2)
  {
    CommitAfterFailure(st);
    WriteAfterDeletion(Apply(Apply(st, SubnetError), CommitChoice));
  }

  lemma CommitAfterFailure(st: State)
    requires ValidState(st) && Inv(st) && st.pending.Chosen? && AddSafe(st.pending.addr, st.subnet.usedIP)
    ensures var st1 := Apply(Apply(st, SubnetError), CommitChoice);
            && Inv(st1) && st1.subnet.phase == SubnetFailed && st1.ips == st.ips && st1.released == st.released
            && st1.pending == Committed(st.pending.name, st.pending.addr, st.pending.mac, st1.subnet)
  {
    OtherKeeps(st, SubnetError);
    CommitKeepsIff(Apply(st, SubnetError));
  }

  lemma WriteAfterDeletion(st: State)
    requires ValidState(st) && Inv(st) && st.pending.Committed? && st.pending.name in st.ips
    ensures var n, st2 := st.pending.name, Apply(Apply(st, DeleteIP(st.pending.name)), WriteChoice);
            && st2.subnet == st.subnet && n in st2.ips && st2.ips[n].deleting && st2.ips[n].phase == IPPending
            && Holds(st2, n, st.pending.addr) && EachAddressOnce(st2)
  {
    var st1 := Apply(st, DeleteIP(st.pending.name));
    OtherKeeps(st, DeleteIP(st.pending.name));
    WriteKeeps(st1);
    InvMeansOnce(Apply(st1, WriteChoice));
  }

  /** An active object whose specification no longer lists its address is reset and then
      gets a listed one; the old address is held by no one but stays used, so that the
      used list covers more than what is held and the gateway. */
  lemma RespecifiedMovesAndLeaks(st: State, n: Name, a: Addr)
    requires ValidState(st) && Inv(st) && st.pending.Nothing? && st.subnet.phase == SubnetActive
    requires n in st.ips && n !in st.released && st.ips[n].phase == IPActive && !st.ips[n].deleting && st.ips[n].addr.Some?
    requires st.ips[n].addrs != [] && st.ips[n].addr !in st.ips[n].addrs && st.ips[n].macs == []
    requires AllocateIP(st.subnet.spec, st.ips[n], st.subnet.usedIP) == Found(a) && AddSafe(a, st.subnet.usedIP)
    ensures var st1 := Apply(st, ResetIP(n, st.ips[n], st.subnet));
            var st2 := Apply(Apply(Apply(st1, Choose(n, st1.ips[n], st1.subnet)), CommitChoice), WriteChoice);
            var previous := st.ips[n].addr.value;
            && Holds(st2, n, a) && st2.ips[n].phase == IPPending && Some(a) in st.ips[n].addrs
            && NotHeld(st2, previous) && st2.subnet.gateway != Some(previous) && Covers(st2.subnet.usedIP, previous)
            && st2.subnet.usedIPCount == st.subnet.usedIPCount + 1
  {
    var ip := st.ips[n].(phase := IPInit);
    var st1, written := SetIP(st, n, ip), WriteAddr(ip, a, None);
    ResetKeepsChoice(st, n);
    var i := FirstListedExact(ip.addrs, st.subnet.spec.ranges, st.subnet.usedIP);
    ChooseCommitWrite(st1, n, a);
    assert SetIP(st1, n, written) == SetIP(st, n, written);
    MovedLeaks(st, n, written, a);
  }

  lemma ResetKeepsChoice(st: State, n: Name)
    requires ValidState(st) && n in st.ips && st.ips[n].phase == IPActive && !AlreadyAllocatedIP(st.subnet.spec, st.ips[n])
    ensures var ip := st.ips[n].(phase := IPInit);
            && Apply(st, ResetIP(n, st.ips[n], st.subnet)) == SetIP(st, n, ip)
            && AllocateIP(st.subnet.spec, ip, st.subnet.usedIP) == AllocateIP(st.subnet.spec, st.ips[n], st.subnet.usedIP)
  {
  }

  lemma ChooseCommitWrite(st: State, n: Name, a: Addr)
    requires ValidState(st) && n in st.ips && n !in st.released && MayChoose(st, st.ips[n], st.subnet) && st.ips[n].macs == []
    requires AllocateIP(st.subnet.spec, st.ips[n], st.subnet.usedIP) == Found(a)
    ensures Apply(Apply(Apply(st, Choose(n, st.ips[n], st.subnet)), CommitChoice), WriteChoice) ==
            SetIP(st, n, WriteAddr(st.ips[n], a, None)).(subnet := TakeAddr(st.subnet, a))
  {
    CommitAndWrite(st.(pending := Chosen(n, a, None)), n, a);
  }

  lemma CommitAndWrite(st: State, n: Name, a: Addr)
    requires ValidState(st) && st.pending == Chosen(n, a, None) && n in st.ips && n !in st.released
    ensures Apply(Apply(st, CommitChoice), WriteChoice) ==
            SetIP(st, n, WriteAddr(st.ips[n], a, None)).(subnet := TakeAddr(st.subnet, a), pending := Nothing)
  {
  }

  /** The holder of an address moves to an unused one. */
  lemma MovedLeaks(st: State, n: Name, ip: IPObject, a: Addr)
    requires Inv(st) && n in st.ips && n !in st.released && st.ips[n].addr.Some? && ip.addr == Some(a)
    requires !Covers(st.subnet.usedIP, a) && AddSafe(a, st.subnet.usedIP)
    ensures var st2, previous := SetIP(st, n, ip).(subnet := TakeAddr(st.subnet, a)), st.ips[n].addr.value;
            && NotHeld(st2, previous) && st2.subnet.gateway != Some(previous) && Covers(st2.subnet.usedIP, previous)
  {
    var st2, previous := SetIP(st, n, ip).(subnet := TakeAddr(st.subnet, a)), st.ips[n].addr.value;
    assert Holds(st, n, previous);
    AddExact(a, st.subnet.usedIP);
    forall m | m in st2.ips ensures !Holds(st2, m, previous) {
      assert Holds(st2, m, previous) ==> Holds(st, m, previous);
    }
  }
}

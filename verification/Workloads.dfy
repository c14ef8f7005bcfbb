/** Addresses and MACs that workloads ask for: admission against what is used and
reserved, and the reservations themselves (pkg/admission/webhook/workload.go and
pkg/controller/workload/workload.go). */
module Workloads {
  import opened Options
  import opened Ranges
  import opened Blocks
  import opened Macs
  import A = Allocator

  // ----- admission -----

  method CheckIPDuplicate(ips: seq<Addr>) returns (ok: bool)
    ensures ok <==> Distinct(ips)
  {
    var seen: map<Addr, bool> := map[];
    for i := 0 to |ips|
      invariant forall a: Addr :: a in seen && seen[a] <==> a in ips[..i]
      invariant Distinct(ips[..i])
    {
      assert ips[..i + 1] == ips[..i] + [ips[i]];
      DistinctSnoc(ips[..i], ips[i]);
      if ips[i] in seen && seen[ips[i]] {
        DuplicateStays(ips, i);
        return false;
      }
      seen := seen[ips[i] := true];
    }
    assert ips[..|ips|] == ips;
    return true;
  }

  lemma DuplicateStays(ips: seq<Addr>, i: nat)
    requires i < |ips| && ips[i] in ips[..i]
    ensures !Distinct(ips)
  {
    var j :| 0 <= j < i && ips[..i][j] == ips[i];
    assert ips[j] == ips[i];
  }

  /** Not the gateway, in the block, and neither its first nor its last address. */
  predicate MayBeRequested(net: Net, gateway: Option<Addr>, ip: Addr) {
    gateway != Some(ip) && Usable(net, ip)
  }

  method CheckIPsInSubnet(ips: seq<Addr>, net: Net, gateway: Option<Addr>) returns (ok: bool)
    ensures ok <==> forall i :: 0 <= i < |ips| ==> gateway != Some(ips[i]) && net.first < ips[i] < Last(net)
  {
    for i := 0 to |ips|
      invariant forall j :: 0 <= j < i ==> gateway != Some(ips[j]) && net.first < ips[j] < Last(net)
    {
      if gateway == Some(ips[i]) {
        return false;
      }
      if !Contains(net, ips[i]) {
        return false;
      }
      if !Usable(net, ips[i]) {
        return false;
      }
    }
    return true;
  }

  /** A workload is rejected exactly when it asks for an address that is used by
      someone else: in the used list and not among its own. */
  method ValidateIPsInUsed(ips: seq<Addr>, usedIP: seq<IPRange>, own: seq<Option<Addr>>) returns (ok: bool)
    requires Canonical(usedIP)
    ensures ok <==> forall i :: 0 <= i < |ips| ==> !Covers(usedIP, ips[i]) || Some(ips[i]) in own
  {
    var left := usedIP;
    for i := 0 to |own|
      invariant Canonical(left)
      invariant forall a: Addr :: Covers(left, a) <==> Covers(usedIP, a) && Some(a) !in own[..i]
    {
      assert own[..i + 1] == own[..i] + [own[i]];
      if own[i].None? {
        continue;
      }
      RemoveExact(own[i].value, left);
      left := RemoveIPFromRange(own[i], left);
    }
    assert own[..|own|] == own;
    for i := 0 to |ips|
      invariant forall j :: 0 <= j < i ==> !Covers(usedIP, ips[j]) || Some(ips[j]) in own
    {
      var taken := IPInRanges(Some(ips[i]), left);
      if taken {
        return false;
      }
    }
    return true;
  }

  // ----- MACs -----

  /** The MACs of the workload's own pods; a pod may have none. */
  function Given(own: seq<Option<MAC>>): seq<MAC> {
    if own == [] then []
    else Given(own[..|own| - 1]) + match own[|own| - 1] case None => [] case Some(m) => [m]
  }

  function Without(s: seq<MAC>, index: nat): seq<MAC>
    requires index < |s|
  {
    s[..index] + s[index + 1..]
  }

  lemma WithoutMultiset(s: seq<MAC>, index: nat)
    requires index < |s|
    ensures multiset(Without(s, index)) == multiset(s) - multiset{s[index]}
  {
    assert s == s[..index] + [s[index]] + s[index + 1..];
  }

  lemma WithoutSorted(s: seq<MAC>, index: nat)
    requires index < |s| && Sorted(s)
    ensures Sorted(Without(s, index))
  {
    var r := Without(s, index);
    forall i, j | 0 <= i < j < |r| ensures r[i] <= r[j] {
      var k := if i < index then i else i + 1;
      var l := if j < index then j else j + 1;
      assert r[i] == s[k] && r[j] == s[l];
    }
  }

  /** One step of the loop over the workload's own pods. */
  method DeleteOne(s: seq<MAC>, m: MAC) returns (r: seq<MAC>)
    requires Sorted(s)
    ensures Sorted(r) && multiset(r) == multiset(s) - multiset{m}
  {
    var index, found := BinarySearch(s, m);
    if !found {
      assert m !in multiset(s);
      return s;
    }
    WithoutMultiset(s, index);
    WithoutSorted(s, index);
    r := Without(s, index);
  }

  lemma GivenStep(own: seq<Option<MAC>>, i: nat)
    requires i < |own|
    ensures multiset(Given(own[..i + 1])) ==
            multiset(Given(own[..i])) + match own[i] case None => multiset{} case Some(m) => multiset{m}
  {
    assert own[..i + 1][..i] == own[..i];
  }

  predicate MACsLeft(used: seq<MAC>, own: seq<Option<MAC>>, left: seq<MAC>) {
    multiset(left) == multiset(used) - multiset(Given(own))
  }

  lemma MinusStep(a: multiset<MAC>, b: multiset<MAC>, m: MAC)
    ensures a - (b + multiset{m}) == (a - b) - multiset{m}
  {
  }

  lemma {:induction false} GivenCounts(own: seq<Option<MAC>>, m: MAC)
    ensures multiset(Given(own))[m] == multiset(own)[Some(m)]
  {
    if own != [] {
      var n := |own| - 1;
      GivenCounts(own[..n], m);
      assert multiset(own) == multiset(own[..n]) + multiset{own[n]} by { assert own == own[..n] + [own[n]]; }
      var last := match own[n] case None => [] case Some(x) => [x];
      assert Given(own) == Given(own[..n]) + last;
    }
  }

  method RemoveOwnMACs(used: seq<MAC>, own: seq<Option<MAC>>) returns (left: seq<MAC>)
    ensures Sorted(left) && MACsLeft(used, own, left)
  {
    left := Sort(used);
    SortSorts(used);
    for i := 0 to |own|
      invariant Sorted(left)
      invariant MACsLeft(used, own[..i], left)
    {
      GivenStep(own, i);
      if own[i].Some? {
        MinusStep(multiset(used), multiset(Given(own[..i])), own[i].value);
        left := DeleteOne(left, own[i].value);
      }
    }
    assert own[..|own|] == own;
  }

  /** A workload is rejected exactly when it asks for a MAC that occurs more often in
      the used list than among its own pods. The list stays sorted throughout, so that
      each binary search is right. */
  method ValidateMACsInUsed(macs: seq<MAC>, used: seq<MAC>, own: seq<Option<MAC>>) returns (ok: bool)
    ensures ok <==> forall i :: 0 <= i < |macs| ==> multiset(used)[macs[i]] <= multiset(own)[Some(macs[i])]
  {
    var left := RemoveOwnMACs(used, own);
    for i := 0 to |macs|
      invariant forall j :: 0 <= j < i ==> multiset(used)[macs[j]] <= multiset(own)[Some(macs[j])]
    {
      GivenCounts(own, macs[i]);
      var _, found := BinarySearch(left, macs[i]);
      assert macs[i] in left <==> multiset(left)[macs[i]] > 0;
      if found {
        return false;
      }
    }
    return true;
  }

  // ----- reservations -----

  type Key = string
  type Reservations = map<Key, seq<IPRange>>

  /** ownedJob: a Job that a CronJob created, which the check lets pass. */
  datatype Workload = Workload(key: Key, ips: seq<Addr>, ownedJob: bool)

  /** No other workload has reserved one of the addresses. */
  predicate NoneReserved(w: Workload, reserved: Reservations) {
    forall i, k :: 0 <= i < |w.ips| && k in reserved && k != w.key ==> !Covers(reserved[k], w.ips[i])
  }

  method ValidateIPsInReserved(w: Workload, reserved: Reservations) returns (ok: bool)
    ensures ok <==> w.ownedJob || NoneReserved(w, reserved)
  {
    if |w.ips| == 0 || w.ownedJob || |reserved| == 0 {
      return true;
    }
    for i := 0 to |w.ips|
      invariant forall j, k :: 0 <= j < i && k in reserved && k != w.key ==> !Covers(reserved[k], w.ips[j])
    {
      var rest := reserved.Keys;
      while rest != {}
        invariant rest <= reserved.Keys
        invariant forall k :: k in reserved.Keys - rest && k != w.key ==> !Covers(reserved[k], w.ips[i])
        decreases |rest|
      {
        var k :| k in rest;
        rest := rest - {k};
        if k == w.key {
          continue;
        }
        var taken := IPInRanges(Some(w.ips[i]), reserved[k]);
        if taken {
          return false;
        }
      }
    }
    return true;
  }

  /** Auto mode, without addresses, reserves nothing and leaves what is there. */
  function Sync(reserved: Reservations, key: Key, ips: seq<Addr>): Reservations {
    if ips == [] then reserved else reserved[key := AddAll(ips, [])]
  }

  function Unreserve(reserved: Reservations, key: Key, ips: seq<Addr>): Reservations {
    if ips == [] then reserved else reserved - {key}
  }

  class ReservedIP {
    var reservedIP: Reservations

    method SyncWorkloadReservedIP(key: Key, ips: seq<Addr>)
      modifies this
      ensures reservedIP == Sync(old(reservedIP), key, ips)
      ensures ips == [] ==> reservedIP == old(reservedIP)
      ensures ips != [] ==> key in reservedIP && (AddAllSafe(ips, []) ==> AddsAllExactly(ips, [], reservedIP[key]))
      ensures forall k :: k != key ==> (k in reservedIP <==> k in old(reservedIP))
      ensures forall k :: k != key && k in reservedIP ==> reservedIP[k] == old(reservedIP)[k]
    {
      if |ips| == 0 {
        return;
      }
      var ipRange: seq<IPRange> := [];
      for i := 0 to |ips|
        invariant ipRange == AddAll(ips[..i], [])
        invariant reservedIP == old(reservedIP)
      {
        ipRange := AddIPToRange(Some(ips[i]), ipRange);
        assert ips[..i + 1][..i] == ips[..i];
      }
      assert ips[..|ips|] == ips;
      if AddAllSafe(ips, []) {
        AddAllExact(ips, []);
      }
      var updated := reservedIP[key := ipRange];
      if reservedIP == updated {
        return;
      }
      reservedIP := updated;
    }

    method RemoveWorkloadReservedIP(key: Key, ips: seq<Addr>)
      modifies this
      ensures reservedIP == Unreserve(old(reservedIP), key, ips)
      ensures ips == [] ==> reservedIP == old(reservedIP)
      ensures ips != [] ==> key !in reservedIP
      ensures forall k :: k != key ==> (k in reservedIP <==> k in old(reservedIP))
      ensures forall k :: k != key && k in reservedIP ==> reservedIP[k] == old(reservedIP)[k]
    {
      if |ips| == 0 {
        return;
      }
      if |reservedIP| == 0 {
        assert reservedIP == reservedIP - {key};
        return;
      }
      var updated := reservedIP - {key};
      if reservedIP == updated {
        return;
      }
      reservedIP := updated;
    }
  }

  /** Reservations are canonical, and those of different workloads share no address. */
  ghost predicate Disjoint(reserved: Reservations) {
    && (forall k :: k in reserved ==> Canonical(reserved[k]))
    && (forall k, l, a: Addr :: k in reserved && l in reserved && k != l && Covers(reserved[k], a) ==> !Covers(reserved[l], a))
  }

  predicate InsideBlock(w: Workload, net: Net, gateway: Option<Addr>) {
    forall i :: 0 <= i < |w.ips| ==> MayBeRequested(net, gateway, w.ips[i])
  }

  lemma ReservationExact(w: Workload, net: Net, gateway: Option<Addr>)
    requires Valid(net) && InsideBlock(w, net, gateway)
    ensures AddAllSafe(w.ips, []) && AddsAllExactly(w.ips, [], AddAll(w.ips, []))
  {
    assert 0 !in w.ips && MAX_ADDR !in w.ips;
    EndsApartAreSafe(w.ips, []);
    AddAllExact(w.ips, []);
  }

  /** Synchronising a workload keeps reservations disjoint if and only if no other
      workload has reserved one of its addresses. */
  lemma SyncKeepsIff(reserved: Reservations, w: Workload, net: Net, gateway: Option<Addr>)
    requires Valid(net) && InsideBlock(w, net, gateway) && Disjoint(reserved)
    ensures Disjoint(Sync(reserved, w.key, w.ips)) <==> NoneReserved(w, reserved)
  {
    ReservationExact(w, net, gateway);
    var after := Sync(reserved, w.key, w.ips);
    if NoneReserved(w, reserved) {
      forall k, l, a: Addr | k in after && l in after && k != l && Covers(after[k], a) ensures !Covers(after[l], a) {
        if a in w.ips {
          var i :| 0 <= i < |w.ips| && w.ips[i] == a;
        }
      }
    } else {
      var i, k :| 0 <= i < |w.ips| && k in reserved && k != w.key && Covers(reserved[k], w.ips[i]);
      assert Covers(after[w.key], w.ips[i]) && Covers(after[k], w.ips[i]);
    }
  }

  /** A Job of a CronJob passes without being checked, and its reservation overlaps. */
  lemma OwnedJobOverlaps(a: Addr)
    ensures var reserved: Reservations := map["Deployment/ns/web" := [IPRange(a, a)]];
            var job := Workload("Job/ns/report", [a], true);
            Disjoint(reserved) && !Disjoint(Sync(reserved, job.key, job.ips))
  {
    var reserved: Reservations := map["Deployment/ns/web" := [IPRange(a, a)]];
    var after := Sync(reserved, "Job/ns/report", [a]);
    EndsApartAreSafe([a], []);
    AddAllExact([a], []);
    SinglesCover(IPRange(a, a), IPRange(a, a));
    assert a in [a];
    assert Covers(after["Job/ns/report"], a) && Covers(after["Deployment/ns/web"], a);
  }

  /** A repeated synchronisation changes nothing, in whatever order, and with whatever
      repeats, the addresses are listed. */
  lemma SyncIsIdempotent(reserved: Reservations, w: Workload, ips: seq<Addr>, net: Net, gateway: Option<Addr>)
    requires Valid(net) && InsideBlock(w, net, gateway)
    requires forall a: Addr :: a in ips <==> a in w.ips
    ensures Sync(Sync(reserved, w.key, w.ips), w.key, ips) == Sync(reserved, w.key, w.ips)
  {
    ReservationExact(w, net, gateway);
    assert 0 !in ips && MAX_ADDR !in ips;
    EndsApartAreSafe(ips, []);
    AddAllOrderIrrelevant(w.ips, ips, []);
    if ips != [] {
      assert ips[0] in w.ips;
      assert w.ips != [];
    }
  }

  /** An update of a workload that passed its checks, or its deletion. */
  datatype Change = Admitted(w: Workload) | Deleted(w: Workload)

  function ReserveAll(changes: seq<Change>): Reservations {
    if changes == [] then map[]
    else
      var before := ReserveAll(changes[..|changes| - 1]);
      match changes[|changes| - 1]
      case Admitted(w) => Sync(before, w.key, w.ips)
      case Deleted(w) => Unreserve(before, w.key, w.ips)
  }

  /** Each workload passed, against the reservations just before it was synchronised. */
  predicate EachPassed(changes: seq<Change>, net: Net, gateway: Option<Addr>) {
    changes == [] ||
    (&& EachPassed(changes[..|changes| - 1], net, gateway)
     && match changes[|changes| - 1]
        case Admitted(w) =>
          InsideBlock(w, net, gateway) && !w.ownedJob && NoneReserved(w, ReserveAll(changes[..|changes| - 1]))
        case Deleted(_) => true)
  }

  /** In every run of admitted updates and deletions the reservations stay disjoint. */
  lemma {:induction false} ReservationsStayDisjoint(changes: seq<Change>, net: Net, gateway: Option<Addr>)
    requires Valid(net) && EachPassed(changes, net, gateway)
    ensures Disjoint(ReserveAll(changes))
  {
    if changes != [] {
      ReservationsStayDisjoint(changes[..|changes| - 1], net, gateway);
      match changes[|changes| - 1]
      case Admitted(w) => SyncKeepsIff(ReserveAll(changes[..|changes| - 1]), w, net, gateway);
      case Deleted(_) =>
    }
  }

  /** The last change of a workload that lists addresses; others leave its entry alone. */
  function LastListed(changes: seq<Change>, key: Key): Option<Change> {
    if changes == [] then None
    else if changes[|changes| - 1].w.key == key && changes[|changes| - 1].w.ips != [] then Some(changes[|changes| - 1])
    else LastListed(changes[..|changes| - 1], key)
  }

  /** In every run, whether or not its changes passed a check, the workloads with a reservation are
      those whose last change that lists addresses is an update, and what they have reserved are
      exactly the addresses it lists. */
  lemma {:induction false} ReservedIsLastListed(changes: seq<Change>, key: Key)
    ensures key in ReserveAll(changes) <==> LastListed(changes, key).Some? && LastListed(changes, key).value.Admitted?
    ensures key in ReserveAll(changes) ==>
              var ips := LastListed(changes, key).value.w.ips;
              AddAllSafe(ips, []) ==> AddsAllExactly(ips, [], ReserveAll(changes)[key])
  {
    if changes != [] {
      ReservedIsLastListed(changes[..|changes| - 1], key);
      var w := changes[|changes| - 1].w;
      if AddAllSafe(w.ips, []) {
        AddAllExact(w.ips, []);
      }
    }
  }

  // ----- reservations and auto mode -----

  predicate IsReserved(reserved: Reservations, a: Addr) {
    exists k :: k in reserved && Covers(reserved[k], a)
  }

  /** Auto mode does not look at reservations: as pods ask for addresses, one after the other, no
      reserved address is given out if and only if every reserved address is used already, or
      is no candidate. */
  lemma AutoSparesReservedIff(reserved: Reservations, net: Net, ranges: seq<IPRange>, used: seq<IPRange>)
    requires Valid(net) && Canonical(used)
    ensures (forall a: Addr :: a in A.Drain(net, ranges, used) ==> !IsReserved(reserved, a)) <==>
            (forall a: Addr :: IsReserved(reserved, a) ==> Covers(used, a) || !Usable(net, a) || !A.InScope(ranges, a))
  {
    A.DrainGivesEachOnce(net, ranges, used);
    forall a: Addr ensures a in A.Drain(net, ranges, used) <==> A.Vacant(net, ranges, used, a) {
      assert a in A.VacantSet(net, ranges, used) <==> A.Vacant(net, ranges, used, a);
    }
  }
}

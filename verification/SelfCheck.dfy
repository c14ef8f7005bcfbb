/** The periodic self check of an active subnet
(filterDuplicatedIP and onSubnetUpdate in pkg/controller/flatnetworksubnet/flatnetworksubnet.go). */
module SelfCheck {
  import opened Options
  import opened Ranges
  import opened Objects

  datatype Listed = Listed(name: Name, ip: IPObject)

  predicate Live(l: Listed) { l.ip.addr.Some? && !l.ip.deleting }

  // ----- duplicates -----

  /** An earlier live object holds the same address, under a name that is not empty. */
  predicate Repeats(earlier: seq<Listed>, l: Listed) {
    && Live(l)
    && exists j :: 0 <= j < |earlier| && Live(earlier[j]) && earlier[j].ip.addr == l.ip.addr && earlier[j].name != ""
  }

  function Duplicated(ips: seq<Listed>): seq<Listed> {
    if ips == [] then []
    else Duplicated(ips[..|ips| - 1]) + if Repeats(ips[..|ips| - 1], ips[|ips| - 1]) then [ips[|ips| - 1]] else []
  }

  predicate DistinctLive(ips: seq<Listed>) {
    forall i, j :: 0 <= i < j < |ips| && Live(ips[i]) && Live(ips[j]) ==> ips[i].ip.addr != ips[j].ip.addr
  }

  /** What is reported are the objects with an address, not being deleted, whose address an earlier
      object of that kind, with a name, has. */
  lemma {:induction false} DuplicatedExact(ips: seq<Listed>, l: Listed)
    ensures l in Duplicated(ips) <==>
            exists i, j :: 0 <= j < i < |ips| && ips[i] == l && l.ip.addr.Some? && !l.ip.deleting
              && ips[j].ip.addr == l.ip.addr && !ips[j].ip.deleting && ips[j].name != ""
  {
    if ips != [] {
      var n := |ips| - 1;
      var init := ips[..n];
      DuplicatedExact(init, l);
      assert forall k :: 0 <= k < n ==> init[k] == ips[k];
      if l == ips[n] && Repeats(init, l) {
        var j :| 0 <= j < n && Live(init[j]) && init[j].ip.addr == l.ip.addr && init[j].name != "";
        assert ips[n] == l && ips[j].ip.addr == l.ip.addr;
      }
    }
  }

  method FilterDuplicatedIP(ips: seq<Listed>) returns (duplicatedIPs: seq<Listed>)
    ensures duplicatedIPs == Duplicated(ips)
  {
    duplicatedIPs := [];
    var seen: map<Addr, Name> := map[];
    for i := 0 to |ips|
      invariant duplicatedIPs == Duplicated(ips[..i])
      invariant forall a: Addr :: a in seen && seen[a] != "" <==>
        exists j :: 0 <= j < i && Live(ips[j]) && ips[j].ip.addr == Some(a) && ips[j].name != ""
    {
      assert ips[..i + 1][..i] == ips[..i];
      var l := ips[i];
      if !Live(l) {
        continue;
      }
      var a := l.ip.addr.value;
      if a !in seen || seen[a] == "" {
        assert !Repeats(ips[..i], l);
        seen := seen[a := l.name];
        continue;
      }
      assert Repeats(ips[..i], l);
      duplicatedIPs := duplicatedIPs + [l];
    }
    assert ips[..|ips|] == ips;
  }

  // ----- rebuilding the usage -----

  function LiveAddrs(ips: seq<Listed>): seq<Addr> {
    if ips == [] then []
    else LiveAddrs(ips[..|ips| - 1]) + if Live(ips[|ips| - 1]) then [ips[|ips| - 1].ip.addr.value] else []
  }

  function GatewayAddrs(gateway: Option<Addr>): seq<Addr> {
    if gateway.Some? then [gateway.value] else []
  }

  /** The addresses the self check counts, in list order, the gateway last. */
  function Counted(ips: seq<Listed>, gateway: Option<Addr>): seq<Addr> {
    LiveAddrs(ips) + GatewayAddrs(gateway)
  }

  function Rebuilt(ips: seq<Listed>, gateway: Option<Addr>): seq<IPRange> {
    AddAll(Counted(ips, gateway), [])
  }

  predicate HoldsAddr(l: Listed, a: Addr) { Live(l) && l.ip.addr.value == a }

  predicate Held(ips: seq<Listed>, a: Addr) {
    exists j :: 0 <= j < |ips| && HoldsAddr(ips[j], a)
  }

  lemma HeldStep(ips: seq<Listed>, a: Addr)
    requires ips != []
    ensures var n := |ips| - 1; Held(ips, a) <==> Held(ips[..n], a) || HoldsAddr(ips[n], a)
  {
    var n := |ips| - 1;
    if Held(ips[..n], a) {
      var j :| 0 <= j < n && HoldsAddr(ips[..n][j], a);
      assert HoldsAddr(ips[j], a);
    }
    if Held(ips, a) {
      var j :| 0 <= j < |ips| && HoldsAddr(ips[j], a);
      assert j < n ==> HoldsAddr(ips[..n][j], a);
    }
  }

  lemma {:induction false} LiveAddrsExact(ips: seq<Listed>)
    ensures forall a: Addr :: a in LiveAddrs(ips) <==> Held(ips, a)
  {
    if ips != [] {
      LiveAddrsExact(ips[..|ips| - 1]);
      forall a: Addr ensures a in LiveAddrs(ips) <==> Held(ips, a) {
        HeldStep(ips, a);
      }
    }
  }

  lemma {:induction false} LiveAddrsFewer(ips: seq<Listed>)
    ensures |LiveAddrs(ips)| <= |ips|
  {
    if ips != [] {
      LiveAddrsFewer(ips[..|ips| - 1]);
    }
  }

  lemma {:induction false} LiveAddrsDistinct(ips: seq<Listed>)
    ensures Distinct(LiveAddrs(ips)) <==> DistinctLive(ips)
  {
    if ips != [] {
      var n := |ips| - 1;
      LiveAddrsDistinct(ips[..n]);
      DistinctLiveStep(ips);
      if Live(ips[n]) {
        LiveAddrsExact(ips[..n]);
        DistinctSnoc(LiveAddrs(ips[..n]), ips[n].ip.addr.value);
      } else {
        assert LiveAddrs(ips) == LiveAddrs(ips[..n]);
      }
    }
  }

  lemma DistinctLiveStep(ips: seq<Listed>)
    requires ips != []
    ensures var n := |ips| - 1;
            DistinctLive(ips) <==>
              DistinctLive(ips[..n]) && (Live(ips[n]) ==> !Held(ips[..n], ips[n].ip.addr.value))
  {
    var n := |ips| - 1;
    var init := ips[..n];
    assert forall i :: 0 <= i < n ==> init[i] == ips[i];
    if DistinctLive(init) && (Live(ips[n]) ==> !Held(init, ips[n].ip.addr.value)) {
      forall i, j | 0 <= i < j < |ips| && Live(ips[i]) && Live(ips[j])
        ensures ips[i].ip.addr != ips[j].ip.addr
      {
        assert j == n ==> !HoldsAddr(init[i], ips[n].ip.addr.value);
        assert j < n ==> Live(init[i]) && Live(init[j]);
      }
    }
  }

  lemma RepeatsIsHeld(earlier: seq<Listed>, l: Listed)
    requires forall i :: 0 <= i < |earlier| ==> earlier[i].name != ""
    ensures Repeats(earlier, l) <==> Live(l) && Held(earlier, l.ip.addr.value)
  {
    if Live(l) && Held(earlier, l.ip.addr.value) {
      var j :| 0 <= j < |earlier| && HoldsAddr(earlier[j], l.ip.addr.value);
      assert Live(earlier[j]);
    }
    if Repeats(earlier, l) {
      var j :| 0 <= j < |earlier| && Live(earlier[j]) && earlier[j].ip.addr == l.ip.addr && earlier[j].name != "";
      assert HoldsAddr(earlier[j], l.ip.addr.value);
    }
  }

  /** Nothing is reported exactly when the live addresses are pairwise distinct. */
  lemma {:induction false} NoDuplicatesExact(ips: seq<Listed>)
    requires forall i :: 0 <= i < |ips| ==> ips[i].name != ""
    ensures Duplicated(ips) == [] <==> DistinctLive(ips)
  {
    if ips != [] {
      var n := |ips| - 1;
      NoDuplicatesExact(ips[..n]);
      RepeatsIsHeld(ips[..n], ips[n]);
      DistinctLiveStep(ips);
    }
  }

  ghost function Elements(xs: seq<Addr>): set<Addr> { set x | x in xs }

  lemma {:induction false} DistinctCounts(xs: seq<Addr>)
    ensures |Elements(xs)| <= |xs|
    ensures |Elements(xs)| == |xs| <==> Distinct(xs)
  {
    if xs != [] {
      var n := |xs| - 1;
      DistinctCounts(xs[..n]);
      DistinctSnoc(xs[..n], xs[n]);
      assert xs == xs[..n] + [xs[n]];
      assert Elements(xs) == Elements(xs[..n]) + {xs[n]};
    }
  }

  /** The rebuilt list is canonical and covers the live addresses and the gateway;
      the rebuilt count is right exactly when these are pairwise distinct. */
  lemma RebuiltExact(ips: seq<Listed>, gateway: Option<Addr>)
    requires AddAllSafe(Counted(ips, gateway), [])
    ensures Canonical(Rebuilt(ips, gateway))
    ensures forall a: Addr :: Covers(Rebuilt(ips, gateway), a) <==> Held(ips, a) || gateway == Some(a)
    ensures |Counted(ips, gateway)| == |Addrs(Rebuilt(ips, gateway))| <==>
            DistinctLive(ips) && (gateway.Some? ==> !Held(ips, gateway.value))
  {
    var xs := Counted(ips, gateway);
    AddAllExact(xs, []);
    LiveAddrsExact(ips);
    assert Addrs(Rebuilt(ips, gateway)) == Elements(xs);
    DistinctCounts(xs);
    CountedDistinct(ips, gateway);
  }

  lemma CountedDistinct(ips: seq<Listed>, gateway: Option<Addr>)
    ensures Distinct(Counted(ips, gateway)) <==> DistinctLive(ips) && (gateway.Some? ==> !Held(ips, gateway.value))
  {
    LiveAddrsExact(ips);
    LiveAddrsDistinct(ips);
    if gateway.Some? {
      DistinctSnoc(LiveAddrs(ips), gateway.value);
    } else {
      assert Counted(ips, gateway) == LiveAddrs(ips);
    }
  }

  /** Listing the objects in another order, and adding the gateway at another time,
      as the incremental updates do, gives the very same list. */
  lemma RebuiltIsIncremental(ips: seq<Listed>, gateway: Option<Addr>, added: seq<Addr>)
    requires AddAllSafe(Counted(ips, gateway), []) && AddAllSafe(added, [])
    requires forall a: Addr :: a in added <==> Held(ips, a) || gateway == Some(a)
    ensures Rebuilt(ips, gateway) == AddAll(added, [])
  {
    LiveAddrsExact(ips);
    AddAllOrderIrrelevant(added, Counted(ips, gateway), []);
  }

  method RebuildUsage(ips: seq<Listed>, gateway: Option<Addr>) returns (usedIP: seq<IPRange>, usedIPCount: nat)
    ensures usedIP == Rebuilt(ips, gateway) && usedIPCount == |Counted(ips, gateway)|
  {
    usedIPCount := 0;
    usedIP := [];
    for i := 0 to |ips|
      invariant usedIP == AddAll(LiveAddrs(ips[..i]), []) && usedIPCount == |LiveAddrs(ips[..i])|
    {
      assert ips[..i + 1][..i] == ips[..i];
      if !Live(ips[i]) {
        assert LiveAddrs(ips[..i + 1]) == LiveAddrs(ips[..i]);
        continue;
      }
      usedIPCount := usedIPCount + 1;
      usedIP := AddIPToRange(ips[i].ip.addr, usedIP);
      AddAllSnoc(LiveAddrs(ips[..i]), ips[i].ip.addr.value);
    }
    assert ips[..|ips|] == ips;
    if gateway.Some? {
      usedIP := AddIPToRange(gateway, usedIP);
      usedIPCount := usedIPCount + 1;
      AddAllSnoc(LiveAddrs(ips), gateway.value);
    } else {
      assert Counted(ips, gateway) == LiveAddrs(ips);
    }
  }

  lemma AddAllSnoc(xs: seq<Addr>, x: Addr)
    ensures AddAll(xs + [x], []) == Add(x, AddAll(xs, []))
  {
    assert (xs + [x])[..|xs|] == xs;
  }
}

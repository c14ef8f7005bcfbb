/** Admission of subnets: no two may hand out the same address
(pkg/common/common.go and the conflict checks of pkg/ipcalc/ipcalc.go). */
module Conflicts {
  import opened Options
  import opened Ranges
  import opened Blocks
  import opened Allocator

  /** A CIDR as parsed: the address as written and the block it names. */
  datatype CIDR = CIDR(ip: Addr, net: Net)

  datatype FlatMode = Macvlan | IPvlan | Unrecognized

  datatype Subnet = Subnet(
    name: string,
    flatMode: FlatMode,
    vlan: int,
    cidr: CIDR,
    ranges: seq<IPRange>,
    gateway: Option<Addr>)

  predicate Parsed(c: CIDR) { Valid(c.net) && Contains(c.net, c.ip) }

  predicate ValidRange(r: IPRange, net: Net) {
    Contains(net, r.from) && Contains(net, r.to) && r.from <= r.to
  }

  /** ValidateSubnet, on a CIDR that parses and routes that are valid. */
  predicate ValidSubnet(s: Subnet) {
    && s.flatMode != Unrecognized
    && Parsed(s.cidr)
    && (s.gateway.Some? ==> Contains(s.cidr.net, s.gateway.value))
    && forall i :: 0 <= i < |s.ranges| ==> ValidRange(s.ranges[i], s.cidr.net)
  }

  method ValidateSubnet(s: Subnet) returns (ok: bool)
    requires Parsed(s.cidr)
    ensures ok <==>
      && (s.flatMode == Macvlan || s.flatMode == IPvlan)
      && (s.gateway.Some? ==> s.cidr.net.first <= s.gateway.value <= Last(s.cidr.net))
      && forall i :: 0 <= i < |s.ranges| ==> s.cidr.net.first <= s.ranges[i].from <= s.ranges[i].to <= Last(s.cidr.net)
    ensures ok <==> ValidSubnet(s)
  {
    if s.flatMode == Unrecognized {
      return false;
    }
    if s.gateway.Some? && !Contains(s.cidr.net, s.gateway.value) {
      return false;
    }
    for i := 0 to |s.ranges|
      invariant forall j :: 0 <= j < i ==> ValidRange(s.ranges[j], s.cidr.net)
    {
      if !Contains(s.cidr.net, s.ranges[i].from) || !Contains(s.cidr.net, s.ranges[i].to) {
        return false;
      }
      if s.ranges[i].from > s.ranges[i].to {
        return false;
      }
    }
    return true;
  }

  // ----- CIDR blocks -----

  predicate NetworkConflict(c1: CIDR, c2: CIDR) {
    c1.ip == c2.ip || Contains(c1.net, c2.ip) || Contains(c2.net, c1.ip)
  }

  ghost predicate BlocksShare(n1: Net, n2: Net) {
    exists a: Addr :: Contains(n1, a) && Contains(n2, a)
  }

  /** CheckNetworkConflict reports a conflict exactly when the blocks share an address. */
  lemma NetworkConflictExact(c1: CIDR, c2: CIDR)
    requires Parsed(c1) && Parsed(c2)
    ensures NetworkConflict(c1, c2) <==> BlocksShare(c1.net, c2.net)
  {
    if BlocksShare(c1.net, c2.net) {
      var a: Addr :| Contains(c1.net, a) && Contains(c2.net, a);
      if c1.net.hostBits <= c2.net.hostBits {
        BlocksNest(c1.net, c2.net, a);
      } else {
        BlocksNest(c2.net, c1.net, a);
      }
    }
  }

  // ----- lists of ranges -----

  /** ipRangeConflict: an end of one range lies in the other. */
  predicate RangeConflict(r1: IPRange, r2: IPRange) {
    Has(r2, r1.from) || Has(r2, r1.to) || Has(r1, r2.from) || Has(r1, r2.to)
  }

  predicate RangesConflict(ranges1: seq<IPRange>, ranges2: seq<IPRange>) {
    exists i, j :: 0 <= i < |ranges1| && 0 <= j < |ranges2| && RangeConflict(ranges1[i], ranges2[j])
  }

  method CheckIPRangesConflict(ranges1: seq<IPRange>, ranges2: seq<IPRange>) returns (conflict: bool)
    ensures conflict <==> RangesConflict(ranges1, ranges2)
  {
    for i := 0 to |ranges1|
      invariant forall k, j :: 0 <= k < i && 0 <= j < |ranges2| ==> !RangeConflict(ranges1[k], ranges2[j])
    {
      for j := 0 to |ranges2|
        invariant forall k :: 0 <= k < j ==> !RangeConflict(ranges1[i], ranges2[k])
      {
        if RangeConflict(ranges1[i], ranges2[j]) {
          return true;
        }
      }
    }
    return false;
  }

  /** CheckIPRangesConflict reports a conflict exactly when the lists share an address. */
  lemma RangesConflictExact(ranges1: seq<IPRange>, ranges2: seq<IPRange>)
    requires WellFormed(ranges1) && WellFormed(ranges2)
    ensures RangesConflict(ranges1, ranges2) <==> exists a: Addr :: Covers(ranges1, a) && Covers(ranges2, a)
  {
    if RangesConflict(ranges1, ranges2) {
      var i, j :| 0 <= i < |ranges1| && 0 <= j < |ranges2| && RangeConflict(ranges1[i], ranges2[j]);
      RangeConflictShares(ranges1[i], ranges2[j]);
      var a: Addr :| Has(ranges1[i], a) && Has(ranges2[j], a);
      assert Covers(ranges1, a) && Covers(ranges2, a);
    }
    if exists a: Addr :: Covers(ranges1, a) && Covers(ranges2, a) {
      var a: Addr :| Covers(ranges1, a) && Covers(ranges2, a);
      var i, j :| 0 <= i < |ranges1| && Has(ranges1[i], a) && 0 <= j < |ranges2| && Has(ranges2[j], a);
      assert RangeConflict(ranges1[i], ranges2[j]);
    }
  }

  lemma RangeConflictShares(r1: IPRange, r2: IPRange)
    requires r1.from <= r1.to && r2.from <= r2.to
    ensures RangeConflict(r1, r2) <==> exists a: Addr :: Has(r1, a) && Has(r2, a)
  {
    if RangeConflict(r1, r2) {
      var a: Addr := if r1.from <= r2.from then r2.from else r1.from;
      assert Has(r1, a) && Has(r2, a);
    }
  }

  // ----- CheckSubnetConflict -----

  /** The listed subnet is compared at all, and its block overlaps. */
  predicate Overlaps(subnet: Subnet, s: Subnet) {
    && s.name != subnet.name && s.flatMode == subnet.flatMode && s.vlan == subnet.vlan
    && NetworkConflict(s.cidr, subnet.cidr)
  }

  /** Both configure ranges, and these share no address. */
  predicate RangesApart(subnet: Subnet, s: Subnet) {
    s.ranges != [] && subnet.ranges != [] && !RangesConflict(subnet.ranges, s.ranges)
  }

  /** The position of the first overlapping subnet, or the length of the list. */
  function FirstOverlap(subnet: Subnet, subnets: seq<Subnet>): (i: nat)
    ensures i <= |subnets|
    ensures forall j :: 0 <= j < i ==> !Overlaps(subnet, subnets[j])
    ensures i < |subnets| ==> Overlaps(subnet, subnets[i])
  {
    if subnets == [] || Overlaps(subnet, subnets[0]) then 0
    else
      var i := FirstOverlap(subnet, subnets[1..]);
      assert forall j :: 0 < j < i + 1 ==> subnets[j] == subnets[1..][j - 1];
      i + 1
  }

  predicate Accepts(subnet: Subnet, subnets: seq<Subnet>) {
    var i := FirstOverlap(subnet, subnets);
    i < |subnets| ==> RangesApart(subnet, subnets[i])
  }

  /** The check looks no further than the first subnet whose block overlaps. */
  method CheckSubnetConflict(subnet: Subnet, subnets: seq<Subnet>) returns (ok: bool)
    ensures ok <==> Accepts(subnet, subnets)
  {
    for i := 0 to |subnets|
      invariant forall j :: 0 <= j < i ==> !Overlaps(subnet, subnets[j])
    {
      var s := subnets[i];
      if s.name == subnet.name || s.flatMode != subnet.flatMode || s.vlan != subnet.vlan {
        continue;
      }
      if NetworkConflict(s.cidr, subnet.cidr) {
        assert FirstOverlap(subnet, subnets) == i;
        if |s.ranges| != 0 && |subnet.ranges| != 0 {
          var conflict := CheckIPRangesConflict(subnet.ranges, s.ranges);
          return !conflict;
        }
        return false;
      }
    }
    return true;
  }

  // ----- acceptance, on the fields of the subnets -----

  /** A subnet of another name, of the same mode and VLAN, whose block neither ends before the
      new one begins nor begins after it ends. */
  predicate Meets(subnet: Subnet, s: Subnet) {
    && s.name != subnet.name && s.flatMode == subnet.flatMode && s.vlan == subnet.vlan
    && s.cidr.net.first <= Last(subnet.cidr.net) && subnet.cidr.net.first <= Last(s.cidr.net)
  }

  lemma OverlapsExact(subnet: Subnet, s: Subnet)
    requires Parsed(subnet.cidr) && Parsed(s.cidr)
    ensures Overlaps(subnet, s) <==> Meets(subnet, s)
  {
    NetworkConflictExact(s.cidr, subnet.cidr);
    var a := if s.cidr.net.first <= subnet.cidr.net.first then subnet.cidr.net.first else s.cidr.net.first;
    if Meets(subnet, s) {
      assert Contains(s.cidr.net, a) && Contains(subnet.cidr.net, a);
    }
  }

  /** A valid subnet is accepted if and only if the first subnet of the list that it meets, if
      there is one, and itself have ranges, and no address is in ranges of both. */
  lemma AcceptsIff(subnet: Subnet, subnets: seq<Subnet>)
    requires ValidSubnet(subnet) && forall i :: 0 <= i < |subnets| ==> ValidSubnet(subnets[i])
    ensures Accepts(subnet, subnets) <==>
            forall i :: 0 <= i < |subnets| && Meets(subnet, subnets[i]) && (forall j :: 0 <= j < i ==> !Meets(subnet, subnets[j])) ==>
              subnet.ranges != [] && subnets[i].ranges != [] && forall a: Addr :: !(Covers(subnet.ranges, a) && Covers(subnets[i].ranges, a))
  {
    forall i | 0 <= i < |subnets| ensures Overlaps(subnet, subnets[i]) <==> Meets(subnet, subnets[i]) {
      OverlapsExact(subnet, subnets[i]);
    }
    var k := FirstOverlap(subnet, subnets);
    if k < |subnets| {
      RangesConflictExact(subnet.ranges, subnets[k].ranges);
    }
  }

  /** The subnets that the check looks at. */
  function Relevant(subnet: Subnet, subnets: seq<Subnet>): seq<Subnet> {
    if subnets == [] then []
    else if subnets[0].name == subnet.name || subnets[0].flatMode != subnet.flatMode || subnets[0].vlan != subnet.vlan
    then Relevant(subnet, subnets[1..])
    else [subnets[0]] + Relevant(subnet, subnets[1..])
  }

  /** Subnets of the same name, of another mode or of another VLAN make no difference. */
  lemma {:induction false} IrrelevantAreSkipped(subnet: Subnet, subnets: seq<Subnet>)
    ensures Accepts(subnet, Relevant(subnet, subnets)) <==> Accepts(subnet, subnets)
  {
    if subnets != [] {
      IrrelevantAreSkipped(subnet, subnets[1..]);
      AcceptsTail(subnet, subnets[0], subnets[1..]);
      AcceptsTail(subnet, subnets[0], Relevant(subnet, subnets[1..]));
      assert [subnets[0]] + subnets[1..] == subnets;
    }
  }

  lemma AcceptsTail(subnet: Subnet, s: Subnet, rest: seq<Subnet>)
    ensures Accepts(subnet, [s] + rest) <==> if Overlaps(subnet, s) then RangesApart(subnet, s) else Accepts(subnet, rest)
  {
    assert ([s] + rest)[1..] == rest;
  }

  /** In particular a subnet is accepted against a list of itself, of subnets of other modes and
      VLANs, and of subnets whose blocks share no address with its own. */
  lemma NoneMetIsAccepted(subnet: Subnet, subnets: seq<Subnet>)
    requires Parsed(subnet.cidr) && forall i :: 0 <= i < |subnets| ==> Parsed(subnets[i].cidr)
    requires forall i :: 0 <= i < |subnets| ==>
      || subnets[i].name == subnet.name || subnets[i].flatMode != subnet.flatMode || subnets[i].vlan != subnet.vlan
      || !BlocksShare(subnets[i].cidr.net, subnet.cidr.net)
    ensures Accepts(subnet, subnets)
  {
    var k := FirstOverlap(subnet, subnets);
    if k < |subnets| {
      NetworkConflictExact(subnets[k].cidr, subnet.cidr);
    }
  }

  /** Blocks or ranges keep the two subnets apart. */
  predicate Apart(subnet: Subnet, s: Subnet) {
    Overlaps(subnet, s) ==> RangesApart(subnet, s)
  }

  predicate AllApart(subnet: Subnet, subnets: seq<Subnet>) {
    forall i :: 0 <= i < |subnets| ==> Apart(subnet, subnets[i])
  }

  predicate AtMostOneOverlaps(subnet: Subnet, subnets: seq<Subnet>) {
    forall j, k :: 0 <= j < k < |subnets| ==> !(Overlaps(subnet, subnets[j]) && Overlaps(subnet, subnets[k]))
  }

  lemma AcceptedIsApart(subnet: Subnet, subnets: seq<Subnet>)
    requires AtMostOneOverlaps(subnet, subnets) && Accepts(subnet, subnets)
    ensures AllApart(subnet, subnets)
  {
    var k := FirstOverlap(subnet, subnets);
    forall i | 0 <= i < |subnets| ensures Apart(subnet, subnets[i]) {
      assert i < k ==> !Overlaps(subnet, subnets[i]);
    }
  }

  // What acceptance says about subnets whose blocks, modes and VLANs are given and whose
  // ranges may be any.

  predicate ValidRanges(ranges: seq<IPRange>, net: Net) {
    forall i :: 0 <= i < |ranges| ==> ValidRange(ranges[i], net)
  }

  function WithRanges(subnets: seq<Subnet>, rs: seq<seq<IPRange>>): (r: seq<Subnet>)
    requires |rs| == |subnets|
    ensures |r| == |subnets|
  {
    seq(|subnets|, i requires 0 <= i < |subnets| => subnets[i].(ranges := rs[i]))
  }

  /** The list is valid with the ranges rs, and the subnet with the ranges r is accepted. */
  predicate AcceptedWith(subnet: Subnet, subnets: seq<Subnet>, r: seq<IPRange>, rs: seq<seq<IPRange>>) {
    && |rs| == |subnets| && ValidRanges(r, subnet.cidr.net)
    && (forall i :: 0 <= i < |rs| ==> ValidRanges(rs[i], subnets[i].cidr.net))
    && Accepts(subnet.(ranges := r), WithRanges(subnets, rs))
  }

  ghost predicate AcceptanceSuffices(subnet: Subnet, subnets: seq<Subnet>) {
    forall r, rs :: AcceptedWith(subnet, subnets, r, rs) ==> AllApart(subnet.(ranges := r), WithRanges(subnets, rs))
  }

  /** The subnet and the first one it overlaps are one and the same address. */
  predicate SameSingleAddress(subnet: Subnet, subnets: seq<Subnet>) {
    var i := FirstOverlap(subnet, subnets);
    i < |subnets| && subnets[i].cidr.net.hostBits == 0 && subnet.cidr.net.hostBits == 0
  }

  lemma SameFirstOverlap(subnet: Subnet, subnets: seq<Subnet>, r: seq<IPRange>, rs: seq<seq<IPRange>>)
    requires |rs| == |subnets|
    ensures FirstOverlap(subnet.(ranges := r), WithRanges(subnets, rs)) == FirstOverlap(subnet, subnets)
  {
    var subnet', subnets' := subnet.(ranges := r), WithRanges(subnets, rs);
    assert forall k :: 0 <= k < |subnets| ==> (Overlaps(subnet', subnets'[k]) <==> Overlaps(subnet, subnets[k]));
  }

  /** Two addresses to give to two subnets, unless both are the same single address. */
  lemma DifferentAddresses(n1: Net, n2: Net) returns (x: Addr, y: Addr)
    requires Valid(n1) && Valid(n2) && !(n1.hostBits == 0 && n2.hostBits == 0)
    ensures Contains(n1, x) && Contains(n2, y) && x != y
  {
    x, y := n1.first, n2.first;
    if x == y && n1.hostBits > 0 {
      x := x + 1;
    } else if x == y {
      y := y + 1;
    }
  }

  /** With two overlapping subnets the check can pass although the second one, which has no
      ranges, is in conflict. */
  lemma SecondOverlapIsMissed(subnet: Subnet, subnets: seq<Subnet>, k: nat)
    requires Valid(subnet.cidr.net) && !SameSingleAddress(subnet, subnets)
    requires forall i :: 0 <= i < |subnets| ==> Valid(subnets[i].cidr.net)
    requires FirstOverlap(subnet, subnets) < k < |subnets| && Overlaps(subnet, subnets[k])
    ensures !AcceptanceSuffices(subnet, subnets)
  {
    var j := FirstOverlap(subnet, subnets);
    var x, y := DifferentAddresses(subnets[j].cidr.net, subnet.cidr.net);
    var r, rs := [IPRange(y, y)], seq(|subnets|, i => if i == j then [IPRange(x, x)] else []);
    SameFirstOverlap(subnet, subnets, r, rs);
    var subnet', subnets' := subnet.(ranges := r), WithRanges(subnets, rs);
    DifferentAreApart(subnet', subnets'[j], x, y);
    assert AcceptedWith(subnet, subnets, r, rs);
    assert !Apart(subnet', subnets'[k]);
  }

  lemma DifferentAreApart(s: Subnet, t: Subnet, x: Addr, y: Addr)
    requires x != y && s.ranges == [IPRange(y, y)] && t.ranges == [IPRange(x, x)]
    ensures RangesApart(s, t)
  {
  }

  lemma SingleAddressIsRejected(subnet: Subnet, subnets: seq<Subnet>, r: seq<IPRange>, rs: seq<seq<IPRange>>)
    requires Parsed(subnet.cidr) && forall i :: 0 <= i < |subnets| ==> Parsed(subnets[i].cidr)
    requires SameSingleAddress(subnet, subnets)
    requires |rs| == |subnets| && ValidRanges(r, subnet.cidr.net)
    requires forall i :: 0 <= i < |rs| ==> ValidRanges(rs[i], subnets[i].cidr.net)
    ensures !Accepts(subnet.(ranges := r), WithRanges(subnets, rs))
  {
    SameFirstOverlap(subnet, subnets, r, rs);
    var j := FirstOverlap(subnet, subnets);
    assert WithRanges(subnets, rs)[j].ranges == rs[j];
    if r != [] && rs[j] != [] {
      assert ValidRange(r[0], subnet.cidr.net) && ValidRange(rs[j][0], subnets[j].cidr.net);
      assert RangeConflict(r[0], rs[j][0]);
    }
  }

  /** Whatever the ranges, acceptance means freedom from conflict with the whole list if and
      only if at most one block of the list overlaps, or the first that does is the same
      single address as the new one, when nothing is accepted. */
  lemma AcceptanceSufficesIff(subnet: Subnet, subnets: seq<Subnet>)
    requires Parsed(subnet.cidr) && forall i :: 0 <= i < |subnets| ==> Parsed(subnets[i].cidr)
    ensures AcceptanceSuffices(subnet, subnets) <==>
            AtMostOneOverlaps(subnet, subnets) || SameSingleAddress(subnet, subnets)
  {
    if AtMostOneOverlaps(subnet, subnets) {
      forall r, rs | AcceptedWith(subnet, subnets, r, rs)
        ensures AllApart(subnet.(ranges := r), WithRanges(subnets, rs))
      {
        assert AtMostOneOverlaps(subnet.(ranges := r), WithRanges(subnets, rs));
        AcceptedIsApart(subnet.(ranges := r), WithRanges(subnets, rs));
      }
    } else if SameSingleAddress(subnet, subnets) {
      forall r, rs ensures !AcceptedWith(subnet, subnets, r, rs) {
        if |rs| == |subnets| && ValidRanges(r, subnet.cidr.net)
           && forall i :: 0 <= i < |rs| ==> ValidRanges(rs[i], subnets[i].cidr.net) {
          SingleAddressIsRejected(subnet, subnets, r, rs);
        }
      }
    } else {
      var j, k :| 0 <= j < k < |subnets| && Overlaps(subnet, subnets[j]) && Overlaps(subnet, subnets[k]);
      SecondOverlapIsMissed(subnet, subnets, k);
    }
  }

  /** The second listed subnet has the very ranges of the new one, which is accepted. */
  lemma LaterConflictIsMissed(net: Net, a: Addr, b: Addr)
    requires Valid(net) && Contains(net, a) && Contains(net, b) && a != b
    ensures var cidr := CIDR(net.first, net);
            var first := Subnet("first", Macvlan, 0, cidr, [IPRange(a, a)], None);
            var second := Subnet("second", Macvlan, 0, cidr, [IPRange(b, b)], None);
            var added := Subnet("added", Macvlan, 0, cidr, [IPRange(b, b)], None);
            && ValidSubnet(first) && ValidSubnet(second) && ValidSubnet(added)
            && Apart(first, second)
            && Accepts(added, [first, second]) && !Apart(added, second)
  {
    var cidr := CIDR(net.first, net);
    var first := Subnet("first", Macvlan, 0, cidr, [IPRange(a, a)], None);
    var second := Subnet("second", Macvlan, 0, cidr, [IPRange(b, b)], None);
    var added := Subnet("added", Macvlan, 0, cidr, [IPRange(b, b)], None);
    assert Overlaps(added, first) && Overlaps(added, second);
    assert FirstOverlap(added, [first, second]) == 0;
    assert RangeConflict(added.ranges[0], second.ranges[0]);
    assert !RangesConflict(added.ranges, first.ranges);
    assert !RangesConflict(first.ranges, second.ranges);
  }

  // ----- what two accepted subnets can hand out -----

  /** Some auto-mode allocation in s returns a. */
  ghost predicate CanReturn(s: Subnet, a: Addr)
    requires Valid(s.cidr.net)
  {
    exists used :: Canonical(used) && GetAvailable(s.cidr.net, s.ranges, used) == Found(a)
  }

  lemma CanReturnExact(s: Subnet, a: Addr)
    requires Valid(s.cidr.net)
    ensures CanReturn(s, a) <==> Usable(s.cidr.net, a) && InScope(s.ranges, a)
  {
    if CanReturn(s, a) {
      var used :| Canonical(used) && GetAvailable(s.cidr.net, s.ranges, used) == Found(a);
      AvailableExact(s.cidr.net, s.ranges, used);
    }
    if Usable(s.cidr.net, a) && InScope(s.ranges, a) {
      var used := [IPRange(0, a - 1), IPRange(a + 1, MAX_ADDR)];
      SinglesCover(used[0], used[1]);
      AvailableExact(s.cidr.net, s.ranges, used);
      assert Vacant(s.cidr.net, s.ranges, used, a);
      var o := GetAvailable(s.cidr.net, s.ranges, used);
      assert o.Found? && !Covers(used, o.addr);
      assert Canonical(used) && o == Found(a);
    }
  }

  /** The part of a range that allocation can use, when it must lie inside two blocks. */
  function Lower(r: IPRange, n1: Net, n2: Net): int {
    var from := if r.to == MAX_ADDR then 0 else r.from;
    var lo := if n1.first < n2.first then n2.first + 1 else n1.first + 1;
    if from < lo then lo else from
  }

  function Upper(r: IPRange, n1: Net, n2: Net): int {
    var hi := if Last(n1) < Last(n2) then Last(n1) - 1 else Last(n2) - 1;
    if r.to < hi then r.to else hi
  }

  /** A range of s ends at the last address, so that s wraps into its whole block,
      and there it meets a range of t. */
  predicate WrapsInto(s: Subnet, t: Subnet) {
    && EndsAtLast(s.ranges)
    && exists i :: 0 <= i < |t.ranges| &&
         Lower(t.ranges[i], s.cidr.net, t.cidr.net) <= Upper(t.ranges[i], s.cidr.net, t.cidr.net)
  }

  lemma MeetsExact(r: IPRange, n1: Net, n2: Net)
    requires Valid(n1) && Valid(n2)
    ensures Lower(r, n1, n2) <= Upper(r, n1, n2) <==>
            exists a: Addr :: Usable(n1, a) && Usable(n2, a) && Reaches(r, a)
  {
    if Lower(r, n1, n2) <= Upper(r, n1, n2) {
      var a: Addr := Lower(r, n1, n2);
      assert Usable(n1, a) && Usable(n2, a) && Reaches(r, a);
    }
  }

  lemma WrapsIntoExact(s: Subnet, t: Subnet)
    requires ValidSubnet(s) && ValidSubnet(t) && t.ranges != []
    ensures WrapsInto(s, t) <==>
            EndsAtLast(s.ranges) && exists a: Addr :: Usable(s.cidr.net, a) && CanReturn(t, a)
  {
    if WrapsInto(s, t) {
      var i :| 0 <= i < |t.ranges| &&
        Lower(t.ranges[i], s.cidr.net, t.cidr.net) <= Upper(t.ranges[i], s.cidr.net, t.cidr.net);
      MeetsExact(t.ranges[i], s.cidr.net, t.cidr.net);
      var a: Addr :| Usable(s.cidr.net, a) && Usable(t.cidr.net, a) && Reaches(t.ranges[i], a);
      CanReturnExact(t, a);
      assert Usable(s.cidr.net, a) && CanReturn(t, a);
    }
    if EndsAtLast(s.ranges) && exists a: Addr :: Usable(s.cidr.net, a) && CanReturn(t, a) {
      var a: Addr :| Usable(s.cidr.net, a) && CanReturn(t, a);
      CanReturnExact(t, a);
      var i :| 0 <= i < |t.ranges| && Reaches(t.ranges[i], a);
      MeetsExact(t.ranges[i], s.cidr.net, t.cidr.net);
      assert Lower(t.ranges[i], s.cidr.net, t.cidr.net) <= Upper(t.ranges[i], s.cidr.net, t.cidr.net);
    }
  }

  /** With overlapping blocks and ranges apart, an address both can return is one
      that a wrapping range brings in. */
  lemma CommonNeedsWrap(s: Subnet, t: Subnet, a: Addr)
    requires ValidSubnet(s) && ValidSubnet(t) && RangesApart(s, t)
    requires CanReturn(s, a) && CanReturn(t, a)
    ensures WrapsInto(s, t) || WrapsInto(t, s)
  {
    CanReturnExact(s, a);
    CanReturnExact(t, a);
    if EndsAtLast(s.ranges) {
      WrapsIntoExact(s, t);
    } else if EndsAtLast(t.ranges) {
      WrapsIntoExact(t, s);
    }
  }

  /** Two validated subnets of the same mode and VLAN, the one accepted against the
      other, never hand out the same address in auto mode, if and only if neither has
      a range that ends at the last address and wraps into the other's ranges. */
  lemma AcceptedSubnetsAreDisjointIff(s: Subnet, t: Subnet)
    requires ValidSubnet(s) && ValidSubnet(t)
    requires s.name != t.name && s.flatMode == t.flatMode && s.vlan == t.vlan
    requires Accepts(s, [t])
    ensures (forall a: Addr :: !(CanReturn(s, a) && CanReturn(t, a))) <==>
            !(NetworkConflict(t.cidr, s.cidr) && (WrapsInto(s, t) || WrapsInto(t, s)))
  {
    NetworkConflictExact(t.cidr, s.cidr);
    assert FirstOverlap(s, [t]) == if NetworkConflict(t.cidr, s.cidr) then 0 else 1;
    if exists a: Addr :: CanReturn(s, a) && CanReturn(t, a) {
      var a: Addr :| CanReturn(s, a) && CanReturn(t, a);
      CanReturnExact(s, a);
      CanReturnExact(t, a);
      assert Contains(s.cidr.net, a) && Contains(t.cidr.net, a);
      CommonNeedsWrap(s, t, a);
    }
    if NetworkConflict(t.cidr, s.cidr) && WrapsInto(s, t) {
      WrapGivesCommon(s, t);
    }
    if NetworkConflict(t.cidr, s.cidr) && WrapsInto(t, s) {
      WrapGivesCommon(t, s);
    }
  }

  lemma WrapGivesCommon(s: Subnet, t: Subnet)
    requires ValidSubnet(s) && ValidSubnet(t) && t.ranges != [] && WrapsInto(s, t)
    ensures exists a: Addr :: CanReturn(s, a) && CanReturn(t, a)
  {
    WrapsIntoExact(s, t);
    var a: Addr :| Usable(s.cidr.net, a) && CanReturn(t, a);
    var i :| 0 <= i < |s.ranges| && s.ranges[i].to == MAX_ADDR;
    assert Reaches(s.ranges[i], a);
    CanReturnExact(s, a);
  }

  /** Two subnets on the last 256 addresses whose ranges do not meet: the one is accepted
      against the other, its range wraps, and both hand out the same address. */
  lemma WrappedSubnetsCollide()
    ensures var cidr := CIDR(MAX_ADDR - 255, TopBlock());
            var s := Subnet("s", Macvlan, 0, cidr, [IPRange(MAX_ADDR - 3, MAX_ADDR)], None);
            var t := Subnet("t", Macvlan, 0, cidr, [IPRange(MAX_ADDR - 100, MAX_ADDR - 90)], None);
            && ValidSubnet(s) && ValidSubnet(t) && Accepts(s, [t]) && Accepts(t, [s]) && WrapsInto(s, t)
            && CanReturn(s, MAX_ADDR - 95) && CanReturn(t, MAX_ADDR - 95)
  {
    var cidr := CIDR(MAX_ADDR - 255, TopBlock());
    var s := Subnet("s", Macvlan, 0, cidr, [IPRange(MAX_ADDR - 3, MAX_ADDR)], None);
    var t := Subnet("t", Macvlan, 0, cidr, [IPRange(MAX_ADDR - 100, MAX_ADDR - 90)], None);
    assert RangesApart(s, t) && RangesApart(t, s);
    assert s.ranges[0].to == MAX_ADDR;
    assert Lower(t.ranges[0], TopBlock(), TopBlock()) <= Upper(t.ranges[0], TopBlock(), TopBlock());
    assert Reaches(s.ranges[0], MAX_ADDR - 95) && Reaches(t.ranges[0], MAX_ADDR - 95);
    CanReturnExact(s, MAX_ADDR - 95);
    CanReturnExact(t, MAX_ADDR - 95);
  }

  /** A subnet accepted against a list in which at most one block overlaps shares no
      auto-mode address with any subnet of that list, of its mode and VLAN, if no range
      ends at the last address. */
  lemma AcceptedAgainstListIsDisjoint(s: Subnet, subnets: seq<Subnet>, i: nat, a: Addr)
    requires ValidSubnet(s) && Accepts(s, subnets)
    requires AtMostOneOverlaps(s, subnets)
    requires i < |subnets| && ValidSubnet(subnets[i]) && subnets[i].name != s.name
    requires subnets[i].flatMode == s.flatMode && subnets[i].vlan == s.vlan
    requires !EndsAtLast(s.ranges) && !EndsAtLast(subnets[i].ranges)
    ensures !(CanReturn(s, a) && CanReturn(subnets[i], a))
  {
    AcceptedIsApart(s, subnets);
    assert Apart(s, subnets[i]);
    assert [subnets[i]][0] == subnets[i];
    assert Accepts(s, [subnets[i]]);
    AcceptedSubnetsAreDisjointIff(s, subnets[i]);
  }
}

/** First-fit search for an address (GetAvailableIP in pkg/ipcalc/ipcalc.go). */
module Allocator {
  import opened Options
  import opened Ranges
  import opened Blocks

  /** Loops: the scan never returns. */
  datatype Outcome = Found(addr: Addr) | NoAvailable | Loops

  predicate Free(net: Net, used: seq<IPRange>, a: Addr) {
    Usable(net, a) && !Covers(used, a)
  }

  // ----- the naive scan -----

  function FirstFree(net: Net, used: seq<IPRange>, lo: int, hi: int): Option<Addr>
    requires 0 <= lo && hi <= MAX_ADDR
    decreases hi - lo + 1
  {
    if lo > hi then None
    else if Free(net, used, lo) then Some(lo)
    else FirstFree(net, used, lo + 1, hi)
  }

  /** One configured range. A range that ends at the last address has a loop
      guard that never fails, so the scan goes on from address zero. */
  function SearchRange(net: Net, used: seq<IPRange>, r: IPRange): Outcome {
    match FirstFree(net, used, r.from, r.to)
    case Some(a) => Found(a)
    case None =>
      if r.to < MAX_ADDR then NoAvailable
      else match FirstFree(net, used, 0, r.from - 1)
        case Some(a) => Found(a)
        case None => Loops
  }

  function SearchRanges(net: Net, used: seq<IPRange>, ranges: seq<IPRange>): Outcome {
    if ranges == [] then NoAvailable
    else match SearchRange(net, used, ranges[0])
      case NoAvailable => SearchRanges(net, used, ranges[1..])
      case o => o
  }

  function GetAvailable(net: Net, ranges: seq<IPRange>, used: seq<IPRange>): Outcome
    requires Valid(net)
  {
    if ranges != [] then SearchRanges(net, used, ranges)
    else match FirstFree(net, used, net.first, Last(net))
      case Some(a) => Found(a)
      case None => NoAvailable
  }

  lemma {:induction false} FirstFreeIsLeast(net: Net, used: seq<IPRange>, lo: int, hi: int)
    requires 0 <= lo && hi <= MAX_ADDR
    ensures match FirstFree(net, used, lo, hi)
            case Some(a) => lo <= a <= hi && Free(net, used, a) && forall b: Addr :: lo <= b < a ==> !Free(net, used, b)
            case None => forall b: Addr :: lo <= b <= hi ==> !Free(net, used, b)
    decreases hi - lo + 1
  {
    if lo <= hi && !Free(net, used, lo) {
      FirstFreeIsLeast(net, used, lo + 1, hi);
    }
  }

  // ----- the scan with the skip, as the source runs it -----

  /** "Skip the already used range to increase performance." */
  method SkipUsed(first: Addr, used: seq<IPRange>) returns (start: Addr)
    requires WellFormed(used)
    ensures first <= start
    ensures forall a: Addr :: first <= a < start ==> Covers(used, a)
  {
    start := first;
    for i := 0 to |used|
      invariant first <= start
      invariant forall a: Addr :: first <= a < start ==> Covers(used, a)
    {
      if used[i].from == start {
        assert forall a: Addr :: start <= a <= used[i].to ==> Has(used[i], a);
        start := used[i].to;
      }
    }
  }

  method ScanRange(net: Net, used: seq<IPRange>, r: IPRange) returns (o: Outcome)
    requires WellFormed(used)
    ensures o == SearchRange(net, used, r)
  {
    var start := SkipUsed(r.from, used);
    FirstFreeIsLeast(net, used, r.from, r.to);
    FirstFreeIsLeast(net, used, 0, r.from - 1);
    var ip: Addr := start;
    var visited := 0;
    ghost var wrapped := false;
    while ip <= r.to
      invariant !wrapped ==> visited == ip - start && forall a: Addr :: start <= a < ip ==> !Free(net, used, a)
      invariant wrapped ==>
        && r.to == MAX_ADDR && visited == MAX_ADDR + 1 - start + ip && ip <= start
        && (forall a: Addr :: start <= a ==> !Free(net, used, a))
        && (forall a: Addr :: a < ip ==> !Free(net, used, a))
      invariant start <= ip || wrapped
      invariant !wrapped && start < ip ==> ip - 1 <= r.to
      decreases MAX_ADDR + 2 - visited
    {
      if visited > MAX_ADDR {
        // Every address has been looked at and ip is back where it started:
        // the loop repeats itself for ever.
        return Loops;
      }
      if Usable(net, ip) {
        var taken := IPInRanges(Some(ip), used);
        if !taken {
          assert Free(net, used, ip);
          return Found(ip);
        }
      }
      wrapped := wrapped || ip == MAX_ADDR;
      ip := Inc(ip);
      visited := visited + 1;
    }
    return NoAvailable;
  }

  method GetAvailableIP(net: Net, ipRanges: seq<IPRange>, usedIPs: seq<IPRange>) returns (o: Outcome)
    requires Valid(net) && WellFormed(usedIPs)
    ensures o == GetAvailable(net, ipRanges, usedIPs)
  {
    if |ipRanges| > 0 {
      for i := 0 to |ipRanges|
        invariant GetAvailable(net, ipRanges, usedIPs) == SearchRanges(net, usedIPs, ipRanges[i..])
      {
        o := ScanRange(net, usedIPs, ipRanges[i]);
        if o != NoAvailable {
          return;
        }
        assert ipRanges[i..][1..] == ipRanges[i + 1..];
      }
      return NoAvailable;
    }
    var first := Inc(net.first);
    var start := SkipUsed(first, usedIPs);
    FirstFreeIsLeast(net, usedIPs, net.first, Last(net));
    var ip: Addr := start;
    while Contains(net, ip)
      invariant Contains(net, ip) ==> start <= ip && forall a: Addr :: start <= a < ip ==> !Free(net, usedIPs, a)
      invariant !Contains(net, ip) ==> forall a: Addr :: start <= a ==> !Free(net, usedIPs, a)
      decreases if Contains(net, ip) then Last(net) + 1 - ip else 0
    {
      if Usable(net, ip) {
        var taken := IPInRanges(Some(ip), usedIPs);
        if !taken {
          assert Free(net, usedIPs, ip);
          return Found(ip);
        }
      }
      ip := Inc(ip);
    }
    return NoAvailable;
  }

  // ----- which addresses can be given out -----

  /** A range that ends at the last address reaches, by wrapping, the whole block. */
  predicate Reaches(r: IPRange, a: Addr) { Has(r, a) || r.to == MAX_ADDR }

  predicate InScope(ranges: seq<IPRange>, a: Addr) {
    ranges == [] || exists i :: 0 <= i < |ranges| && Reaches(ranges[i], a)
  }

  /** An unused candidate. */
  predicate Vacant(net: Net, ranges: seq<IPRange>, used: seq<IPRange>, a: Addr) {
    Free(net, used, a) && InScope(ranges, a)
  }

  predicate EndsAtLast(ranges: seq<IPRange>) {
    exists i :: 0 <= i < |ranges| && ranges[i].to == MAX_ADDR
  }

  lemma SearchRangeExact(net: Net, used: seq<IPRange>, r: IPRange)
    ensures match SearchRange(net, used, r)
            case Found(a) => Free(net, used, a) && Reaches(r, a)
            case NoAvailable => r.to < MAX_ADDR && forall a: Addr :: Reaches(r, a) ==> !Free(net, used, a)
            case Loops => r.to == MAX_ADDR && forall a: Addr :: !Free(net, used, a)
  {
    FirstFreeIsLeast(net, used, r.from, r.to);
    FirstFreeIsLeast(net, used, 0, r.from - 1);
  }

  lemma {:induction false} SearchRangesExact(net: Net, used: seq<IPRange>, ranges: seq<IPRange>)
    ensures match SearchRanges(net, used, ranges)
            case Found(a) => ranges != [] && Vacant(net, ranges, used, a)
            case NoAvailable => !EndsAtLast(ranges) && (ranges != [] ==> forall a: Addr :: !Vacant(net, ranges, used, a))
            case Loops => EndsAtLast(ranges) && forall a: Addr :: !Free(net, used, a)
  {
    if ranges != [] {
      SearchRangeExact(net, used, ranges[0]);
      SearchRangesExact(net, used, ranges[1..]);
      var o := SearchRanges(net, used, ranges);
      if o.Found? && SearchRange(net, used, ranges[0]).NoAvailable? {
        var i :| 0 <= i < |ranges[1..]| && Reaches(ranges[1..][i], o.addr);
        assert Reaches(ranges[i + 1], o.addr);
      } else if o.Loops? && SearchRange(net, used, ranges[0]).NoAvailable? {
        var i :| 0 <= i < |ranges[1..]| && ranges[1..][i].to == MAX_ADDR;
        assert ranges[i + 1].to == MAX_ADDR;
      } else if o.NoAvailable? {
        NoneInTail(net, used, ranges);
      }
    }
  }

  lemma NoneInTail(net: Net, used: seq<IPRange>, ranges: seq<IPRange>)
    requires ranges != [] && ranges[0].to < MAX_ADDR && !EndsAtLast(ranges[1..])
    requires forall a: Addr :: Reaches(ranges[0], a) ==> !Free(net, used, a)
    requires ranges[1..] != [] ==> forall a: Addr :: !Vacant(net, ranges[1..], used, a)
    ensures !EndsAtLast(ranges) && forall a: Addr :: !Vacant(net, ranges, used, a)
  {
    assert forall i :: 0 < i < |ranges| ==> ranges[i] == ranges[1..][i - 1];
    forall a: Addr ensures !Vacant(net, ranges, used, a) {
      if Free(net, used, a) {
        forall i | 0 < i < |ranges| ensures !Reaches(ranges[i], a) {
          assert !Vacant(net, ranges[1..], used, a);
          assert !Reaches(ranges[1..][i - 1], a);
        }
      }
    }
  }

  /** GetAvailableIP finds an address exactly when a candidate is unused, and what
      it finds is one. Otherwise it fails, or never returns when some range ends
      at the last address. */
  lemma AvailableExact(net: Net, ranges: seq<IPRange>, used: seq<IPRange>)
    requires Valid(net)
    ensures match GetAvailable(net, ranges, used)
            case Found(a) => Vacant(net, ranges, used, a)
            case NoAvailable => !EndsAtLast(ranges) && forall a: Addr :: !Vacant(net, ranges, used, a)
            case Loops => EndsAtLast(ranges) && forall a: Addr :: !Vacant(net, ranges, used, a)
  {
    if ranges != [] {
      SearchRangesExact(net, used, ranges);
    } else {
      FirstFreeIsLeast(net, used, net.first, Last(net));
    }
  }

  // ----- the order in which addresses are given out -----

  /** The first range that reaches a. */
  function Rank(ranges: seq<IPRange>, a: Addr): (i: nat)
    ensures i <= |ranges|
  {
    if ranges == [] || Reaches(ranges[0], a) then 0 else 1 + Rank(ranges[1..], a)
  }

  /** How many steps the scan of r needs to get to a, around the end if it must. */
  function Distance(r: IPRange, a: Addr): int {
    if r.from <= a then a - r.from else a - r.from + MAX_ADDR + 1
  }

  function DistanceIn(ranges: seq<IPRange>, a: Addr): int {
    if Rank(ranges, a) < |ranges| then Distance(ranges[Rank(ranges, a)], a) else a
  }

  /** Earlier range first, and within a range what the scan meets first: the smaller
      address, or in a range that wraps the one behind its start. */
  predicate Before(ranges: seq<IPRange>, a: Addr, b: Addr) {
    || Rank(ranges, a) < Rank(ranges, b)
    || (Rank(ranges, a) == Rank(ranges, b) && DistanceIn(ranges, a) < DistanceIn(ranges, b))
  }

  /** In a range that does not wrap that is ascending order. */
  lemma BeforeAscends(ranges: seq<IPRange>, a: Addr, b: Addr)
    requires Rank(ranges, a) == Rank(ranges, b)
    requires Rank(ranges, a) < |ranges| ==> Has(ranges[Rank(ranges, a)], a) && Has(ranges[Rank(ranges, a)], b)
    ensures Before(ranges, a, b) <==> a < b
  {
  }

  lemma SearchRangeIsFirst(net: Net, used: seq<IPRange>, r: IPRange, c: Addr)
    requires SearchRange(net, used, r).Found? && Free(net, used, c) && Reaches(r, c)
    ensures var a := SearchRange(net, used, r).addr; a == c || Distance(r, a) < Distance(r, c)
  {
    FirstFreeIsLeast(net, used, r.from, r.to);
    FirstFreeIsLeast(net, used, 0, r.from - 1);
  }

  lemma {:induction false} SearchRangesIsFirst(net: Net, used: seq<IPRange>, ranges: seq<IPRange>, c: Addr)
    requires SearchRanges(net, used, ranges).Found?
    requires Vacant(net, ranges, used, c) && ranges != []
    ensures var a := SearchRanges(net, used, ranges).addr; a == c || Before(ranges, a, c)
  {
    var a := SearchRanges(net, used, ranges).addr;
    SearchRangeExact(net, used, ranges[0]);
    assert Free(net, used, c);
    if SearchRange(net, used, ranges[0]).NoAvailable? {
      SearchRangesExact(net, used, ranges[1..]);
      assert !Reaches(ranges[0], c) && !Reaches(ranges[0], a) by { assert Free(net, used, a); }
      assert forall i :: 0 < i < |ranges| ==> ranges[i] == ranges[1..][i - 1];
      var i :| 0 <= i < |ranges| && Reaches(ranges[i], c);
      assert Reaches(ranges[1..][i - 1], c);
      SearchRangesIsFirst(net, used, ranges[1..], c);
      assert Rank(ranges, a) == 1 + Rank(ranges[1..], a) && Rank(ranges, c) == 1 + Rank(ranges[1..], c);
    } else if Reaches(ranges[0], c) {
      SearchRangeIsFirst(net, used, ranges[0], c);
    }
  }

  /** The address found comes before every other unused candidate. */
  lemma AvailableIsFirst(net: Net, ranges: seq<IPRange>, used: seq<IPRange>, c: Addr)
    requires Valid(net) && Vacant(net, ranges, used, c)
    ensures var o := GetAvailable(net, ranges, used);
            o.Found? && (o.addr == c || Before(ranges, o.addr, c))
  {
    AvailableExact(net, ranges, used);
    if ranges != [] {
      SearchRangesIsFirst(net, used, ranges, c);
    } else {
      FirstFreeIsLeast(net, used, net.first, Last(net));
      assert Free(net, used, c);
    }
  }

  // ----- what a range that ends at the last address does -----

  /** A block that contains the last address lies in the upper half of the address space,
      so a scan that wraps needs at least 2^127 steps to come back to it. */
  lemma WrapIsLong(net: Net)
    requires Valid(net) && Contains(net, MAX_ADDR)
    ensures 2 * net.first > MAX_ADDR
  {
    if net.hostBits == 128 {
      assert net.first == MAX_ADDR + 1 - Pow2(128);
    } else {
      Pow2Add(net.hostBits, 127 - net.hostBits);
      MulMonotone(Pow2(net.hostBits), 1, Pow2(127 - net.hostBits));
    }
    Pow2Halves();
  }

  /** The last 256 addresses. */
  function TopBlock(): (net: Net)
    ensures Valid(net) && net.first == MAX_ADDR - 255 && Last(net) == MAX_ADDR
  {
    TopBlockIsValid();
    Net(MAX_ADDR - 255, 8)
  }

  /** The range leaves room at its end, which is used, and the scan returns an address of
      the block that lies outside the range. */
  lemma ScanLeavesRange()
    ensures var r := IPRange(MAX_ADDR - 3, MAX_ADDR);
            var used := [IPRange(MAX_ADDR - 3, MAX_ADDR - 1)];
            && Canonical(used)
            && GetAvailable(TopBlock(), [r], used) == Found(MAX_ADDR - 254) && !Has(r, MAX_ADDR - 254)
  {
    var net, r := TopBlock(), IPRange(MAX_ADDR - 3, MAX_ADDR);
    var used := [IPRange(MAX_ADDR - 3, MAX_ADDR - 1)];
    SinglesCover(used[0], used[0]);
    FirstFreeIsLeast(net, used, r.from, r.to);
    FirstFreeIsLeast(net, used, 0, r.from - 1);
    assert Free(net, used, MAX_ADDR - 254);
    assert SearchRange(net, used, r) == Found(MAX_ADDR - 254);
  }

  /** The block is exhausted and the scan never returns. */
  lemma ScanNeverReturns()
    ensures var used := [IPRange(MAX_ADDR - 255, MAX_ADDR)];
            Canonical(used) && GetAvailable(TopBlock(), [IPRange(MAX_ADDR - 3, MAX_ADDR)], used) == Loops
  {
    var used := [IPRange(MAX_ADDR - 255, MAX_ADDR)];
    var ranges := [IPRange(MAX_ADDR - 3, MAX_ADDR)];
    SinglesCover(used[0], used[0]);
    AvailableExact(TopBlock(), ranges, used);
    assert ranges[0].to == MAX_ADDR;
  }

  // ----- allocating until nothing is left -----

  ghost function VacantSet(net: Net, ranges: seq<IPRange>, used: seq<IPRange>): set<Addr> {
    set a: Addr | 0 <= a <= MAX_ADDR && Vacant(net, ranges, used, a)
  }

  /** An allocated address is never at an end of the address space, so taking it is exact. */
  lemma TakeExact(net: Net, ranges: seq<IPRange>, used: seq<IPRange>, a: Addr)
    requires Valid(net) && Canonical(used) && Vacant(net, ranges, used, a)
    ensures AddSafe(a, used) && AddsExactly(a, used, Add(a, used))
    ensures VacantSet(net, ranges, Add(a, used)) == VacantSet(net, ranges, used) - {a}
    ensures a in VacantSet(net, ranges, used)
  {
    assert 0 < a < MAX_ADDR;
    AddExact(a, used);
    VacantAfter(net, ranges, used, a, Add(a, used));
  }

  lemma VacantAfter(net: Net, ranges: seq<IPRange>, used: seq<IPRange>, a: Addr, used': seq<IPRange>)
    requires CoverPlus(used, a, used')
    ensures VacantSet(net, ranges, used') == VacantSet(net, ranges, used) - {a}
  {
    forall b: Addr ensures Vacant(net, ranges, used', b) <==> Vacant(net, ranges, used, b) && b != a {
      assert Covers(used', b) <==> Covers(used, b) || b == a;
    }
  }

  /** The addresses given out by repeating "auto-allocate, then AddIPToRange". */
  ghost function Drain(net: Net, ranges: seq<IPRange>, used: seq<IPRange>): seq<Addr>
    requires Valid(net) && Canonical(used)
    decreases |VacantSet(net, ranges, used)|
  {
    match GetAvailable(net, ranges, used)
    case Found(a) =>
      AvailableExact(net, ranges, used);
      TakeExact(net, ranges, used, a);
      [a] + Drain(net, ranges, Add(a, used))
    case _ => []
  }

  /** The sequence has every element of the set once, and nothing else. */
  ghost predicate ListsOnce(d: seq<Addr>, s: set<Addr>) {
    && (forall a: Addr :: a in d <==> a in s)
    && |d| == |s|
    && Distinct(d)
  }

  lemma ListsOnceHead(a: Addr, rest: seq<Addr>, s: set<Addr>)
    requires a in s && ListsOnce(rest, s - {a})
    ensures ListsOnce([a] + rest, s)
  {
    assert forall b: Addr :: b in [a] + rest <==> b == a || b in rest;
  }

  /** Every unused candidate is given out exactly once. */
  lemma {:induction false} DrainGivesEachOnce(net: Net, ranges: seq<IPRange>, used: seq<IPRange>)
    requires Valid(net) && Canonical(used)
    ensures ListsOnce(Drain(net, ranges, used), VacantSet(net, ranges, used))
    decreases |VacantSet(net, ranges, used)|
  {
    AvailableExact(net, ranges, used);
    match GetAvailable(net, ranges, used)
    case Found(a) =>
      TakeExact(net, ranges, used, a);
      DrainGivesEachOnce(net, ranges, Add(a, used));
      ListsOnceHead(a, Drain(net, ranges, Add(a, used)), VacantSet(net, ranges, used));
    case _ =>
      assert VacantSet(net, ranges, used) == {};
  }

  /** After that no further try finds an address. */
  lemma {:induction false} DrainExhausts(net: Net, ranges: seq<IPRange>, used: seq<IPRange>)
    requires Valid(net) && Canonical(used)
    ensures var used' := AddAll(Drain(net, ranges, used), used);
            Canonical(used') && !GetAvailable(net, ranges, used').Found?
    decreases |VacantSet(net, ranges, used)|
  {
    AvailableExact(net, ranges, used);
    match GetAvailable(net, ranges, used)
    case Found(a) =>
      TakeExact(net, ranges, used, a);
      DrainExhausts(net, ranges, Add(a, used));
      AddAllHead(a, Drain(net, ranges, Add(a, used)), used);
    case _ =>
  }

  lemma {:induction false} AddAllHead(a: Addr, rest: seq<Addr>, rs: seq<IPRange>)
    ensures AddAll([a] + rest, rs) == AddAll(rest, Add(a, rs))
  {
    if rest == [] {
      assert [a] + rest == [a];
      assert AddAll([a], rs) == Add(a, AddAll([], rs));
    } else {
      var n := |rest| - 1;
      assert ([a] + rest)[..n + 1] == [a] + rest[..n];
      AddAllHead(a, rest[..n], rs);
    }
  }

  predicate Ascends(ranges: seq<IPRange>, d: seq<Addr>) {
    forall i, j :: 0 <= i < j < |d| ==> Before(ranges, d[i], d[j])
  }

  predicate BeforeAll(ranges: seq<IPRange>, a: Addr, rest: seq<Addr>) {
    forall j :: 0 <= j < |rest| ==> Before(ranges, a, rest[j])
  }

  /** They are given out range by range and, within a range, in the order of the scan. */
  lemma {:induction false} DrainAscends(net: Net, ranges: seq<IPRange>, used: seq<IPRange>)
    requires Valid(net) && Canonical(used)
    ensures Ascends(ranges, Drain(net, ranges, used))
    decreases |VacantSet(net, ranges, used)|
  {
    AvailableExact(net, ranges, used);
    if GetAvailable(net, ranges, used).Found? {
      var a := GetAvailable(net, ranges, used).addr;
      TakeExact(net, ranges, used, a);
      DrainAscends(net, ranges, Add(a, used));
      DrainGivesEachOnce(net, ranges, Add(a, used));
      var rest := Drain(net, ranges, Add(a, used));
      AllBefore(net, ranges, used, a, rest);
      AscendsHead(ranges, a, rest);
    }
  }

  lemma AscendsHead(ranges: seq<IPRange>, a: Addr, rest: seq<Addr>)
    requires BeforeAll(ranges, a, rest) && Ascends(ranges, rest)
    ensures Ascends(ranges, [a] + rest)
  {
  }

  lemma AllBefore(net: Net, ranges: seq<IPRange>, used: seq<IPRange>, a: Addr, rest: seq<Addr>)
    requires Valid(net)
    requires GetAvailable(net, ranges, used) == Found(a)
    requires ListsOnce(rest, VacantSet(net, ranges, used) - {a})
    ensures BeforeAll(ranges, a, rest)
  {
    forall j | 0 <= j < |rest| ensures Before(ranges, a, rest[j]) {
      assert rest[j] in rest;
      AvailableIsFirst(net, ranges, used, rest[j]);
    }
  }

  lemma {:induction false} RankReaches(ranges: seq<IPRange>, a: Addr)
    requires ranges != [] && InScope(ranges, a)
    ensures Rank(ranges, a) < |ranges| && Reaches(ranges[Rank(ranges, a)], a)
  {
    if !Reaches(ranges[0], a) {
      var i :| 0 <= i < |ranges| && Reaches(ranges[i], a);
      assert Reaches(ranges[1..][i - 1], a);
      RankReaches(ranges[1..], a);
    }
  }

  /** If no range ends at the last address, the addresses of one range come in ascending order. */
  lemma DrainAscendsInRange(net: Net, ranges: seq<IPRange>, used: seq<IPRange>, i: nat, j: nat)
    requires Valid(net) && Canonical(used) && !EndsAtLast(ranges) && i < j < |Drain(net, ranges, used)|
    ensures var d := Drain(net, ranges, used);
            Rank(ranges, d[i]) <= Rank(ranges, d[j]) && (Rank(ranges, d[i]) == Rank(ranges, d[j]) ==> d[i] < d[j])
  {
    var d := Drain(net, ranges, used);
    DrainAscends(net, ranges, used);
    DrainGivesEachOnce(net, ranges, used);
    assert d[i] in VacantSet(net, ranges, used) && d[j] in VacantSet(net, ranges, used);
    assert Before(ranges, d[i], d[j]);
    if ranges != [] {
      RankReaches(ranges, d[i]);
      RankReaches(ranges, d[j]);
    }
    if Rank(ranges, d[i]) == Rank(ranges, d[j]) {
      BeforeAscends(ranges, d[i], d[j]);
    }
  }
}

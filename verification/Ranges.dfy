/** Used and reserved addresses as lists of closed intervals (pkg/ipcalc/ipcalc.go).

An address is the number its sixteen bytes spell; module Addresses proves that
this view is exact for the byte operations the code uses.
*/
module Ranges {
  import opened Options

  const MAX_ADDR: int := 0xFFFF_FFFF_FFFF_FFFF_FFFF_FFFF_FFFF_FFFF

  type Addr = a: int | 0 <= a <= MAX_ADDR

  datatype IPRange = IPRange(from: Addr, to: Addr)

  // IPIncrease and IPDecrease on sixteen bytes: both wrap.
  function Inc(a: Addr): Addr { if a == MAX_ADDR then 0 else a + 1 }

  function Dec(a: Addr): Addr { if a == 0 then MAX_ADDR else a - 1 }

  predicate Has(r: IPRange, a: Addr) { r.from <= a <= r.to }

  predicate Covers(rs: seq<IPRange>, a: Addr) {
    exists i :: 0 <= i < |rs| && Has(rs[i], a)
  }

  /** No interval is empty. */
  predicate WellFormed(rs: seq<IPRange>) {
    forall i :: 0 <= i < |rs| ==> rs[i].from <= rs[i].to
  }

  /** Sorted, disjoint, non-empty and with a gap between any two intervals. */
  predicate Canonical(rs: seq<IPRange>) {
    && WellFormed(rs)
    && forall i, j :: 0 <= i < j < |rs| ==> rs[i].to + 1 < rs[j].from
  }

  ghost predicate SameCover(r1: seq<IPRange>, r2: seq<IPRange>) {
    forall a: Addr :: Covers(r1, a) <==> Covers(r2, a)
  }

  /** r2 covers what r1 covers, and a. */
  ghost predicate CoverPlus(r1: seq<IPRange>, a: Addr, r2: seq<IPRange>) {
    forall b: Addr :: Covers(r2, b) <==> Covers(r1, b) || b == a
  }

  /** r2 covers what r1 covers, except a. */
  ghost predicate CoverMinus(r1: seq<IPRange>, a: Addr, r2: seq<IPRange>) {
    forall b: Addr :: Covers(r2, b) <==> Covers(r1, b) && b != a
  }

  // ----- sorting by From, for slices.SortFunc -----

  predicate SortedByFrom(rs: seq<IPRange>) {
    forall i, j :: 0 <= i < j < |rs| ==> rs[i].from <= rs[j].from
  }

  function Place(rs: seq<IPRange>, x: IPRange): seq<IPRange> {
    if rs == [] then [x]
    else if x.from < rs[0].from then [x] + rs
    else [rs[0]] + Place(rs[1..], x)
  }

  function SortByFrom(rs: seq<IPRange>): seq<IPRange> {
    if rs == [] then [] else Place(SortByFrom(rs[..|rs| - 1]), rs[|rs| - 1])
  }

  lemma {:induction false} SortOfSorted(rs: seq<IPRange>)
    requires SortedByFrom(rs)
    ensures SortByFrom(rs) == rs
  {
    if rs != [] {
      SortOfSorted(rs[..|rs| - 1]);
      PlaceLast(rs[..|rs| - 1], rs[|rs| - 1]);
      assert rs == rs[..|rs| - 1] + [rs[|rs| - 1]];
    }
  }

  lemma {:induction false} PlaceLast(rs: seq<IPRange>, x: IPRange)
    requires forall i :: 0 <= i < |rs| ==> rs[i].from <= x.from
    ensures Place(rs, x) == rs + [x]
  {
    if rs != [] {
      PlaceLast(rs[1..], x);
      assert rs + [x] == [rs[0]] + (rs[1..] + [x]);
    }
  }

  predicate StrictlySorted(rs: seq<IPRange>) {
    forall i, j :: 0 <= i < j < |rs| ==> rs[i].from < rs[j].from
  }

  /** Where no two intervals start at the same address, every sorting algorithm, stable or
      not, gives the same list. */
  lemma {:induction false} SortingIsUnique(rs: seq<IPRange>, t: seq<IPRange>)
    requires StrictlySorted(rs) && SortedByFrom(t) && multiset(rs) == multiset(t)
    ensures rs == t
    decreases |rs|
  {
    assert |multiset(rs)| == |rs| && |multiset(t)| == |t|;
    if rs != [] {
      SameHead(rs, t);
      assert rs == [rs[0]] + rs[1..] && t == [t[0]] + t[1..];
      assert multiset(rs[1..]) == multiset(rs) - multiset{rs[0]};
      assert multiset(t[1..]) == multiset(t) - multiset{t[0]};
      SortingIsUnique(rs[1..], t[1..]);
    }
  }

  lemma SameHead(rs: seq<IPRange>, t: seq<IPRange>)
    requires StrictlySorted(rs) && SortedByFrom(t) && multiset(rs) == multiset(t) && rs != [] && t != []
    ensures rs[0] == t[0]
  {
    assert rs[0] in multiset(t) && t[0] in multiset(rs);
    var i :| 0 <= i < |t| && t[i] == rs[0];
    var j :| 0 <= j < |rs| && rs[j] == t[0];
    assert t[0].from <= t[i].from;
    assert rs[0].from <= rs[j].from;
  }

  // ----- a canonical list is determined by what it covers -----

  lemma TailCovers(rs: seq<IPRange>, a: Addr)
    requires rs != []
    ensures Covers(rs, a) <==> Has(rs[0], a) || Covers(rs[1..], a)
    ensures Canonical(rs) && Covers(rs[1..], a) ==> a > rs[0].to + 1
  {
    if Covers(rs, a) {
      var i :| 0 <= i < |rs| && Has(rs[i], a);
      if i > 0 {
        assert rs[1..][i - 1] == rs[i];
      }
    }
    if Covers(rs[1..], a) {
      var i :| 0 <= i < |rs[1..]| && Has(rs[1..][i], a);
      assert rs[1..][i] == rs[i + 1];
    }
    if Has(rs[0], a) {
      assert Covers(rs, a);
    }
  }

  lemma FirstIsCovered(rs: seq<IPRange>)
    requires WellFormed(rs)
    ensures rs != [] ==> Covers(rs, rs[0].from)
  {
    if rs != [] {
      assert Has(rs[0], rs[0].from);
    }
  }

  lemma {:induction false} CanonicalUnique(r1: seq<IPRange>, r2: seq<IPRange>)
    requires Canonical(r1) && Canonical(r2)
    requires SameCover(r1, r2)
    ensures r1 == r2
  {
    FirstIsCovered(r1);
    FirstIsCovered(r2);
    if r1 != [] && r2 != [] {
      HeadNotAbove(r1, r2);
      HeadNotAbove(r2, r1);
      forall a: Addr
        ensures Covers(r1[1..], a) <==> Covers(r2[1..], a)
      {
        TailCovers(r1, a);
        TailCovers(r2, a);
      }
      CanonicalUnique(r1[1..], r2[1..]);
    }
  }

  lemma HeadNotAbove(r1: seq<IPRange>, r2: seq<IPRange>)
    requires Canonical(r1) && Canonical(r2)
    requires SameCover(r1, r2)
    requires r1 != [] && r2 != []
    ensures r2[0].from <= r1[0].from
    ensures r2[0].from == r1[0].from ==> r1[0].to <= r2[0].to
  {
    assert Has(r1[0], r1[0].from);
    assert Covers(r2, r1[0].from);
    if r2[0].from == r1[0].from && r2[0].to < r1[0].to {
      var a: Addr := r2[0].to + 1;
      assert Has(r1[0], a);
      TailCovers(r2, a);
      assert false;
    }
  }

  // ----- replacing a stretch of a canonical list -----

  lemma CoversSplit(x: seq<IPRange>, y: seq<IPRange>, b: Addr)
    ensures Covers(x + y, b) <==> Covers(x, b) || Covers(y, b)
  {
    if Covers(x, b) {
      var i :| 0 <= i < |x| && Has(x[i], b);
      assert Has((x + y)[i], b);
    }
    if Covers(y, b) {
      var i :| 0 <= i < |y| && Has(y[i], b);
      assert Has((x + y)[|x| + i], b);
    }
  }

  function Spliced(rs: seq<IPRange>, lo: nat, hi: nat, ps: seq<IPRange>): seq<IPRange>
    requires lo <= hi <= |rs|
  {
    rs[..lo] + ps + rs[hi..]
  }

  lemma SplicedCovers(rs: seq<IPRange>, lo: nat, hi: nat, ps: seq<IPRange>, b: Addr)
    requires lo <= hi <= |rs|
    ensures Covers(Spliced(rs, lo, hi, ps), b) <==>
            Covers(rs[..lo], b) || Covers(ps, b) || Covers(rs[hi..], b)
  {
    CoversSplit(rs[..lo] + ps, rs[hi..], b);
    CoversSplit(rs[..lo], ps, b);
  }

  lemma CanonicalConcat(x: seq<IPRange>, y: seq<IPRange>)
    requires Canonical(x) && Canonical(y)
    requires x != [] && y != [] ==> x[|x| - 1].to + 1 < y[0].from
    ensures Canonical(x + y)
  {
    var r := x + y;
    forall i, j | 0 <= i < j < |r|
      ensures r[i].to + 1 < r[j].from
    {
      if i < |x| <= j {
        assert x[i].to <= x[|x| - 1].to;
        assert y[0].from <= y[j - |x|].from;
      }
    }
  }

  lemma SplicedCanonical(rs: seq<IPRange>, lo: nat, hi: nat, ps: seq<IPRange>)
    requires lo <= hi <= |rs|
    requires Canonical(rs) && Canonical(ps)
    requires lo > 0 ==> forall k :: 0 <= k < |ps| ==> rs[lo - 1].to + 1 < ps[k].from
    requires hi < |rs| ==> forall k :: 0 <= k < |ps| ==> ps[k].to + 1 < rs[hi].from
    ensures Canonical(Spliced(rs, lo, hi, ps))
  {
    CanonicalConcat(rs[..lo], ps);
    CanonicalConcat(rs[..lo] + ps, rs[hi..]);
  }

  lemma SinglesCover(r: IPRange, t: IPRange)
    ensures forall b: Addr :: Covers([r], b) <==> Has(r, b)
    ensures forall b: Addr :: Covers([r, t], b) <==> Has(r, b) || Has(t, b)
  {
    forall b: Addr
      ensures Covers([r], b) <==> Has(r, b)
      ensures Covers([r, t], b) <==> Has(r, b) || Has(t, b)
    {
      assert Covers([r], b) <==> Has([r][0], b);
      assert Covers([r, t], b) <==> Has([r, t][0], b) || Has([r, t][1], b);
    }
  }

  // ----- AddIPToRange -----

  function AddAt(ip: Addr, rs: seq<IPRange>, i: nat): seq<IPRange>
    requires i <= |rs|
    decreases |rs| - i
  {
    if i == |rs| then
      SortByFrom(rs + [IPRange(ip, ip)])
    else if ip == Dec(rs[i].from) then
      rs[i := rs[i].(from := ip)]
    else if ip == Inc(rs[i].to) then
      if i + 1 < |rs| && ip == Dec(rs[i + 1].from) then
        rs[..i] + [IPRange(rs[i].from, rs[i + 1].to)] + rs[i + 2..]
      else
        rs[i := rs[i].(to := ip)]
    else
      AddAt(ip, rs, i + 1)
  }

  function Add(ip: Addr, rs: seq<IPRange>): seq<IPRange> {
    if Covers(rs, ip) then rs else AddAt(ip, rs, 0)
  }

  /** The Go entry point also accepts a nil address. */
  function AddNullable(ip: Option<Addr>, rs: seq<IPRange>): seq<IPRange> {
    match ip
    case None => rs
    case Some(a) => Add(a, rs)
  }

  /** The additions whose loop never meets a wrapped neighbour of ip. */
  predicate AddSafe(ip: Addr, rs: seq<IPRange>) {
    || Covers(rs, ip)
    || rs == []
    || !(|| (ip == MAX_ADDR && rs[0].from == 0)
         || (ip == 0 && rs[|rs| - 1].to == MAX_ADDR && rs[0].from != 1))
  }

  ghost predicate AddsExactly(ip: Addr, rs: seq<IPRange>, r: seq<IPRange>) {
    Canonical(r) && CoverPlus(rs, ip, r)
  }

  lemma SpliceAdds(ip: Addr, rs: seq<IPRange>, lo: nat, hi: nat, r: IPRange)
    requires lo <= hi <= |rs| && Canonical(rs) && r.from <= r.to
    requires lo > 0 ==> rs[lo - 1].to + 1 < r.from
    requires hi < |rs| ==> r.to + 1 < rs[hi].from
    requires forall b: Addr :: Has(r, b) <==> Covers(rs[lo..hi], b) || b == ip
    ensures AddsExactly(ip, rs, rs[..lo] + [r] + rs[hi..])
  {
    SplicedCanonical(rs, lo, hi, [r]);
    SpliceCoversPlus(ip, rs, lo, hi, r);
  }

  lemma SpliceCoversPlus(ip: Addr, rs: seq<IPRange>, lo: nat, hi: nat, r: IPRange)
    requires lo <= hi <= |rs|
    requires forall b: Addr :: Has(r, b) <==> Covers(rs[lo..hi], b) || b == ip
    ensures CoverPlus(rs, ip, rs[..lo] + [r] + rs[hi..])
  {
    SinglesCover(r, r);
    assert rs == Spliced(rs, lo, hi, rs[lo..hi]);
    var result := rs[..lo] + [r] + rs[hi..];
    assert result == Spliced(rs, lo, hi, [r]);
    forall b: Addr
      ensures Covers(result, b) <==> Covers(rs, b) || b == ip
    {
      SplicedCovers(rs, lo, hi, [r], b);
      SplicedCovers(rs, lo, hi, rs[lo..hi], b);
    }
  }

  lemma {:induction false} PlaceAt(rs: seq<IPRange>, x: IPRange) returns (k: nat)
    requires SortedByFrom(rs)
    ensures k <= |rs| && Place(rs, x) == rs[..k] + [x] + rs[k..]
    ensures forall i :: 0 <= i < k ==> rs[i].from <= x.from
    ensures forall i :: k <= i < |rs| ==> x.from < rs[i].from
  {
    if rs == [] || x.from < rs[0].from {
      k := 0;
    } else {
      var j := PlaceAt(rs[1..], x);
      k := j + 1;
      assert rs[..k] == [rs[0]] + rs[1..][..j];
      assert rs[k..] == rs[1..][j..];
      forall i | 0 <= i < k ensures rs[i].from <= x.from {
        if i > 0 { assert rs[i] == rs[1..][i - 1]; }
      }
      forall i | k <= i < |rs| ensures x.from < rs[i].from {
        assert rs[i] == rs[1..][i - 1];
      }
    }
  }

  /** ip lies in no interval and touches none from either side. */
  predicate Apart(ip: Addr, r: IPRange) {
    !Has(r, ip) && ip != Dec(r.from) && ip != Inc(r.to)
  }

  lemma InsertAdds(ip: Addr, rs: seq<IPRange>, k: nat)
    requires Canonical(rs) && k <= |rs|
    requires k > 0 ==> rs[k - 1].from <= ip && Apart(ip, rs[k - 1])
    requires k < |rs| ==> ip < rs[k].from && Apart(ip, rs[k])
    ensures AddsExactly(ip, rs, rs[..k] + [IPRange(ip, ip)] + rs[k..])
  {
    assert rs[k..k] == [];
    SpliceAdds(ip, rs, k, k, IPRange(ip, ip));
  }

  lemma AppendAndSortAdds(ip: Addr, rs: seq<IPRange>)
    requires Canonical(rs)
    requires forall j :: 0 <= j < |rs| ==> Apart(ip, rs[j])
    ensures AddsExactly(ip, rs, SortByFrom(rs + [IPRange(ip, ip)]))
  {
    var x := IPRange(ip, ip);
    CanonicalIsSorted(rs);
    SortOfSorted(rs);
    assert (rs + [x])[..|rs|] == rs;
    var k := PlaceAt(rs, x);
    InsertAdds(ip, rs, k);
  }

  lemma CanonicalIsSorted(rs: seq<IPRange>)
    requires Canonical(rs)
    ensures SortedByFrom(rs)
  {
  }

  ghost predicate AddOutcome(ip: Addr, rs: seq<IPRange>, r: seq<IPRange>) {
    if AddSafe(ip, rs) then AddsExactly(ip, rs, r) else !Canonical(r) && !Covers(r, ip)
  }

  lemma GrowDownExact(ip: Addr, rs: seq<IPRange>, i: nat)
    requires i < |rs| && Canonical(rs) && !Covers(rs, ip)
    requires ip == Dec(rs[i].from)
    requires i > 0 ==> Apart(ip, rs[i - 1])
    ensures AddOutcome(ip, rs, rs[i := rs[i].(from := ip)])
  {
    var r := rs[i].(from := ip);
    assert !Has(rs[i], ip);
    if rs[i].from > 0 {
      assert rs[i := r] == rs[..i] + [r] + rs[i + 1..];
      assert rs[i..i + 1] == [rs[i]];
      SinglesCover(rs[i], rs[i]);
      SpliceAdds(ip, rs, i, i + 1, r);
    } else {
      assert rs[i := r][i] == r;
    }
  }

  lemma GrowUpExact(ip: Addr, rs: seq<IPRange>, i: nat)
    requires i < |rs| && Canonical(rs) && !Covers(rs, ip)
    requires ip == Inc(rs[i].to) && ip != Dec(rs[0].from)
    requires i + 1 < |rs| ==> ip != Dec(rs[i + 1].from)
    ensures AddOutcome(ip, rs, rs[i := rs[i].(to := ip)])
  {
    var r := rs[i].(to := ip);
    assert !Has(rs[i], ip);
    if rs[i].to < MAX_ADDR {
      assert rs[i := r] == rs[..i] + [r] + rs[i + 1..];
      assert rs[i..i + 1] == [rs[i]];
      SinglesCover(rs[i], rs[i]);
      SpliceAdds(ip, rs, i, i + 1, r);
    } else {
      assert rs[i := r][i] == r;
    }
  }

  lemma MergeExact(ip: Addr, rs: seq<IPRange>, i: nat)
    requires i + 1 < |rs| && Canonical(rs)
    requires ip == Inc(rs[i].to) == Dec(rs[i + 1].from)
    ensures AddsExactly(ip, rs, rs[..i] + [IPRange(rs[i].from, rs[i + 1].to)] + rs[i + 2..])
  {
    assert rs[i..i + 2] == [rs[i], rs[i + 1]];
    SinglesCover(rs[i], rs[i + 1]);
    SpliceAdds(ip, rs, i, i + 2, IPRange(rs[i].from, rs[i + 1].to));
  }

  lemma {:induction false} AddAtExact(ip: Addr, rs: seq<IPRange>, i: nat)
    requires i <= |rs| && Canonical(rs) && !Covers(rs, ip)
    requires forall j :: 0 <= j < i ==> Apart(ip, rs[j])
    ensures AddOutcome(ip, rs, AddAt(ip, rs, i))
    decreases |rs| - i
  {
    if i == |rs| {
      AppendAndSortAdds(ip, rs);
    } else {
      assert !Has(rs[i], ip);
      if ip == Dec(rs[i].from) {
        GrowDownExact(ip, rs, i);
      } else if ip == Inc(rs[i].to) {
        if i + 1 < |rs| && ip == Dec(rs[i + 1].from) {
          MergeExact(ip, rs, i);
        } else {
          assert ip != Dec(rs[0].from) by { assert i > 0 ==> Apart(ip, rs[0]); }
          GrowUpExact(ip, rs, i);
        }
      } else {
        AddAtExact(ip, rs, i + 1);
      }
    }
  }

  /** AddIPToRange adds exactly the given address and keeps the list canonical,
      if and only if the addition is safe from wrap-around. */
  lemma AddExact(ip: Addr, rs: seq<IPRange>)
    requires Canonical(rs)
    ensures AddsExactly(ip, rs, Add(ip, rs)) <==> AddSafe(ip, rs)
    ensures !AddSafe(ip, rs) ==> !Canonical(Add(ip, rs)) && !Covers(Add(ip, rs), ip)
  {
    if !Covers(rs, ip) {
      AddAtExact(ip, rs, 0);
    }
  }

  /** The wrap-around loses addresses: adding the last address to a list that
      starts at the first one turns the interval inside out. */
  lemma AddWrapExample()
    ensures var rs := [IPRange(0, 5)];
            && Canonical(rs) && Covers(rs, 3)
            && Add(MAX_ADDR, rs) == [IPRange(MAX_ADDR, 5)] && !Covers(Add(MAX_ADDR, rs), 3)
  {
    var rs := [IPRange(0, 5)];
    assert Has(rs[0], 3);
    assert !Covers(rs, MAX_ADDR);
    assert AddAt(MAX_ADDR, rs, 0) == [IPRange(MAX_ADDR, 5)];
  }

  // ----- RemoveIPFromRange -----

  function Pieces(ip: Addr, r: IPRange): seq<IPRange> {
    if r.from < ip < r.to then
      [IPRange(r.from, Dec(ip)), IPRange(Inc(ip), r.to)]
    else if r.from == ip < r.to then
      [IPRange(Inc(ip), r.to)]
    else if r.from < ip == r.to then
      [IPRange(r.from, Dec(ip))]
    else if r.from == ip == r.to then
      []
    else
      [r]
  }

  function Cut(ip: Addr, rs: seq<IPRange>): seq<IPRange> {
    if rs == [] then [] else Cut(ip, rs[..|rs| - 1]) + Pieces(ip, rs[|rs| - 1])
  }

  function Remove(ip: Addr, rs: seq<IPRange>): seq<IPRange> {
    if Covers(rs, ip) then SortByFrom(Cut(ip, rs)) else rs
  }

  lemma {:induction false} CutOutside(ip: Addr, rs: seq<IPRange>)
    requires WellFormed(rs) && !Covers(rs, ip)
    ensures Cut(ip, rs) == rs
  {
    if rs != [] {
      var n := |rs| - 1;
      assert rs == rs[..n] + [rs[n]];
      CoversSplit(rs[..n], [rs[n]], ip);
      SinglesCover(rs[n], rs[n]);
      CutOutside(ip, rs[..n]);
    }
  }

  lemma {:induction false} CutInside(ip: Addr, rs: seq<IPRange>, i: nat)
    requires i < |rs| && WellFormed(rs)
    requires forall j :: 0 <= j < |rs| && j != i ==> !Has(rs[j], ip)
    ensures Cut(ip, rs) == Spliced(rs, i, i + 1, Pieces(ip, rs[i]))
  {
    var n := |rs| - 1;
    if i == n {
      assert forall j :: 0 <= j < n ==> !Has(rs[..n][j], ip);
      CutOutside(ip, rs[..n]);
    } else {
      CutInside(ip, rs[..n], i);
      assert rs[..n][..i] == rs[..i];
      assert rs[i + 1..] == rs[..n][i + 1..] + [rs[n]];
    }
  }

  lemma PiecesExact(ip: Addr, r: IPRange)
    requires Has(r, ip)
    ensures Canonical(Pieces(ip, r))
    ensures forall b: Addr :: Covers(Pieces(ip, r), b) <==> Has(r, b) && b != ip
    ensures forall k :: 0 <= k < |Pieces(ip, r)| ==> r.from <= Pieces(ip, r)[k].from <= Pieces(ip, r)[k].to <= r.to
  {
    SinglesCover(IPRange(r.from, Dec(ip)), IPRange(Inc(ip), r.to));
    SinglesCover(IPRange(Inc(ip), r.to), r);
  }

  lemma SpliceRemoves(ip: Addr, rs: seq<IPRange>, i: nat)
    requires i < |rs| && Canonical(rs) && Has(rs[i], ip)
    ensures Canonical(Spliced(rs, i, i + 1, Pieces(ip, rs[i])))
    ensures CoverMinus(rs, ip, Spliced(rs, i, i + 1, Pieces(ip, rs[i])))
  {
    PiecesExact(ip, rs[i]);
    SplicedCanonical(rs, i, i + 1, Pieces(ip, rs[i]));
    assert !Covers(rs[..i], ip);
    assert !Covers(rs[i + 1..], ip);
    SpliceCoversMinus(ip, rs, i, Pieces(ip, rs[i]));
  }

  lemma SpliceCoversMinus(ip: Addr, rs: seq<IPRange>, i: nat, ps: seq<IPRange>)
    requires i < |rs|
    requires !Covers(rs[..i], ip) && !Covers(rs[i + 1..], ip)
    requires forall b: Addr :: Covers(ps, b) <==> Has(rs[i], b) && b != ip
    ensures CoverMinus(rs, ip, Spliced(rs, i, i + 1, ps))
  {
    assert rs == Spliced(rs, i, i + 1, [rs[i]]);
    SinglesCover(rs[i], rs[i]);
    forall b: Addr
      ensures Covers(Spliced(rs, i, i + 1, ps), b) <==> Covers(rs, b) && b != ip
    {
      SplicedCovers(rs, i, i + 1, ps, b);
      SplicedCovers(rs, i, i + 1, [rs[i]], b);
    }
  }

  /** RemoveIPFromRange removes exactly the given address and keeps the list canonical. */
  lemma RemoveExact(ip: Addr, rs: seq<IPRange>)
    requires Canonical(rs)
    ensures Canonical(Remove(ip, rs)) && CoverMinus(rs, ip, Remove(ip, rs))
  {
    if Covers(rs, ip) {
      var i :| 0 <= i < |rs| && Has(rs[i], ip);
      CutInside(ip, rs, i);
      SpliceRemoves(ip, rs, i);
      CanonicalIsSorted(Cut(ip, rs));
      SortOfSorted(Cut(ip, rs));
    }
  }

  // ----- round trips -----

  /** Removing an address that was just added restores the very list. */
  lemma RemoveUndoesAdd(a: Addr, rs: seq<IPRange>)
    requires Canonical(rs) && !Covers(rs, a)
    ensures Remove(a, Add(a, rs)) == rs <==> AddSafe(a, rs)
  {
    AddExact(a, rs);
    if AddSafe(a, rs) {
      RemoveExact(a, Add(a, rs));
      CanonicalUnique(Remove(a, Add(a, rs)), rs);
    }
  }

  /** Adding an address that was just removed restores the very list. */
  lemma AddUndoesRemove(a: Addr, rs: seq<IPRange>)
    requires Canonical(rs) && Covers(rs, a)
    ensures Add(a, Remove(a, rs)) == rs <==> AddSafe(a, Remove(a, rs))
  {
    RemoveExact(a, rs);
    AddExact(a, Remove(a, rs));
    if AddSafe(a, Remove(a, rs)) {
      CanonicalUnique(Add(a, Remove(a, rs)), rs);
    }
  }

  // ----- adding a whole collection -----

  function AddAll(addrs: seq<Addr>, rs: seq<IPRange>): seq<IPRange> {
    if addrs == [] then rs else Add(addrs[|addrs| - 1], AddAll(addrs[..|addrs| - 1], rs))
  }

  /** Every single addition is safe in the list it meets. */
  predicate AddAllSafe(addrs: seq<Addr>, rs: seq<IPRange>) {
    addrs == [] ||
    (AddAllSafe(addrs[..|addrs| - 1], rs) && AddSafe(addrs[|addrs| - 1], AddAll(addrs[..|addrs| - 1], rs)))
  }

  ghost predicate AddsAllExactly(addrs: seq<Addr>, rs: seq<IPRange>, r: seq<IPRange>) {
    Canonical(r) && forall b: Addr :: Covers(r, b) <==> Covers(rs, b) || b in addrs
  }

  lemma {:induction false} AddAllExact(addrs: seq<Addr>, rs: seq<IPRange>)
    requires Canonical(rs) && AddAllSafe(addrs, rs)
    ensures AddsAllExactly(addrs, rs, AddAll(addrs, rs))
  {
    if addrs != [] {
      var n := |addrs| - 1;
      AddAllExact(addrs[..n], rs);
      assert forall b: Addr :: b in addrs <==> b in addrs[..n] || b == addrs[n];
      AddExact(addrs[n], AddAll(addrs[..n], rs));
    }
  }

  predicate Distinct(xs: seq<Addr>) {
    forall i, j :: 0 <= i < j < |xs| ==> xs[i] != xs[j]
  }

  lemma DistinctSnoc(xs: seq<Addr>, x: Addr)
    ensures Distinct(xs + [x]) <==> Distinct(xs) && x !in xs
  {
    var ys := xs + [x];
    if Distinct(ys) {
      assert forall i :: 0 <= i < |xs| ==> xs[i] == ys[i];
      assert forall i :: 0 <= i < |xs| ==> ys[i] != ys[|xs|];
    }
  }

  // An addition lengthens the intervals by one address in all, unless it wraps: then one of
  // them turns inside out. Too few additions follow to turn it back.

  /** The lengths of the intervals, in all; an inverted one counts negative. */
  function Length(rs: seq<IPRange>): int {
    if rs == [] then 0 else Length(rs[..|rs| - 1]) + rs[|rs| - 1].to - rs[|rs| - 1].from + 1
  }

  lemma {:induction false} LengthConcat(x: seq<IPRange>, y: seq<IPRange>)
    ensures Length(x + y) == Length(x) + Length(y)
  {
    if y == [] {
      assert x + y == x;
    } else {
      var n := |y| - 1;
      assert (x + y)[..|x| + n] == x + y[..n];
      LengthConcat(x, y[..n]);
    }
  }

  lemma LengthSplice(rs: seq<IPRange>, lo: nat, hi: nat, ps: seq<IPRange>)
    requires lo <= hi <= |rs|
    ensures Length(Spliced(rs, lo, hi, ps)) == Length(rs) - Length(rs[lo..hi]) + Length(ps)
  {
    LengthConcat(rs[..lo] + ps, rs[hi..]);
    LengthConcat(rs[..lo], ps);
    LengthConcat(rs[..lo] + rs[lo..hi], rs[hi..]);
    LengthConcat(rs[..lo], rs[lo..hi]);
    assert rs == rs[..lo] + rs[lo..hi] + rs[hi..];
  }

  lemma SinglesLength(r: IPRange, t: IPRange)
    ensures Length([r]) == r.to - r.from + 1
    ensures Length([r, t]) == Length([r]) + Length([t])
  {
    assert [r][..0] == [] && [t][..0] == [] && [r, t][..1] == [r];
  }

  lemma {:induction false} LengthOfPlaced(rs: seq<IPRange>, x: IPRange)
    ensures Length(Place(rs, x)) == Length(rs + [x])
  {
    LengthConcat(rs, [x]);
    if rs == [] {
      assert rs + [x] == [x];
    } else if x.from < rs[0].from {
      LengthConcat([x], rs);
    } else {
      LengthOfPlaced(rs[1..], x);
      LengthConcat([rs[0]], Place(rs[1..], x));
      LengthConcat(rs[1..], [x]);
      LengthConcat([rs[0]], rs[1..]);
      assert rs == [rs[0]] + rs[1..];
    }
  }

  lemma {:induction false} LengthOfSorted(rs: seq<IPRange>)
    ensures Length(SortByFrom(rs)) == Length(rs)
  {
    if rs != [] {
      var n := |rs| - 1;
      LengthOfSorted(rs[..n]);
      LengthOfPlaced(SortByFrom(rs[..n]), rs[n]);
      LengthConcat(SortByFrom(rs[..n]), [rs[n]]);
      LengthConcat(rs[..n], [rs[n]]);
      assert rs == rs[..n] + [rs[n]];
    }
  }

  lemma {:induction false} WellFormedLength(rs: seq<IPRange>)
    requires WellFormed(rs)
    ensures Length(rs) >= 0
  {
    if rs != [] {
      WellFormedLength(rs[..|rs| - 1]);
    }
  }

  lemma LengthOfChanged(rs: seq<IPRange>, i: nat, r: IPRange)
    requires i < |rs|
    ensures Length(rs[i := r]) == Length(rs) - (rs[i].to - rs[i].from) + (r.to - r.from)
  {
    LengthSplice(rs, i, i + 1, [r]);
    assert Spliced(rs, i, i + 1, [r]) == rs[i := r];
    assert rs[i..i + 1] == [rs[i]];
    SinglesLength(rs[i], r);
    SinglesLength(r, r);
  }

  lemma LengthOfMerged(rs: seq<IPRange>, i: nat)
    requires i + 1 < |rs|
    ensures Length(rs[..i] + [IPRange(rs[i].from, rs[i + 1].to)] + rs[i + 2..]) == Length(rs) + rs[i + 1].from - rs[i].to - 1
  {
    var r := IPRange(rs[i].from, rs[i + 1].to);
    LengthSplice(rs, i, i + 2, [r]);
    assert rs[i..i + 2] == [rs[i], rs[i + 1]];
    SinglesLength(rs[i], rs[i + 1]);
    SinglesLength(rs[i + 1], r);
    SinglesLength(r, r);
  }

  lemma {:induction false} AddAtLength(ip: Addr, rs: seq<IPRange>, i: nat)
    requires i <= |rs|
    ensures Length(AddAt(ip, rs, i)) == Length(rs) + 1 || Length(AddAt(ip, rs, i)) == Length(rs) - MAX_ADDR
    decreases |rs| - i
  {
    if i == |rs| {
      LengthOfSorted(rs + [IPRange(ip, ip)]);
      LengthConcat(rs, [IPRange(ip, ip)]);
      SinglesLength(IPRange(ip, ip), IPRange(ip, ip));
    } else if ip == Dec(rs[i].from) {
      LengthOfChanged(rs, i, rs[i].(from := ip));
    } else if ip == Inc(rs[i].to) {
      if i + 1 < |rs| && ip == Dec(rs[i + 1].from) {
        LengthOfMerged(rs, i);
      } else {
        LengthOfChanged(rs, i, rs[i].(to := ip));
      }
    } else {
      AddAtLength(ip, rs, i + 1);
    }
  }

  lemma {:induction false} UnsafeAtLength(ip: Addr, rs: seq<IPRange>, i: nat)
    requires i < |rs| && Canonical(rs) && !AddSafe(ip, rs) && (ip == MAX_ADDR ==> i == 0)
    ensures Length(AddAt(ip, rs, i)) == Length(rs) - MAX_ADDR
    decreases |rs| - i
  {
    if ip == Dec(rs[i].from) {
      LengthOfChanged(rs, i, rs[i].(from := ip));
    } else if ip == Inc(rs[i].to) {
      LengthOfChanged(rs, i, rs[i].(to := ip));
    } else {
      UnsafeAtLength(ip, rs, i + 1);
    }
  }

  lemma {:induction false} AddAllLength(addrs: seq<Addr>, rs: seq<IPRange>)
    requires Canonical(rs)
    ensures Length(AddAll(addrs, rs)) <= Length(rs) + |addrs| - if AddAllSafe(addrs, rs) then 0 else MAX_ADDR + 1
  {
    if addrs != [] {
      var n := |addrs| - 1;
      var r := AddAll(addrs[..n], rs);
      AddAllLength(addrs[..n], rs);
      AddAtLength(addrs[n], r, 0);
      if AddAllSafe(addrs[..n], rs) && !AddSafe(addrs[n], r) {
        AddAllExact(addrs[..n], rs);
        UnsafeAtLength(addrs[n], r, 0);
      }
    }
  }

  /** Adding one by one is exact, and the result canonical, if and only if every single
      addition is safe: what wraps in between does not heal. */
  lemma AddAllExactIff(addrs: seq<Addr>)
    requires |addrs| <= MAX_ADDR
    ensures AddsAllExactly(addrs, [], AddAll(addrs, [])) <==> AddAllSafe(addrs, [])
    ensures WellFormed(AddAll(addrs, [])) <==> AddAllSafe(addrs, [])
  {
    if AddAllSafe(addrs, []) {
      AddAllExact(addrs, []);
    } else {
      AddAllLength(addrs, []);
      if WellFormed(AddAll(addrs, [])) {
        WellFormedLength(AddAll(addrs, []));
      }
    }
  }

  /** Without both ends of the address space nothing wraps. */
  lemma {:induction false} EndsApartAreSafe(addrs: seq<Addr>, rs: seq<IPRange>)
    requires Canonical(rs)
    requires !((Covers(rs, 0) || 0 in addrs) && (Covers(rs, MAX_ADDR) || MAX_ADDR in addrs))
    ensures AddAllSafe(addrs, rs)
  {
    if addrs != [] {
      var n := |addrs| - 1;
      EndsApartAreSafe(addrs[..n], rs);
      AddAllExact(addrs[..n], rs);
      EndApartIsSafe(addrs[n], AddAll(addrs[..n], rs));
    }
  }

  lemma EndApartIsSafe(ip: Addr, rs: seq<IPRange>)
    requires Canonical(rs) && !(ip == 0 && Covers(rs, MAX_ADDR)) && !(ip == MAX_ADDR && Covers(rs, 0))
    ensures AddSafe(ip, rs)
  {
    if rs != [] && ip == MAX_ADDR && rs[0].from == 0 {
      assert Has(rs[0], 0);
    }
    if rs != [] && ip == 0 && rs[|rs| - 1].to == MAX_ADDR {
      assert Has(rs[|rs| - 1], MAX_ADDR);
    }
  }

  /** Where every addition is safe, order and repeats of the added addresses do not matter. */
  lemma AddAllOrderIrrelevant(xs: seq<Addr>, ys: seq<Addr>, rs: seq<IPRange>)
    requires Canonical(rs) && AddAllSafe(xs, rs) && AddAllSafe(ys, rs)
    requires forall a: Addr :: a in xs <==> a in ys
    ensures AddAll(xs, rs) == AddAll(ys, rs)
  {
    AddAllExact(xs, rs);
    AddAllExact(ys, rs);
    CanonicalUnique(AddAll(xs, rs), AddAll(ys, rs));
  }

  /** At the ends of the address space the order decides: these three addresses can be
      added one way and not the other. */
  lemma OrderMattersAtTheEnds()
    ensures AddAllSafe([1, MAX_ADDR, 0], []) && !AddAllSafe([0, 1, MAX_ADDR], [])
  {
    var xs: seq<Addr>, ys: seq<Addr> := [1, MAX_ADDR, 0], [0, 1, MAX_ADDR];
    assert xs[..2] == [1, MAX_ADDR] && xs[..2][..1] == [1] && xs[..1] == [1];
    assert ys[..2] == [0, 1];
    EndsApartAreSafe(xs[..2], []);
    AddAllExact(xs[..2], []);
    var r := AddAll(xs[..2], []);
    LeastIsFirst(r, 1);
    EndsApartAreSafe(ys[..2], []);
    AddAllExact(ys[..2], []);
    var t := AddAll(ys[..2], []);
    LeastIsFirst(t, 0);
  }

  lemma LeastIsFirst(rs: seq<IPRange>, a: Addr)
    requires Canonical(rs) && Covers(rs, a) && forall b: Addr :: Covers(rs, b) ==> a <= b
    ensures rs != [] && rs[0].from == a
  {
    var i :| 0 <= i < |rs| && Has(rs[i], a);
    FirstIsCovered(rs);
    assert rs[0].from <= rs[i].from;
  }

  // ----- how many addresses a list covers -----

  ghost function Addrs(rs: seq<IPRange>): set<Addr> {
    set a: Addr | 0 <= a <= MAX_ADDR && Covers(rs, a)
  }

  lemma AddCounts(a: Addr, rs: seq<IPRange>)
    requires Canonical(rs) && AddSafe(a, rs)
    ensures Addrs(Add(a, rs)) == Addrs(rs) + {a}
    ensures |Addrs(Add(a, rs))| == |Addrs(rs)| + (if Covers(rs, a) then 0 else 1)
  {
    AddExact(a, rs);
    assert Addrs(Add(a, rs)) == Addrs(rs) + {a};
  }

  lemma RemoveCounts(a: Addr, rs: seq<IPRange>)
    requires Canonical(rs)
    ensures Addrs(Remove(a, rs)) == Addrs(rs) - {a}
    ensures |Addrs(Remove(a, rs))| == |Addrs(rs)| - (if Covers(rs, a) then 1 else 0)
  {
    RemoveExact(a, rs);
    assert Addrs(Remove(a, rs)) == Addrs(rs) - {a};
  }

  // ----- the loops of the source -----

  method IPInRanges(ip: Option<Addr>, ipRanges: seq<IPRange>) returns (found: bool)
    ensures found == (ip.Some? && Covers(ipRanges, ip.value))
  {
    if |ipRanges| == 0 || ip.None? {
      return false;
    }
    for i := 0 to |ipRanges|
      invariant forall j :: 0 <= j < i ==> !Has(ipRanges[j], ip.value)
    {
      if ip.value >= ipRanges[i].from && ip.value <= ipRanges[i].to {
        assert Has(ipRanges[i], ip.value);
        return true;
      }
    }
    return false;
  }

  method AddIPToRange(ip: Option<Addr>, ipRanges: seq<IPRange>) returns (r: seq<IPRange>)
    ensures r == AddNullable(ip, ipRanges)
  {
    r := ipRanges;
    if ip.None? {
      return;
    }
    var a := ip.value;
    var present := IPInRanges(ip, r);
    if present {
      return;
    }
    var deleteIndex := -1;
    var i := 0;
    while i < |r|
      invariant 0 <= i <= |r| && r == ipRanges && deleteIndex == -1
      invariant Add(a, ipRanges) == AddAt(a, ipRanges, i)
    {
      var s1 := Dec(r[i].from);
      var s2 := Inc(r[i].to);
      if a == s1 {
        r := r[i := r[i].(from := s1)];
        return;
      }
      if a == s2 {
        if i < |r| - 1 {
          var nextFrom := Dec(r[i + 1].from);
          if s2 == nextFrom {
            r := r[i + 1 := r[i + 1].(from := r[i].from)];
            deleteIndex := i;
            break;
          }
        }
        r := r[i := r[i].(to := s2)];
        return;
      }
      i := i + 1;
    }
    if deleteIndex >= 0 {
      r := r[..deleteIndex] + r[deleteIndex + 1..];
      assert r == ipRanges[..i] + [IPRange(ipRanges[i].from, ipRanges[i + 1].to)] + ipRanges[i + 2..];
      return;
    }
    r := SortByFrom(r + [IPRange(a, a)]);
  }

  method RemoveIPFromRange(ip: Option<Addr>, ipRanges: seq<IPRange>) returns (r: seq<IPRange>)
    ensures r == if ip.None? then ipRanges else Remove(ip.value, ipRanges)
  {
    var present := IPInRanges(ip, ipRanges);
    if !present {
      return ipRanges;
    }
    var a := ip.value;
    var newRanges: seq<IPRange> := [];
    for i := 0 to |ipRanges|
      invariant newRanges == Cut(a, ipRanges[..i])
    {
      var start, end := ipRanges[i].from, ipRanges[i].to;
      if start < a && end > a {
        newRanges := newRanges + [IPRange(start, Dec(a))];
        newRanges := newRanges + [IPRange(Inc(a), end)];
      } else if start == a && end > a {
        newRanges := newRanges + [IPRange(Inc(a), end)];
      } else if start < a && end == a {
        newRanges := newRanges + [IPRange(start, Dec(a))];
      } else if start == a && end == a {
      } else {
        newRanges := newRanges + [IPRange(start, end)];
      }
      assert ipRanges[..i + 1][..i] == ipRanges[..i];
    }
    assert ipRanges[..|ipRanges|] == ipRanges;
    r := SortByFrom(newRanges);
  }
}

/** The sorted list of user specified MAC addresses (pkg/controller/flatnetworkip/mac.go
and the UsedMAC updates of the controllers).

Only the order of MAC strings matters to the code, so a MAC is a number.
*/
module Macs {

  type MAC = int

  predicate Sorted(s: seq<MAC>) {
    forall i, j :: 0 <= i < j < |s| ==> s[i] <= s[j]
  }

  // ----- slices.Sort -----

  function Insert(s: seq<MAC>, m: MAC): seq<MAC> {
    if s == [] then [m] else if m < s[0] then [m] + s else [s[0]] + Insert(s[1..], m)
  }

  function Sort(s: seq<MAC>): seq<MAC> {
    if s == [] then [] else Insert(Sort(s[..|s| - 1]), s[|s| - 1])
  }

  lemma SortedCons(x: MAC, s: seq<MAC>)
    requires Sorted(s) && (s != [] ==> x <= s[0])
    ensures Sorted([x] + s)
  {
    forall i, j | 0 <= i < j < |[x] + s| ensures ([x] + s)[i] <= ([x] + s)[j] {
      assert s[0] <= s[j - 1];
      assert i > 0 ==> s[i - 1] <= s[j - 1];
    }
  }

  lemma SortedSnoc(s: seq<MAC>, x: MAC)
    requires Sorted(s) && (s != [] ==> s[|s| - 1] <= x)
    ensures Sorted(s + [x])
  {
    forall i, j | 0 <= i < j < |s + [x]| ensures (s + [x])[i] <= (s + [x])[j] {
      assert s[i] <= s[|s| - 1];
    }
  }

  lemma {:induction false} InsertSorts(s: seq<MAC>, m: MAC)
    requires Sorted(s)
    ensures Sorted(Insert(s, m)) && multiset(Insert(s, m)) == multiset(s) + multiset{m}
    ensures Insert(s, m)[0] == if s == [] || m < s[0] then m else s[0]
  {
    if s != [] && s[0] <= m {
      InsertSorts(s[1..], m);
      assert s == [s[0]] + s[1..];
      SortedCons(s[0], Insert(s[1..], m));
    } else {
      SortedCons(m, s);
      assert s == [] ==> [m] + s == [m];
    }
  }

  lemma {:induction false} SortSorts(s: seq<MAC>)
    ensures Sorted(Sort(s)) && multiset(Sort(s)) == multiset(s)
  {
    if s != [] {
      SortSorts(s[..|s| - 1]);
      InsertSorts(Sort(s[..|s| - 1]), s[|s| - 1]);
      assert s == s[..|s| - 1] + [s[|s| - 1]];
    }
  }

  predicate IsMin(x: MAC, s: seq<MAC>) { x in s && forall y :: y in s ==> x <= y }

  lemma HeadAndTail(s: seq<MAC>)
    requires Sorted(s) && s != []
    ensures multiset(s[1..]) == multiset(s) - multiset{s[0]}
    ensures IsMin(s[0], s) && Sorted(s[1..]) && [s[0]] + s[1..] == s
  {
    assert s == [s[0]] + s[1..];
  }

  lemma SameMin(s: seq<MAC>, t: seq<MAC>, x: MAC, y: MAC)
    requires multiset(s) == multiset(t) && IsMin(x, s) && IsMin(y, t)
    ensures x == y
  {
    assert x in multiset(s) && y in multiset(t);
    assert x in t && y in s;
  }

  /** Any sorting algorithm gives this result: a sorted list is determined by its elements. */
  lemma {:induction false} SortedUnique(s: seq<MAC>, t: seq<MAC>)
    requires Sorted(s) && Sorted(t) && multiset(s) == multiset(t)
    ensures s == t
    decreases |s|
  {
    assert |multiset(s)| == |s| && |multiset(t)| == |t|;
    if s != [] {
      HeadAndTail(s);
      HeadAndTail(t);
      SameMin(s, t, s[0], t[0]);
      SortedUnique(s[1..], t[1..]);
    }
  }

  // ----- slices.DeleteFunc(s, == m) -----

  function Delete(s: seq<MAC>, m: MAC): seq<MAC> {
    if s == [] then []
    else Delete(s[..|s| - 1], m) + if s[|s| - 1] == m then [] else [s[|s| - 1]]
  }

  lemma {:induction false} DeleteExact(s: seq<MAC>, m: MAC)
    ensures forall x :: x in Delete(s, m) <==> x in s && x != m
    ensures Sorted(s) ==> Sorted(Delete(s, m))
  {
    if s != [] {
      var init, last := s[..|s| - 1], s[|s| - 1];
      DeleteExact(init, m);
      assert forall x :: x in s <==> x in init || x == last;
      if Sorted(s) && last != m {
        var d := Delete(init, m);
        assert d != [] ==> d[|d| - 1] in init;
        SortedSnoc(d, last);
      }
    }
  }

  // ----- slices.BinarySearch -----

  /** The least index whose element is not below the target, and whether it is the target. */
  method BinarySearch(s: seq<MAC>, target: MAC) returns (index: nat, found: bool)
    requires Sorted(s)
    ensures index <= |s|
    ensures forall k :: 0 <= k < index ==> s[k] < target
    ensures forall k :: index <= k < |s| ==> target <= s[k]
    ensures found <==> target in s
    ensures found ==> index < |s| && s[index] == target
  {
    var i, j := 0, |s|;
    while i < j
      invariant 0 <= i <= j <= |s|
      invariant forall k :: 0 <= k < i ==> s[k] < target
      invariant forall k :: j <= k < |s| ==> target <= s[k]
    {
      var h := (i + j) / 2;
      if s[h] < target {
        i := h + 1;
      } else {
        j := h;
      }
    }
    return i, i < |s| && s[i] == target;
  }
}

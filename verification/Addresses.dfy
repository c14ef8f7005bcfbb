/** Addresses as the code has them: big-endian bytes, changed in place with carry
(pkg/ipcalc/ipcalc.go), and what net.IP does with four and sixteen of them. */
module Addresses {
  import opened Ranges
  import opened Blocks

  type Byte = b: int | 0 <= b < 256

  /** The number that bytes spell. */
  function Num(s: seq<Byte>): nat {
    if s == [] then 0 else Num(s[..|s| - 1]) * 256 + s[|s| - 1]
  }

  lemma Pow2Byte(n: nat)
    ensures Pow2(8 * n + 8) == 256 * Pow2(8 * n)
  {
    Pow2Of8();
    Pow2Add(8 * n, 8);
  }

  lemma NumSnoc(init: seq<Byte>, b: Byte)
    ensures Num(init + [b]) == Num(init) * 256 + b
  {
    assert (init + [b])[..|init|] == init;
  }

  lemma {:induction false} NumBound(s: seq<Byte>)
    ensures Num(s) < Pow2(8 * |s|)
  {
    if s != [] {
      NumBound(s[..|s| - 1]);
      Pow2Byte(|s| - 1);
    }
  }

  // ----- IPIncrease and IPDecrease -----

  function IncBytes(s: seq<Byte>): seq<Byte> {
    if s == [] then []
    else if s[|s| - 1] < 255 then s[..|s| - 1] + [s[|s| - 1] + 1]
    else IncBytes(s[..|s| - 1]) + [0]
  }

  function DecBytes(s: seq<Byte>): seq<Byte> {
    if s == [] then []
    else if s[|s| - 1] > 0 then s[..|s| - 1] + [s[|s| - 1] - 1]
    else DecBytes(s[..|s| - 1]) + [255]
  }

  /** Carrying adds one, and wraps after the largest number. */
  lemma {:induction false} IncBytesExact(s: seq<Byte>)
    ensures |IncBytes(s)| == |s|
    ensures Num(IncBytes(s)) == if Num(s) == Pow2(8 * |s|) - 1 then 0 else Num(s) + 1
  {
    if s != [] {
      var init := s[..|s| - 1];
      IncBytesExact(init);
      NumBound(init);
      Pow2Byte(|s| - 1);
      if s[|s| - 1] < 255 {
        NumSnoc(init, s[|s| - 1] + 1);
      } else {
        NumSnoc(IncBytes(init), 0);
      }
    }
  }

  /** Borrowing takes one off, and wraps before zero. */
  lemma {:induction false} DecBytesExact(s: seq<Byte>)
    ensures |DecBytes(s)| == |s|
    ensures Num(DecBytes(s)) == if Num(s) == 0 then Pow2(8 * |s|) - 1 else Num(s) - 1
  {
    if s != [] {
      var init := s[..|s| - 1];
      DecBytesExact(init);
      Pow2Byte(|s| - 1);
      if s[|s| - 1] > 0 {
        NumSnoc(init, s[|s| - 1] - 1);
      } else {
        NumSnoc(DecBytes(init), 255);
      }
    }
  }

  /** t is s with the carry stopped at position j, or lost in front when j is -1. */
  lemma {:induction false} IncBytesAt(s: seq<Byte>, t: seq<Byte>, j: int)
    requires |s| == |t| && -1 <= j < |s|
    requires forall k :: j < k < |s| ==> s[k] == 255 && t[k] == 0
    requires j >= 0 ==> s[j] < 255 && t[j] == s[j] + 1
    requires forall k :: 0 <= k < j ==> t[k] == s[k]
    ensures IncBytes(s) == t
  {
    if s != [] {
      var n := |s| - 1;
      assert t == t[..n] + [t[n]];
      if j == n {
        assert s[..n] == t[..n];
      } else {
        IncBytesAt(s[..n], t[..n], j);
      }
    }
  }

  lemma {:induction false} DecBytesAt(s: seq<Byte>, t: seq<Byte>, j: int)
    requires |s| == |t| && -1 <= j < |s|
    requires forall k :: j < k < |s| ==> s[k] == 0 && t[k] == 255
    requires j >= 0 ==> s[j] > 0 && t[j] == s[j] - 1
    requires forall k :: 0 <= k < j ==> t[k] == s[k]
    ensures DecBytes(s) == t
  {
    if s != [] {
      var n := |s| - 1;
      assert t == t[..n] + [t[n]];
      if j == n {
        assert s[..n] == t[..n];
      } else {
        DecBytesAt(s[..n], t[..n], j);
      }
    }
  }

  method IPIncrease(ip: array<Byte>)
    modifies ip
    ensures ip[..] == IncBytes(old(ip[..]))
  {
    var j := ip.Length - 1;
    while j >= 0
      invariant -1 <= j < ip.Length
      invariant forall k :: j < k < ip.Length ==> old(ip[k]) == 255 && ip[k] == 0
      invariant forall k :: 0 <= k <= j ==> ip[k] == old(ip[k])
    {
      ip[j] := if ip[j] == 255 then 0 else ip[j] + 1;
      if ip[j] > 0 {
        break;
      }
      j := j - 1;
    }
    IncBytesAt(old(ip[..]), ip[..], j);
  }

  method IPDecrease(ip: array<Byte>)
    modifies ip
    ensures ip[..] == DecBytes(old(ip[..]))
  {
    var j := ip.Length - 1;
    while j >= 0
      invariant -1 <= j < ip.Length
      invariant forall k :: j < k < ip.Length ==> old(ip[k]) == 0 && ip[k] == 255
      invariant forall k :: 0 <= k <= j ==> ip[k] == old(ip[k])
    {
      ip[j] := if ip[j] == 0 then 255 else ip[j] - 1;
      if ip[j] != 0xFF {
        break;
      }
      j := j - 1;
    }
    DecBytesAt(old(ip[..]), ip[..], j);
  }

  // ----- sixteen bytes are a number, and their order is its order -----

  function ToBytes(n: int, len: nat): seq<Byte>
    requires n >= 0
  {
    if len == 0 then [] else ToBytes(n / 256, len - 1) + [n % 256]
  }

  lemma LastDigit(q: int, b: Byte)
    ensures (q * 256 + b) / 256 == q && (q * 256 + b) % 256 == b
  {
  }

  lemma {:induction false} BytesOfNum(s: seq<Byte>)
    ensures ToBytes(Num(s), |s|) == s
  {
    if s != [] {
      var n := |s| - 1;
      BytesOfNum(s[..n]);
      LastDigit(Num(s[..n]), s[n]);
      assert s == s[..n] + [s[n]];
    }
  }

  lemma NumIsInjective(s: seq<Byte>, t: seq<Byte>)
    requires |s| == |t|
    ensures s == t <==> Num(s) == Num(t)
  {
    BytesOfNum(s);
    BytesOfNum(t);
  }

  lemma {:induction false} NumOfBytes(n: int, len: nat)
    requires 0 <= n < Pow2(8 * len)
    ensures |ToBytes(n, len)| == len && Num(ToBytes(n, len)) == n
  {
    if len > 0 {
      Pow2Byte(len - 1);
      NumOfBytes(n / 256, len - 1);
      assert ToBytes(n, len)[..len - 1] == ToBytes(n / 256, len - 1);
    }
  }

  /** bytes.Compare on slices of one length: the sign of the first difference. */
  function Compare(a: seq<Byte>, b: seq<Byte>): int
    requires |a| == |b|
  {
    if a == [] then 0
    else if a[0] < b[0] then -1
    else if a[0] > b[0] then 1
    else Compare(a[1..], b[1..])
  }

  lemma {:induction false} NumOfHead(s: seq<Byte>)
    requires s != []
    ensures Num(s) == s[0] * Pow2(8 * (|s| - 1)) + Num(s[1..])
  {
    if |s| == 1 {
      assert s[..0] == [] && s[1..] == [];
    } else {
      var n := |s| - 1;
      NumOfHead(s[..n]);
      Pow2Byte(n - 1);
      assert s[..n][1..] == s[1..][..n - 1];
      var p := Pow2(8 * (n - 1));
      assert (s[0] * p) * 256 == s[0] * (256 * p);
    }
  }

  lemma {:induction false} CompareIsNumeric(a: seq<Byte>, b: seq<Byte>)
    requires |a| == |b|
    ensures Compare(a, b) == if Num(a) < Num(b) then -1 else if Num(a) > Num(b) then 1 else 0
  {
    if a != [] {
      var p := Pow2(8 * (|a| - 1));
      NumOfHead(a);
      NumOfHead(b);
      NumBound(a[1..]);
      NumBound(b[1..]);
      CompareIsNumeric(a[1..], b[1..]);
      if a[0] < b[0] {
        MulMonotone(p, a[0] + 1, b[0]);
        Distribute(a[0], 1, p);
      } else if a[0] > b[0] {
        MulMonotone(p, b[0] + 1, a[0]);
        Distribute(b[0], 1, p);
      }
    }
  }

  /** The numbers below 2^128 stand for the sixteen-byte addresses: the code's
      comparison, increment and decrement are those of module Ranges. */
  lemma SixteenBytesAreNumbers(s: seq<Byte>, t: seq<Byte>)
    requires |s| == 16 && |t| == 16
    ensures 0 <= Num(s) <= MAX_ADDR && 0 <= Num(t) <= MAX_ADDR
    ensures s == t <==> Num(s) == Num(t)
    ensures Compare(s, t) <= 0 <==> Num(s) <= Num(t)
    ensures Num(IncBytes(s)) == Inc(Num(s)) && Num(DecBytes(s)) == Dec(Num(s))
  {
    Pow2Of128();
    NumBound(s);
    NumBound(t);
    NumIsInjective(s, t);
    CompareIsNumeric(s, t);
    IncBytesExact(s);
    DecBytesExact(s);
  }
}

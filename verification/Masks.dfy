/** Network masks byte by byte (pkg/ipcalc/ipcalc.go and the parts of net.IP and
net.IPNet it relies on), and the intervals they stand for. */
module Masks {
  import opened Blocks
  import opened Addresses

  // ----- bitwise operations on k-bit numbers -----

  function And(x: int, y: int, k: nat): int
    requires x >= 0 && y >= 0
  {
    if k == 0 then 0 else 2 * And(x / 2, y / 2, k - 1) + if x % 2 == 1 && y % 2 == 1 then 1 else 0
  }

  function Xor(x: int, y: int, k: nat): int
    requires x >= 0 && y >= 0
  {
    if k == 0 then 0 else 2 * Xor(x / 2, y / 2, k - 1) + if x % 2 != y % 2 then 1 else 0
  }

  lemma {:induction false} XorOnes(x: int, k: nat)
    requires 0 <= x < Pow2(k)
    ensures Xor(x, Pow2(k) - 1, k) == Pow2(k) - 1 - x
  {
    if k > 0 {
      XorOnes(x / 2, k - 1);
      var y := Pow2(k) - 1;
      assert y / 2 == Pow2(k - 1) - 1 && y % 2 == 1;
    }
  }

  lemma {:induction false} AndOnes(x: int, k: nat)
    requires 0 <= x < Pow2(k)
    ensures And(x, Pow2(k) - 1, k) == x
  {
    if k > 0 {
      AndOnes(x / 2, k - 1);
      assert (Pow2(k) - 1) / 2 == Pow2(k - 1) - 1;
    }
  }

  /** Masking with the ones above the j lowest bits gives the multiple of 2^j just below. */
  lemma {:induction false} AndMask(x: int, j: nat, k: nat) returns (q: int)
    requires 0 <= x < Pow2(k) && j <= k
    ensures Pow2(j) <= Pow2(k)
    ensures var m := And(x, Pow2(k) - Pow2(j), k); m == q * Pow2(j) && m <= x < m + Pow2(j)
  {
    if j == 0 {
      AndOnes(x, k);
      q := x;
    } else {
      q := AndMask(x / 2, j - 1, k - 1);
      var m := Pow2(k) - Pow2(j);
      assert m / 2 == Pow2(k - 1) - Pow2(j - 1) && m % 2 == 0;
      assert 2 * (q * Pow2(j - 1)) == q * (2 * Pow2(j - 1));
    }
  }

  // ----- masks -----

  /** The bits of a prefix that fall into one byte: none, some of the highest, or all. */
  function BitsIn(p: int): (k: nat)
    ensures k <= 8
  {
    if p <= 0 then 0 else if p >= 8 then 8 else p
  }

  lemma Pow2InByte(k: nat)
    requires k <= 8
    ensures 1 <= Pow2(k) <= 256
  {
    Pow2Of8();
    Pow2Add(k, 8 - k);
    MulMonotone(Pow2(k), 1, Pow2(8 - k));
  }

  function MaskByte(p: int): Byte {
    Pow2InByte(8 - BitsIn(p));
    256 - Pow2(8 - BitsIn(p))
  }

  /** net.CIDRMask(p, 8 * n). */
  function CIDRMask(p: nat, n: nat): (m: seq<Byte>) {
    seq(n, i => MaskByte(p - 8 * i))
  }

  lemma {:induction false} AndBound(x: int, y: int, k: nat)
    requires x >= 0 && y >= 0
    ensures 0 <= And(x, y, k) < Pow2(k)
  {
    if k > 0 {
      AndBound(x / 2, y / 2, k - 1);
    }
  }

  function AndByte(x: Byte, m: Byte): Byte {
    AndBound(x, m, 8);
    Pow2Of8();
    And(x, m, 8)
  }

  /** ip.Mask on slices of one length. */
  function MaskBytes(s: seq<Byte>, m: seq<Byte>): (r: seq<Byte>)
    requires |s| == |m|
  {
    seq(|s|, i requires 0 <= i < |s| => AndByte(s[i], m[i]))
  }

  function HostBits(p: nat, n: nat): nat { if p >= 8 * n then 0 else 8 * n - p }

  lemma AndPrefix(b: Byte, p: int) returns (q: int)
    ensures var d := Pow2(8 - BitsIn(p)); var m := AndByte(b, MaskByte(p)); m == q * d && m <= b < m + d
  {
    Pow2Of8();
    q := AndMask(b, 8 - BitsIn(p), 8);
  }

  /** The number that the first n bytes spell. */
  function Upto(s: seq<Byte>, n: nat): int
    requires n <= |s|
  {
    if n == 0 then 0 else Upto(s, n - 1) * 256 + s[n - 1]
  }

  lemma {:induction false} UptoIsNum(s: seq<Byte>, n: nat)
    requires n <= |s|
    ensures Upto(s, n) == Num(s[..n])
  {
    if n > 0 {
      UptoIsNum(s, n - 1);
      assert s[..n][..n - 1] == s[..n - 1];
    }
  }

  lemma WholeIsNum(s: seq<Byte>)
    ensures Upto(s, |s|) == Num(s)
  {
    UptoIsNum(s, |s|);
    assert s[..|s|] == s;
  }

  lemma MulAssoc(x: int, y: int, z: int)
    ensures (x * y) * z == x * (y * z)
  {
  }

  /** The numbers that differ in byte i only below a prefix of p bits. */
  function Room(p: int, i: nat): int { Pow2(8 - BitsIn(p - 8 * i)) }

  /** x rounded down to u, and b to w, make the bytes that follow each other rounded down. */
  lemma RoundStep(x: int, u: int, i: int, b: Byte, w: Byte, j: int, p: nat, n: nat) returns (q: int)
    requires var h := Pow2(HostBits(p, n)); u == i * h && u <= x < u + h
    requires w == j * Room(p, n) && w <= b < w + Room(p, n)
    ensures var h := Pow2(HostBits(p, n + 1)); u * 256 + w == q * h && u * 256 + w <= x * 256 + b < u * 256 + w + h
  {
    Pow2Of8();
    var h := HostBits(p, n);
    if p <= 8 * n {
      Pow2Add(h, 8);
      MulAssoc(i, Pow2(h), 256);
      assert j == 0;
      q := i;
    } else {
      var k := 8 - BitsIn(p - 8 * n);
      Pow2Add(8 - k, k);
      MulAssoc(u, Pow2(8 - k), Pow2(k));
      Distribute(u * Pow2(8 - k), j, Pow2(k));
      q := u * Pow2(8 - k) + j;
    }
  }

  lemma MaskQuotients(s: seq<Byte>, p: nat) returns (js: seq<int>)
    ensures var r := MaskBytes(s, CIDRMask(p, |s|));
            && |js| == |s|
            && forall i :: 0 <= i < |s| ==> r[i] == js[i] * Room(p, i) && r[i] <= s[i] < r[i] + Room(p, i)
  {
    js := [];
    for n := 0 to |s|
      invariant |js| == n
      invariant var r := MaskBytes(s, CIDRMask(p, |s|));
        forall i :: 0 <= i < n ==> r[i] == js[i] * Room(p, i) && r[i] <= s[i] < r[i] + Room(p, i)
    {
      var j := AndPrefix(s[n], p - 8 * n);
      js := js + [j];
    }
  }

  lemma {:induction false} RoundsDownUpto(s: seq<Byte>, r: seq<Byte>, js: seq<int>, p: nat, n: nat) returns (q: int)
    requires n <= |s| == |r| == |js|
    requires forall i :: 0 <= i < |s| ==> r[i] == js[i] * Room(p, i) && r[i] <= s[i] < r[i] + Room(p, i)
    ensures var h := Pow2(HostBits(p, n)); Upto(r, n) == q * h && Upto(r, n) <= Upto(s, n) < Upto(r, n) + h
  {
    if n == 0 {
      q := 0;
    } else {
      var i := RoundsDownUpto(s, r, js, p, n - 1);
      q := RoundStep(Upto(s, n - 1), Upto(r, n - 1), i, s[n - 1], r[n - 1], js[n - 1], p, n - 1);
    }
  }

  /** Masking with a prefix of p bits gives the multiple of the block size just below. */
  lemma MaskRoundsDown(s: seq<Byte>, p: nat) returns (q: int)
    ensures var h := Pow2(HostBits(p, |s|));
            var m := Num(MaskBytes(s, CIDRMask(p, |s|)));
            m == q * h && m <= Num(s) < m + h
  {
    var r := MaskBytes(s, CIDRMask(p, |s|));
    var js := MaskQuotients(s, p);
    q := RoundsDownUpto(s, r, js, p, |s|);
    WholeIsNum(s);
    WholeIsNum(r);
  }

  // ----- the inverted mask -----

  function XorByte(b: Byte): (r: Byte)
    ensures r == 255 - b
  {
    Pow2Of8();
    XorOnes(b, 8);
    Xor(b, 255, 8)
  }

  function Inverted(m: seq<Byte>): seq<Byte> {
    seq(|m|, i requires 0 <= i < |m| => 255 - m[i])
  }

  method MaskXOR(mask: seq<Byte>) returns (r: seq<Byte>)
    ensures r == Inverted(mask)
  {
    var a := new Byte[|mask|](i requires 0 <= i < |mask| => mask[i]);
    for i := 0 to a.Length
      invariant forall j :: 0 <= j < a.Length ==> a[j] == if j < i then 255 - mask[j] else mask[j]
    {
      a[i] := XorByte(a[i]);
    }
    r := a[..];
  }

  /** Bytewise addition, each byte on its own, over the length both have. */
  function AddBytes(s: seq<Byte>, m: seq<Byte>): seq<Byte> {
    seq(|s|, i requires 0 <= i < |s| => if i < |m| then (s[i] as int + m[i] as int) % 256 else s[i])
  }

  lemma MultipleBelow(q: int, c: int, d: int)
    requires d > 0 && q * d < c * d
    ensures q * d + d <= c * d
  {
    Distribute(q, 1, d);
    if q < c {
      MulMonotone(d, q + 1, c);
    } else {
      MulMonotone(d, c, q);
    }
  }

  lemma AddInverted(b: Byte, p: int)
    requires AndByte(b, MaskByte(p)) == b
    ensures b + Pow2(8 - BitsIn(p)) <= 256
    ensures (b as int + (255 - MaskByte(p))) % 256 == b + Pow2(8 - BitsIn(p)) - 1
  {
    var k := 8 - BitsIn(p);
    var q := AndPrefix(b, p);
    Pow2Of8();
    Pow2Add(8 - k, k);
    MultipleBelow(q, Pow2(8 - k), Pow2(k));
  }

  lemma LastStep(x: int, y: int, b: int, c: int, p: nat, n: nat)
    requires y == x + Pow2(HostBits(p, n)) - 1 && c == b + Pow2(8 - BitsIn(p - 8 * n)) - 1
    ensures y * 256 + c == (x * 256 + b) + Pow2(HostBits(p, n + 1)) - 1
  {
    if p <= 8 * n {
      Pow2Of8();
      Pow2Add(HostBits(p, n), 8);
    }
  }

  lemma {:induction false} BroadcastUpto(s: seq<Byte>, r: seq<Byte>, p: nat, n: nat)
    requires n <= |s| == |r| && forall i :: 0 <= i < |s| ==> r[i] == s[i] + Room(p, i) - 1
    ensures Upto(r, n) == Upto(s, n) + Pow2(HostBits(p, n)) - 1
  {
    if n > 0 {
      BroadcastUpto(s, r, p, n - 1);
      assert r[n - 1] == s[n - 1] + Room(p, n - 1) - 1;
      LastStep(Upto(s, n - 1), Upto(r, n - 1), s[n - 1], r[n - 1], p, n - 1);
    }
  }

  lemma AddInvertedAt(s: seq<Byte>, p: nat, i: nat)
    requires i < |s| && MaskBytes(s, CIDRMask(p, |s|)) == s
    ensures var inv := Inverted(CIDRMask(p, |s|));
            AddBytes(s, inv)[i] as int == s[i] + Room(p, i) - 1 == s[i] as int + inv[i] as int
  {
    assert s[i] == MaskBytes(s, CIDRMask(p, |s|))[i];
    AddInverted(s[i], p - 8 * i);
  }

  /** Adding the inverted mask to a network address never carries from byte to byte,
      and gives the last address of the block. */
  lemma BroadcastIsLast(s: seq<Byte>, p: nat)
    requires MaskBytes(s, CIDRMask(p, |s|)) == s
    ensures var r := AddBytes(s, Inverted(CIDRMask(p, |s|)));
            && (forall i :: 0 <= i < |s| ==> r[i] as int == s[i] as int + Inverted(CIDRMask(p, |s|))[i] as int)
            && Num(r) == Num(s) + Pow2(HostBits(p, |s|)) - 1
  {
    var m := CIDRMask(p, |s|);
    var r := AddBytes(s, Inverted(m));
    forall i | 0 <= i < |s|
      ensures r[i] as int == s[i] + Room(p, i) - 1 == s[i] as int + Inverted(m)[i] as int
    {
      AddInvertedAt(s, p, i);
    }
    BroadcastUpto(s, r, p, |s|);
    WholeIsNum(s);
    WholeIsNum(r);
  }
}

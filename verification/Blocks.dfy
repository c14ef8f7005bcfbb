/** CIDR blocks as aligned intervals of addresses (section 3.1 of RFC 4632).

An IPv4 block is the block of its IPv4-mapped addresses (section 2.5.5.2 of
RFC 4291); module Networks connects this view with the byte masks.
*/
module Blocks {
  import opened Ranges

  const MAPPED_FIRST: Addr := 0xFFFF_0000_0000
  const MAPPED_LAST: Addr := 0xFFFF_FFFF_FFFF

  function Pow2(n: nat): (p: int)
    ensures p >= 1
  {
    if n == 0 then 1 else 2 * Pow2(n - 1)
  }

  /** A block of 2^hostBits addresses that starts at first. */
  datatype Net = Net(first: Addr, hostBits: nat)

  function Last(n: Net): int { n.first + Pow2(n.hostBits) - 1 }

  /** What net.ParseCIDR yields, when an IPv6 block keeps clear of the mapped
      addresses and an IPv4 block consists of them. */
  predicate Valid(n: Net) {
    && n.hostBits <= 128
    && n.first % Pow2(n.hostBits) == 0
    && Last(n) <= MAX_ADDR
    && (|| Last(n) < MAPPED_FIRST
        || MAPPED_LAST < n.first
        || (MAPPED_FIRST <= n.first && Last(n) <= MAPPED_LAST))
  }

  /** network.Contains and IPInNetwork. */
  predicate Contains(n: Net, a: Addr) { n.first <= a <= Last(n) }

  /** IsAvailableIP: in the block, neither its network nor its broadcast address. */
  predicate Usable(n: Net, a: Addr) { n.first < a < Last(n) }

  lemma {:induction false} Pow2Add(m: nat, n: nat)
    ensures Pow2(m + n) == Pow2(m) * Pow2(n)
  {
    if n > 0 {
      Pow2Add(m, n - 1);
      assert m + n - 1 == m + (n - 1);
      assert 2 * (Pow2(m) * Pow2(n - 1)) == Pow2(m) * (2 * Pow2(n - 1));
    }
  }

  lemma Pow2Square(n: nat, m: nat, v: int, w: int)
    requires Pow2(n) == v && m == n + n && w == v * v
    ensures Pow2(m) == w
  {
    Pow2Add(n, n);
  }

  lemma Pow2Of8()
    ensures Pow2(8) == 256
  {
    var n: nat := 4;
    assert Pow2(n) == 16;
    Pow2Square(n, 8, 16, 256);
  }

  lemma Pow2Of32()
    ensures Pow2(32) == 0x1_0000_0000
  {
    Pow2Of8();
    Pow2Square(8, 16, 256, 0x1_0000);
    Pow2Square(16, 32, 0x1_0000, 0x1_0000_0000);
  }

  lemma Pow2Of128()
    ensures Pow2(128) == MAX_ADDR + 1
  {
    Pow2Of32();
    Pow2Square(32, 64, 0x1_0000_0000, 0x1_0000_0000_0000_0000);
    Pow2Square(64, 128, 0x1_0000_0000_0000_0000, MAX_ADDR + 1);
  }

  lemma Pow2Halves()
    ensures 2 * Pow2(127) == Pow2(128) == MAX_ADDR + 1
  {
    Pow2Of128();
    var n: nat := 127;
    assert Pow2(n + 1) == 2 * Pow2(n);
  }

  lemma TopBlockIsValid()
    ensures Valid(Net(MAX_ADDR - 255, 8)) && Last(Net(MAX_ADDR - 255, 8)) == MAX_ADDR
  {
    Pow2Of8();
    assert (MAX_ADDR - 255) % 256 == 0;
  }

  lemma MulMonotone(q: int, i: int, j: int)
    requires q > 0 && i <= j
    ensures i * q <= j * q
  {
    assert (j - i) * q >= 0;
  }

  lemma AlignedNest(q: int, k1: int, k2: int, r: int, a: int)
    requires q > 0
    requires k1 * q <= a < (k1 + 1) * q
    requires k2 * q <= a < (k2 + r) * q
    ensures k2 * q <= k1 * q && (k1 + 1) * q <= (k2 + r) * q
  {
    if k2 <= k1 {
      MulMonotone(q, k2, k1);
    } else {
      MulMonotone(q, k1 + 1, k2);
    }
    if k1 + 1 <= k2 + r {
      MulMonotone(q, k1 + 1, k2 + r);
    } else {
      MulMonotone(q, k2 + r, k1);
    }
  }

  /** The block of n in units of q, when q divides its size. */
  lemma InUnits(n: Net, q: int, r: int) returns (k: int)
    requires Valid(n) && q > 0 && Pow2(n.hostBits) == q * r
    ensures n.first == k * q && Last(n) + 1 == (k + r) * q
  {
    k := MultipleInUnits(n.first, Pow2(n.hostBits), q, r);
  }

  lemma MultipleInUnits(x: int, p: int, q: int, r: int) returns (k: int)
    requires p > 0 && q > 0 && p == q * r && x % p == 0
    ensures x == k * q && x + p == (k + r) * q
  {
    var m := x / p;
    assert x == m * p;
    k := m * r;
    calc {
      m * p;
      m * (q * r);
      { MulSwap(m, q, r); }
      k * q;
    }
    Distribute(k, r, q);
  }

  lemma MulSwap(x: int, y: int, z: int)
    ensures x * (y * z) == (x * z) * y
  {
  }

  lemma Distribute(x: int, y: int, z: int)
    ensures (x + y) * z == x * z + y * z
  {
  }

  /** Two blocks that share an address are nested: the smaller lies in the larger. */
  lemma BlocksNest(n1: Net, n2: Net, a: Addr)
    requires Valid(n1) && Valid(n2) && n1.hostBits <= n2.hostBits
    requires Contains(n1, a) && Contains(n2, a)
    ensures n2.first <= n1.first && Last(n1) <= Last(n2)
  {
    var q, r := Pow2(n1.hostBits), Pow2(n2.hostBits - n1.hostBits);
    Pow2Add(n1.hostBits, n2.hostBits - n1.hostBits);
    var k1 := InUnits(n1, q, 1);
    var k2 := InUnits(n2, q, r);
    AlignedNest(q, k1, k2, r, a);
  }
}

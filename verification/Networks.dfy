/** The network tests of pkg/ipcalc/ipcalc.go on the bytes that net.ParseCIDR yields,
and the intervals of addresses they accept. */
module Networks {
  import opened Ranges
  import opened Blocks
  import opened Addresses
  import opened Masks

  // ----- net.IP: four or sixteen bytes, and nil as no byte -----

  const MAPPED_PREFIX: seq<Byte> := [0, 0, 0, 0, 0, 0, 0, 0, 0, 0, 255, 255]

  predicate Mapped(ip: seq<Byte>) { |ip| == 16 && ip[..12] == MAPPED_PREFIX }

  function To4(ip: seq<Byte>): seq<Byte> {
    if |ip| == 4 then ip else if Mapped(ip) then ip[12..] else []
  }

  function To16(ip: seq<Byte>): seq<Byte> {
    if |ip| == 4 then MAPPED_PREFIX + ip else if |ip| == 16 then ip else []
  }

  predicate Equal(ip: seq<Byte>, x: seq<Byte>) {
    if |ip| == |x| then ip == x
    else if |ip| == 4 && |x| == 16 then Mapped(x) && ip == x[12..]
    else if |ip| == 16 && |x| == 4 then Mapped(ip) && ip[12..] == x
    else false
  }

  function MaskIP(ip: seq<Byte>, mask: seq<Byte>): seq<Byte> {
    var m := if |mask| == 16 && |ip| == 4 && (forall i :: 0 <= i < 12 ==> mask[i] == 255) then mask[12..] else mask;
    var a := if |m| == 4 && Mapped(ip) then ip[12..] else ip;
    if |a| == |m| then MaskBytes(a, m) else []
  }

  datatype IPNet = IPNet(ip: seq<Byte>, mask: seq<Byte>)

  /** The network that net.ParseCIDR makes of an address of one family and a prefix length. */
  function Parse(ip: seq<Byte>, p: nat): IPNet {
    IPNet(MaskBytes(ip, CIDRMask(p, |ip|)), CIDRMask(p, |ip|))
  }

  /** network.Contains: an IPv4-mapped address is an IPv4 address here. */
  predicate NetContains(net: IPNet, ip: seq<Byte>) {
    var nn := if |To4(net.ip)| == 4 then To4(net.ip) else net.ip;
    var m := if |nn| == 4 && |net.mask| == 16 then net.mask[12..] else net.mask;
    var x := if |To4(ip)| == 4 then To4(ip) else ip;
    |x| == |nn| == |m| && MaskBytes(nn, m) == MaskBytes(x, m)
  }

  // ----- pkg/ipcalc -----

  predicate Given(ip: seq<Byte>, net: IPNet) { |ip| != 0 && |net.ip| != 0 && |net.mask| != 0 }

  predicate IsNetwork(ip: seq<Byte>, net: IPNet) { Given(ip, net) && Equal(ip, net.ip) }

  predicate IPInNetwork(ip: seq<Byte>, net: IPNet) { Given(ip, net) && Equal(MaskIP(ip, net.mask), net.ip) }

  function BroadcastBytes(net: IPNet): seq<Byte> {
    AddBytes(if |To4(net.ip)| == 4 then To4(net.ip) else To16(net.ip), Inverted(net.mask))
  }

  predicate BroadCast(ip: seq<Byte>, net: IPNet) {
    Given(ip, net) && (|net.ip| == 4 || |net.ip| == 16) && Equal(ip, BroadcastBytes(net))
  }

  method IsBroadCast(ip: seq<Byte>, net: IPNet) returns (r: bool)
    ensures r <==> BroadCast(ip, net)
  {
    if !Given(ip, net) {
      return false;
    }
    var mask := MaskXOR(net.mask);
    var base := if |To4(net.ip)| == 4 then To4(net.ip) else To16(net.ip);
    if |base| == 0 {
      return false;
    }
    var a := new Byte[|base|](i requires 0 <= i < |base| => base[i]);
    var i := 0;
    while i < a.Length && i < |mask|
      invariant 0 <= i <= a.Length && i <= |mask|
      invariant forall j :: 0 <= j < a.Length ==> a[j] == if j < i then AddBytes(base, mask)[j] else base[j]
    {
      a[i] := (a[i] as int + mask[i] as int) % 256;
      i := i + 1;
    }
    assert a[..] == AddBytes(base, mask);
    return Equal(ip, a[..]);
  }

  predicate IsAvailableIP(ip: seq<Byte>, net: IPNet) {
    IPInNetwork(ip, net) && !(BroadCast(ip, net) || IsNetwork(ip, net))
  }

  // ----- the numbers behind the bytes -----

  function Num16(ip: seq<Byte>): nat {
    if |ip| == 4 then MAPPED_FIRST + Num(ip) else Num(ip)
  }

  predicate IsIP(ip: seq<Byte>) { |ip| == 4 || |ip| == 16 }

  lemma {:induction false} NumConcat(x: seq<Byte>, y: seq<Byte>)
    ensures Num(x + y) == Num(x) * Pow2(8 * |y|) + Num(y)
  {
    if y == [] {
      assert x + y == x;
    } else {
      var n := |y| - 1;
      NumConcat(x, y[..n]);
      assert (x + y)[..|x| + n] == x + y[..n];
      Pow2Byte(n);
      MulAssoc(Num(x), Pow2(8 * n), 256);
    }
  }

  lemma PrefixNum()
    ensures |MAPPED_PREFIX| == 12 && Num(MAPPED_PREFIX) == 0xFFFF
  {
    Pow2Of8();
    Pow2Square(8, 16, 256, 0x1_0000);
    Pow2Add(16, 80);
    MulMonotone(0x1_0000, 1, Pow2(80));
    NumOfBytes(0xFFFF, 12);
    assert ToBytes(0xFFFF, 12) == MAPPED_PREFIX;
  }

  lemma SplitNum(ip: seq<Byte>)
    requires |ip| == 16
    ensures Num(ip) == Num(ip[..12]) * 0x1_0000_0000 + Num(ip[12..]) && Num(ip[12..]) < 0x1_0000_0000
  {
    assert ip == ip[..12] + ip[12..];
    NumConcat(ip[..12], ip[12..]);
    Pow2Of32();
    NumBound(ip[12..]);
  }

  /** The mapped addresses are the numbers from MAPPED_FIRST to MAPPED_LAST. */
  lemma MappedExact(ip: seq<Byte>)
    requires |ip| == 16
    ensures Mapped(ip) <==> MAPPED_FIRST <= Num(ip) <= MAPPED_LAST
    ensures Mapped(ip) ==> Num(ip) == MAPPED_FIRST + Num(ip[12..])
  {
    SplitNum(ip);
    PrefixNum();
    NumIsInjective(ip[..12], MAPPED_PREFIX);
  }

  lemma NumBelow32(ip: seq<Byte>)
    requires |ip| == 4
    ensures Num(ip) < 0x1_0000_0000
  {
    Pow2Of32();
    NumBound(ip);
  }

  lemma EqualExact(ip: seq<Byte>, x: seq<Byte>)
    requires |ip| == 16 && IsIP(x)
    ensures Equal(ip, x) <==> Num(ip) == Num16(x)
  {
    MappedExact(ip);
    if |x| == 4 {
      NumBelow32(x);
      NumIsInjective(ip[12..], x);
    } else {
      NumIsInjective(ip, x);
    }
  }

  lemma MultipleModZero(q: int, d: int)
    requires d > 0
    ensures (q * d) % d == 0
  {
    var k, r := (q * d) / d, (q * d) % d;
    assert q * d == k * d + r;
    Distribute(q - k, k, d);
    if q - k >= 1 {
      MulMonotone(d, 1, q - k);
    } else if q - k <= -1 {
      MulMonotone(d, q - k, -1);
    }
  }

  /** The block of a network. */
  function BlockOf(ip: seq<Byte>, p: nat): Net
    requires IsIP(ip) && p <= 8 * |ip|
  {
    BlockInRange(ip, p);
    Net(Num16(Parse(ip, p).ip), 8 * |ip| - p)
  }

  lemma BlockInRange(ip: seq<Byte>, p: nat)
    requires IsIP(ip) && p <= 8 * |ip|
    ensures 0 <= Num16(Parse(ip, p).ip) <= MAX_ADDR
  {
    var m := Parse(ip, p).ip;
    if |m| == 4 {
      NumBelow32(m);
    } else {
      Pow2Of128();
      NumBound(m);
    }
  }

  /** m is the multiple of d just below x. */
  lemma FloorIsBlock(x: int, m: int, q: int, f: int, k: int, d: int)
    requires d > 0 && m == q * d && m <= x < m + d && f == k * d
    ensures m == f <==> f <= x < f + d
  {
    if f <= x < f + d {
      Distribute(q, 1, d);
      Distribute(k, 1, d);
      if q < k { MulMonotone(d, q + 1, k); }
      if k < q { MulMonotone(d, k + 1, q); }
    }
  }

  /** Masking an address gives the network address exactly when it lies in the block. */
  lemma MaskedIntoBlock(ip: seq<Byte>, x: seq<Byte>, p: nat)
    requires |ip| == |x| && p <= 8 * |ip|
    ensures var net := Parse(ip, p);
            MaskBytes(x, net.mask) == net.ip <==> Num(net.ip) <= Num(x) < Num(net.ip) + Pow2(8 * |ip| - p)
  {
    var net := Parse(ip, p);
    var k := MaskRoundsDown(ip, p);
    var q := MaskRoundsDown(x, p);
    NumIsInjective(MaskBytes(x, net.mask), net.ip);
    FloorIsBlock(Num(x), Num(MaskBytes(x, net.mask)), q, Num(net.ip), k, Pow2(8 * |ip| - p));
  }

  /** An IPv4 block lies in the mapped addresses. */
  lemma V4BlockIsMapped(ip: seq<Byte>, p: nat)
    requires |ip| == 4 && p <= 32
    ensures Num(Parse(ip, p).ip) + Pow2(32 - p) <= 0x1_0000_0000
  {
    var k := MaskRoundsDown(ip, p);
    NumBelow32(Parse(ip, p).ip);
    Pow2Of32();
    Pow2Add(p, 32 - p);
    MultipleBelow(k, Pow2(p), Pow2(32 - p));
  }

  lemma InV4NetworkExact(ip: seq<Byte>, p: nat, a: seq<Byte>)
    requires |ip| == 4 && p <= 32 && |a| == 16
    ensures Mapped(a) && MaskBytes(a[12..], Parse(ip, p).mask) == Parse(ip, p).ip <==>
            BlockOf(ip, p).first <= Num(a) <= Last(BlockOf(ip, p))
  {
    MappedExact(a);
    V4BlockIsMapped(ip, p);
    if Mapped(a) {
      MaskedIntoBlock(ip, a[12..], p);
    }
  }

  /** IPInNetwork holds exactly on the block. */
  lemma InNetworkExact(ip: seq<Byte>, p: nat, a: seq<Byte>)
    requires IsIP(ip) && p <= 8 * |ip| && |a| == 16
    ensures IPInNetwork(a, Parse(ip, p)) <==> BlockOf(ip, p).first <= Num(a) <= Last(BlockOf(ip, p))
  {
    if |ip| == 16 {
      MaskedIntoBlock(ip, a, p);
    } else {
      InV4NetworkExact(ip, p, a);
    }
  }

  lemma ParsedIsMasked(ip: seq<Byte>, p: nat)
    requires IsIP(ip) && p <= 8 * |ip|
    ensures MaskBytes(Parse(ip, p).ip, CIDRMask(p, |ip|)) == Parse(ip, p).ip
  {
    MaskedIntoBlock(ip, Parse(ip, p).ip, p);
  }

  /** An IPv6 prefix written in the IPv4-mapped form. */
  predicate MappedCIDR(ip: seq<Byte>, p: nat) { |ip| == 16 && Mapped(Parse(ip, p).ip) }

  /** IsBroadCast holds exactly for the last address of the block. */
  lemma BroadCastExact(ip: seq<Byte>, p: nat, a: seq<Byte>)
    requires IsIP(ip) && p <= 8 * |ip| && |a| == 16 && !MappedCIDR(ip, p)
    ensures BroadCast(a, Parse(ip, p)) <==> Num(a) == Last(BlockOf(ip, p))
  {
    var net := Parse(ip, p);
    ParsedIsMasked(ip, p);
    assert |ip| == 16 ==> BroadcastBytes(net) == AddBytes(net.ip, Inverted(net.mask));
    BroadcastIsLast(net.ip, p);
    EqualExact(a, BroadcastBytes(net));
  }

  lemma MaskFull(ip: seq<Byte>, p: nat)
    requires MappedCIDR(ip, p)
    ensures p >= 96
  {
    var net := Parse(ip, p);
    PrefixNum();
    assert net.ip[11] == net.ip[..12][11] == 255;
    var j := AndPrefix(ip[11], p - 88);
    assert net.ip[11] == AndByte(ip[11], MaskByte(p - 88));
    if p < 96 {
      EvenBelow(j, 8 - BitsIn(p - 88));
    }
  }

  lemma EvenBelow(j: int, k: nat)
    requires k > 0
    ensures j * Pow2(k) != 255
  {
    assert j * (2 * Pow2(k - 1)) == 2 * (j * Pow2(k - 1));
  }

  lemma FullMaskByte(p: int)
    requires p >= 8
    ensures MaskByte(p) == 255
  {
    assert Pow2(0) == 1;
  }

  lemma MappedBroadcastBytes(ip: seq<Byte>, p: nat)
    requires p <= 128 && MappedCIDR(ip, p)
    ensures BroadcastBytes(Parse(ip, p)) == To4(Parse(ip, p).ip)
  {
    MaskFull(ip, p);
    var inv := Inverted(CIDRMask(p, 16));
    forall i | 0 <= i < 4 ensures inv[i] == 0 {
      FullMaskByte(p - 8 * i);
    }
    AddZeros(To4(Parse(ip, p).ip), inv);
  }

  lemma AddZeros(s: seq<Byte>, m: seq<Byte>)
    requires |s| <= |m| && forall i :: 0 <= i < |s| ==> m[i] == 0
    ensures AddBytes(s, m) == s
  {
  }

  /** In the mapped form the first address is taken for the last. */
  lemma BroadCastOfMapped(ip: seq<Byte>, p: nat, a: seq<Byte>)
    requires p <= 128 && |a| == 16 && MappedCIDR(ip, p)
    ensures BroadCast(a, Parse(ip, p)) <==> Num(a) == BlockOf(ip, p).first
  {
    MappedBroadcastBytes(ip, p);
    MappedExact(Parse(ip, p).ip);
    EqualExact(a, To4(Parse(ip, p).ip));
  }

  /** IsAvailableIP holds exactly strictly between the first and the last address,
      for every address, if and only if the prefix is not a shorter one in mapped form. */
  lemma AvailableExactIff(ip: seq<Byte>, p: nat)
    requires IsIP(ip) && p <= 8 * |ip|
    ensures (forall a: seq<Byte> :: |a| == 16 ==>
               (IsAvailableIP(a, Parse(ip, p)) <==> BlockOf(ip, p).first < Num(a) < Last(BlockOf(ip, p)))) <==>
            !(MappedCIDR(ip, p) && p < 128)
  {
    if MappedCIDR(ip, p) && p < 128 {
      var a := MappedLastIsAvailable(ip, p);
    } else {
      forall a: seq<Byte> | |a| == 16
        ensures IsAvailableIP(a, Parse(ip, p)) <==> BlockOf(ip, p).first < Num(a) < Last(BlockOf(ip, p))
      {
        AvailableExact(ip, p, a);
      }
    }
  }

  lemma AvailableExact(ip: seq<Byte>, p: nat, a: seq<Byte>)
    requires IsIP(ip) && p <= 8 * |ip| && |a| == 16 && !(MappedCIDR(ip, p) && p < 128)
    ensures IsAvailableIP(a, Parse(ip, p)) <==> BlockOf(ip, p).first < Num(a) < Last(BlockOf(ip, p))
  {
    InNetworkExact(ip, p, a);
    EqualExact(a, Parse(ip, p).ip);
    if MappedCIDR(ip, p) {
      BroadCastOfMapped(ip, p, a);
      assert Pow2(0) == 1;
    } else {
      BroadCastExact(ip, p, a);
    }
  }

  lemma MappedLastIsAvailable(ip: seq<Byte>, p: nat) returns (a: seq<Byte>)
    requires MappedCIDR(ip, p) && p < 128
    ensures |a| == 16 && Num(a) == Last(BlockOf(ip, p)) && IsAvailableIP(a, Parse(ip, p))
  {
    var net := Parse(ip, p);
    ParsedIsMasked(ip, p);
    BroadcastIsLast(net.ip, p);
    a := AddBytes(net.ip, Inverted(net.mask));
    InNetworkExact(ip, p, a);
    EqualExact(a, net.ip);
    BroadCastOfMapped(ip, p, a);
  }

  /** The mapped form names the block of the IPv4 prefix in it. */
  lemma MappedParse(ip: seq<Byte>, p: nat)
    requires MappedCIDR(ip, p) && p <= 128
    ensures p >= 96
    ensures Parse(ip, p).mask[12..] == Parse(ip[12..], p - 96).mask && Parse(ip, p).ip[12..] == Parse(ip[12..], p - 96).ip
    ensures BlockOf(ip, p) == BlockOf(ip[12..], p - 96)
  {
    MaskFull(ip, p);
    var net, v4 := Parse(ip, p), Parse(ip[12..], p - 96);
    forall i | 0 <= i < 4 ensures net.mask[12..][i] == v4.mask[i] && net.ip[12..][i] == v4.ip[i] {
      assert p - 8 * (12 + i) == (p - 96) - 8 * i;
    }
    MappedExact(net.ip);
  }

  /** network.Contains holds exactly on the block, without the mapped addresses unless
      the block consists of them. */
  lemma NetContainsExact(ip: seq<Byte>, p: nat, a: seq<Byte>)
    requires IsIP(ip) && p <= 8 * |ip| && |a| == 16
    ensures NetContains(Parse(ip, p), a) <==>
            && BlockOf(ip, p).first <= Num(a) <= Last(BlockOf(ip, p))
            && (Mapped(a) ==> |ip| == 4 || MappedCIDR(ip, p))
  {
    if MappedCIDR(ip, p) {
      MappedParse(ip, p);
      ParsedIsMasked(ip[12..], p - 96);
      InV4NetworkExact(ip[12..], p - 96, a);
    } else if |ip| == 16 {
      ParsedIsMasked(ip, p);
      MaskedIntoBlock(ip, a, p);
    } else {
      ParsedIsMasked(ip, p);
      InV4NetworkExact(ip, p, a);
    }
  }

  /** For a network without mapped addresses, or of nothing else, the tests on bytes are those
      of module Blocks on numbers. */
  lemma TestsAreNumeric(ip: seq<Byte>, p: nat, a: seq<Byte>, x: Addr)
    requires IsIP(ip) && p <= 8 * |ip| && |a| == 16 && x == Num(a)
    requires |ip| == 16 ==> Last(BlockOf(ip, p)) < MAPPED_FIRST || MAPPED_LAST < BlockOf(ip, p).first
    ensures IPInNetwork(a, Parse(ip, p)) <==> Contains(BlockOf(ip, p), x)
    ensures NetContains(Parse(ip, p), a) <==> Contains(BlockOf(ip, p), x)
    ensures IsAvailableIP(a, Parse(ip, p)) <==> Usable(BlockOf(ip, p), x)
  {
    InNetworkExact(ip, p, a);
    NetContainsExact(ip, p, a);
    MappedExact(a);
    if |ip| == 16 {
      MappedExact(Parse(ip, p).ip);
    }
    AvailableExact(ip, p, a);
  }

  /** No address, or no network: every test fails. */
  lemma NothingIsNowhere(ip: seq<Byte>, net: IPNet)
    requires |ip| == 0 || |net.ip| == 0 || |net.mask| == 0
    ensures !IPInNetwork(ip, net) && !BroadCast(ip, net) && !IsNetwork(ip, net) && !IsAvailableIP(ip, net)
  {
  }

  lemma V6Aligned(ip: seq<Byte>, p: nat)
    requires |ip| == 16 && p <= 128
    ensures var n := BlockOf(ip, p); n.first % Pow2(n.hostBits) == 0 && Last(n) <= MAX_ADDR
  {
    var d := Pow2(128 - p);
    var k := MaskRoundsDown(ip, p);
    MultipleModZero(k, d);
    Pow2Of128();
    NumBound(Parse(ip, p).ip);
    Pow2Add(p, 128 - p);
    MultipleBelow(k, Pow2(p), d);
  }

  lemma V4Aligned(ip: seq<Byte>, p: nat)
    requires |ip| == 4 && p <= 32
    ensures var n := BlockOf(ip, p); n.first % Pow2(n.hostBits) == 0 && MAPPED_FIRST <= n.first && Last(n) <= MAPPED_LAST
  {
    var d := Pow2(32 - p);
    var k := MaskRoundsDown(ip, p);
    V4BlockIsMapped(ip, p);
    assert Pow2(p) * d == 0x1_0000_0000 by {
      Pow2Of32();
      Pow2Add(p, 32 - p);
    }
    ShiftedMultiple(Pow2(p), d, k);
  }

  lemma ShiftedMultiple(q: int, d: int, k: int)
    requires d > 0 && q * d == 0x1_0000_0000
    ensures (MAPPED_FIRST + k * d) % d == 0
  {
    MulAssoc(0xFFFF, q, d);
    Distribute(0xFFFF * q, k, d);
    MultipleModZero(0xFFFF * q + k, d);
  }

  /** The networks of module Blocks: every IPv4 prefix, and every IPv6 prefix
      whose block contains no mapped address. */
  lemma ParsedIsValid(ip: seq<Byte>, p: nat)
    requires IsIP(ip) && p <= 8 * |ip|
    requires |ip| == 16 ==> Last(BlockOf(ip, p)) < MAPPED_FIRST || MAPPED_LAST < BlockOf(ip, p).first
    ensures Valid(BlockOf(ip, p))
  {
    if |ip| == 16 {
      V6Aligned(ip, p);
    } else {
      V4Aligned(ip, p);
    }
  }
}

/** The 6to4 address of an IPv4 address (get6to4CIDR in pkg/cni/commands/common.go;
section 2 of RFC 3056). */
module SixToFour {
  import opened Addresses
  import opened Masks
  import opened Networks

  const DIGITS: string := "0123456789abcdef"

  /** fmt's %02x on a byte. */
  function Hex(b: Byte): string { [DIGITS[b / 16], DIGITS[b % 16]] }

  /** fmt's %d on a number that is not negative. */
  function Decimal(n: nat): string {
    if n < 10 then [DIGITS[n]] else Decimal(n / 10) + [DIGITS[n % 10]]
  }

  function Text(ip: seq<Byte>, size: nat): string
    requires |ip| == 4
  {
    Assemble(Hex(ip[0]), Hex(ip[1]), Hex(ip[2]), Hex(ip[3]), Decimal(16 + size))
  }

  function Assemble(h0: string, h1: string, h2: string, h3: string, size: string): string {
    "2002:" + (h0 + h1) + ":" + (h2 + h3) + ":0:0:0:0:0/" + size
  }

  method Get6to4CIDR(ip: seq<Byte>, size: int) returns (text: string)
    ensures text == if |To4(ip)| == 4 && 0 < size <= 32 then Text(To4(ip), size) else ""
  {
    var v4 := To4(ip);
    if |v4| == 0 {
      return "";
    }
    if size <= 0 || size > 32 {
      return "";
    }
    var sixtofourSize := 48 - (32 - size);
    var tmp: seq<string> := [];
    for i := 0 to |v4|
      invariant |tmp| == i && forall j :: 0 <= j < i ==> tmp[j] == Hex(v4[j])
    {
      tmp := tmp + [Hex(v4[i])];
    }
    if |tmp| != 4 {
      return "";
    }
    text := Assemble(tmp[0], tmp[1], tmp[2], tmp[3], Decimal(sixtofourSize));
  }

  // ----- reading the text back -----

  function Digit(c: char): int {
    if '0' <= c <= '9' then c as int - '0' as int else c as int - 'a' as int + 10
  }

  lemma DigitOfDigits(k: int)
    requires 0 <= k < 16
    ensures Digit(DIGITS[k]) == k
  {
  }

  /** The four bytes and the prefix length at their places in the text. */
  function Decode(text: string): (seq<int>, int)
    requires |text| == 27
  {
    ([ByteAt(text, 5), ByteAt(text, 7), ByteAt(text, 10), ByteAt(text, 12)],
     Digit(text[25]) * 10 + Digit(text[26]))
  }

  function ByteAt(text: string, i: nat): int
    requires i + 1 < |text|
  {
    Digit(text[i]) * 16 + Digit(text[i + 1])
  }

  /** The places of the four pairs of hexadecimal digits and of the two decimal ones. */
  lemma Places(h0: string, h1: string, h2: string, h3: string, d: string)
    requires |h0| == |h1| == |h2| == |h3| == |d| == 2
    ensures var t := Assemble(h0, h1, h2, h3, d);
            && |t| == 27
            && t[5] == h0[0] && t[6] == h0[1] && t[7] == h1[0] && t[8] == h1[1]
            && t[10] == h2[0] && t[11] == h2[1] && t[12] == h3[0] && t[13] == h3[1]
            && t[25] == d[0] && t[26] == d[1]
  {
  }

  /** Two digits that stand for n. */
  predicate Spells(h: string, n: int, base: int) {
    |h| == 2 && Digit(h[0]) * base + Digit(h[1]) == n
  }

  lemma HexDigits(b: Byte)
    ensures Spells(Hex(b), b, 16)
  {
    DigitOfDigits(b / 16);
    DigitOfDigits(b % 16);
  }

  lemma DecimalDigits(n: nat)
    requires 10 <= n < 100
    ensures Spells(Decimal(n), n, 10)
  {
    DigitOfDigits(n / 10);
    DigitOfDigits(n % 10);
    assert Decimal(n / 10) == [DIGITS[n / 10]];
  }

  /** Address and size can be read off the text, so it determines both. */
  lemma TextDetermines(ip: seq<Byte>, size: nat)
    requires |ip| == 4 && 0 < size <= 32
    ensures 17 <= 16 + size <= 48
    ensures |Text(ip, size)| == 27 && Decode(Text(ip, size)) == (ip, 16 + size)
  {
    HexDigits(ip[0]);
    HexDigits(ip[1]);
    HexDigits(ip[2]);
    HexDigits(ip[3]);
    DecimalDigits(16 + size);
    DecodeAssembled(Hex(ip[0]), Hex(ip[1]), Hex(ip[2]), Hex(ip[3]), Decimal(16 + size), ip, 16 + size);
  }

  lemma DecodeAssembled(h0: string, h1: string, h2: string, h3: string, d: string, ip: seq<Byte>, n: int)
    requires |ip| == 4 && Spells(h0, ip[0], 16) && Spells(h1, ip[1], 16) && Spells(h2, ip[2], 16)
    requires Spells(h3, ip[3], 16) && Spells(d, n, 10)
    ensures var t := Assemble(h0, h1, h2, h3, d); |t| == 27 && Decode(t) == (ip, n)
  {
    Places(h0, h1, h2, h3, d);
    var t := Assemble(h0, h1, h2, h3, d);
    assert ByteAt(t, 5) == ip[0] && ByteAt(t, 7) == ip[1];
    assert ByteAt(t, 10) == ip[2] && ByteAt(t, 12) == ip[3];
    assert Decode(t).0 == ip;
  }

  lemma TextIsInjective(ip1: seq<Byte>, size1: nat, ip2: seq<Byte>, size2: nat)
    requires |ip1| == 4 && |ip2| == 4 && 0 < size1 <= 32 && 0 < size2 <= 32
    requires Text(ip1, size1) == Text(ip2, size2)
    ensures ip1 == ip2 && size1 == size2
  {
    TextDetermines(ip1, size1);
    TextDetermines(ip2, size2);
  }

  // ----- the address that the text names -----

  /** The groups between colons, up to the slash. */
  function Groups(text: string): (gs: seq<string>)
    ensures gs != []
  {
    if text == "" || text[0] == '/' then [""]
    else
      var gs := Groups(text[1..]);
      if text[0] == ':' then [""] + gs else [[text[0]] + gs[0]] + gs[1..]
  }

  function HexValue(group: string): int {
    if group == "" then 0 else HexValue(group[..|group| - 1]) * 16 + Digit(group[|group| - 1])
  }

  /** Each group is two bytes (section 2.2 of RFC 4291). */
  function GroupBytes(gs: seq<string>): seq<int> {
    if gs == [] then [] else [HexValue(gs[0]) / 256, HexValue(gs[0]) % 256] + GroupBytes(gs[1..])
  }

  predicate NoMark(group: string) { ':' !in group && '/' !in group }

  lemma {:induction false} FirstGroup(group: string, rest: string)
    requires NoMark(group)
    ensures Groups(group + ":" + rest) == [group] + Groups(rest)
  {
    if group == "" {
      assert group + ":" + rest == [':'] + rest;
    } else {
      FirstGroup(group[1..], rest);
      assert (group + ":" + rest)[1..] == group[1..] + ":" + rest;
      assert [group[0]] + group[1..] == group;
    }
  }

  lemma LastGroup(c: char, rest: string)
    requires NoMark([c])
    ensures Groups([c] + "/" + rest) == [[c]]
  {
    var text := [c] + "/" + rest;
    assert text[1..] == ['/'] + rest;
    assert [c] + "" == [c];
  }

  /** A group in front of a text. */
  lemma NextGroup(group: string, rest: string, gs: seq<string>) returns (text: string)
    requires NoMark(group) && Groups(rest) == gs
    ensures text == group + ":" + rest && Groups(text) == [group] + gs
  {
    FirstGroup(group, rest);
    text := group + ":" + rest;
  }

  lemma ZeroGroups(size: string) returns (text: string)
    ensures text == "0:0:0:0:0/" + size && Groups(text) == ["0", "0", "0", "0", "0"]
  {
    LastGroup('0', size);
    text := NextGroup("0", "0" + "/" + size, ["0"]);
    text := NextGroup("0", text, ["0"] + ["0"]);
    text := NextGroup("0", text, ["0"] + (["0"] + ["0"]));
    text := NextGroup("0", text, ["0"] + (["0"] + (["0"] + ["0"])));
  }

  lemma AssembledGroups(h0: string, h1: string, h2: string, h3: string, size: string)
    requires NoMark(h0 + h1) && NoMark(h2 + h3)
    ensures Groups(Assemble(h0, h1, h2, h3, size)) == ["2002", h0 + h1, h2 + h3, "0", "0", "0", "0", "0"]
  {
    var zeros := ["0", "0", "0", "0", "0"];
    var tail := ZeroGroups(size);
    var text := NextGroup(h2 + h3, tail, zeros);
    text := NextGroup(h0 + h1, text, [h2 + h3] + zeros);
    text := NextGroup("2002", text, [h0 + h1] + ([h2 + h3] + zeros));
    AssembleTail(h0 + h1, h2 + h3, size);
    assert Assemble(h0, h1, h2, h3, size) == text;
  }

  lemma AssembleTail(high: string, low: string, size: string)
    ensures "2002:" + high + ":" + low + ":0:0:0:0:0/" + size == "2002" + ":" + (high + ":" + (low + ":" + ("0:0:0:0:0/" + size)))
  {
    var x, y := "2002:" + high + ":" + low, "0:0:0:0:0/" + size;
    assert x + ":0:0:0:0:0/" + size == x + ":" + y;
    assert x + ":" + y == "2002:" + high + ":" + (low + ":" + y);
    assert "2002:" + high == "2002" + ":" + high;
  }

  predicate Pair(group: string, x: int, y: int) { HexValue(group) == 256 * x + y }

  lemma PairValue(x: Byte, y: Byte)
    ensures NoMark(Hex(x) + Hex(y)) && Pair(Hex(x) + Hex(y), x, y)
  {
    var g := Hex(x) + Hex(y);
    DigitOfDigits(x / 16);
    DigitOfDigits(x % 16);
    DigitOfDigits(y / 16);
    DigitOfDigits(y % 16);
    assert g == [DIGITS[x / 16], DIGITS[x % 16], DIGITS[y / 16], DIGITS[y % 16]];
    assert g[..3][..2] == g[..2] && g[..2][..1] == g[..1] && g[..1][..0] == "";
    assert HexValue(g[..1]) == x / 16;
    assert HexValue(g[..2]) == x;
    assert HexValue(g[..3]) == x * 16 + y / 16;
  }

  lemma Value2002()
    ensures HexValue("2002") == 0x2002 && HexValue("0") == 0
  {
    var g := "2002";
    assert g[..3] == "200" && g[..3][..2] == "20" && g[..3][..2][..1] == "2" && "0"[..0] == "" && "2"[..0] == "";
    assert HexValue("2") == 2;
    assert HexValue("20") == 0x20 by { assert "20"[..1] == "2"; }
    assert HexValue("200") == 0x200 by { assert "200"[..2] == "20"; }
  }

  /** The sixteen bytes read from the text are the IPv4 address behind 2002, and zeros. */
  lemma TextNamesEmbedding(ip: seq<Byte>, size: nat)
    requires |ip| == 4
    ensures GroupBytes(Groups(Text(ip, size))) == Embedding(ip)
  {
    PairValue(ip[0], ip[1]);
    PairValue(ip[2], ip[3]);
    AssembledGroups(Hex(ip[0]), Hex(ip[1]), Hex(ip[2]), Hex(ip[3]), Decimal(16 + size));
    BytesOfGroups(Hex(ip[0]) + Hex(ip[1]), Hex(ip[2]) + Hex(ip[3]), ip);
  }

  lemma BytesOfGroups(high: string, low: string, ip: seq<Byte>)
    requires |ip| == 4 && Pair(high, ip[0], ip[1]) && Pair(low, ip[2], ip[3])
    ensures GroupBytes(["2002", high, low, "0", "0", "0", "0", "0"]) == Embedding(ip)
  {
    var zeros := ["0", "0", "0", "0", "0"];
    Value2002();
    ZeroBytes();
    PrependBytes(low, zeros, ip[2], ip[3]);
    PrependBytes(high, [low] + zeros, ip[0], ip[1]);
    PrependBytes("2002", [high] + ([low] + zeros), 0x20, 0x02);
    assert ["2002", high, low, "0", "0", "0", "0", "0"] == ["2002"] + ([high] + ([low] + zeros));
  }

  lemma PrependBytes(g: string, gs: seq<string>, x: Byte, y: Byte)
    requires Pair(g, x, y)
    ensures GroupBytes([g] + gs) == [x, y] + GroupBytes(gs)
  {
    assert ([g] + gs)[1..] == gs;
  }

  lemma ZeroBytes()
    ensures GroupBytes(["0", "0", "0", "0", "0"]) == [0, 0, 0, 0, 0, 0, 0, 0, 0, 0]
  {
    Value2002();
    PrependBytes("0", [], 0, 0);
    PrependBytes("0", ["0"], 0, 0);
    PrependBytes("0", ["0", "0"], 0, 0);
    PrependBytes("0", ["0", "0", "0"], 0, 0);
    PrependBytes("0", ["0", "0", "0", "0"], 0, 0);
    assert ["0"] + [] == ["0"] && ["0"] + ["0"] == ["0", "0"] && ["0"] + ["0", "0"] == ["0", "0", "0"];
    assert ["0"] + ["0", "0", "0"] == ["0", "0", "0", "0"] && ["0"] + ["0", "0", "0", "0"] == ["0", "0", "0", "0", "0"];
  }

  // ----- prefixes -----

  function Embedding(ip: seq<Byte>): (r: seq<Byte>)
    requires |ip| == 4
    ensures |r| == 16
  {
    [0x20, 0x02] + ip + [0, 0, 0, 0, 0, 0, 0, 0, 0, 0]
  }

  predicate SamePrefix(a: seq<Byte>, b: seq<Byte>, p: nat)
    requires |a| == |b|
  {
    MaskBytes(a, CIDRMask(p, |a|)) == MaskBytes(b, CIDRMask(p, |b|))
  }

  /** Two IPv4 addresses share a prefix of size bits exactly when their embeddings
      share one of 16 + size bits. */
  lemma EmbeddingKeepsPrefixes(a: seq<Byte>, b: seq<Byte>, size: nat)
    requires |a| == 4 && |b| == 4
    ensures SamePrefix(a, b, size) <==> SamePrefix(Embedding(a), Embedding(b), 16 + size)
  {
    var x, y := MaskBytes(a, CIDRMask(size, 4)), MaskBytes(b, CIDRMask(size, 4));
    var u, v := MaskBytes(Embedding(a), CIDRMask(16 + size, 16)), MaskBytes(Embedding(b), CIDRMask(16 + size, 16));
    forall i | 0 <= i < 4 ensures u[i + 2] == x[i] && v[i + 2] == y[i] {
      assert Embedding(a)[i + 2] == a[i] && Embedding(b)[i + 2] == b[i];
      assert 16 + size - 8 * (i + 2) == size - 8 * i;
    }
    forall i | 0 <= i < 16 && !(2 <= i < 6) ensures u[i] == v[i] {
      assert Embedding(a)[i] == Embedding(b)[i];
    }
    if x == y {
      forall i | 0 <= i < 16 ensures u[i] == v[i] {
        if 2 <= i < 6 {
          assert u[i] == x[i - 2] && v[i] == y[i - 2];
        }
      }
    }
    if u == v {
      forall i | 0 <= i < 4 ensures x[i] == y[i] {
        assert u[i + 2] == v[i + 2];
      }
    }
  }
}

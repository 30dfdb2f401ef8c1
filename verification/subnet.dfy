/** Network and host numbers: `GetNetNum`, `GetHostNum` and their CIDR
    forms. An IPv4 address is treated as a 32-bit value (`ip2long`), an
    IPv6 literal as sixteen octets of which only the 32-bit block that holds
    the prefix boundary goes through the IPv4 arithmetic. */
module Subnet {
  import opened Wrappers
  import opened Strings
  import opened Numerals
  import opened BitSeq
  import opened IPv4Text
  import opened CidrCodec
  import opened IPv6Text

  // ------------------------------------------------------- PHP helpers

  /** `ip2long($IP)` where `>>` and `^` consume it: PHP turns `false` into 0. */
  function Long(ip: string): (v: nat)
    ensures v < TwoTo32
  {
    match Ip2Long(ip)
    case Some(v) => v
    case None => 0
  }

  /** `array_slice($a, $lo, $n)`: at most `n` fields from `lo` on. */
  function Slice(a: seq<string>, lo: nat, n: nat): (r: seq<string>)
    ensures lo + n <= |a| ==> r == a[lo..lo + n]
  {
    if lo >= |a| then [] else if lo + n >= |a| then a[lo..] else a[lo..lo + n]
  }

  /** `array_slice($a, $lo)`: the fields from `lo` on. */
  function From(a: seq<string>, lo: nat): (r: seq<string>)
    ensures lo <= |a| ==> r == a[lo..]
  {
    if lo >= |a| then [] else a[lo..]
  }

  /** `array_fill(0, $n, 0)`, as the numerals `implode` prints. */
  function ZeroFields(n: nat): (r: seq<string>)
    ensures |r| == n && forall i :: 0 <= i < n ==> r[i] == "0"
  {
    seq(n, _ => "0")
  }

  /** `$Prefix.'.'.$Middle.'.'.$Suffix` with both lists `implode`d. */
  function Glue(prefix: seq<string>, middle: string, suffix: seq<string>): string
  {
    Join(prefix, ".") + "." + middle + "." + Join(suffix, ".")
  }

  /** `$v >> (32 - $Mask) << (32 - $Mask)`. */
  function NetValue(v: nat, mask: nat): nat
    requires mask <= 32
  {
    Shl(Shr(v, 32 - mask), 32 - mask)
  }

  // ------------------------------------------------------- the operations

  /** `GetNetNum`: the address with every bit after the first `mask` cleared.
      IPv4: a prefix length outside [0,32] throws; the value is printed by
      `long2ip`, or, in binary, by `decbin` padded with zeros ON THE RIGHT to
      32 characters. IPv6: a prefix length outside [0,128] throws, 128 gives
      the text back upper-cased, anything else goes through the dotted form:
      the octets before the affected 32-bit block are kept, the block goes
      through the IPv4 case, the blocks after it become zeros, and the result
      is read back by `IPv6DDNToCHN` (the binary flag is not passed on). */
  function GetNetNum(ip: string, mask: int, binary: bool): Result<string>
    decreases if ':' in ip then 1 else 0
  {
    var version := GetIPVersion(ip);
    if version == 4 then
      if mask < 0 || mask > 32 then Err(RangeError)
      else
        var net := NetValue(Long(ip), mask);
        Ok(if binary then PadRight(BinStr(net), 32, '0') else Long2Ip(net))
    else if version == 6 then
      if mask < 0 || mask > 128 then Err(RangeError)
      else if mask == 128 then Ok(Upper(ip))
      else
        (match IPv6CHNToDDN(ip)
         case Err(e) => Err(e)
         case Ok(ddn) =>
           var p := Split(ddn, '.');
           var g := mask / 32;
           QuadNoColon(ip, g);
           match GetNetNum(Join(Slice(p, 4 * g, 4), "."), mask % 32, false)
           case Err(e) => Err(e)
           case Ok(middle) => FromDotted(Glue(Slice(p, 0, 4 * g), middle, ZeroFields((3 - g) * 4))))
    else Ok("")
  }

  /** `GetHostNum`: the address with its first `mask` bits cleared. IPv4:
      the `^` of the address and its network number, printed by `long2ip`
      or, in binary, padded with zeros on the left to 32 characters. IPv6:
      as `GetNetNum`, with the blocks before the affected one zeroed and
      those after it kept. */
  function GetHostNum(ip: string, mask: int, binary: bool): Result<string>
    decreases if ':' in ip then 1 else 0
  {
    var version := GetIPVersion(ip);
    if version == 4 then
      if mask < 0 || mask > 32 then Err(RangeError)
      else
        (match GetNetNum(ip, mask, false)
         case Err(e) => Err(e)
         case Ok(net) =>
           var host := Xor(Long(net), Long(ip));
           Ok(if binary then PadLeft(BinStr(host), 32, '0') else Long2Ip(host)))
    else if version == 6 then
      if mask < 0 || mask > 128 then Err(RangeError)
      else if mask == 128 then Ok(Upper(ip))
      else
        (match IPv6CHNToDDN(ip)
         case Err(e) => Err(e)
         case Ok(ddn) =>
           var p := Split(ddn, '.');
           var g := mask / 32;
           QuadNoColon(ip, g);
           match GetHostNum(Join(Slice(p, 4 * g, 4), "."), mask % 32, false)
           case Err(e) => Err(e)
           case Ok(middle) => FromDotted(Glue(ZeroFields(4 * g), middle, From(p, (g + 1) * 4))))
    else Ok("")
  }

  /** `GetNetNumCIDR`: `''` for a text `CIDRToIP` cannot read. */
  function GetNetNumCIDR(cidr: string, binary: bool): Result<string>
  {
    match CIDRToIP(cidr)
    case None => Ok("")
    case Some(c) => GetNetNum(c.ip, c.mask, binary)
  }

  /** `GetHostNumCIDR`: `''` for a text `CIDRToIP` cannot read. */
  function GetHostNumCIDR(cidr: string, binary: bool): Result<string>
  {
    match CIDRToIP(cidr)
    case None => Ok("")
    case Some(c) => GetHostNum(c.ip, c.mask, binary)
  }

  // ------------------------------------------------------- text lemmas

  /** A dotted quad holds no colon, so it takes the IPv4 branch. */
  lemma DottedQuadNoColon(s: string)
    requires IsDottedQuad(s)
    ensures ':' !in s
  {
    var p := Split(s, '.');
    assert !IsDigit(':');
    forall i | 0 <= i < |p|
      ensures ':' !in p[i]
    {
      assert IsOctetNumeral(p[i]);
    }
    JoinSplit(s, '.');
    JoinExcludes(p, ".", ':');
  }

  /** The numerals of octets `4g .. 4g+3` of a literal, joined by dots, hold no
      colon: the recursive call in the IPv6 branch lands in the IPv4 one. */
  lemma QuadNoColon(ip: string, g: nat)
    requires IPv6Check(ip) && g <= 3
    ensures ':' !in Join(Slice(Split(IPv6CHNToDDN(ip).value, '.'), 4 * g, 4), ".")
  {
    var o := Octets(Address(ip));
    OctetNumeralsFacts(o);
    var q := OctetNumerals(o)[4 * g..4 * g + 4];
    assert !IsDigit(':');
    forall i | 0 <= i < |q|
      ensures ':' !in q[i]
    {
      assert Canonical(OctetNumerals(o)[4 * g + i]);
    }
    JoinExcludes(q, ".", ':');
  }

  lemma WordBound(q: seq<nat>)
    requires |q| == 4 && forall i :: 0 <= i < 4 ==> q[i] < 256
    ensures Word(q) < TwoTo32
  {
    var a := q[0] * 256 + q[1];
    assert a < 65536;
    var b := a * 256 + q[2];
    assert b < 16777216;
  }

  /** The four numerals of a block of octets, joined again, are the dotted quad of their word. */
  lemma QuadText(o: seq<nat>, g: nat)
    requires IsOctets(o) && g <= 3
    ensures var q := o[4 * g..4 * g + 4];
      && Word(q) < TwoTo32 && OctetsOf(Word(q)) == q
      && Join(Slice(OctetNumerals(o), 4 * g, 4), ".") == Long2Ip(Word(q))
  {
    var q := o[4 * g..4 * g + 4];
    OctetsOfWord(q);
    WordBound(q);
    assert Slice(OctetNumerals(o), 4 * g, 4) == [NatStr(q[0]), NatStr(q[1]), NatStr(q[2]), NatStr(q[3])];
  }

  /** `implode('.', $a)` splits back into its fields, the empty list into one empty field. */
  lemma JoinedFields(a: seq<string>)
    requires forall i :: 0 <= i < |a| ==> '.' !in a[i]
    ensures Split(Join(a, "."), '.') == if a == [] then [[]] else a
  {
    if a != [] {
      SplitJoin(a, '.');
    }
  }

  /** The fields of the glued text are those of its three parts. */
  lemma GlueFields(prefix: seq<string>, middle: string, suffix: seq<string>)
    requires forall i :: 0 <= i < |prefix| ==> '.' !in prefix[i]
    requires forall i :: 0 <= i < |suffix| ==> '.' !in suffix[i]
    ensures Split(Glue(prefix, middle, suffix), '.')
         == (if prefix == [] then [[]] else prefix) + Split(middle, '.') + (if suffix == [] then [[]] else suffix)
  {
    var x := Join(prefix, ".");
    SplitAround(x + "." + middle, Join(suffix, "."), '.');
    SplitAround(x, middle, '.');
    JoinedFields(prefix);
    JoinedFields(suffix);
  }

  /** With three non-empty parts, the glued text is the `implode` of all fields. */
  lemma GlueJoin(prefix: seq<string>, m: seq<string>, suffix: seq<string>)
    requires |prefix| > 0 && |m| > 0 && |suffix| > 0
    ensures Glue(prefix, Join(m, "."), suffix) == Join(prefix + m + suffix, ".")
  {
    JoinAppend(prefix, m, '.');
    JoinAppend(prefix + m, suffix, '.');
  }

  lemma NumeralsNoDot(v: nat)
    ensures '.' !in NatStr(v)
  {
    NatStrCanonical(v);
    assert !IsDigit('.');
  }

  /** A `long2ip` text has four fields. */
  lemma Long2IpFour(v: nat)
    ensures |Split(Long2Ip(v), '.')| == 4
  {
    Long2IpFields(v);
  }

  // ------------------------------------------------------- IPv4 bit lemmas

  /** Shifting right and back left by `32 - mask` keeps the leading `mask`
      bits and clears the others. */
  lemma NetBits(v: nat, mask: nat)
    requires v < TwoTo32 && mask <= 32
    ensures NetValue(v, mask) < TwoTo32
    ensures Bits(NetValue(v, mask), 32) == Bits(v, 32)[..mask] + Falses(32 - mask)
  {
    Pow2Values();
    var k := 32 - mask;
    BitsShr(v, 32, k);
    BitsShl(Shr(v, k), 32, k);
    ShrBound(v, 32, k);
    ShlBound(Shr(v, k), 32, k);
  }

  /** The `^` of the network number and the address: zeros over the prefix,
      the address's own bits after it. */
  lemma HostBits(v: nat, mask: nat)
    requires v < TwoTo32 && mask <= 32
    ensures Xor(NetValue(v, mask), v) < TwoTo32
    ensures Bits(Xor(NetValue(v, mask), v), 32) == Falses(mask) + Bits(v, 32)[mask..]
  {
    Pow2Values();
    NetBits(v, mask);
    XorBound(NetValue(v, mask), v, 32);
    BitsXor(NetValue(v, mask), v, 32);
    var b := Bits(v, 32);
    var x := XorBits(b[..mask] + Falses(32 - mask), b);
    forall i | 0 <= i < 32
      ensures x[i] == (Falses(mask) + b[mask..])[i]
    {
    }
  }

  /** For a dotted quad and a prefix length the check lets through, the IPv4
      branch computes the two numbers from the address value. */
  lemma V4Values(ip: string, mask: int)
    requires IsDottedQuad(ip) && 0 <= mask <= 32
    ensures GetNetNum(ip, mask, false) == Ok(Long2Ip(NetValue(Long(ip), mask)))
    ensures GetHostNum(ip, mask, false) == Ok(Long2Ip(Xor(NetValue(Long(ip), mask), Long(ip))))
    ensures Long(Long2Ip(NetValue(Long(ip), mask))) == NetValue(Long(ip), mask)
    ensures Long(Long2Ip(Xor(NetValue(Long(ip), mask), Long(ip)))) == Xor(NetValue(Long(ip), mask), Long(ip))
  {
    DottedQuadNoColon(ip);
    NetBits(Long(ip), mask);
    HostBits(Long(ip), mask);
    Ip2LongOfLong2Ip(NetValue(Long(ip), mask));
    Ip2LongOfLong2Ip(Xor(NetValue(Long(ip), mask), Long(ip)));
  }

  /** IPv4: the network number holds the address's leading `mask` bits and
      zeros after them; the host number zeros and then the address's
      remaining bits. Both come out as dotted quads that `ip2long` reads. */
  lemma NetHostBitsV4(ip: string, mask: int)
    requires IsDottedQuad(ip) && 0 <= mask <= 32
    ensures GetNetNum(ip, mask, false).Ok? && GetHostNum(ip, mask, false).Ok?
    ensures var net := Ip2Long(GetNetNum(ip, mask, false).value);
      net.Some? && Bits(net.value, 32) == Bits(Ip2Long(ip).value, 32)[..mask] + Falses(32 - mask)
    ensures var host := Ip2Long(GetHostNum(ip, mask, false).value);
      host.Some? && Bits(host.value, 32) == Falses(mask) + Bits(Ip2Long(ip).value, 32)[mask..]
  {
    V4Values(ip, mask);
    NetBits(Long(ip), mask);
    HostBits(Long(ip), mask);
    Ip2LongOfLong2Ip(NetValue(Long(ip), mask));
    Ip2LongOfLong2Ip(Xor(NetValue(Long(ip), mask), Long(ip)));
  }

  /** IPv4: network and host number split the address, every bit of it set in
      exactly one of them (`net | host == ip` and `net & host == 0`). */
  lemma NetHostPartitionV4(ip: string, mask: int)
    requires IsDottedQuad(ip) && 0 <= mask <= 32
    ensures GetNetNum(ip, mask, false).Ok? && GetHostNum(ip, mask, false).Ok?
    ensures var a := Bits(Long(ip), 32);
      var n := Bits(Long(GetNetNum(ip, mask, false).value), 32);
      var h := Bits(Long(GetHostNum(ip, mask, false).value), 32);
      forall i :: 0 <= i < 32 ==> (n[i] || h[i]) == a[i] && !(n[i] && h[i])
  {
    V4Values(ip, mask);
    NetBits(Long(ip), mask);
    HostBits(Long(ip), mask);
  }

  lemma NetValueWhole(v: nat)
    requires v < TwoTo32
    ensures NetValue(v, 32) == v && NetValue(v, 0) == 0
  {
    Pow2Values();
    NetBits(v, 0);
    BitsZero(32);
    BitsInjective(NetValue(v, 0), 0, 32);
  }

  lemma XorSelf(v: nat)
    requires v < TwoTo32
    ensures Xor(v, v) == 0
  {
    Pow2Values();
    XorBound(v, v, 32);
    BitsXor(v, v, 32);
    BitsZero(32);
    assert XorBits(Bits(v, 32), Bits(v, 32)) == Falses(32);
    BitsInjective(Xor(v, v), 0, 32);
  }

  lemma ZeroQuad()
    ensures Long2Ip(0) == "0.0.0.0"
  {
    assert OctetsOf(0) == [0, 0, 0, 0];
    assert DigitChar(0) == '0';
    var z := ["0", "0", "0", "0"];
    assert [NatStr(0), NatStr(0), NatStr(0), NatStr(0)] == z;
    assert z[..3] == ["0", "0", "0"] && z[..3][..2] == ["0", "0"] && z[..3][..2][..1] == ["0"];
    assert Join(z[..3][..2], ".") == "0.0";
    assert Join(z[..3], ".") == "0.0.0";
    assert Join(z, ".") == "0.0.0.0";
  }

  /** IPv4 boundaries: prefix length 32 gives the address back as its network
      number and prefix length 0 as its host number; the other number is
      `0.0.0.0` in both cases. */
  lemma V4Boundaries(ip: string)
    requires IsDottedQuad(ip)
    ensures GetNetNum(ip, 32, false) == Ok(ip) && GetHostNum(ip, 0, false) == Ok(ip)
    ensures GetNetNum(ip, 0, false) == Ok("0.0.0.0") && GetHostNum(ip, 32, false) == Ok("0.0.0.0")
  {
    var v := Long(ip);
    V4Values(ip, 32);
    V4Values(ip, 0);
    NetValueWhole(v);
    XorZero(v);
    XorSelf(v);
    ZeroQuad();
    Long2IpOfIp2Long(ip);
  }

  /** IPv4, binary: the host number is its 32 bits, zeros over the prefix. */
  lemma HostBinaryV4(ip: string, mask: int)
    requires IsDottedQuad(ip) && 0 <= mask <= 32
    ensures GetHostNum(ip, mask, true) == Ok(BitsText(Falses(mask) + Bits(Ip2Long(ip).value, 32)[mask..]))
  {
    var v := Long(ip);
    DottedQuadNoColon(ip);
    V4Values(ip, mask);
    HostBits(v, mask);
    Pow2Values();
    BinStrPadLeft(Xor(NetValue(v, mask), v), 32);
  }

  /** IPv4: two addresses have the same network number exactly when their
      leading `mask` bits agree. */
  lemma SameNetV4(ip1: string, ip2: string, mask: int)
    requires IsDottedQuad(ip1) && IsDottedQuad(ip2) && 0 <= mask <= 32
    ensures GetNetNum(ip1, mask, false) == GetNetNum(ip2, mask, false)
        <==> Bits(Ip2Long(ip1).value, 32)[..mask] == Bits(Ip2Long(ip2).value, 32)[..mask]
  {
    V4Values(ip1, mask);
    V4Values(ip2, mask);
    var v, w := Long(ip1), Long(ip2);
    NetBits(v, mask);
    NetBits(w, mask);
    var n1, n2 := NetValue(v, mask), NetValue(w, mask);
    if GetNetNum(ip1, mask, false) == GetNetNum(ip2, mask, false) {
      assert n1 == n2;
      assert (Bits(v, 32)[..mask] + Falses(32 - mask))[..mask] == Bits(v, 32)[..mask];
      assert (Bits(w, 32)[..mask] + Falses(32 - mask))[..mask] == Bits(w, 32)[..mask];
    }
    if Bits(v, 32)[..mask] == Bits(w, 32)[..mask] {
      Pow2Values();
      BitsInjective(n1, n2, 32);
    }
  }

  /** IPv4, binary: the network number is 32 characters of `0` and `1`
      whatever the address; its significant digits come first. */
  lemma NetBinaryShapeV4(ip: string, mask: int)
    requires ':' !in ip && 0 <= mask <= 32
    ensures GetNetNum(ip, mask, true).Ok?
    ensures var t := GetNetNum(ip, mask, true).value;
      var d := BinStr(NetValue(Long(ip), mask));
      |t| == 32 && AllBinary(t) && t[..|d|] == d
  {
    var n := NetValue(Long(ip), mask);
    NetBits(Long(ip), mask);
    assert GetNetNum(ip, mask, true) == Ok(PadRight(BinStr(n), 32, '0'));
    PaddedRightShape(n);
  }

  /** `str_pad($bin, 32, "0", STR_PAD_RIGHT)` of a 32-bit number's numeral. */
  lemma PaddedRightShape(n: nat)
    requires n < TwoTo32
    ensures var d := BinStr(n);
      var t := PadRight(d, 32, '0');
      |t| == 32 && AllBinary(t) && t[..|d|] == d
  {
    Pow2Values();
    BinStrFacts(n, 32);
    var d := BinStr(n);
    var t := PadRight(d, 32, '0');
    assert t == d + Rep(32 - |d|, '0');
    assert t[..|d|] == d;
  }

  /** A positive number's binary numeral starts with `1`. */
  lemma {:induction false} BinStrLeading(v: nat)
    requires v > 0
    ensures |BinStr(v)| > 0 && BinStr(v)[0] == '1'
  {
    if v >= 2 {
      BinStrLeading(v / 2);
    } else {
      assert DigitChar(1) == '1';
    }
  }

  /** Below `2^(n-1)` the leading one of `n` bits is clear. */
  lemma {:induction false} BitsTopClear(v: nat, n: nat)
    requires n > 0 && v < Pow2(n - 1)
    ensures !Bits(v, n)[0]
  {
    if n > 1 {
      BitsTopClear(v / 2, n - 1);
    }
  }

  /** As written, the binary network number is padded on the RIGHT: for any
      network number from `0.0.0.1` to `127.255.255.255` its 32 characters
      are not its bits (the first is `1`, the top bit is `0`). With
      `10.0.0.0/8` the text is `1010` followed by 28 zeros, which reads as
      `160.0.0.0`. */
  lemma NetBinaryPaddedRight(ip: string, mask: int)
    requires IsDottedQuad(ip) && 0 <= mask <= 32
    requires 0 < NetValue(Ip2Long(ip).value, mask) < TwoTo32 / 2
    ensures GetNetNum(ip, mask, true).Ok?
    ensures GetNetNum(ip, mask, true).value != BitsText(Bits(NetValue(Ip2Long(ip).value, mask), 32))
  {
    var n := NetValue(Long(ip), mask);
    DottedQuadNoColon(ip);
    NetBinaryShapeV4(ip, mask);
    BinStrLeading(n);
    Pow2Values();
    BitsTopClear(n, 32);
    assert GetNetNum(ip, mask, true).value[0] == '1';
    assert BitsText(Bits(n, 32))[0] == '0';
  }

  /** `10.0.0.0/8` is a network number the right padding misprints. */
  lemma NetBinaryTenSlashEight()
    ensures IsDottedQuad("10.0.0.0")
    ensures GetNetNum("10.0.0.0", 8, true).Ok? && NetBinary("10.0.0.0", 8).Ok?
    ensures GetNetNum("10.0.0.0", 8, true).value != NetBinary("10.0.0.0", 8).value
  {
    TenText();
    Ip2LongOfLong2Ip(167772160);
    TenNet();
    NetBits(167772160, 8);
    NetBinaryPaddedRight("10.0.0.0", 8);
  }

  /** `long2ip(167772160)`. */
  lemma TenText()
    ensures Long2Ip(167772160) == "10.0.0.0"
  {
    assert OctetsOf(167772160) == [10, 0, 0, 0];
    assert DigitChar(0) == '0' && DigitChar(1) == '1';
    assert NatStr(10) == "10" && NatStr(0) == "0";
    var z := ["10", "0", "0", "0"];
    assert [NatStr(10), NatStr(0), NatStr(0), NatStr(0)] == z;
    assert z[..3] == ["10", "0", "0"] && z[..3][..2] == ["10", "0"] && z[..3][..2][..1] == ["10"];
    assert Join(z[..3][..2], ".") == "10.0";
    assert Join(z[..3], ".") == "10.0.0";
    assert Join(z, ".") == "10.0.0.0";
  }

  /** `10.0.0.0` is its own network number under `/8`. */
  lemma TenNet()
    ensures NetValue(167772160, 8) == 167772160
  {
    var v := 167772160;
    var hi := Bits(10, 8);
    assert Bits(v, 32) == hi + Falses(24) by {
      Pow2Values();
      BitsConcat(10, 0, 8, 24);
      BitsZero(24);
    }
    assert Bits(NetValue(v, 8), 32) == Bits(v, 32) by {
      Pow2Values();
      NetBits(v, 8);
      assert (hi + Falses(24))[..8] == hi;
    }
    Pow2Values();
    NetBits(v, 8);
    BitsInjective(NetValue(v, 8), v, 32);
  }

  /** The binary network number as evidently intended: padded on the left
      like the host number, so that its 32 characters are the address's
      leading `mask` bits followed by zeros. */
  function NetBinary(ip: string, mask: int): (r: Result<string>)
    ensures r.Err? <==> mask < 0 || mask > 32
    ensures r.Err? ==> r.error == RangeError
    ensures r.Ok? ==> r.value == BitsText(Bits(Long(ip), 32)[..mask] + Falses(32 - mask))
    ensures r.Ok? && IsDottedQuad(ip) ==> r.value == BitsText(Bits(Ip2Long(ip).value, 32)[..mask] + Falses(32 - mask))
  {
    if mask < 0 || mask > 32 then Err(RangeError)
    else
      NetBits(Long(ip), mask);
      Pow2Values();
      BinStrPadLeft(NetValue(Long(ip), mask), 32);
      Ok(PadLeft(BinStr(NetValue(Long(ip), mask)), 32, '0'))
  }

  /** `GetNetNum` on IPv4 text fails exactly for a prefix length outside
      [0,32], and then with the range exception. */
  lemma NetRangeV4(ip: string, mask: int, binary: bool)
    requires ':' !in ip
    ensures GetNetNum(ip, mask, binary).Err? <==> mask < 0 || mask > 32
    ensures GetNetNum(ip, mask, binary).Err? ==> GetNetNum(ip, mask, binary).error == RangeError
  {
  }

  /** `GetHostNum` on IPv4 text fails exactly for a prefix length outside
      [0,32], and then with the range exception. */
  lemma HostRangeV4(ip: string, mask: int, binary: bool)
    requires ':' !in ip
    ensures GetHostNum(ip, mask, binary).Err? <==> mask < 0 || mask > 32
    ensures GetHostNum(ip, mask, binary).Err? ==> GetHostNum(ip, mask, binary).error == RangeError
  {
  }

  /** `GetNetNum` throws the range exception exactly for a prefix length
      outside [0,32] (IPv4 text) or [0,128] (text with a colon); every other
      failure of the IPv6 branch is a format or type error. */
  lemma NetMaskRange(ip: string, mask: int, binary: bool)
    ensures GetNetNum(ip, mask, binary) == Err(RangeError)
        <==> if ':' in ip then mask < 0 || mask > 128 else mask < 0 || mask > 32
  {
    if ':' !in ip {
      NetRangeV4(ip, mask, binary);
    } else if 0 <= mask < 128 && IPv6CHNToDDN(ip).Ok? {
      var g := mask / 32;
      QuadNoColon(ip, g);
      NetRangeV4(Join(Slice(Split(IPv6CHNToDDN(ip).value, '.'), 4 * g, 4), "."), mask % 32, false);
    }
  }

  /** `GetHostNum` throws the range exception exactly for a prefix length
      outside [0,32] (IPv4 text) or [0,128] (text with a colon). */
  lemma HostMaskRange(ip: string, mask: int, binary: bool)
    ensures GetHostNum(ip, mask, binary) == Err(RangeError)
        <==> if ':' in ip then mask < 0 || mask > 128 else mask < 0 || mask > 32
  {
    if ':' !in ip {
      HostRangeV4(ip, mask, binary);
    } else if 0 <= mask < 128 && IPv6CHNToDDN(ip).Ok? {
      var g := mask / 32;
      var quad := Join(Slice(Split(IPv6CHNToDDN(ip).value, '.'), 4 * g, 4), ".");
      QuadNoColon(ip, g);
      NetRangeV4(quad, mask % 32, false);
      HostRangeV4(quad, mask % 32, false);
    }
  }

  // ------------------------------------------------------- IPv6 lemmas

  /** IPv6 prefix length 128 returns the text upper-cased, valid or not. */
  lemma V6Whole(ip: string, binary: bool)
    requires ':' in ip
    ensures GetNetNum(ip, 128, binary) == Ok(Upper(ip))
    ensures GetHostNum(ip, 128, binary) == Ok(Upper(ip))
  {
  }

  /** A text with a colon that is no literal throws for every prefix length
      below 128, as `IPv6ToFull` does. */
  lemma V6Invalid(ip: string, mask: int, binary: bool)
    requires ':' in ip && !IPv6Check(ip) && 0 <= mask < 128
    ensures GetNetNum(ip, mask, binary) == Err(FormatError)
    ensures GetHostNum(ip, mask, binary) == Err(FormatError)
  {
  }

  /** The IPv6 network number once the literal has been read, in terms of its octets. */
  lemma V6NetText(ip: string, mask: int, binary: bool)
    requires ':' in ip && IPv6Check(ip) && 0 <= mask < 128
    ensures var o := Octets(Address(ip));
      var g := mask / 32;
      var w := Word(o[4 * g..4 * g + 4]);
      GetNetNum(ip, mask, binary)
        == FromDotted(Glue(OctetNumerals(o)[..4 * g], Long2Ip(NetValue(w, mask % 32)), ZeroFields((3 - g) * 4)))
  {
    var o := Octets(Address(ip));
    var g := mask / 32;
    var w := Word(o[4 * g..4 * g + 4]);
    var quad := QuadOf(ip, g);
    assert GetNetNum(quad, mask % 32, false) == Ok(Long2Ip(NetValue(w, mask % 32)));
  }

  /** The IPv6 host number once the literal has been read, in terms of its octets. */
  lemma V6HostText(ip: string, mask: int, binary: bool)
    requires ':' in ip && IPv6Check(ip) && 0 <= mask < 128
    ensures var o := Octets(Address(ip));
      var g := mask / 32;
      var w := Word(o[4 * g..4 * g + 4]);
      GetHostNum(ip, mask, binary)
        == FromDotted(Glue(ZeroFields(4 * g), Long2Ip(Xor(NetValue(w, mask % 32), w)), OctetNumerals(o)[(g + 1) * 4..]))
  {
    var o := Octets(Address(ip));
    var g := mask / 32;
    var w := Word(o[4 * g..4 * g + 4]);
    var quad := QuadOf(ip, g);
    NetBits(w, mask % 32);
    Ip2LongOfLong2Ip(NetValue(w, mask % 32));
    assert GetNetNum(quad, mask % 32, false) == Ok(Long2Ip(NetValue(w, mask % 32)));
    assert GetHostNum(quad, mask % 32, false) == Ok(Long2Ip(Xor(NetValue(w, mask % 32), w)));
  }

  /** The dotted quad the IPv6 branch hands to the IPv4 one, and what `ip2long` reads from it. */
  lemma QuadOf(ip: string, g: nat) returns (quad: string)
    requires IPv6Check(ip) && g <= 3
    ensures var o := Octets(Address(ip));
      && Split(IPv6CHNToDDN(ip).value, '.') == OctetNumerals(o)
      && quad == Join(Slice(OctetNumerals(o), 4 * g, 4), ".")
      && ':' !in quad
      && Long(quad) == Word(o[4 * g..4 * g + 4])
  {
    var o := Octets(Address(ip));
    OctetNumeralsFacts(o);
    QuadText(o, g);
    QuadNoColon(ip, g);
    quad := Join(Slice(OctetNumerals(o), 4 * g, 4), ".");
    Ip2LongOfLong2Ip(Word(o[4 * g..4 * g + 4]));
  }

  /** The glued text has seventeen fields when the prefix or the suffix list is empty. */
  lemma SeventeenFields(prefix: seq<string>, v: nat, suffix: seq<string>)
    requires forall i :: 0 <= i < |prefix| ==> '.' !in prefix[i]
    requires forall i :: 0 <= i < |suffix| ==> '.' !in suffix[i]
    requires (prefix == [] && |suffix| == 12) || (|prefix| == 12 && suffix == [])
    ensures FromDotted(Glue(prefix, Long2Ip(v), suffix)) == Err(FormatError)
  {
    GlueFields(prefix, Long2Ip(v), suffix);
    Long2IpFour(v);
  }

  /** IPv6 prefix lengths 0..31 and 96..127 always throw: the empty prefix or
      suffix list leaves an empty field, so `IPv6DDNToCHN` sees seventeen. */
  lemma V6OuterMasks(ip: string, mask: int, binary: bool)
    requires ':' in ip && (0 <= mask < 32 || 96 <= mask < 128)
    ensures GetNetNum(ip, mask, binary) == Err(FormatError)
    ensures GetHostNum(ip, mask, binary) == Err(FormatError)
  {
    if IPv6Check(ip) {
      V6OuterNet(ip, mask, binary);
      V6OuterHost(ip, mask, binary);
    }
  }

  /** The numerals of an address's octets hold no dot. */
  lemma NumeralsNoDots(ip: string)
    requires IPv6Check(ip)
    ensures forall i :: 0 <= i < 16 ==> '.' !in OctetNumerals(Octets(Address(ip)))[i]
  {
    OctetNumeralsFacts(Octets(Address(ip)));
  }

  lemma V6OuterNet(ip: string, mask: int, binary: bool)
    requires ':' in ip && IPv6Check(ip) && (0 <= mask < 32 || 96 <= mask < 128)
    ensures GetNetNum(ip, mask, binary) == Err(FormatError)
  {
    var o := Octets(Address(ip));
    var g := mask / 32;
    var w := Word(o[4 * g..4 * g + 4]);
    NumeralsNoDots(ip);
    V6NetText(ip, mask, binary);
    OuterNetGlue(OctetNumerals(o), g, NetValue(w, mask % 32));
  }

  lemma V6OuterHost(ip: string, mask: int, binary: bool)
    requires ':' in ip && IPv6Check(ip) && (0 <= mask < 32 || 96 <= mask < 128)
    ensures GetHostNum(ip, mask, binary) == Err(FormatError)
  {
    var o := Octets(Address(ip));
    var g := mask / 32;
    var w := Word(o[4 * g..4 * g + 4]);
    NumeralsNoDots(ip);
    V6HostText(ip, mask, binary);
    OuterHostGlue(OctetNumerals(o), g, Xor(NetValue(w, mask % 32), w));
  }

  /** The network number's glued text for the first or the last block. */
  lemma OuterNetGlue(d: seq<string>, g: nat, v: nat)
    requires |d| == 16 && (g == 0 || g == 3)
    requires forall i :: 0 <= i < 16 ==> '.' !in d[i]
    ensures FromDotted(Glue(d[..4 * g], Long2Ip(v), ZeroFields((3 - g) * 4))) == Err(FormatError)
  {
    var prefix := d[..4 * g];
    var suffix := ZeroFields((3 - g) * 4);
    if g == 0 {
      assert prefix == [] && |suffix| == 12;
    } else {
      assert |prefix| == 12 && suffix == [];
    }
    SeventeenFields(prefix, v, suffix);
  }

  /** The host number's glued text for the first or the last block. */
  lemma OuterHostGlue(d: seq<string>, g: nat, v: nat)
    requires |d| == 16 && (g == 0 || g == 3)
    requires forall i :: 0 <= i < 16 ==> '.' !in d[i]
    ensures FromDotted(Glue(ZeroFields(4 * g), Long2Ip(v), d[(g + 1) * 4..])) == Err(FormatError)
  {
    var prefix := ZeroFields(4 * g);
    var suffix := d[(g + 1) * 4..];
    if g == 0 {
      assert prefix == [] && |suffix| == 12;
    } else {
      assert |prefix| == 12 && suffix == [];
    }
    SeventeenFields(prefix, v, suffix);
  }

  /** The bits of a list of octets, eight each, most significant first. */
  function OctetBits(o: seq<nat>): (b: seq<bool>)
    ensures |b| == 8 * |o|
  {
    if o == [] then [] else OctetBits(o[..|o| - 1]) + Bits(o[|o| - 1], 8)
  }

  /** The number whose base-256 digits the octets are, most significant first. */
  function OctetValue(o: seq<nat>): nat
  {
    if o == [] then 0 else OctetValue(o[..|o| - 1]) * 256 + o[|o| - 1]
  }

  lemma {:induction false} OctetBitsValue(o: seq<nat>)
    requires forall i :: 0 <= i < |o| ==> o[i] < 256
    ensures OctetBits(o) == Bits(OctetValue(o), 8 * |o|)
  {
    if o != [] {
      var init := o[..|o| - 1];
      OctetBitsValue(init);
      Pow2Values();
      BitsConcat(OctetValue(init), o[|o| - 1], 8 * |init|, 8);
    }
  }

  lemma {:induction false} OctetBitsAppend(x: seq<nat>, y: seq<nat>)
    ensures OctetBits(x + y) == OctetBits(x) + OctetBits(y)
    decreases |y|
  {
    if y == [] {
      assert x + y == x;
    } else {
      var y' := y[..|y| - 1];
      assert (x + y)[..|x + y| - 1] == x + y';
      assert (x + y)[|x + y| - 1] == y[|y| - 1];
      OctetBitsAppend(x, y');
    }
  }

  lemma {:induction false} OctetBitsZeros(n: nat)
    ensures OctetBits(Zeros(n)) == Falses(8 * n)
  {
    if n > 0 {
      assert Zeros(n)[..n - 1] == Zeros(n - 1);
      OctetBitsZeros(n - 1);
      BitsZero(8);
      assert Falses(8 * (n - 1)) + Falses(8) == Falses(8 * n);
    }
  }

  /** The four octets of a word carry its 32 bits. */
  lemma OctetBitsWord(q: seq<nat>)
    requires |q| == 4 && forall i :: 0 <= i < 4 ==> q[i] < 256
    ensures OctetBits(q) == Bits(Word(q), 32)
  {
    OctetBitsValue(q);
    var q3 := q[..3];
    var q2 := q3[..2];
    var q1 := q2[..1];
    assert q1[..0] == [];
    assert OctetValue(q1) == q[0];
    assert OctetValue(q2) == q[0] * 256 + q[1];
    assert OctetValue(q3) == (q[0] * 256 + q[1]) * 256 + q[2];
  }

  /** The octets of an IPv6 network number: those before the block holding
      the prefix boundary kept, the block through the IPv4 arithmetic, the
      rest zero. */
  function NetOctets(o: seq<nat>, mask: nat): (r: seq<nat>)
    requires IsOctets(o) && mask < 128
    ensures IsOctets(r)
  {
    var g := mask / 32;
    var w := Word(o[4 * g..4 * g + 4]);
    o[..4 * g] + OctetsOf(NetValue(w, mask % 32)) + Zeros((3 - g) * 4)
  }

  /** The octets of an IPv6 host number: zeros before the block holding the
      prefix boundary, the block through the IPv4 arithmetic, the rest kept. */
  function HostOctets(o: seq<nat>, mask: nat): (r: seq<nat>)
    requires IsOctets(o) && mask < 128
    ensures IsOctets(r)
  {
    var g := mask / 32;
    var w := Word(o[4 * g..4 * g + 4]);
    Zeros(4 * g) + OctetsOf(Xor(NetValue(w, mask % 32), w)) + o[(g + 1) * 4..]
  }

  /** The bits of sixteen octets around block `g`. */
  lemma OctetBitsBlocks(o: seq<nat>, g: nat)
    requires IsOctets(o) && g <= 3
    ensures OctetBits(o) == OctetBits(o[..4 * g]) + Bits(Word(o[4 * g..4 * g + 4]), 32) + OctetBits(o[(g + 1) * 4..])
  {
    var q := o[4 * g..4 * g + 4];
    assert o == o[..4 * g] + q + o[(g + 1) * 4..];
    OctetBitsAppend(o[..4 * g] + q, o[(g + 1) * 4..]);
    OctetBitsAppend(o[..4 * g], q);
    OctetBitsWord(q);
  }

  /** The octets of a 32-bit value carry its bits. */
  lemma OctetBitsOf(v: nat)
    requires v < TwoTo32
    ensures OctetBits(OctetsOf(v)) == Bits(v, 32)
  {
    WordOctets(v);
    OctetBitsWord(OctetsOf(v));
  }

  lemma NetOctetsLayout(o: seq<nat>, mask: nat)
    requires IsOctets(o) && mask < 128
    ensures var g := mask / 32;
      var w := Word(o[4 * g..4 * g + 4]);
      OctetBits(NetOctets(o, mask)) == OctetBits(o[..4 * g]) + Bits(NetValue(w, mask % 32), 32) + Falses(8 * ((3 - g) * 4))
  {
    var g := mask / 32;
    var w := Word(o[4 * g..4 * g + 4]);
    var v := NetValue(w, mask % 32);
    assert v < TwoTo32 by {
      WordBound(o[4 * g..4 * g + 4]);
      NetBits(w, mask % 32);
    }
    var a, b, c := o[..4 * g], OctetsOf(v), Zeros((3 - g) * 4);
    assert NetOctets(o, mask) == a + b + c;
    OctetBitsThree(a, b, c);
    OctetBitsOf(v);
    OctetBitsZeros((3 - g) * 4);
  }

  lemma HostOctetsLayout(o: seq<nat>, mask: nat)
    requires IsOctets(o) && mask < 128
    ensures var g := mask / 32;
      var w := Word(o[4 * g..4 * g + 4]);
      OctetBits(HostOctets(o, mask)) == Falses(8 * (4 * g)) + Bits(Xor(NetValue(w, mask % 32), w), 32) + OctetBits(o[(g + 1) * 4..])
  {
    var g := mask / 32;
    var w := Word(o[4 * g..4 * g + 4]);
    var v := Xor(NetValue(w, mask % 32), w);
    WordBound(o[4 * g..4 * g + 4]);
    HostBits(w, mask % 32);
    OctetBitsThree(Zeros(4 * g), OctetsOf(v), o[(g + 1) * 4..]);
    OctetBitsOf(v);
    OctetBitsZeros(4 * g);
  }

  lemma OctetBitsThree(x: seq<nat>, y: seq<nat>, z: seq<nat>)
    ensures OctetBits(x + y + z) == OctetBits(x) + OctetBits(y) + OctetBits(z)
  {
    OctetBitsAppend(x + y, z);
    OctetBitsAppend(x, y);
  }

  lemma KeepLeading(pre: seq<bool>, b: seq<bool>, post: seq<bool>, m: nat)
    requires |b| == 32 && m <= 32
    ensures pre + (b[..m] + Falses(32 - m)) + Falses(|post|)
         == (pre + b + post)[..|pre| + m] + Falses(|pre| + 32 + |post| - |pre| - m)
  {
    var x := pre + (b[..m] + Falses(32 - m)) + Falses(|post|);
    var y := (pre + b + post)[..|pre| + m] + Falses(|pre| + 32 + |post| - |pre| - m);
    assert |x| == |y|;
    forall i | 0 <= i < |x|
      ensures x[i] == y[i]
    {
    }
  }

  lemma KeepTrailing(pre: seq<bool>, b: seq<bool>, post: seq<bool>, m: nat)
    requires |b| == 32 && m <= 32
    ensures Falses(|pre|) + (Falses(m) + b[m..]) + post == Falses(|pre| + m) + (pre + b + post)[|pre| + m..]
  {
    var x := Falses(|pre|) + (Falses(m) + b[m..]) + post;
    var y := Falses(|pre| + m) + (pre + b + post)[|pre| + m..];
    assert |x| == |y|;
    forall i | 0 <= i < |x|
      ensures x[i] == y[i]
    {
    }
  }

  /** The network octets are the address's leading `mask` bits followed by zeros. */
  lemma NetOctetsBits(o: seq<nat>, mask: nat)
    requires IsOctets(o) && mask < 128
    ensures OctetBits(NetOctets(o, mask)) == OctetBits(o)[..mask] + Falses(128 - mask)
  {
    var g := mask / 32;
    var w := Word(o[4 * g..4 * g + 4]);
    WordBound(o[4 * g..4 * g + 4]);
    NetOctetsLayout(o, mask);
    OctetBitsBlocks(o, g);
    NetBits(w, mask % 32);
    KeepLeading(OctetBits(o[..4 * g]), Bits(w, 32), OctetBits(o[(g + 1) * 4..]), mask % 32);
  }

  /** The host octets are zeros over the prefix followed by the address's remaining bits. */
  lemma HostOctetsBits(o: seq<nat>, mask: nat)
    requires IsOctets(o) && mask < 128
    ensures OctetBits(HostOctets(o, mask)) == Falses(mask) + OctetBits(o)[mask..]
  {
    var g := mask / 32;
    var w := Word(o[4 * g..4 * g + 4]);
    WordBound(o[4 * g..4 * g + 4]);
    HostOctetsLayout(o, mask);
    OctetBitsBlocks(o, g);
    HostBits(w, mask % 32);
    KeepTrailing(OctetBits(o[..4 * g]), Bits(w, 32), OctetBits(o[(g + 1) * 4..]), mask % 32);
  }

  /** The numerals of the network octets are the glued fields. */
  lemma NetNumerals(o: seq<nat>, mask: nat)
    requires IsOctets(o) && 32 <= mask < 96
    ensures var g := mask / 32;
      var v := NetValue(Word(o[4 * g..4 * g + 4]), mask % 32);
      Glue(OctetNumerals(o)[..4 * g], Long2Ip(v), ZeroFields((3 - g) * 4))
        == Join(OctetNumerals(NetOctets(o, mask)), ".")
  {
    var g := mask / 32;
    var v := NetValue(Word(o[4 * g..4 * g + 4]), mask % 32);
    var n := OctetsOf(v);
    var m := [NatStr(n[0]), NatStr(n[1]), NatStr(n[2]), NatStr(n[3])];
    GlueJoin(OctetNumerals(o)[..4 * g], m, ZeroFields((3 - g) * 4));
    NetFields(o, mask);
  }

  /** The network octets' numerals, field by field. */
  lemma NetFields(o: seq<nat>, mask: nat)
    requires IsOctets(o) && 32 <= mask < 96
    ensures var g := mask / 32;
      var n := OctetsOf(NetValue(Word(o[4 * g..4 * g + 4]), mask % 32));
      OctetNumerals(o)[..4 * g] + [NatStr(n[0]), NatStr(n[1]), NatStr(n[2]), NatStr(n[3])] + ZeroFields((3 - g) * 4)
        == OctetNumerals(NetOctets(o, mask))
  {
    assert NatStr(0) == "0";
  }

  /** The numerals of the host octets are the glued fields. */
  lemma HostNumerals(o: seq<nat>, mask: nat)
    requires IsOctets(o) && 32 <= mask < 96
    ensures var g := mask / 32;
      var w := Word(o[4 * g..4 * g + 4]);
      var v := Xor(NetValue(w, mask % 32), w);
      Glue(ZeroFields(4 * g), Long2Ip(v), OctetNumerals(o)[(g + 1) * 4..])
        == Join(OctetNumerals(HostOctets(o, mask)), ".")
  {
    var g := mask / 32;
    var w := Word(o[4 * g..4 * g + 4]);
    var v := Xor(NetValue(w, mask % 32), w);
    var n := OctetsOf(v);
    var m := [NatStr(n[0]), NatStr(n[1]), NatStr(n[2]), NatStr(n[3])];
    GlueJoin(ZeroFields(4 * g), m, OctetNumerals(o)[(g + 1) * 4..]);
    HostFields(o, mask);
  }

  /** The host octets' numerals, field by field. */
  lemma HostFields(o: seq<nat>, mask: nat)
    requires IsOctets(o) && 32 <= mask < 96
    ensures var g := mask / 32;
      var w := Word(o[4 * g..4 * g + 4]);
      var n := OctetsOf(Xor(NetValue(w, mask % 32), w));
      ZeroFields(4 * g) + [NatStr(n[0]), NatStr(n[1]), NatStr(n[2]), NatStr(n[3])] + OctetNumerals(o)[(g + 1) * 4..]
        == OctetNumerals(HostOctets(o, mask))
  {
    assert NatStr(0) == "0";
  }

  /** IPv6 prefix lengths 32..95: the network number is the full form of the
      address with every bit after the first `mask` cleared, the host number
      the full form with the first `mask` bits cleared. */
  lemma V6MiddleMasks(ip: string, mask: int, binary: bool)
    requires IPv6Check(ip) && 32 <= mask < 96
    ensures var o := Octets(Address(ip));
      && GetNetNum(ip, mask, binary) == Ok(FullText(GroupsOf(NetOctets(o, mask))))
      && GetHostNum(ip, mask, binary) == Ok(FullText(GroupsOf(HostOctets(o, mask))))
      && OctetBits(NetOctets(o, mask)) == OctetBits(o)[..mask] + Falses(128 - mask)
      && OctetBits(HostOctets(o, mask)) == Falses(mask) + OctetBits(o)[mask..]
  {
    var o := Octets(Address(ip));
    LiteralHasColon(ip);
    V6NetText(ip, mask, binary);
    V6HostText(ip, mask, binary);
    NetNumerals(o, mask);
    HostNumerals(o, mask);
    FromDottedOctets(NetOctets(o, mask));
    FromDottedOctets(HostOctets(o, mask));
    NetOctetsBits(o, mask);
    HostOctetsBits(o, mask);
  }

  /** A literal holds a colon. */
  lemma LiteralHasColon(ip: string)
    requires IPv6Check(ip)
    ensures ':' in ip
  {
    ValidFieldsShape(Split(ip, ':'));
    if ':' !in ip {
      SplitNoSeparator(ip, ':');
    }
  }

  // ------------------------------------------------------- CIDR forms

  /** A text without an `address/digits` part gives `''` as network number. */
  lemma NetCidrUnreadable(cidr: string, binary: bool)
    requires forall k :: 0 <= k < |cidr| ==> !SlashDigitAt(cidr, k)
    ensures GetNetNumCIDR(cidr, binary) == Ok("")
  {
  }

  /** A text without an `address/digits` part gives `''` as host number. */
  lemma HostCidrUnreadable(cidr: string, binary: bool)
    requires forall k :: 0 <= k < |cidr| ==> !SlashDigitAt(cidr, k)
    ensures GetHostNumCIDR(cidr, binary) == Ok("")
  {
  }

  /** A printed pair is read back and passed on unchanged to `GetNetNum`. */
  lemma NetCidrPrinted(c: Cidr, binary: bool)
    requires 0 <= c.mask <= 999
    ensures GetNetNumCIDR(IPToCIDR(c), binary) == GetNetNum(c.ip, c.mask, binary)
  {
    CidrRoundTrip(c);
  }

  /** A printed pair is read back and passed on unchanged to `GetHostNum`. */
  lemma HostCidrPrinted(c: Cidr, binary: bool)
    requires 0 <= c.mask <= 999
    ensures GetHostNumCIDR(IPToCIDR(c), binary) == GetHostNum(c.ip, c.mask, binary)
  {
    CidrRoundTrip(c);
  }
}

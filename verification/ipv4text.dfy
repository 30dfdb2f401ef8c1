/** The dotted-quad text of an IPv4 address and PHP's `ip2long` / `long2ip`
    (64-bit PHP, glibc `inet_pton` rules: four decimal fields 0..255 with no
    superfluous leading zero). */
module IPv4Text {
  import opened Wrappers
  import opened Strings
  import opened Numerals

  const TwoTo32: nat := 4294967296

  /** One field `inet_pton` accepts. */
  predicate IsOctetNumeral(s: string)
  {
    Canonical(s) && |s| <= 3 && DecValue(s) <= 255
  }

  /** A text `ip2long` accepts. */
  predicate IsDottedQuad(s: string)
  {
    var p := Split(s, '.');
    |p| == 4 && IsOctetNumeral(p[0]) && IsOctetNumeral(p[1]) && IsOctetNumeral(p[2]) && IsOctetNumeral(p[3])
  }

  /** The 32-bit value of four octets, most significant first. */
  function Word(o: seq<nat>): nat
    requires |o| == 4
  {
    ((o[0] * 256 + o[1]) * 256 + o[2]) * 256 + o[3]
  }

  /** The four octets of the low 32 bits of `v`, most significant first. */
  function OctetsOf(v: nat): (o: seq<nat>)
    ensures |o| == 4 && forall i :: 0 <= i < 4 ==> o[i] < 256
  {
    [v / 256 / 256 / 256 % 256, v / 256 / 256 % 256, v / 256 % 256, v % 256]
  }

  /** `ip2long(s)`: the address value, or `None` where PHP returns `false`. */
  function Ip2Long(s: string): (r: Option<nat>)
    ensures r.Some? <==> IsDottedQuad(s)
    ensures r.Some? ==> r.value < TwoTo32
  {
    if IsDottedQuad(s) then
      var p := Split(s, '.');
      OctetBounds(p);
      Some(Word([DecValue(p[0]), DecValue(p[1]), DecValue(p[2]), DecValue(p[3])]))
    else None
  }

  /** `long2ip(v)`: the dotted quad of the low 32 bits of `v`. */
  function Long2Ip(v: nat): string
  {
    var o := OctetsOf(v);
    Join([NatStr(o[0]), NatStr(o[1]), NatStr(o[2]), NatStr(o[3])], ".")
  }

  lemma OctetBounds(p: seq<string>)
    requires |p| == 4
    requires IsOctetNumeral(p[0]) && IsOctetNumeral(p[1]) && IsOctetNumeral(p[2]) && IsOctetNumeral(p[3])
    ensures Word([DecValue(p[0]), DecValue(p[1]), DecValue(p[2]), DecValue(p[3])]) < TwoTo32
  {
  }

  lemma {:induction false} WordOctets(v: nat)
    requires v < TwoTo32
    ensures Word(OctetsOf(v)) == v
  {
    var q1 := v / 256;
    var q2 := q1 / 256;
    var q3 := q2 / 256;
    assert v == q1 * 256 + v % 256;
    assert q1 == q2 * 256 + q1 % 256;
    assert q2 == q3 * 256 + q2 % 256;
    assert q3 < 256;
  }

  lemma DivMod256(x: nat, d: nat)
    requires d < 256
    ensures (x * 256 + d) / 256 == x && (x * 256 + d) % 256 == d
  {
  }

  lemma {:induction false} OctetsOfWord(o: seq<nat>)
    requires |o| == 4 && forall i :: 0 <= i < 4 ==> o[i] < 256
    ensures OctetsOf(Word(o)) == o
  {
    var a := o[0] * 256 + o[1];
    var b := a * 256 + o[2];
    DivMod256(b, o[3]);
    DivMod256(a, o[2]);
    DivMod256(o[0], o[1]);
    assert Word(o) == b * 256 + o[3];
  }

  /** `ip2long(long2ip(v)) == v` for every 32-bit value. */
  lemma {:induction false} Ip2LongOfLong2Ip(v: nat)
    requires v < TwoTo32
    ensures Ip2Long(Long2Ip(v)) == Some(v)
  {
    var o := OctetsOf(v);
    var parts := [NatStr(o[0]), NatStr(o[1]), NatStr(o[2]), NatStr(o[3])];
    forall i | 0 <= i < 4
      ensures IsOctetNumeral(parts[i]) && DecValue(parts[i]) == o[i] && '.' !in parts[i]
    {
      NatStrCanonical(o[i]);
    }
    assert IsOctetNumeral(parts[0]) && IsOctetNumeral(parts[1]);
    assert IsOctetNumeral(parts[2]) && IsOctetNumeral(parts[3]);
    SplitJoin(parts, '.');
    WordOctets(v);
  }

  /** `long2ip(ip2long(s)) == s` for every text `ip2long` accepts. */
  lemma {:induction false} Long2IpOfIp2Long(s: string)
    requires IsDottedQuad(s)
    ensures Long2Ip(Ip2Long(s).value) == s
  {
    var p := Split(s, '.');
    var o := [DecValue(p[0]), DecValue(p[1]), DecValue(p[2]), DecValue(p[3])];
    OctetsOfWord(o);
    CanonicalNatStr(p[0]);
    CanonicalNatStr(p[1]);
    CanonicalNatStr(p[2]);
    CanonicalNatStr(p[3]);
    assert [NatStr(o[0]), NatStr(o[1]), NatStr(o[2]), NatStr(o[3])] == p;
    JoinSplit(s, '.');
  }

  /** The four fields of `long2ip`. */
  lemma {:induction false} Long2IpFields(v: nat)
    ensures Split(Long2Ip(v), '.') == [NatStr(OctetsOf(v)[0]), NatStr(OctetsOf(v)[1]),
                                       NatStr(OctetsOf(v)[2]), NatStr(OctetsOf(v)[3])]
  {
    var o := OctetsOf(v);
    var parts := [NatStr(o[0]), NatStr(o[1]), NatStr(o[2]), NatStr(o[3])];
    forall i | 0 <= i < 4 ensures '.' !in parts[i] {
      NatStrCanonical(o[i]);
    }
    SplitJoin(parts, '.');
  }
}

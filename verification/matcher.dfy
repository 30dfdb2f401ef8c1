/** `MatchNetNum` and `InNetNum`: comparing network numbers of several
    addresses given as `address/prefix` texts or as `IP`/`Mask` arrays. */
module Matcher {
  import opened Wrappers
  import opened Strings
  import opened Numerals
  import opened BitSeq
  import opened IPv4Text
  import opened CidrCodec
  import opened Subnet

  /** An argument of the two matchers: a CIDR text, or an array holding
      both the `IP` and the `Mask` key. */
  datatype Arg = Text(text: string) | Pair(pair: Cidr)

  /** The text `GetNetNumCIDR` is handed for an argument: an array is first
      printed by `IPToCIDR`. */
  function Printed(x: Arg): string
  {
    match x
    case Text(s) => s
    case Pair(c) => IPToCIDR(c)
  }

  /** The list `$NetNumArr` the loop of `MatchNetNum` fills, or the first
      exception one of the arguments throws. */
  function NetNums(args: seq<Arg>): (r: Result<seq<string>>)
    ensures r.Ok? ==> |r.value| == |args|
  {
    if args == [] then Ok([])
    else
      match NetNums(args[..|args| - 1])
      case Err(e) => Err(e)
      case Ok(l) =>
        match GetNetNumCIDR(Printed(args[|args| - 1]), false)
        case Err(e) => Err(e)
        case Ok(x) => Ok(l + [x])
  }

  /** `array_unique`, as the set of the values it keeps. */
  function Distinct(l: seq<string>): set<string>
  {
    set x | x in l
  }

  /** What `MatchNetNum` returns: whether the network numbers leave exactly
      one distinct value. */
  function Matches(args: seq<Arg>): Result<bool>
  {
    match NetNums(args)
    case Err(e) => Err(e)
    case Ok(l) => Ok(|Distinct(l)| == 1)
  }

  /** `MatchNetNum`: the network number of every argument, in order, then
      `count(array_unique(..)) == 1`. */
  method MatchNetNum(args: seq<Arg>) returns (r: Result<bool>)
    ensures r == Matches(args)
  {
    var netNums: seq<string> := [];
    var i := 0;
    while i < |args|
      invariant 0 <= i <= |args|
      invariant NetNums(args[..i]) == Ok(netNums)
    {
      var n := GetNetNumCIDR(Printed(args[i]), false);
      assert args[..i + 1] == args[..i] + [args[i]];
      NetNumsSnoc(args[..i], args[i]);
      if n.Err? {
        ErrorPersists(args, i + 1);
        return Err(n.error);
      }
      netNums := netNums + [n.value];
      i := i + 1;
    }
    assert args[..i] == args;
    r := Ok(|Distinct(netNums)| == 1);
  }

  /** An exception among the first arguments is the one the whole call throws. */
  lemma {:induction false} ErrorPersists(args: seq<Arg>, i: nat)
    requires i <= |args|
    ensures NetNums(args[..i]).Err? ==> NetNums(args) == NetNums(args[..i])
    decreases |args| - i
  {
    if i < |args| {
      ErrorPersists(args, i + 1);
      assert args[..i + 1][..i] == args[..i];
    } else {
      assert args[..i] == args;
    }
  }

  /** One distinct value means a non-empty list of equal values. */
  lemma UniqueOne(l: seq<string>)
    ensures |Distinct(l)| == 1 <==> |l| > 0 && forall i :: 0 <= i < |l| ==> l[i] == l[0]
  {
    if |l| == 0 {
      assert Distinct(l) == {};
    } else if forall i :: 0 <= i < |l| ==> l[i] == l[0] {
      assert Distinct(l) == {l[0]};
    } else {
      var i :| 0 <= i < |l| && l[i] != l[0];
      TwoInSet(Distinct(l), l[0], l[i]);
    }
  }

  lemma TwoInSet(s: set<string>, x: string, y: string)
    requires x in s && y in s && x != y
    ensures |s| >= 2
  {
    var t := {x, y};
    assert t <= s;
    assert |s| == |t| + |s - t| by {
      assert s == t + (s - t);
    }
  }

  /** `MatchNetNum` is true exactly when no argument throws, there is at
      least one, and all network numbers are the same. */
  lemma MatchesTrue(args: seq<Arg>)
    ensures Matches(args) == Ok(true) <==>
      && NetNums(args).Ok?
      && |args| > 0
      && forall i :: 0 <= i < |args| ==> NetNums(args).value[i] == NetNums(args).value[0]
  {
    if NetNums(args).Ok? {
      UniqueOne(NetNums(args).value);
    }
  }

  /** With no argument the list is empty and the answer is false. */
  lemma MatchesNone()
    ensures Matches([]) == Ok(false)
  {
    assert Distinct([]) == {};
  }

  /** One more argument: its network number is appended, or its exception thrown. */
  lemma NetNumsSnoc(args: seq<Arg>, x: Arg)
    ensures var a := GetNetNumCIDR(Printed(x), false);
      NetNums(args + [x]) ==
        if NetNums(args).Err? then NetNums(args)
        else if a.Err? then Err(a.error)
        else Ok(NetNums(args).value + [a.value])
  {
    assert (args + [x])[..|args|] == args;
    assert (args + [x])[|args|] == x;
  }

  /** The network numbers of two arguments. */
  lemma NetNumsTwo(x: Arg, y: Arg)
    ensures var a, b := GetNetNumCIDR(Printed(x), false), GetNetNumCIDR(Printed(y), false);
      NetNums([x, y]) == if a.Err? then Err(a.error) else if b.Err? then Err(b.error) else Ok([a.value, b.value])
  {
    var a, b := GetNetNumCIDR(Printed(x), false), GetNetNumCIDR(Printed(y), false);
    NetNumsSnoc([], x);
    NetNumsSnoc([x], y);
    assert [] + [x] == [x] && [x] + [y] == [x, y];
    assert NetNums([]) == Ok([]);
    if a.Ok? {
      assert [] + [a.value] == [a.value];
      assert NetNums([x]) == Ok([a.value]);
      if b.Ok? {
        assert [a.value] + [b.value] == [a.value, b.value];
      }
    }
  }

  /** Two arguments match when their network numbers are equal, or throw
      as the first of them throws. */
  lemma MatchesTwo(x: Arg, y: Arg)
    ensures var a, b := GetNetNumCIDR(Printed(x), false), GetNetNumCIDR(Printed(y), false);
      Matches([x, y]) == if a.Err? then Err(a.error) else if b.Err? then Err(b.error) else Ok(a.value == b.value)
  {
    NetNumsTwo(x, y);
    var a, b := GetNetNumCIDR(Printed(x), false), GetNetNumCIDR(Printed(y), false);
    if a.Ok? && b.Ok? {
      UniqueTwo(a.value, b.value);
    }
  }

  lemma UniqueTwo(u: string, v: string)
    ensures |Distinct([u, v])| == 1 <==> u == v
  {
    var l := [u, v];
    UniqueOne(l);
    assert l[0] == u && l[1] == v;
  }

  /** Texts without any `/` followed by a digit all read as the empty
      network number, so they match one another. */
  lemma MatchesUnreadable(x: string, y: string)
    requires forall k :: 0 <= k < |x| ==> !SlashDigitAt(x, k)
    requires forall k :: 0 <= k < |y| ==> !SlashDigitAt(y, k)
    ensures Matches([Text(x), Text(y)]) == Ok(true)
  {
    NetCidrUnreadable(x, false);
    NetCidrUnreadable(y, false);
    MatchesTwo(Text(x), Text(y));
  }

  /** Two arrays match when their network numbers are equal, each taken
      with its own prefix length, or throw as the first of them throws. */
  lemma MatchesPairs(c: Cidr, d: Cidr)
    requires 0 <= c.mask <= 999 && 0 <= d.mask <= 999
    ensures var a, b := GetNetNum(c.ip, c.mask, false), GetNetNum(d.ip, d.mask, false);
      Matches([Pair(c), Pair(d)]) == if a.Err? then Err(a.error) else if b.Err? then Err(b.error) else Ok(a.value == b.value)
  {
    NetCidrPrinted(c, false);
    NetCidrPrinted(d, false);
    MatchesTwo(Pair(c), Pair(d));
  }

  /** IPv4: two pairs with one prefix length match exactly when their
      leading bits, as many as the prefix length, agree. */
  lemma MatchesV4(c: Cidr, d: Cidr)
    requires IsDottedQuad(c.ip) && IsDottedQuad(d.ip) && 0 <= c.mask <= 32 && d.mask == c.mask
    ensures Matches([Pair(c), Pair(d)])
         == Ok(Bits(Ip2Long(c.ip).value, 32)[..c.mask] == Bits(Ip2Long(d.ip).value, 32)[..c.mask])
  {
    MatchesPairs(c, d);
    assert GetNetNum(c.ip, c.mask, false).Ok? && GetNetNum(d.ip, c.mask, false).Ok? by {
      DottedQuadNoColon(c.ip);
      DottedQuadNoColon(d.ip);
      NetRangeV4(c.ip, c.mask, false);
      NetRangeV4(d.ip, c.mask, false);
    }
    SameNetV4(c.ip, d.ip, c.mask);
  }

  // ---------------------------------------------------------- InNetNum

  /** `$Template` and each `$Sample`: an array as given, a text through
      `CIDRToIP` (`None` is PHP's empty array; for a sample it makes the
      loop return false). */
  function CidrOf(x: Arg): Option<Cidr>
  {
    match x
    case Text(s) => CIDRToIP(s)
    case Pair(c) => Some(c)
  }

  /** `$Sample['Mask'] < $Template['Mask']`. For an empty template the right
      side is `null`, and PHP compares an integer with `null` as booleans,
      where nothing is below `false`. */
  predicate Below(t: Option<Cidr>, s: Cidr)
  {
    t.Some? && s.mask < t.value.mask
  }

  /** The two arguments `MatchNetNum` is called with: the template and the
      sample's address under the template's prefix length. For an empty
      template both keys read as `null`, which prints as nothing. */
  function Probe(t: Option<Cidr>, s: Cidr): seq<Arg>
  {
    match t
    case Some(c) => [Pair(c), Pair(Cidr(s.ip, c.mask))]
    case None => [Text("/"), Text(s.ip + "/")]
  }

  /** What `InNetNum` returns: it looks at the samples in order, gives false
      at the first that does not read or has a shorter prefix than the
      template, true at the first whose network number is the template's. */
  function InNet(t: Option<Cidr>, samples: seq<Arg>): Result<bool>
    decreases |samples|
  {
    if samples == [] then Ok(false)
    else
      match CidrOf(samples[0])
      case None => Ok(false)
      case Some(s) =>
        if Below(t, s) then Ok(false)
        else
          match Matches(Probe(t, s))
          case Err(e) => Err(e)
          case Ok(true) => Ok(true)
          case Ok(false) => InNet(t, samples[1..])
  }

  /** `InNetNum`. */
  method InNetNum(netNum: Arg, samples: seq<Arg>) returns (r: Result<bool>)
    ensures r == InNet(CidrOf(netNum), samples)
  {
    var template := CidrOf(netNum);
    var i := 0;
    while i < |samples|
      invariant 0 <= i <= |samples|
      invariant InNet(template, samples) == InNet(template, samples[i..])
    {
      assert samples[i..][0] == samples[i] && samples[i..][1..] == samples[i + 1..];
      var sample := CidrOf(samples[i]);
      if sample.None? {
        return Ok(false);
      }
      var s := sample.value;
      if template.Some? && s.mask < template.value.mask {
        return Ok(false);
      }
      var m := MatchNetNum(Probe(template, s));
      if m.Err? {
        return Err(m.error);
      }
      if m.value {
        return Ok(true);
      }
      i := i + 1;
    }
    r := Ok(false);
  }

  /** The sample decides the answer: it reads, its prefix is not shorter,
      and its network number is the template's. */
  predicate Hit(t: Option<Cidr>, x: Arg)
  {
    CidrOf(x).Some? && !Below(t, CidrOf(x).value) && Matches(Probe(t, CidrOf(x).value)) == Ok(true)
  }

  /** The sample lets the loop go on: it reads, its prefix is not shorter,
      and its network number differs from the template's. */
  predicate Miss(t: Option<Cidr>, x: Arg)
  {
    CidrOf(x).Some? && !Below(t, CidrOf(x).value) && Matches(Probe(t, CidrOf(x).value)) == Ok(false)
  }

  /** The search stops with true at sample `i`: it hits and every sample
      before it misses. */
  predicate FoundAt(t: Option<Cidr>, samples: seq<Arg>, i: int)
  {
    0 <= i < |samples| && Hit(t, samples[i]) && forall j :: 0 <= j < i ==> Miss(t, samples[j])
  }

  /** One step of the search: true at the first sample, or past it to the rest. */
  lemma InNetStep(t: Option<Cidr>, samples: seq<Arg>)
    requires samples != []
    ensures InNet(t, samples) == Ok(true) <==>
      Hit(t, samples[0]) || (Miss(t, samples[0]) && InNet(t, samples[1..]) == Ok(true))
  {
  }

  /** Finding at `i + 1` is missing the first sample and finding at `i` in the rest. */
  lemma FoundShift(t: Option<Cidr>, samples: seq<Arg>, i: int)
    requires samples != [] && 0 <= i
    ensures FoundAt(t, samples, i + 1) <==> Miss(t, samples[0]) && FoundAt(t, samples[1..], i)
  {
    var rest := samples[1..];
    if Miss(t, samples[0]) && FoundAt(t, rest, i) {
      forall j | 0 <= j < i + 1
        ensures Miss(t, samples[j])
      {
        if j > 0 {
          assert samples[j] == rest[j - 1];
        }
      }
    }
    if FoundAt(t, samples, i + 1) {
      assert Miss(t, samples[0]);
      forall j | 0 <= j < i
        ensures Miss(t, rest[j])
      {
        assert rest[j] == samples[j + 1];
      }
    }
  }

  /** `InNetNum` is true exactly when some sample hits and every sample
      before it misses. */
  lemma {:induction false} InNetTrue(t: Option<Cidr>, samples: seq<Arg>)
    ensures InNet(t, samples) == Ok(true) <==> exists i :: FoundAt(t, samples, i)
    decreases |samples|
  {
    if samples != [] {
      var rest := samples[1..];
      InNetTrue(t, rest);
      InNetStep(t, samples);
      if InNet(t, samples) == Ok(true) {
        if Hit(t, samples[0]) {
          assert FoundAt(t, samples, 0);
        } else {
          var i :| FoundAt(t, rest, i);
          FoundShift(t, samples, i);
        }
      }
      if exists i :: FoundAt(t, samples, i) {
        var i :| FoundAt(t, samples, i);
        if i > 0 {
          FoundShift(t, samples, i - 1);
        }
      }
    }
  }

  /** A sample that does not read, or has a shorter prefix than the
      template, ends the search with false whatever follows it. */
  lemma InNetStops(t: Option<Cidr>, x: Arg, rest: seq<Arg>)
    requires CidrOf(x).None? || Below(t, CidrOf(x).value)
    ensures InNet(t, [x] + rest) == Ok(false)
  {
    assert ([x] + rest)[0] == x;
  }

  /** For a template that reads, a sample hits when the two addresses have
      the same network number under the template's prefix length. */
  lemma ProbeTemplate(c: Cidr, s: Cidr)
    requires 0 <= c.mask <= 999
    ensures var a, b := GetNetNum(c.ip, c.mask, false), GetNetNum(s.ip, c.mask, false);
      Matches(Probe(Some(c), s)) == if a.Err? then Err(a.error) else if b.Err? then Err(b.error) else Ok(a.value == b.value)
  {
    MatchesPairs(c, Cidr(s.ip, c.mask));
  }

  /** IPv4: a sample is in the template's network exactly when its prefix
      is not shorter and its leading bits, as many as the template's
      prefix length, are the template's. */
  lemma HitV4(c: Cidr, s: Cidr)
    requires IsDottedQuad(c.ip) && IsDottedQuad(s.ip) && 0 <= c.mask <= 32
    ensures var same := Bits(Ip2Long(c.ip).value, 32)[..c.mask] == Bits(Ip2Long(s.ip).value, 32)[..c.mask];
      && (Hit(Some(c), Pair(s)) <==> c.mask <= s.mask && same)
      && (Miss(Some(c), Pair(s)) <==> c.mask <= s.mask && !same)
  {
    ProbeTemplate(c, s);
    assert GetNetNum(c.ip, c.mask, false).Ok? && GetNetNum(s.ip, c.mask, false).Ok? by {
      DottedQuadNoColon(c.ip);
      DottedQuadNoColon(s.ip);
      NetRangeV4(c.ip, c.mask, false);
      NetRangeV4(s.ip, c.mask, false);
    }
    SameNetV4(c.ip, s.ip, c.mask);
  }

  // -------------------------------------------------------- two examples

  lemma IntStrValues()
    ensures IntStr(8) == "8" && IntStr(24) == "24" && IntStr(32) == "32"
  {
    assert DigitChar(2) == '2' && DigitChar(3) == '3' && DigitChar(4) == '4' && DigitChar(8) == '8';
    assert NatStr(2) == "2" && NatStr(3) == "3";
  }

  /** `long2ip(167838211)`. */
  lemma Ten123Text()
    ensures Long2Ip(167838211) == "10.1.2.3"
  {
    assert OctetsOf(167838211) == [10, 1, 2, 3];
    assert DigitChar(0) == '0' && DigitChar(1) == '1' && DigitChar(2) == '2' && DigitChar(3) == '3';
    assert NatStr(10) == "10" && NatStr(1) == "1" && NatStr(2) == "2" && NatStr(3) == "3";
    var z := ["10", "1", "2", "3"];
    assert [NatStr(10), NatStr(1), NatStr(2), NatStr(3)] == z;
    assert z[..3] == ["10", "1", "2"] && z[..3][..2] == ["10", "1"] && z[..3][..2][..1] == ["10"];
    assert Join(z[..3][..2], ".") == "10.1";
    assert Join(z[..3], ".") == "10.1.2";
    assert Join(z, ".") == "10.1.2.3";
  }

  /** The leading octet of a 32-bit value is its top eight bits. */
  lemma LeadingOctet(v: nat, hi: nat, lo: nat)
    requires lo < 16777216 && v == hi * 16777216 + lo
    ensures Bits(v, 32)[..8] == Bits(hi, 8)
  {
    Pow2Values();
    BitsConcat(hi, lo, 8, 24);
  }

  /** `ip2long` of a text `long2ip` printed. */
  lemma ReadBack(v: nat, s: string)
    requires v < TwoTo32 && Long2Ip(v) == s
    ensures IsDottedQuad(s) && Ip2Long(s) == Some(v)
  {
    Ip2LongOfLong2Ip(v);
  }

  /** `10.0.0.0` and `10.1.2.3` as `ip2long` reads them, and their common first octet. */
  lemma TenAddresses()
    ensures IsDottedQuad("10.0.0.0") && IsDottedQuad("10.1.2.3")
    ensures Bits(Ip2Long("10.0.0.0").value, 32)[..8] == Bits(Ip2Long("10.1.2.3").value, 32)[..8]
  {
    TenText();
    Ten123Text();
    ReadBack(167772160, "10.0.0.0");
    ReadBack(167838211, "10.1.2.3");
    LeadingOctet(Ip2Long("10.0.0.0").value, 10, 0);
    LeadingOctet(Ip2Long("10.1.2.3").value, 10, 66051);
  }

  /** The two texts of the first example read as the obvious pairs. */
  lemma TenReads()
    ensures CidrOf(Text("10.0.0.0/8")) == Some(Cidr("10.0.0.0", 8))
    ensures CidrOf(Text("10.1.2.3/32")) == Some(Cidr("10.1.2.3", 32))
  {
    IntStrValues();
    var c, s := Cidr("10.0.0.0", 8), Cidr("10.1.2.3", 32);
    CidrRoundTrip(c);
    CidrRoundTrip(s);
    assert IPToCIDR(c) == "10.0.0.0/8" && IPToCIDR(s) == "10.1.2.3/32";
  }

  /** A search over one sample that hits is true. */
  lemma InNetSingle(t: Option<Cidr>, x: Arg)
    requires Hit(t, x)
    ensures InNet(t, [x]) == Ok(true)
  {
  }

  /** `InNetNum('10.0.0.0/8', '10.1.2.3/32')` is true. */
  lemma InNetTenExample()
    ensures InNet(CidrOf(Text("10.0.0.0/8")), [Text("10.1.2.3/32")]) == Ok(true)
  {
    var c, s := Cidr("10.0.0.0", 8), Cidr("10.1.2.3", 32);
    TenReads();
    assert Hit(Some(c), Pair(s)) by {
      TenAddresses();
      HitV4(c, s);
    }
    InNetSingle(Some(c), Text("10.1.2.3/32"));
  }

  /** `InNetNum('10.0.0.0/24', '10.1.2.3/8')` is false: the sample's prefix is shorter. */
  lemma InNetBroaderExample()
    ensures InNet(CidrOf(Text("10.0.0.0/24")), [Text("10.1.2.3/8")]) == Ok(false)
  {
    IntStrValues();
    var c, s := Cidr("10.0.0.0", 24), Cidr("10.1.2.3", 8);
    CidrRoundTrip(c);
    CidrRoundTrip(s);
    assert IPToCIDR(c) == "10.0.0.0/24" && IPToCIDR(s) == "10.1.2.3/8";
    InNetStops(Some(c), Text("10.1.2.3/8"), []);
    assert [Text("10.1.2.3/8")] + [] == [Text("10.1.2.3/8")];
  }

  // ------------------------------------------- the unreadable template

  /** Appending a slash adds no `/` followed by a digit. */
  lemma SlashAppended(ip: string)
    requires forall k :: 0 <= k < |ip| ==> !SlashDigitAt(ip, k)
    ensures forall k :: 0 <= k < |ip + "/"| ==> !SlashDigitAt(ip + "/", k)
  {
    var s := ip + "/";
    forall k | 0 <= k < |s|
      ensures !SlashDigitAt(s, k)
    {
      if k + 1 < |ip| {
        assert s[k] == ip[k] && s[k + 1] == ip[k + 1];
        assert !SlashDigitAt(ip, k);
      } else if k + 1 == |ip| {
        assert s[k + 1] == '/';
      }
    }
  }

  /** As written, a template that does not read compares `null` with
      `null`: the first sample that reads and whose address holds no `/`
      followed by a digit gives true, whatever the addresses are. */
  lemma InNetUnreadableTemplate(netNum: Arg, samples: seq<Arg>)
    requires CidrOf(netNum).None?
    requires |samples| > 0 && CidrOf(samples[0]).Some?
    requires var ip := CidrOf(samples[0]).value.ip;
      forall k :: 0 <= k < |ip| ==> !SlashDigitAt(ip, k)
    ensures InNet(CidrOf(netNum), samples) == Ok(true)
  {
    var s := CidrOf(samples[0]).value;
    SlashAppended(s.ip);
    MatchesUnreadable("/", s.ip + "/");
  }

  /** The text `garbage` is no CIDR, yet `10.0.0.1/8` is found in it. */
  lemma InNetGarbageTemplate()
    ensures CidrOf(Text("garbage")).None?
    ensures InNet(CidrOf(Text("garbage")), [Pair(Cidr("10.0.0.1", 8))]) == Ok(true)
  {
    NoSlashNoDigit("garbage");
    NoSlashNoDigit("10.0.0.1");
    InNetUnreadableTemplate(Text("garbage"), [Pair(Cidr("10.0.0.1", 8))]);
  }

  lemma NoSlashNoDigit(s: string)
    requires '/' !in s
    ensures forall k :: 0 <= k < |s| ==> !SlashDigitAt(s, k)
  {
  }

  /** `InNetNum` as evidently intended: a template that does not read
      contains no address. */
  function InNetIntended(netNum: Arg, samples: seq<Arg>): (r: Result<bool>)
    ensures CidrOf(netNum).None? ==> r == Ok(false)
    ensures r == Ok(true) <==> CidrOf(netNum).Some? && exists i :: FoundAt(CidrOf(netNum), samples, i)
  {
    InNetTrue(CidrOf(netNum), samples);
    if CidrOf(netNum).None? then Ok(false) else InNet(CidrOf(netNum), samples)
  }

  // ---------------------------------------------------- a matching pair

  /** The leading 24 bits of a 32-bit value. */
  lemma LeadingThreeOctets(v: nat, hi: nat, lo: nat)
    requires lo < 256 && v == hi * 256 + lo
    ensures Bits(v, 32)[..24] == Bits(hi, 24)
  {
    Pow2Values();
    BitsConcat(hi, lo, 24, 8);
  }

  /** The numerals of the example's octets. */
  lemma Numerals192()
    ensures NatStr(192) == "192" && NatStr(168) == "168" && NatStr(1) == "1" && NatStr(254) == "254"
  {
    assert DigitChar(1) == '1' && DigitChar(2) == '2' && DigitChar(4) == '4' && DigitChar(5) == '5';
    assert DigitChar(6) == '6' && DigitChar(8) == '8' && DigitChar(9) == '9';
    assert NatStr(19) == "19" && NatStr(16) == "16" && NatStr(25) == "25";
  }

  /** A dotted quad from its four numerals. */
  lemma QuadJoin(a: string, b: string, c: string, d: string)
    ensures Join([a, b, c, d], ".") == a + "." + b + "." + c + "." + d
  {
    var z := [a, b, c, d];
    assert z[..3] == [a, b, c] && z[..3][..2] == [a, b] && z[..3][..2][..1] == [a];
    assert Join([a, b], ".") == a + "." + b;
    assert Join([a, b, c], ".") == a + "." + b + "." + c;
  }

  /** `long2ip` of the two addresses of the example. */
  lemma Net192Text()
    ensures Long2Ip(3232235777) == "192.168.1.1" && Long2Ip(3232236030) == "192.168.1.254"
  {
    assert OctetsOf(3232235777) == [192, 168, 1, 1];
    assert OctetsOf(3232236030) == [192, 168, 1, 254];
    Numerals192();
    QuadJoin("192", "168", "1", "1");
    QuadJoin("192", "168", "1", "254");
  }

  /** `192.168.1.1` and `192.168.1.254` share their leading 24 bits. */
  lemma Net192Addresses()
    ensures IsDottedQuad("192.168.1.1") && IsDottedQuad("192.168.1.254")
    ensures Bits(Ip2Long("192.168.1.1").value, 32)[..24] == Bits(Ip2Long("192.168.1.254").value, 32)[..24]
  {
    Net192Text();
    ReadBack(3232235777, "192.168.1.1");
    ReadBack(3232236030, "192.168.1.254");
    LeadingThreeOctets(Ip2Long("192.168.1.1").value, 12625921, 1);
    LeadingThreeOctets(Ip2Long("192.168.1.254").value, 12625921, 254);
  }

  /** `MatchNetNum('192.168.1.1/24', '192.168.1.254/24')` is true. */
  lemma MatchNet192Example()
    ensures Matches([Text("192.168.1.1/24"), Text("192.168.1.254/24")]) == Ok(true)
  {
    var c, d := Cidr("192.168.1.1", 24), Cidr("192.168.1.254", 24);
    assert IPToCIDR(c) == "192.168.1.1/24" && IPToCIDR(d) == "192.168.1.254/24" by {
      IntStrValues();
    }
    assert Matches([Pair(c), Pair(d)]) == Ok(true) by {
      Net192Addresses();
      MatchesV4(c, d);
    }
    NetNumsTwo(Pair(c), Pair(d));
    NetNumsTwo(Text(IPToCIDR(c)), Text(IPToCIDR(d)));
  }
}

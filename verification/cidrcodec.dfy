/** Version dispatch and the `address/prefix` notation (section 3.1 of
    RFC 4632) as the class reads and writes it. */
module CidrCodec {
  import opened Wrappers
  import opened Strings
  import opened Numerals

  /** `GetIPVersion`: a text holding a colon is IPv6, anything else IPv4.
      It looks at nothing else. */
  function GetIPVersion(ip: string): (v: nat)
    ensures v == 6 <==> ':' in ip
    ensures v == 4 <==> ':' !in ip
  {
    if ':' in ip then 6 else 4
  }

  /** The array `array('IP' => ..., 'Mask' => ...)`. The prefix length is not
      range-checked here; the arithmetic checks it. */
  datatype Cidr = Cidr(ip: string, mask: int)

  /** A `/` at `k` immediately followed by a decimal digit. */
  predicate SlashDigitAt(s: string, k: nat)
  {
    k + 1 < |s| && s[k] == '/' && IsDigit(s[k + 1])
  }

  /** The last `/`-then-digit position below `n`: where the greedy `(.*)` of
      `/(.*)\/(\d{1,3})/s` stops. */
  function LastSlashDigit(s: string, n: nat): (r: Option<nat>)
    requires n <= |s|
    ensures r.None? <==> forall k :: 0 <= k < n ==> !SlashDigitAt(s, k)
    ensures r.Some? ==> r.value < n && SlashDigitAt(s, r.value)
    ensures r.Some? ==> forall j :: r.value < j < n ==> !SlashDigitAt(s, j)
  {
    if n == 0 then None
    else if SlashDigitAt(s, n - 1) then Some(n - 1)
    else LastSlashDigit(s, n - 1)
  }

  /** The longest run of at most `max` decimal digits at the front of `s`:
      what the greedy `\d{1,3}` takes. */
  function LeadingDigits(s: string, max: nat): (d: string)
    ensures |d| <= max && d <= s && AllDigits(d)
    ensures |d| < max && |d| < |s| ==> !IsDigit(s[|d|])
  {
    if max == 0 || s == [] || !IsDigit(s[0]) then ""
    else [s[0]] + LeadingDigits(s[1..], max - 1)
  }

  /** `CIDRToIP`: `None` (PHP's empty array) when no `/` is immediately
      followed by a digit; otherwise everything before the last such `/`,
      and the value of the one to three digits after it (the rest ignored). */
  function CIDRToIP(cidr: string): (r: Option<Cidr>)
    ensures r.None? <==> forall k :: 0 <= k < |cidr| ==> !SlashDigitAt(cidr, k)
    ensures r.Some? ==>
      var k := |r.value.ip|;
      && SlashDigitAt(cidr, k)
      && cidr[..k] == r.value.ip
      && (forall j :: k < j < |cidr| ==> !SlashDigitAt(cidr, j))
      && 0 <= r.value.mask <= 999
      && r.value.mask == DecValue(LeadingDigits(cidr[k + 1..], 3))
      && 1 <= |LeadingDigits(cidr[k + 1..], 3)|
  {
    match LastSlashDigit(cidr, |cidr|)
    case None => None
    case Some(k) =>
      var d := LeadingDigits(cidr[k + 1..], 3);
      DecValueBound(d);
      Some(Cidr(cidr[..k], DecValue(d)))
  }

  /** `IPToCIDR`: the address, a slash and the prefix length as PHP prints it. */
  function IPToCIDR(c: Cidr): string
  {
    c.ip + "/" + IntStr(c.mask)
  }

  /** Parsing a printed pair gives it back for every prefix length of at most
      three digits, whatever the address text holds. */
  lemma CidrRoundTrip(c: Cidr)
    requires 0 <= c.mask <= 999
    ensures CIDRToIP(IPToCIDR(c)) == Some(c)
  {
    var s := IPToCIDR(c);
    var m := NatStr(c.mask);
    NatStrCanonical(c.mask);
    var k := |c.ip|;
    assert s == c.ip + "/" + m;
    assert s[k] == '/' && s[k + 1] == m[0];
    assert SlashDigitAt(s, k);
    forall j | k < j < |s|
      ensures !SlashDigitAt(s, j)
    {
      assert s[j] == m[j - k - 1];
    }
    assert s[k + 1..] == m;
    assert s[..k] == c.ip;
    var r := CIDRToIP(s);
    assert r.Some? && |r.value.ip| == k;
    assert LeadingDigits(m, 3) == m;
  }
}

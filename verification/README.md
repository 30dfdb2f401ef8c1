# IPAddress in Dafny

A model of the static `IPAddress` class of `IPAddress.Class.php`. The class
is a small library of IP-address text forms and subnet arithmetic. It covers:

- the `address/prefix` notation of section 3.1 of RFC 4632 (`CIDRToIP`,
  `IPToCIDR`);
- the version test (`GetIPVersion`);
- the IPv6 text forms: full (`IPv6ToFull`), abbreviated
  (`IPv6ToAbbreviation`), flat hexadecimal (`IPv6CNHToHEX`) and a
  sixteen-octet dotted-decimal form (`IPv6CHNToDDN`, `IPv6DDNToCHN`);
- network and host numbers (`GetNetNum`, `GetHostNum`, `GetNetNumCIDR`,
  `GetHostNumCIDR`);
- the matchers `MatchNetNum` and `InNetNum`.

The model follows the PHP code as written, quirks included. A thrown
exception is `Result.Err` with one of three reasons: `FormatError`,
`RangeError` or `TypeError`. The lenient "cannot read it" outcome of the
CIDR helpers is kept apart from exceptions: `CIDRToIP` returns `None`, and
the `...CIDR` wrappers return `Ok("")`.

Modules, in dependency order:

- `Wrappers`: `Option`, `Result` and the error reasons.
- `Strings`: the PHP string helpers `explode`/`implode`, `rtrim`/`ltrim`,
  `str_pad`, `strtoupper`, `str_split(…, 2)`, plus colon removal.
- `Numerals`: `decbin`, `dechex`, `hexdec`, decimal numerals and
  `sprintf('%0Ns')` padding.
- `BitSeq`: 32-bit values as bit sequences, most significant bit first,
  with PHP's `>>`, `<<` and `^`.
- `IPv4Text`: `ip2long` and `long2ip`.
- `CidrCodec`: `GetIPVersion`, `CIDRToIP`, `IPToCIDR`.
- `IPv6Text`: a simplified `IPv6Check`, plus `IPv6ToFull`, `IPv6CNHToHEX`,
  `IPv6CHNToDDN` and `IPv6DDNToCHN`.
- `ZeroRuns`: the reference definition of "the earliest of the longest runs
  of zero groups".
- `IPv6Abbrev`: `IPv6ToAbbreviation`.
- `Subnet`: `GetNetNum`, `GetHostNum` and the two CIDR wrappers.
- `Matcher`: `MatchNetNum` and `InNetNum`.

Pure PHP expressions are Dafny functions. The PHP loops are methods, and
each method is proved equal to a specification function:

- `IPv6ToFull`'s nested `for`;
- the four loops of `IPv6ToAbbreviation` over the `$KeyGroupID` and
  `$KeyLastZreo` counters and the `$KeyArrZero` table;
- `IPv6DDNToCHN`'s pair loop;
- `MatchNetNum`'s `array_push` loop;
- `InNetNum`'s early-return loop.

The properties are lemmas about those specification functions.

Three behaviours of the code that a caller may not expect are modelled as
written:

- `InNetNum` returns `false` at the first sample it cannot read, instead of
  skipping that sample.
- Exceptions thrown by `GetNetNum` inside `MatchNetNum` and `InNetNum` are
  not caught. They reach the caller as `Err`.
- `MatchNetNum()` with no arguments is `false`.

## Model

| member | source | states |
|---|---|---|
| CidrCodec.GetIPVersion | IPAddress.Class.php:209-211 | the version is 6 exactly when the text contains a colon, and 4 exactly when it does not |
| CidrCodec.CIDRToIP | IPAddress.Class.php:59-62 | nothing is read exactly when no `/` is directly followed by a digit; otherwise IP is everything before the last such `/`, and Mask is the value of the one to three digits after it (the rest is ignored), so it lies in [0,999] |
| CidrCodec.CidrRoundTrip | IPAddress.Class.php:59-72 | reading back the printed `IP/Mask` gives back the same IP and Mask for every Mask in [0,999] |
| IPv4Text.Ip2Long | IPAddress.Class.php:88 | `ip2long` succeeds exactly on canonical dotted quads, with a value below 2^32 |
| IPv4Text.Ip2LongOfLong2Ip | IPAddress.Class.php:88-89 | `ip2long(long2ip(v)) == v` for every 32-bit value |
| IPv4Text.Long2IpOfIp2Long | IPAddress.Class.php:88-89 | `long2ip(ip2long(s)) == s` for every canonical dotted quad |
| IPv4Text.Long2IpFields | IPAddress.Class.php:89 | `long2ip` prints the four octets, most significant first, as decimal numerals between dots |
| IPv6Text.FullTextParses | IPAddress.Class.php:241-252 | the full form of an address is itself a valid literal that denotes the same eight groups |
| IPv6Text.FullTextShape | IPAddress.Class.php:246-251 | the full form is eight colon-separated groups of exactly four upper-case hexadecimal digits, each the group's value |
| IPv6Text.FullIdempotent | IPAddress.Class.php:241-252 | expanding a full form again changes nothing |
| IPv6Text.EmittedFull | IPAddress.Class.php:244-251 | the text the PHP loop emits (each field padded to four digits, the first empty field replaced by `9 - count` zero groups, trailing colons trimmed, upper-cased) is the full form of the address the literal denotes |
| IPv6Text.EmitFields | IPAddress.Class.php:244-250 | for any list of fields, the nested loop builds exactly the emitted text: the first empty field becomes `9 - count` zero groups (none when there are more than nine fields), every other field is padded to four digits, and each is followed by a colon |
| IPv6Text.IPv6ToFull | IPAddress.Class.php:241-252 | the loop throws a FormatError for a text that fails the validity check, and otherwise returns the full form |
| IPv6Text.HexForm | IPAddress.Class.php:305-307 | removing the colons from the full form leaves the sixteen octets as two hexadecimal digits each, and splitting that text in pairs gives those octets back |
| IPv6Text.IPv6CNHToHEX | IPAddress.Class.php:305-307 | succeeds exactly on valid literals, giving 32 hexadecimal digits: the address's octets, two digits each |
| IPv6Text.DottedForm | IPAddress.Class.php:316-320 | `hexdec` of each digit pair is the decimal numeral of the corresponding octet |
| IPv6Text.IPv6CHNToDDN | IPAddress.Class.php:316-320 | succeeds exactly on valid literals, giving the sixteen octets of the address as decimal numerals joined by dots |
| IPv6Text.DottedShape | IPAddress.Class.php:316-320 | the dotted form has exactly 16 components, each a canonical numeral in 0..255 |
| IPv6Text.GroupsOfOctets | IPAddress.Class.php:316-338 | splitting the eight groups into sixteen octets and pairing them again gives the groups back |
| IPv6Text.OctetsOfGroups | IPAddress.Class.php:316-338 | pairing sixteen octets into groups and splitting them again gives the octets back |
| IPv6Text.FromDotted | IPAddress.Class.php:329-339 | succeeds exactly when there are 16 components and each is a decimal numeral no larger than `PHP_INT_MAX`; a text with any other number of components throws a FormatError |
| IPv6Text.FromDottedOctets | IPAddress.Class.php:329-339 | reading back the dotted numerals of sixteen octets gives the full form of the address they make |
| IPv6Text.IPv6DDNToCHN | IPAddress.Class.php:329-340 | the pair loop computes exactly what the dotted-to-colon conversion defines, errors included |
| IPv6Text.DottedRoundTrip | IPAddress.Class.php:305-339 | `IPv6DDNToCHN(IPv6CHNToDDN(x)) == IPv6ToFull(x)` for every valid literal |
| ZeroRuns.LongestZeroRunSpec | IPAddress.Class.php:273-289 | there is no run exactly when no group is zero; otherwise the run found is a maximal run of zero groups, no shorter than any other, and the earliest among the longest |
| ZeroRuns.ChosenRunUnique | IPAddress.Class.php:282-285 | the earliest longest run is unique |
| ZeroRuns.SingleZeroIsChosen | IPAddress.Class.php:273-289 | a single zero group, with no other zero group present, is the run chosen |
| IPv6Abbrev.ShortenFull | IPAddress.Class.php:269-272 | the `array_map` closure turns each group of the full form into its shortest upper-case hexadecimal numeral, with `0` for a zero group |
| IPv6Abbrev.MinGroupsWritten | IPAddress.Class.php:269-275 | a shortened group is `0` exactly when its value is zero, and no group is empty or the `:` marker |
| IPv6Abbrev.ScanZeros | IPAddress.Class.php:273-281 | the scan files every zero group under the number of non-zero groups before it, so each maximal zero run gets one entry listing its keys, and it counts all non-zero groups |
| IPv6Abbrev.SelectStep | IPAddress.Class.php:282-285 | one step of the selection keeps the current best and replaces it only by a strictly longer entry |
| IPv6Abbrev.SelectLongest | IPAddress.Class.php:282-285 | the selection loop leaves the keys of the earliest longest zero run |
| IPv6Abbrev.SelectedRun | IPAddress.Class.php:283-285 | a non-empty zero table means that a zero run exists, and the selection yields exactly that run's keys |
| IPv6Abbrev.NoZeroGroup | IPAddress.Class.php:282 | an empty zero table means that no group is zero, so nothing is compressed |
| IPv6Abbrev.Compress | IPAddress.Class.php:286-288 | the last key of the run becomes the `:` marker and the other keys of the run are removed |
| IPv6Abbrev.WriteGroups | IPAddress.Class.php:290-293 | the final loop builds the text defined by the rendering of the remaining entries in key order |
| IPv6Abbrev.RenderCompressed | IPAddress.Class.php:290-293 | with the run from s to e compressed, the text is the groups before s, then `::`, then the groups after e |
| IPv6Abbrev.RenderPlain | IPAddress.Class.php:290-293 | with nothing compressed, the text is the eight groups joined by colons |
| IPv6Abbrev.AbbreviateGroups | IPAddress.Class.php:269-293 | from the shortened groups, the scan, selection, compression and writing loops produce the abbreviation of the address |
| IPv6Abbrev.IPv6ToAbbreviation | IPAddress.Class.php:261-296 | the method throws a FormatError for an invalid literal and otherwise returns the abbreviation of the address |
| IPv6Abbrev.AbbrevRoundTrip | IPAddress.Class.php:261-296 | the abbreviation is a valid literal that denotes the same address |
| IPv6Abbrev.AbbrevGap | IPAddress.Class.php:273-296 | the abbreviation contains a `::` exactly when some group is zero, and the `::` stands for the earliest longest zero run |
| IPv6Abbrev.SingleZeroCompressed | IPAddress.Class.php:273-296 | a lone zero group is still written as `::` |
| IPv6Abbrev.AbbreviationIdempotent | IPAddress.Class.php:241-296 | abbreviating an abbreviation changes nothing, and its full form is the full form of the original literal |
| Subnet.Long | IPAddress.Class.php:88 | `ip2long` as used in arithmetic is always a 32-bit value (`false` counts as 0) |
| Subnet.NetBits | IPAddress.Class.php:88 | the shift pair keeps the first `mask` bits of the 32-bit value and clears the rest |
| Subnet.HostBits | IPAddress.Class.php:134 | the XOR with the network number clears the first `mask` bits and keeps the rest |
| Subnet.V4Values | IPAddress.Class.php:83-89 | for a dotted quad and a mask in [0,32], the network and host numbers are the `long2ip` of the masked value and of its XOR with the address |
| Subnet.NetHostBitsV4 | IPAddress.Class.php:129-135 | the network number has the address's first `mask` bits followed by zeros; the host number has `mask` zeros followed by the address's remaining bits |
| Subnet.NetHostPartitionV4 | IPAddress.Class.php:129-135 | bit by bit, the network and host numbers never overlap, and together they give the address |
| Subnet.NetRangeV4 | IPAddress.Class.php:86-87 | for a text without a colon, `GetNetNum` throws exactly when the mask is outside [0,32], and then with the range error |
| Subnet.HostRangeV4 | IPAddress.Class.php:132-133 | for a text without a colon, `GetHostNum` throws exactly when the mask is outside [0,32], and then with the range error |
| Subnet.NetMaskRange | IPAddress.Class.php:86-93 | `GetNetNum` throws the range error exactly when the mask is outside [0,128] for a text with a colon, or outside [0,32] otherwise |
| Subnet.HostMaskRange | IPAddress.Class.php:132-139 | `GetHostNum` throws the range error exactly when the mask is outside [0,128] for a text with a colon, or outside [0,32] otherwise |
| Subnet.SameNetV4 | IPAddress.Class.php:88-89 | two dotted quads get the same network number under a mask in [0,32] exactly when their first `mask` bits agree |
| Subnet.V4Boundaries | IPAddress.Class.php:83-89 | mask 32 gives the address as its own network number, mask 0 gives it as its own host number, and the other two results are `0.0.0.0` |
| Subnet.HostBinaryV4 | IPAddress.Class.php:134-135 | the binary host number is the 32 bits of the host value, padded on the left |
| Subnet.NetBinaryShapeV4 | IPAddress.Class.php:88-89 | the binary network number is 32 characters of `0` and `1`, starting with the `decbin` digits of the value |
| Subnet.NetBinaryPaddedRight | IPAddress.Class.php:89 | when the network value is positive and below 2^31, the binary network number is not its 32-bit binary encoding |
| Subnet.NetBinaryTenSlashEight | IPAddress.Class.php:89 | for `10.0.0.0` with mask 8, the binary network number differs from the corrected one |
| Subnet.NetBinary | IPAddress.Class.php:85-89 | the corrected binary network number: it throws exactly for a mask outside [0,32], and is otherwise the first `mask` address bits followed by zeros |
| Subnet.V6Whole | IPAddress.Class.php:92-95 | at mask 128 both numbers are the text upper-cased, neither expanded nor checked |
| Subnet.V6Invalid | IPAddress.Class.php:96 | a text with a colon that fails the validity check throws a FormatError for every mask below 128 |
| Subnet.V6NetText | IPAddress.Class.php:96-101 | the network number is the dotted-to-colon conversion of the octets before the boundary block, then that block masked as IPv4, then zeros |
| Subnet.V6HostText | IPAddress.Class.php:142-147 | the host number is the dotted-to-colon conversion of zeros, then the boundary block's IPv4 host number, then the octets after it |
| Subnet.V6OuterMasks | IPAddress.Class.php:96-101 | for masks 0–31 and 96–127 the glued dotted text has 17 components, so both numbers throw a FormatError |
| Subnet.NetOctetsBits | IPAddress.Class.php:96-101 | the network octets are the address's first `mask` bits followed by zeros |
| Subnet.HostOctetsBits | IPAddress.Class.php:142-147 | the host octets are `mask` zeros followed by the address's remaining bits |
| Subnet.V6MiddleMasks | IPAddress.Class.php:96-101 | for masks 32–95 the network and host numbers are the full forms of those octets, so together they split the 128 bits at the mask |
| Subnet.NetCidrUnreadable | IPAddress.Class.php:115-118 | an unreadable CIDR text gives `''` from `GetNetNumCIDR` |
| Subnet.HostCidrUnreadable | IPAddress.Class.php:162-165 | an unreadable CIDR text gives `''` from `GetHostNumCIDR` |
| Subnet.NetCidrPrinted | IPAddress.Class.php:115-118 | a printed `IP/Mask` gives `GetNetNumCIDR` the result of the plain `GetNetNum` call |
| Subnet.HostCidrPrinted | IPAddress.Class.php:162-165 | a printed `IP/Mask` gives `GetHostNumCIDR` the result of the plain `GetHostNum` call |
| Matcher.NetNums | IPAddress.Class.php:174-178 | one network number per argument, unless a call throws |
| Matcher.MatchNetNum | IPAddress.Class.php:174-179 | the loop computes exactly the defined match result, including the first exception |
| Matcher.UniqueOne | IPAddress.Class.php:178 | `count(array_unique(l)) == 1` holds exactly when the list is non-empty and all its entries equal the first |
| Matcher.MatchesTrue | IPAddress.Class.php:174-179 | the match is true exactly when no call throws, there is at least one argument, and all the network numbers are equal |
| Matcher.MatchesNone | IPAddress.Class.php:178 | no arguments give false |
| Matcher.MatchesTwo | IPAddress.Class.php:174-179 | two arguments match exactly when their network numbers are equal, and the first exception is the result |
| Matcher.MatchesUnreadable | IPAddress.Class.php:115-118 | two texts without any `/digit` match, because both network numbers are `''` |
| Matcher.MatchesPairs | IPAddress.Class.php:174-179 | two {IP, Mask} pairs match exactly when `GetNetNum` gives both the same network number |
| Matcher.InNetNum | IPAddress.Class.php:189-201 | the loop computes exactly the defined membership result |
| Matcher.InNetStep | IPAddress.Class.php:191-199 | the first sample decides on a hit; a sample that does not stop the loop passes the question on to the rest |
| Matcher.InNetTrue | IPAddress.Class.php:189-201 | the result is true exactly when some sample matches and every earlier sample was readable, not broader than the template and not matching |
| Matcher.InNetStops | IPAddress.Class.php:192-195 | an unreadable first sample, or one whose Mask is below the template's, makes the result false whatever follows |
| Matcher.ProbeTemplate | IPAddress.Class.php:196-197 | with a readable template, the probe matches exactly when the template and the sample have the same network number under the template's mask |
| Matcher.HitV4 | IPAddress.Class.php:192-197 | for dotted-quad template and sample, a sample stops the loop with true exactly when its Mask is not below the template's and their first template-Mask bits agree, and passes on exactly when the Mask is not below and the bits differ |
| Matcher.MatchesV4 | IPAddress.Class.php:174-179 | two dotted-quad pairs with the same mask match exactly when their leading `mask` bits agree |
| Matcher.InNetTenExample | IPAddress.Class.php:189-201 | `10.1.2.3/32` lies in `10.0.0.0/8` |
| Matcher.InNetBroaderExample | IPAddress.Class.php:194-195 | a sample `10.1.2.3/8` against the template `10.0.0.0/24` is broader and gives false |
| Matcher.MatchNet192Example | IPAddress.Class.php:174-179 | `192.168.1.1/24` and `192.168.1.254/24` match |
| Matcher.InNetUnreadableTemplate | IPAddress.Class.php:190-197 | with an unreadable template, a first sample whose IP has no `/digit` gives true |
| Matcher.InNetGarbageTemplate | IPAddress.Class.php:190-197 | `InNetNum("garbage", {IP: "10.0.0.1", Mask: 8})` is true |
| Matcher.InNetIntended | IPAddress.Class.php:189-201 | the corrected membership test: false for an unreadable template, otherwise true exactly when some sample matches and every earlier sample was readable, not broader and not matching |

## Left out

- `GetClientIP` and `GetServerIP` (IPAddress.Class.php:7-34) read the environment and `$_SERVER`. That is input, not computation.
- `GetIPInfo` (IPAddress.Class.php:42-51) is an HTTP client (`curl`, `json_decode`).
- `IPv4Check` (IPAddress.Class.php:219-221) wraps `filter_var`, and the modelled operations do not call it.
- IPv6Text.IPv6Check: it stands for the `filter_var` call at IPAddress.Class.php:230-232, as a simplified grammar. A literal is eight groups of 1–4 hexadecimal digits, or one `::` with at most seven written groups. Embedded IPv4 tails, zone identifiers and any other literal `filter_var` judges differently are not modelled.
- The regular expressions are modelled by their effect, not by a regex engine. `CIDRToIP` splits at the last `/` followed by a digit and reads up to three digits. `IPv6CNHToHEX` removes every colon.
- IPv6Text.FromDotted: a field that is not a non-empty run of ASCII digits with a value of at most `PHP_INT_MAX` is modelled as a `TypeError`. PHP 8 passes `dechex` some other fields without throwing, and the model does not: leading-numeric fields such as `12abc`, which become the number they start with plus a warning, and numeric strings with surrounding whitespace, a sign, a fraction or an exponent. For those, the model throws where PHP returns a text. Digit runs above `PHP_INT_MAX` are float strings, and `dechex` refuses them with a `TypeError`, as the model does.
- Matcher.Arg: an argument is either a string or an {IP, Mask} array with a string IP and an integer Mask. Not modelled:
  - arrays missing either key;
  - non-integer masks;
  - arguments of other PHP types;
  - the warnings PHP prints for undefined keys (only the values they produce).
- Exception messages are left out; the three `Error` reasons stand in for them.
- PHP integers are taken to be 64 bits wide, so `ip2long($IP) >> 32` is 0. The 32-bit build of PHP is not modelled.
- IPv6Text.IPv6ToFull: the nested `for` is a separate method, `IPv6Text.EmitFields`, that `IPv6ToFull` calls on the split fields.
- IPv6Abbrev: the single PHP function body is split into four methods, one per loop. The addresses they work on are passed as ghost parameters.

## Findings

| source | as written | input that shows it | evidently intended | confidence | as-written member | corrected member |
|---|---|---|---|---|---|---|
| IPAddress.Class.php:89 | the binary network number pads `decbin` with zeros on the right (`STR_PAD_RIGHT`), so the leading zero bits of a value below 2^31 move to the end | `GetNetNum('10.0.0.0', 8, true)` gives `10100000000000000000000000000000`, the bits of 160.0.0.0 | the 32-bit binary form of the network number, `00001010000000000000000000000000`, padded on the left as `GetHostNum` does at line 135 | low, not executed (a right-padded display may be deliberate) | Subnet.NetBinaryPaddedRight | Subnet.NetBinary |
| IPAddress.Class.php:190-197 | a template text that `CIDRToIP` cannot read becomes an empty array. `$Template['Mask']` is then `null`, so no sample is broader. `MatchNetNum` compares `'/'` with the sample's IP followed by `/`, and both of those give `''` | `InNetNum('garbage', ['IP' => '10.0.0.1', 'Mask' => 8])` is true | false for an unreadable template, since no network contains the sample | medium, not executed | Matcher.InNetGarbageTemplate | Matcher.InNetIntended |

# IP address utilities of the locate extension, in Dafny

This project models `Bitmotion\Locate\Tools\IP`, a static class of address
helpers that the locate TYPO3 extension took from TYPO3's `t3lib_div`. The
class answers four kinds of question about an address:

- Is it a valid IPv4 or IPv6 address? (`isValid`, `isValidIPv4`,
  `_testInt`, `isValidIPv6`)
- Does it match a comma-separated list of patterns? (`compare`, with
  `compareIPv4`, `compareIPv6`, `normalizeIPv6` and `IPv6Hex2Bin`)
- Does its host name match a list of name patterns? (`compareFQDN`)
- Is it in one of the built-in "local" prefixes? (`isLocal`)

The model has four modules:

- `Php` (php.dfy) models the PHP library functions the class calls, with
  their edge cases:
  - `explode` (leftmost, non-overlapping) and `implode`;
  - `trim`;
  - `intval`: leading whitespace, optional sign, longest digit run,
    saturated at 64 bits;
  - `strval`;
  - `str_repeat` and `str_pad`;
  - `substr`, including negative lengths;
  - `decbin`, `hexdec`, `chr` and one-character `str_replace`;
  - the framework helper `GeneralUtility::trimExplode`.
- `IPv6` (ipv6.dfy) models isValidIPv6, normalizeIPv6, IPv6Hex2Bin and
  compareIPv6.
  - isValidIPv6 is a recogniser over the `:`-separated pieces of the
    address. It is proved equivalent to the source's regular expression,
    which is modelled alternative by alternative.
  - normalizeIPv6 is a method with the source's loops. It is proved to
    produce the eight expanded groups, each padded to four digits.
- `IPv4` (ipv4.dfy) models these:
  - `_testInt` and isValidIPv4;
  - `ip2long`, read as a strict dotted quad; a failure (`false`) counts
    as 0;
  - the 32-character binary text that compareIPv4 builds;
  - the wildcard segment loop, shared with compareFQDN;
  - compareIPv4 itself;
  - isLocal with its three prefix tables.
- `IP` (ip.dfy) models the dispatchers `compare` and `isValid`, and
  `compareFQDN`.

Each loop of the source is a method proved against a specification
predicate or function, for example:

- `CompareIPv4` ⇔ `ListMatches`;
- `NormalizeIPv6` == `NormalForm`;
- `IPv6Hex2Bin` == `DecodeHex`.

The properties the class promises are lemmas about those specifications.
Host-name lookup is the only outside input. `gethostbyaddr($baseIP)` in
compareFQDN becomes the parameter `hostName` of `IP.CompareFQDN`.

## Model

| member | source | states |
|---|---|---|
| IP.IsValid | Classes/Tools/IP.php:242-249 | isValid: without a ':' the address goes to isValidIPv4, otherwise to isValidIPv6 |
| IP.IsValidIff | Classes/Tools/IP.php:242-249 | isValid accepts an address exactly when isValidIPv4 or isValidIPv6 accepts it: the dispatch on ':' sends no valid address to the wrong test |
| IP.IPv4HasNoColon | Classes/Tools/IP.php:244-245 | an address isValidIPv4 accepts contains no ':' |
| IP.IPv6HasColon | Classes/Tools/IP.php:246-247 | an address isValidIPv6 accepts contains a ':' |
| IP.Compare | Classes/Tools/IP.php:26-39 | compare is true exactly when the trimmed list is "*", or is non-empty and admits the base: by compareIPv6 when the base has ':' and is valid IPv6, otherwise by compareIPv4 |
| IP.SelfMatch | Classes/Tools/IP.php:26-39 | every valid IPv4 address matches the list holding only itself with a mask from 0 to 32 |
| IP.BlankListRejects | Classes/Tools/IP.php:28-30 | a list made only of blanks admits no base |
| IP.CompareDispatch | Classes/Tools/IP.php:34-38 | for a list other than "" and "*", a valid IPv6 base is judged by the IPv6 list semantics and a valid IPv4 base by the IPv4 list semantics |
| IP.CompareFQDN | Classes/Tools/IP.php:293-315 | true exactly when the base has four '.' parts and some non-empty trimmed entry matches the host name label by label, "*" matching any label |
| IP.FqdnSkipsEmptyEntries | Classes/Tools/IP.php:297-312 | dropping empty entries loses nothing: compareFQDN is true exactly when some non-empty entry of the trimmed list matches |
| IPv6.IsValidIPv6 | Classes/Tools/IP.php:49-64 | isValidIPv6: the ':' pieces are eight groups, or groups around one "::" in a position and count one of the six compressed alternatives allows |
| IPv6.ValidIffMatchesRegex | Classes/Tools/IP.php:49-64 | the piece-wise recogniser accepts exactly the addresses the seven-alternative regular expression matches after strtoupper |
| IPv6.ValidMatchesRegex | Classes/Tools/IP.php:53-63 | every accepted address matches one of the seven alternatives |
| IPv6.RegexMatchValid | Classes/Tools/IP.php:53-63 | every address that matches an alternative is accepted |
| IPv6.RegexAlternativeAllowed | Classes/Tools/IP.php:55-60 | the six "::" alternatives allow exactly these group counts: at most five groups before "::", at least one after it (two when one to four precede it), and at most seven in all |
| IPv6.GroupsAreRegexGroups | Classes/Tools/IP.php:51-54 | a group is one to four characters of the class [\dA-F] after upper-casing, which is the case-insensitive hexadecimal test |
| IPv6.RejectsTwoOne | Classes/Tools/IP.php:56 | "2001:db8::1" is rejected: two groups before "::" need at least two after it |
| IPv6.RejectsTrailing | Classes/Tools/IP.php:53-61 | every address ending in "::" is rejected, the bare "::" included: none of the seven alternatives ends in "::" |
| IPv6.AcceptsDocumentedExample | Classes/Tools/IP.php:44 | the documented example "43FB::BB3F:A0A0:0" is accepted |
| IPv6.AcceptsLoopback | Classes/Tools/IP.php:60 | "::1" is accepted |
| IPv6.ExplodeDoubleColon | Classes/Tools/IP.php:123-124 | explode('::') gives two pieces exactly when the address has "::", namely the text before it and the text after it; otherwise it gives the address whole |
| IPv6.ChunkCounts | Classes/Tools/IP.php:125-133 | $left and $right count the groups on each side of "::", and a leading "::" makes $left 0 |
| IPv6.ExpandChunks | Classes/Tools/IP.php:125-147 | the text built around the hidden "0000:" blocks reads back through explode(':') as the left groups, the hidden zero groups and the right groups |
| IPv6.StageOne | Classes/Tools/IP.php:123-150 | explode(':') of the first-stage text is the eight expanded groups of the address |
| IPv6.BlockStep | Classes/Tools/IP.php:155-167 | one block step appends the padded block and, before the eighth block, a ':' |
| IPv6.NormalizeIPv6 | Classes/Tools/IP.php:119-170 | the result is the normal form: the eight expanded groups, each left-padded with '0' to four digits and joined by ':' |
| IPv6.NormalFormShape | Classes/Tools/IP.php:119-170 | the normal form is 39 characters long and made of eight four-digit groups |
| IPv6.NormalFormIdempotent | Classes/Tools/IP.php:119-170 | the normal form is a valid address, and normalising it again changes nothing |
| IPv6.IPv6Hex2Bin | Classes/Tools/IP.php:178-188 | the result is the colon-free text read two characters at a time through hexdec and chr |
| IPv6.DecodeNormalForm | Classes/Tools/IP.php:178-188 | decoding a normal form gives 16 bytes: the eight words of the address, high byte first |
| IPv6.SameBytesIffSameWords | Classes/Tools/IP.php:100-102 | two valid addresses decode to the same bytes exactly when they have the same eight words |
| IPv6.DecodedComparisons | Classes/Tools/IP.php:84-103 | each of the /48, /64 and full comparisons is equality of the eight words: the first 48 or 64 bytes of a 16-byte string are all of it |
| IPv6.TestEntry | Classes/Tools/IP.php:80-105 | one entry admits the base exactly when its address is valid, its mask is read as 0 or is "48" or "64", and its words equal the base's words |
| IPv6.CompareIPv6 | Classes/Tools/IP.php:73-111 | true exactly when some trimmed entry of the list admits the base |
| IPv4.TestInt | Classes/Tools/IP.php:281-284 | _testInt: the text equals strval of its intval |
| IPv4.TestIntIff | Classes/Tools/IP.php:281-284 | _testInt holds exactly for the strval rendering of a 64-bit integer |
| IPv4.TestIntShape | Classes/Tools/IP.php:281-284 | _testInt refuses the empty text, blanks, '+' and leading zeros, after a '-' too ("-0", "-05"): only digits with at most a leading '-' pass |
| IPv4.IsValidIPv4 | Classes/Tools/IP.php:259-272 | isValidIPv4 as written: four '.' parts, each passing _testInt, and the range tests all read the first part |
| IPv4.ValidIPv4Iff | Classes/Tools/IP.php:259-272 | isValidIPv4 accepts exactly four 64-bit integers in decimal joined by '.', the first from 1 to 255 and the others of any value |
| IPv4.ValidIsQuad | Classes/Tools/IP.php:261-266 | an accepted address is the dotted rendering of the intval of its four parts |
| IPv4.QuadIsValid | Classes/Tools/IP.php:261-266 | every such rendering with a first part from 1 to 255 is accepted |
| IPv4.AcceptsOutOfRangeParts | Classes/Tools/IP.php:264-266 | "1.999.-3.7" is accepted, because parts 1 to 3 are never range-checked |
| IPv4.RejectsZeroFirstPart | Classes/Tools/IP.php:263 | "0.1.2.3" is rejected: the first part must be at least 1 |
| IPv4.RejectsLeadingZero | Classes/Tools/IP.php:283 | "10.01.2.3" is rejected: "01" is not the rendering of its intval |
| IPv4.StrictValidIff | Classes/Tools/IP.php:262-266 | the intended test accepts exactly the dotted quads with a first part from 1 to 255 and the others from 0 to 255 |
| IPv4.StrictRejectsWideSecond | Classes/Tools/IP.php:264 | the intended test rejects every quad whose second part is above 255 |
| IPv4.StrictRejectsOutOfRangeParts | Classes/Tools/IP.php:264 | the intended test rejects "1.999.-3.7" |
| IPv4.Ip2Long | Classes/Tools/IP.php:208-209 | ip2long: a dotted quad of octets from 0 to 255 without leading zeros gives its 32-bit value, below 2^32; anything else fails |
| IPv4.DecBinBits | Classes/Tools/IP.php:210 | decbin writes v as its binary digits without leading zeros |
| IPv4.PaddedBinary | Classes/Tools/IP.php:210-212 | str_pad(decbin(v), 32, '0') is the 32-bit binary text of v |
| IPv4.BitsInjective | Classes/Tools/IP.php:210-214 | two values below 2^n have the same n-bit text exactly when they are equal |
| IPv4.PrefixTextIffTopBits | Classes/Tools/IP.php:208-214 | the two substr prefixes agree exactly when the two ip2long values agree in their top PrefixLength(mask) bits |
| IPv4.PrefixMask | Classes/Tools/IP.php:206-214 | for a mask from 1 to 32, an entry admits the base exactly when ip2long of both agree after dropping the low 32 - mask bits |
| IPv4.WideMaskIsEquality | Classes/Tools/IP.php:211-213 | for a mask of 32 or more, an entry admits the base exactly when the two ip2long values are equal |
| IPv4.NegativeMask | Classes/Tools/IP.php:211-213 | a mask from -31 to -1 keeps all but the last -mask characters, so it compares the values without their low -mask bits |
| IPv4.VeryNegativeMask | Classes/Tools/IP.php:211-213 | a mask of -32 or less keeps nothing, so every base is admitted |
| IPv4.MatchSegments | Classes/Tools/IP.php:217-224 | the segment loop is true exactly when every trimmed pattern segment is "*" or equals the target's segment at its index, a missing target segment reading as "" |
| IPv4.ShortPatternIsWildcard | Classes/Tools/IP.php:194 | a pattern shorter than the target matches exactly when it matches once padded with "*" segments |
| IPv4.StarMatchesAll | Classes/Tools/IP.php:221 | the single segment "*" matches every target |
| IPv4.SegmentPastEnd | Classes/Tools/IP.php:221 | a matching segment past the end of the target is "*" or blank |
| IPv4.TestEntry | Classes/Tools/IP.php:204-225 | one entry admits the base exactly as TestMatches says: by prefix bits when intval of the mask is non-zero, and by segments otherwise |
| IPv4.EntrySelfMatch | Classes/Tools/IP.php:204-225 | a valid address is admitted by the entry of itself with any mask from 0 to 32: the same prefix bits or the same segments |
| IPv4.CompareIPv4 | Classes/Tools/IP.php:197-232 | true exactly when the base has four '.' parts and some trimmed entry admits it |
| IPv4.StarEntryMatches | Classes/Tools/IP.php:217-224 | the list "*" admits every base with four parts |
| IPv4.PlainEntry | Classes/Tools/IP.php:204-206 | an entry without '/' has an empty mask, which intval reads as 0, so it is matched segment by segment |
| IPv4.SinglePlainList | Classes/Tools/IP.php:201-225 | a list holding one plain entry matches exactly when that entry's segments match |
| IPv4.PlainListSegments | Classes/Tools/IP.php:201-225 | a list of plain segments joined by '.' matches exactly when those segments match |
| IPv4.OmittedPartsMatchAll | Classes/Tools/IP.php:194 | one to four plain segments admit the same bases as those segments padded with "*" to four parts |
| IPv4.OmittedPartsAreWildcards | Classes/Tools/IP.php:194 | the documented example: "192.168" admits the same bases as "192.168.*.*" |
| IPv4.FirstTable | Classes/Tools/IP.php:335-337 | the first table holds the 256 texts "1.k" for k from 0 to 255, the leading number being a parameter |
| IPv4.SecondTable | Classes/Tools/IP.php:340-342 | the second table holds the 16 texts "172.k" for k from 16 to 31 |
| IPv4.InFirstTable | Classes/Tools/IP.php:335-337 | a prefix of two _testInt parts is in the first table exactly when the first part is its leading number and the second is from 0 to 255 |
| IPv4.InSecondTable | Classes/Tools/IP.php:340-342 | a prefix is in the second table exactly when it is 172 and 16 to 31 |
| IPv4.InThirdTable | Classes/Tools/IP.php:345 | a prefix is in the third table exactly when it is 192.168 or 127.0 |
| IPv4.LocalTable | Classes/Tools/IP.php:348-354 | the prefix of a valid address is in the merged table exactly when its first two parts satisfy LocalPrefix |
| IPv4.LocalWith | Classes/Tools/IP.php:324-358 | true exactly when the address is valid IPv4 and its first two parts are in one of the three tables |
| IPv4.IsLocal | Classes/Tools/IP.php:324-358 | isLocal as written: valid IPv4 with a prefix in 1.0-1.255, 172.16-172.31, 192.168 or 127.0 |
| IPv4.LocalTableAsWritten | Classes/Tools/IP.php:335-337 | as written, "1.200.3.4" is local and "10.0.0.1" is not |
| IPv4.IsLocalPrivate | Classes/Tools/IP.php:334 | isLocal with the first table read as the comment's 10.x range |
| IPv4.PrivateTable | Classes/Tools/IP.php:334 | with the 10.x table, "10.0.0.1" is local and "1.200.3.4" is not |
| Php.JoinExplode | Classes/Tools/IP.php:123 | explode loses nothing: joining its pieces with the separator gives the input back |
| Php.ExplodeJoin | Classes/Tools/IP.php:153 | exploding parts joined by d gives the parts back when none of them holds d |
| Php.TrimSpec | Classes/Tools/IP.php:28 | trim returns the slice of its input between a blank prefix and a blank suffix, with no blank at either end of it, and leaves such a text unchanged |
| Php.TrimExplodeSpec | Classes/Tools/IP.php:78 | trimExplode trims every piece of explode and keeps them all, or keeps exactly the non-empty ones when asked to remove empties |
| Php.IntVal | Classes/Tools/IP.php:283 | intval of a string: leading whitespace, an optional sign and the longest digit run, saturated to the 64-bit range |
| Php.IntValDec | Classes/Tools/IP.php:283 | intval reads back every 64-bit integer that strval writes |
| Php.DecSpec | Classes/Tools/IP.php:283 | strval writes digits with a '-' first exactly for negative numbers, and no leading zero except in "0" |
| Php.LeadingDigitsSpec | Classes/Tools/IP.php:206 | the digits intval reads are the longest digit prefix of the text |
| Php.PadLeftSpec | Classes/Tools/IP.php:210 | str_pad to the left keeps the text at the end and fills the front with the pad character |
| Php.Substr | Classes/Tools/IP.php:211 | substr($s, 0, $n) is a prefix of $s: n characters for n >= 0 (clipped to the length), and all but the last -n for n < 0 |
| Php.RemoveCharJoin | Classes/Tools/IP.php:181 | removing ':' from groups joined by ':' gives the groups concatenated |

## Left out

- getUserIpAsLong and getUserIp (lines 367-380) read the request environment (REMOTE_ADDR); they are not modelled.
- IP.CompareFQDN: the DNS lookup gethostbyaddr is not modelled; its answer is the parameter hostName.
- AbstractFactProvider.php and TYPO3's GeneralUtility are not part of this model. trimExplode is modelled from its documented behaviour: explode, trim every piece, drop empty pieces on request.
- IPv4.IsLocal: in_array (line 354) compares loosely, and two numeric strings compare as numbers. So PHP also reports prefixes such as "172.160", "192.1680" and "1.2550" as local ("172.160" == "172.16"). It also calls the public ranges 172.2.x.x and 172.3.x.x local ("172.2" == "172.20", "172.3" == "172.30"). The model compares the texts exactly.
- IPv6.TestEntry: the switch on the mask (line 84) compares loosely. PHP would also take " 48" or "48.0" as "48"; the model takes only the exact texts "48" and "64".
- IPv4.TestEntry: str_pad is called with the string 'STR_PAD_LEFT' as its pad type (lines 210 and 212). PHP 7 returns null there, so both padded texts and both substr prefixes are "", and every entry whose mask intval reads as non-zero admits every base. PHP 8 throws. The model uses the intended left padding.
- IPv4.TestEntry: the mask text is given to substr; the model reads it through intval, as PHP does for the numeric masks that reach substr.
- IPv4.TestEntry: intval's float forms ("1e1" read as 10) are not modelled. intval reads only the leading digits.
- IPv6.TestEntry: the mask at line 83 is read by intval in the same way, so its float forms are not modelled either: PHP reads "1e-1" as 0 and "0.5e2" as 50, the model reads them as 1 and 0.
- IPv6.ValidIffMatchesRegex: PCRE's `$` also matches before a final newline, so PHP accepts "::1\n". The model rejects it.
- IPv6.NormalizeIPv6: requires a valid address. The source calls it only on addresses isValidIPv6 has accepted (lines 34, 76, 81-82).
- IPv6.CompareIPv6: requires a valid base. compare calls it only for one (line 34).
- The IPv6 text is modelled as characters and the decoded address as bytes. strtoupper is modelled as a case-insensitive digit class, which is what it amounts to for ASCII.
- isLocal's tables are modelled as sequences. The keys array_merge gives them do not matter to in_array.
- Negative masks in compareIPv4 follow PHP's substr with a negative length.

## Findings

The main model keeps what the code does. `IP.IsValidIff`, `IP.Compare` and `IPv4.IsLocal` use isValidIPv4 as written and the first local table as written. Each corrected definition is kept beside its as-written one, with the intended property proved.

| source | as written | input that shows it | evidently intended | confidence | as-written member | corrected member |
|---|---|---|---|---|---|---|
| Classes/Tools/IP.php:264-266 | the range tests for parts 1 to 3 test `$parts[0]` again | "1.999.-3.7" is accepted | every later part from 0 to 255 | high; not executed | IPv4.AcceptsOutOfRangeParts | IPv4.StrictValidIff |
| Classes/Tools/IP.php:334-337 | the first local table holds "1.0" to "1.255", while its comment names a range ending at 10.255.255.255 | "10.0.0.1" is not local and "1.200.3.4" is | the private range 10.0.0.0/8 | medium; not executed | IPv4.LocalTableAsWritten | IPv4.PrivateTable |

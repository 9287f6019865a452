/** The IPv4 half of the address utilities: the validator isValidIPv4 with
    its helper _testInt, the list matcher compareIPv4 with its wildcard and
    prefix cases, the label matcher shared with compareFQDN, and isLocal. */
module IPv4 {
  import opened Php

  datatype Option<T> = None | Some(value: T)

  // ---------------------------------------------------------------------
  // _testInt and isValidIPv4
  // ---------------------------------------------------------------------

  /** _testInt($var): the text equals the decimal rendering of its own intval. */
  predicate TestInt(s: string)
  {
    s == Dec(IntVal(s))
  }

  /** _testInt accepts exactly the renderings of the 64-bit integers. */
  lemma TestIntIff(s: string)
    ensures TestInt(s) <==> exists i :: IntMin <= i <= IntMax && s == Dec(i)
  {
    if exists i :: IntMin <= i <= IntMax && s == Dec(i) {
      var i :| IntMin <= i <= IntMax && s == Dec(i);
      IntValDec(i);
    }
  }

  /** isValidIPv4($ip). The range tests of lines 264-266 read $parts[0]
      again, so only the first part is range-checked. Once _testInt holds a
      part is a numeric string, and PHP compares it with an integer by its
      value, which is intval of it. */
  predicate IsValidIPv4(ip: string)
  {
    var parts := Explode(ip, ".");
    && |parts| == 4
    && TestInt(parts[0]) && 1 <= IntVal(parts[0]) < 256
    && TestInt(parts[1]) && 0 <= IntVal(parts[0]) < 256
    && TestInt(parts[2]) && 0 <= IntVal(parts[0]) < 256
    && TestInt(parts[3]) && 0 <= IntVal(parts[0]) < 256
  }

  predicate IsInt64(i: int)
  {
    IntMin <= i <= IntMax
  }

  /** Four integers written in decimal and joined by dots. */
  function Quad(a: int, b: int, c: int, d: int): string
  {
    Join([Dec(a), Dec(b), Dec(c), Dec(d)], ".")
  }

  lemma DecHasNoSeparator(i: int)
    ensures '.' !in Dec(i) && ':' !in Dec(i) && ',' !in Dec(i) && '/' !in Dec(i)
  {
    DecSpec(i);
  }

  lemma ExplodeQuad(a: int, b: int, c: int, d: int)
    ensures Explode(Quad(a, b, c, d), ".") == [Dec(a), Dec(b), Dec(c), Dec(d)]
  {
    var ps := [Dec(a), Dec(b), Dec(c), Dec(d)];
    DecHasNoSeparator(a);
    DecHasNoSeparator(b);
    DecHasNoSeparator(c);
    DecHasNoSeparator(d);
    assert forall i :: 0 <= i < 4 ==> '.' !in ps[i];
    ExplodeJoin(ps, '.');
  }

  /** isValidIPv4 accepts exactly four 64-bit integers written in decimal
      and joined by dots, the first between 1 and 255: no leading zero,
      no '+', no blank, but "-5" as a later part is fine. */
  lemma ValidIPv4Iff(ip: string)
    ensures IsValidIPv4(ip) <==>
      exists a, b, c, d :: 1 <= a <= 255 && IsInt64(b) && IsInt64(c) && IsInt64(d) && ip == Quad(a, b, c, d)
  {
    if IsValidIPv4(ip) {
      var ps := Explode(ip, ".");
      ValidIsQuad(ip);
      assert ip == Quad(IntVal(ps[0]), IntVal(ps[1]), IntVal(ps[2]), IntVal(ps[3]));
    }
    if exists a, b, c, d :: 1 <= a <= 255 && IsInt64(b) && IsInt64(c) && IsInt64(d) && ip == Quad(a, b, c, d) {
      var a, b, c, d :| 1 <= a <= 255 && IsInt64(b) && IsInt64(c) && IsInt64(d) && ip == Quad(a, b, c, d);
      QuadIsValid(a, b, c, d);
    }
  }

  lemma ValidIsQuad(ip: string)
    requires IsValidIPv4(ip)
    ensures var ps := Explode(ip, ".");
      ip == Quad(IntVal(ps[0]), IntVal(ps[1]), IntVal(ps[2]), IntVal(ps[3]))
  {
    var ps := Explode(ip, ".");
    JoinExplode(ip, ".");
    JoinRenderings(ps, IntVal(ps[0]), IntVal(ps[1]), IntVal(ps[2]), IntVal(ps[3]));
  }

  lemma JoinRenderings(ps: seq<string>, a: int, b: int, c: int, d: int)
    requires |ps| == 4 && ps[0] == Dec(a) && ps[1] == Dec(b) && ps[2] == Dec(c) && ps[3] == Dec(d)
    ensures Join(ps, ".") == Quad(a, b, c, d)
  {
    assert ps == [Dec(a), Dec(b), Dec(c), Dec(d)];
  }

  lemma QuadIsValid(a: int, b: int, c: int, d: int)
    requires 1 <= a <= 255 && IsInt64(b) && IsInt64(c) && IsInt64(d)
    ensures IsValidIPv4(Quad(a, b, c, d))
  {
    ExplodeQuad(a, b, c, d);
    IntValDec(a);
    IntValDec(b);
    IntValDec(c);
    IntValDec(d);
  }

  /** isValidIPv4 with the range test applied to each part in turn, as
      the repeated tests of lines 263-266 evidently intend. */
  predicate IsValidIPv4Strict(ip: string)
  {
    var parts := Explode(ip, ".");
    && |parts| == 4
    && TestInt(parts[0]) && 1 <= IntVal(parts[0]) < 256
    && TestInt(parts[1]) && 0 <= IntVal(parts[1]) < 256
    && TestInt(parts[2]) && 0 <= IntVal(parts[2]) < 256
    && TestInt(parts[3]) && 0 <= IntVal(parts[3]) < 256
  }

  /** The intended test accepts exactly the dotted quads of four numbers
      written in decimal, the first from 1 to 255 and the rest from 0 to 255. */
  lemma StrictValidIff(ip: string)
    ensures IsValidIPv4Strict(ip) <==>
      exists a, b, c, d :: 1 <= a <= 255 && 0 <= b <= 255 && 0 <= c <= 255 && 0 <= d <= 255 && ip == Quad(a, b, c, d)
  {
    if IsValidIPv4Strict(ip) {
      var ps := Explode(ip, ".");
      assert IsValidIPv4(ip);
      ValidIsQuad(ip);
      assert ip == Quad(IntVal(ps[0]), IntVal(ps[1]), IntVal(ps[2]), IntVal(ps[3]));
    }
    if exists a, b, c, d :: 1 <= a <= 255 && 0 <= b <= 255 && 0 <= c <= 255 && 0 <= d <= 255 && ip == Quad(a, b, c, d) {
      var a, b, c, d :| 1 <= a <= 255 && 0 <= b <= 255 && 0 <= c <= 255 && 0 <= d <= 255 && ip == Quad(a, b, c, d);
      QuadIsValid(a, b, c, d);
      ExplodeQuad(a, b, c, d);
      IntValDec(b);
      IntValDec(c);
      IntValDec(d);
    }
  }

  /** Only the first part is range-checked; a negative part passes. */
  lemma AcceptsOutOfRangeParts()
    ensures IsValidIPv4("1.999.-3.7")
  {
    ExampleQuadText();
    QuadIsValid(1, 999, -3, 7);
  }

  /** The intended test rejects it: its second part is 999. */
  lemma StrictRejectsOutOfRangeParts()
    ensures !IsValidIPv4Strict("1.999.-3.7")
  {
    ExampleQuadText();
    StrictRejectsWideSecond(1, 999, -3, 7);
  }

  /** A second part above 255 fails the intended test. */
  lemma StrictRejectsWideSecond(a: int, b: int, c: int, d: int)
    requires 255 < b <= IntMax
    ensures !IsValidIPv4Strict(Quad(a, b, c, d))
  {
    ExplodeQuad(a, b, c, d);
    IntValDec(b);
  }

  lemma ExampleQuadText()
    ensures Quad(1, 999, -3, 7) == "1.999.-3.7"
  {
    assert Dec(1) == "1" && Dec(7) == "7";
    assert NatDigits(99) == "99";
    assert Dec(999) == "999";
    assert Dec(-3) == "-3";
    var ps := [Dec(1), Dec(999), Dec(-3), Dec(7)];
    assert Join(ps, ".") == "1" + "." + ("999" + "." + ("-3" + "." + "7"));
  }

  /** A first part of 0 is out of range. */
  lemma RejectsZeroFirstPart()
    ensures !IsValidIPv4("0.1.2.3")
  {
    ZeroQuadText();
    ExplodeQuad(0, 1, 2, 3);
    IntValDec(0);
  }

  lemma ZeroQuadText()
    ensures Quad(0, 1, 2, 3) == "0.1.2.3"
  {
    assert Dec(0) == "0" && Dec(1) == "1" && Dec(2) == "2" && Dec(3) == "3";
    var ps := [Dec(0), Dec(1), Dec(2), Dec(3)];
    assert Join(ps, ".") == "0" + "." + ("1" + "." + ("2" + "." + "3"));
  }

  /** What _testInt lets through: a non-empty text of decimal digits with at
      most a leading '-', and no leading zero unless it is "0". So an empty
      part, a leading zero, a '+' and a blank are all refused. */
  lemma TestIntShape(s: string)
    requires TestInt(s)
    ensures s != []
    ensures forall k :: 0 <= k < |s| ==> IsDigit(s[k]) || (k == 0 && s[k] == '-')
    ensures |s| >= 2 ==> s[0] != '0'
    ensures |s| >= 2 && s[0] == '-' ==> s[1] != '0'
  {
    DecSpec(IntVal(s));
  }

  lemma LeadingZeroPieces()
    ensures Explode("10.01.2.3", ".") == ["10", "01", "2", "3"]
  {
    var ps := ["10", "01", "2", "3"];
    assert forall i :: 0 <= i < 4 ==> '.' !in ps[i];
    ExplodeJoin(ps, '.');
    assert Join(ps, ".") == "10.01.2.3";
  }

  /** A leading zero makes _testInt fail. */
  lemma RejectsLeadingZero()
    ensures !IsValidIPv4("10.01.2.3")
  {
    LeadingZeroPieces();
    if TestInt("01") {
      TestIntShape("01");
    }
  }

  // ---------------------------------------------------------------------
  // ip2long and the 32-character binary text
  // ---------------------------------------------------------------------

  /** One part of a dotted quad as inet_pton reads it: one to three
      digits, no leading zero, at most 255. */
  predicate IsOctet(p: string)
  {
    && 1 <= |p| <= 3
    && (forall i :: 0 <= i < |p| ==> IsDigit(p[i]))
    && (p[0] == '0' ==> |p| == 1)
    && DigitsValue(p) <= 255
  }

  function OctetValue(p: string): (v: nat)
    requires IsOctet(p)
    ensures v < 256
  {
    DigitsValue(p)
  }

  /** ip2long($s): the 32-bit value of a dotted quad, None for false. */
  function Ip2Long(s: string): (r: Option<nat>)
    ensures r.Some? ==> r.value < 0x1_0000_0000
  {
    var ps := Explode(s, ".");
    if |ps| == 4 && IsOctet(ps[0]) && IsOctet(ps[1]) && IsOctet(ps[2]) && IsOctet(ps[3]) then
      Some(((OctetValue(ps[0]) * 256 + OctetValue(ps[1])) * 256 + OctetValue(ps[2])) * 256 + OctetValue(ps[3]))
    else
      None
  }

  /** The number decbin receives: ip2long's value, or false read as 0. */
  function Long(s: string): (v: nat)
    ensures v < 0x1_0000_0000
  {
    match Ip2Long(s)
    case Some(v) => v
    case None => 0
  }

  function Pow2(n: nat): (p: nat)
    ensures p >= 1
  {
    if n == 0 then 1 else 2 * Pow2(n - 1)
  }

  /** The w lowest bits of v as '0'/'1' text, most significant first. */
  function Bits(v: nat, w: nat): (r: string)
    ensures |r| == w
  {
    if w == 0 then [] else Bits(v / 2, w - 1) + [if v % 2 == 0 then '0' else '1']
  }

  function BitLength(v: nat): (n: nat)
    ensures n >= 1
  {
    if v < 2 then 1 else 1 + BitLength(v / 2)
  }

  lemma {:induction false} DecBinBits(v: nat)
    ensures DecBin(v) == Bits(v, BitLength(v)) && v < Pow2(BitLength(v))
  {
    if v >= 2 {
      DecBinBits(v / 2);
    }
  }

  lemma {:induction false} BitsOfZero(w: nat)
    ensures Bits(0, w) == Repeat("0", w)
  {
    if w > 0 {
      BitsOfZero(w - 1);
    }
  }

  lemma {:induction false} BitsWider(v: nat, len: nat, w: nat)
    requires v < Pow2(len) && len <= w
    ensures Bits(v, w) == Repeat("0", w - len) + Bits(v, len)
  {
    if len == 0 {
      BitsOfZero(w);
    } else {
      BitsWider(v / 2, len - 1, w - 1);
    }
  }

  lemma {:induction false} BitLengthBound(v: nat, w: nat)
    requires v < Pow2(w)
    ensures BitLength(v) <= w || (v == 0 && w == 0)
  {
    if v >= 2 {
      BitLengthBound(v / 2, w - 1);
    }
  }

  /** str_pad(decbin($v), 32, '0', STR_PAD_LEFT) is the 32 bits of v. */
  lemma PaddedBinary(v: nat)
    requires v < 0x1_0000_0000
    ensures PadLeft(DecBin(v), 32, '0') == Bits(v, 32)
  {
    Pow2Of32();
    DecBinBits(v);
    BitLengthBound(v, 32);
    BitsWider(v, BitLength(v), 32);
    assert "0" == ['0'];
  }

  lemma DivUnique(x: int, d: int, q: int, r: int)
    requires d > 0 && x == q * d + r && 0 <= r < d
    ensures x / d == q
  {
    var k := x / d - q;
    assert k * d == r - x % d;
  }

  lemma DivDiv(v: nat, k: nat)
    ensures (v / 2) / Pow2(k) == v / Pow2(k + 1)
  {
    var p := Pow2(k);
    assert Pow2(k + 1) == 2 * p;
    var q, r := v / (2 * p), v % (2 * p);
    assert v == q * (2 * p) + r;
    assert v == 2 * (q * p + r / 2) + r % 2;
    DivUnique(v, 2, q * p + r / 2, r % 2);
    DivUnique(v / 2, p, q, r / 2);
  }

  lemma {:induction false} Pow2Add(a: nat, b: nat)
    ensures Pow2(a + b) == Pow2(a) * Pow2(b)
    decreases a
  {
    if a > 0 {
      Pow2Add(a - 1, b);
    }
  }

  lemma Pow2Of32()
    ensures Pow2(32) == 0x1_0000_0000
  {
    assert Pow2(4) == 16;
    Pow2Add(4, 4);
    Pow2Add(8, 8);
    Pow2Add(16, 16);
  }

  /** v shifted right by k bits. */
  function ShiftRight(v: nat, k: nat): nat
  {
    if k == 0 then v else ShiftRight(v / 2, k - 1)
  }

  /** Shifting right by k bits is division by 2^k. */
  lemma {:induction false} ShiftRightIsDiv(v: nat, k: nat)
    ensures ShiftRight(v, k) == v / Pow2(k)
  {
    if k > 0 {
      ShiftRightIsDiv(v / 2, k - 1);
      DivDiv(v, k - 1);
    }
  }

  /** The first n characters of the w-bit text are the top n bits. */
  lemma {:induction false} BitsPrefix(v: nat, w: nat, n: nat)
    requires n <= w
    ensures Bits(v, w)[..n] == Bits(ShiftRight(v, w - n), n)
    decreases w
  {
    if n < w {
      BitsPrefix(v / 2, w - 1, n);
      assert Bits(v, w)[..n] == Bits(v / 2, w - 1)[..n];
    }
  }

  /** Bit texts of one width are equal exactly when the numbers agree on those bits. */
  lemma {:induction false} BitsInjective(x: nat, y: nat, n: nat)
    requires x < Pow2(n) && y < Pow2(n)
    ensures Bits(x, n) == Bits(y, n) <==> x == y
  {
    if n > 0 {
      BitsInjective(x / 2, y / 2, n - 1);
      if Bits(x, n) == Bits(y, n) {
        assert Bits(x, n)[..n - 1] == Bits(x / 2, n - 1);
        assert Bits(y, n)[..n - 1] == Bits(y / 2, n - 1);
        assert Bits(x, n)[n - 1] == Bits(y, n)[n - 1];
      }
    }
  }

  lemma {:induction false} ShiftBound(v: nat, w: nat, n: nat)
    requires v < Pow2(w) && n <= w
    ensures ShiftRight(v, w - n) < Pow2(n)
    decreases w
  {
    if n < w {
      ShiftBound(v / 2, w - 1, n);
    }
  }

  /** How many characters substr($bits, 0, $n) keeps of a 32-character text. */
  function PrefixLength(n: int): (len: nat)
    ensures len <= 32
  {
    if n >= 0 then (if n < 32 then n else 32)
    else (if -n < 32 then 32 + n else 0)
  }

  /** The top len bits of a 32-bit value. */
  function TopBits(v: nat, len: nat): nat
    requires len <= 32
  {
    ShiftRight(v, 32 - len)
  }

  /** The first PrefixLength(n) characters of the two 32-bit texts agree
      exactly when the two values have the same top PrefixLength(n) bits. */
  lemma PrefixTextIffTopBits(a: nat, b: nat, n: int)
    requires a < 0x1_0000_0000 && b < 0x1_0000_0000
    ensures Substr(PadLeft(DecBin(a), 32, '0'), n) == Substr(PadLeft(DecBin(b), 32, '0'), n)
            <==> TopBits(a, PrefixLength(n)) == TopBits(b, PrefixLength(n))
  {
    var len := PrefixLength(n);
    PaddedPrefix(a, n);
    PaddedPrefix(b, n);
    BitsInjective(TopBits(a, len), TopBits(b, len), len);
  }

  /** substr of the padded binary text is the bit text of the top bits. */
  lemma PaddedPrefix(a: nat, n: int)
    requires a < 0x1_0000_0000
    ensures Substr(PadLeft(DecBin(a), 32, '0'), n) == Bits(TopBits(a, PrefixLength(n)), PrefixLength(n))
    ensures TopBits(a, PrefixLength(n)) < Pow2(PrefixLength(n))
  {
    var len := PrefixLength(n);
    PaddedBinary(a);
    Pow2Of32();
    assert Substr(Bits(a, 32), n) == Bits(a, 32)[..len];
    BitsPrefix(a, 32, len);
    ShiftBound(a, 32, len);
  }

  /** A mask n from 1 to 32 compares the top n bits of the two values. */
  lemma PrefixMask(baseIP: string, test: string, mask: string)
    requires 1 <= IntVal(mask) <= 32
    ensures TestMatches(baseIP, test, mask) <==>
      Long(test) / Pow2(32 - IntVal(mask)) == Long(baseIP) / Pow2(32 - IntVal(mask))
  {
    ShiftRightIsDiv(Long(test), 32 - IntVal(mask));
    ShiftRightIsDiv(Long(baseIP), 32 - IntVal(mask));
  }

  /** A mask above 32 keeps all 32 characters: the values must be equal. */
  lemma WideMaskIsEquality(baseIP: string, test: string, mask: string)
    requires IntVal(mask) >= 32
    ensures TestMatches(baseIP, test, mask) <==> Long(test) == Long(baseIP)
  {
  }

  /** A negative mask -m drops the last m characters, so it compares the
      top 32 - m bits. */
  lemma NegativeMask(baseIP: string, test: string, mask: string)
    requires -32 < IntVal(mask) < 0
    ensures TestMatches(baseIP, test, mask) <==>
      Long(test) / Pow2(-IntVal(mask)) == Long(baseIP) / Pow2(-IntVal(mask))
  {
    ShiftRightIsDiv(Long(test), -IntVal(mask));
    ShiftRightIsDiv(Long(baseIP), -IntVal(mask));
  }

  /** From -32 down nothing is left of either text, and every base is admitted. */
  lemma VeryNegativeMask(baseIP: string, test: string, mask: string)
    requires IntVal(mask) <= -32
    ensures TestMatches(baseIP, test, mask)
  {
    NothingLeft(Long(test));
    NothingLeft(Long(baseIP));
  }

  lemma NothingLeft(v: nat)
    requires v < 0x1_0000_0000
    ensures TopBits(v, 0) == 0
  {
    Pow2Of32();
    ShiftBound(v, 32, 0);
  }

  // ---------------------------------------------------------------------
  // The wildcard segment loop (compareIPv4 and compareFQDN)
  // ---------------------------------------------------------------------

  /** $parts[$index]: an index past the end reads as null, which strcmp
      takes as "". */
  function At(parts: seq<string>, i: nat): string
  {
    if i < |parts| then parts[i] else ""
  }

  /** Every trimmed pattern segment is "*" or equals the target segment at
      the same index. */
  predicate SegmentsMatch(pattern: seq<string>, target: seq<string>)
  {
    forall i :: 0 <= i < |pattern| ==> Trim(pattern[i]) == "*" || Trim(pattern[i]) == At(target, i)
  }

  /** The inner foreach of compareIPv4 (lines 217-224) and compareFQDN
      (lines 300-308): $yes starts true and is cleared by any segment that
      is neither "*" nor the target's segment. */
  method MatchSegments(pattern: seq<string>, target: seq<string>) returns (yes: bool)
    ensures yes <==> SegmentsMatch(pattern, target)
  {
    yes := true;
    var index := 0;
    while index < |pattern|
      invariant 0 <= index <= |pattern|
      invariant yes <==> forall i :: 0 <= i < index ==> Trim(pattern[i]) == "*" || Trim(pattern[i]) == At(target, i)
    {
      var val := Trim(pattern[index]);
      if val != "*" && At(target, index) != val {
        yes := false;
      }
      index := index + 1;
    }
  }

  function Stars(n: nat): (s: seq<string>)
    ensures |s| == n && forall i :: 0 <= i < n ==> s[i] == "*"
  {
    if n == 0 then [] else Stars(n - 1) + ["*"]
  }

  /** A shorter pattern behaves as if padded with "*" segments up to the
      length of the target: "192.168" is "192.168.*.*". */
  lemma ShortPatternIsWildcard(pattern: seq<string>, target: seq<string>)
    requires |pattern| <= |target|
    ensures SegmentsMatch(pattern, target) <==> SegmentsMatch(pattern + Stars(|target| - |pattern|), target)
  {
    var padded := pattern + Stars(|target| - |pattern|);
    assert Trim("*") == "*";
    if SegmentsMatch(pattern, target) {
      forall i | 0 <= i < |padded| ensures Trim(padded[i]) == "*" || Trim(padded[i]) == At(target, i) {
        if i >= |pattern| {
          assert padded[i] == "*";
        } else {
          assert padded[i] == pattern[i];
        }
      }
    }
    if SegmentsMatch(padded, target) {
      forall i | 0 <= i < |pattern| ensures Trim(pattern[i]) == "*" || Trim(pattern[i]) == At(target, i) {
        assert padded[i] == pattern[i];
      }
    }
  }

  /** The single segment "*" matches every target. */
  lemma StarMatchesAll(target: seq<string>)
    ensures SegmentsMatch(["*"], target)
  {
    assert Trim("*") == "*";
  }

  /** A segment past the end of the target matches only "*" or a blank one. */
  lemma SegmentPastEnd(pattern: seq<string>, target: seq<string>, i: nat)
    requires |target| <= i < |pattern| && SegmentsMatch(pattern, target)
    ensures Trim(pattern[i]) == "*" || Trim(pattern[i]) == ""
  {
  }

  // ---------------------------------------------------------------------
  // compareIPv4
  // ---------------------------------------------------------------------

  /** Entries split on ',' and trimmed, empty ones kept. */
  function Entries(list: string): seq<string>
  {
    TrimExplode(list, ',', false)
  }

  /** Whether the address `test` with the mask text `mask` admits baseIP.
      A mask that intval reads as n != 0 compares the first n characters
      of the two 32-bit binary texts, that is the top PrefixLength(n) bits
      of ip2long of both (0 where ip2long fails); any other mask compares
      the '.' segments with wildcards. */
  predicate TestMatches(baseIP: string, test: string, mask: string)
  {
    if IntVal(mask) != 0 then
      TopBits(Long(test), PrefixLength(IntVal(mask))) == TopBits(Long(baseIP), PrefixLength(IntVal(mask)))
    else
      SegmentsMatch(Explode(test, "."), Explode(baseIP, "."))
  }

  predicate EntryMatches(baseIP: string, entry: string)
  {
    TestMatches(baseIP, ListTwo(entry, "/").0, ListTwo(entry, "/").1)
  }

  /** compareIPv4's result: the base has four '.' parts and some entry admits it. */
  predicate ListMatches(baseIP: string, list: string)
  {
    && |Explode(baseIP, ".")| == 4
    && exists i :: 0 <= i < |Entries(list)| && EntryMatches(baseIP, Entries(list)[i])
  }

  /** One entry as compareIPv4 treats it (lines 204-225). */
  method TestEntry(baseIP: string, baseParts: seq<string>, entry: string) returns (yes: bool)
    requires baseParts == Explode(baseIP, ".")
    ensures yes <==> EntryMatches(baseIP, entry)
  {
    var (test, mask) := ListTwo(entry, "/");
    var n := IntVal(mask);
    if n != 0 {
      var lnet := Long(test);
      var lip := Long(baseIP);
      var binnet := PadLeft(DecBin(lnet), 32, '0');
      var firstpart := Substr(binnet, n);
      var binip := PadLeft(DecBin(lip), 32, '0');
      var firstip := Substr(binip, n);
      PrefixTextIffTopBits(lnet, lip, n);
      yes := firstpart == firstip;
    } else {
      var parts := Explode(test, ".");
      yes := MatchSegments(parts, baseParts);
    }
  }

  /** compareIPv4($baseIP, $list). */
  method CompareIPv4(baseIP: string, list: string) returns (matched: bool)
    ensures matched <==> ListMatches(baseIP, list)
  {
    var partsReq := Explode(baseIP, ".");
    if |partsReq| == 4 {
      var values := Entries(list);
      var k := 0;
      while k < |values|
        invariant 0 <= k <= |values|
        invariant NoneMatchBefore(baseIP, values, k)
      {
        var yes := TestEntry(baseIP, partsReq, values[k]);
        if yes {
          FoundEntry(baseIP, list, k);
          return true;
        }
        NoneMatchStep(baseIP, values, k);
        k := k + 1;
      }
      NoneMatch(baseIP, list);
    }
    return false;
  }

  /** No entry before index k admits the base. */
  predicate NoneMatchBefore(baseIP: string, values: seq<string>, k: int)
    requires 0 <= k <= |values|
  {
    forall i :: 0 <= i < k ==> !EntryMatches(baseIP, values[i])
  }

  lemma NoneMatchStep(baseIP: string, values: seq<string>, k: int)
    requires 0 <= k < |values| && NoneMatchBefore(baseIP, values, k)
    requires !EntryMatches(baseIP, values[k])
    ensures NoneMatchBefore(baseIP, values, k + 1)
  {
  }

  lemma NoneMatch(baseIP: string, list: string)
    requires NoneMatchBefore(baseIP, Entries(list), |Entries(list)|)
    ensures !ListMatches(baseIP, list)
  {
  }

  lemma FoundEntry(baseIP: string, list: string, k: int)
    requires |Explode(baseIP, ".")| == 4
    requires 0 <= k < |Entries(list)| && EntryMatches(baseIP, Entries(list)[k])
    ensures ListMatches(baseIP, list)
  {
  }

  /** The entry "*" admits every base with four parts. */
  lemma StarEntryMatches(baseIP: string)
    requires |Explode(baseIP, ".")| == 4
    ensures ListMatches(baseIP, "*")
  {
    ContainsChar("*", ',');
    ExplodeWithoutSep("*", ",");
    ContainsChar("*", '/');
    ExplodeWithoutSep("*", "/");
    ContainsChar("*", '.');
    ExplodeWithoutSep("*", ".");
    assert Trim("*") == "*";
    TrimExplodeSpec("*", ',');
    assert Entries("*")[0] == "*";
    assert IntVal("") == 0;
    StarMatchesAll(Explode(baseIP, "."));
    assert EntryMatches(baseIP, Entries("*")[0]);
  }

  /** An entry without '/' has the empty mask, which intval reads as 0,
      so it is compared segment by segment. */
  lemma PlainEntry(baseIP: string, entry: string)
    requires '/' !in entry
    ensures EntryMatches(baseIP, entry) <==> SegmentsMatch(Explode(entry, "."), Explode(baseIP, "."))
  {
    ContainsChar(entry, '/');
    ExplodeWithoutSep(entry, "/");
    assert IntVal("") == 0;
  }

  /** The list with the single entry e: no ',' in it and no blank at its ends. */
  lemma SingleEntry(e: string)
    requires ',' !in e && e != [] && !IsBlank(e[0]) && !IsBlank(e[|e| - 1])
    ensures Entries(e) == [e]
  {
    ContainsChar(e, ',');
    ExplodeWithoutSep(e, ",");
    TrimSpec(e);
    TrimExplodeSpec(e, ',');
  }

  /** A list of one plain entry matches by its segments. */
  lemma SinglePlainList(baseIP: string, e: string)
    requires |Explode(baseIP, ".")| == 4
    requires ',' !in e && '/' !in e && e != [] && !IsBlank(e[0]) && !IsBlank(e[|e| - 1])
    ensures ListMatches(baseIP, e) <==> SegmentsMatch(Explode(e, "."), Explode(baseIP, "."))
  {
    SingleEntry(e);
    PlainEntry(baseIP, e);
    assert Entries(e)[0] == e;
    if SegmentsMatch(Explode(e, "."), Explode(baseIP, ".")) {
      assert EntryMatches(baseIP, Entries(e)[0]);
    }
  }

  lemma QuadHasNoSeparator(a: int, b: int, c: int, d: int)
    ensures ',' !in Quad(a, b, c, d) && '/' !in Quad(a, b, c, d)
    ensures Quad(a, b, c, d)[0] == Dec(a)[0]
  {
    DecHasNoSeparator(a);
    DecHasNoSeparator(b);
    DecHasNoSeparator(c);
    DecHasNoSeparator(d);
    var rs := [Dec(a), Dec(b), Dec(c), Dec(d)];
    assert Join(rs[3..], ".") == Dec(d);
    assert Join(rs[2..], ".") == Dec(c) + "." + Dec(d);
    assert Join(rs[1..], ".") == Dec(b) + "." + (Dec(c) + "." + Dec(d));
  }

  /** An accepted address holds neither ',' nor '/', and starts with a digit. */
  lemma ValidHasNoSeparator(ip: string)
    requires IsValidIPv4(ip)
    ensures ',' !in ip && '/' !in ip
    ensures ip != [] && IsDigit(ip[0])
  {
    var ps := Explode(ip, ".");
    ValidIsQuad(ip);
    QuadHasNoSeparator(IntVal(ps[0]), IntVal(ps[1]), IntVal(ps[2]), IntVal(ps[3]));
    DecSpec(IntVal(ps[0]));
  }

  /** A part _testInt accepts has no blank at either end, so trim keeps it. */
  lemma TestIntTrimmed(s: string)
    requires TestInt(s)
    ensures Trim(s) == s
  {
    TestIntShape(s);
    TrimKeepsTrimmed(s);
  }

  /** Every segment of an accepted address matches itself. */
  lemma ValidSegmentsMatchSelf(ip: string)
    requires IsValidIPv4(ip)
    ensures SegmentsMatch(Explode(ip, "."), Explode(ip, "."))
  {
    var ps := Explode(ip, ".");
    TestIntTrimmed(ps[0]);
    TestIntTrimmed(ps[1]);
    TestIntTrimmed(ps[2]);
    TestIntTrimmed(ps[3]);
    TrimmedMatchSelf(ps);
  }

  lemma TrimmedMatchSelf(ps: seq<string>)
    requires |ps| == 4
    requires Trim(ps[0]) == ps[0] && Trim(ps[1]) == ps[1] && Trim(ps[2]) == ps[2] && Trim(ps[3]) == ps[3]
    ensures SegmentsMatch(ps, ps)
  {
  }

  /** A valid address with any mask from 0 to 32 admits itself: with a
      non-zero mask both prefixes are the same text, and with 0 every
      segment equals itself. */
  lemma EntrySelfMatch(ip: string, m: nat)
    requires IsValidIPv4(ip) && m <= 32
    ensures ListMatches(ip, ip + "/" + Dec(m))
  {
    var e := ip + "/" + Dec(m);
    SelfEntry(ip, m);
    IntValDec(m);
    if m == 0 {
      ValidSegmentsMatchSelf(ip);
    }
    assert EntryMatches(ip, Entries(e)[0]);
  }

  /** The list ip + "/" + Dec(m) is one entry, with ip as its address and
      Dec(m) as its mask. */
  lemma SelfEntry(ip: string, m: nat)
    requires IsValidIPv4(ip)
    ensures Entries(ip + "/" + Dec(m)) == [ip + "/" + Dec(m)]
    ensures ListTwo(ip + "/" + Dec(m), "/") == (ip, Dec(m))
  {
    ValidHasNoSeparator(ip);
    DecHasNoSeparator(m);
    DecSpec(m);
    SlashEntry(ip, Dec(m));
  }

  /** x + "/" + y, with no ',' or '/' in either side and no blank at its
      ends, is one entry whose address is x and whose mask is y. */
  lemma SlashEntry(x: string, y: string)
    requires ',' !in x && ',' !in y && '/' !in x && '/' !in y
    requires x != [] && y != [] && !IsBlank(x[0]) && !IsBlank(y[|y| - 1])
    ensures Entries(x + "/" + y) == [x + "/" + y]
    ensures ListTwo(x + "/" + y, "/") == (x, y)
  {
    var e := x + "/" + y;
    assert e[0] == x[0] && e[|e| - 1] == y[|y| - 1];
    assert Join([x, y], "/") == e;
    ExplodeJoin([x, y], '/');
    SingleEntry(e);
  }

  /** A segment an entry can hold as written: not empty, and no '.', ',',
      '/' or blank in it. */
  predicate PlainSegment(p: string)
  {
    p != [] && forall i :: 0 <= i < |p| ==> p[i] != '.' && p[i] != ',' && p[i] != '/' && !IsBlank(p[i])
  }

  /** Plain segments joined by '.' make one entry with no ',' or '/' and
      no blank at either end. */
  lemma {:induction false} JoinedPlain(ps: seq<string>)
    requires ps != [] && forall i :: 0 <= i < |ps| ==> PlainSegment(ps[i])
    ensures var e := Join(ps, ".");
      e != [] && ',' !in e && '/' !in e && !IsBlank(e[0]) && !IsBlank(e[|e| - 1])
    decreases |ps|
  {
    var p := ps[0];
    assert PlainSegment(p);
    assert ',' !in p && '/' !in p;
    if |ps| > 1 {
      JoinedPlain(ps[1..]);
      var t := Join(ps[1..], ".");
      assert Join(ps, ".") == p + ("." + t);
    }
  }

  /** A list made of plain segments joined by '.' is one entry, matched
      segment by segment. */
  lemma PlainListSegments(baseIP: string, ps: seq<string>)
    requires |Explode(baseIP, ".")| == 4
    requires ps != [] && forall i :: 0 <= i < |ps| ==> PlainSegment(ps[i])
    ensures ListMatches(baseIP, Join(ps, ".")) <==> SegmentsMatch(ps, Explode(baseIP, "."))
  {
    forall i | 0 <= i < |ps| ensures '.' !in ps[i] {
      assert PlainSegment(ps[i]);
    }
    JoinedPlain(ps);
    SinglePlainList(baseIP, Join(ps, "."));
    ExplodeJoin(ps, '.');
  }

  /** Padding plain segments with "*" keeps them plain. */
  lemma PaddedPlain(ps: seq<string>, n: nat)
    requires forall i :: 0 <= i < |ps| ==> PlainSegment(ps[i])
    ensures forall i :: 0 <= i < |ps + Stars(n)| ==> PlainSegment((ps + Stars(n))[i])
  {
    assert PlainSegment("*");
    var padded := ps + Stars(n);
    forall i | 0 <= i < |padded| ensures PlainSegment(padded[i]) {
      if i >= |ps| {
        assert padded[i] == "*";
      } else {
        assert padded[i] == ps[i];
      }
    }
  }

  /** Leaving out trailing parts of a plain entry is a wildcard: for up to
      four plain segments, the entry they make admits the same bases as
      the entry padded with "*" segments to four. */
  lemma OmittedPartsMatchAll(baseIP: string, ps: seq<string>)
    requires |Explode(baseIP, ".")| == 4
    requires 1 <= |ps| <= 4 && forall i :: 0 <= i < |ps| ==> PlainSegment(ps[i])
    ensures ListMatches(baseIP, Join(ps, ".")) <==> ListMatches(baseIP, Join(ps + Stars(4 - |ps|), "."))
  {
    PaddedPlain(ps, 4 - |ps|);
    PlainListSegments(baseIP, ps);
    PlainListSegments(baseIP, ps + Stars(4 - |ps|));
    ShortPatternIsWildcard(ps, Explode(baseIP, "."));
  }

  /** The documented example: the list "192.168" admits the same bases as
      "192.168.*.*". */
  lemma OmittedPartsAreWildcards(baseIP: string)
    requires |Explode(baseIP, ".")| == 4
    ensures ListMatches(baseIP, "192.168") <==> ListMatches(baseIP, "192.168.*.*")
  {
    var ps := ["192", "168"];
    assert PlainSegment("192") && PlainSegment("168");
    OmittedPartsMatchAll(baseIP, ps);
    assert Join(ps, ".") == "192.168";
    assert ps + Stars(2) == ["192", "168", "*", "*"];
    assert Join(["192", "168", "*", "*"], ".") == "192.168.*.*";
  }

  // ---------------------------------------------------------------------
  // isLocal
  // ---------------------------------------------------------------------

  /** The prefix table of isLocal as a condition on the first two parts
      a and b, with `first` as the leading number of the first table. */
  predicate LocalPrefix(a: int, b: int, first: int)
  {
    || (a == first && 0 <= b <= 255)
    || (a == 172 && 16 <= b <= 31)
    || (a == 192 && b == 168)
    || (a == 127 && b == 0)
  }

  /** What isLocal accepts: a valid address whose first two parts are 1 and
      0..255, 172 and 16..31, 192 and 168, or 127 and 0. */
  predicate IsLocalAddress(ip: string)
  {
    IsValidIPv4(ip) && LocalPrefix(IntVal(Explode(ip, ".")[0]), IntVal(Explode(ip, ".")[1]), 1)
  }

  /** What the comment of the first table describes (1.0.0.0 - 10.255.255.255
      read as the private range 10.0.0.0/8): the first table for 10. */
  predicate IsPrivateAddress(ip: string)
  {
    IsValidIPv4(ip) && LocalPrefix(IntVal(Explode(ip, ".")[0]), IntVal(Explode(ip, ".")[1]), 10)
  }

  /** x + "." + y equals Dec(p) + "." + Dec(q) exactly when both halves do. */
  lemma PrefixEquals(x: string, y: string, p: int, q: int)
    requires TestInt(x) && TestInt(y)
    ensures x + "." + y == Dec(p) + "." + Dec(q) <==> x == Dec(p) && y == Dec(q)
  {
    DecHasNoSeparator(p);
    DecHasNoSeparator(IntVal(x));
    if x + "." + y == Dec(p) + "." + Dec(q) {
      assert x + "." + y == x + ['.'] + y;
      assert Dec(p) + "." + Dec(q) == Dec(p) + ['.'] + Dec(q);
      SplitAtFirst(x, y, Dec(p), Dec(q), '.');
    }
  }

  /** The prefix text of two _testInt parts is Dec(p) . "." . Dec(q)
      exactly when the parts read as p and q. */
  lemma PrefixValues(x: string, y: string, p: int, q: int)
    requires TestInt(x) && TestInt(y) && IsInt64(p) && IsInt64(q)
    ensures x + "." + y == Dec(p) + "." + Dec(q) <==> IntVal(x) == p && IntVal(y) == q
  {
    PrefixEquals(x, y, p, q);
    IntValDec(p);
    IntValDec(q);
  }

  /** The loop of lines 335-337: $first . "." . $i for $i from 0 to 255
      (the source writes the literal '1.'). */
  method FirstTable(first: int) returns (ips1: seq<string>)
    ensures |ips1| == 256 && forall k :: 0 <= k < 256 ==> ips1[k] == Dec(first) + "." + Dec(k)
  {
    ips1 := [];
    var i := 0;
    while i < 256
      invariant 0 <= i <= 256 && |ips1| == i
      invariant forall k :: 0 <= k < i ==> ips1[k] == Dec(first) + "." + Dec(k)
    {
      ips1 := ips1 + [Dec(first) + "." + Dec(i)];
      i := i + 1;
    }
  }

  /** The loop of lines 340-342: "172." . $i for $i from 16 to 31, in order
      (array_merge renumbers the keys, so only the order is kept). */
  method SecondTable() returns (ips2: seq<string>)
    ensures |ips2| == 16 && forall k :: 0 <= k < 16 ==> ips2[k] == "172." + Dec(k + 16)
  {
    ips2 := [];
    var i := 16;
    while i < 32
      invariant 16 <= i <= 32 && |ips2| == i - 16
      invariant forall k :: 0 <= k < i - 16 ==> ips2[k] == "172." + Dec(k + 16)
    {
      ips2 := ips2 + ["172." + Dec(i)];
      i := i + 1;
    }
  }

  /** The body of isLocal with the leading number of the first table as a
      parameter: the validity test, the three tables merged, and the
      membership test of "$ip[0].$ip[1]". */
  method LocalWith(ip: string, first: int) returns (local: bool)
    requires IsInt64(first)
    ensures local <==> IsValidIPv4(ip) && LocalPrefix(IntVal(Explode(ip, ".")[0]), IntVal(Explode(ip, ".")[1]), first)
  {
    if !IsValidIPv4(ip) {
      return false;
    }
    var ips1 := FirstTable(first);
    var ips2 := SecondTable();
    var ips3 := ["192.168", "127.0"];
    var localIps := ips1 + ips2 + ips3;
    var parts := Explode(ip, ".");
    var prefix := parts[0] + "." + parts[1];
    local := prefix in localIps;
    LocalTable(ip, ips1, ips2, ips3, prefix, first);
  }

  /** isLocal($ip), with the table '1.' . $i as written. */
  method IsLocal(ip: string) returns (local: bool)
    ensures local <==> IsLocalAddress(ip)
  {
    local := LocalWith(ip, 1);
  }

  /** isLocal with the first table for 10, as its comment describes. */
  method IsLocalPrivate(ip: string) returns (local: bool)
    ensures local <==> IsPrivateAddress(ip)
  {
    local := LocalWith(ip, 10);
  }

  /** The renderings of the constants in the prefix tables. */
  lemma SmallDecs()
    ensures Dec(0) == "0" && Dec(1) == "1" && Dec(127) == "127" && Dec(168) == "168"
    ensures Dec(172) == "172" && Dec(192) == "192"
  {
    assert NatDigits(12) == "12";
    assert NatDigits(16) == "16";
    assert NatDigits(17) == "17";
    assert NatDigits(19) == "19";
  }

  /** The first table lists exactly the prefixes first.b, 0 <= b <= 255. */
  lemma InFirstTable(x: string, y: string, ips1: seq<string>, first: int)
    requires TestInt(x) && TestInt(y) && IsInt64(first)
    requires |ips1| == 256 && forall k :: 0 <= k < 256 ==> ips1[k] == Dec(first) + "." + Dec(k)
    ensures x + "." + y in ips1 <==> IntVal(x) == first && 0 <= IntVal(y) <= 255
  {
    if x + "." + y in ips1 {
      var k :| 0 <= k < 256 && ips1[k] == x + "." + y;
      PrefixValues(x, y, first, k);
    }
    if IntVal(x) == first && 0 <= IntVal(y) <= 255 {
      assert ips1[IntVal(y)] == x + "." + y;
    }
  }

  /** "172." . $i for $i from 16 to 31 lists exactly the prefixes 172.b, 16 <= b <= 31. */
  lemma InSecondTable(x: string, y: string, ips2: seq<string>)
    requires TestInt(x) && TestInt(y)
    requires |ips2| == 16 && forall k :: 0 <= k < 16 ==> ips2[k] == "172." + Dec(k + 16)
    ensures x + "." + y in ips2 <==> IntVal(x) == 172 && 16 <= IntVal(y) <= 31
  {
    assert Dec(172) == "172" by {
      SmallDecs();
    }
    assert "172." == Dec(172) + ".";
    if x + "." + y in ips2 {
      var k :| 0 <= k < 16 && ips2[k] == x + "." + y;
      PrefixValues(x, y, 172, k + 16);
    }
    if IntVal(x) == 172 && 16 <= IntVal(y) <= 31 {
      assert ips2[IntVal(y) - 16] == x + "." + y;
    }
  }

  lemma ThirdTableTexts()
    ensures "192.168" == Dec(192) + "." + Dec(168) && "127.0" == Dec(127) + "." + Dec(0)
  {
    SmallDecs();
  }

  lemma InThirdTable(x: string, y: string)
    requires TestInt(x) && TestInt(y)
    ensures x + "." + y in ["192.168", "127.0"] <==>
      (IntVal(x) == 192 && IntVal(y) == 168) || (IntVal(x) == 127 && IntVal(y) == 0)
  {
    ThirdTableTexts();
    PrefixValues(x, y, 192, 168);
    PrefixValues(x, y, 127, 0);
  }

  lemma LocalTable(ip: string, ips1: seq<string>, ips2: seq<string>, ips3: seq<string>, prefix: string, first: int)
    requires IsValidIPv4(ip) && IsInt64(first)
    requires |ips1| == 256 && forall k :: 0 <= k < 256 ==> ips1[k] == Dec(first) + "." + Dec(k)
    requires |ips2| == 16 && forall k :: 0 <= k < 16 ==> ips2[k] == "172." + Dec(k + 16)
    requires ips3 == ["192.168", "127.0"]
    requires prefix == Explode(ip, ".")[0] + "." + Explode(ip, ".")[1]
    ensures prefix in ips1 + ips2 + ips3 <==> LocalPrefix(IntVal(Explode(ip, ".")[0]), IntVal(Explode(ip, ".")[1]), first)
  {
    var parts := Explode(ip, ".");
    InFirstTable(parts[0], parts[1], ips1, first);
    InSecondTable(parts[0], parts[1], ips2);
    InThirdTable(parts[0], parts[1]);
    assert prefix in ips1 + ips2 + ips3 <==> prefix in ips1 || prefix in ips2 || prefix in ips3;
  }

  /** The first two parts of a valid address as numbers. */
  lemma QuadParts(a: int, b: int, c: int, d: int)
    requires 1 <= a <= 255 && IsInt64(b) && IsInt64(c) && IsInt64(d)
    ensures IsValidIPv4(Quad(a, b, c, d))
    ensures IntVal(Explode(Quad(a, b, c, d), ".")[0]) == a
    ensures IntVal(Explode(Quad(a, b, c, d), ".")[1]) == b
  {
    QuadIsValid(a, b, c, d);
    ExplodeQuad(a, b, c, d);
    IntValDec(a);
    IntValDec(b);
  }

  lemma ExampleQuads()
    ensures "1.200.3.4" == Quad(1, 200, 3, 4) && "10.0.0.1" == Quad(10, 0, 0, 1)
  {
    ExampleRenderings();
    var p, q := ["1", "200", "3", "4"], ["10", "0", "0", "1"];
    assert Join(p, ".") == "1.200.3.4";
    assert Join(q, ".") == "10.0.0.1";
    JoinRenderings(p, 1, 200, 3, 4);
    JoinRenderings(q, 10, 0, 0, 1);
  }

  lemma ExampleRenderings()
    ensures Dec(0) == "0" && Dec(1) == "1" && Dec(3) == "3" && Dec(4) == "4"
    ensures Dec(10) == "10" && Dec(200) == "200"
  {
    assert NatDigits(20) == "20";
  }

  /** As written, isLocal takes 1.x.y.z for local and 10.x.y.z not. */
  lemma LocalTableAsWritten()
    ensures IsLocalAddress("1.200.3.4")
    ensures !IsLocalAddress("10.0.0.1")
  {
    ExampleQuads();
    QuadParts(1, 200, 3, 4);
    QuadParts(10, 0, 0, 1);
  }

  /** With the first table for 10, 10.x.y.z is local and 1.x.y.z is not. */
  lemma PrivateTable()
    ensures IsPrivateAddress("10.0.0.1")
    ensures !IsPrivateAddress("1.200.3.4")
  {
    ExampleQuads();
    QuadParts(1, 200, 3, 4);
    QuadParts(10, 0, 0, 1);
  }
}

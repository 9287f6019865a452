/** Models of the PHP library functions the address utilities call (explode,
    implode, trim, intval, strval, str_repeat, str_pad, substr, decbin,
    hexdec, str_replace, chr) and of the one helper of the host framework
    they use, GeneralUtility::trimExplode.

    PHP strings are modelled as `string`; the binary strings that chr()
    builds are modelled as sequences of `byte`. */
module Php {

  newtype byte = x: int | 0 <= x < 256

  /** PHP_INT_MAX and PHP_INT_MIN of a 64-bit PHP build. */
  const IntMax: int := 0x7FFF_FFFF_FFFF_FFFF
  const IntMin: int := -0x8000_0000_0000_0000

  // ---------------------------------------------------------------------
  // Substrings
  // ---------------------------------------------------------------------

  predicate StartsWith(s: string, p: string)
  {
    |p| <= |s| && s[..|p|] == p
  }

  /** strpos($s, $p) !== false, for a non-empty needle $p. */
  predicate Contains(s: string, p: string)
    decreases |s|
  {
    StartsWith(s, p) || (s != [] && Contains(s[1..], p))
  }

  lemma {:induction false} ContainsAppend(x: string, y: string, p: string)
    requires Contains(x, p)
    ensures Contains(x + y, p)
    decreases |x|
  {
    if !StartsWith(x, p) {
      ContainsAppend(x[1..], y, p);
      assert (x + y)[1..] == x[1..] + y;
    } else {
      assert (x + y)[..|p|] == x[..|p|];
    }
  }

  /** A prefix free of the needle's first character cannot start a match. */
  lemma {:induction false} ContainsAfterPrefix(x: string, t: string, p: string)
    requires p != [] && p[0] !in x
    ensures Contains(x + t, p) <==> Contains(t, p)
    decreases |x|
  {
    if x != [] {
      assert (x + t)[0] == x[0];
      assert (x + t)[1..] == x[1..] + t;
      ContainsAfterPrefix(x[1..], t, p);
    } else {
      assert x + t == t;
    }
  }

  lemma {:induction false} ContainsChar(s: string, c: char)
    ensures Contains(s, [c]) <==> c in s
    decreases |s|
  {
    if s != [] {
      ContainsChar(s[1..], c);
      assert s == [s[0]] + s[1..];
    }
  }

  // ---------------------------------------------------------------------
  // explode / implode
  // ---------------------------------------------------------------------

  /** explode($sep, $s): the pieces between the occurrences of $sep, found
      left to right without overlap. n occurrences give n + 1 pieces, so
      the empty string gives [""]. */
  function Explode(s: string, sep: string): (r: seq<string>)
    requires sep != []
    ensures |r| >= 1
    decreases |s|
  {
    if |s| < |sep| then [s]
    else if s[..|sep|] == sep then [[]] + Explode(s[|sep|..], sep)
    else
      var rest := Explode(s[1..], sep);
      [[s[0]] + rest[0]] + rest[1..]
  }

  /** list($a, $b) = explode($sep, $s): the first two pieces. A missing
      second piece is PHP's null, which every later use here (intval,
      comparison with a string) reads as "". */
  function ListTwo(s: string, sep: string): (string, string)
    requires sep != []
  {
    var parts := Explode(s, sep);
    (parts[0], if |parts| > 1 then parts[1] else "")
  }

  /** implode($sep, $parts). */
  function Join(parts: seq<string>, sep: string): string
    decreases |parts|
  {
    if parts == [] then []
    else if |parts| == 1 then parts[0]
    else parts[0] + sep + Join(parts[1..], sep)
  }

  /** Joining the pieces of explode with the same separator gives the input back. */
  lemma {:induction false} JoinExplode(s: string, sep: string)
    requires sep != []
    ensures Join(Explode(s, sep), sep) == s
    decreases |s|
  {
    if |s| < |sep| {
    } else if s[..|sep|] == sep {
      JoinExplode(s[|sep|..], sep);
      var rest := Explode(s[|sep|..], sep);
      assert Explode(s, sep) == [[]] + rest;
      assert ([[]] + rest)[1..] == rest;
      assert s == s[..|sep|] + s[|sep|..];
    } else {
      JoinExplode(s[1..], sep);
      var rest := Explode(s[1..], sep);
      var r := [[s[0]] + rest[0]] + rest[1..];
      assert Explode(s, sep) == r;
      if |rest| > 1 {
        assert r[1..] == rest[1..];
      }
      assert s == [s[0]] + s[1..];
    }
  }

  lemma {:induction false} JoinAppend(a: seq<string>, b: seq<string>, sep: string)
    requires a != [] && b != []
    ensures Join(a + b, sep) == Join(a, sep) + sep + Join(b, sep)
    decreases |a|
  {
    if |a| == 1 {
      assert (a + b)[1..] == b;
    } else {
      JoinAppend(a[1..], b, sep);
      assert (a + b)[1..] == a[1..] + b;
    }
  }

  /** When the first occurrence of $sep in x + sep + y is the one after x,
      explode splits off x as its first piece. */
  lemma {:induction false} ExplodeAfterPiece(x: string, sep: string, y: string)
    requires sep != []
    requires !Contains(x + sep[..|sep| - 1], sep)
    ensures Explode(x + sep + y, sep) == [x] + Explode(y, sep)
    decreases |x|
  {
    var s := x + sep + y;
    var w := x + sep[..|sep| - 1];
    if x == [] {
      assert s[..|sep|] == sep;
      assert s[|sep|..] == y;
    } else {
      assert !StartsWith(w, sep);
      assert w[..|sep|] == s[..|sep|];
      assert w[1..] == x[1..] + sep[..|sep| - 1];
      ExplodeAfterPiece(x[1..], sep, y);
      assert s[1..] == x[1..] + sep + y;
      var rest := Explode(s[1..], sep);
      ExplodeNoSepFirst(s, sep);
      assert rest[0] == x[1..] && rest[1..] == Explode(y, sep);
      assert [s[0]] + x[1..] == x;
    }
  }

  /** Where $sep does not start the text, its first character joins the first piece. */
  lemma ExplodeNoSepFirst(s: string, sep: string)
    requires sep != [] && |s| >= |sep| && s[..|sep|] != sep
    ensures Explode(s, sep) == [[s[0]] + Explode(s[1..], sep)[0]] + Explode(s[1..], sep)[1..]
  {
  }

  lemma {:induction false} ExplodeWithoutSep(y: string, sep: string)
    requires sep != [] && !Contains(y, sep)
    ensures Explode(y, sep) == [y]
    decreases |y|
  {
    if |y| >= |sep| {
      ExplodeWithoutSep(y[1..], sep);
      assert [y[0]] + y[1..] == y;
    }
  }

  /** explode undoes implode when no piece holds the one-character separator. */
  lemma {:induction false} ExplodeJoin(parts: seq<string>, d: char)
    requires parts != []
    requires forall i :: 0 <= i < |parts| ==> d !in parts[i]
    ensures Explode(Join(parts, [d]), [d]) == parts
    decreases |parts|
  {
    ContainsChar(parts[0], d);
    if |parts| == 1 {
      ExplodeWithoutSep(parts[0], [d]);
    } else {
      ExplodeJoin(parts[1..], d);
      assert parts[0] + [d][..0] == parts[0];
      ExplodeAfterPiece(parts[0], [d], Join(parts[1..], [d]));
      assert parts == [parts[0]] + parts[1..];
    }
  }

  /** A separator at the end adds one empty piece after the others. */
  lemma {:induction false} ExplodeAppendSep(y: string, d: char)
    ensures Explode(y + [d], [d]) == Explode(y, [d]) + [[]]
    decreases |y|
  {
    if y == [] {
      assert (y + [d])[1..] == [];
    } else {
      assert (y + [d])[1..] == y[1..] + [d];
      ExplodeAppendSep(y[1..], d);
      if y[0] != d {
        var rest := Explode(y[1..], [d]);
        assert (rest + [[]])[1..] == rest[1..] + [[]];
      }
    }
  }

  /** x + "." + y determines x and y when neither x nor x' holds the separator. */
  lemma SplitAtFirst(x: string, y: string, x': string, y': string, d: char)
    requires d !in x && d !in x'
    requires x + [d] + y == x' + [d] + y'
    ensures x == x' && y == y'
  {
    var s := x + [d] + y;
    assert forall k :: 0 <= k < |x| ==> s[k] != d;
    assert forall k :: 0 <= k < |x'| ==> s[k] != d;
    assert s[|x|] == d && s[|x'|] == d;
    assert x == s[..|x|] && x' == s[..|x'|];
    assert y == s[|x| + 1..] && y' == s[|x'| + 1..];
  }

  // ---------------------------------------------------------------------
  // trim
  // ---------------------------------------------------------------------

  /** The characters trim() strips by default: space, tab, line feed,
      carriage return, NUL and vertical tab. */
  predicate IsBlank(c: char)
  {
    c == ' ' || c == '\t' || c == '\n' || c == '\r' || c == '\0' || c == 11 as char
  }

  function TrimLeft(s: string): string
    decreases |s|
  {
    if s != [] && IsBlank(s[0]) then TrimLeft(s[1..]) else s
  }

  function TrimRight(s: string): string
    decreases |s|
  {
    if s != [] && IsBlank(s[|s| - 1]) then TrimRight(s[..|s| - 1]) else s
  }

  /** trim($s). */
  function Trim(s: string): string
  {
    TrimLeft(TrimRight(s))
  }

  /** TrimLeft removes a blank prefix and stops at the first other character. */
  lemma {:induction false} TrimLeftSpec(s: string)
    ensures |TrimLeft(s)| <= |s| && TrimLeft(s) == s[|s| - |TrimLeft(s)|..]
    ensures forall i :: 0 <= i < |s| - |TrimLeft(s)| ==> IsBlank(s[i])
    ensures TrimLeft(s) == [] || !IsBlank(TrimLeft(s)[0])
    decreases |s|
  {
    if s != [] && IsBlank(s[0]) {
      TrimLeftSpec(s[1..]);
    }
  }

  /** TrimRight removes a blank suffix and stops at the last other character. */
  lemma {:induction false} TrimRightSpec(s: string)
    ensures |TrimRight(s)| <= |s| && TrimRight(s) == s[..|TrimRight(s)|]
    ensures forall i :: |TrimRight(s)| <= i < |s| ==> IsBlank(s[i])
    ensures TrimRight(s) == [] || !IsBlank(TrimRight(s)[|TrimRight(s)| - 1])
    decreases |s|
  {
    if s != [] && IsBlank(s[|s| - 1]) {
      TrimRightSpec(s[..|s| - 1]);
    }
  }

  /** trim strips blanks at both ends and nothing else: what is left is a
      slice of the input with no blank at either end, and a string with no
      blank at either end is left as it is. */
  lemma TrimSpec(s: string)
    ensures exists i, j :: (0 <= i <= j <= |s| && Trim(s) == s[i..j] &&
      (forall k :: 0 <= k < i ==> IsBlank(s[k])) && (forall k :: j <= k < |s| ==> IsBlank(s[k])))
    ensures Trim(s) == [] || (!IsBlank(Trim(s)[0]) && !IsBlank(Trim(s)[|Trim(s)| - 1]))
    ensures (s == [] || (!IsBlank(s[0]) && !IsBlank(s[|s| - 1]))) ==> Trim(s) == s
  {
    TrimIsSlice(s);
    TrimEnds(s);
    TrimKeepsTrimmed(s);
  }

  lemma TrimIsSlice(s: string)
    ensures exists i, j :: (0 <= i <= j <= |s| && Trim(s) == s[i..j] &&
      (forall k :: 0 <= k < i ==> IsBlank(s[k])) && (forall k :: j <= k < |s| ==> IsBlank(s[k])))
  {
    TrimBounds(s);
    var j := |TrimRight(s)|;
    var i := j - |Trim(s)|;
    assert Trim(s) == s[i..j];
  }

  /** trim keeps the slice between the blank prefix TrimLeft drops and the
      blank suffix TrimRight drops. */
  lemma TrimBounds(s: string)
    ensures |Trim(s)| <= |TrimRight(s)| <= |s|
    ensures Trim(s) == s[|TrimRight(s)| - |Trim(s)|..|TrimRight(s)|]
    ensures forall k :: 0 <= k < |TrimRight(s)| - |Trim(s)| ==> IsBlank(s[k])
    ensures forall k :: |TrimRight(s)| <= k < |s| ==> IsBlank(s[k])
  {
    var t := TrimRight(s);
    TrimRightSpec(s);
    TrimLeftSpec(t);
    assert forall k :: 0 <= k < |t| ==> s[k] == t[k];
  }

  lemma TrimEnds(s: string)
    ensures Trim(s) == [] || (!IsBlank(Trim(s)[0]) && !IsBlank(Trim(s)[|Trim(s)| - 1]))
  {
    var t := TrimRight(s);
    TrimRightSpec(s);
    TrimLeftSpec(t);
    var r := TrimLeft(t);
    if r != [] {
      assert r[|r| - 1] == t[|t| - 1];
    }
  }

  lemma TrimKeepsTrimmed(s: string)
    ensures (s == [] || (!IsBlank(s[0]) && !IsBlank(s[|s| - 1]))) ==> Trim(s) == s
  {
    if s != [] && !IsBlank(s[0]) && !IsBlank(s[|s| - 1]) {
      assert TrimRight(s) == s;
    }
  }

  /** GeneralUtility::trimExplode($delim, $s, $removeEmpty): explode, trim
      every piece and, when asked to, drop the pieces that are then empty. */
  function TrimExplode(s: string, delim: char, removeEmpty: bool): seq<string>
  {
    var pieces := TrimAll(Explode(s, [delim]));
    if removeEmpty then DropEmpty(pieces) else pieces
  }

  function TrimAll(ps: seq<string>): seq<string>
  {
    seq(|ps|, i requires 0 <= i < |ps| => Trim(ps[i]))
  }

  function DropEmpty(ps: seq<string>): seq<string>
    decreases |ps|
  {
    if ps == [] then []
    else if ps[0] == [] then DropEmpty(ps[1..])
    else [ps[0]] + DropEmpty(ps[1..])
  }

  /** DropEmpty keeps the non-empty pieces and only those. */
  lemma {:induction false} DropEmptySpec(ps: seq<string>)
    ensures forall i :: 0 <= i < |DropEmpty(ps)| ==> DropEmpty(ps)[i] != []
    ensures forall x :: x in DropEmpty(ps) <==> x != [] && x in ps
    decreases |ps|
  {
    if ps != [] {
      DropEmptySpec(ps[1..]);
      assert ps == [ps[0]] + ps[1..];
    }
  }

  /** trimExplode keeps one trimmed piece per piece of explode, or, with
      removeEmpty, exactly the trimmed pieces that are not empty. */
  lemma TrimExplodeSpec(s: string, delim: char)
    ensures |TrimExplode(s, delim, false)| == |Explode(s, [delim])|
    ensures forall i :: 0 <= i < |Explode(s, [delim])| ==>
      TrimExplode(s, delim, false)[i] == Trim(Explode(s, [delim])[i])
    ensures forall x :: x in TrimExplode(s, delim, true) <==> x != [] && x in TrimExplode(s, delim, false)
  {
    DropEmptySpec(TrimAll(Explode(s, [delim])));
  }

  // ---------------------------------------------------------------------
  // Integers as text: intval, strval
  // ---------------------------------------------------------------------

  predicate IsDigit(c: char)
  {
    '0' <= c <= '9'
  }

  /** The whitespace intval() skips before a number. */
  predicate IsLeadingSpace(c: char)
  {
    c == ' ' || c == '\t' || c == '\n' || c == '\r' || c == 11 as char || c == 12 as char
  }

  function SkipLeadingSpace(s: string): string
    decreases |s|
  {
    if s != [] && IsLeadingSpace(s[0]) then SkipLeadingSpace(s[1..]) else s
  }

  function LeadingDigits(s: string): string
    decreases |s|
  {
    if s != [] && IsDigit(s[0]) then [s[0]] + LeadingDigits(s[1..]) else []
  }

  /** LeadingDigits is the longest prefix made of decimal digits. */
  lemma {:induction false} LeadingDigitsSpec(s: string)
    ensures |LeadingDigits(s)| <= |s| && LeadingDigits(s) == s[..|LeadingDigits(s)|]
    ensures forall i :: 0 <= i < |LeadingDigits(s)| ==> IsDigit(LeadingDigits(s)[i])
    ensures |LeadingDigits(s)| < |s| ==> !IsDigit(s[|LeadingDigits(s)|])
    decreases |s|
  {
    if s != [] && IsDigit(s[0]) {
      LeadingDigitsSpec(s[1..]);
    }
  }

  function DigitValue(c: char): (v: nat)
    ensures v < 10
  {
    if IsDigit(c) then c as int - '0' as int else 0
  }

  /** The value of a string of decimal digits, most significant first. */
  function DigitsValue(s: string): nat
    decreases |s|
  {
    if s == [] then 0 else 10 * DigitsValue(s[..|s| - 1]) + DigitValue(s[|s| - 1])
  }

  function Clamp(v: int): (r: int)
    ensures IntMin <= r <= IntMax
    ensures IntMin <= v <= IntMax ==> r == v
  {
    if v > IntMax then IntMax else if v < IntMin then IntMin else v
  }

  /** intval($s) for a string: leading whitespace, an optional sign, then
      the longest run of decimal digits (0 when there is none), saturated
      at the 64-bit bounds. */
  function IntVal(s: string): (v: int)
    ensures IntMin <= v <= IntMax
  {
    var t := SkipLeadingSpace(s);
    if t != [] && (t[0] == '-' || t[0] == '+') then
      var m := DigitsValue(LeadingDigits(t[1..]));
      var signed: int := if t[0] == '-' then -(m as int) else m as int;
      Clamp(signed)
    else
      Clamp(DigitsValue(LeadingDigits(t)))
  }

  /** The decimal digits of a natural number, without leading zeros. */
  function NatDigits(n: nat): (r: string)
    ensures r != []
    decreases n
  {
    if n < 10 then [('0' as int + n) as char]
    else NatDigits(n / 10) + [('0' as int + n % 10) as char]
  }

  lemma {:induction false} NatDigitsSpec(n: nat)
    ensures forall i :: 0 <= i < |NatDigits(n)| ==> IsDigit(NatDigits(n)[i])
    ensures NatDigits(n)[0] == '0' ==> n == 0 && NatDigits(n) == "0"
    decreases n
  {
    if n >= 10 {
      NatDigitsSpec(n / 10);
    }
  }

  /** strval($i): the decimal rendering of an integer, "-" first when negative. */
  function Dec(i: int): (r: string)
    ensures r != []
  {
    if i < 0 then "-" + NatDigits(-i) else NatDigits(i)
  }

  /** strval writes decimal digits, a '-' first for a negative number, and
      no leading zero except in "0" itself. */
  lemma DecSpec(i: int)
    ensures forall k :: 0 <= k < |Dec(i)| ==> IsDigit(Dec(i)[k]) || (k == 0 && Dec(i)[k] == '-')
    ensures Dec(i)[0] == '-' <==> i < 0
    ensures Dec(i)[0] == '0' ==> i == 0 && Dec(i) == "0"
    ensures Dec(i)[0] == '-' ==> |Dec(i)| > 1 && Dec(i)[1] != '0' && Dec(i)[1..] == NatDigits(-i)
  {
    if i < 0 {
      NatDigitsSpec(-i);
      assert Dec(i)[1..] == NatDigits(-i);
    } else {
      NatDigitsSpec(i);
    }
  }

  lemma {:induction false} DigitsValueOfNatDigits(n: nat)
    ensures DigitsValue(NatDigits(n)) == n
    decreases n
  {
    if n >= 10 {
      DigitsValueOfNatDigits(n / 10);
      var r := NatDigits(n);
      assert r[..|r| - 1] == NatDigits(n / 10);
    }
  }

  lemma {:induction false} LeadingDigitsOfDigits(s: string)
    requires forall i :: 0 <= i < |s| ==> IsDigit(s[i])
    ensures LeadingDigits(s) == s
    decreases |s|
  {
    if s != [] {
      LeadingDigitsOfDigits(s[1..]);
      assert s == [s[0]] + s[1..];
    }
  }

  lemma IntValOfNatDigits(n: nat)
    requires n <= IntMax
    ensures IntVal(NatDigits(n)) == n
  {
    var r := NatDigits(n);
    NatDigitsSpec(n);
    assert IsDigit(r[0]);
    assert SkipLeadingSpace(r) == r;
    LeadingDigitsOfDigits(r);
    DigitsValueOfNatDigits(n);
  }

  lemma IntValOfNegative(n: nat)
    requires 0 < n <= -IntMin
    ensures IntVal("-" + NatDigits(n)) == -(n as int)
  {
    var r := "-" + NatDigits(n);
    NatDigitsSpec(n);
    assert SkipLeadingSpace(r) == r;
    assert r[1..] == NatDigits(n);
    LeadingDigitsOfDigits(NatDigits(n));
    DigitsValueOfNatDigits(n);
  }

  /** intval reads back every 64-bit integer that strval prints. */
  lemma IntValDec(i: int)
    requires IntMin <= i <= IntMax
    ensures IntVal(Dec(i)) == i
  {
    if i < 0 {
      IntValOfNegative(-i);
    } else {
      IntValOfNatDigits(i);
    }
  }

  // ---------------------------------------------------------------------
  // Padding and substrings
  // ---------------------------------------------------------------------

  /** str_repeat($s, $n), with a non-positive $n giving "". */
  function Repeat(s: string, n: int): (r: string)
    ensures |r| == if n <= 0 then 0 else n * |s|
    decreases n
  {
    if n <= 0 then [] else Repeat(s, n - 1) + s
  }

  lemma {:induction false} RepeatFront(s: string, n: int)
    requires n >= 1
    ensures Repeat(s, n) == s + Repeat(s, n - 1)
    decreases n
  {
    if n > 1 {
      RepeatFront(s, n - 1);
    }
  }

  lemma {:induction false} RepeatChar(c: char, n: int)
    ensures forall k :: 0 <= k < |Repeat([c], n)| ==> Repeat([c], n)[k] == c
    decreases n
  {
    if n > 0 {
      RepeatChar(c, n - 1);
    }
  }

  /** str_pad($s, $width, $c, STR_PAD_LEFT). */
  function PadLeft(s: string, width: int, c: char): (r: string)
    ensures |r| == if |s| < width then width else |s|
  {
    Repeat([c], width - |s|) + s
  }

  /** str_pad to the left puts copies of the pad character before the text. */
  lemma PadLeftSpec(s: string, width: int, c: char)
    ensures PadLeft(s, width, c)[|PadLeft(s, width, c)| - |s|..] == s
    ensures forall k :: 0 <= k < |PadLeft(s, width, c)| - |s| ==> PadLeft(s, width, c)[k] == c
  {
    RepeatChar(c, width - |s|);
  }

  /** substr($s, 0, $n): the first $n elements, all of them when $n is
      larger; a negative $n drops -$n elements from the end instead. */
  function Substr<T>(s: seq<T>, n: int): (r: seq<T>)
    ensures |r| <= |s| && r == s[..|r|]
    ensures 0 <= n ==> |r| == if n < |s| then n else |s|
    ensures n < 0 ==> |r| == if -n < |s| then |s| + n else 0
  {
    if n >= 0 then (if n < |s| then s[..n] else s)
    else (if -n < |s| then s[..|s| + n] else [])
  }

  // ---------------------------------------------------------------------
  // Binary and hexadecimal text
  // ---------------------------------------------------------------------

  /** decbin($n) for $n >= 0: binary digits without leading zeros, "0" for 0. */
  function DecBin(n: nat): (r: string)
    ensures r != []
    decreases n
  {
    if n < 2 then [if n == 0 then '0' else '1']
    else DecBin(n / 2) + [if n % 2 == 0 then '0' else '1']
  }

  predicate IsHexDigit(c: char)
  {
    IsDigit(c) || 'a' <= c <= 'f' || 'A' <= c <= 'F'
  }

  function HexValue(c: char): (v: nat)
    requires IsHexDigit(c)
    ensures v < 16
  {
    if IsDigit(c) then c as int - '0' as int
    else if 'a' <= c <= 'f' then c as int - 'a' as int + 10
    else c as int - 'A' as int + 10
  }

  /** hexdec($s): the value of the hexadecimal digits of $s, every other
      character being ignored. */
  function HexDec(s: string): (v: nat)
    ensures |s| <= 1 ==> v < 16
    ensures |s| <= 2 ==> v < 256
    ensures |s| <= 3 ==> v < 4096
    ensures |s| <= 4 ==> v < 65536
    decreases |s|
  {
    if s == [] then 0
    else if IsHexDigit(s[|s| - 1]) then 16 * HexDec(s[..|s| - 1]) + HexValue(s[|s| - 1])
    else HexDec(s[..|s| - 1])
  }

  /** chr($n): the byte $n modulo 256. */
  function Chr(n: int): byte
  {
    (n % 256) as byte
  }

  /** str_replace($c, '', $s) for a one-character search string. */
  function RemoveChar(s: string, c: char): (r: string)
    ensures c !in r
    decreases |s|
  {
    if s == [] then [] else (if s[0] == c then [] else [s[0]]) + RemoveChar(s[1..], c)
  }

  lemma {:induction false} RemoveCharAppend(a: string, b: string, c: char)
    ensures RemoveChar(a + b, c) == RemoveChar(a, c) + RemoveChar(b, c)
    decreases |a|
  {
    if a != [] {
      RemoveCharAppend(a[1..], b, c);
      assert (a + b)[0] == a[0] && (a + b)[1..] == a[1..] + b;
    } else {
      assert a + b == b;
    }
  }

  lemma {:induction false} RemoveCharAbsent(a: string, c: char)
    requires c !in a
    ensures RemoveChar(a, c) == a
    decreases |a|
  {
    if a != [] {
      RemoveCharAbsent(a[1..], c);
      assert a == [a[0]] + a[1..];
    }
  }

  /** Removing the separator from an implode concatenates the pieces. */
  lemma {:induction false} RemoveCharJoin(parts: seq<string>, c: char)
    requires forall i :: 0 <= i < |parts| ==> c !in parts[i]
    ensures RemoveChar(Join(parts, [c]), c) == Join(parts, [])
    decreases |parts|
  {
    if parts == [] {
    } else if |parts| == 1 {
      RemoveCharAbsent(parts[0], c);
    } else {
      RemoveCharJoin(parts[1..], c);
      RemoveCharAbsent(parts[0], c);
      RemoveCharAppend(parts[0] + [c], Join(parts[1..], [c]), c);
      RemoveCharAppend(parts[0], [c], c);
      assert RemoveChar([c], c) == [];
      assert Join(parts, []) == parts[0] + [] + Join(parts[1..], []);
    }
  }
}

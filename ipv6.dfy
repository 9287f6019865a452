/** The IPv6 half of the address utilities: the validator isValidIPv6,
    the normaliser normalizeIPv6, the hex decoder IPv6Hex2Bin and the list
    matcher compareIPv6. */
module IPv6 {
  import opened Php

  // ---------------------------------------------------------------------
  // isValidIPv6: a recogniser over the ':'-separated pieces
  // ---------------------------------------------------------------------

  /** One group: one to four hexadecimal digits. The source upper-cases the
      address and then matches [\dA-F]; strtoupper works character by
      character and leaves ':' alone, so that is a case-insensitive digit
      test on the text as given. */
  predicate IsGroup(g: string)
  {
    1 <= |g| <= 4 && forall i :: 0 <= i < |g| ==> IsHexDigit(g[i])
  }

  predicate AllGroups(gs: seq<string>)
  {
    forall i :: 0 <= i < |gs| ==> IsGroup(gs[i])
  }

  /** The index of the first empty piece, |ps| when there is none. */
  function FirstEmpty(ps: seq<string>): (k: nat)
    ensures k <= |ps|
    ensures k < |ps| ==> ps[k] == []
    ensures forall i :: 0 <= i < k ==> ps[i] != []
    decreases |ps|
  {
    if ps == [] || ps[0] == [] then 0 else 1 + FirstEmpty(ps[1..])
  }

  /** The numbers of explicit groups before and after "::" that one of the
      six compressed alternatives of the source's expression accepts. */
  predicate CompressionAllowed(before: nat, after: nat)
  {
    before <= 5 && 1 <= after && before + after <= 7 && (1 <= before <= 4 ==> 2 <= after)
  }

  /** The pieces of explode(':') of an accepted address: eight groups, or
      groups around exactly one "::" (two empty pieces when it leads). */
  predicate WellFormed(ps: seq<string>)
  {
    var k := FirstEmpty(ps);
    if k == |ps| then |ps| == 8 && AllGroups(ps)
    else if k == 0 then 2 <= |ps| && ps[1] == [] && AllGroups(ps[2..]) && CompressionAllowed(0, |ps| - 2)
    else AllGroups(ps[..k]) && AllGroups(ps[k + 1..]) && CompressionAllowed(k, |ps| - k - 1)
  }

  /** isValidIPv6($ip). */
  predicate IsValidIPv6(ip: string)
  {
    WellFormed(Explode(ip, ":"))
  }

  predicate IsCompressed(ip: string)
    requires IsValidIPv6(ip)
  {
    FirstEmpty(Explode(ip, ":")) < |Explode(ip, ":")|
  }

  /** The groups written before "::" (none when the address starts with it). */
  function Left(ip: string): seq<string>
    requires IsValidIPv6(ip) && IsCompressed(ip)
  {
    var ps := Explode(ip, ":");
    ps[..FirstEmpty(ps)]
  }

  /** The groups written after "::". */
  function Right(ip: string): seq<string>
    requires IsValidIPv6(ip) && IsCompressed(ip)
  {
    var ps := Explode(ip, ":");
    var k := FirstEmpty(ps);
    if k == 0 then ps[2..] else ps[k + 1..]
  }

  // ---------------------------------------------------------------------
  // The source's regular expression, alternative by alternative
  // ---------------------------------------------------------------------

  /** [\dA-F] applied to strtoupper of one character. */
  predicate InRegexClass(c: char)
  {
    var u := if 'a' <= c <= 'z' then (c as int - 32) as char else c;
    IsDigit(u) || 'A' <= u <= 'F'
  }

  /** [\dA-F]{1,4} */
  ghost predicate RegexGroup(g: string)
  {
    1 <= |g| <= 4 && forall i :: 0 <= i < |g| ==> InRegexClass(g[i])
  }

  ghost predicate RegexGroups(gs: seq<string>)
  {
    forall i :: 0 <= i < |gs| ==> RegexGroup(gs[i])
  }

  /** The text of groups a, then "::", then groups b. */
  function Compose(a: seq<string>, b: seq<string>): string
  {
    Join(a, ":") + "::" + Join(b, ":")
  }

  /** The six alternatives with "::", read as (groups before, groups after):
      `H::(H:){1,5}H`, `(H:){2}:(H:){1,4}H`, `(H:){3}:(H:){1,3}H`,
      `(H:){4}:(H:){1,2}H`, `(H:){5}:(H:){0,1}H` and `::(H:){0,6}H`. */
  ghost predicate RegexAlternative(before: nat, after: nat)
  {
    || (before == 1 && 1 <= after - 1 <= 5)
    || (before == 2 && 1 <= after - 1 <= 4)
    || (before == 3 && 1 <= after - 1 <= 3)
    || (before == 4 && 1 <= after - 1 <= 2)
    || (before == 5 && 0 <= after - 1 <= 1)
    || (before == 0 && 0 <= after - 1 <= 6)
  }

  /** The whole anchored expression: `(H:){7}H` or one of the six above. */
  ghost predicate MatchesRegex(ip: string)
  {
    || (exists gs :: |gs| == 8 && RegexGroups(gs) && ip == Join(gs, ":"))
    || (exists a, b :: RegexAlternative(|a|, |b|) && RegexGroups(a) && RegexGroups(b) && ip == Compose(a, b))
  }

  lemma GroupsAreRegexGroups(gs: seq<string>)
    ensures AllGroups(gs) <==> RegexGroups(gs)
  {
    assert forall c :: InRegexClass(c) <==> IsHexDigit(c);
  }

  lemma ColonFreeGroups(gs: seq<string>)
    requires AllGroups(gs)
    ensures forall i :: 0 <= i < |gs| ==> ':' !in gs[i]
  {
    forall i | 0 <= i < |gs| ensures ':' !in gs[i] {
      assert IsGroup(gs[i]);
    }
  }

  lemma AllGroupsAppend(a: seq<string>, b: seq<string>)
    requires AllGroups(a) && AllGroups(b)
    ensures AllGroups(a + b)
  {
    forall i | 0 <= i < |a + b| ensures IsGroup((a + b)[i]) {
      if i >= |a| {
        assert (a + b)[i] == b[i - |a|];
      }
    }
  }

  /** Two empty pieces in front of the groups join to a leading "::". */
  lemma JoinLeading(b: seq<string>)
    requires b != []
    ensures Join([[], []] + b, ":") == Compose([], b)
  {
    var ps := [[], []] + b;
    assert ps[1..] == [[]] + b && ps[1..][1..] == b;
    assert Join(ps[1..], ":") == [] + ":" + Join(b, ":");
  }

  /** One empty piece between two runs of groups joins to an inner "::". */
  lemma JoinInner(a: seq<string>, b: seq<string>)
    requires a != [] && b != []
    ensures Join(a + [[]] + b, ":") == Compose(a, b)
  {
    assert a + [[]] + b == a + ([[]] + b);
    JoinAppend(a, [[]] + b, ":");
    assert ([[]] + b)[1..] == b;
    assert Join([[]] + b, ":") == [] + ":" + Join(b, ":");
  }

  /** The pieces around "::" put back together give the address. */
  lemma {:induction false} ComposeParts(ip: string)
    requires IsValidIPv6(ip) && IsCompressed(ip)
    ensures ip == Compose(Left(ip), Right(ip))
  {
    var ps := Explode(ip, ":");
    var k := FirstEmpty(ps);
    JoinExplode(ip, ":");
    var r := Right(ip);
    assert r != [];
    if k == 0 {
      assert ps == [[], []] + r;
      JoinLeading(r);
    } else {
      var l := Left(ip);
      assert ps == l + [[]] + r;
      JoinInner(l, r);
    }
  }

  /** Groups around "::" are read back by explode(':') as the groups with
      empty pieces where the "::" was. */
  lemma {:induction false} PiecesOfCompose(a: seq<string>, b: seq<string>)
    requires AllGroups(a) && AllGroups(b) && b != []
    ensures a == [] ==> Explode(Compose(a, b), ":") == [[], []] + b
    ensures a != [] ==> Explode(Compose(a, b), ":") == a + [[]] + b
  {
    ColonFreeGroups(a);
    ColonFreeGroups(b);
    if a == [] {
      var ps := [[], []] + b;
      JoinLeading(b);
      forall i | 0 <= i < |ps| ensures ':' !in ps[i] {
        if i >= 2 { assert ps[i] == b[i - 2]; }
      }
      ExplodeJoin(ps, ':');
    } else {
      var ps := a + [[]] + b;
      JoinInner(a, b);
      forall i | 0 <= i < |ps| ensures ':' !in ps[i] {
        if i > |a| { assert ps[i] == b[i - |a| - 1]; }
        else if i < |a| { assert ps[i] == a[i]; }
      }
      ExplodeJoin(ps, ':');
    }
  }

  lemma {:induction false} FirstEmptyAfterGroups(a: seq<string>, rest: seq<string>)
    requires AllGroups(a) && rest != [] && rest[0] == []
    ensures FirstEmpty(a + rest) == |a|
    decreases |a|
  {
    if a != [] {
      assert (a + rest)[1..] == a[1..] + rest;
      FirstEmptyAfterGroups(a[1..], rest);
    } else {
      assert a + rest == rest;
    }
  }

  /** Eight groups joined by ':' are accepted. */
  lemma EightGroupsValid(gs: seq<string>)
    requires |gs| == 8 && AllGroups(gs)
    ensures IsValidIPv6(Join(gs, ":"))
  {
    ColonFreeGroups(gs);
    ExplodeJoin(gs, ':');
    assert FirstEmpty(gs) == |gs|;
  }

  lemma WellFormedLeading(ps: seq<string>, b: seq<string>)
    requires ps == [[], []] + b && AllGroups(b) && CompressionAllowed(0, |b|)
    ensures WellFormed(ps)
  {
    assert FirstEmpty(ps) == 0 && ps[2..] == b;
  }

  lemma WellFormedInner(ps: seq<string>, a: seq<string>, b: seq<string>)
    requires ps == a + ([[]] + b) && a != [] && AllGroups(a) && AllGroups(b) && CompressionAllowed(|a|, |b|)
    ensures WellFormed(ps)
  {
    FirstEmptyAfterGroups(a, [[]] + b);
    assert ps[..|a|] == a && ps[|a| + 1..] == b;
  }

  /** Groups around "::" in one of the six allowed arrangements are accepted. */
  lemma ComposeValid(a: seq<string>, b: seq<string>)
    requires AllGroups(a) && AllGroups(b) && b != [] && CompressionAllowed(|a|, |b|)
    ensures IsValidIPv6(Compose(a, b))
  {
    PiecesOfCompose(a, b);
    if a == [] {
      WellFormedLeading(Explode(Compose(a, b), ":"), b);
    } else {
      assert a + [[]] + b == a + ([[]] + b);
      WellFormedInner(Explode(Compose(a, b), ":"), a, b);
    }
  }

  lemma RegexAlternativeAllowed(before: nat, after: nat)
    ensures RegexAlternative(before, after) <==> after >= 1 && CompressionAllowed(before, after)
  {
  }

  /** Every accepted address matches one alternative of the expression. */
  lemma ValidMatchesRegex(ip: string)
    requires IsValidIPv6(ip)
    ensures MatchesRegex(ip)
  {
    if IsCompressed(ip) {
      ComposeParts(ip);
      var l, r := Left(ip), Right(ip);
      GroupsAreRegexGroups(l);
      GroupsAreRegexGroups(r);
      RegexAlternativeAllowed(|l|, |r|);
      assert RegexAlternative(|l|, |r|) && RegexGroups(l) && RegexGroups(r) && ip == Compose(l, r);
    } else {
      var ps := Explode(ip, ":");
      JoinExplode(ip, ":");
      GroupsAreRegexGroups(ps);
      assert |ps| == 8 && RegexGroups(ps) && ip == Join(ps, ":");
    }
  }

  /** Every address matching the expression is accepted. */
  lemma RegexMatchValid(ip: string)
    requires MatchesRegex(ip)
    ensures IsValidIPv6(ip)
  {
    if exists gs :: |gs| == 8 && RegexGroups(gs) && ip == Join(gs, ":") {
      var gs :| |gs| == 8 && RegexGroups(gs) && ip == Join(gs, ":");
      GroupsAreRegexGroups(gs);
      EightGroupsValid(gs);
    } else {
      var a, b :| RegexAlternative(|a|, |b|) && RegexGroups(a) && RegexGroups(b) && ip == Compose(a, b);
      GroupsAreRegexGroups(a);
      GroupsAreRegexGroups(b);
      RegexAlternativeAllowed(|a|, |b|);
      ComposeValid(a, b);
    }
  }

  /** The recogniser accepts exactly what the source's expression matches. */
  lemma ValidIffMatchesRegex(ip: string)
    ensures IsValidIPv6(ip) <==> MatchesRegex(ip)
  {
    if IsValidIPv6(ip) {
      ValidMatchesRegex(ip);
    }
    if MatchesRegex(ip) {
      RegexMatchValid(ip);
    }
  }

  /** "2001:db8::1" has two groups before "::" and one after it, a count
      none of the alternatives allows. */
  lemma RejectsTwoOne()
    ensures !IsValidIPv6("2001:db8::1")
  {
    var ps := ["2001", "db8", "", "1"];
    assert Join(ps, ":") == "2001:db8::1";
    assert forall i :: 0 <= i < |ps| ==> ':' !in ps[i];
    ExplodeJoin(ps, ':');
    assert FirstEmpty(ps) == 2;
  }

  /** An address ending in "::" is rejected; with x empty this is the bare
      "::". Its last two pieces are empty, so the groups after the first
      empty piece end in an empty one. */
  lemma RejectsTrailing(x: string)
    ensures !IsValidIPv6(x + "::")
  {
    ExplodeAppendSep(x, ':');
    ExplodeAppendSep(x + ":", ':');
    assert x + "::" == (x + ":") + ":";
    var qs := Explode(x + "::", ":");
    var n := |qs|;
    assert n >= 3 && qs[n - 1] == [] && qs[n - 2] == [];
    var k := FirstEmpty(qs);
    assert k <= n - 2;
    if k == 0 {
      assert qs[2..][n - 3] == [];
    } else {
      assert qs[k + 1..][n - k - 2] == [];
    }
  }

  /** The first format the source documents is accepted. */
  lemma AcceptsDocumentedExample()
    ensures IsValidIPv6("43FB::BB3F:A0A0:0")
  {
    var ex := ["43FB", "", "BB3F", "A0A0", "0"];
    assert Join(ex, ":") == "43FB::BB3F:A0A0:0";
    assert forall i :: 0 <= i < |ex| ==> ':' !in ex[i];
    ExplodeJoin(ex, ':');
    ExampleWellFormed();
  }

  lemma ExampleWellFormed()
    ensures WellFormed(["43FB", "", "BB3F", "A0A0", "0"])
  {
    var ex := ["43FB", "", "BB3F", "A0A0", "0"];
    assert FirstEmpty(ex) == 1;
    assert ex[..1] == ["43FB"] && ex[2..] == ["BB3F", "A0A0", "0"];
    assert IsGroup("43FB") && IsGroup("BB3F") && IsGroup("A0A0") && IsGroup("0");
  }

  /** The loopback address "::1" is accepted. */
  lemma AcceptsLoopback()
    ensures IsValidIPv6("::1")
  {
    var lo := ["", "", "1"];
    assert Join(lo, ":") == "::1";
    assert forall i :: 0 <= i < |lo| ==> ':' !in lo[i];
    ExplodeJoin(lo, ':');
    assert lo[2..] == ["1"];
    assert IsGroup("1");
  }

  // ---------------------------------------------------------------------
  // normalizeIPv6
  // ---------------------------------------------------------------------

  function Zeros(n: nat): (z: seq<string>)
    ensures |z| == n && forall i :: 0 <= i < n ==> z[i] == "0000"
    decreases n
  {
    if n == 0 then [] else ["0000"] + Zeros(n - 1)
  }

  /** The eight groups an accepted address stands for: the groups before
      "::", then 8 - (before + after) groups "0000", then the groups after
      it; or the eight groups as written. */
  function Expanded(ip: string): (gs: seq<string>)
    requires IsValidIPv6(ip)
    ensures |gs| == 8 && AllGroups(gs)
  {
    if IsCompressed(ip) then
      var l, r := Left(ip), Right(ip);
      var z := Zeros(8 - |l| - |r|);
      assert AllGroups(z) by {
        forall i | 0 <= i < |z| ensures IsGroup(z[i]) {
          assert z[i] == "0000";
        }
      }
      AllGroupsAppend(l, z);
      AllGroupsAppend(l + z, r);
      l + z + r
    else
      Explode(ip, ":")
  }

  function Pad4(g: string): string
  {
    PadLeft(g, 4, '0')
  }

  function PadAll(gs: seq<string>): (ps: seq<string>)
    ensures |ps| == |gs| && forall i :: 0 <= i < |gs| ==> ps[i] == Pad4(gs[i])
  {
    seq(|gs|, i requires 0 <= i < |gs| => Pad4(gs[i]))
  }

  /** The canonical text of an accepted address: its eight groups, each
      left-padded with '0' to four digits, joined by ':'. */
  function NormalForm(ip: string): string
    requires IsValidIPv6(ip)
  {
    Join(PadAll(Expanded(ip)), ":")
  }

  lemma Pad4Group(g: string)
    requires IsGroup(g)
    ensures IsGroup(Pad4(g)) && |Pad4(g)| == 4
  {
    var p := Pad4(g);
    PadLeftSpec(g, 4, '0');
    forall i | 0 <= i < |p| ensures IsHexDigit(p[i]) {
      if i >= |p| - |g| {
        assert p[i] == p[|p| - |g|..][i - (|p| - |g|)];
      }
    }
  }

  lemma PaddedGroups(gs: seq<string>)
    requires AllGroups(gs)
    ensures AllGroups(PadAll(gs)) && forall i :: 0 <= i < |gs| ==> |PadAll(gs)[i]| == 4
  {
    forall i | 0 <= i < |gs| ensures IsGroup(PadAll(gs)[i]) && |PadAll(gs)[i]| == 4 {
      Pad4Group(gs[i]);
    }
  }

  lemma {:induction false} JoinFours(ps: seq<string>, sep: string)
    requires ps != [] && forall i :: 0 <= i < |ps| ==> |ps[i]| == 4
    ensures |Join(ps, sep)| == 4 * |ps| + |sep| * (|ps| - 1)
    decreases |ps|
  {
    if |ps| > 1 {
      JoinFours(ps[1..], sep);
    }
  }

  /** The normal form is eight four-digit groups joined by seven colons:
      39 characters that explode(':') splits back into the padded groups. */
  lemma NormalFormShape(ip: string)
    requires IsValidIPv6(ip)
    ensures |NormalForm(ip)| == 39
    ensures Explode(NormalForm(ip), ":") == PadAll(Expanded(ip))
    ensures forall k :: 0 <= k < 8 ==> IsGroup(PadAll(Expanded(ip))[k]) && |PadAll(Expanded(ip))[k]| == 4
  {
    var ps := PadAll(Expanded(ip));
    PaddedGroups(Expanded(ip));
    JoinFours(ps, ":");
    ColonFreeGroups(ps);
    ExplodeJoin(ps, ':');
  }

  /** The normal form is itself accepted, and normalising it changes nothing. */
  lemma NormalFormIdempotent(ip: string)
    requires IsValidIPv6(ip)
    ensures IsValidIPv6(NormalForm(ip))
    ensures NormalForm(NormalForm(ip)) == NormalForm(ip)
  {
    var n := NormalForm(ip);
    var ps := PadAll(Expanded(ip));
    NormalFormShape(ip);
    assert Explode(n, ":") == ps;
    assert FirstEmpty(ps) == |ps|;
    assert WellFormed(ps);
    assert !IsCompressed(n);
    assert Expanded(n) == ps;
    forall i | 0 <= i < 8 ensures PadAll(ps)[i] == ps[i] {
      assert |ps[i]| == 4;
    }
    assert PadAll(ps) == ps;
  }

  /** A ':' in front of text that starts with a group adds no "::". */
  lemma ColonBeforeGroups(rest: string)
    requires rest != [] && rest[0] != ':' && !Contains(rest + ":", "::")
    ensures !Contains(":" + rest + ":", "::")
  {
    var t := ":" + rest + ":";
    assert t[1..] == rest + ":";
    assert t[..2] != "::";
  }

  /** Join(gs) followed by ':' splits after the first group. */
  lemma JoinFront(gs: seq<string>)
    requires |gs| >= 2
    ensures Join(gs, ":") + ":" == gs[0] + (":" + Join(gs[1..], ":") + ":")
  {
  }

  /** Groups joined by ':' never hold "::", even with one more ':' after them. */
  lemma {:induction false} NoDoubleColon(gs: seq<string>)
    requires gs != [] && AllGroups(gs)
    ensures !Contains(Join(gs, ":") + ":", "::")
    ensures !Contains(Join(gs, ":"), "::")
    decreases |gs|
  {
    var g := gs[0];
    assert IsGroup(g);
    assert ':' !in g;
    if |gs| == 1 {
      ContainsAfterPrefix(g, ":", "::");
      assert !Contains(":", "::");
    } else {
      var rest := Join(gs[1..], ":");
      NoDoubleColon(gs[1..]);
      assert IsGroup(gs[1]);
      assert rest[0] == gs[1][0];
      ColonBeforeGroups(rest);
      JoinFront(gs);
      ContainsAfterPrefix(g, ":" + rest + ":", "::");
    }
    if Contains(Join(gs, ":"), "::") {
      ContainsAppend(Join(gs, ":"), ":", "::");
    }
  }

  /** explode('::') splits groups around "::" into the text before it and
      the text after it. */
  lemma ExplodeComposeDoubleColon(l: seq<string>, r: seq<string>)
    requires AllGroups(l) && AllGroups(r) && r != []
    ensures Explode(Compose(l, r), "::") == [Join(l, ":"), Join(r, ":")]
  {
    var x, y := Join(l, ":"), Join(r, ":");
    if l == [] {
      assert x == [];
      assert !Contains(":", "::");
    } else {
      NoDoubleColon(l);
    }
    assert "::"[..1] == ":";
    ExplodeAfterPiece(x, "::", y);
    NoDoubleColon(r);
    ExplodeWithoutSep(y, "::");
  }

  /** Without "::", explode('::') leaves the address whole; with it, the
      address splits into the text before and the text after. */
  lemma ExplodeDoubleColon(ip: string)
    requires IsValidIPv6(ip)
    ensures IsCompressed(ip) ==> Explode(ip, "::") == [Join(Left(ip), ":"), Join(Right(ip), ":")]
    ensures !IsCompressed(ip) ==> Explode(ip, "::") == [ip]
  {
    if IsCompressed(ip) {
      ComposeParts(ip);
      ExplodeComposeDoubleColon(Left(ip), Right(ip));
    } else {
      var ps := Explode(ip, ":");
      JoinExplode(ip, ":");
      NoDoubleColon(ps);
      ExplodeWithoutSep(ip, "::");
    }
  }

  lemma {:induction false} RepeatZeroGroups(n: nat, right: seq<string>)
    requires right != []
    ensures Repeat("0000:", n) + Join(right, ":") == Join(Zeros(n) + right, ":")
    decreases n
  {
    if n > 0 {
      var zr := Zeros(n) + right;
      RepeatZeroGroups(n - 1, right);
      RepeatFront("0000:", n);
      assert zr[0] == "0000" && zr[1..] == Zeros(n - 1) + right;
      assert Join(zr, ":") == "0000" + ":" + Join(zr[1..], ":");
    } else {
      assert Zeros(n) + right == right;
    }
  }

  /** The counts normalizeIPv6 takes of the two sides of "::": a leading
      "::" leaves one empty piece on the left, which the source counts as none. */
  lemma ChunkCounts(l: seq<string>, r: seq<string>)
    requires AllGroups(l) && AllGroups(r) && r != []
    ensures |Explode(Join(r, ":"), ":")| == |r|
    ensures var cl := Explode(Join(l, ":"), ":"); (if |cl| == 1 && |cl[0]| == 0 then 0 else |cl|) == |l|
  {
    ColonFreeGroups(l);
    ColonFreeGroups(r);
    ExplodeJoin(r, ':');
    if l != [] {
      ExplodeJoin(l, ':');
      assert IsGroup(l[0]);
    }
  }

  lemma ZerosAreGroups(n: nat)
    ensures AllGroups(Zeros(n))
  {
    var z := Zeros(n);
    forall i | 0 <= i < n ensures IsGroup(z[i]) {
      assert z[i] == "0000";
    }
  }

  lemma StageOneText(l: seq<string>, r: seq<string>, n: nat, stageOne: string)
    requires r != []
    requires stageOne == if l == [] then Repeat("0000:", n) + Join(r, ":")
                         else Join(l, ":") + ":" + Repeat("0000:", n) + Join(r, ":")
    ensures stageOne == Join(l + Zeros(n) + r, ":")
  {
    var z := Zeros(n);
    var tail := Repeat("0000:", n) + Join(r, ":");
    RepeatZeroGroups(n, r);
    if l != [] {
      JoinAppend(l, z + r, ":");
      assert l + z + r == l + (z + r);
      assert stageOne == Join(l, ":") + ":" + tail;
    } else {
      assert l + z + r == z + r;
    }
  }

  /** The text normalizeIPv6 builds from the two sides and the hidden
      "0000:" blocks reads back as the expanded groups. */
  lemma StageOneGroups(l: seq<string>, r: seq<string>, stageOne: string)
    requires AllGroups(l) && AllGroups(r) && r != [] && |l| + |r| <= 8
    requires stageOne == if l == [] then Repeat("0000:", 8 - |l| - |r|) + Join(r, ":")
                         else Join(l, ":") + ":" + Repeat("0000:", 8 - |l| - |r|) + Join(r, ":")
    ensures Explode(stageOne, ":") == l + Zeros(8 - |l| - |r|) + r
  {
    var gs := l + Zeros(8 - |l| - |r|) + r;
    StageOneText(l, r, 8 - |l| - |r|, stageOne);
    ZerosAreGroups(8 - |l| - |r|);
    AllGroupsAppend(l, Zeros(8 - |l| - |r|));
    AllGroupsAppend(l + Zeros(8 - |l| - |r|), r);
    ColonFreeGroups(gs);
    ExplodeJoin(gs, ':');
  }

  lemma ExpandedCompressed(ip: string)
    requires IsValidIPv6(ip) && IsCompressed(ip)
    ensures Expanded(ip) == Left(ip) + Zeros(8 - |Left(ip)| - |Right(ip)|) + Right(ip)
  {
  }

  /** The text the block loop of normalizeIPv6 has built after i blocks:
      the padded blocks so far, each followed by ':' up to the seventh. */
  function BlocksSoFar(blocks: seq<string>, i: nat): string
    requires i <= |blocks| == 8
  {
    if i == 0 then "" else Join(PadAll(blocks[..i]), ":") + (if i < 8 then ":" else "")
  }

  /** One step of the block loop: the padded block joins the text so far. */
  lemma BlockStep(blocks: seq<string>, i: nat, soFar: string, padded: string)
    requires i < |blocks| == 8 && soFar == BlocksSoFar(blocks, i)
    requires padded == Pad4(blocks[i])
    ensures soFar + padded + (if i < 7 then ":" else "") == BlocksSoFar(blocks, i + 1)
  {
    assert PadAll(blocks[..i + 1]) == PadAll(blocks[..i]) + [Pad4(blocks[i])];
    if i > 0 {
      JoinAppend(PadAll(blocks[..i]), [Pad4(blocks[i])], ":");
    }
  }

  lemma PadZeros(block: string, n: int)
    requires n == if 4 - |block| > 0 then 4 - |block| else 0
    ensures Repeat("0", n) + block == Pad4(block)
  {
    assert "0" == ['0'];
  }

  /** The two sides of "::" in an accepted address are runs of groups, at
      least one after it and at most eight in all. */
  lemma CompressedSides(ip: string)
    requires IsValidIPv6(ip) && IsCompressed(ip)
    ensures AllGroups(Left(ip)) && AllGroups(Right(ip))
    ensures Right(ip) != [] && |Left(ip)| + |Right(ip)| <= 8
  {
  }

  /** Lines 125-147 of normalizeIPv6: the text before and the text after
      "::" are exploded and counted, and as many "0000:" blocks as are
      hidden go between them. */
  method ExpandChunks(before: string, after: string, ghost l: seq<string>, ghost r: seq<string>)
    returns (stageOne: string)
    requires AllGroups(l) && AllGroups(r) && r != [] && |l| + |r| <= 8
    requires before == Join(l, ":") && after == Join(r, ":")
    ensures Explode(stageOne, ":") == l + Zeros(8 - |l| - |r|) + r
  {
    ChunkCounts(l, r);
    var chunksLeft := Explode(before, ":");
    var chunksRight := Explode(after, ":");
    var left := |chunksLeft|;
    var right := |chunksRight|;
    if left == 1 && |chunksLeft[0]| == 0 {
      left := 0;
    }
    assert left == |l| && right == |r|;
    var hiddenBlocks := 8 - (left + right);
    var hiddenPart := "";
    var h := 0;
    while h < hiddenBlocks
      invariant 0 <= h <= hiddenBlocks
      invariant hiddenPart == Repeat("0000:", h)
    {
      hiddenPart := hiddenPart + "0000:";
      h := h + 1;
    }
    assert hiddenPart == Repeat("0000:", 8 - |l| - |r|);
    if left == 0 {
      stageOne := hiddenPart + after;
    } else {
      stageOne := before + ":" + hiddenPart + after;
    }
    StageOneGroups(l, r, stageOne);
  }

  /** The first stage of normalizeIPv6: "::" replaced by as many "0000:"
      blocks as are hidden, so that the text reads as the eight expanded groups. */
  method StageOne(address: string) returns (stageOne: string)
    requires IsValidIPv6(address)
    ensures Explode(stageOne, ":") == Expanded(address)
  {
    var chunks := Explode(address, "::");
    ExplodeDoubleColon(address);
    if |chunks| == 2 {
      CompressedSides(address);
      stageOne := ExpandChunks(chunks[0], chunks[1], Left(address), Right(address));
      ExpandedCompressed(address);
    } else {
      stageOne := address;
    }
  }

  /** normalizeIPv6($address), for an address isValidIPv6 accepts: every
      block of the first stage left-padded with '0' to four digits. */
  method NormalizeIPv6(address: string) returns (normalized: string)
    requires IsValidIPv6(address)
    ensures normalized == NormalForm(address)
  {
    var stageOne := StageOne(address);
    var blocks := Explode(stageOne, ":");

    normalized := "";
    var divCounter := 0;
    var i := 0;
    while i < |blocks|
      invariant 0 <= i <= |blocks| == 8
      invariant divCounter == if i < 7 then i else 7
      invariant normalized == BlocksSoFar(blocks, i)
    {
      var block := blocks[i];
      var tmpBlock := "";
      var j := 0;
      var hiddenZeros := 4 - |block|;
      while j < hiddenZeros
        invariant 0 <= j && (j <= hiddenZeros || j == 0)
        invariant tmpBlock == Repeat("0", j)
      {
        tmpBlock := tmpBlock + "0";
        j := j + 1;
      }
      PadZeros(block, j);
      BlockStep(blocks, i, normalized, tmpBlock + block);
      normalized := normalized + (tmpBlock + block);
      if divCounter < 7 {
        normalized := normalized + ":";
        divCounter := divCounter + 1;
      }
      i := i + 1;
    }
    assert blocks[..8] == blocks;
  }

  // ---------------------------------------------------------------------
  // IPv6Hex2Bin
  // ---------------------------------------------------------------------

  /** substr($digits, 2 * k, 2): the k-th pair of digits, shorter at the end. */
  function Pair(digits: string, k: nat): string
    requires 2 * k < |digits|
  {
    digits[2 * k..if 2 * k + 2 <= |digits| then 2 * k + 2 else |digits|]
  }

  /** The bytes IPv6Hex2Bin builds: the text without its colons, read two
      characters at a time by hexdec and turned into a byte by chr. */
  function DecodeHex(hex: string): seq<byte>
  {
    var digits := RemoveChar(hex, ':');
    seq((|digits| + 1) / 2, k requires 0 <= k < (|digits| + 1) / 2 => Chr(HexDec(Pair(digits, k))))
  }

  /** IPv6Hex2Bin($hex). */
  method IPv6Hex2Bin(hex: string) returns (bin: seq<byte>)
    ensures bin == DecodeHex(hex)
  {
    bin := [];
    var digits := RemoveChar(hex, ':');
    var i := 0;
    while i < |digits|
      invariant i == 2 * |bin| && i <= |digits| + 1
      invariant forall k :: 0 <= k < |bin| ==> bin[k] == Chr(HexDec(Pair(digits, k)))
    {
      bin := bin + [Chr(HexDec(digits[i..if i + 2 <= |digits| then i + 2 else |digits|]))];
      i := i + 2;
    }
  }

  /** The 16-bit values of the eight groups of an accepted address. */
  function Words(ip: string): (w: seq<nat>)
    requires IsValidIPv6(ip)
    ensures |w| == 8 && forall k :: 0 <= k < 8 ==> w[k] < 0x1_0000
  {
    var gs := Expanded(ip);
    seq(8, k requires 0 <= k < 8 => HexDec(gs[k]))
  }

  lemma {:induction false} HexDecOfZeros(z: string)
    requires forall i :: 0 <= i < |z| ==> z[i] == '0'
    ensures HexDec(z) == 0
    decreases |z|
  {
    if z != [] {
      HexDecOfZeros(z[..|z| - 1]);
    }
  }

  lemma {:induction false} HexDecAfterZeros(z: string, g: string)
    requires forall i :: 0 <= i < |z| ==> z[i] == '0'
    ensures HexDec(z + g) == HexDec(g)
    decreases |g|
  {
    if g == [] {
      assert z + g == z;
      HexDecOfZeros(z);
    } else {
      assert (z + g)[..|z + g| - 1] == z + g[..|g| - 1];
      HexDecAfterZeros(z, g[..|g| - 1]);
    }
  }

  lemma HexDecOfFour(p: string)
    requires |p| == 4 && forall i :: 0 <= i < 4 ==> IsHexDigit(p[i])
    ensures HexDec(p) == 256 * HexDec(p[..2]) + HexDec(p[2..])
  {
    assert p[..3][..2] == p[..2];
    assert p[..2][..1] == p[..1];
    assert p[2..][..1] == p[2..3];
    assert p[..1][..0] == [];
    assert p[2..3][..0] == [];
  }

  lemma {:induction false} ConcatFours(ps: seq<string>)
    requires forall i :: 0 <= i < |ps| ==> |ps[i]| == 4
    ensures |Join(ps, [])| == 4 * |ps|
    ensures forall k :: 0 <= k < |ps| ==> Join(ps, [])[4 * k..4 * k + 4] == ps[k]
    decreases |ps|
  {
    if |ps| > 1 {
      ConcatFours(ps[1..]);
      var j := Join(ps, []);
      assert j == ps[0] + Join(ps[1..], []);
      forall k | 0 <= k < |ps| ensures j[4 * k..4 * k + 4] == ps[k] {
        if k > 0 {
          assert j[4 * k..4 * k + 4] == Join(ps[1..], [])[4 * (k - 1)..4 * (k - 1) + 4];
        }
      }
    }
  }

  lemma DecodePair(digits: string, p: string, k: nat)
    requires 4 * k + 4 <= |digits| && digits[4 * k..4 * k + 4] == p
    requires |p| == 4 && forall i :: 0 <= i < 4 ==> IsHexDigit(p[i])
    ensures HexDec(p) == 256 * Chr(HexDec(Pair(digits, 2 * k))) as int + Chr(HexDec(Pair(digits, 2 * k + 1))) as int
  {
    var hi, lo := Pair(digits, 2 * k), Pair(digits, 2 * k + 1);
    assert hi == p[..2];
    assert lo == p[2..];
    HexDecOfFour(p);
    ChrOfByte(HexDec(hi));
    ChrOfByte(HexDec(lo));
  }

  lemma ChrOfByte(n: nat)
    requires n < 256
    ensures Chr(n) as int == n
  {
  }

  /** Eight four-digit groups joined by ':' decode to 16 bytes, two per group. */
  lemma DecodeFourDigitGroups(ps: seq<string>)
    requires |ps| == 8 && forall i :: 0 <= i < 8 ==> IsGroup(ps[i]) && |ps[i]| == 4
    ensures |DecodeHex(Join(ps, ":"))| == 16
    ensures forall k :: 0 <= k < 8 ==>
      HexDec(ps[k]) == 256 * DecodeHex(Join(ps, ":"))[2 * k] as int + DecodeHex(Join(ps, ":"))[2 * k + 1] as int
  {
    forall i | 0 <= i < 8 ensures ':' !in ps[i] {
      assert IsGroup(ps[i]);
    }
    RemoveCharJoin(ps, ':');
    var digits := RemoveChar(Join(ps, ":"), ':');
    ConcatFours(ps);
    var bin := DecodeHex(Join(ps, ":"));
    assert |digits| == 32 && |bin| == 16;
    forall k | 0 <= k < 8
      ensures HexDec(ps[k]) == 256 * bin[2 * k] as int + bin[2 * k + 1] as int
    {
      assert IsGroup(ps[k]);
      assert digits[4 * k..4 * k + 4] == ps[k];
      DecodeGroupAt(Join(ps, ":"), ps[k], k);
    }
  }

  /** Four hex digits at digit position 4k of the colon-free text are the
      bytes 2k and 2k + 1 of DecodeHex. */
  lemma DecodeGroupAt(hex: string, p: string, k: nat)
    requires 4 * k + 4 <= |RemoveChar(hex, ':')| && RemoveChar(hex, ':')[4 * k..4 * k + 4] == p
    requires |p| == 4 && forall i :: 0 <= i < 4 ==> IsHexDigit(p[i])
    ensures 2 * k + 1 < |DecodeHex(hex)|
    ensures HexDec(p) == 256 * DecodeHex(hex)[2 * k] as int + DecodeHex(hex)[2 * k + 1] as int
  {
    var digits := RemoveChar(hex, ':');
    DecodePair(digits, p, k);
    assert DecodeHex(hex)[2 * k] == Chr(HexDec(Pair(digits, 2 * k)));
    assert DecodeHex(hex)[2 * k + 1] == Chr(HexDec(Pair(digits, 2 * k + 1)));
  }

  /** Leading zeros do not change the value of a group. */
  lemma PadKeepsValue(g: string)
    requires IsGroup(g)
    ensures HexDec(Pad4(g)) == HexDec(g)
  {
    RepeatChar('0', 4 - |g|);
    HexDecAfterZeros(Repeat("0", 4 - |g|), g);
  }

  /** The 16 bytes decoded from the normal form are the eight words, high
      byte first. */
  lemma DecodeNormalForm(ip: string)
    requires IsValidIPv6(ip)
    ensures |DecodeHex(NormalForm(ip))| == 16
    ensures forall k :: 0 <= k < 8 ==>
      Words(ip)[k] == 256 * DecodeHex(NormalForm(ip))[2 * k] as int + DecodeHex(NormalForm(ip))[2 * k + 1] as int
  {
    var gs := Expanded(ip);
    var ps := PadAll(gs);
    NormalFormShape(ip);
    DecodeFourDigitGroups(ps);
    forall k | 0 <= k < 8 ensures Words(ip)[k] == HexDec(ps[k]) {
      assert IsGroup(gs[k]);
      PadKeepsValue(gs[k]);
    }
  }

  lemma BytesAndWords(bx: seq<byte>, bY: seq<byte>, wx: seq<nat>, wy: seq<nat>)
    requires |bx| == |bY| == 16 && |wx| == |wy| == 8
    requires forall k :: 0 <= k < 8 ==> wx[k] == 256 * bx[2 * k] as int + bx[2 * k + 1] as int
    requires forall k :: 0 <= k < 8 ==> wy[k] == 256 * bY[2 * k] as int + bY[2 * k + 1] as int
    ensures bx == bY <==> wx == wy
  {
    if wx == wy {
      forall j | 0 <= j < 16 ensures bx[j] == bY[j] {
        var k := j / 2;
        assert wx[k] == wy[k];
      }
    }
  }

  /** Two accepted addresses decode to the same bytes exactly when their
      eight 16-bit words agree: hex case and leading zeros do not matter. */
  lemma SameBytesIffSameWords(x: string, y: string)
    requires IsValidIPv6(x) && IsValidIPv6(y)
    ensures DecodeHex(NormalForm(x)) == DecodeHex(NormalForm(y)) <==> Words(x) == Words(y)
  {
    DecodeNormalForm(x);
    DecodeNormalForm(y);
    BytesAndWords(DecodeHex(NormalForm(x)), DecodeHex(NormalForm(y)), Words(x), Words(y));
  }

  // ---------------------------------------------------------------------
  // compareIPv6
  // ---------------------------------------------------------------------

  /** The entries of a pattern list: split on ',' and trimmed, empty ones kept. */
  function Entries(list: string): seq<string>
  {
    TrimExplode(list, ',', false)
  }

  /** Whether the address `test` with the mask text `mask` admits baseIP:
      the address must be accepted, the mask must be read as 0 by intval or
      be exactly "48" or "64", and the two addresses must have the same
      eight words. Every other mask admits nothing. */
  predicate TestMatches(baseIP: string, test: string, mask: string)
    requires IsValidIPv6(baseIP)
  {
    && IsValidIPv6(test)
    && (IntVal(mask) == 0 || mask == "48" || mask == "64")
    && Words(test) == Words(baseIP)
  }

  /** One entry of the list, "test" or "test/mask", split at its first '/'. */
  predicate EntryMatches(baseIP: string, entry: string)
    requires IsValidIPv6(baseIP)
  {
    TestMatches(baseIP, ListTwo(entry, "/").0, ListTwo(entry, "/").1)
  }

  predicate ListMatches(baseIP: string, list: string)
    requires IsValidIPv6(baseIP)
  {
    exists i :: 0 <= i < |Entries(list)| && EntryMatches(baseIP, Entries(list)[i])
  }

  /** The three comparisons of compareIPv6 on the decoded normal forms: the
      first 48 or 64 bytes of the 16 bytes are all of them, so each is
      equality of the eight words. */
  lemma DecodedComparisons(test: string, baseIP: string)
    requires IsValidIPv6(test) && IsValidIPv6(baseIP)
    ensures var tb, bb := DecodeHex(NormalForm(test)), DecodeHex(NormalForm(baseIP));
      && (Substr(tb, 48) == Substr(bb, 48) <==> Words(test) == Words(baseIP))
      && (Substr(tb, 64) == Substr(bb, 64) <==> Words(test) == Words(baseIP))
      && (tb == bb <==> Words(test) == Words(baseIP))
  {
    SameBytesIffSameWords(test, baseIP);
    DecodeNormalForm(test);
    DecodeNormalForm(baseIP);
  }

  /** One entry as compareIPv6 treats it, for a base already normalised. */
  method TestEntry(baseIP: string, base: string, entry: string) returns (success: bool)
    requires IsValidIPv6(baseIP) && base == NormalForm(baseIP)
    ensures success <==> EntryMatches(baseIP, entry)
  {
    var (test, mask) := ListTwo(entry, "/");
    success := false;
    if IsValidIPv6(test) {
      var normalizedTest := NormalizeIPv6(test);
      DecodedComparisons(test, baseIP);
      if IntVal(mask) != 0 {
        if mask == "48" {
          var testBin := IPv6Hex2Bin(normalizedTest);
          var baseIPBin := IPv6Hex2Bin(base);
          success := Substr(testBin, 48) == Substr(baseIPBin, 48);
        } else if mask == "64" {
          var testBin := IPv6Hex2Bin(normalizedTest);
          var baseIPBin := IPv6Hex2Bin(base);
          success := Substr(testBin, 64) == Substr(baseIPBin, 64);
        } else {
          success := false;
        }
      } else {
        NormalFormIdempotent(test);
        if IsValidIPv6(normalizedTest) {
          var testBin := IPv6Hex2Bin(normalizedTest);
          var baseIPBin := IPv6Hex2Bin(base);
          success := testBin == baseIPBin;
        }
      }
    }
  }

  /** compareIPv6($baseIP, $list), for a base address isValidIPv6 accepts. */
  method CompareIPv6(baseIP: string, list: string) returns (matched: bool)
    requires IsValidIPv6(baseIP)
    ensures matched <==> ListMatches(baseIP, list)
  {
    var base := NormalizeIPv6(baseIP);
    var values := Entries(list);
    var n := 0;
    while n < |values|
      invariant 0 <= n <= |values|
      invariant NoneMatchBefore(baseIP, values, n)
    {
      var success := TestEntry(baseIP, base, values[n]);
      if success {
        FoundEntry(baseIP, list, n);
        return true;
      }
      NoneMatchStep(baseIP, values, n);
      n := n + 1;
    }
    NoneMatch(baseIP, list);
    return false;
  }

  /** No entry before index k admits the base. */
  predicate NoneMatchBefore(baseIP: string, values: seq<string>, k: int)
    requires IsValidIPv6(baseIP) && 0 <= k <= |values|
  {
    forall i :: 0 <= i < k ==> !EntryMatches(baseIP, values[i])
  }

  lemma NoneMatchStep(baseIP: string, values: seq<string>, k: int)
    requires IsValidIPv6(baseIP) && 0 <= k < |values| && NoneMatchBefore(baseIP, values, k)
    requires !EntryMatches(baseIP, values[k])
    ensures NoneMatchBefore(baseIP, values, k + 1)
  {
  }

  lemma NoneMatch(baseIP: string, list: string)
    requires IsValidIPv6(baseIP) && NoneMatchBefore(baseIP, Entries(list), |Entries(list)|)
    ensures !ListMatches(baseIP, list)
  {
  }

  lemma FoundEntry(baseIP: string, list: string, k: int)
    requires IsValidIPv6(baseIP)
    requires 0 <= k < |Entries(list)| && EntryMatches(baseIP, Entries(list)[k])
    ensures ListMatches(baseIP, list)
  {
  }
}

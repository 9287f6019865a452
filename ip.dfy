/** The dispatchers of the address utilities: compare and isValid choose
    between the IPv4 and the IPv6 code, and compareFQDN matches the host
    name of an address against a list of name patterns. */
module IP {
  import opened Php
  import IPv4
  import IPv6

  // ---------------------------------------------------------------------
  // isValid
  // ---------------------------------------------------------------------

  /** isValid($ip): without ':' the IPv4 test, otherwise the IPv6 test. */
  predicate IsValid(ip: string)
  {
    if ':' !in ip then IPv4.IsValidIPv4(ip) else IPv6.IsValidIPv6(ip)
  }

  lemma NoColonInQuad(a: int, b: int, c: int, d: int)
    ensures ':' !in IPv4.Quad(a, b, c, d)
  {
    IPv4.DecHasNoSeparator(a);
    IPv4.DecHasNoSeparator(b);
    IPv4.DecHasNoSeparator(c);
    IPv4.DecHasNoSeparator(d);
    var ps := [Dec(a), Dec(b), Dec(c), Dec(d)];
    assert Join(ps[3..], ".") == Dec(d);
    assert Join(ps[2..], ".") == Dec(c) + "." + Dec(d);
    assert Join(ps[1..], ".") == Dec(b) + "." + (Dec(c) + "." + Dec(d));
  }

  /** An accepted IPv4 address has no ':'. */
  lemma IPv4HasNoColon(ip: string)
    requires IPv4.IsValidIPv4(ip)
    ensures ':' !in ip
  {
    IPv4.ValidIsQuad(ip);
    var ps := Explode(ip, ".");
    NoColonInQuad(IntVal(ps[0]), IntVal(ps[1]), IntVal(ps[2]), IntVal(ps[3]));
  }

  /** An accepted IPv6 address has a ':'. */
  lemma IPv6HasColon(ip: string)
    requires IPv6.IsValidIPv6(ip)
    ensures ':' in ip
  {
    if ':' !in ip {
      ContainsChar(ip, ':');
      ExplodeWithoutSep(ip, ":");
    }
  }

  /** The dispatch on ':' loses nothing: isValid accepts exactly the
      addresses that one of the two format tests accepts. */
  lemma IsValidIff(ip: string)
    ensures IsValid(ip) <==> IPv4.IsValidIPv4(ip) || IPv6.IsValidIPv6(ip)
  {
    if IPv4.IsValidIPv4(ip) {
      IPv4HasNoColon(ip);
    }
    if IPv6.IsValidIPv6(ip) {
      IPv6HasColon(ip);
    }
  }

  // ---------------------------------------------------------------------
  // compare
  // ---------------------------------------------------------------------

  /** What compare($baseIP, $list) answers. The list is trimmed first; an
      empty list admits nothing and "*" admits everything. A base with ':'
      that is an accepted IPv6 address goes to compareIPv6; any other base
      goes to compareIPv4. */
  predicate Compares(baseIP: string, list: string)
  {
    var l := Trim(list);
    if l == "" then false
    else if l == "*" then true
    else if ':' in baseIP && IPv6.IsValidIPv6(baseIP) then IPv6.ListMatches(baseIP, l)
    else IPv4.ListMatches(baseIP, l)
  }

  /** compare($baseIP, $list). */
  method Compare(baseIP: string, list: string) returns (matched: bool)
    ensures matched <==> Compares(baseIP, list)
  {
    var l := Trim(list);
    if l == "" {
      return false;
    } else if l == "*" {
      return true;
    }
    if ':' in baseIP && IPv6.IsValidIPv6(baseIP) {
      matched := IPv6.CompareIPv6(baseIP, l);
    } else {
      matched := IPv4.CompareIPv4(baseIP, l);
    }
  }

  /** Only blanks in the list: nothing matches. */
  lemma BlankListRejects(baseIP: string, list: string)
    requires forall i :: 0 <= i < |list| ==> IsBlank(list[i])
    ensures !Compares(baseIP, list)
  {
    TrimSpec(list);
  }

  /** An IPv6 base is never handed to the IPv4 code, and an IPv4 base never
      to the IPv6 code. */
  lemma CompareDispatch(baseIP: string, list: string)
    requires Trim(list) != "" && Trim(list) != "*"
    ensures IPv6.IsValidIPv6(baseIP) ==> (Compares(baseIP, list) <==> IPv6.ListMatches(baseIP, Trim(list)))
    ensures IPv4.IsValidIPv4(baseIP) ==> (Compares(baseIP, list) <==> IPv4.ListMatches(baseIP, Trim(list)))
  {
    if IPv6.IsValidIPv6(baseIP) {
      IPv6HasColon(baseIP);
    }
    if IPv4.IsValidIPv4(baseIP) {
      IPv4HasNoColon(baseIP);
    }
  }

  /** A valid IPv4 address is admitted by its own entry with any mask from
      0 to 32. */
  lemma SelfMatch(a: string, m: nat)
    requires IPv4.IsValidIPv4(a) && m <= 32
    ensures Compares(a, a + "/" + Dec(m))
  {
    var l := a + "/" + Dec(m);
    IPv4HasNoColon(a);
    IPv4.ValidHasNoSeparator(a);
    DecSpec(m);
    assert l[0] == a[0] && l[|l| - 1] == Dec(m)[|Dec(m)| - 1];
    TrimSpec(l);
    assert Trim(l) == l;
    IPv4.EntrySelfMatch(a, m);
  }

  // ---------------------------------------------------------------------
  // compareFQDN
  // ---------------------------------------------------------------------

  /** What compareFQDN answers when gethostbyaddr($baseIP) gives hostName:
      the base has four '.' parts and some non-empty trimmed entry of the
      list matches the labels of hostName, label by label, with "*" as a
      wildcard. */
  predicate FqdnMatches(baseIP: string, list: string, hostName: string)
  {
    var values := TrimExplode(list, ',', true);
    && |Explode(baseIP, ".")| == 4
    && exists i :: 0 <= i < |values| && IPv4.SegmentsMatch(Explode(values[i], "."), Explode(hostName, "."))
  }

  /** compareFQDN($baseIP, $list), the name lookup given as hostName. */
  method CompareFQDN(baseIP: string, list: string, hostName: string) returns (matched: bool)
    ensures matched <==> FqdnMatches(baseIP, list, hostName)
  {
    if |Explode(baseIP, ".")| == 4 {
      var resolvedHostName := Explode(hostName, ".");
      var values := TrimExplode(list, ',', true);
      var k := 0;
      while k < |values|
        invariant 0 <= k <= |values|
        invariant forall i :: 0 <= i < k ==> !IPv4.SegmentsMatch(Explode(values[i], "."), resolvedHostName)
      {
        var hostNameParts := Explode(values[k], ".");
        var yes := IPv4.MatchSegments(hostNameParts, resolvedHostName);
        if yes {
          return true;
        }
        k := k + 1;
      }
    }
    return false;
  }

  /** compareFQDN looks at exactly the non-empty trimmed entries: it answers
      true exactly when one of them matches. */
  lemma FqdnSkipsEmptyEntries(baseIP: string, list: string, hostName: string)
    requires |Explode(baseIP, ".")| == 4
    ensures FqdnMatches(baseIP, list, hostName) <==>
      exists e :: e in TrimExplode(list, ',', false) && e != "" &&
        IPv4.SegmentsMatch(Explode(e, "."), Explode(hostName, "."))
  {
    TrimExplodeSpec(list, ',');
    var values := TrimExplode(list, ',', true);
    if FqdnMatches(baseIP, list, hostName) {
      var i :| 0 <= i < |values| && IPv4.SegmentsMatch(Explode(values[i], "."), Explode(hostName, "."));
      assert values[i] in values;
    }
    if exists e :: e in TrimExplode(list, ',', false) && e != "" &&
        IPv4.SegmentsMatch(Explode(e, "."), Explode(hostName, ".")) {
      var e :| e in TrimExplode(list, ',', false) && e != "" &&
        IPv4.SegmentsMatch(Explode(e, "."), Explode(hostName, "."));
      assert e in values;
      var i :| 0 <= i < |values| && values[i] == e;
    }
  }
}

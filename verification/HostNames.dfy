/**
 Which spellings of a host are one host to the router of internal/routing/router.go, and
 which host and path two routes must share to be duplicates for
 internal/config/validate.go.
 */
module HostNames {
  import opened Common
  import opened Text
  import opened Routing

  predicate IsLetter(c: char) {
    'A' <= c <= 'Z' || 'a' <= c <= 'z'
  }

  // ---------- letter case ----------

  lemma LowerKeeps(s: string, i: nat, c: char)
    requires i < |s| && !IsLetter(c)
    ensures ToLower(s)[i] == c <==> s[i] == c
  {
  }

  lemma LowerHas(s: string, c: char)
    requires !IsLetter(c)
    ensures c in ToLower(s) <==> c in s
  {
    forall i | 0 <= i < |s| ensures ToLower(s)[i] == c <==> s[i] == c {
      LowerKeeps(s, i, c);
    }
  }

  lemma LowerTail(s: string, i: nat)
    requires i <= |s|
    ensures ToLower(s)[i..] == ToLower(s[i..])
  {
  }

  lemma LowerInit(s: string, i: nat)
    requires i <= |s|
    ensures ToLower(s)[..i] == ToLower(s[..i])
  {
  }

  lemma {:induction false} LowerLastIndex(s: string, c: char)
    requires !IsLetter(c)
    ensures LastIndex(ToLower(s), c) == LastIndex(s, c)
  {
    if s != [] {
      var n := |s| - 1;
      LowerKeeps(s, n, c);
      LowerInit(s, n);
      LowerLastIndex(s[..n], c);
    }
  }

  lemma {:induction false} LowerFirstIndex(s: string, c: char)
    requires !IsLetter(c)
    ensures FirstIndex(ToLower(s), c) == FirstIndex(s, c)
  {
    if s != [] {
      LowerKeeps(s, 0, c);
      LowerTail(s, 1);
      LowerFirstIndex(s[1..], c);
    }
  }

  lemma {:induction false} LowerTrimLeft(s: string)
    ensures TrimLeft(ToLower(s)) == ToLower(TrimLeft(s))
  {
    if s != [] && IsSpace(s[0]) {
      LowerTail(s, 1);
      LowerTrimLeft(s[1..]);
    }
  }

  lemma {:induction false} LowerTrimRight(s: string)
    ensures TrimRight(ToLower(s)) == ToLower(TrimRight(s))
  {
    if s != [] && IsSpace(s[|s| - 1]) {
      LowerInit(s, |s| - 1);
      LowerTrimRight(s[..|s| - 1]);
    }
  }

  lemma LowerTwice(s: string)
    ensures ToLower(ToLower(s)) == ToLower(s)
  {
  }

  lemma LowerTidy(s: string)
    ensures Tidy(ToLower(s)) == Tidy(s)
  {
    LowerTrimLeft(s);
    LowerTrimRight(TrimLeft(s));
    LowerTwice(TrimSpace(s));
  }

  function Lowered(host: Option<string>): Option<string> {
    match host case None => None case Some(name) => Some(ToLower(name))
  }

  lemma LowerSplitBracketed(s: string)
    requires s != "" && s[0] == '['
    ensures SplitHost(ToLower(s)) == Lowered(SplitHost(s))
  {
    var end := FirstIndex(s, ']');
    LowerKeeps(s, 0, '[');
    LowerLastIndex(s, ':');
    LowerFirstIndex(s, ']');
    LowerTail(s, 1);
    LowerHas(s[1..], '[');
    if end >= 0 {
      LowerTail(s, end + 1);
      LowerHas(s[end + 1..], ']');
      LowerInit(s, end);
      LowerTail(s[..end], 1);
      assert s[..end][1..] == s[1..end] && ToLower(s)[..end][1..] == ToLower(s)[1..end];
    }
  }

  lemma LowerSplitName(s: string)
    requires s != "" && s[0] != '['
    ensures SplitHost(ToLower(s)) == Lowered(SplitHost(s))
  {
    var colon := LastIndex(s, ':');
    LowerKeeps(s, 0, '[');
    LowerLastIndex(s, ':');
    LowerHas(s, '[');
    LowerHas(s, ']');
    if colon >= 0 {
      LowerInit(s, colon);
      LowerHas(s[..colon], ':');
    }
  }

  lemma LowerSplit(s: string)
    ensures SplitHost(ToLower(s)) == Lowered(SplitHost(s))
  {
    if s == "" {
    } else if s[0] == '[' {
      LowerSplitBracketed(s);
    } else {
      LowerSplitName(s);
    }
  }

  lemma LowerNormal(s: string)
    ensures NormalizeHost(ToLower(s)) == NormalizeHost(s)
  {
    LowerSplit(s);
    LowerTidy(s);
    if SplitHost(s).Some? {
      LowerTidy(SplitHost(s).value);
    }
  }

  /** The router treats these two spellings of a host alike: in a request, and in a route. */
  ghost predicate SameHost(s: string, t: string) {
    && (forall routes, path :: Choose(routes, s, path) == Choose(routes, t, path))
    && forall name, prefix, pool, host, path ::
         s != "" && t != "" ==>
           (Fits(Route(name, s, prefix, pool), host, path) <==> Fits(Route(name, t, prefix, pool), host, path))
  }

  lemma SameNormal(s: string, t: string)
    requires NormalizeHost(s) == NormalizeHost(t)
    ensures SameHost(s, t)
  {
  }

  /** Letter case does not matter. */
  lemma CaseIgnored(s: string, t: string)
    requires SameUpToCase(s, t)
    ensures SameHost(s, t)
  {
    LowerIffSameUpToCase(s, t);
    LowerNormal(s);
    LowerNormal(t);
    SameNormal(s, t);
  }

  // ---------- ports, dots, spaces ----------

  predicate Portless(s: string) {
    ':' !in s && '[' !in s && ']' !in s
  }

  lemma {:induction false} LastColon(s: string, port: string)
    requires ':' !in port
    ensures LastIndex(s + [':'] + port, ':') == |s|
  {
    var t := s + [':'] + port;
    if port == [] {
      assert t == s + [':'];
    } else {
      assert t[..|t| - 1] == s + [':'] + port[..|port| - 1];
      assert port[|port| - 1] in port;
      LastColon(s, port[..|port| - 1]);
    }
  }

  /** A port is taken off a name. */
  lemma PortIgnored(name: string, port: string)
    requires Portless(name) && Portless(port)
    ensures SameHost(name + [':'] + port, name)
  {
    var s := name + [':'] + port;
    LastColon(name, port);
    assert s[..|name|] == name;
    assert '[' !in s && ']' !in s;
    SameNormal(s, name);
  }

  lemma {:induction false} FirstBracket(address: string, rest: string)
    requires ']' !in address
    ensures FirstIndex(address + [']'] + rest, ']') == |address|
  {
    var t := address + [']'] + rest;
    if address != [] {
      assert t[1..] == address[1..] + [']'] + rest;
      FirstBracket(address[1..], rest);
    }
  }

  /** The port and the brackets are taken off a bracketed address. */
  lemma BracketsIgnored(address: string, port: string)
    requires '[' !in address && ']' !in address && Portless(port)
    ensures NormalizeHost(['['] + address + [']', ':'] + port) == Tidy(address)
  {
    BracketsSplit(address, port);
  }

  lemma BracketedSplit(s: string, address: string, port: string)
    requires s == ['['] + address + [']', ':'] + port
    requires '[' !in address && Portless(port)
    requires FirstIndex(s, ']') == |address| + 1 && LastIndex(s, ':') == |address| + 2
    ensures SplitHost(s) == Some(address)
  {
    assert s[1..] == address + [']', ':'] + port && s[|address| + 2..] == [':'] + port;
    assert '[' !in s[1..] && ']' !in s[|address| + 2..];
    assert s[1..|address| + 1] == address;
  }

  lemma TidyUnpadded(s: string)
    requires NoOuterSpace(s)
    ensures Tidy(s) == TrimSuffix(ToLower(s), '.')
  {
    TrimSpacePadded("", s, "");
    assert "" + s + "" == s;
  }

  lemma LowerLast(s: string)
    requires s != ""
    ensures s[|s| - 1] != '.' ==> TrimSuffix(ToLower(s), '.') == ToLower(s)
    ensures s[|s| - 1] == '.' ==> TrimSuffix(ToLower(s), '.') == ToLower(s[..|s| - 1])
  {
    LowerKeeps(s, |s| - 1, '.');
    LowerInit(s, |s| - 1);
  }

  /** One dot at the end is taken off. */
  lemma DotIgnored(name: string)
    requires Portless(name) && NoOuterSpace(name) && name != "" && name[|name| - 1] != '.'
    ensures SameHost(name + ['.'], name)
  {
    var s := name + ['.'];
    TidyUnpadded(name);
    TidyUnpadded(s);
    LowerLast(name);
    LowerLast(s);
    assert s[..|s| - 1] == name;
    SameNormal(s, name);
  }

  /** White space around a name is taken off. */
  lemma SpacesIgnored(left: string, name: string, right: string)
    requires AllSpaces(left) && AllSpaces(right) && NoOuterSpace(name) && Portless(name)
    ensures SameHost(left + name + right, name)
  {
    var s := left + name + right;
    TrimSpacePadded(left, name, right);
    TrimSpacePadded("", name, "");
    assert "" + name + "" == name;
    forall c | c in s ensures c != ':' {
      assert c in left || c in name || c in right;
    }
    SameNormal(s, name);
  }

  /** A host with a port: a name, or a bracketed address, a colon and the port. */
  ghost predicate Ported(s: string, host: string, port: string) {
    Portless(port) &&
    ((Portless(host) && s == host + [':'] + port)
     || ('[' !in host && ']' !in host && s == ['['] + host + [']', ':'] + port))
  }

  /** Exactly these are split; anything else is taken as a name as it stands. */
  lemma SplitHostIff(s: string, host: string)
    ensures SplitHost(s) == Some(host) <==> exists port :: Ported(s, host, port)
  {
    if SplitHost(s) == Some(host) {
      var port := s[LastIndex(s, ':') + 1..];
      if s[0] == '[' {
        BracketedParts(s, host, port);
      } else {
        AfterLast(s, ':');
        assert s == host + [':'] + port;
      }
      assert Ported(s, host, port);
    }
    if port :| Ported(s, host, port) {
      if Portless(host) && s == host + [':'] + port {
        LastColon(host, port);
        assert s[..|host|] == host && '[' !in s && ']' !in s;
      } else {
        BracketsSplit(host, port);
      }
    }
  }

  lemma {:induction false} AfterLast(s: string, c: char)
    ensures forall k :: LastIndex(s, c) < k < |s| ==> s[k] != c
  {
    if s != [] && s[|s| - 1] != c {
      var before := s[..|s| - 1];
      AfterLast(before, c);
      assert forall k :: 0 <= k < |before| ==> before[k] == s[k];
    }
  }

  lemma {:induction false} BeforeFirst(s: string, c: char)
    ensures forall k :: 0 <= k < FirstIndex(s, c) ==> s[k] != c
  {
    if s != [] && s[0] != c {
      BeforeFirst(s[1..], c);
      assert forall k :: 1 <= k < |s| ==> s[1..][k - 1] == s[k];
    }
  }

  lemma BracketedShape(s: string, end: nat)
    requires 0 < end && end + 1 < |s| && s[0] == '[' && s[end] == ']' && s[end + 1] == ':'
    ensures s == ['['] + s[1..end] + [']', ':'] + s[end + 2..]
  {
  }

  lemma BracketedParts(s: string, host: string, port: string)
    requires s != "" && s[0] == '[' && SplitHost(s) == Some(host) && port == s[LastIndex(s, ':') + 1..]
    ensures s == ['['] + host + [']', ':'] + port && '[' !in host && ']' !in host && Portless(port)
  {
    var end := FirstIndex(s, ']');
    BracketedShape(s, end);
    BeforeFirst(s, ']');
    AfterLast(s, ':');
    BracketedClean(s, end);
  }

  lemma BracketedClean(s: string, end: nat)
    requires 0 < end && end + 1 < |s| && '[' !in s[1..] && ']' !in s[end + 1..]
    requires (forall k :: 0 <= k < end ==> s[k] != ']') && (forall k :: end + 1 < k < |s| ==> s[k] != ':')
    ensures '[' !in s[1..end] && ']' !in s[1..end] && Portless(s[end + 2..])
  {
    assert forall k :: 1 <= k < |s| ==> s[1..][k - 1] == s[k];
    assert forall k :: end + 1 <= k < |s| ==> s[end + 1..][k - end - 1] == s[k];
  }

  lemma BracketsSplit(address: string, port: string)
    requires '[' !in address && ']' !in address && Portless(port)
    ensures SplitHost(['['] + address + [']', ':'] + port) == Some(address)
  {
    var s := ['['] + address + [']', ':'] + port;
    assert s == (['['] + address + [']']) + [':'] + port;
    LastColon(['['] + address + [']'], port);
    assert s == (['['] + address) + [']'] + ([':'] + port);
    FirstBracket(['['] + address, [':'] + port);
    BracketedSplit(s, address, port);
  }

  /** The validator reads a name with a port as the name in lower case. */
  lemma ValidatedPort(name: string, port: string)
    requires Portless(name) && Portless(port) && NoOuterSpace(name + [':'] + port)
    requires port != "" ==> port[|port| - 1] != '.'
    ensures ValidatedHost(name + [':'] + port) == ToLower(name)
  {
    var s := name + [':'] + port;
    TidyUnpadded(s);
    LowerLast(s);
    LowerSplit(s);
    LastColon(name, port);
    assert s[..|name|] == name && '[' !in s && ']' !in s;
    assert SplitHost(s) == Some(name);
  }

  // ---------- the converse ----------

  /** A name as one writes it: no port, no outer space, no dot at the end. */
  predicate Neat(s: string) {
    ':' !in s && NoOuterSpace(s) && (s != "" ==> s[|s| - 1] != '.')
  }

  lemma NeatNormal(s: string)
    requires Neat(s)
    ensures NormalizeHost(s) == ToLower(s)
  {
    TidyUnpadded(s);
    if s != "" {
      LowerLast(s);
    }
  }

  /** Neat names are one host to the router exactly if they are equal up to letter case. */
  lemma NeatHostsIff(s: string, t: string)
    requires Neat(s) && Neat(t)
    ensures NormalizeHost(s) == NormalizeHost(t) <==> SameUpToCase(s, t)
  {
    NeatNormal(s);
    NeatNormal(t);
    LowerIffSameUpToCase(s, t);
  }

  /** So a route for a neat host fits a request for a neat host exactly if it has none or
      the hosts are equal up to case, and its prefix ends at a boundary of the path. */
  lemma FitsIff(route: Route, host: string, path: string)
    requires Neat(route.host) && Neat(host)
    ensures Fits(route, host, path) <==>
              && (route.host == "" || SameUpToCase(route.host, host))
              && route.prefix <= path
              && (|path| == |route.prefix|
                  || (route.prefix != "" && route.prefix[|route.prefix| - 1] == '/')
                  || path[|route.prefix|] == '/')
  {
    NeatHostsIff(route.host, host);
    MatchIsBoundary(route.prefix, path);
  }

  // ---------- duplicates ----------

  /** Two routes are duplicates exactly if host and prefix both agree. */
  lemma DuplicateIff(r: Route, s: Route)
    requires NUL !in ValidatedHost(r.host) && NUL !in ValidatedHost(s.host)
    ensures MatchKey(r) == MatchKey(s) <==> ValidatedHost(r.host) == ValidatedHost(s.host) && r.prefix == s.prefix
  {
    if MatchKey(r) == MatchKey(s) {
      SplitAtNul(ValidatedHost(r.host), r.prefix, ValidatedHost(s.host), s.prefix);
    }
  }

  /** And neat hosts agree exactly if they are equal up to case. */
  lemma NeatDuplicateIff(r: Route, s: Route)
    requires Neat(r.host) && Neat(s.host) && NUL !in r.host && NUL !in s.host
    ensures MatchKey(r) == MatchKey(s) <==> SameUpToCase(r.host, s.host) && r.prefix == s.prefix
  {
    NormalisersAgree(r.host);
    NormalisersAgree(s.host);
    NeatNormal(r.host);
    NeatNormal(s.host);
    LowerKeepsNulOut(r.host);
    LowerKeepsNulOut(s.host);
    DuplicateIff(r, s);
    LowerIffSameUpToCase(r.host, s.host);
  }
}

/**
 Route choice of internal/routing/router.go, and the duplicate check of
 internal/config/validate.go on which it relies.
 */
module Routing {
  import opened Common
  import opened Text

  datatype Route = Route(name: string, host: string, prefix: string, pool: string)

  // ---------- hosts ----------

  function LastIndex(s: string, c: char): (i: int)
    ensures -1 <= i < |s| && (i >= 0 ==> s[i] == c)
    ensures i < 0 <==> c !in s
  {
    if s == [] then -1
    else if s[|s| - 1] == c then |s| - 1
    else LastIndex(s[..|s| - 1], c)
  }

  function FirstIndex(s: string, c: char): (i: int)
    ensures -1 <= i < |s| && (i >= 0 ==> s[i] == c)
    ensures i < 0 <==> c !in s
  {
    if s == [] then -1
    else if s[0] == c then 0
    else
      var i := FirstIndex(s[1..], c);
      if i < 0 then -1 else i + 1
  }

  /** The host of net.SplitHostPort; None where it reports an error. */
  function SplitHost(s: string): Option<string> {
    var colon := LastIndex(s, ':');
    if colon < 0 then None
    else if s[0] == '[' then
      var end := FirstIndex(s, ']');
      if end < 0 || end + 1 != colon then None
      else if '[' in s[1..] || ']' in s[end + 1..] then None
      else Some(s[1..end])
    else if ':' in s[..colon] || '[' in s || ']' in s then None
    else Some(s[..colon])
  }

  function TrimSuffix(s: string, c: char): string {
    if s != [] && s[|s| - 1] == c then s[..|s| - 1] else s
  }

  function Tidy(host: string): string {
    TrimSuffix(ToLower(TrimSpace(host)), '.')
  }

  /** The router's normalizeHost: the port goes first, then case, spaces and dot. */
  function NormalizeHost(host: string): string {
    match SplitHost(host)
    case Some(name) => Tidy(name)
    case None => Tidy(host)
  }

  /** The validator's normalizedHost: case, spaces and dot first, then the port. */
  function ValidatedHost(host: string): string {
    match SplitHost(Tidy(host))
    case Some(name) => name
    case None => Tidy(host)
  }

  lemma {:induction false} TrimKeepsOut(s: string, c: char)
    requires c !in s
    ensures c !in TrimLeft(s) && c !in TrimRight(s)
    decreases |s|
  {
    if s != [] {
      assert c !in s[1..] && c !in s[..|s| - 1];
      TrimKeepsOut(s[1..], c);
      TrimKeepsOut(s[..|s| - 1], c);
    }
  }

  lemma TidyKeepsOut(s: string)
    requires ':' !in s
    ensures ':' !in Tidy(s)
  {
    TrimKeepsOut(s, ':');
    TrimKeepsOut(TrimLeft(s), ':');
    var t := TrimSpace(s);
    forall i | 0 <= i < |t| ensures ToLower(t)[i] != ':' {
      assert t[i] in t;
    }
  }

  /** On hosts without a colon the two normalisers agree. */
  lemma NormalisersAgree(host: string)
    requires ':' !in host
    ensures NormalizeHost(host) == ValidatedHost(host) == Tidy(host)
  {
    TidyKeepsOut(host);
  }

  // ---------- paths ----------

  function PathMatches(prefix: string, path: string): bool {
    if prefix == "/" then HasPrefix(path, "/")
    else path == prefix || HasPrefix(path, TrimSuffix(prefix, '/') + "/")
  }

  /** A prefix matches exactly the paths that extend it at a segment boundary. */
  lemma MatchIsBoundary(prefix: string, path: string)
    ensures PathMatches(prefix, path) <==>
              && prefix <= path
              && (|path| == |prefix| || (prefix != "" && prefix[|prefix| - 1] == '/') || path[|prefix|] == '/')
  {
    var trimmed := TrimSuffix(prefix, '/');
    if prefix != "" && prefix[|prefix| - 1] == '/' {
      assert trimmed + "/" == prefix;
    } else {
      assert prefix <= path && |path| > |prefix| ==> path[..|prefix| + 1] == prefix + [path[|prefix|]];
    }
  }

  // ---------- choice ----------

  predicate Admits(route: Route, host: string) {
    route.host == "" || NormalizeHost(route.host) == host
  }

  function Compatible(routes: seq<Route>, host: string): seq<Route> {
    if routes == [] then []
    else
      var last := routes[|routes| - 1];
      Compatible(routes[..|routes| - 1], host) + if Admits(last, host) then [last] else []
  }

  /** The candidate replaces the best route so far. */
  predicate Better(best: Option<Route>, route: Route) {
    || best.None?
    || |route.prefix| > |best.value.prefix|
    || (|route.prefix| == |best.value.prefix| && best.value.host == "" && route.host != "")
  }

  function Best(candidates: seq<Route>, path: string): Option<Route> {
    if candidates == [] then None
    else
      var best, last := Best(candidates[..|candidates| - 1], path), candidates[|candidates| - 1];
      if PathMatches(last.prefix, path) && Better(best, last) then Some(last) else best
  }

  function Choose(routes: seq<Route>, host: string, path: string): Option<Route> {
    Best(Compatible(routes, NormalizeHost(host)), path)
  }

  method Candidates(routes: seq<Route>, host: string) returns (result: seq<Route>)
    ensures result == Compatible(routes, NormalizeHost(host))
  {
    var normal := NormalizeHost(host);
    result := [];
    for i := 0 to |routes|
      invariant result == Compatible(routes[..i], normal)
    {
      assert routes[..i + 1][..i] == routes[..i];
      var route := routes[i];
      if route.host == "" || NormalizeHost(route.host) == normal {
        result := result + [route];
      }
    }
    assert routes[..|routes|] == routes;
  }

  method Match(routes: seq<Route>, host: string, path: string) returns (best: Option<Route>)
    ensures best == Choose(routes, host, path)
    ensures best.None? <==> forall r :: r in routes ==> !Fits(r, host, path)
    ensures best.Some? ==> best.value in routes && Fits(best.value, host, path)
                           && forall r :: r in routes && Fits(r, host, path) ==> !Outranks(r, best.value)
    ensures best.Some? ==>
              forall r :: r in routes && Fits(r, host, path) ==>
                && |r.prefix| <= |best.value.prefix|
                && (|r.prefix| == |best.value.prefix| && best.value.host == "" ==> r.host == "")
  {
    var candidates := Candidates(routes, host);
    best := None;
    for i := 0 to |candidates|
      invariant best == Best(candidates[..i], path)
    {
      assert candidates[..i + 1][..i] == candidates[..i];
      var route := candidates[i];
      if !PathMatches(route.prefix, path) {
        continue;
      }
      if best.None? || |route.prefix| > |best.value.prefix|
         || (|route.prefix| == |best.value.prefix| && best.value.host == "" && route.host != "") {
        best := Some(route);
      }
    }
    assert candidates[..|candidates|] == candidates;
    ChoiceIsMaximal(routes, host, path);
  }

  /** The route is eligible for this request. */
  ghost predicate Fits(route: Route, host: string, path: string) {
    Admits(route, NormalizeHost(host)) && PathMatches(route.prefix, path)
  }

  /** Longer prefixes first, and exact hosts before the catch-all. */
  ghost predicate Outranks(r: Route, s: Route) {
    |r.prefix| > |s.prefix| || (|r.prefix| == |s.prefix| && r.host != "" && s.host == "")
  }

  lemma {:induction false} CompatibleFacts(routes: seq<Route>, host: string)
    ensures forall r :: r in Compatible(routes, host) <==> r in routes && Admits(r, host)
  {
    if routes != [] {
      CompatibleFacts(routes[..|routes| - 1], host);
      assert routes == routes[..|routes| - 1] + [routes[|routes| - 1]];
    }
  }

  lemma {:induction false} BestFacts(candidates: seq<Route>, path: string)
    ensures var best := Best(candidates, path);
            && (best.None? <==> forall r :: r in candidates ==> !PathMatches(r.prefix, path))
            && (best.Some? ==> best.value in candidates && PathMatches(best.value.prefix, path)
                               && forall r :: r in candidates && PathMatches(r.prefix, path)
                                   ==> !Outranks(r, best.value))
  {
    if candidates != [] {
      BestFacts(candidates[..|candidates| - 1], path);
      assert candidates == candidates[..|candidates| - 1] + [candidates[|candidates| - 1]];
    }
  }

  lemma ChoiceIsMaximal(routes: seq<Route>, host: string, path: string)
    ensures var best := Choose(routes, host, path);
            && (best.None? <==> forall r :: r in routes ==> !Fits(r, host, path))
            && (best.Some? ==> best.value in routes && Fits(best.value, host, path)
                               && forall r :: r in routes && Fits(r, host, path) ==> !Outranks(r, best.value))
  {
    CompatibleFacts(routes, NormalizeHost(host));
    BestFacts(Compatible(routes, NormalizeHost(host)), path);
  }

  // ---------- order independence ----------

  /** Two different routes with one prefix, both catch-alls or for one and the same host. */
  ghost predicate Conflict(r: Route, s: Route) {
    && r != s && r.prefix == s.prefix
    && (if r.host == "" then s.host == "" else s.host != "" && NormalizeHost(r.host) == NormalizeHost(s.host))
  }

  ghost predicate NoConflict(routes: seq<Route>) {
    forall r, s :: r in routes && s in routes ==> !Conflict(r, s)
  }

  /** Two eligible routes neither of which outranks the other are in conflict, or the same:
      both prefixes begin the path, so equal lengths mean equal prefixes. */
  lemma TieIsConflict(r: Route, s: Route, host: string, path: string)
    requires Fits(r, host, path) && Fits(s, host, path) && !Outranks(r, s) && !Outranks(s, r)
    ensures r == s || Conflict(r, s)
  {
    MatchIsBoundary(r.prefix, path);
    MatchIsBoundary(s.prefix, path);
    assert r.prefix == path[..|r.prefix|] == s.prefix;
  }

  ghost predicate OrderIndependent(routes: seq<Route>) {
    forall other, host, path ::
      multiset(other) == multiset(routes) ==> Choose(other, host, path) == Choose(routes, host, path)
  }

  lemma SameChoice(routes: seq<Route>, other: seq<Route>, host: string, path: string)
    requires NoConflict(routes) && multiset(other) == multiset(routes)
    ensures Choose(other, host, path) == Choose(routes, host, path)
  {
    forall r ensures r in other <==> r in routes {
      assert r in other <==> r in multiset(other);
    }
    ChoiceIsMaximal(routes, host, path);
    ChoiceIsMaximal(other, host, path);
    var best, best' := Choose(routes, host, path), Choose(other, host, path);
    if best.Some? && best'.Some? {
      TieIsConflict(best.value, best'.value, host, path);
    }
  }

  lemma {:induction false} FirstWins(candidates: seq<Route>, path: string)
    requires candidates != [] && PathMatches(candidates[0].prefix, path)
    requires forall r :: r in candidates && PathMatches(r.prefix, path) ==> !Outranks(r, candidates[0])
    ensures Best(candidates, path) == Some(candidates[0])
  {
    var before := candidates[..|candidates| - 1];
    if before != [] {
      FirstWins(before, path);
    }
  }

  lemma {:induction false} CompatibleFirst(routes: seq<Route>, host: string)
    requires routes != [] && Admits(routes[0], host)
    ensures Compatible(routes, host) != [] && Compatible(routes, host)[0] == routes[0]
  {
    if |routes| > 1 {
      CompatibleFirst(routes[..|routes| - 1], host);
    }
  }

  /** Some order of the routes puts r first. */
  lemma MoveToFront(routes: seq<Route>, r: Route) returns (other: seq<Route>)
    requires r in routes
    ensures multiset(other) == multiset(routes) && other[..1] == [r]
  {
    var i :| 0 <= i < |routes| && routes[i] == r;
    other := [r] + routes[..i] + routes[i + 1..];
    assert routes == routes[..i] + [r] + routes[i + 1..];
  }

  /** With r first, and nothing of the same prefix that outranks it, r is chosen for its own prefix. */
  lemma FrontIsChosen(routes: seq<Route>, r: Route, host: string) returns (other: seq<Route>)
    requires r in routes && Admits(r, NormalizeHost(host))
    requires r.host == "" ==> forall s :: s in routes && s.host != "" ==> NormalizeHost(s.host) != NormalizeHost(host)
    ensures multiset(other) == multiset(routes) && Choose(other, host, r.prefix) == Some(r)
  {
    other := MoveToFront(routes, r);
    assert other[0] == r;
    CompatibleFirst(other, NormalizeHost(host));
    CompatibleFacts(other, NormalizeHost(host));
    MatchIsBoundary(r.prefix, r.prefix);
    var candidates := Compatible(other, NormalizeHost(host));
    forall s | s in candidates && PathMatches(s.prefix, r.prefix) ensures !Outranks(s, r) {
      MatchIsBoundary(s.prefix, r.prefix);
      assert s in multiset(other);
    }
    FirstWins(candidates, r.prefix);
  }

  function LongestHost(routes: seq<Route>): nat {
    if routes == [] then 0
    else
      var m, n := LongestHost(routes[1..]), |NormalizeHost(routes[0].host)|;
      if m > n then m else n
  }

  lemma {:induction false} LongestHostBounds(routes: seq<Route>, r: Route)
    requires r in routes
    ensures |NormalizeHost(r.host)| <= LongestHost(routes)
  {
    if r != routes[0] {
      LongestHostBounds(routes[1..], r);
    }
  }

  lemma LetterHost(n: nat)
    ensures NormalizeHost(seq(n + 1, i => 'a')) == seq(n + 1, i => 'a')
  {
    var host := seq(n + 1, i => 'a');
    NormalisersAgree(host);
    assert TrimSpace(host) == host && ToLower(host) == host;
  }

  /** A host that no route names. */
  lemma UnknownHost(routes: seq<Route>) returns (host: string)
    ensures forall s :: s in routes ==> NormalizeHost(s.host) != NormalizeHost(host)
  {
    host := seq(LongestHost(routes) + 1, i => 'a');
    LetterHost(LongestHost(routes));
    forall s | s in routes ensures NormalizeHost(s.host) != NormalizeHost(host) {
      LongestHostBounds(routes, s);
    }
  }

  lemma ConflictBreaks(routes: seq<Route>, r: Route, s: Route)
    requires r in routes && s in routes && Conflict(r, s)
    ensures !OrderIndependent(routes)
  {
    var host := r.host;
    if r.host == "" {
      host := UnknownHost(routes);
    }
    var first := FrontIsChosen(routes, r, host);
    var second := FrontIsChosen(routes, s, host);
    assert Choose(first, host, r.prefix) != Choose(second, host, r.prefix);
  }

  /** Route choice depends on the order of the configuration exactly when two of its
      routes are in conflict. */
  lemma OrderIndependentIff(routes: seq<Route>)
    ensures OrderIndependent(routes) <==> NoConflict(routes)
  {
    if NoConflict(routes) {
      forall other, host, path | multiset(other) == multiset(routes)
        ensures Choose(other, host, path) == Choose(routes, host, path)
      {
        SameChoice(routes, other, host, path);
      }
    } else {
      var r, s :| r in routes && s in routes && Conflict(r, s);
      ConflictBreaks(routes, r, s);
    }
  }

  // ---------- the duplicate check ----------

  function MatchKey(route: Route): string {
    ValidatedHost(route.host) + [0 as char] + route.prefix
  }

  function Names(routes: seq<Route>): (names: seq<string>)
    ensures |names| == |routes| && forall i :: 0 <= i < |names| ==> names[i] == routes[i].name
  {
    seq(|routes|, i requires 0 <= i < |routes| => routes[i].name)
  }

  function MatchKeys(routes: seq<Route>): (keys: seq<string>)
    ensures |keys| == |routes| && forall i :: 0 <= i < |keys| ==> keys[i] == MatchKey(routes[i])
  {
    seq(|routes|, i requires 0 <= i < |routes| => MatchKey(routes[i]))
  }

  function Elements(strings: seq<string>): set<string> {
    set s | s in strings
  }

  /** No string occurs twice among the first n. */
  ghost predicate NoRepeats(strings: seq<string>, n: nat)
    requires n <= |strings|
  {
    forall i, j :: 0 <= i < j < n ==> strings[i] != strings[j]
  }

  ghost predicate Distinct(routes: seq<Route>) {
    NoRepeats(Names(routes), |routes|) && NoRepeats(MatchKeys(routes), |routes|)
  }

  /** The duplicate check of the validator's route loop. */
  method CheckDuplicates(routes: seq<Route>) returns (errors: nat)
    ensures errors == 0 <==> Distinct(routes)
  {
    var seenNames: set<string>, seenMatches: set<string> := {}, {};
    errors := 0;
    ghost var names, keys := Names(routes), MatchKeys(routes);
    for i := 0 to |routes|
      invariant seenNames == Elements(names[..i])
      invariant seenMatches == Elements(keys[..i])
      invariant errors == 0 <==> NoRepeats(names, i) && NoRepeats(keys, i)
    {
      var route := routes[i];
      if route.name in seenNames {
        errors := errors + 1;
      }
      NoRepeatsStep(names, i);
      seenNames := seenNames + {route.name};
      var key := MatchKey(route);
      assert key == keys[i];
      if key in seenMatches {
        errors := errors + 1;
      }
      NoRepeatsStep(keys, i);
      seenMatches := seenMatches + {key};
    }
  }

  lemma NoRepeatsStep(strings: seq<string>, i: nat)
    requires i < |strings|
    ensures NoRepeats(strings, i + 1) <==> NoRepeats(strings, i) && strings[i] !in strings[..i]
    ensures Elements(strings[..i + 1]) == Elements(strings[..i]) + {strings[i]}
  {
    assert strings[..i + 1] == strings[..i] + [strings[i]];
    if strings[i] in strings[..i] {
      var j :| 0 <= j < i && strings[..i][j] == strings[i];
      assert strings[j] == strings[i];
    }
    forall j | 0 <= j < i && strings[i] !in strings[..i] ensures strings[j] != strings[i] {
      assert strings[..i][j] == strings[j];
    }
  }

  lemma ConflictMeansSameKey(r: Route, s: Route)
    requires Conflict(r, s)
    requires NormalizeHost(r.host) == ValidatedHost(r.host) && NormalizeHost(s.host) == ValidatedHost(s.host)
    ensures MatchKey(r) == MatchKey(s)
  {
  }

  /** Validated routes on whose hosts the two normalisers agree, as they do on hosts
      without a colon, are chosen independently of their order. */
  lemma ValidatedIsOrderIndependent(routes: seq<Route>)
    requires Distinct(routes)
    requires forall r :: r in routes ==> NormalizeHost(r.host) == ValidatedHost(r.host)
    ensures OrderIndependent(routes)
  {
    forall r, s | r in routes && s in routes ensures !Conflict(r, s) {
      var i :| 0 <= i < |routes| && routes[i] == r;
      var j :| 0 <= j < |routes| && routes[j] == s;
      var keys := MatchKeys(routes);
      assert i != j ==> keys[i] != keys[j];
      if Conflict(r, s) {
        ConflictMeansSameKey(r, s);
      }
    }
    OrderIndependentIff(routes);
  }

  function Ported(): Route {
    Route("r", "a.:80", "/", "p")
  }

  function Plain(): Route {
    Route("s", "a", "/", "q")
  }

  /** With a port after a trailing dot they do not agree, and the duplicate check lets
      two routes through whose order decides. */
  lemma PortAfterDot()
    ensures Distinct([Ported(), Plain()]) && !OrderIndependent([Ported(), Plain()])
  {
    PortedDistinct();
    PortedConflict();
    var routes := [Ported(), Plain()];
    assert routes[0] in routes && routes[1] in routes;
    ConflictBreaks(routes, routes[0], routes[1]);
  }

  lemma PortedConflict()
    ensures Conflict(Ported(), Plain())
  {
    PortedHost();
    PlainHost();
  }

  lemma PortedDistinct()
    ensures Distinct([Ported(), Plain()])
  {
    PortedHost();
    PlainHost();
    KeysDiffer(Ported(), Plain());
    DistinctPair(Ported(), Plain());
  }

  lemma KeysDiffer(r: Route, s: Route)
    requires |ValidatedHost(r.host)| == |ValidatedHost(s.host)| + 1 && |r.prefix| == |s.prefix|
    ensures MatchKey(r) != MatchKey(s)
  {
    assert |MatchKey(r)| == |MatchKey(s)| + 1;
  }

  lemma DistinctPair(r: Route, s: Route)
    requires r.name != s.name && MatchKey(r) != MatchKey(s)
    ensures Distinct([r, s])
  {
    assert Names([r, s]) == [r.name, s.name];
    assert MatchKeys([r, s]) == [MatchKey(r), MatchKey(s)];
  }

  lemma PortedHost()
    ensures NormalizeHost("a.:80") == "a" && ValidatedHost("a.:80") == "a."
  {
    SplitPorted();
    TidyPorted();
  }

  lemma SplitPorted()
    ensures SplitHost("a.:80") == Some("a.")
  {
    var s := "a.:80";
    assert s[..4] == "a.:8" && s[..4][..3] == "a.:";
    assert LastIndex(s[..4][..3], ':') == 2;
    assert LastIndex(s[..4], ':') == 2;
    assert LastIndex(s, ':') == 2;
    assert s[..2] == "a.";
  }

  lemma TidyPorted()
    ensures Tidy("a.:80") == "a.:80" && Tidy("a.") == "a"
  {
    assert ToLower("a.:80") == "a.:80" && ToLower("a.") == "a.";
    assert "a."[..1] == "a";
  }

  lemma PlainHost()
    ensures NormalizeHost("a") == ValidatedHost("a") == "a"
  {
    NormalisersAgree("a");
    assert ToLower("a") == "a";
  }
}

/**
 The metric registry of internal/metrics/metrics.go: counters whose route labels
 stay within the configuration across reloads.  Durations are nanoseconds.
 */
module Metrics {
  import opened Verbs
  import Sums

  datatype RequestKey = RequestKey(route: string, verb: Verb, status: int)

  datatype LabelKey = LabelKey(route: string, value: string)

  datatype BackendKey = BackendKey(pool: string, backend: string)

  const UNMATCHED: string := "unmatched"
  const RETIRED: string := "retired"

  // ---------- labels ----------

  const OTHER: Verb := Custom("OTHER")

  predicate KnownVerb(verb: Verb) {
    verb.Custom? ==> verb == OTHER
  }

  function BoundedVerb(verb: Verb): (bounded: Verb)
    ensures KnownVerb(bounded) && (KnownVerb(verb) ==> bounded == verb)
  {
    if verb.Custom? then OTHER else verb
  }

  const OTHER_LABEL: string := "other"

  function BoundedDecision(decision: string): (bounded: string)
    ensures KnownDecision(bounded) || bounded == OTHER_LABEL
    ensures KnownDecision(decision) ==> bounded == decision
  {
    if KnownDecision(decision) then decision else OTHER_LABEL
  }

  predicate KnownDecision(decision: string) {
    decision == "allowed" || decision == "limited"
  }

  function BoundedReason(reason: string): (bounded: string)
    ensures KnownReason(bounded) || bounded == OTHER_LABEL
    ensures KnownReason(reason) ==> bounded == reason
  {
    if KnownReason(reason) then reason else OTHER_LABEL
  }

  predicate KnownReason(reason: string) {
    || reason == "method_not_allowed"
    || reason == "path_denied"
    || reason == "required_header_missing"
    || reason == "header_denied"
    || reason == "query_too_large"
  }

  /** A route label that survives a reconciliation with these routes. */
  predicate Keeps(routes: set<string>, tag: string) {
    tag in routes || tag == UNMATCHED || tag == RETIRED
  }

  /** The label under which a route is counted. */
  function LabelOf(reconciled: bool, routes: set<string>, route: string): string {
    if reconciled && route !in routes && route != UNMATCHED then RETIRED else route
  }

  // ---------- the request series as a value ----------

  datatype Series = Series(requests: map<RequestKey, nat>, count: map<string, nat>, sum: map<string, int>,
                           routes: set<string>, reconciled: bool)

  const Empty: Series := Series(map[], map[], map[], {}, false)

  function Add<K>(m: map<K, nat>, k: K, n: nat): map<K, nat> {
    m[k := (if k in m then m[k] else 0) + n]
  }

  function Bump<K>(m: map<K, nat>, k: K): map<K, nat> {
    Add(m, k, 1)
  }

  datatype Op = Observe(route: string, verb: Verb, status: int, nanos: int) | Reconcile(routes: set<string>)

  // What the deletion loops of a reconciliation leave.
  function KeptRequests(m: map<RequestKey, nat>, routes: set<string>): map<RequestKey, nat> {
    map k | k in m && Keeps(routes, k.route) :: m[k]
  }

  function KeptLabels(m: map<LabelKey, nat>, routes: set<string>): map<LabelKey, nat> {
    map k | k in m && Keeps(routes, k.route) :: m[k]
  }

  function KeptRoutes<V>(m: map<string, V>, routes: set<string>): map<string, V> {
    map tag | tag in m && Keeps(routes, tag) :: m[tag]
  }

  function Counted(s: Series, tag: string, verb: Verb, status: int, nanos: int): Series {
    s.(requests := Bump(s.requests, RequestKey(tag, verb, status)),
       count := Bump(s.count, tag),
       sum := s.sum[tag := (if tag in s.sum then s.sum[tag] else 0) + nanos])
  }

  function Step(s: Series, op: Op): Series {
    match op
    case Observe(route, verb, status, nanos) =>
      Counted(s, LabelOf(s.reconciled, s.routes, route), BoundedVerb(verb), status, nanos)
    case Reconcile(routes) =>
      Series(KeptRequests(s.requests, routes), KeptRoutes(s.count, routes), KeptRoutes(s.sum, routes), routes, true)
  }

  // ---------- conservation ----------

  function OfRoute(requests: map<RequestKey, nat>, route: string): map<RequestKey, nat> {
    map k | k in requests && k.route == route :: requests[k]
  }

  /** The sum of a route's request counters over methods and statuses. */
  ghost function RouteTotal(requests: map<RequestKey, nat>, route: string): nat {
    Sums.Total(OfRoute(requests, route))
  }

  function CountOf(count: map<string, nat>, route: string): nat {
    if route in count then count[route] else 0
  }

  lemma BumpTotal(requests: map<RequestKey, nat>, key: RequestKey, route: string)
    ensures RouteTotal(Bump(requests, key), route) == RouteTotal(requests, route) + if key.route == route then 1 else 0
  {
    var m := OfRoute(requests, route);
    if key.route == route {
      var v := (if key in requests then requests[key] else 0) + 1;
      assert OfRoute(Bump(requests, key), route) == m[key := v];
      Sums.TotalUpdate(m, key, v);
      if key in m {
        Sums.TotalSplit(m, key);
      } else {
        assert m - {key} == m;
      }
    } else {
      assert OfRoute(Bump(requests, key), route) == m;
    }
  }

  lemma KeptTotal(requests: map<RequestKey, nat>, routes: set<string>, route: string)
    ensures RouteTotal(KeptRequests(requests, routes), route)
         == if Keeps(routes, route) then RouteTotal(requests, route) else 0
  {
    var kept := KeptRequests(requests, routes);
    if Keeps(routes, route) {
      assert OfRoute(kept, route) == OfRoute(requests, route);
    } else {
      assert OfRoute(kept, route) == map[];
    }
  }

  /** Requests and durations count the same observations, under bounded labels. */
  ghost predicate Consistent(s: Series) {
    && (forall route :: RouteTotal(s.requests, route) == CountOf(s.count, route))
    && s.sum.Keys == s.count.Keys
    && (forall k :: k in s.requests ==> KnownVerb(k.verb))
    && (s.reconciled ==> forall k :: k in s.requests ==> Keeps(s.routes, k.route))
    && (s.reconciled ==> forall tag :: tag in s.count ==> Keeps(s.routes, tag))
  }

  lemma ConsistentStep(s: Series, op: Op)
    requires Consistent(s)
    ensures Consistent(Step(s, op))
  {
    var t := Step(s, op);
    forall route ensures RouteTotal(t.requests, route) == CountOf(t.count, route) {
      if op.Observe? {
        var tag := LabelOf(s.reconciled, s.routes, op.route);
        BumpTotal(s.requests, RequestKey(tag, BoundedVerb(op.verb), op.status), route);
      } else {
        KeptTotal(s.requests, op.routes, route);
      }
    }
  }

  function Run(ops: seq<Op>): Series {
    if ops == [] then Empty else Step(Run(ops[..|ops| - 1]), ops[|ops| - 1])
  }

  /** Over any mix of observations and reconciliations. */
  lemma {:induction false} AlwaysConsistent(ops: seq<Op>)
    ensures Consistent(Run(ops))
  {
    if ops == [] {
      forall route ensures RouteTotal(Empty.requests, route) == 0 {
        assert OfRoute(Empty.requests, route) == map[];
      }
    } else {
      AlwaysConsistent(ops[..|ops| - 1]);
      ConsistentStep(Run(ops[..|ops| - 1]), ops[|ops| - 1]);
    }
  }

  function Observations(ops: seq<Op>, route: string): nat {
    if ops == [] then 0
    else
      var last := ops[|ops| - 1];
      Observations(ops[..|ops| - 1], route) + if last.Observe? && last.route == route then 1 else 0
  }

  /** Observations of routes that were not configured at the time, or no longer. */
  function Redirected(ops: seq<Op>): nat {
    if ops == [] then 0
    else
      var before, last := ops[..|ops| - 1], ops[|ops| - 1];
      Redirected(before) + if last.Observe? && !Served(Run(before), last.route) then 1 else 0
  }

  /** A route counted under its own label. */
  predicate Served(s: Series, route: string) {
    s.reconciled ==> Keeps(s.routes, route)
  }

  /** Configured at every reload, or one of the two labels that need not be. */
  ghost predicate Stays(ops: seq<Op>, route: string) {
    forall i :: 0 <= i < |ops| && ops[i].Reconcile? ==> Keeps(ops[i].routes, route)
  }

  lemma {:induction false} StaysServed(ops: seq<Op>, route: string)
    requires Stays(ops, route)
    ensures Served(Run(ops), route)
  {
    if ops != [] {
      StaysServed(ops[..|ops| - 1], route);
    }
  }

  /** No reload loses or invents an observation of a route that stays configured.  The
      label "retired" adds to its own all observations of routes that did not. */
  lemma {:induction false} NothingLost(ops: seq<Op>, route: string)
    requires Stays(ops, route)
    ensures RouteTotal(Run(ops).requests, route)
         == Observations(ops, route) + if route == RETIRED then Redirected(ops) else 0
  {
    if ops == [] {
      assert OfRoute(Empty.requests, route) == map[];
    } else {
      var before, last := ops[..|ops| - 1], ops[|ops| - 1];
      NothingLost(before, route);
      StaysServed(before, route);
      var s := Run(before);
      if last.Observe? {
        var tag := LabelOf(s.reconciled, s.routes, last.route);
        BumpTotal(s.requests, RequestKey(tag, BoundedVerb(last.verb), last.status), route);
      } else {
        KeptTotal(s.requests, last.routes, route);
      }
    }
  }

  /** So a configured route has exactly its own observations if and only if it is not
      named "retired" or nothing was ever redirected. */
  lemma OwnObservationsIff(ops: seq<Op>, route: string)
    requires Stays(ops, route)
    ensures RouteTotal(Run(ops).requests, route) == Observations(ops, route)
            <==> route != RETIRED || Redirected(ops) == 0
  {
    NothingLost(ops, route);
  }

  /** A configured route of that name takes the observations of a removed one. */
  lemma RetiredRouteCollects()
    ensures var ops := [Reconcile({RETIRED}), Observe("old", Get, 200, 0)];
            && Stays(ops, RETIRED) && Observations(ops, RETIRED) == 0
            && RouteTotal(Run(ops).requests, RETIRED) == 1
  {
    var first, second := Reconcile({RETIRED}), Observe("old", Get, 200, 0);
    var ops := [first, second];
    assert ops[..1] == [first] && [first][..0] == [];
    assert Run([first]) == Series(map[], map[], map[], {RETIRED}, true);
    assert Redirected([first]) == Redirected([]) && Observations([first], RETIRED) == Observations([], RETIRED);
    NothingLost(ops, RETIRED);
  }

  // ---------- every single counter ----------

  function Counter<K>(m: map<K, nat>, k: K): nat {
    if k in m then m[k] else 0
  }

  /** Adding to a counter changes that counter, and no other. */
  lemma AddMeans<K>(m: map<K, nat>, k: K, n: nat, other: K)
    ensures Counter(Add(m, k, n), other) == Counter(m, other) + if other == k then n else 0
    ensures Counter(Bump(m, k), other) == Counter(m, other) + if other == k then 1 else 0
  {
  }

  /** The same request method, as far as the labels tell methods apart. */
  predicate SameVerb(v: Verb, w: Verb) {
    v == w || (v.Custom? && w.Custom?)
  }

  /** Observations of exactly this route, method and status, made while the route had its
      own label and since that label was last dropped. */
  function Matching(ops: seq<Op>, route: string, verb: Verb, status: int): nat {
    if ops == [] then 0
    else
      var before, last := ops[..|ops| - 1], ops[|ops| - 1];
      match last
      case Observe(r, v, s, _) =>
        Matching(before, route, verb, status)
        + if r == route && SameVerb(v, verb) && s == status && Served(Run(before), route) then 1 else 0
      case Reconcile(routes) => if Keeps(routes, route) then Matching(before, route, verb, status) else 0
  }

  /** After any run each request counter is the number of matching observations. */
  lemma {:induction false} CounterIsMatching(ops: seq<Op>, route: string, verb: Verb, status: int)
    requires route != RETIRED
    ensures Counter(Run(ops).requests, RequestKey(route, BoundedVerb(verb), status))
            == Matching(ops, route, verb, status)
  {
    if ops != [] {
      var before, last := ops[..|ops| - 1], ops[|ops| - 1];
      var s, key := Run(before), RequestKey(route, BoundedVerb(verb), status);
      CounterIsMatching(before, route, verb, status);
      if last.Observe? {
        var tag := LabelOf(s.reconciled, s.routes, last.route);
        AddMeans(s.requests, RequestKey(tag, BoundedVerb(last.verb), last.status), 1, key);
      }
    }
  }

  /** What the matching observations took. */
  function TimeSpent(ops: seq<Op>, route: string): int {
    if ops == [] then 0
    else
      var before, last := ops[..|ops| - 1], ops[|ops| - 1];
      TimeSpent(before, route) + if last.Observe? && last.route == route then last.nanos else 0
  }

  /** The duration of a route that stays configured is the sum of its observations. */
  lemma {:induction false} DurationsAddUp(ops: seq<Op>, route: string)
    requires route != RETIRED && Stays(ops, route)
    ensures (if route in Run(ops).sum then Run(ops).sum[route] else 0) == TimeSpent(ops, route)
  {
    if ops != [] {
      var before := ops[..|ops| - 1];
      DurationsAddUp(before, route);
      StaysServed(before, route);
    }
  }

  /** Every decision and reason that the proxy reports keeps its own label; everything else
      shares one. */
  lemma KnownLabels()
    ensures LabelOf(true, {}, "gone") == "retired" && LabelOf(true, {}, "unmatched") == "unmatched"
    ensures BoundedVerb(Custom("PURGE")) == Custom("OTHER")
    ensures BoundedDecision("queued") == "other" && BoundedReason("unknown") == "other"
    ensures BoundedDecision("allowed") == "allowed" && BoundedDecision("limited") == "limited"
    ensures BoundedReason("method_not_allowed") == "method_not_allowed"
    ensures BoundedReason("path_denied") == "path_denied"
    ensures BoundedReason("required_header_missing") == "required_header_missing"
    ensures BoundedReason("header_denied") == "header_denied"
    ensures BoundedReason("query_too_large") == "query_too_large"
  {
  }

  // ---------- the registry ----------

  predicate Labelled(m: map<LabelKey, nat>, routes: set<string>) {
    forall k :: k in m ==> Keeps(routes, k.route)
  }

  /** One of the deletion loops of ReconcileConfig. */
  method DropUnknown<K(==)>(m: map<K, nat>, labels: K -> string, routes: set<string>) returns (kept: map<K, nat>)
    ensures kept == map k | k in m && Keeps(routes, labels(k)) :: m[k]
  {
    kept := m;
    var keys := m.Keys;
    while keys != {}
      invariant keys <= m.Keys
      invariant forall k :: k in kept ==> k in m && kept[k] == m[k]
      invariant forall k :: k in m ==> (k in kept <==> k in keys || Keeps(routes, labels(k)))
      decreases keys
    {
      var k :| k in keys;
      if !Keeps(routes, labels(k)) {
        kept := kept - {k};
      }
      keys := keys - {k};
    }
  }

  method DropLabels(m: map<LabelKey, nat>, routes: set<string>) returns (kept: map<LabelKey, nat>)
    ensures kept == KeptLabels(m, routes) && Labelled(kept, routes)
  {
    kept := DropUnknown(m, (k: LabelKey) => k.route, routes);
  }

  method DropRoutes(m: map<string, nat>, routes: set<string>) returns (kept: map<string, nat>)
    ensures kept == KeptRoutes(m, routes)
  {
    kept := DropUnknown(m, (tag: string) => tag, routes);
  }

  class Registry {
    var requests: map<RequestKey, nat>
    var durationCount: map<string, nat>
    var durationSum: map<string, int>
    var cache: map<LabelKey, nat>
    var rateLimits: map<LabelKey, nat>
    var policyDenials: map<LabelKey, nat>
    var retries: map<string, nat>
    var health: map<BackendKey, bool>
    var active: map<BackendKey, int>
    var allowedRoutes: set<string>
    var allowedBackends: set<BackendKey>
    var reconciled: bool

    ghost function State(): Series
      reads this
    {
      Series(requests, durationCount, durationSum, allowedRoutes, reconciled)
    }

    /** Every label is bounded once the registry has been reconciled. */
    ghost predicate Valid()
      reads this
    {
      Consistent(State()) && (reconciled ==> Bounded(allowedRoutes, allowedBackends))
    }

    ghost predicate Bounded(routes: set<string>, backends: set<BackendKey>)
      reads this`cache, this`rateLimits, this`policyDenials, this`retries, this`health, this`active
    {
      && Labelled(cache, routes) && Labelled(rateLimits, routes) && Labelled(policyDenials, routes)
      && (forall tag :: tag in retries ==> Keeps(routes, tag))
      && health.Keys <= backends && active.Keys <= backends
    }

    constructor ()
      ensures Valid() && State() == Empty
    {
      requests, durationCount, durationSum := map[], map[], map[];
      cache, rateLimits, policyDenials, retries := map[], map[], map[], map[];
      health, active, allowedRoutes, allowedBackends, reconciled := map[], map[], {}, {}, false;
      new;
      AlwaysConsistent([]);
    }

    method ObserveRequest(route: string, verb: Verb, status: int, attempts: int, cacheResult: string, nanos: int)
      requires Valid()
      modifies this`requests, this`durationCount, this`durationSum, this`cache, this`retries
      ensures Valid()
      ensures State() == Step(old(State()), Observe(route, verb, status, nanos))
      ensures var tag := LabelOf(reconciled, allowedRoutes, route);
              && cache == (if cacheResult != "" then Bump(old(cache), LabelKey(tag, cacheResult)) else old(cache))
              && retries == if attempts > 1 then Add(old(retries), tag, attempts - 1) else old(retries)
    {
      ConsistentStep(State(), Observe(route, verb, status, nanos));
      var tag := route;
      if reconciled && route !in allowedRoutes && route != UNMATCHED {
        tag := RETIRED;
      }
      CountRequest(tag, BoundedVerb(verb), status, nanos);
      CountExtras(tag, attempts, cacheResult);
    }

    /** The three counters every request moves. */
    method CountRequest(tag: string, verb: Verb, status: int, nanos: int)
      modifies this`requests, this`durationCount, this`durationSum
      ensures State() == Counted(old(State()), tag, verb, status, nanos)
    {
      requests := Bump(requests, RequestKey(tag, verb, status));
      durationCount := Bump(durationCount, tag);
      durationSum := durationSum[tag := (if tag in durationSum then durationSum[tag] else 0) + nanos];
    }

    /** The counters only cached or retried requests move. */
    method CountExtras(tag: string, attempts: int, cacheResult: string)
      modifies this`cache, this`retries
      ensures cache == if cacheResult != "" then Bump(old(cache), LabelKey(tag, cacheResult)) else old(cache)
      ensures retries == if attempts > 1 then Add(old(retries), tag, attempts - 1) else old(retries)
    {
      if cacheResult != "" {
        cache := Bump(cache, LabelKey(tag, cacheResult));
      }
      if attempts > 1 {
        retries := retries[tag := (if tag in retries then retries[tag] else 0) + (attempts - 1)];
      }
    }

    method ObserveRateLimit(route: string, decision: string)
      requires Valid()
      modifies this`rateLimits
      ensures Valid()
      ensures var tag := LabelOf(reconciled, allowedRoutes, route);
              rateLimits == Bump(old(rateLimits), LabelKey(tag, BoundedDecision(decision)))
    {
      var tag := LabelOf(reconciled, allowedRoutes, route);
      rateLimits := Bump(rateLimits, LabelKey(tag, BoundedDecision(decision)));
    }

    method ObservePolicyDeny(route: string, reason: string)
      requires Valid()
      modifies this`policyDenials
      ensures Valid()
      ensures var tag := LabelOf(reconciled, allowedRoutes, route);
              policyDenials == Bump(old(policyDenials), LabelKey(tag, BoundedReason(reason)))
    {
      var tag := LabelOf(reconciled, allowedRoutes, route);
      policyDenials := Bump(policyDenials, LabelKey(tag, BoundedReason(reason)));
    }

    method SetBackendHealth(pool: string, backend: string, healthy: bool)
      requires Valid()
      modifies this`health
      ensures Valid()
      ensures health == if reconciled && BackendKey(pool, backend) !in allowedBackends then old(health)
                        else old(health)[BackendKey(pool, backend) := healthy]
    {
      if reconciled && BackendKey(pool, backend) !in allowedBackends {
        return;
      }
      health := health[BackendKey(pool, backend) := healthy];
    }

    method SetBackendActive(pool: string, backend: string, count: int)
      requires Valid()
      modifies this`active
      ensures Valid()
      ensures active == if reconciled && BackendKey(pool, backend) !in allowedBackends then old(active)
                        else old(active)[BackendKey(pool, backend) := count]
    {
      if reconciled && BackendKey(pool, backend) !in allowedBackends {
        return;
      }
      active := active[BackendKey(pool, backend) := count];
    }

    method ReconcileConfig(routes: set<string>, backends: set<BackendKey>)
      requires Valid()
      modifies this
      ensures Valid() && reconciled
      ensures State() == Step(old(State()), Reconcile(routes))
      ensures allowedBackends == backends && health == map[] && active == map[]
      ensures cache == KeptLabels(old(cache), routes)
      ensures rateLimits == KeptLabels(old(rateLimits), routes)
      ensures policyDenials == KeptLabels(old(policyDenials), routes)
      ensures retries == KeptRoutes(old(retries), routes)
    {
      allowedBackends := backends;
      ReconcileSeries(routes);
      DropOthers(routes, backends);
    }

    /** The route labels, and what they leave of the request and duration counters. */
    method ReconcileSeries(routes: set<string>)
      requires Consistent(State())
      modifies this`requests, this`durationCount, this`durationSum, this`allowedRoutes, this`reconciled
      ensures State() == Step(old(State()), Reconcile(routes))
      ensures Consistent(State())
    {
      ConsistentStep(State(), Reconcile(routes));
      allowedRoutes, reconciled := routes, true;
      DropRequests(routes);
    }

    /** The deletion loops over the request and duration counters. */
    method DropRequests(routes: set<string>)
      requires durationSum.Keys == durationCount.Keys
      modifies this`requests, this`durationCount, this`durationSum
      ensures requests == KeptRequests(old(requests), routes)
      ensures durationCount == KeptRoutes(old(durationCount), routes)
      ensures durationSum == KeptRoutes(old(durationSum), routes)
    {
      requests := DropUnknown(requests, (k: RequestKey) => k.route, routes);
      durationCount := DropRoutes(durationCount, routes);
      durationSum := map tag | tag in durationSum && tag in durationCount :: durationSum[tag];
    }

    /** The deletion loops over the remaining counters, and the gauges cleared. */
    method DropOthers(routes: set<string>, ghost backends: set<BackendKey>)
      modifies this`cache, this`rateLimits, this`policyDenials, this`retries, this`health, this`active
      ensures health == map[] && active == map[] && Bounded(routes, backends)
      ensures cache == KeptLabels(old(cache), routes)
      ensures rateLimits == KeptLabels(old(rateLimits), routes)
      ensures policyDenials == KeptLabels(old(policyDenials), routes)
      ensures retries == KeptRoutes(old(retries), routes)
    {
      cache := DropLabels(cache, routes);
      rateLimits := DropLabels(rateLimits, routes);
      policyDenials := DropLabels(policyDenials, routes);
      retries := DropRoutes(retries, routes);
      health, active := map[], map[];
    }
  }
}

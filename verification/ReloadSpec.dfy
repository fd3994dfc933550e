/**
 What a reload means: the fields only a restart may change, and snapshots that replace
 each other whole and hand on backend health (internal/app/runtime.go and
 internal/proxy/runtime.go).
 */
module ReloadSpec {
  import opened Common
  import opened Backends

  // ---------- configuration ----------

  /** Slices are optional because the comparison of tokens tells a missing list from an
      empty one. */
  datatype Token = Token(name: string, env: string, scopes: Option<seq<string>>)

  datatype Admin = Admin(address: string, authTokenEnv: string, tokens: Option<seq<Token>>)

  datatype Files = Files(certificate: string, key: string)

  datatype Listener = Listener(address: string, tls: Option<Files>)

  datatype Timeouts = Timeouts(readHeader: int, readBody: int, write: int, idle: int, shutdown: int,
                               dial: int, responseHeader: int)

  datatype Limits = Limits(maxHeaderBytes: int, maxBodyBytes: int, maxConcurrentRequests: int, maxConnections: int)

  datatype Upstream = Upstream(name: string, url: string)

  datatype Config = Config(listeners: seq<Listener>, admin: Admin, pools: map<string, seq<Upstream>>,
                           timeouts: Timeouts, limits: Limits)

  // ---------- what requires a restart ----------

  datatype Change =
    | AdminAddress | AdminAuthTokenEnv | AdminTokens | ListenerCount
    | ListenerAddress(index: int) | ListenerTLSMode(index: int)
    | ReadHeader | ReadBody | Write | Idle | Shutdown | MaxHeaderBytes | MaxConnections

  /** Whether a field that only a restart may change differs. */
  predicate Differs(current: Config, next: Config, change: Change) {
    var t, u := current.timeouts, next.timeouts;
    match change
    case AdminAddress => current.admin.address != next.admin.address
    case AdminAuthTokenEnv => current.admin.authTokenEnv != next.admin.authTokenEnv
    case AdminTokens => current.admin.tokens != next.admin.tokens
    case ListenerCount => |current.listeners| != |next.listeners|
    case ListenerAddress(i) =>
      0 <= i < |current.listeners| && i < |next.listeners| && current.listeners[i].address != next.listeners[i].address
    case ListenerTLSMode(i) =>
      0 <= i < |current.listeners| && i < |next.listeners|
          && current.listeners[i].tls.None? != next.listeners[i].tls.None?
    case ReadHeader => t.readHeader != u.readHeader
    case ReadBody => t.readBody != u.readBody
    case Write => t.write != u.write
    case Idle => t.idle != u.idle
    case Shutdown => t.shutdown != u.shutdown
    case MaxHeaderBytes => current.limits.maxHeaderBytes != next.limits.maxHeaderBytes
    case MaxConnections => current.limits.maxConnections != next.limits.maxConnections
  }

  predicate ComparedFirst(change: Change) {
    change.AdminAddress? || change.AdminAuthTokenEnv? || change.AdminTokens? || change.ListenerCount?
  }

  /** What a running process keeps for life. */
  datatype Fixed = Fixed(admin: Admin, listeners: seq<(string, bool)>, readHeader: int, readBody: int, write: int,
                         idle: int, shutdown: int, maxHeaderBytes: int, maxConnections: int)

  function Modes(listeners: seq<Listener>): seq<(string, bool)> {
    seq(|listeners|, i requires 0 <= i < |listeners| => (listeners[i].address, listeners[i].tls.Some?))
  }

  function FixedPart(c: Config): Fixed {
    Fixed(c.admin, Modes(c.listeners),
          c.timeouts.readHeader, c.timeouts.readBody, c.timeouts.write, c.timeouts.idle, c.timeouts.shutdown,
          c.limits.maxHeaderBytes, c.limits.maxConnections)
  }

  /** The errors name the fields that differ; a different number of listeners hides the
      fields compared after it. */
  method ImmutableCompatible(current: Config, next: Config) returns (errors: seq<Change>)
    ensures forall c :: c in errors <==>
              Differs(current, next, c) && (ComparedFirst(c) || |current.listeners| == |next.listeners|)
    ensures errors == [] <==> FixedPart(current) == FixedPart(next)
  {
    errors := CompareAdmin(current, next);
    if |current.listeners| != |next.listeners| {
      errors := errors + [ListenerCount];
      DifferentCount(current, next);
      return;
    }
    var listeners := CompareListeners(current, next);
    var timeouts := CompareTimeouts(current, next);
    var limits := CompareLimits(current, next);
    errors := errors + listeners + timeouts + limits;
    SameFixedPart(current, next, errors);
  }

  method CompareAdmin(current: Config, next: Config) returns (errors: seq<Change>)
    ensures forall c :: c in errors <==> Differs(current, next, c) && ComparedFirst(c) && c != ListenerCount
  {
    errors := [];
    if current.admin.address != next.admin.address {
      errors := errors + [AdminAddress];
    }
    if current.admin.authTokenEnv != next.admin.authTokenEnv {
      errors := errors + [AdminAuthTokenEnv];
    }
    if current.admin.tokens != next.admin.tokens {
      errors := errors + [AdminTokens];
    }
  }

  predicate OfListener(c: Change) {
    c.ListenerAddress? || c.ListenerTLSMode?
  }

  method CompareListeners(current: Config, next: Config) returns (errors: seq<Change>)
    requires |current.listeners| == |next.listeners|
    ensures forall c :: c in errors <==> Differs(current, next, c) && OfListener(c)
  {
    errors := [];
    for i := 0 to |current.listeners|
      invariant forall c :: c in errors <==> Differs(current, next, c) && OfListener(c) && c.index < i
    {
      if current.listeners[i].address != next.listeners[i].address {
        errors := errors + [ListenerAddress(i)];
      }
      if current.listeners[i].tls.None? != next.listeners[i].tls.None? {
        errors := errors + [ListenerTLSMode(i)];
      }
    }
  }

  predicate OfLimits(c: Change) {
    c.MaxHeaderBytes? || c.MaxConnections?
  }

  method CompareTimeouts(current: Config, next: Config) returns (errors: seq<Change>)
    ensures forall c :: c in errors <==>
              Differs(current, next, c) && !ComparedFirst(c) && !OfListener(c) && !OfLimits(c)
  {
    errors := [];
    if current.timeouts.readHeader != next.timeouts.readHeader {
      errors := errors + [ReadHeader];
    }
    if current.timeouts.readBody != next.timeouts.readBody {
      errors := errors + [ReadBody];
    }
    if current.timeouts.write != next.timeouts.write {
      errors := errors + [Write];
    }
    if current.timeouts.idle != next.timeouts.idle {
      errors := errors + [Idle];
    }
    if current.timeouts.shutdown != next.timeouts.shutdown {
      errors := errors + [Shutdown];
    }
  }

  method CompareLimits(current: Config, next: Config) returns (errors: seq<Change>)
    ensures forall c :: c in errors <==> Differs(current, next, c) && OfLimits(c)
  {
    errors := [];
    if current.limits.maxHeaderBytes != next.limits.maxHeaderBytes {
      errors := errors + [MaxHeaderBytes];
    }
    if current.limits.maxConnections != next.limits.maxConnections {
      errors := errors + [MaxConnections];
    }
  }

  /** Each error names the field that it is about. */
  lemma ErrorsNameFields(current: Config, next: Config)
    ensures Differs(current, next, AdminAddress) <==> current.admin.address != next.admin.address
    ensures Differs(current, next, AdminAuthTokenEnv) <==> current.admin.authTokenEnv != next.admin.authTokenEnv
    ensures Differs(current, next, AdminTokens) <==> current.admin.tokens != next.admin.tokens
    ensures Differs(current, next, ReadHeader) <==> current.timeouts.readHeader != next.timeouts.readHeader
    ensures Differs(current, next, ReadBody) <==> current.timeouts.readBody != next.timeouts.readBody
    ensures Differs(current, next, Write) <==> current.timeouts.write != next.timeouts.write
    ensures Differs(current, next, Idle) <==> current.timeouts.idle != next.timeouts.idle
    ensures Differs(current, next, Shutdown) <==> current.timeouts.shutdown != next.timeouts.shutdown
    ensures Differs(current, next, MaxHeaderBytes) <==> current.limits.maxHeaderBytes != next.limits.maxHeaderBytes
    ensures Differs(current, next, MaxConnections) <==> current.limits.maxConnections != next.limits.maxConnections
  {
  }

  lemma DifferentCount(current: Config, next: Config)
    requires |current.listeners| != |next.listeners|
    ensures FixedPart(current) != FixedPart(next)
  {
    assert |Modes(current.listeners)| != |Modes(next.listeners)|;
  }

  lemma SameFixedPart(current: Config, next: Config, errors: seq<Change>)
    requires |current.listeners| == |next.listeners|
    requires forall c :: c in errors <==> Differs(current, next, c)
    ensures errors == [] <==> FixedPart(current) == FixedPart(next)
  {
    var m, n := Modes(current.listeners), Modes(next.listeners);
    if errors == [] {
      assert forall c :: !Differs(current, next, c);
      forall i | 0 <= i < |m| ensures m[i] == n[i] {
        assert !Differs(current, next, ListenerAddress(i)) && !Differs(current, next, ListenerTLSMode(i));
      }
      assert m == n;
      assert !Differs(current, next, AdminAddress) && !Differs(current, next, AdminAuthTokenEnv);
      assert !Differs(current, next, AdminTokens);
      assert !Differs(current, next, ReadHeader) && !Differs(current, next, ReadBody) && !Differs(current, next, Write);
      assert !Differs(current, next, Idle) && !Differs(current, next, Shutdown);
      assert !Differs(current, next, MaxHeaderBytes) && !Differs(current, next, MaxConnections);
    } else {
      var c := errors[0];
      assert Differs(current, next, c);
      if FixedPart(current) == FixedPart(next) {
        SameFields(current, next, c);
      }
    }
  }

  lemma SameFields(current: Config, next: Config, c: Change)
    requires FixedPart(current) == FixedPart(next)
    ensures !Differs(current, next, c)
  {
    var m, n := Modes(current.listeners), Modes(next.listeners);
    assert |m| == |n|;
    if OfListener(c) && 0 <= c.index < |m| {
      assert m[c.index] == n[c.index];
    }
  }

  // ---------- snapshots ----------

  datatype Member = Member(name: string, url: string, health: Health)

  type Pools = map<string, seq<Member>>

  type Certificate = nat

  /** What one listener's certificate store holds; None where there is no store. */
  type Stores = seq<Option<Certificate>>

  datatype Snapshot = Snapshot(config: Config, stores: Stores, pools: Pools)

  predicate Same(m: Member, name: string, url: string) {
    m.name == name && m.url == url
  }

  /** A candidate takes the eligibility of the first old backend with its name and URL. */
  function InheritOne(m: Member, previous: seq<Member>): Member {
    if previous == [] then m
    else if Same(previous[0], m.name, m.url) then m.(health := Health(previous[0].health.alive, 0, 0, 0))
    else InheritOne(m, previous[1..])
  }

  function InheritAll(next: seq<Member>, previous: seq<Member>): seq<Member> {
    seq(|next|, i requires 0 <= i < |next| => InheritOne(next[i], previous))
  }

  function InheritIn(next: Pools, previous: Pools, p: string): seq<Member>
    requires p in next
  {
    if p in previous then InheritAll(next[p], previous[p]) else next[p]
  }

  function Inherit(next: Pools, previous: Pools): Pools {
    map p | p in next :: InheritIn(next, previous, p)
  }

  function StartAll(upstreams: seq<Upstream>): seq<Member> {
    seq(|upstreams|, i requires 0 <= i < |upstreams| => Member(upstreams[i].name, upstreams[i].url, Initial))
  }

  function StartPools(c: Config): Pools {
    map p | p in c.pools :: StartAll(c.pools[p])
  }

  /** What a reload finds: the loaded file, if it loads, whether a handler can be built
      from it, and the certificates that can be read, by listener. */
  datatype Attempt = Attempt(loaded: Option<Config>, builds: bool, certificates: map<int, Certificate>)

  predicate Readable(c: Config, certificates: map<int, Certificate>) {
    forall i :: 0 <= i < |c.listeners| && c.listeners[i].tls.Some? ==> i in certificates
  }

  predicate Accepts(current: Config, a: Attempt) {
    && a.loaded.Some?
    && FixedPart(current) == FixedPart(a.loaded.value)
    && a.builds
    && Readable(a.loaded.value, a.certificates)
  }

  function Published(stores: Stores, c: Config, certificates: map<int, Certificate>): Stores
    requires Readable(c, certificates) && |stores| == |c.listeners|
  {
    seq(|stores|, i requires 0 <= i < |stores| =>
        if c.listeners[i].tls.Some? then Some(certificates[i]) else stores[i])
  }

  /** A store for every listener that serves TLS and for no other, and the configured
      backends in every pool. */
  predicate Sound(s: Snapshot) {
    && |s.stores| == |s.config.listeners|
    && (forall i :: 0 <= i < |s.stores| ==> (s.stores[i].Some? <==> s.config.listeners[i].tls.Some?))
    && s.pools.Keys == s.config.pools.Keys
    && forall p :: p in s.pools ==> Lists(s.pools[p], s.config.pools[p])
  }

  predicate Lists(members: seq<Member>, upstreams: seq<Upstream>) {
    && |members| == |upstreams|
    && forall i :: 0 <= i < |members| ==> Same(members[i], upstreams[i].name, upstreams[i].url)
  }

  /** Between reloads probes and requests move the health of backends, named uniquely in
      a pool by validation. */
  datatype Happening = Reload(attempt: Attempt) | HealthMoved(pool: string, name: string, event: Event, th: Thresholds)

  function Moved(m: Member, name: string, event: Event, th: Thresholds): Member {
    if m.name == name then m.(health := Backends.Step(m.health, event, th)) else m
  }

  function MoveAll(ms: seq<Member>, name: string, event: Event, th: Thresholds): seq<Member> {
    seq(|ms|, i requires 0 <= i < |ms| => Moved(ms[i], name, event, th))
  }

  lemma SameCount(c: Config, d: Config)
    requires FixedPart(c) == FixedPart(d)
    ensures |c.listeners| == |d.listeners|
    ensures forall i :: 0 <= i < |c.listeners| ==> c.listeners[i].tls.Some? == d.listeners[i].tls.Some?
  {
    var m, n := Modes(c.listeners), Modes(d.listeners);
    assert |m| == |n|;
    forall i | 0 <= i < |c.listeners| ensures c.listeners[i].tls.Some? == d.listeners[i].tls.Some? {
      assert m[i] == n[i];
    }
  }

  lemma {:induction false} InheritOneKeeps(m: Member, previous: seq<Member>)
    ensures Same(InheritOne(m, previous), m.name, m.url)
  {
    if previous != [] {
      InheritOneKeeps(m, previous[1..]);
    }
  }

  lemma InheritSkips(m: Member, ms: seq<Member>, k: nat)
    requires k <= |ms| && forall j :: 0 <= j < k ==> !Same(ms[j], m.name, m.url)
    ensures InheritOne(m, ms) == InheritOne(m, ms[k..])
  {
    if k > 0 {
      InheritSkips(m, ms, k - 1);
      assert ms[k - 1..][1..] == ms[k..];
    } else {
      assert ms[0..] == ms;
    }
  }

  lemma InheritLists(next: seq<Member>, previous: seq<Member>, upstreams: seq<Upstream>)
    requires Lists(next, upstreams)
    ensures Lists(InheritAll(next, previous), upstreams)
  {
    forall i | 0 <= i < |next| ensures Same(InheritOne(next[i], previous), upstreams[i].name, upstreams[i].url) {
      InheritOneKeeps(next[i], previous);
    }
  }

  function Replaced(s: Snapshot, a: Attempt): (t: Snapshot)
    requires Sound(s) && Accepts(s.config, a)
    ensures Sound(t)
  {
    SameCount(s.config, a.loaded.value);
    var next := a.loaded.value;
    var pools := Inherit(StartPools(next), s.pools);
    assert forall p :: p in pools ==> Lists(pools[p], next.pools[p]) by {
      forall p | p in pools ensures Lists(pools[p], next.pools[p]) {
        if p in s.pools {
          InheritLists(StartPools(next)[p], s.pools[p], next.pools[p]);
        }
      }
    }
    Snapshot(next, Published(s.stores, next, a.certificates), pools)
  }

  function Step(s: Snapshot, h: Happening): (t: Snapshot)
    requires Sound(s)
    ensures Sound(t)
  {
    match h
    case Reload(a) => if Accepts(s.config, a) then Replaced(s, a) else s
    case HealthMoved(pool, name, event, th) =>
      if pool in s.pools then s.(pools := s.pools[pool := MoveAll(s.pools[pool], name, event, th)]) else s
  }

  function Run(start: Snapshot, happenings: seq<Happening>): (s: Snapshot)
    requires Sound(start)
    ensures Sound(s)
  {
    if happenings == [] then start
    else Step(Run(start, happenings[..|happenings| - 1]), happenings[|happenings| - 1])
  }

  // ---------- whole runs ----------

  /** The fields that only a restart may change. */
  lemma FixedPartIff(c: Config, d: Config)
    ensures FixedPart(c) == FixedPart(d) <==>
              && c.admin.address == d.admin.address && c.admin.authTokenEnv == d.admin.authTokenEnv
              && c.admin.tokens == d.admin.tokens
              && |c.listeners| == |d.listeners|
              && (forall i :: 0 <= i < |c.listeners| ==>
                    && c.listeners[i].address == d.listeners[i].address
                    && (c.listeners[i].tls.Some? <==> d.listeners[i].tls.Some?))
              && c.timeouts.readHeader == d.timeouts.readHeader && c.timeouts.readBody == d.timeouts.readBody
              && c.timeouts.write == d.timeouts.write && c.timeouts.idle == d.timeouts.idle
              && c.timeouts.shutdown == d.timeouts.shutdown
              && c.limits.maxHeaderBytes == d.limits.maxHeaderBytes
              && c.limits.maxConnections == d.limits.maxConnections
  {
    ModesIff(c.listeners, d.listeners);
  }

  lemma ModesIff(c: seq<Listener>, d: seq<Listener>)
    ensures Modes(c) == Modes(d) <==>
              && |c| == |d|
              && (forall i :: 0 <= i < |c| ==> c[i].address == d[i].address && (c[i].tls.Some? <==> d[i].tls.Some?))
  {
    var m, n := Modes(c), Modes(d);
    assert |m| == |c| && |n| == |d|;
    assert forall i :: 0 <= i < |c| ==> m[i] == (c[i].address, c[i].tls.Some?);
    assert forall i :: 0 <= i < |d| ==> n[i] == (d[i].address, d[i].tls.Some?);
  }

  /** An attempt is accepted exactly if the file loads, asks for no restart and builds, and
      every TLS listener's certificate can be read. */
  lemma AcceptsIff(current: Config, a: Attempt)
    ensures Accepts(current, a) <==>
              && a.loaded.Some? && a.builds
              && FixedPart(a.loaded.value) == FixedPart(current)
              && (forall i :: 0 <= i < |a.loaded.value.listeners| && a.loaded.value.listeners[i].tls.Some? ==>
                    i in a.certificates)
  {
  }

  /** Nothing that needs a restart ever changes without one. */
  lemma {:induction false} RestartOnlyFieldsStay(start: Snapshot, happenings: seq<Happening>)
    requires Sound(start)
    ensures FixedPart(Run(start, happenings).config) == FixedPart(start.config)
  {
    if happenings != [] {
      RestartOnlyFieldsStay(start, happenings[..|happenings| - 1]);
    }
  }

  /** At any time there is a certificate store exactly for each listener that serves TLS,
      and every pool has its configured backends, in order. */
  lemma StoresMatchListeners(start: Snapshot, happenings: seq<Happening>)
    requires Sound(start)
    ensures var s := Run(start, happenings);
            && |s.stores| == |s.config.listeners|
            && (forall i :: 0 <= i < |s.stores| ==> (s.stores[i].Some? <==> s.config.listeners[i].tls.Some?))
            && s.pools.Keys == s.config.pools.Keys
            && (forall p :: p in s.pools ==> |s.pools[p]| == |s.config.pools[p]|)
            && (forall p, i :: p in s.pools && 0 <= i < |s.pools[p]| ==>
                  s.config.pools[p][i] == Upstream(s.pools[p][i].name, s.pools[p][i].url))
  {
    var s := Run(start, happenings);
    forall p | p in s.pools ensures Lists(s.pools[p], s.config.pools[p]) {
    }
  }

  /** The latest of these attempts that is acceptable to the configuration at startup. */
  function LastAccepted(startup: Config, first: Attempt, happenings: seq<Happening>): Attempt {
    if happenings == [] then first
    else
      var last := happenings[|happenings| - 1];
      if last.Reload? && Accepts(startup, last.attempt) then last.attempt
      else LastAccepted(startup, first, happenings[..|happenings| - 1])
  }

  /** The configuration and every certificate come from this one attempt. */
  predicate PublishedFrom(s: Snapshot, a: Attempt)
    requires Sound(s)
  {
    && a.loaded == Some(s.config)
    && Readable(s.config, a.certificates)
    && forall i :: 0 <= i < |s.stores| && s.stores[i].Some? ==> s.stores[i].value == a.certificates[i]
  }

  /** A reload takes effect as a whole or not at all, and whether it does depends on the
      attempt and the configuration at startup alone. */
  lemma {:induction false} AllOrNothing(start: Snapshot, first: Attempt, happenings: seq<Happening>)
    requires Sound(start) && PublishedFrom(start, first)
    ensures PublishedFrom(Run(start, happenings), LastAccepted(start.config, first, happenings))
    ensures var s, a := Run(start, happenings), LastAccepted(start.config, first, happenings);
            && a.loaded == Some(s.config)
            && forall i :: 0 <= i < |s.config.listeners| && s.config.listeners[i].tls.Some? ==>
                 i in a.certificates && s.stores[i] == Some(a.certificates[i])
  {
    if happenings != [] {
      var before := happenings[..|happenings| - 1];
      AllOrNothing(start, first, before);
      RestartOnlyFieldsStay(start, before);
    }
  }

  // ---------- health across reloads ----------

  /** The health of the backend with this name and URL. */
  function Lookup(ms: seq<Member>, name: string, url: string): Option<Health> {
    if ms == [] then None
    else if Same(ms[0], name, url) then Some(ms[0].health)
    else Lookup(ms[1..], name, url)
  }

  function LookupIn(pools: Pools, pool: string, name: string, url: string): Option<Health> {
    if pool in pools then Lookup(pools[pool], name, url) else None
  }

  predicate Configured(c: Config, pool: string, name: string, url: string) {
    pool in c.pools && exists i :: 0 <= i < |c.pools[pool]| && c.pools[pool][i] == Upstream(name, url)
  }

  /** The health a backend should have: it starts alive when it appears, follows its own
      events, keeps only its eligibility over an accepted reload, and is forgotten when a
      reload drops it or gives its name another URL. */
  function Remembered(start: Snapshot, happenings: seq<Happening>, pool: string, name: string,
                      url: string): Option<Health> {
    if happenings == [] then LookupIn(start.pools, pool, name, url)
    else
      var before := Remembered(start, happenings[..|happenings| - 1], pool, name, url);
      match happenings[|happenings| - 1]
      case Reload(a) =>
        if !Accepts(start.config, a) then before
        else if !Configured(a.loaded.value, pool, name, url) then None
        else if before.Some? then Some(Health(before.value.alive, 0, 0, 0))
        else Some(Initial)
      case HealthMoved(p, n, event, th) =>
        if p == pool && n == name && before.Some? then Some(Backends.Step(before.value, event, th)) else before
  }

  lemma {:induction false} InheritOneLooksUp(m: Member, previous: seq<Member>)
    ensures InheritOne(m, previous).health
         == match Lookup(previous, m.name, m.url) case Some(h) => Health(h.alive, 0, 0, 0) case None => m.health
  {
    if previous != [] {
      InheritOneLooksUp(m, previous[1..]);
    }
  }

  /** The first member with the name and URL, seen from the members it came from. */
  lemma {:induction false} LookupInherited(next: seq<Member>, previous: seq<Member>, name: string, url: string)
    ensures Lookup(InheritAll(next, previous), name, url)
         == match Lookup(next, name, url)
            case None => None
            case Some(own) =>
              match Lookup(previous, name, url) case Some(h) => Some(Health(h.alive, 0, 0, 0)) case None => Some(own)
  {
    var all := InheritAll(next, previous);
    if next != [] {
      InheritOneKeeps(next[0], previous);
      InheritOneLooksUp(next[0], previous);
      assert all[1..] == InheritAll(next[1..], previous);
      LookupInherited(next[1..], previous, name, url);
    }
  }

  lemma {:induction false} LookupStarted(upstreams: seq<Upstream>, name: string, url: string)
    ensures Lookup(StartAll(upstreams), name, url)
         == if exists i :: 0 <= i < |upstreams| && upstreams[i] == Upstream(name, url) then Some(Initial) else None
  {
    if upstreams != [] {
      var rest := upstreams[1..];
      assert StartAll(upstreams)[1..] == StartAll(rest);
      LookupStarted(rest, name, url);
      assert forall i :: 1 <= i < |upstreams| ==> rest[i - 1] == upstreams[i];
      assert forall i :: 0 <= i < |rest| ==> upstreams[i + 1] == rest[i];
    }
  }

  lemma {:induction false} LookupMoved(ms: seq<Member>, moved: string, event: Event, th: Thresholds, name: string,
                                       url: string)
    ensures Lookup(MoveAll(ms, moved, event, th), name, url)
         == match Lookup(ms, name, url)
            case None => None
            case Some(h) => Some(if moved == name then Backends.Step(h, event, th) else h)
  {
    var all := MoveAll(ms, moved, event, th);
    if ms != [] {
      assert all[1..] == MoveAll(ms[1..], moved, event, th);
      LookupMoved(ms[1..], moved, event, th, name, url);
    }
  }

  lemma RememberReload(s: Snapshot, a: Attempt, pool: string, name: string, url: string)
    requires Sound(s) && Accepts(s.config, a)
    ensures LookupIn(Replaced(s, a).pools, pool, name, url)
         == if !Configured(a.loaded.value, pool, name, url) then None
            else match LookupIn(s.pools, pool, name, url)
                 case Some(h) => Some(Health(h.alive, 0, 0, 0))
                 case None => Some(Initial)
  {
    var next := a.loaded.value;
    if pool in next.pools {
      LookupStarted(next.pools[pool], name, url);
      if pool in s.pools {
        LookupInherited(StartAll(next.pools[pool]), s.pools[pool], name, url);
      }
    }
  }

  /** A backend that an accepted reload brings in starts in service. */
  lemma NewcomerAlive(s: Snapshot, a: Attempt, pool: string, name: string, url: string)
    requires Sound(s) && Accepts(s.config, a) && Configured(a.loaded.value, pool, name, url)
    requires LookupIn(s.pools, pool, name, url).None?
    ensures LookupIn(Replaced(s, a).pools, pool, name, url).Some?
    ensures LookupIn(Replaced(s, a).pools, pool, name, url).value.alive
  {
    RememberReload(s, a, pool, name, url);
  }

  /** After any run every backend has the health its own history gives it. */
  lemma {:induction false} HealthFollowsHistory(start: Snapshot, happenings: seq<Happening>, pool: string,
                                                name: string, url: string)
    requires Sound(start)
    ensures LookupIn(Run(start, happenings).pools, pool, name, url) == Remembered(start, happenings, pool, name, url)
  {
    if happenings != [] {
      var before, last := happenings[..|happenings| - 1], happenings[|happenings| - 1];
      var s := Run(start, before);
      HealthFollowsHistory(start, before, pool, name, url);
      RestartOnlyFieldsStay(start, before);
      match last
      case Reload(a) =>
        if Accepts(s.config, a) {
          RememberReload(s, a, pool, name, url);
        }
      case HealthMoved(p, moved, event, th) =>
        if p in s.pools {
          LookupMoved(s.pools[p], moved, event, th, name, url);
        }
    }
  }

  // ---------- a reload is not one step ----------

  /** Health is inherited a while before the new snapshot is published; in between the
      old one is still live.  A second reload waits for the first. */
  datatype Moment =
    | Inherited(attempt: Attempt)
    | Swapped
    | Recorded(pool: string, name: string, event: Event, th: Thresholds)

  datatype Phase = Phase(live: Snapshot, staged: Option<Snapshot>)

  predicate SoundPhase(p: Phase) {
    Sound(p.live) && (p.staged.Some? ==> Sound(p.staged.value))
  }

  function Advance(p: Phase, m: Moment): (q: Phase)
    requires SoundPhase(p)
    ensures SoundPhase(q)
  {
    match m
    case Inherited(a) =>
      if p.staged.None? && Accepts(p.live.config, a) then p.(staged := Some(Replaced(p.live, a))) else p
    case Swapped => if p.staged.Some? then Phase(p.staged.value, None) else p
    case Recorded(pool, name, event, th) => p.(live := Step(p.live, HealthMoved(pool, name, event, th)))
  }

  function AdvanceAll(start: Snapshot, moments: seq<Moment>): (p: Phase)
    requires Sound(start)
    ensures SoundPhase(p)
  {
    if moments == [] then Phase(start, None)
    else Advance(AdvanceAll(start, moments[..|moments| - 1]), moments[|moments| - 1])
  }

  /** What the live snapshot, and the staged one, have taken in: a publication forgets
      what happened to the old snapshot after the staging. */
  datatype Histories = Histories(live: seq<Happening>, staged: Option<seq<Happening>>)

  function Remains(startup: Config, moments: seq<Moment>): Histories {
    if moments == [] then Histories([], None)
    else
      var h := Remains(startup, moments[..|moments| - 1]);
      match moments[|moments| - 1]
      case Inherited(a) =>
        if h.staged.None? && Accepts(startup, a) then h.(staged := Some(h.live + [Reload(a)])) else h
      case Swapped => if h.staged.Some? then Histories(h.staged.value, None) else h
      case Recorded(pool, name, event, th) => h.(live := h.live + [HealthMoved(pool, name, event, th)])
  }

  lemma RunStep(start: Snapshot, happenings: seq<Happening>, last: Happening)
    requires Sound(start)
    ensures Run(start, happenings + [last]) == Step(Run(start, happenings), last)
  {
    assert (happenings + [last])[..|happenings + [last]| - 1] == happenings;
  }

  /** The two-step reload is the one-step reload on the history that remains, with the
      events between the steps lost. */
  lemma {:induction false} StagingLosesEvents(start: Snapshot, moments: seq<Moment>)
    requires Sound(start)
    ensures var p, h := AdvanceAll(start, moments), Remains(start.config, moments);
            && p.live == Run(start, h.live)
            && (p.staged.Some? <==> h.staged.Some?)
            && (p.staged.Some? ==> p.staged.value == Run(start, h.staged.value))
  {
    if moments != [] {
      var before, m := moments[..|moments| - 1], moments[|moments| - 1];
      StagingLosesEvents(start, before);
      var h := Remains(start.config, before);
      RestartOnlyFieldsStay(start, h.live);
      match m
      case Inherited(a) => RunStep(start, h.live, Reload(a));
      case Swapped =>
      case Recorded(pool, name, event, th) => RunStep(start, h.live, HealthMoved(pool, name, event, th));
    }
  }

  /** So every live backend has the health of its own remaining history. */
  lemma HealthFollowsRemains(start: Snapshot, moments: seq<Moment>, pool: string, name: string, url: string)
    requires Sound(start)
    ensures LookupIn(AdvanceAll(start, moments).live.pools, pool, name, url)
         == Remembered(start, Remains(start.config, moments).live, pool, name, url)
  {
    StagingLosesEvents(start, moments);
    HealthFollowsHistory(start, Remains(start.config, moments).live, pool, name, url);
  }

  /** Everything that happened, with each accepted reload at the time of its staging. */
  function Whole(startup: Config, moments: seq<Moment>): seq<Happening> {
    if moments == [] then []
    else
      var before := moments[..|moments| - 1];
      match moments[|moments| - 1]
      case Inherited(a) =>
        if Remains(startup, before).staged.None? && Accepts(startup, a) then Whole(startup, before) + [Reload(a)]
        else Whole(startup, before)
      case Swapped => Whole(startup, before)
      case Recorded(pool, name, event, th) => Whole(startup, before) + [HealthMoved(pool, name, event, th)]
  }

  /** An event is recorded while a new snapshot is staged. */
  predicate Untimely(startup: Config, moments: seq<Moment>, i: nat)
    requires i < |moments|
  {
    moments[i].Recorded? && Remains(startup, moments[..i]).staged.Some?
  }

  /** How many there are. */
  function Lost(startup: Config, moments: seq<Moment>): nat {
    if moments == [] then 0
    else
      var n := |moments| - 1;
      Lost(startup, moments[..n]) + if Untimely(startup, moments, n) then 1 else 0
  }

  lemma {:induction false} RemainsLacksLost(startup: Config, moments: seq<Moment>)
    ensures var h, w := Remains(startup, moments), Whole(startup, moments);
            var last := if h.staged.Some? then h.staged.value else h.live;
            && |last| == |w| - Lost(startup, moments)
            && (Lost(startup, moments) == 0 ==> last == w)
  {
    if moments != [] {
      var n := |moments| - 1;
      RemainsLacksLost(startup, moments[..n]);
      LiveIsBehind(startup, moments[..n]);
    }
  }

  /** What is staged has taken in one reload that the live snapshot has not. */
  lemma {:induction false} LiveIsBehind(startup: Config, moments: seq<Moment>)
    ensures var h := Remains(startup, moments); h.staged.Some? ==> h.staged.value != []
  {
    if moments != [] {
      LiveIsBehind(startup, moments[..|moments| - 1]);
    }
  }

  lemma {:induction false} LostIffUntimely(startup: Config, moments: seq<Moment>)
    ensures Lost(startup, moments) == 0 <==> forall i :: 0 <= i < |moments| ==> !Untimely(startup, moments, i)
  {
    if moments != [] {
      var n := |moments| - 1;
      var before := moments[..n];
      LostIffUntimely(startup, before);
      forall i | 0 <= i < n ensures Untimely(startup, before, i) == Untimely(startup, moments, i) {
        assert before[..i] == moments[..i];
      }
    }
  }

  /** With nothing staged, the live snapshot has taken in everything exactly if no event
      was recorded while one was. */
  lemma NothingLostIff(startup: Config, moments: seq<Moment>)
    requires Remains(startup, moments).staged.None?
    ensures Remains(startup, moments).live == Whole(startup, moments)
            <==> forall i :: 0 <= i < |moments| ==> !Untimely(startup, moments, i)
  {
    RemainsLacksLost(startup, moments);
    LostIffUntimely(startup, moments);
  }

  /** A backend is taken out of service while a reload is staged, and comes back alive. */
  lemma EjectionLost(start: Snapshot, a: Attempt, pool: string, name: string, url: string, th: Thresholds)
    requires Sound(start) && Accepts(start.config, a) && Configured(a.loaded.value, pool, name, url)
    requires LookupIn(start.pools, pool, name, url) == Some(Initial)
    ensures var moments := [Inherited(a), Recorded(pool, name, SetTo(false), th), Swapped];
            && LookupIn(AdvanceAll(start, moments).live.pools, pool, name, url) == Some(Initial) && Initial.alive
            && LookupIn(Run(start, Whole(start.config, moments)).pools, pool, name, url) == Some(Health(false, 0, 0, 0))
  {
    var moments := [Inherited(a), Recorded(pool, name, SetTo(false), th), Swapped];
    var moved := HealthMoved(pool, name, SetTo(false), th);
    OneStagedEvent(start.config, a, pool, name, SetTo(false), th);
    HealthFollowsRemains(start, moments, pool, name, url);
    HealthFollowsHistory(start, [Reload(a), moved], pool, name, url);
    RememberedPair(start, a, moved, pool, name, url);
  }

  lemma OneStagedEvent(startup: Config, a: Attempt, pool: string, name: string, event: Event, th: Thresholds)
    requires Accepts(startup, a)
    ensures var moments := [Inherited(a), Recorded(pool, name, event, th), Swapped];
            && Remains(startup, moments).live == [Reload(a)]
            && Whole(startup, moments) == [Reload(a), HealthMoved(pool, name, event, th)]
  {
    var m0, m1, m2 := Inherited(a), Recorded(pool, name, event, th), Swapped;
    assert [m0, m1, m2][..2] == [m0, m1] && [m0, m1][..1] == [m0] && [m0][..0] == [];
    assert [] + [Reload(a)] == [Reload(a)];
    assert Remains(startup, []) == Histories([], None) && Whole(startup, []) == [];
    assert Remains(startup, [m0]).staged == Some([Reload(a)]);
    assert Whole(startup, [m0]) == Whole(startup, []) + [Reload(a)];
    assert Remains(startup, [m0, m1]).staged == Some([Reload(a)]);
  }

  lemma RememberedPair(start: Snapshot, a: Attempt, moved: Happening, pool: string, name: string, url: string)
    requires Accepts(start.config, a) && Configured(a.loaded.value, pool, name, url)
    requires LookupIn(start.pools, pool, name, url) == Some(Initial)
    requires moved.HealthMoved? && moved.pool == pool && moved.name == name && moved.event == SetTo(false)
    ensures Remembered(start, [Reload(a)], pool, name, url) == Some(Initial)
    ensures Remembered(start, [Reload(a), moved], pool, name, url) == Some(Health(false, 0, 0, 0))
  {
    assert [Reload(a)][..0] == [] && [Reload(a), moved][..1] == [Reload(a)];
  }
}

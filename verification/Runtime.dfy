/**
 The reloadable runtime: the published handler, its certificate stores and health
 workers (internal/app/runtime.go, internal/proxy/runtime.go).
 */
module Runtime {
  import opened Common
  import opened Backends
  import opened ReloadSpec

  // ---------- pools of backends ----------

  /** A backend as a value. */
  ghost function Look(b: Backend): Member
    reads b
  {
    Member(b.name, b.url, b.State())
  }

  ghost function Looks(bs: seq<Backend>): seq<Member>
    reads bs
  {
    seq(|bs|, i requires 0 <= i < |bs| reads bs => Look(bs[i]))
  }

  ghost function Elements(bs: seq<Backend>): set<Backend> {
    set b | b in bs
  }

  /** A new backend takes over the eligibility of its predecessor. */
  method InheritBackend(candidate: Backend, former: seq<Backend>)
    requires candidate !in Elements(former)
    modifies candidate`alive, candidate`probeFails, candidate`probePasses, candidate`passiveFails
    ensures Look(candidate) == old(InheritOne(Look(candidate), Looks(former)))
  {
    ghost var m, ms := Look(candidate), Looks(former);
    for k := 0 to |former|
      invariant Look(candidate) == m && Looks(former) == ms
      invariant forall j :: 0 <= j < k ==> !Same(ms[j], m.name, m.url)
    {
      if candidate.name == former[k].name && candidate.url == former[k].url {
        InheritSkips(m, ms, k);
        assert ms[k] == Look(former[k]);
        assert former[k] in Elements(former);
        candidate.SetAlive(former[k].alive);
        assert candidate.State() == Backends.Step(m.health, SetTo(ms[k].health.alive), Thresholds(1, 1, 1));
        return;
      }
    }
    InheritSkips(m, ms, |former|);
  }

  /** The inner loops of InheritBackendHealth, for one pool. */
  method InheritPool(candidates: seq<Backend>, former: seq<Backend>)
    requires Distinct(candidates) && Elements(candidates) !! Elements(former)
    modifies Elements(candidates)`alive, Elements(candidates)`probeFails,
             Elements(candidates)`probePasses, Elements(candidates)`passiveFails
    ensures Looks(candidates) == InheritAll(old(Looks(candidates)), old(Looks(former)))
  {
    ghost var before, ms := Looks(candidates), Looks(former);
    for i := 0 to |candidates|
      invariant Looks(former) == ms
      invariant forall j :: 0 <= j < |candidates| ==>
                  Look(candidates[j]) == if j < i then InheritOne(before[j], ms) else before[j]
    {
      assert candidates[i] in Elements(candidates);
      InheritBackend(candidates[i], former);
    }
  }

  method NewPool(upstreams: seq<Upstream>) returns (bs: seq<Backend>)
    ensures fresh(Elements(bs))
    ensures Distinct(bs) && Looks(bs) == StartAll(upstreams)
    ensures forall i :: 0 <= i < |bs| ==> bs[i].alive
  {
    bs := [];
    for i := 0 to |upstreams|
      invariant |bs| == i && fresh(Elements(bs)) && Distinct(bs)
      invariant forall j :: 0 <= j < i ==> Look(bs[j]) == StartAll(upstreams)[j] && bs[j].alive
    {
      assert forall j :: 0 <= j < i ==> bs[j] in Elements(bs);
      var b := new Backend(upstreams[i].name, upstreams[i].url);
      assert Elements(bs + [b]) == Elements(bs) + {b};
      bs := bs + [b];
    }
  }

  // ---------- handlers ----------

  ghost predicate SomeAlive(bs: seq<Backend>)
    reads bs
  {
    exists i :: 0 <= i < |bs| && bs[i].alive
  }

  class Handler {
    const pools: map<string, seq<Backend>>
    ghost const members: set<Backend>
    var retired: bool

    /** Every backend is a member of one pool, once. */
    ghost predicate Separate() {
      && (forall p :: p in pools ==> Distinct(pools[p]) && Elements(pools[p]) <= members)
      && forall p, q :: p in pools && q in pools && p != q ==> Elements(pools[p]) !! Elements(pools[q])
    }

    ghost function View(): Pools
      requires Separate()
      reads members
    {
      assert forall p :: p in pools ==> forall b :: b in pools[p] ==> b in Elements(pools[p]);
      map p | p in pools :: Looks(pools[p])
    }

    constructor (pools: map<string, seq<Backend>>, ghost members: set<Backend>)
      ensures this.pools == pools && this.members == members && !retired
    {
      this.pools, this.members, retired := pools, members, false;
    }

    /** Whether every pool, of which there is at least one, has a live backend. */
    method Ready() returns (ready: bool)
      ensures ready <==> pools != map[] && forall p :: p in pools ==> SomeAlive(pools[p])
    {
      if |pools| == 0 {
        return false;
      }
      var rest := pools.Keys;
      while rest != {}
        invariant rest <= pools.Keys
        invariant forall p :: p in pools && p !in rest ==> SomeAlive(pools[p])
        decreases rest
      {
        var p :| p in rest;
        var healthy := false;
        for i := 0 to |pools[p]|
          invariant !healthy && forall j :: 0 <= j < i ==> !pools[p][j].alive
        {
          if pools[p][i].alive {
            healthy := true;
            break;
          }
        }
        if !healthy {
          return false;
        }
        rest := rest - {p};
      }
      return true;
    }

    method InheritBackendHealth(previous: Handler?)
      requires Separate()
      requires previous != null ==> previous.Separate() && members !! previous.members
      modifies members`alive, members`probeFails, members`probePasses, members`passiveFails
      ensures View() == if previous == null then old(View()) else Inherit(old(View()), old(previous.View()))
    {
      if previous == null {
        return;
      }
      ghost var own, theirs := View(), previous.View();
      var rest := pools.Keys;
      while rest != {}
        invariant rest <= pools.Keys
        invariant previous.View() == theirs
        invariant View() == Partly(own, theirs, rest)
        decreases rest
      {
        var p :| p in rest;
        InheritNamed(p, previous);
        PartlyStep(own, theirs, rest, p);
        rest := rest - {p};
      }
    }

    /** One turn of the outer loop. */
    method InheritNamed(p: string, previous: Handler)
      requires Separate() && previous.Separate() && members !! previous.members
      requires p in pools
      modifies members`alive, members`probeFails, members`probePasses, members`passiveFails
      ensures previous.View() == old(previous.View())
      ensures View() == old(View()[p := InheritIn(View(), previous.View(), p)])
    {
      if p in previous.pools {
        InheritPool(pools[p], previous.pools[p]);
      }
    }
  }

  /** The pools in rest as they were; the others have inherited. */
  ghost function Partly(own: Pools, theirs: Pools, rest: set<string>): Pools {
    map p | p in own :: if p in rest then own[p] else InheritIn(own, theirs, p)
  }

  lemma PartlyStep(own: Pools, theirs: Pools, rest: set<string>, p: string)
    requires p in rest && p in own
    ensures var now := Partly(own, theirs, rest);
            Partly(own, theirs, rest - {p}) == now[p := InheritIn(now, theirs, p)]
  {
  }

  /** The pools built so far: their backends are these, all different, and new. */
  ghost predicate Building(pools: map<string, seq<Backend>>, c: Config, made: set<Backend>)
    reads made
  {
    && pools.Keys <= c.pools.Keys
    && (forall p :: p in pools ==> Distinct(pools[p]) && Elements(pools[p]) <= made)
    && (forall p, q :: p in pools && q in pools && p != q ==> Elements(pools[p]) !! Elements(pools[q]))
    && forall p :: p in pools ==>
         (forall b :: b in pools[p] ==> b in Elements(pools[p])) && Looks(pools[p]) == StartAll(c.pools[p])
  }

  lemma BuildingStep(pools: map<string, seq<Backend>>, c: Config, made: set<Backend>, p: string, bs: seq<Backend>)
    requires Building(pools, c, made) && p in c.pools && p !in pools
    requires Elements(bs) !! made && Distinct(bs) && Looks(bs) == StartAll(c.pools[p])
    ensures Building(pools[p := bs], c, made + Elements(bs))
  {
    assert forall b :: b in bs ==> b in Elements(bs);
  }

  /** The handler NewHandler builds: every backend new and alive. */
  method NewHandler(c: Config) returns (h: Handler)
    ensures fresh(h) && fresh(h.members) && Built(c, h) && EveryoneAlive(h)
  {
    var pools: map<string, seq<Backend>> := map[];
    ghost var made: set<Backend> := {};
    var rest := c.pools.Keys;
    while rest != {}
      invariant rest <= c.pools.Keys && pools.Keys == c.pools.Keys - rest
      invariant Building(pools, c, made) && fresh(made)
      decreases rest
    {
      var p :| p in rest;
      var bs := NewPool(c.pools[p]);
      BuildingStep(pools, c, made, p, bs);
      pools, rest, made := pools[p := bs], rest - {p}, made + Elements(bs);
    }
    h := new Handler(pools, made);
    BuiltFrom(c, h);
    BuiltAlive(c, h);
  }

  ghost predicate Built(c: Config, h: Handler)
    reads h, h.members
  {
    h.Separate() && !h.retired && h.View() == StartPools(c)
  }

  ghost predicate EveryoneAlive(h: Handler)
    reads h.members
    requires h.Separate()
  {
    forall p, i :: p in h.View() && 0 <= i < |h.View()[p]| ==> h.View()[p][i].health.alive
  }

  /** Every configured backend starts in service. */
  lemma BuiltAlive(c: Config, h: Handler)
    requires Built(c, h)
    ensures EveryoneAlive(h)
  {
  }

  /** So a new handler is ready exactly if there is a pool and none is empty. */
  lemma BuiltReady(c: Config, h: Handler)
    requires Built(c, h)
    ensures h.pools != map[] && (forall p :: p in h.pools ==> SomeAlive(h.pools[p]))
            <==> c.pools != map[] && forall p :: p in c.pools ==> c.pools[p] != []
  {
    assert h.View().Keys == h.pools.Keys && StartPools(c).Keys == c.pools.Keys;
    assert h.pools == map[] <==> h.pools.Keys == {};
    assert c.pools == map[] <==> c.pools.Keys == {};
    forall p | p in h.pools ensures SomeAlive(h.pools[p]) <==> c.pools[p] != [] {
      var looks := Looks(h.pools[p]);
      assert h.View()[p] == looks == StartAll(c.pools[p]);
      forall i | 0 <= i < |h.pools[p]| ensures h.pools[p][i].alive {
        assert looks[i].health.alive && looks[i] == Look(h.pools[p][i]);
      }
      if c.pools[p] != [] {
        assert h.pools[p][0].alive;
      }
    }
  }

  lemma BuiltFrom(c: Config, h: Handler)
    requires Building(h.pools, c, h.members) && h.pools.Keys == c.pools.Keys && !h.retired
    ensures Built(c, h)
  {
  }

  // ---------- the runtime ----------

  /** The context that one generation of health workers runs under. */
  class Workers {
    var cancelled: bool

    constructor ()
      ensures !cancelled
    {
      cancelled := false;
    }
  }

  /** Loads the certificate of every listener with TLS before any is published. */
  method Stage(c: Config, certificates: map<int, Certificate>) returns (ok: bool, staged: Stores)
    ensures ok <==> Readable(c, certificates)
    ensures ok ==> |staged| == |c.listeners|
    ensures ok ==> forall i :: 0 <= i < |staged| ==>
                     staged[i] == if c.listeners[i].tls.Some? then Some(certificates[i]) else None
  {
    staged := [];
    for i := 0 to |c.listeners|
      invariant |staged| == i
      invariant forall j :: 0 <= j < i && c.listeners[j].tls.Some? ==> j in certificates
      invariant forall j :: 0 <= j < i ==> staged[j] == if c.listeners[j].tls.Some? then Some(certificates[j]) else None
    {
      if c.listeners[i].tls.None? {
        staged := staged + [None];
      } else if i in certificates {
        staged := staged + [Some(certificates[i])];
      } else {
        return false, [];
      }
    }
    return true, staged;
  }

  ghost predicate Staged(a: Attempt, staged: Stores)
    requires a.loaded.Some?
  {
    && |staged| == |a.loaded.value.listeners| && Readable(a.loaded.value, a.certificates)
    && forall i :: 0 <= i < |staged| ==>
         staged[i] == if a.loaded.value.listeners[i].tls.Some? then Some(a.certificates[i]) else None
  }

  class Runtime {
    var handler: Handler
    var current: Config
    const stores: array<Option<Certificate>>
    var workers: Workers?
    ghost var started: set<Workers>

    ghost function View(): Snapshot
      requires handler.Separate()
      reads this, stores, handler.members
    {
      Snapshot(current, stores[..], handler.View())
    }

    /** The published handler is in service, and of all workers ever started only the
        last generation may still run. */
    ghost predicate Valid()
      reads this, stores, handler, handler.members, started
    {
      && handler.Separate() && Sound(View()) && !handler.retired
      && OneGeneration()
    }

    ghost predicate OneGeneration()
      reads this`workers, this`started, started
    {
      && (workers == null || workers in started)
      && forall w :: w in started ==> w == workers || w.cancelled
    }

    constructor (c: Config, handler: Handler, staged: Stores)
      requires handler.Separate() && !handler.retired && Sound(Snapshot(c, staged, handler.View()))
      ensures Valid() && View() == Snapshot(c, staged, handler.View())
      ensures this.handler == handler && fresh(stores) && workers == null
    {
      this.handler, current, workers, started := handler, c, null, {};
      stores := new Option<Certificate>[|staged|](i requires 0 <= i < |staged| => staged[i]);
      new;
      assert stores[..] == staged;
    }

    /** There is a store wherever there is a certificate to put. */
    ghost predicate Publishable(a: Attempt, staged: Stores)
      reads stores
      requires a.loaded.Some?
    {
      && Staged(a, staged) && stores.Length == |staged|
      && forall i :: 0 <= i < |staged| && staged[i].Some? ==> stores[i].Some?
    }

    method Publish(ghost a: Attempt, staged: Stores)
      requires a.loaded.Some? && Publishable(a, staged)
      modifies stores
      ensures stores[..] == Published(old(stores[..]), a.loaded.value, a.certificates)
    {
      for i := 0 to |staged|
        invariant forall j :: 0 <= j < |staged| ==>
                    stores[j] == if j < i && staged[j].Some? then staged[j] else old(stores[j])
      {
        if staged[i].Some? {
          assert stores[i].Some?;
          stores[i] := staged[i];
        }
      }
    }

    method StartHealth()
      requires OneGeneration()
      modifies this`workers, this`started, started`cancelled
      ensures fresh(workers) && !workers.cancelled && started == old(started) + {workers}
      ensures OneGeneration()
    {
      if workers != null {
        workers.cancelled := true;
      }
      workers := new Workers();
      started := started + {workers};
    }

    /** Everything that can fail, and that changes nothing. */
    method Prepare(a: Attempt) returns (ok: bool, h: Handler, staged: Stores)
      ensures ok <==> Accepts(current, a)
      ensures ok ==> fresh(h) && fresh(h.members) && Built(a.loaded.value, h) && Staged(a, staged)
    {
      h, staged := handler, [];
      if a.loaded.None? {
        return false, h, [];
      }
      var next := a.loaded.value;
      var errors := ImmutableCompatible(current, next);
      if errors != [] || !a.builds {
        return false, h, [];
      }
      h := NewHandler(next);
      ok, staged := Stage(next, a.certificates);
    }

    /** The reload itself: all of it or nothing. */
    method Reload(a: Attempt) returns (ok: bool)
      requires Valid()
      modifies this`handler, this`current, this`workers, this`started, stores, handler`retired, started`cancelled
      ensures Valid()
      ensures ok <==> Accepts(old(current), a)
      ensures View() == ReloadSpec.Step(old(View()), ReloadSpec.Reload(a))
      ensures !ok ==> unchanged(this) && unchanged(stores)
      ensures ok ==> fresh(handler) && old(handler).retired && fresh(workers) && !workers.cancelled
      ensures ok ==> started == old(started) + {workers}
    {
      var h, staged;
      ok, h, staged := Prepare(a);
      if ok {
        SameCount(current, a.loaded.value);
        Install(a, h, staged);
      }
    }

    /** The publication: certificates, inherited health, handler, configuration, workers. */
    method Install(a: Attempt, h: Handler, staged: Stores)
      requires handler.Separate() && OneGeneration()
      requires a.loaded.Some? && Built(a.loaded.value, h) && Publishable(a, staged)
      requires h != handler && h.members !! handler.members
      modifies this`handler, this`current, this`workers, this`started, stores, handler`retired, started`cancelled
      modifies h.members`alive, h.members`probeFails, h.members`probePasses, h.members`passiveFails
      ensures handler.Separate() && !handler.retired && OneGeneration()
      ensures current == a.loaded.value
      ensures stores.Length == |current.listeners| && stores[..] == Published(old(stores[..]), current, a.certificates)
      ensures handler.View() == Inherit(StartPools(current), old(handler.View()))
      ensures handler == h && old(handler).retired
      ensures fresh(workers) && !workers.cancelled && started == old(started) + {workers}
    {
      Publish(a, staged);
      Adopt(a.loaded.value, h);
    }

    /** The new handler inherits from the published one and takes its place. */
    method Adopt(next: Config, h: Handler)
      requires handler.Separate() && OneGeneration() && Built(next, h)
      requires h != handler && h.members !! handler.members
      modifies this`handler, this`current, this`workers, this`started, handler`retired, started`cancelled
      modifies h.members`alive, h.members`probeFails, h.members`probePasses, h.members`passiveFails
      ensures handler == h && handler.Separate() && !handler.retired && OneGeneration()
      ensures current == next && h.View() == Inherit(StartPools(next), old(handler.View()))
      ensures old(handler).retired
      ensures fresh(workers) && !workers.cancelled && started == old(started) + {workers}
    {
      h.InheritBackendHealth(handler);
      Swap(next, h);
    }

    method Swap(next: Config, h: Handler)
      requires OneGeneration() && h != handler
      modifies this`handler, this`current, this`workers, this`started, handler`retired, started`cancelled
      ensures handler == h && old(handler).retired && current == next
      ensures fresh(workers) && !workers.cancelled && started == old(started) + {workers}
      ensures OneGeneration()
    {
      var previous := handler;
      handler := h;
      current := next;
      StartHealth();
      previous.retired := true;
    }
  }

  /** Startup: the state every run begins in. */
  method NewRuntime(c: Config, builds: bool, certificates: map<int, Certificate>) returns (r: Runtime?)
    ensures r != null <==> builds && Readable(c, certificates)
    ensures r != null ==> fresh(r) && r.Valid()
    ensures r != null ==> r.View().pools == StartPools(c) && EveryoneAlive(r.handler)
    ensures r != null && c.pools != map[] && (forall p :: p in c.pools ==> c.pools[p] != []) ==>
              forall p :: p in r.handler.pools ==> SomeAlive(r.handler.pools[p])
    ensures r != null ==> PublishedFrom(r.View(), Attempt(Some(c), builds, certificates))
  {
    if !builds {
      return null;
    }
    var h := NewHandler(c);
    var ok, staged := Stage(c, certificates);
    if !ok {
      return null;
    }
    assert Sound(Snapshot(c, staged, h.View()));
    BuiltReady(c, h);
    r := new Runtime(c, h, staged);
  }
}

/**
 The hand-over of an old snapshot in internal/proxy/handler.go: any number of
 requests race with one Retire through the atomics inFlight and retired.  Every
 atomic access is one step, and closing idle connections is one step per pool.
 */
module Retirement {

  type Request = nat

  type Pool = nat

  /** Where a request stands in ServeHTTP. */
  datatype Position =
    | Serving                      // after inFlight.Add(1)
    | LastOut                      // Add(-1) returned zero; retired not yet read
    | Closing(rest: set<Pool>)     // read retired as true; pools still to be closed

  /** Where Retire stands. */
  datatype Retirer =
    | NotCalled
    | Stored                       // after retired.Store(true)
    | Draining(rest: set<Pool>)    // read inFlight as zero; pools still to be closed
    | Returned

  /** `inside` holds the requests that have entered the handler and not left it; `warm`
      holds the pools whose transport a request used after its last closing, and
      `probed` those that a health probe did, which the protocol does not count. */
  datatype State = State(inFlight: int, retired: bool, inside: map<Request, Position>, retirer: Retirer,
                         warm: set<Pool>, probed: set<Pool>)

  datatype Action =
    | Enter(r: Request)
    | Use(r: Request, pool: Pool)
    | Probe(pool: Pool)
    | Leave(r: Request)
    | ReadRetired(r: Request)
    | CloseOne(r: Request, pool: Pool)
    | Exit(r: Request)
    | StoreRetired
    | ReadInFlight
    | DrainOne(pool: Pool)
    | Return

  function Init(): State {
    State(0, false, map[], NotCalled, {}, {})
  }

  ghost predicate At(s: State, r: Request, p: Position) {
    r in s.inside && s.inside[r] == p
  }

  ghost predicate Enabled(s: State, a: Action, pools: set<Pool>) {
    match a
    case Enter(r) => r !in s.inside
    case Use(r, pool) => At(s, r, Serving) && pool in pools
    case Probe(pool) => pool in pools
    case Leave(r) => At(s, r, Serving)
    case ReadRetired(r) => At(s, r, LastOut)
    case CloseOne(r, pool) => r in s.inside && s.inside[r].Closing? && pool in s.inside[r].rest
    case Exit(r) => At(s, r, Closing({}))
    case StoreRetired => s.retirer.NotCalled?
    case ReadInFlight => s.retirer.Stored?
    case DrainOne(pool) => s.retirer.Draining? && pool in s.retirer.rest
    case Return => s.retirer == Draining({})
  }

  ghost function Next(s: State, a: Action, pools: set<Pool>): State
    requires Enabled(s, a, pools)
  {
    match a
    case Enter(r) => s.(inFlight := s.inFlight + 1, inside := s.inside[r := Serving])
    case Use(r, pool) => s.(warm := s.warm + {pool})
    case Probe(pool) => s.(probed := s.probed + {pool})
    case Leave(r) =>
      s.(inFlight := s.inFlight - 1,
         inside := if s.inFlight - 1 == 0 then s.inside[r := LastOut] else s.inside - {r})
    case ReadRetired(r) => s.(inside := if s.retired then s.inside[r := Closing(pools)] else s.inside - {r})
    case CloseOne(r, pool) =>
      s.(warm := s.warm - {pool}, probed := s.probed - {pool},
          inside := s.inside[r := Closing(s.inside[r].rest - {pool})])
    case Exit(r) => s.(inside := s.inside - {r})
    case StoreRetired => s.(retired := true, retirer := Stored)
    case ReadInFlight => s.(retirer := if s.inFlight == 0 then Draining(pools) else Returned)
    case DrainOne(pool) => s.(warm := s.warm - {pool}, probed := s.probed - {pool},
        retirer := Draining(s.retirer.rest - {pool}))
    case Return => s.(retirer := Returned)
  }

  ghost function Users(s: State): set<Request> {
    set r | r in s.inside && s.inside[r].Serving?
  }

  /** Someone inside is still going to close this pool, or to find out that it must. */
  ghost predicate Responsible(s: State, r: Request, pool: Pool) {
    r in s.inside && (s.inside[r].LastOut? || (s.inside[r].Closing? && pool in s.inside[r].rest))
  }

  ghost predicate Owed(s: State, pool: Pool) {
    || s.inFlight > 0
    || (exists r :: Responsible(s, r, pool))
    || s.retirer.NotCalled? || s.retirer.Stored?
    || (s.retirer.Draining? && pool in s.retirer.rest)
  }

  ghost predicate Inv(s: State, pools: set<Pool>) {
    && s.inFlight == |Users(s)|
    && (s.retired <==> !s.retirer.NotCalled?)
    && s.warm <= pools
    && (forall pool :: pool in s.warm ==> Owed(s, pool))
    && (forall r :: r in s.inside && s.inside[r].Closing? ==> s.retired)
  }

  lemma UsersStep(s: State, t: State, r: Request)
    requires forall x :: x != r ==> (x in s.inside <==> x in t.inside) && (x in s.inside ==> s.inside[x] == t.inside[x])
    ensures |Users(t)| == |Users(s)| - (if At(s, r, Serving) then 1 else 0) + (if At(t, r, Serving) then 1 else 0)
  {
    SizeStep(Users(s), Users(t), r);
  }

  lemma SizeStep(a: set<Request>, b: set<Request>, r: Request)
    requires forall x :: x != r ==> (x in a <==> x in b)
    ensures |b| == |a| - (if r in a then 1 else 0) + (if r in b then 1 else 0)
  {
    var others := a - {r};
    assert b == others || b == others + {r};
    assert a == others || a == others + {r};
  }

  ghost predicate Closes(a: Action, pool: Pool) {
    (a.CloseOne? || a.DrainOne?) && a.pool == pool
  }

  /** A pool that is owed a closing stays owed until it is closed: each step hands the
      duty on.  A use by a request makes it owed. */
  lemma OwedStep(s: State, a: Action, pools: set<Pool>, pool: Pool)
    requires Inv(s, pools) && Enabled(s, a, pools) && pool in pools && !Closes(a, pool)
    requires Owed(s, pool) || (a.Use? && a.pool == pool)
    requires Next(s, a, pools).inFlight >= 0
    ensures Owed(Next(s, a, pools), pool)
  {
    var t := Next(s, a, pools);
    if a.Use? {
      assert a.r in Users(s);
      assert Users(s) != {};
    } else if a.Leave? {
      if t.inFlight == 0 {
        assert Responsible(t, a.r, pool);
      }
    } else {
      assert Owed(s, pool);
      if r :| Responsible(s, r, pool) {
        if a.ReadRetired? && a.r == r {
          if s.retired {
            assert Responsible(t, r, pool);
          }
        } else {
          assert Responsible(t, r, pool);
        }
      }
    }
  }

  lemma InvStep(s: State, a: Action, pools: set<Pool>)
    requires Inv(s, pools) && Enabled(s, a, pools)
    ensures Inv(Next(s, a, pools), pools)
  {
    var t := Next(s, a, pools);
    if a.Enter? || a.Leave? || a.ReadRetired? || a.CloseOne? || a.Exit? {
      UsersStep(s, t, a.r);
    } else {
      assert Users(t) == Users(s);
    }
    forall pool | pool in t.warm ensures Owed(t, pool) {
      OwedStep(s, a, pools, pool);
    }
  }

  // ---------- whole runs ----------

  /** An execution: the states before and after each of its actions, in any interleaving. */
  ghost predicate Execution(states: seq<State>, actions: seq<Action>, pools: set<Pool>) {
    && |states| == |actions| + 1
    && states[0] == Init()
    && (forall i :: 0 <= i < |actions| ==>
          Enabled(states[i], actions[i], pools) && states[i + 1] == Next(states[i], actions[i], pools))
  }

  lemma {:induction false} InvHolds(states: seq<State>, actions: seq<Action>, pools: set<Pool>, i: nat)
    requires Execution(states, actions, pools) && i < |states|
    ensures Inv(states[i], pools)
  {
    if i == 0 {
      assert Users(Init()) == {};
    } else {
      InvHolds(states, actions, pools, i - 1);
      InvStep(states[i - 1], actions[i - 1], pools);
    }
  }

  /** Whenever Retire has returned and no request is inside the handler, every pool
      has been closed after the last use of its transport by a request. */
  lemma RetiredIsCold(states: seq<State>, actions: seq<Action>, pools: set<Pool>, i: nat)
    requires Execution(states, actions, pools) && i < |states|
    requires states[i].retirer.Returned? && states[i].inside == map[]
    ensures states[i].warm == {}
  {
    InvHolds(states, actions, pools, i);
    assert Users(states[i]) == {};
  }

  /** No connection is closed before the snapshot is retired. */
  lemma ClosesOnlyWhenRetired(states: seq<State>, actions: seq<Action>, pools: set<Pool>, i: nat)
    requires Execution(states, actions, pools) && i < |actions|
    requires actions[i].CloseOne? || actions[i].DrainOne?
    ensures states[i].retired
  {
    InvHolds(states, actions, pools, i);
  }

  /** A request or a probe uses the pool. */
  ghost predicate Uses(a: Action, pool: Pool, byProbe: bool) {
    (if byProbe then a.Probe? else a.Use?) && a.pool == pool
  }

  /** Step j used the pool, and no step from there to i closed it. */
  ghost predicate LastUse(actions: seq<Action>, j: int, i: nat, pool: Pool, byProbe: bool)
    requires i <= |actions|
  {
    0 <= j < i && Uses(actions[j], pool, byProbe) && forall k :: j < k < i ==> !Closes(actions[k], pool)
  }

  /** Some use of the pool of this kind has no later closing. */
  ghost predicate OpenBy(actions: seq<Action>, i: nat, pool: Pool, byProbe: bool)
    requires i <= |actions|
  {
    exists j :: LastUse(actions, j, i, pool, byProbe)
  }

  lemma OpenByStep(actions: seq<Action>, i: nat, pool: Pool, byProbe: bool)
    requires 0 < i <= |actions|
    ensures OpenBy(actions, i, pool, byProbe)
            <==> Uses(actions[i - 1], pool, byProbe)
                 || (!Closes(actions[i - 1], pool) && OpenBy(actions, i - 1, pool, byProbe))
  {
    var h: nat := i - 1;
    if Uses(actions[h], pool, byProbe) {
      assert LastUse(actions, h, i, pool, byProbe);
    } else if !Closes(actions[h], pool) {
      if j :| LastUse(actions, j, h, pool, byProbe) {
        assert LastUse(actions, j, i, pool, byProbe);
      }
      if j :| LastUse(actions, j, i, pool, byProbe) {
        assert LastUse(actions, j, h, pool, byProbe);
      }
    }
  }

  /** `warm` and `probed` mean what they should: a pool is in them exactly when some step
      used it and no later step closed it. */
  lemma {:induction false} OpenMeansUsedSince(states: seq<State>, actions: seq<Action>, pools: set<Pool>, i: nat,
                                              pool: Pool, byProbe: bool)
    requires Execution(states, actions, pools) && i < |states|
    ensures pool in (if byProbe then states[i].probed else states[i].warm) <==> OpenBy(actions, i, pool, byProbe)
  {
    if i > 0 {
      OpenMeansUsedSince(states, actions, pools, i - 1, pool, byProbe);
      OpenByStep(actions, i, pool, byProbe);
    }
  }

  /** The same without `warm`: every use of a transport by a request has been followed by
      a closing of its pool. */
  lemma EveryUseIsClosed(states: seq<State>, actions: seq<Action>, pools: set<Pool>, i: nat, j: nat)
    requires Execution(states, actions, pools) && i < |states|
    requires states[i].retirer.Returned? && states[i].inside == map[]
    requires j < i && actions[j].Use?
    ensures exists k :: j < k < i && Closes(actions[k], actions[j].pool)
  {
    RetiredIsCold(states, actions, pools, i);
    OpenMeansUsedSince(states, actions, pools, i, actions[j].pool, false);
    assert !LastUse(actions, j, i, actions[j].pool, false);
  }

  /** Some use of the pool, by anyone, has no later closing. */
  ghost predicate LeftOpen(actions: seq<Action>, i: nat, pool: Pool)
    requires i <= |actions|
  {
    OpenBy(actions, i, pool, false) || OpenBy(actions, i, pool, true)
  }

  /** Then a transport is left open exactly if a health probe used it after its last
      closing: probes are not among the requests that the protocol counts. */
  lemma OnlyProbesLeaveOpen(states: seq<State>, actions: seq<Action>, pools: set<Pool>, i: nat, pool: Pool)
    requires Execution(states, actions, pools) && i < |states|
    requires states[i].retirer.Returned? && states[i].inside == map[]
    ensures LeftOpen(actions, i, pool) <==> OpenBy(actions, i, pool, true)
  {
    RetiredIsCold(states, actions, pools, i);
    OpenMeansUsedSince(states, actions, pools, i, pool, false);
    OpenMeansUsedSince(states, actions, pools, i, pool, true);
  }

  /** Every probe so far ended while some closing of its pool was still to come. */
  ghost predicate ProbesInTime(states: seq<State>, actions: seq<Action>, i: nat)
    requires i <= |actions| < |states|
  {
    forall j :: 0 <= j < i && actions[j].Probe? ==> Owed(states[j], actions[j].pool)
  }

  lemma {:induction false} ProbedIsOwed(states: seq<State>, actions: seq<Action>, pools: set<Pool>, i: nat)
    requires Execution(states, actions, pools) && i < |states| && ProbesInTime(states, actions, i)
    ensures states[i].probed <= pools && forall pool :: pool in states[i].probed ==> Owed(states[i], pool)
  {
    if i > 0 {
      var s, a := states[i - 1], actions[i - 1];
      ProbedIsOwed(states, actions, pools, i - 1);
      InvHolds(states, actions, pools, i - 1);
      InvHolds(states, actions, pools, i);
      forall pool | pool in states[i].probed ensures Owed(states[i], pool) {
        OwedStep(s, a, pools, pool);
      }
    }
  }

  /** If every probe ended in time, nothing is left open. */
  lemma ProbesInTimeAreClosed(states: seq<State>, actions: seq<Action>, pools: set<Pool>, i: nat, pool: Pool)
    requires Execution(states, actions, pools) && i < |states| && ProbesInTime(states, actions, i)
    requires states[i].retirer.Returned? && states[i].inside == map[]
    ensures !LeftOpen(actions, i, pool)
  {
    ProbedIsOwed(states, actions, pools, i);
    InvHolds(states, actions, pools, i);
    assert Users(states[i]) == {};
    assert states[i].probed == {};
    OpenMeansUsedSince(states, actions, pools, i, pool, true);
    OnlyProbesLeaveOpen(states, actions, pools, i, pool);
  }

  /** It is enough that no probe ends once Retire has read the in-flight count: that is
      what cancelling the health workers before retiring aims at. */
  lemma ProbesBeforeRetireAreClosed(states: seq<State>, actions: seq<Action>, pools: set<Pool>, i: nat, pool: Pool)
    requires Execution(states, actions, pools) && i < |states|
    requires forall j :: 0 <= j < i && actions[j].Probe? ==> states[j].retirer.NotCalled? || states[j].retirer.Stored?
    requires states[i].retirer.Returned? && states[i].inside == map[]
    ensures !LeftOpen(actions, i, pool)
  {
    assert ProbesInTime(states, actions, i);
    ProbesInTimeAreClosed(states, actions, pools, i, pool);
  }

  lemma {:induction false} OwedUntilClosed(states: seq<State>, actions: seq<Action>, pools: set<Pool>, j: nat,
                                           i: nat, pool: Pool)
    requires Execution(states, actions, pools) && j <= i < |states| && pool in pools && Owed(states[j], pool)
    requires forall k :: j <= k < i ==> !Closes(actions[k], pool)
    ensures Owed(states[i], pool)
  {
    if j < i {
      OwedUntilClosed(states, actions, pools, j, i - 1, pool);
      InvHolds(states, actions, pools, i - 1);
      InvHolds(states, actions, pools, i);
      OwedStep(states[i - 1], actions[i - 1], pools, pool);
    }
  }

  /** Without new requests, a closing that is not owed does not come. */
  lemma {:induction false} NeverClosedAgain(states: seq<State>, actions: seq<Action>, pools: set<Pool>, j: nat,
                                            i: nat, pool: Pool)
    requires Execution(states, actions, pools) && j <= i < |states| && !Owed(states[j], pool)
    requires forall k :: j <= k < i ==> !actions[k].Enter?
    ensures !Owed(states[i], pool) && forall k :: j <= k < i ==> !Closes(actions[k], pool)
  {
    if j < i {
      NeverClosedAgain(states, actions, pools, j, i - 1, pool);
      InvHolds(states, actions, pools, i - 1);
      NotOwedStep(states[i - 1], actions[i - 1], pools, pool);
    }
  }

  lemma NotOwedStep(s: State, a: Action, pools: set<Pool>, pool: Pool)
    requires Inv(s, pools) && Enabled(s, a, pools) && !Owed(s, pool) && !a.Enter?
    ensures !Owed(Next(s, a, pools), pool) && !Closes(a, pool)
  {
    var t := Next(s, a, pools);
    assert Users(s) == {};
    assert forall r :: At(s, r, Serving) ==> r in Users(s);
    assert a.CloseOne? ==> !Responsible(s, a.r, pool);
    if r :| Responsible(t, r, pool) {
      assert Responsible(s, r, pool);
    }
  }

  /** The last probe of a pool decides: if no request enters after it, the transport is
      left open exactly if no closing was owed when that probe ended. */
  lemma LastProbeDecides(states: seq<State>, actions: seq<Action>, pools: set<Pool>, j: nat, i: nat)
    requires Execution(states, actions, pools) && j < i < |states| && actions[j].Probe?
    requires forall k :: j < k < i ==> !actions[k].Enter? && !(actions[k].Probe? && actions[k].pool == actions[j].pool)
    requires states[i].retirer.Returned? && states[i].inside == map[]
    ensures LeftOpen(actions, i, actions[j].pool) <==> !Owed(states[j], actions[j].pool)
  {
    var pool := actions[j].pool;
    OnlyProbesLeaveOpen(states, actions, pools, i, pool);
    InvHolds(states, actions, pools, i);
    assert Users(states[i]) == {} && !Owed(states[i], pool);
    if Owed(states[j], pool) {
      if h :| LastUse(actions, h, i, pool, true) {
        assert h <= j;
        assert forall k :: j <= k < i ==> !Closes(actions[k], pool);
        OwedUntilClosed(states, actions, pools, j, i, pool);
      }
    } else {
      NeverClosedAgain(states, actions, pools, j, i, pool);
      assert LastUse(actions, j, i, pool, true);
    }
  }

  /** A probe that ends after Retire leaves its transport open. */
  lemma LateProbeLeavesOpen() returns (states: seq<State>, actions: seq<Action>)
    ensures Execution(states, actions, {0})
    ensures states[|actions|].retirer.Returned? && states[|actions|].inside == map[]
    ensures LeftOpen(actions, |actions|, 0)
  {
    actions := [StoreRetired, ReadInFlight, DrainOne(0), Return, Probe(0)];
    var s1 := State(0, true, map[], Stored, {}, {});
    var s2 := s1.(retirer := Draining({0}));
    var s3 := s1.(retirer := Draining({}));
    var s4 := s1.(retirer := Returned);
    states := [Init(), s1, s2, s3, s4, s4.(probed := {0})];
    assert LastUse(actions, 4, |actions|, 0, true);
  }

  /** The other way for a snapshot to go cold: Retire comes while a request is inside, and
      that request closes the transport on its way out. */
  lemma LastRequestCloses() returns (states: seq<State>, actions: seq<Action>)
    ensures Execution(states, actions, {0})
    ensures actions
         == [Enter(1), Use(1, 0), StoreRetired, ReadInFlight, Leave(1), ReadRetired(1), CloseOne(1, 0), Exit(1)]
    ensures states[|actions|] == State(0, true, map[], Returned, {}, {})
  {
    actions := [Enter(1), Use(1, 0), StoreRetired, ReadInFlight, Leave(1), ReadRetired(1), CloseOne(1, 0), Exit(1)];
    var s1 := State(1, false, map[1 := Serving], NotCalled, {}, {});
    var s2 := s1.(warm := {0});
    var s3 := s2.(retired := true, retirer := Stored);
    var s4 := s3.(retirer := Returned);
    var s5 := s4.(inFlight := 0, inside := map[1 := LastOut]);
    var s6 := s5.(inside := map[1 := Closing({0})]);
    var s7 := s6.(inside := map[1 := Closing({})], warm := {});
    var s8 := s7.(inside := map[]);
    states := [Init(), s1, s2, s3, s4, s5, s6, s7, s8];
    assert Next(Init(), Enter(1), {0}) == s1 && Next(s1, Use(1, 0), {0}) == s2;
    assert Next(s2, StoreRetired, {0}) == s3 && Next(s3, ReadInFlight, {0}) == s4;
    assert Next(s4, Leave(1), {0}) == s5 && Next(s5, ReadRetired(1), {0}) == s6;
    assert Next(s6, CloseOne(1, 0), {0}) == s7 && Next(s7, Exit(1), {0}) == s8;
  }
}

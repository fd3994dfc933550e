/**
 The active-request gauge of one backend (internal/proxy/runtime.go): acquiring and
 releasing change the count, and only then read it and store it in the gauge.  The three
 are separate steps, so requests race.
 */
module ActiveGauge {

  type Request = nat

  /** Where a request stands in an acquire or a release. */
  datatype Position = Idle | Changed | Loaded(value: int)

  datatype State = State(count: int, gauge: int, requests: map<Request, Position>)

  datatype Action = Change(r: Request, up: bool) | Load(r: Request) | Store(r: Request)

  const Init: State := State(0, 0, map[])

  function At(s: State, r: Request): Position {
    if r in s.requests then s.requests[r] else Idle
  }

  predicate Enabled(s: State, a: Action) {
    match a
    case Change(r, _) => At(s, r).Idle?
    case Load(r) => At(s, r).Changed?
    case Store(r) => At(s, r).Loaded?
  }

  function Next(s: State, a: Action): State
    requires Enabled(s, a)
  {
    match a
    case Change(r, _) => s.(count := s.count + Delta(a), requests := s.requests[r := Changed])
    case Load(r) => s.(requests := s.requests[r := Loaded(s.count)])
    case Store(r) => s.(gauge := At(s, r).value, requests := s.requests[r := Idle])
  }

  function Delta(a: Action): int {
    if a.Change? then (if a.up then 1 else -1) else 0
  }

  // ---------- whole runs ----------

  /** These actions can happen in this order. */
  predicate Possible(actions: seq<Action>)
    decreases actions, 0
  {
    actions == [] || (var n := |actions| - 1; Possible(actions[..n]) && Enabled(After(actions[..n]), actions[n]))
  }

  function After(actions: seq<Action>): State
    requires Possible(actions)
    decreases actions, 1
  {
    if actions == [] then Init else Next(After(actions[..|actions| - 1]), actions[|actions| - 1])
  }

  /** What the actions add to the count. */
  function Net(actions: seq<Action>): int {
    if actions == [] then 0 else Net(actions[..|actions| - 1]) + Delta(actions[|actions| - 1])
  }

  lemma {:induction false} NetConcat(a: seq<Action>, b: seq<Action>)
    ensures Net(a + b) == Net(a) + Net(b)
  {
    if b == [] {
      assert a + b == a;
    } else {
      assert (a + b)[..|a + b| - 1] == a + b[..|b| - 1];
      NetConcat(a, b[..|b| - 1]);
    }
  }

  /** How many actions came before the latest load of this request. */
  function BeforeLoad(actions: seq<Action>, r: Request): (i: nat)
    ensures i <= |actions|
  {
    if actions == [] then 0
    else if actions[|actions| - 1] == Load(r) then |actions| - 1
    else BeforeLoad(actions[..|actions| - 1], r)
  }

  /** How many came before the load whose value the gauge shows. */
  function Shown(actions: seq<Action>): (i: nat)
    ensures i <= |actions|
  {
    if actions == [] then 0
    else
      var before, last := actions[..|actions| - 1], actions[|actions| - 1];
      if last.Store? then BeforeLoad(before, last.r) else Shown(before)
  }

  /** The count is what the actions add up to; a loaded value, and the gauge, are what
      they added up to at the load. */
  lemma {:induction false} GaugeIsOlderCount(actions: seq<Action>)
    requires Possible(actions)
    ensures After(actions).count == Net(actions)
    ensures forall r :: At(After(actions), r).Loaded? ==>
              At(After(actions), r).value == Net(actions[..BeforeLoad(actions, r)])
    ensures After(actions).gauge == Net(actions[..Shown(actions)])
  {
    if actions != [] {
      var n := |actions| - 1;
      var before := actions[..n];
      GaugeIsOlderCount(before);
      assert forall i :: 0 <= i <= n ==> before[..i] == actions[..i];
    }
  }

  /** The gauge is right exactly if the acquires and releases since the load that it shows
      balance. */
  lemma GaugeRightIff(actions: seq<Action>)
    requires Possible(actions)
    ensures After(actions).gauge == After(actions).count <==> Net(actions[Shown(actions)..]) == 0
  {
    GaugeIsOlderCount(actions);
    NetConcat(actions[..Shown(actions)], actions[Shown(actions)..]);
    assert actions == actions[..Shown(actions)] + actions[Shown(actions)..];
  }

  // ---------- when the requests come to rest ----------

  /** Every change of this request up to here has been followed by a load. */
  ghost predicate Followed(actions: seq<Action>, r: Request) {
    forall k :: 0 <= k < |actions| && actions[k].Change? && actions[k].r == r ==> LoadAfter(actions, k, r)
  }

  ghost predicate LoadAfter(actions: seq<Action>, k: int, r: Request) {
    exists m :: k < m < |actions| && m >= 0 && actions[m] == Load(r)
  }

  lemma {:induction false} ChangesAreLoaded(actions: seq<Action>, r: Request)
    requires Possible(actions) && !At(After(actions), r).Changed?
    ensures Followed(actions, r)
  {
    if actions != [] {
      var n := |actions| - 1;
      var before, last := actions[..n], actions[n];
      forall k | 0 <= k < |actions| && actions[k].Change? && actions[k].r == r ensures LoadAfter(actions, k, r) {
        if last == Load(r) {
          assert actions[n] == Load(r);
        } else {
          ChangesAreLoaded(before, r);
          assert before[k] == actions[k] && LoadAfter(before, k, r);
          var m :| k < m < n && m >= 0 && before[m] == Load(r);
          assert actions[m] == Load(r);
        }
      }
    }
  }

  lemma {:induction false} LoadedAtLoad(actions: seq<Action>, r: Request)
    requires Possible(actions) && At(After(actions), r).Loaded?
    ensures BeforeLoad(actions, r) < |actions| && actions[BeforeLoad(actions, r)] == Load(r)
  {
    var n := |actions| - 1;
    if actions[n] != Load(r) {
      LoadedAtLoad(actions[..n], r);
    }
  }

  lemma {:induction false} NoChangeNoNet(actions: seq<Action>)
    requires forall k :: 0 <= k < |actions| ==> !actions[k].Change?
    ensures Net(actions) == 0
  {
    if actions != [] {
      NoChangeNoNet(actions[..|actions| - 1]);
    }
  }

  /** Once every request has come to rest, the gauge is right if the request that loaded
      last was also the last to store. */
  lemma RightAtRest(actions: seq<Action>)
    requires Possible(actions) && forall r :: At(After(actions), r).Idle?
    requires forall m :: Shown(actions) < m < |actions| ==> !actions[m].Load?
    ensures After(actions).gauge == After(actions).count
  {
    if actions != [] {
      var n := |actions| - 1;
      var last := actions[n];
      assert At(After(actions), last.r).Idle?;
      assert last.Store?;
      LoadedAtLoad(actions[..n], last.r);
      assert actions[Shown(actions)] == Load(last.r);
    }
    var since := actions[Shown(actions)..];
    forall k | 0 <= k < |since| ensures !since[k].Change? {
      var a := since[k];
      assert a == actions[Shown(actions) + k];
      ChangesAreLoaded(actions, a.r);
      assert Followed(actions, a.r);
    }
    NoChangeNoNet(since);
    GaugeRightIff(actions);
  }

  // ---------- the race ----------

  lemma PossibleStep(actions: seq<Action>, a: Action)
    requires Possible(actions) && Enabled(After(actions), a)
    ensures Possible(actions + [a]) && After(actions + [a]) == Next(After(actions), a)
  {
    assert (actions + [a])[..|actions|] == actions;
  }

  /** A change and its load, undisturbed. */
  lemma Begin(actions: seq<Action>, r: Request, up: bool) returns (more: seq<Action>)
    requires Possible(actions) && At(After(actions), r).Idle?
    ensures Possible(more)
    ensures var s, count := After(actions), After(actions).count + Delta(Change(r, up));
            After(more) == State(count, s.gauge, s.requests[r := Loaded(count)])
  {
    PossibleStep(actions, Change(r, up));
    more := actions + [Change(r, up)];
    PossibleStep(more, Load(r));
    more := more + [Load(r)];
  }

  lemma Finish(actions: seq<Action>, r: Request) returns (more: seq<Action>)
    requires Possible(actions) && At(After(actions), r).Loaded?
    ensures Possible(more)
    ensures var s := After(actions); After(more) == State(s.count, At(s, r).value, s.requests[r := Idle])
  {
    PossibleStep(actions, Store(r));
    more := actions + [Store(r)];
  }

  /** Two requests release at once and come to rest; no request is active, and the gauge
      shows one. */
  lemma StaleGauge() returns (actions: seq<Action>)
    ensures Possible(actions) && forall r :: At(After(actions), r).Idle?
    ensures After(actions).count == 0 && After(actions).gauge == 1
  {
    actions := Begin([], 1, true);
    actions := Finish(actions, 1);
    actions := Begin(actions, 2, true);
    actions := Finish(actions, 2);
    actions := Begin(actions, 1, false);
    actions := Begin(actions, 2, false);
    actions := Finish(actions, 2);
    actions := Finish(actions, 1);
  }
}

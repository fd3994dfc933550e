/**
 Any number of round trips at once: what Retry.dfy proves of one request alone, over
 every interleaving of the atomic steps of internal/proxy/handler.go and
 internal/backend/backend.go.  A release is two steps: the compare-and-swap of the
 handle's flag, which only the first caller wins, and the winner's decrement.  Which
 backend is selected is left open, because health and counts may change at any time.
 */
module Forwarding {

  type Request = nat

  type Closer = nat

  type Server = nat

  /** Where a request stands. */
  datatype Position =
    | Fresh
    | Selected(to: Server, attempt: int)               // chosen, not yet acquired
    | Holding(to: Server, attempt: int)                // acquired; the upstream call is next
    | Failed(to: Server, attempt: int, again: bool)    // the call failed; not yet released
    | Releasing(to: Server, attempt: int, again: bool) // flag won; not yet decremented
    | Between(attempt: int)                            // released; looking for another backend
    | Answered(to: Server)                             // the response body holds the handle
    | Finished

  /** `active` has the counters of the backends and `calls` the upstream calls of each
      request; `closers` are callers of Close that have won the flag of a body's handle
      and not yet decremented. */
  datatype State = State(active: map<Server, int>, requests: map<Request, Position>, calls: map<Request, nat>,
                         closers: map<Closer, Server>)

  datatype Action =
    | Select(r: Request, to: Server)
    | Acquire(r: Request)
    | Answer(r: Request)
    | Fail(r: Request, atBackend: bool)
    | BodyError(r: Request)
    | WinFlag(r: Request)
    | Decrement(r: Request)
    | SelectAgain(r: Request, to: Server)
    | NoneHealthy(r: Request)
    | CloseBody(r: Request, c: Closer)
    | DecrementClosed(r: Request, c: Closer)

  const Init: State := State(map[], map[], map[], map[])

  function At(s: State, r: Request): Position {
    if r in s.requests then s.requests[r] else Fresh
  }

  function Active(s: State, b: Server): int {
    if b in s.active then s.active[b] else 0
  }

  function Calls(s: State, r: Request): nat {
    if r in s.calls then s.calls[r] else 0
  }

  /** Any number of callers may close a body, at any time after the answer. */
  predicate Enabled(s: State, a: Action) {
    var p := At(s, a.r);
    match a
    case Select(_, _) => p.Fresh?
    case Acquire(_) => p.Selected?
    case Answer(_) => p.Holding?
    case Fail(_, _) => p.Holding?
    case BodyError(_) => p.Holding? && p.attempt > 1
    case WinFlag(_) => p.Failed?
    case Decrement(_) => p.Releasing?
    case SelectAgain(_, _) => p.Between?
    case NoneHealthy(_) => p.Fresh? || p.Between?
    case CloseBody(_, c) => (p.Answered? || p.Finished?) && c !in s.closers
    case DecrementClosed(_, c) => c in s.closers
  }

  function Put(s: State, r: Request, p: Position): State {
    s.(requests := s.requests[r := p])
  }

  function Count(s: State, b: Server, change: int): State {
    s.(active := s.active[b := Active(s, b) + change])
  }

  function Called(s: State, r: Request): State {
    s.(calls := s.calls[r := Calls(s, r) + 1])
  }

  /** A caller that loses the race for the flag changes nothing. */
  function Next(s: State, a: Action, limit: Request -> int): State
    requires Enabled(s, a)
  {
    var p := At(s, a.r);
    match a
    case Select(r, to) => Put(s, r, Selected(to, 1))
    case Acquire(r) => Put(Count(s, p.to, 1), r, Holding(p.to, p.attempt))
    case Answer(r) => Put(Called(s, r), r, Answered(p.to))
    case Fail(r, atBackend) => Put(Called(s, r), r, Failed(p.to, p.attempt, atBackend && p.attempt < limit(r)))
    case BodyError(r) => Put(s, r, Failed(p.to, p.attempt - 1, false))
    case WinFlag(r) => Put(s, r, Releasing(p.to, p.attempt, p.again))
    case Decrement(r) => Put(Count(s, p.to, -1), r, if p.again then Between(p.attempt) else Finished)
    case SelectAgain(r, to) => Put(s, r, Selected(to, p.attempt + 1))
    case NoneHealthy(r) => Put(s, r, Finished)
    case CloseBody(r, c) => if p.Finished? then s else Put(s.(closers := s.closers[c := p.to]), r, Finished)
    case DecrementClosed(_, c) => Count(s, s.closers[c], -1).(closers := s.closers - {c})
  }

  // ---------- the invariant ----------

  /** An increment of this backend's count by the request is not yet taken back, nor
      passed on to a closer. */
  predicate Holds(p: Position, b: Server) {
    (p.Holding? || p.Failed? || p.Releasing? || p.Answered?) && p.to == b
  }

  ghost function Holders(s: State, b: Server): set<Request> {
    set r | r in s.requests && Holds(s.requests[r], b)
  }

  ghost function Closing(s: State, b: Server): set<Closer> {
    set c | c in s.closers && s.closers[c] == b
  }

  /** The calls made so far fit the position, and never pass the limit. */
  predicate Bounded(p: Position, calls: nat, limit: int) {
    match p
    case Fresh => calls == 0
    case Selected(_, attempt) => calls == attempt - 1 < limit
    case Holding(_, attempt) => calls == attempt - 1 < limit
    case Failed(_, attempt, again) => calls == attempt <= limit && (again ==> attempt < limit)
    case Releasing(_, attempt, again) => calls == attempt <= limit && (again ==> attempt < limit)
    case Between(attempt) => calls == attempt < limit
    case Answered(_) => calls <= limit
    case Finished => calls <= limit
  }

  ghost predicate Exact(s: State) {
    forall b :: Active(s, b) == |Holders(s, b)| + |Closing(s, b)|
  }

  ghost predicate AllBounded(s: State, limit: Request -> int) {
    forall r :: Bounded(At(s, r), Calls(s, r), limit(r))
  }

  lemma HoldersStep(s: State, t: State, r: Request, b: Server)
    requires t.requests == s.requests[r := At(t, r)]
    ensures |Holders(t, b)|
         == |Holders(s, b)| - (if Holds(At(s, r), b) then 1 else 0) + (if Holds(At(t, r), b) then 1 else 0)
  {
    var others := Holders(s, b) - {r};
    assert Holders(s, b) == if Holds(At(s, r), b) then others + {r} else others;
    assert Holders(t, b) == if Holds(At(t, r), b) then others + {r} else others;
  }

  lemma ClosingMore(s: State, t: State, c: Closer, b: Server)
    requires c in t.closers && s.closers == t.closers - {c}
    ensures |Closing(t, b)| == |Closing(s, b)| + if t.closers[c] == b then 1 else 0
  {
    assert Closing(t, b) == if t.closers[c] == b then Closing(s, b) + {c} else Closing(s, b);
  }

  lemma ExactAt(s: State, a: Action, limit: Request -> int, b: Server)
    requires Active(s, b) == |Holders(s, b)| + |Closing(s, b)| && Enabled(s, a)
    ensures Active(Next(s, a, limit), b) == |Holders(Next(s, a, limit), b)| + |Closing(Next(s, a, limit), b)|
  {
    var t := Next(s, a, limit);
    if a.DecrementClosed? {
      ClosingMore(t, s, a.c, b);
      assert Holders(t, b) == Holders(s, b);
    } else if t != s {
      HoldersStep(s, t, a.r, b);
      if a.CloseBody? {
        ClosingMore(s, t, a.c, b);
      } else {
        assert Closing(t, b) == Closing(s, b);
      }
    }
  }

  lemma ExactStep(s: State, a: Action, limit: Request -> int)
    requires Exact(s) && Enabled(s, a)
    ensures Exact(Next(s, a, limit))
  {
    forall b ensures Active(Next(s, a, limit), b) == |Holders(Next(s, a, limit), b)| + |Closing(Next(s, a, limit), b)| {
      ExactAt(s, a, limit, b);
    }
  }

  lemma BoundedStep(s: State, a: Action, limit: Request -> int)
    requires AllBounded(s, limit) && Enabled(s, a) && limit(a.r) >= 1
    ensures AllBounded(Next(s, a, limit), limit)
  {
    var t := Next(s, a, limit);
    assert Bounded(At(t, a.r), Calls(t, a.r), limit(a.r));
    forall r | r != a.r ensures At(t, r) == At(s, r) && Calls(t, r) == Calls(s, r) {
    }
  }

  // ---------- whole runs ----------

  /** Every request may make at least one attempt, as validation demands. */
  ghost predicate Execution(states: seq<State>, actions: seq<Action>, limit: Request -> int) {
    && |states| == |actions| + 1
    && states[0] == Init
    && (forall r :: limit(r) >= 1)
    && forall i :: 0 <= i < |actions| ==>
         Enabled(states[i], actions[i]) && states[i + 1] == Next(states[i], actions[i], limit)
  }

  /** In every interleaving each backend's count is the number of handles of it that are
      out, in a round trip or a body, or whose winning closer has yet to decrement; and
      no request has called more often than it may. */
  lemma {:induction false} CountsAreExact(states: seq<State>, actions: seq<Action>, limit: Request -> int, i: nat)
    requires Execution(states, actions, limit) && i < |states|
    ensures Exact(states[i]) && AllBounded(states[i], limit)
  {
    if i == 0 {
      forall b ensures |Holders(Init, b)| == 0 && |Closing(Init, b)| == 0 {
        assert Holders(Init, b) == {} && Closing(Init, b) == {};
      }
    } else {
      CountsAreExact(states, actions, limit, i - 1);
      ExactStep(states[i - 1], actions[i - 1], limit);
      BoundedStep(states[i - 1], actions[i - 1], limit);
    }
  }

  /** Once every request has finished and every closer returned, all counts are zero,
      however many callers closed the same body. */
  lemma CountsReturn(states: seq<State>, actions: seq<Action>, limit: Request -> int, i: nat, b: Server)
    requires Execution(states, actions, limit) && i < |states|
    requires forall r :: r in states[i].requests ==> states[i].requests[r].Finished?
    requires states[i].closers == map[]
    ensures Active(states[i], b) == 0
  {
    CountsAreExact(states, actions, limit, i);
    assert Holders(states[i], b) == {} && Closing(states[i], b) == {};
  }

  /** The upstream calls of a request, read off the actions. */
  function Upstream(actions: seq<Action>, r: Request): nat {
    if actions == [] then 0 else Upstream(actions[..|actions| - 1], r) + CallOf(actions[|actions| - 1], r)
  }

  function CallOf(a: Action, r: Request): nat {
    if (a.Answer? || a.Fail?) && a.r == r then 1 else 0
  }

  lemma CallCounted(s: State, a: Action, limit: Request -> int, r: Request)
    requires Enabled(s, a)
    ensures Calls(Next(s, a, limit), r) == Calls(s, r) + CallOf(a, r)
  {
  }

  lemma UpstreamStep(actions: seq<Action>, i: nat, r: Request)
    requires i < |actions|
    ensures Upstream(actions[..i + 1], r) == Upstream(actions[..i], r) + CallOf(actions[i], r)
  {
    assert actions[..i + 1][..i] == actions[..i];
  }

  lemma {:induction false} CallsAreCounted(states: seq<State>, actions: seq<Action>, limit: Request -> int, i: nat,
                                           r: Request)
    requires Execution(states, actions, limit) && i <= |actions|
    ensures Upstream(actions[..i], r) == Calls(states[i], r)
  {
    if i > 0 {
      CallsAreCounted(states, actions, limit, i - 1, r);
      CallCounted(states[i - 1], actions[i - 1], limit, r);
      UpstreamStep(actions, i - 1, r);
    }
  }

  /** No request calls upstream more often than its limit allows. */
  lemma CallsAreLimited(states: seq<State>, actions: seq<Action>, limit: Request -> int, i: nat, r: Request)
    requires Execution(states, actions, limit) && i <= |actions|
    ensures Upstream(actions[..i], r) <= limit(r)
  {
    CallsAreCounted(states, actions, limit, i, r);
    CountsAreExact(states, actions, limit, i);
    assert Bounded(At(states[i], r), Calls(states[i], r), limit(r));
  }

  // ---------- a run ----------

  lemma Extend(states: seq<State>, actions: seq<Action>, limit: Request -> int, a: Action)
    returns (more: seq<State>)
    requires Execution(states, actions, limit) && Enabled(states[|actions|], a)
    ensures Execution(more, actions + [a], limit)
    ensures more[|actions| + 1] == Next(states[|actions|], a, limit)
  {
    more := states + [Next(states[|actions|], a, limit)];
  }

  /** From any state, a request that has selected a backend can acquire it, fail there and
      be released: one attempt leaves the counts as they were. */
  lemma FailedAttempt(states: seq<State>, actions: seq<Action>, limit: Request -> int, r: Request)
    returns (more: seq<State>, done: seq<Action>)
    requires Execution(states, actions, limit)
    requires var p := At(states[|actions|], r); p.Selected? && p.attempt < limit(r)
    ensures Execution(more, done, limit)
    ensures done == actions + [Acquire(r), Fail(r, true), WinFlag(r), Decrement(r)]
    ensures var s, t := states[|actions|], more[|done|];
            && At(t, r) == Between(At(s, r).attempt) && Calls(t, r) == Calls(s, r) + 1
            && (forall b :: Active(t, b) == Active(s, b)) && t.closers == s.closers
  {
    done := actions;
    more := Extend(states, done, limit, Acquire(r));
    done := done + [Acquire(r)];
    more := Extend(more, done, limit, Fail(r, true));
    done := done + [Fail(r, true)];
    more := Extend(more, done, limit, WinFlag(r));
    done := done + [WinFlag(r)];
    more := Extend(more, done, limit, Decrement(r));
    done := done + [Decrement(r)];
  }

  /** One that is answered can have its body closed twice at once: the second caller finds
      the flag taken, and the count falls once. */
  lemma AnsweredAttempt(states: seq<State>, actions: seq<Action>, limit: Request -> int, r: Request)
    returns (more: seq<State>, done: seq<Action>)
    requires Execution(states, actions, limit)
    requires At(states[|actions|], r).Selected? && states[|actions|].closers == map[]
    ensures Execution(more, done, limit)
    ensures done == actions + [Acquire(r), Answer(r), CloseBody(r, 1), CloseBody(r, 2), DecrementClosed(r, 1)]
    ensures var s, t := states[|actions|], more[|done|];
            && At(t, r) == Finished && Calls(t, r) == Calls(s, r) + 1
            && (forall b :: Active(t, b) == Active(s, b)) && t.closers == map[]
  {
    done := actions;
    more := Extend(states, done, limit, Acquire(r));
    done := done + [Acquire(r)];
    more := Extend(more, done, limit, Answer(r));
    done := done + [Answer(r)];
    more := Extend(more, done, limit, CloseBody(r, 1));
    done := done + [CloseBody(r, 1)];
    more := Extend(more, done, limit, CloseBody(r, 2));
    done := done + [CloseBody(r, 2)];
    more := Extend(more, done, limit, DecrementClosed(r, 1));
    done := done + [DecrementClosed(r, 1)];
  }

  /** A whole round trip: selected, failed, selected again, answered, closed. */
  lemma RetriedRoundTrip(limit: Request -> int, r: Request, first: Server, second: Server)
    returns (states: seq<State>, actions: seq<Action>)
    requires (forall x :: limit(x) >= 1) && limit(r) >= 2
    ensures Execution(states, actions, limit)
    ensures At(states[|actions|], r) == Finished && Calls(states[|actions|], r) == 2
    ensures forall b :: Active(states[|actions|], b) == 0
  {
    states, actions := [Init], [];
    states := Extend(states, actions, limit, Select(r, first));
    actions := actions + [Select(r, first)];
    var s1 := states[|actions|];
    assert s1.active == map[];
    states, actions := FailedAttempt(states, actions, limit, r);
    var s2 := states[|actions|];
    assert forall b :: Active(s2, b) == Active(s1, b) == 0;
    states := Extend(states, actions, limit, SelectAgain(r, second));
    actions := actions + [SelectAgain(r, second)];
    var s3 := states[|actions|];
    assert s3.active == s2.active;
    assert forall b :: Active(s3, b) == Active(s2, b);
    states, actions := AnsweredAttempt(states, actions, limit, r);
    assert forall b :: Active(states[|actions|], b) == Active(s3, b);
  }
}

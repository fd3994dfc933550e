/**
 One upstream of internal/backend/backend.go: its health state machine, with three
 interacting counters, and its count of active requests.
 */
module Backends {

  /** Probe thresholds, and the threshold of consecutive passive failures. */
  datatype Thresholds = Thresholds(healthy: int, unhealthy: int, passive: int)

  datatype Health = Health(alive: bool, probeFails: nat, probePasses: nat, passiveFails: nat)

  const Initial: Health := Health(true, 0, 0, 0)

  datatype Event = ProbePassed | ProbeFailed | RequestFailed | RequestSucceeded | SetTo(alive: bool)

  function Step(h: Health, e: Event, th: Thresholds): Health {
    match e
    case SetTo(alive) => Health(alive, 0, 0, 0)
    case RequestSucceeded => h.(passiveFails := 0)
    case RequestFailed =>
      if !h.alive then h
      else if h.passiveFails + 1 < th.passive then h.(passiveFails := h.passiveFails + 1)
      else h.(passiveFails := 0, alive := false)
    case ProbePassed =>
      if !h.alive && h.probePasses + 1 >= th.healthy then Health(true, 0, 0, 0)
      else h.(probeFails := 0, probePasses := h.probePasses + 1)
    case ProbeFailed =>
      if h.alive && h.probeFails + 1 >= th.unhealthy then h.(alive := false, probeFails := 0, probePasses := 0)
      else h.(probeFails := h.probeFails + 1, probePasses := 0)
  }

  // ---------- the object ----------

  /** The closure returned by Acquire: it lowers the count the first time only. */
  class Handle {
    const of: Backend
    var released: bool

    constructor (of: Backend)
      ensures this.of == of && !released
    {
      this.of, released := of, false;
    }
  }

  class Backend {
    const name: string
    const url: string
    var alive: bool
    var active: int
    var probeFails: nat
    var probePasses: nat
    var passiveFails: nat
    ghost var outstanding: set<Handle>

    /** The active count is the number of handles that are out and not yet released. */
    ghost predicate Counted()
      reads this`active, this`outstanding, outstanding
    {
      active == |outstanding| && forall h :: h in outstanding ==> h.of == this && !h.released
    }

    ghost function State(): Health
      reads this`alive, this`probeFails, this`probePasses, this`passiveFails
    {
      Health(alive, probeFails, probePasses, passiveFails)
    }

    constructor (name: string, url: string)
      ensures this.name == name && this.url == url && active == 0 && alive
      ensures State() == Initial && Counted() && outstanding == {}
    {
      this.name, this.url := name, url;
      alive, active, probeFails, probePasses, passiveFails := true, 0, 0, 0, 0;
      outstanding := {};
    }

    method SetAlive(alive: bool)
      modifies this`alive, this`probeFails, this`probePasses, this`passiveFails
      ensures forall th :: State() == Step(old(State()), SetTo(alive), th)
    {
      probeFails, probePasses, passiveFails := 0, 0, 0;
      this.alive := alive;
    }

    method RecordProbe(success: bool, healthyThreshold: int, unhealthyThreshold: int) returns (changed: bool)
      modifies this`alive, this`probeFails, this`probePasses, this`passiveFails
      ensures forall passive :: State() == Step(old(State()), if success then ProbePassed else ProbeFailed,
                                                Thresholds(healthyThreshold, unhealthyThreshold, passive))
      ensures changed <==> alive != old(alive)
    {
      var before := alive;
      if success {
        probeFails := 0;
        probePasses := probePasses + 1;
        if !before && probePasses >= healthyThreshold {
          alive := true;
          probePasses := 0;
          passiveFails := 0;
        }
      } else {
        probePasses := 0;
        probeFails := probeFails + 1;
        if before && probeFails >= unhealthyThreshold {
          alive := false;
          probeFails := 0;
        }
      }
      return before != alive;
    }

    method RecordPassiveFailure(threshold: int) returns (changed: bool)
      modifies this`alive, this`passiveFails
      ensures forall healthy, unhealthy ::
                State() == Step(old(State()), RequestFailed, Thresholds(healthy, unhealthy, threshold))
      ensures changed <==> alive != old(alive)
    {
      if !alive {
        return false;
      }
      passiveFails := passiveFails + 1;
      if passiveFails < threshold {
        return false;
      }
      passiveFails := 0;
      alive := false;
      return true;
    }

    method RecordPassiveSuccess()
      modifies this`passiveFails
      ensures forall th :: State() == Step(old(State()), RequestSucceeded, th)
    {
      passiveFails := 0;
    }

    method Acquire() returns (handle: Handle)
      requires Counted()
      modifies this`active, this`outstanding
      ensures Counted()
      ensures fresh(handle) && handle.of == this && !handle.released
      ensures active == old(active) + 1 && outstanding == old(outstanding) + {handle}
    {
      active := active + 1;
      handle := new Handle(this);
      outstanding := outstanding + {handle};
    }
  }

  /** No backend is listed twice. */
  ghost predicate Distinct(backends: seq<Backend>) {
    forall i, j :: 0 <= i < j < |backends| ==> backends[i] != backends[j]
  }

  /** Calling a handle's release, any number of times. */
  method Release(handle: Handle)
    requires handle.of.Counted() && (handle.released || handle in handle.of.outstanding)
    modifies handle, handle.of`active, handle.of`outstanding
    ensures handle.of.Counted() && handle.released
    ensures handle.of.outstanding == old(handle.of.outstanding) - {handle}
    ensures handle.of.active == old(handle.of.active) - if old(handle.released) then 0 else 1
  {
    if !handle.released {
      handle.released := true;
      handle.of.active := handle.of.active - 1;
      handle.of.outstanding := handle.of.outstanding - {handle};
    }
  }

  // ---------- histories ----------

  ghost predicate Positive(th: Thresholds) {
    th.healthy >= 1 && th.unhealthy >= 1 && th.passive >= 1
  }

  function Replay(history: seq<Event>, th: Thresholds): Health {
    if history == [] then Initial
    else Step(Replay(history[..|history| - 1], th), history[|history| - 1], th)
  }

  /** The probe that ends this history brought a dead backend back. */
  predicate Revived(history: seq<Event>, th: Thresholds)
  {
    && history != [] && history[|history| - 1].ProbePassed?
    && !Replay(history[..|history| - 1], th).alive && Replay(history, th).alive
  }

  /** Failed probes since the last passed probe or explicit setting, read off the history. */
  function FailedProbes(history: seq<Event>): nat {
    if history == [] then 0
    else
      var before := history[..|history| - 1];
      match history[|history| - 1]
      case ProbeFailed => FailedProbes(before) + 1
      case ProbePassed => 0
      case SetTo(_) => 0
      case _ => FailedProbes(before)
  }

  /** Passed probes since the last failed probe, explicit setting or revival. */
  function PassedProbes(history: seq<Event>, th: Thresholds): nat {
    if history == [] then 0
    else
      var before := history[..|history| - 1];
      match history[|history| - 1]
      case ProbePassed => if Revived(history, th) then 0 else PassedProbes(before, th) + 1
      case ProbeFailed => 0
      case SetTo(_) => 0
      case _ => PassedProbes(before, th)
  }

  /** Failed requests since the last successful one, explicit setting or revival. */
  function FailedRequests(history: seq<Event>, th: Thresholds): nat {
    if history == [] then 0
    else
      var before := history[..|history| - 1];
      match history[|history| - 1]
      case RequestFailed => FailedRequests(before, th) + 1
      case RequestSucceeded => 0
      case SetTo(_) => 0
      case ProbePassed => if Revived(history, th) then 0 else FailedRequests(before, th)
      case ProbeFailed => FailedRequests(before, th)
  }

  /** The event that ends this history took a live backend out of service. */
  predicate Ejected(history: seq<Event>, th: Thresholds) {
    history != [] && Replay(history[..|history| - 1], th).alive && !Replay(history, th).alive
  }

  /** Failed probes since the last passed probe, explicit setting or ejection by probes;
      unlike FailedProbes it goes on for a backend that is out of service. */
  function CountedProbes(history: seq<Event>, th: Thresholds): nat {
    if history == [] then 0
    else
      var before := history[..|history| - 1];
      match history[|history| - 1]
      case ProbeFailed => if Ejected(history, th) then 0 else CountedProbes(before, th) + 1
      case ProbePassed => 0
      case SetTo(_) => 0
      case _ => CountedProbes(before, th)
  }

  /** Failed requests of the backend while in service, since the last successful one,
      explicit setting, revival or ejection by requests. */
  function CountedRequests(history: seq<Event>, th: Thresholds): nat {
    if history == [] then 0
    else
      var before := history[..|history| - 1];
      match history[|history| - 1]
      case RequestFailed =>
        if Ejected(history, th) then 0
        else CountedRequests(before, th) + if Replay(before, th).alive then 1 else 0
      case RequestSucceeded => 0
      case SetTo(_) => 0
      case ProbePassed => if Revived(history, th) then 0 else CountedRequests(before, th)
      case ProbeFailed => CountedRequests(before, th)
  }

  /** After any history the counters are what the history says; while the backend is in
      service they are the plain runs of failures, below their thresholds. */
  lemma {:induction false} CountersRefineHistory(history: seq<Event>, th: Thresholds)
    requires Positive(th)
    ensures var h := Replay(history, th);
            && h.probePasses == PassedProbes(history, th)
            && h.probeFails == CountedProbes(history, th)
            && h.passiveFails == CountedRequests(history, th)
            && (h.alive ==> h.probeFails == FailedProbes(history) < th.unhealthy)
            && (h.alive ==> h.passiveFails == FailedRequests(history, th) < th.passive)
  {
    if history != [] {
      CountersRefineHistory(history[..|history| - 1], th);
    }
  }

  lemma ReplayStep(history: seq<Event>, e: Event, th: Thresholds)
    ensures Replay(history + [e], th) == Step(Replay(history, th), e, th)
  {
    assert (history + [e])[..|history + [e]| - 1] == history;
  }

  /** A live backend leaves service exactly when the run of failed probes reaches its
      threshold, or the run of failed requests reaches its own, or it is set so. */
  lemma EjectionIff(history: seq<Event>, e: Event, th: Thresholds)
    requires Positive(th) && Replay(history, th).alive
    ensures !Replay(history + [e], th).alive <==>
              || (e.ProbeFailed? && FailedProbes(history + [e]) == th.unhealthy)
              || (e.RequestFailed? && FailedRequests(history + [e], th) == th.passive)
              || e == SetTo(false)
  {
    CountersRefineHistory(history, th);
    ReplayStep(history, e, th);
    assert (history + [e])[..|history + [e]| - 1] == history;
  }

  /** A dead backend returns to service exactly when the run of passed probes reaches
      its threshold, or it is set so. */
  lemma RevivalIff(history: seq<Event>, e: Event, th: Thresholds)
    requires Positive(th) && !Replay(history, th).alive
    ensures Replay(history + [e], th).alive <==>
              (e.ProbePassed? && PassedProbes(history, th) + 1 >= th.healthy) || e == SetTo(true)
  {
    CountersRefineHistory(history, th);
    ReplayStep(history, e, th);
  }

  /** The last n probes of the history all passed, with no explicit setting among them. */
  predicate LastProbesPassed(history: seq<Event>, n: nat) {
    if n == 0 then true
    else if history == [] then false
    else
      var before := history[..|history| - 1];
      match history[|history| - 1]
      case ProbePassed => LastProbesPassed(before, n - 1)
      case ProbeFailed => false
      case SetTo(_) => false
      case _ => LastProbesPassed(before, n)
  }

  /** How many probes passed. */
  function Passes(history: seq<Event>): nat {
    if history == [] then 0
    else Passes(history[..|history| - 1]) + if history[|history| - 1].ProbePassed? then 1 else 0
  }

  /** That is, the history ends in a stretch with n passed probes, no failed one and no
      setting. */
  lemma {:induction false} LastProbesMeans(history: seq<Event>, n: nat) returns (start: nat)
    requires LastProbesPassed(history, n)
    ensures start <= |history| && Passes(history[start..]) == n
    ensures forall i :: start <= i < |history| ==> !history[i].ProbeFailed? && !history[i].SetTo?
  {
    start := |history|;
    if n > 0 {
      var before, last := history[..|history| - 1], history[|history| - 1];
      start := LastProbesMeans(before, if last.ProbePassed? then n - 1 else n);
      assert history[start..][..|history[start..]| - 1] == before[start..];
      assert forall i :: 0 <= i < |before| ==> before[i] == history[i];
    }
  }

  lemma {:induction false} PassedMeansLast(history: seq<Event>, th: Thresholds, n: nat)
    requires n <= PassedProbes(history, th)
    ensures LastProbesPassed(history, n)
  {
    if n > 0 {
      var before := history[..|history| - 1];
      PassedMeansLast(before, th, if history[|history| - 1].ProbePassed? then n - 1 else n);
    }
  }

  /** A probe revives a backend only on the evidence of that many successes in a row,
      though some of them may be older than a passive ejection. */
  lemma RevivalNeedsPasses(history: seq<Event>, th: Thresholds)
    requires Positive(th) && Revived(history, th)
    ensures LastProbesPassed(history, th.healthy)
  {
    var before := history[..|history| - 1];
    assert history == before + [history[|history| - 1]];
    RevivalIff(before, ProbePassed, th);
    PassedMeansLast(before, th, th.healthy - 1);
  }

  /** After a passive ejection one passed probe suffices, exactly when enough had
      passed before it. */
  lemma RevivalAfterPassiveEjection(history: seq<Event>, th: Thresholds)
    requires Positive(th) && Replay(history, th).alive && !Replay(history + [RequestFailed], th).alive
    ensures Replay(history + [RequestFailed] + [ProbePassed], th).alive <==> PassedProbes(history, th) + 1 >= th.healthy
  {
    var ejected := history + [RequestFailed];
    assert ejected[..|ejected| - 1] == history;
    RevivalIff(ejected, ProbePassed, th);
  }
}

/**
 The retrying round trip of internal/proxy/handler.go: which backend each attempt
 uses, who holds the active-request handle, and what evidence each call leaves.
 The upstream call itself is an input.
 */
module Retry {
  import opened Common
  import opened Verbs
  import opened Backends
  import opened Balance

  datatype Strategy = ByRotation | ByLoad

  /** What the transport reports for one call; a client failure is a request body that
      is too large, or a cancelled request. */
  datatype Upstream = Answered | BackendFailed | ClientFailed

  /** What RoundTrip returns: a response whose body holds a handle, or an error. */
  datatype Reply =
    | Response(body: Handle)
    | UpstreamError
    | NoHealthyBackend
    | BodyError
    | Exhausted

  /** One upstream call, and the backend it went to. */
  datatype Attempt = Attempt(to: Backend, result: Upstream)

  class Pool {
    const backends: seq<Backend>
    const rotation: RoundRobin
    const load: LeastConnections
    const maxAttempts: int
    const passiveThreshold: int

    constructor (backends: seq<Backend>, rotation: RoundRobin, load: LeastConnections, maxAttempts: int,
                 passiveThreshold: int)
      ensures this.backends == backends && this.rotation == rotation && this.load == load
      ensures this.maxAttempts == maxAttempts && this.passiveThreshold == passiveThreshold
    {
      this.backends, this.rotation, this.load := backends, rotation, load;
      this.maxAttempts, this.passiveThreshold := maxAttempts, passiveThreshold;
    }

    ghost predicate Ready()
      reads rotation, load
    {
      rotation.next < COUNTER && load.tie < COUNTER
    }

    /** The strategy's own balancer chooses, and the other one is left alone. */
    method Select(strategy: Strategy, among: seq<Backend>) returns (chosen: Backend?)
      requires Ready()
      modifies rotation, load
      ensures Ready()
      ensures chosen == null <==> forall b :: b in among ==> !b.alive
      ensures chosen != null ==> chosen in among && chosen.alive
      ensures strategy == ByRotation ==> load.tie == old(load.tie)
      ensures strategy == ByRotation && among != [] && among[old(rotation.next) % |among|].alive ==>
                chosen == among[old(rotation.next) % |among|]
      ensures strategy == ByLoad ==> rotation.next == old(rotation.next)
      ensures strategy == ByLoad && chosen != null ==> forall b :: b in among && b.alive ==> chosen.active <= b.active
    {
      if strategy == ByRotation {
        chosen := rotation.Next(among);
      } else {
        chosen := load.Next(among);
      }
    }

    method Alternatives(attempted: Backend) returns (alternatives: seq<Backend>)
      ensures alternatives == LiveOthers(backends, attempted)
    {
      alternatives := [];
      for i := 0 to |backends|
        invariant alternatives == LiveOthers(backends[..i], attempted)
      {
        assert backends[..i + 1][..i] == backends[..i];
        var candidate := backends[i];
        if candidate != attempted && candidate.alive {
          alternatives := alternatives + [candidate];
        }
      }
      assert backends[..|backends|] == backends;
    }

    /** A retry goes to another live backend when there is one, by the strategy among
        those, and back to the same one only when it alone is alive. */
    method NextRetryBackend(strategy: Strategy, attempted: Backend) returns (chosen: Backend?)
      requires Ready()
      modifies rotation, load
      ensures Ready()
      ensures chosen == null <==> forall b :: b in backends ==> !b.alive
      ensures chosen != null ==> chosen in backends && chosen.alive
      ensures chosen == attempted ==> forall b :: b in backends && b != attempted ==> !b.alive
      ensures var others := LiveOthers(backends, attempted);
              strategy == ByRotation && others != [] ==> chosen == others[old(rotation.next) % |others|]
      ensures strategy == ByLoad && chosen != null ==>
                forall b :: b in backends && b.alive && b != attempted ==> chosen.active <= b.active
    {
      var alternatives := Alternatives(attempted);
      LiveOthersMembers(backends, attempted);
      if |alternatives| > 0 {
        assert alternatives[0] in alternatives;
        chosen := Select(strategy, alternatives);
      } else {
        chosen := Select(strategy, backends);
      }
    }
  }

  /** The live backends other than this one, in order. */
  ghost function LiveOthers(backends: seq<Backend>, attempted: Backend): seq<Backend>
    reads (set b | b in backends)`alive
  {
    if backends == [] then []
    else
      var last := backends[|backends| - 1];
      LiveOthers(backends[..|backends| - 1], attempted) + if last != attempted && last.alive then [last] else []
  }

  lemma {:induction false} LiveOthersMembers(backends: seq<Backend>, attempted: Backend)
    ensures forall b :: b in LiveOthers(backends, attempted) <==> b in backends && b != attempted && b.alive
  {
    if backends != [] {
      LiveOthersMembers(backends[..|backends| - 1], attempted);
      assert backends == backends[..|backends| - 1] + [backends[|backends| - 1]];
    }
  }

  ghost function Passive(threshold: int): Thresholds {
    Thresholds(1, 1, threshold)
  }

  /** What one call does to the health of the backend it went to. */
  ghost function Recording(h: Health, result: Upstream, th: Thresholds): Health {
    match result
    case Answered => Step(h, RequestSucceeded, th)
    case BackendFailed => Step(h, RequestFailed, th)
    case ClientFailed => h
  }

  /** The health of b after these calls. */
  ghost function After(h: Health, calls: seq<Attempt>, b: Backend, th: Thresholds): Health {
    if calls == [] then h
    else
      var last, before := calls[|calls| - 1], After(h, calls[..|calls| - 1], b, th);
      if last.to == b then Recording(before, last.result, th) else before
  }

  lemma AfterStep(h: Health, calls: seq<Attempt>, last: Attempt, b: Backend, th: Thresholds)
    ensures After(h, calls + [last], b, th) ==
              if last.to == b then Recording(After(h, calls, b, th), last.result, th) else After(h, calls, b, th)
  {
    assert (calls + [last])[..|calls + [last]| - 1] == calls;
  }

  /** What one call leaves: an answer clears the consecutive failures, a failure at the
      backend counts towards its ejection, and one at the client leaves no trace. */
  lemma RecordingMeans(h: Health, threshold: int)
    ensures Recording(h, Answered, Passive(threshold)) == Health(h.alive, h.probeFails, h.probePasses, 0)
    ensures Recording(h, ClientFailed, Passive(threshold)) == h
    ensures Recording(h, BackendFailed, Passive(threshold))
         == if !h.alive then h
            else if h.passiveFails + 1 >= threshold then Health(false, h.probeFails, h.probePasses, 0)
            else Health(true, h.probeFails, h.probePasses, h.passiveFails + 1)
  {
  }

  /** canRetry: a safe method, and a body that is absent or can be had again. */
  predicate CanRetry(verb: Verb, hasBody: bool, getBody: bool) {
    (verb.Get? || verb.Head? || verb.Options? || verb.Trace?) && (!hasBody || getBody)
  }

  lemma CanRetryIff(verb: Verb, hasBody: bool, getBody: bool)
    ensures CanRetry(verb, hasBody, getBody) <==> verb in {Get, Head, Options, Trace} && (hasBody ==> getBody)
  {
  }

  /** How many upstream calls a request may cause. */
  function Limit(replayable: bool, maxAttempts: int): int {
    if replayable then maxAttempts else 1
  }

  /** Counts are exact, and each backend has its other handles and the one held now. */
  ghost predicate Handed(pool: Pool, others: map<Backend, set<Handle>>, held: Option<Handle>)
    reads (set b | b in pool.backends)`active, (set b | b in pool.backends)`outstanding
    reads set b, h | b in pool.backends && h in b.outstanding :: h
  {
    && (held.Some? ==> held.value.of in pool.backends && held.value in held.value.of.outstanding)
    && forall b :: b in pool.backends ==>
         b.Counted() && b in others
         && b.outstanding == others[b] + (if held.Some? && held.value.of == b then {held.value} else {})
  }

  /** Each backend's health has taken in exactly the calls made to it. */
  ghost predicate Recorded(pool: Pool, start: map<Backend, Health>, calls: seq<Attempt>)
    reads (set b | b in pool.backends)`alive, (set b | b in pool.backends)`probeFails,
          (set b | b in pool.backends)`probePasses, (set b | b in pool.backends)`passiveFails
  {
    forall b :: b in pool.backends ==>
      b in start && b.State() == After(start[b], calls, b, Passive(pool.passiveThreshold))
  }

  method Record(pool: Pool, to: Backend, result: Upstream, ghost start: map<Backend, Health>,
                ghost before: seq<Attempt>)
    requires Recorded(pool, start, before) && to in pool.backends
    modifies to`alive, to`passiveFails
    ensures Recorded(pool, start, before + [Attempt(to, result)])
  {
    ghost var th := Passive(pool.passiveThreshold);
    if result == Answered {
      to.RecordPassiveSuccess();
    } else if result == BackendFailed {
      var changed := to.RecordPassiveFailure(pool.passiveThreshold);
    }
    assert to.State() == Recording(old(to.State()), result, th);
    forall b | b in pool.backends ensures b.State() == After(start[b], before + [Attempt(to, result)], b, th) {
      AfterStep(start[b], before, Attempt(to, result), b, th);
    }
  }

  /** The state between the steps of a round trip. */
  ghost predicate Going(pool: Pool, others: map<Backend, set<Handle>>, start: map<Backend, Health>,
                        calls: seq<Attempt>, held: Option<Handle>)
    reads pool.rotation, pool.load, pool.backends
    reads set b, h | b in pool.backends && h in b.outstanding :: h
  {
    && pool.Ready() && Recorded(pool, start, calls) && Handed(pool, others, held)
    && (held.Some? ==> held.value !in others[held.value.of])
  }

  method GiveBack(pool: Pool, handle: Handle, ghost others: map<Backend, set<Handle>>,
                  ghost start: map<Backend, Health>, ghost calls: seq<Attempt>)
    requires Going(pool, others, start, calls, Some(handle))
    modifies handle, handle.of`active, handle.of`outstanding
    ensures Going(pool, others, start, calls, None)
  {
    Release(handle);
  }

  /** One upstream call: its result is recorded, and the handle kept only by an answer. */
  method CallOnce(pool: Pool, handle: Handle, result: Upstream, ghost others: map<Backend, set<Handle>>,
                  ghost start: map<Backend, Health>, ghost before: seq<Attempt>)
    requires Going(pool, others, start, before, Some(handle))
    modifies handle, handle.of
    ensures Going(pool, others, start, before + [Attempt(handle.of, result)],
                  if result == Answered then Some(handle) else None)
  {
    if result != Answered {
      GiveBack(pool, handle, others, start, before);
    }
    Record(pool, handle.of, result, start, before);
  }

  method Take(pool: Pool, to: Backend, ghost others: map<Backend, set<Handle>>,
              ghost start: map<Backend, Health>, ghost calls: seq<Attempt>)
    returns (handle: Handle)
    requires Going(pool, others, start, calls, None) && to in pool.backends
    modifies to`active, to`outstanding
    ensures fresh(handle) && handle.of == to && Going(pool, others, start, calls, Some(handle))
  {
    handle := to.Acquire();
  }

  /** The backend is in service after these calls. */
  ghost predicate LiveAfter(pool: Pool, start: map<Backend, Health>, calls: seq<Attempt>, b: Backend) {
    b in start && After(start[b], calls, b, Passive(pool.passiveThreshold)).alive
  }

  ghost predicate NoneLive(pool: Pool, start: map<Backend, Health>, calls: seq<Attempt>) {
    forall b :: b in pool.backends ==> !LiveAfter(pool, start, calls, b)
  }

  /** A sound choice for the next call: after a failure, a live backend, and the one
      that just failed only when every other one is dead. */
  ghost predicate Chosen(pool: Pool, start: map<Backend, Health>, calls: seq<Attempt>, to: Backend) {
    calls != [] ==>
      && LiveAfter(pool, start, calls, to)
      && (to == calls[|calls| - 1].to ==>
            forall b :: b in pool.backends && b != to ==> !LiveAfter(pool, start, calls, b))
  }

  /** Move on to another backend and acquire it. */
  method Hop(pool: Pool, strategy: Strategy, from: Backend, ghost others: map<Backend, set<Handle>>,
             ghost start: map<Backend, Health>, ghost calls: seq<Attempt>)
    returns (handle: Handle?)
    requires Going(pool, others, start, calls, None) && calls != [] && calls[|calls| - 1].to == from
    modifies pool.rotation, pool.load, pool.backends
    ensures handle == null <==> NoneLive(pool, start, calls)
    ensures handle == null ==> Going(pool, others, start, calls, None)
    ensures handle != null ==> fresh(handle) && Going(pool, others, start, calls, Some(handle))
    ensures handle != null ==> Chosen(pool, start, calls, handle.of)
  {
    AliveMeansLive(pool, start, calls);
    var next := pool.NextRetryBackend(strategy, from);
    if next == null {
      return null;
    }
    assert Chosen(pool, start, calls, next);
    handle := Take(pool, next, others, start, calls);
  }

  lemma AliveMeansLive(pool: Pool, start: map<Backend, Health>, calls: seq<Attempt>)
    requires Recorded(pool, start, calls)
    ensures forall b :: b in pool.backends ==> (b.alive <==> LiveAfter(pool, start, calls, b))
  {
    forall b | b in pool.backends ensures b.alive <==> LiveAfter(pool, start, calls, b) {
      assert b.State().alive == b.alive;
    }
  }

  /** Leave a failed backend: hop to the next one and rewind the request body. */
  method Proceed(pool: Pool, strategy: Strategy, from: Backend, rewinds: bool, ghost others: map<Backend, set<Handle>>,
                 ghost start: map<Backend, Health>, ghost calls: seq<Attempt>)
    returns (handle: Handle?, usable: bool)
    requires Going(pool, others, start, calls, None) && calls != [] && calls[|calls| - 1].to == from
    modifies pool.rotation, pool.load, pool.backends
    ensures usable <==> handle != null && rewinds
    ensures handle == null <==> NoneLive(pool, start, calls)
    ensures handle != null ==> fresh(handle) && handle.of in pool.backends && Chosen(pool, start, calls, handle.of)
    ensures Going(pool, others, start, calls, if usable then Some(handle) else None)
  {
    handle := Hop(pool, strategy, from, others, start, calls);
    usable := handle != null && rewinds;
    if handle != null && !rewinds {
      GiveBack(pool, handle, others, start, calls);
    }
  }

  /** Each call went to a backend of the pool, chosen soundly, with the result the
      transport reported, and each of the first n failed at its backend. */
  ghost predicate Traced(pool: Pool, start: map<Backend, Health>, calls: seq<Attempt>, upstream: int -> Upstream,
                         n: int) {
    forall i :: 0 <= i < |calls| ==>
      && calls[i].to in pool.backends && Chosen(pool, start, calls[..i], calls[i].to)
      && calls[i].result == upstream(i + 1) && (i < n ==> calls[i].result == BackendFailed)
  }

  lemma TracedStep(pool: Pool, start: map<Backend, Health>, calls: seq<Attempt>, last: Attempt,
                   upstream: int -> Upstream)
    requires Traced(pool, start, calls, upstream, |calls|)
    requires last.to in pool.backends && last.result == upstream(|calls| + 1)
    requires Chosen(pool, start, calls, last.to)
    ensures Traced(pool, start, calls + [last], upstream, |calls|)
    ensures last.result == BackendFailed ==> Traced(pool, start, calls + [last], upstream, |calls| + 1)
  {
    var more := calls + [last];
    forall i | 0 <= i < |more| ensures Chosen(pool, start, more[..i], more[i].to) {
      assert more[..i] == calls[..i];
      assert calls[..|calls|] == calls;
    }
  }

  /** Why a round trip ended with this reply. */
  ghost predicate Justified(pool: Pool, start: map<Backend, Health>, calls: seq<Attempt>, reply: Reply, limit: int,
                            bodyRewinds: int -> bool) {
    if limit < 1 then reply.Exhausted? && calls == []
    else
      && 1 <= |calls| <= limit
      && match calls[|calls| - 1].result
         case Answered => reply.Response?
         case ClientFailed => reply.UpstreamError?
         case BackendFailed =>
           if |calls| == limit then reply.UpstreamError?
           else if NoneLive(pool, start, calls) then reply.NoHealthyBackend?
           else reply.BodyError? && !bodyRewinds(|calls| + 1)
  }

  /** The state in which a turn begins: all calls so far failed at their backends, and the
      handle held now is at a backend chosen soundly after them. */
  ghost predicate OnTurn(pool: Pool, others: map<Backend, set<Handle>>, start: map<Backend, Health>,
                         calls: seq<Attempt>, upstream: int -> Upstream, handle: Handle)
    reads pool.rotation, pool.load, pool.backends
    reads set b, h | b in pool.backends && h in b.outstanding :: h
  {
    && Going(pool, others, start, calls, Some(handle))
    && Traced(pool, start, calls, upstream, |calls|) && Chosen(pool, start, calls, handle.of)
  }

  /** A call that fails at its backend before the last attempt is followed by another,
      unless no backend is alive or the request body cannot be had again. */
  ghost predicate Persists(pool: Pool, start: map<Backend, Health>, calls: seq<Attempt>, bodyRewinds: int -> bool) {
    1 <= |calls| < pool.maxAttempts && calls[|calls| - 1].result == BackendFailed ==>
      NoneLive(pool, start, calls) || !bodyRewinds(|calls| + 1)
  }

  /** One turn of the loop: a call, and after a backend failure the hop to the next
      backend.  It ends the round trip, or leaves a handle for the next turn. */
  method Turn(pool: Pool, strategy: Strategy, handle: Handle, attempt: int, limit: int, upstream: int -> Upstream,
              bodyRewinds: int -> bool,
              ghost others: map<Backend, set<Handle>>, ghost start: map<Backend, Health>, ghost before: seq<Attempt>)
    returns (reply: Option<Reply>, next: Handle, ghost calls: seq<Attempt>)
    requires attempt == |before| + 1 <= limit && OnTurn(pool, others, start, before, upstream, handle)
    modifies pool.rotation, pool.load, pool.backends, handle
    ensures calls == before + [Attempt(handle.of, upstream(attempt))]
    ensures Traced(pool, start, calls, upstream, if reply.None? then |calls| else |calls| - 1)
    ensures reply.None? ==> attempt < limit && OnTurn(pool, others, start, calls, upstream, next)
    ensures reply.Some? ==> Justified(pool, start, calls, reply.value, limit, bodyRewinds)
    ensures next == handle || fresh(next)
    ensures reply.Some? && reply.value.Response? ==> reply.value.body == next == handle
    ensures Going(pool, others, start, calls, if reply.None? || reply.value.Response? then Some(next) else None)
  {
    var result := upstream(attempt);
    calls := before + [Attempt(handle.of, result)];
    TracedStep(pool, start, before, Attempt(handle.of, result), upstream);
    CallOnce(pool, handle, result, others, start, before);
    if result == Answered {
      return Some(Response(handle)), handle, calls;
    }
    if result == ClientFailed || attempt == limit {
      return Some(UpstreamError), handle, calls;
    }
    var hop, usable := Proceed(pool, strategy, handle.of, bodyRewinds(attempt + 1), others, start, calls);
    if hop == null {
      return Some(NoHealthyBackend), handle, calls;
    }
    return if usable then None else Some(BodyError), hop, calls;
  }

  /** The round trip.  An error leaves every acquired handle released, and a response
      exactly one, held by its body and counted at the backend that answered: unless
      the pool permits no attempt at all, which validation excludes. */
  method RoundTrip(pool: Pool, strategy: Strategy, firstHandle: Handle, replayable: bool,
                   upstream: int -> Upstream, bodyRewinds: int -> bool,
                   ghost others: map<Backend, set<Handle>>, ghost start: map<Backend, Health>)
    returns (reply: Reply, attempts: nat, last: Backend, ghost calls: seq<Attempt>)
    requires Going(pool, others, start, [], Some(firstHandle))
    modifies pool.rotation, pool.load, pool.backends, firstHandle
    ensures Traced(pool, start, calls, upstream, |calls| - 1)
    ensures Justified(pool, start, calls, reply, Limit(replayable, pool.maxAttempts), bodyRewinds)
    ensures !replayable ==> |calls| == 1
    ensures |calls| >= 1 <==> pool.maxAttempts >= 1 || !replayable
    ensures pool.maxAttempts >= 1 ==> |calls| <= pool.maxAttempts
    ensures replayable ==> Persists(pool, start, calls, bodyRewinds)
    ensures reply.Response? ==> last.passiveFails == 0
    ensures attempts == |calls| + if reply.BodyError? || reply.Exhausted? then 1 else 0
    ensures reply.Response? ==>
              calls[|calls| - 1].to == last == reply.body.of && (reply.body == firstHandle || fresh(reply.body))
    ensures Going(pool, others, start, calls,
                  if reply.Exhausted? then Some(firstHandle) else if reply.Response? then Some(reply.body) else None)
  {
    var handle: Handle := firstHandle;
    attempts, last, calls := 1, firstHandle.of, [];
    var limit := Limit(replayable, pool.maxAttempts);
    var attempt := 1;
    while attempt <= limit
      invariant attempts == attempt == |calls| + 1 && last == handle.of
      invariant (attempt <= limit || limit < 1) && (limit < 1 ==> attempt == 1)
      invariant attempt == 1 ==> handle == firstHandle
      invariant handle == firstHandle || fresh(handle)
      invariant OnTurn(pool, others, start, calls, upstream, handle)
      decreases limit - attempt
    {
      var ended, next;
      ended, next, calls := Turn(pool, strategy, handle, attempt, limit, upstream, bodyRewinds, others, start, calls);
      if ended.None? || ended.value.BodyError? {
        attempts := attempts + 1;
        last := next.of;
      }
      if ended.Some? {
        return ended.value, attempts, last, calls;
      }
      handle := next;
      attempt := attempt + 1;
    }
    return Exhausted, attempts, last, calls;
  }

  /** Every count is as recorded, but for the one request that an answered body holds. */
  ghost predicate Conserved(pool: Pool, others: map<Backend, set<Handle>>, reply: Reply)
    reads (set b | b in pool.backends)`active, (set b | b in pool.backends)`outstanding
    reads set b, h | b in pool.backends && h in b.outstanding :: h
  {
    forall b :: b in pool.backends ==>
      var mine := reply.Response? && reply.body.of == b;
      && b.Counted() && b in others
      && b.outstanding == others[b] + (if mine then {reply.body} else {})
      && b.active == |others[b]| + (if mine then 1 else 0)
  }

  /** The whole forwarding of one request.  Whatever the upstreams do, every count is
      what it was before, but for the one request that an answered body still holds. */
  method Forward(pool: Pool, strategy: Strategy, verb: Verb, hasBody: bool, getBody: bool,
                 upstream: int -> Upstream, bodyRewinds: int -> bool,
                 ghost others: map<Backend, set<Handle>>, ghost start: map<Backend, Health>)
    returns (reply: Reply, attempts: nat, ghost calls: seq<Attempt>)
    requires pool.Ready() && pool.maxAttempts >= 1
    requires Recorded(pool, start, []) && Conserved(pool, others, NoHealthyBackend)
    modifies pool.rotation, pool.load, pool.backends
    ensures pool.Ready() && Conserved(pool, others, reply)
    ensures reply.Response? ==> fresh(reply.body) && reply.body.of in pool.backends
    ensures |calls| <= pool.maxAttempts && (!CanRetry(verb, hasBody, getBody) ==> |calls| <= 1)
    ensures calls == [] <==> forall b :: b in pool.backends ==> !old(b.alive)
    ensures CanRetry(verb, hasBody, getBody) ==> Persists(pool, start, calls, bodyRewinds)
  {
    var handle := Begin(pool, strategy, others, start);
    if handle == null {
      return NoHealthyBackend, 0, [];
    }
    var last;
    reply, attempts, last, calls :=
      RoundTrip(pool, strategy, handle, CanRetry(verb, hasBody, getBody), upstream, bodyRewinds, others, start);
    GoingConserves(pool, others, start, calls, reply);
  }

  /** Select and acquire the first backend of a request. */
  method Begin(pool: Pool, strategy: Strategy, ghost others: map<Backend, set<Handle>>,
               ghost start: map<Backend, Health>)
    returns (handle: Handle?)
    requires pool.Ready() && Recorded(pool, start, []) && Conserved(pool, others, NoHealthyBackend)
    modifies pool.rotation, pool.load, pool.backends
    ensures handle == null <==> forall b :: b in pool.backends ==> !old(b.alive)
    ensures handle == null ==> pool.Ready() && Conserved(pool, others, NoHealthyBackend)
    ensures handle != null ==> fresh(handle) && Going(pool, others, start, [], Some(handle))
  {
    var first := pool.Select(strategy, pool.backends);
    if first == null {
      return null;
    }
    handle := Admit(pool, first, others, start);
  }

  lemma GoingConserves(pool: Pool, others: map<Backend, set<Handle>>, start: map<Backend, Health>,
                       calls: seq<Attempt>, reply: Reply)
    requires Going(pool, others, start, calls, if reply.Response? then Some(reply.body) else None)
    ensures Conserved(pool, others, reply)
  {
  }

  /** Acquire the first backend of a request. */
  method Admit(pool: Pool, first: Backend, ghost others: map<Backend, set<Handle>>, ghost start: map<Backend, Health>)
    returns (handle: Handle)
    requires pool.Ready() && first in pool.backends
    requires Recorded(pool, start, []) && Conserved(pool, others, NoHealthyBackend)
    modifies first`active, first`outstanding
    ensures fresh(handle) && handle.of == first && Going(pool, others, start, [], Some(handle))
  {
    handle := first.Acquire();
  }
}

/**
 What a client gets from the cache, end to end: the key of internal/cache/policy.go,
 the conditions and the capture of internal/proxy/handler.go, and the cache itself.
 */
module Serving {
  import opened Common
  import opened Text
  import opened Policy
  import opened Freshness
  import opened Headers
  import Int64
  import LruSpec
  import CaptureBody

  // ---------- keys ----------

  function Key(r: Request): string {
    "GET" + [NUL] + ToLower(r.host) + [NUL] + r.uri
  }

  /** Two requests share a key exactly when they name the same host, in any case, and
      the same resource.  A host never contains NUL. */
  lemma KeyIdentifies(q: Request, r: Request)
    requires NUL !in q.host && NUL !in r.host
    ensures Key(q) == Key(r) <==> ToLower(q.host) == ToLower(r.host) && q.uri == r.uri
  {
    if Key(q) == Key(r) {
      LowerKeepsNulOut(q.host);
      LowerKeepsNulOut(r.host);
      var a, c := ToLower(q.host) + [NUL] + q.uri, ToLower(r.host) + [NUL] + r.uri;
      assert Key(q) == "GET" + [NUL] + a && Key(r) == "GET" + [NUL] + c;
      assert Key(q)[4..] == a && Key(r)[4..] == c;
      SplitAtNul(ToLower(q.host), q.uri, ToLower(r.host), r.uri);
    }
  }

  // ---------- exchanges ----------

  /** One forwarded request: the response that came back, and what happened to its body. */
  datatype Exchange = Exchange(origin: Origin, header: Header, trailers: bool, partial: bool,
                               events: seq<CaptureBody.Event>)

  /** The proxy makes this Set for this exchange. */
  ghost predicate Produced(op: LruSpec.Store, x: Exchange, max: int) {
    && !x.trailers && !x.partial
    && Judge(x.origin, x.header).cacheable && op.ttl == Judge(x.origin, x.header).ttl
    && op.key == Key(x.origin.request)
    && op.response.status == x.origin.status && op.response.header == x.header
    && op.response.body in CaptureBody.Commits(x.events, max)
  }

  /** The client of this exchange read to the end of file, and this is all it got. */
  ghost predicate WholeBody(events: seq<CaptureBody.Event>, body: string) {
    exists n :: 0 <= n < |events| && ReadToEnd(events, n) && body == CaptureBody.Delivered(events[..n + 1])
  }

  ghost predicate ReadToEnd(events: seq<CaptureBody.Event>, n: nat)
    requires n < |events|
  {
    events[n].Chunk? && events[n].eof && forall i :: 0 <= i < n ==> !CaptureBody.Ends(events[i])
  }

  lemma {:induction false} FirstEnd(events: seq<CaptureBody.Event>) returns (n: nat)
    ensures n <= |events| && forall i :: 0 <= i < n ==> !CaptureBody.Ends(events[i])
    ensures n < |events| ==> CaptureBody.Ends(events[n])
  {
    n := 0;
    while n < |events| && !CaptureBody.Ends(events[n])
      invariant n <= |events| && forall i :: 0 <= i < n ==> !CaptureBody.Ends(events[i])
    {
      n := n + 1;
    }
  }

  lemma CommitsAreWhole(events: seq<CaptureBody.Event>, max: int, body: string)
    requires body in CaptureBody.Commits(events, max)
    ensures WholeBody(events, body) && CaptureBody.Commits(events, max) == [body]
  {
    var n := FirstEnd(events);
    if n == |events| {
      CaptureBody.CopyIsExact(events, max);
    } else {
      CaptureBody.CommitIsWholeBody(events, n, max);
      assert ReadToEnd(events, n);
    }
  }

  /** Everything in the cache was put there for one of these exchanges: judged when its
      header arrived, stored when its body had ended. */
  ghost predicate AllProduced(ops: seq<LruSpec.Op>, exchanges: set<Exchange>, max: int, now: int) {
    forall op :: LruSpec.SetOp(op) in ops ==>
      && op.storedAt <= op.now <= now
      && exists x :: x in exchanges && Produced(op, x, max) && x.origin.judged <= op.storedAt
  }

  /** A hit, looked up at one time and sent with an Age written at another, answers the
      request with a whole response to the same host and resource that the policy
      accepted. */
  ghost predicate Answers(op: LruSpec.Store, x: Exchange, q: Request, hit: LruSpec.Response, looked: int,
                          written: int) {
    && ToLower(x.origin.request.host) == ToLower(q.host) && x.origin.request.uri == q.uri
    && RequestEligible(x.origin.request).None? && Refusal(x.origin.status, x.header).None?
    && hit.status == x.origin.status == 200 && hit.header == x.header
    && WholeBody(x.events, hit.body)
    && Timely(op, x, hit, looked, written)
  }

  /** It is looked up before its lifetime, counted from the judgement, is over, or later by
      no more than the time from there to the Set; and it is fresh within those bounds. */
  ghost predicate Timely(op: LruSpec.Store, x: Exchange, hit: LruSpec.Response, looked: int, written: int) {
    && FreshWithin(op, x.origin, hit, looked, written)
    && looked < x.origin.judged + op.ttl + (op.now - x.origin.judged)
    && (AcceptedFrom(op, x.origin) ==>
          (CurrentAge(x.origin, x.header, looked) < Granted(x.origin, x.header) <==> looked < x.origin.judged + op.ttl))
  }

  lemma ProducedAnswers(op: LruSpec.Store, x: Exchange, max: int, q: Request, hit: LruSpec.Response, looked: int,
                        written: int)
    requires Produced(op, x, max) && op.key == Key(q) && NUL !in q.host && NUL !in x.origin.request.host
    requires hit == op.response.(stored := op.storedAt)
    requires x.origin.judged <= op.storedAt <= op.now && InLife(op, looked) && looked <= written
    ensures Answers(op, x, q, hit, looked, written)
  {
    KeyIdentifies(q, x.origin.request);
    CommitsAreWhole(x.events, max, hit.body);
    AcceptedMeans(x);
    ProducedTimely(op, x, max, hit, looked, written);
  }

  lemma ProducedTimely(op: LruSpec.Store, x: Exchange, max: int, hit: LruSpec.Response, looked: int, written: int)
    requires Produced(op, x, max) && hit == op.response.(stored := op.storedAt)
    requires x.origin.judged <= op.storedAt <= op.now && InLife(op, looked) && looked <= written
    ensures Timely(op, x, hit, looked, written)
  {
    ProducedJudged(op, x, max);
    HitFresh(op, x.origin, looked, written);
    if AcceptedFrom(op, x.origin) {
      CurrentAtHit(op, x.origin, looked);
    }
  }

  lemma AcceptedMeans(x: Exchange)
    requires Judge(x.origin, x.header).cacheable
    ensures RequestEligible(x.origin.request).None? && Refusal(x.origin.status, x.header).None?
            && x.origin.status == 200
  {
  }

  lemma ProducedJudged(op: LruSpec.Store, x: Exchange, max: int)
    requires Produced(op, x, max)
    ensures JudgedFrom(op, x.origin)
  {
    assert Judge(x.origin, x.header).reason == Cacheable;
  }

  /** The main theorem, over any run of the cache. */
  lemma EveryHitAnswers(ops: seq<LruSpec.Op>, b: LruSpec.Bounds, exchanges: set<Exchange>, max: int,
                        q: Request, looked: int, written: int)
    requires AllProduced(ops, exchanges, max, looked) && looked <= written
    requires NUL !in q.host && forall x :: x in exchanges ==> NUL !in x.origin.request.host
    ensures match LruSpec.Get(LruSpec.Run(ops, b), Key(q), looked).hit
            case None => true
            case Some(hit) =>
              exists op, x :: LruSpec.SetOp(op) in ops && x in exchanges && Answers(op, x, q, hit, looked, written)
  {
    var found := LruSpec.Get(LruSpec.Run(ops, b), Key(q), looked).hit;
    if found.Some? {
      LruSpec.HitIsLastAccepted(ops, b, Key(q), looked);
      LruSpec.LastAcceptedFacts(ops, Key(q), b);
      var last := LruSpec.LastAccepted(ops, Key(q), b).value;
      var x :| x in exchanges && Produced(last, x, max) && x.origin.judged <= last.storedAt;
      ProducedAnswers(last, x, max, q, found.value, looked, written);
    }
  }

  // ---------- a body that takes its time ----------

  /** An exchange judged at time zero whose empty body ends five seconds later. */
  function Slow(header: Header, untilExpires: Option<int>): Exchange {
    Exchange(Origin(Simple(), 200, Int64.SECOND, untilExpires, 0), header, false, false,
             [CaptureBody.Chunk("", true, true)])
  }

  /** The Set it leads to. */
  function SlowStore(header: Header): LruSpec.Store {
    var now := 5 * Int64.SECOND;
    LruSpec.Store(Key(Simple()), LruSpec.Response(200, header, "", 0), Int64.SECOND, now, now)
  }

  /** With max-age=1 a response that is five seconds old is served, as being of age zero. */
  lemma SlowBodyPastMaxAge(b: LruSpec.Bounds, max: int)
    requires b.entries >= 1 && LruSpec.Accepted(SlowStore(Limited(1)), b)
    ensures var op, x, now := SlowStore(Limited(1)), Slow(Limited(1), None), 5 * Int64.SECOND;
            var hit := op.response.(stored := now);
            && Produced(op, x, max)
            && LruSpec.Get(LruSpec.Run([LruSpec.SetOp(op)], b), op.key, now).hit == Some(hit)
            && ExplicitSeconds(x.header) == Some(1) && AgeServed(hit, now) == 0
            && CurrentAge(x.origin, x.header, now) == 5 * Int64.SECOND
  {
    var op := SlowStore(Limited(1));
    LimitedMeans(1, None);
    SlowProduced(Limited(1), None, max);
    OnlyStore(op, b, op.now);
    assert TrimSpace("") == "";
  }

  /** With Expires one second ahead, a response is served four seconds after it. */
  lemma SlowBodyPastExpires(date: string, b: LruSpec.Bounds, max: int)
    requires b.entries >= 1 && LruSpec.Accepted(SlowStore(Dated(date, 0)), b)
    ensures var op, x, now := SlowStore(Dated(date, 0)), Slow(Dated(date, 0), Some(Int64.SECOND)), 5 * Int64.SECOND;
            && Produced(op, x, max)
            && LifetimeOf(x.header, x.origin.untilExpires) == Until(Int64.SECOND)
            && x.origin.judged + Int64.SECOND < now
            && LruSpec.Get(LruSpec.Run([LruSpec.SetOp(op)], b), op.key, now).hit == Some(op.response.(stored := now))
  {
    var op := SlowStore(Dated(date, 0));
    DatedMeans(date, 0, Int64.SECOND);
    SlowProduced(Dated(date, 0), Some(Int64.SECOND), max);
    OnlyStore(op, b, op.now);
  }

  // ---------- an Age that is written late ----------

  /** With max-age=1 and no delay at all, a hit just before the expiry can be sent with an
      Age of one second. */
  lemma LateAgeReachesLifetime(b: LruSpec.Bounds)
    requires b.entries >= 1 && LruSpec.Accepted(PromptStore(), b)
    ensures var op, o := PromptStore(), Origin(Simple(), 200, Int64.SECOND, None, 0);
            var hit := op.response.(stored := 0);
            && StoredFrom(op, o) && o.judged == op.storedAt == op.now
            && LruSpec.Get(LruSpec.Run([LruSpec.SetOp(op)], b), op.key, Int64.SECOND - 1).hit == Some(hit)
            && AgeServed(hit, Int64.SECOND) == 1 == ExplicitSeconds(hit.header).value
  {
    var op, o := PromptStore(), Origin(Simple(), 200, Int64.SECOND, None, 0);
    LimitedMeans(1, None);
    EmptyRequestEligible();
    JudgedForASecond(o, Limited(1));
    OnlyStore(op, b, Int64.SECOND - 1);
    AgeServedValue(op.response, Int64.SECOND);
  }

  function PromptStore(): LruSpec.Store {
    LruSpec.Store(Key(Simple()), LruSpec.Response(200, Limited(1), "", 0), Int64.SECOND, 0, 0)
  }

  /** A second cache whose body ends a while after the hit keeps it that much longer than
      the first one did, however long that is. */
  lemma ChainOutlivesFirst(delay: nat)
    ensures var op, o := PromptStore(), Origin(Simple(), 200, Int64.SECOND, None, 0);
            var header := ServedHeader(op.response.(stored := 0), 0);
            var next := LruSpec.Store(op.key, LruSpec.Response(200, header, "", 0), Int64.SECOND, delay, delay);
            && StoredFrom(op, o) && JudgedFrom(next, o)
            && next.now + next.ttl == op.now + op.ttl + delay
  {
    var op, o := PromptStore(), Origin(Simple(), 200, Int64.SECOND, None, 0);
    LimitedMeans(1, None);
    EmptyRequestEligible();
    JudgedForASecond(o, Limited(1));
    var header := ServedHeader(op.response.(stored := 0), 0);
    AgeServedValue(op.response, 0);
    AgeRoundTrip(op.response, 0);
    LifetimeIgnoresAge(Limited(1), header);
    ExplicitIsExplicit(header, None);
    RefusalIgnoresAge(Limited(1), header, 200);
    JudgedForASecond(o, header);
  }

  lemma SlowProduced(header: Header, untilExpires: Option<int>, max: int)
    requires Refusal(200, header).None? && AgeOf(header) == Some(0)
    requires LifetimeOf(header, untilExpires) == Explicit(1) || LifetimeOf(header, untilExpires) == Until(Int64.SECOND)
    ensures Produced(SlowStore(header), Slow(header, untilExpires), max)
  {
    EmptyRequestEligible();
    EmptyBodyCommitted(max);
    JudgedForASecond(Slow(header, untilExpires).origin, header);
  }

  lemma JudgedForASecond(o: Origin, header: Header)
    requires RequestEligible(o.request).None? && Refusal(o.status, header).None? && AgeOf(header) == Some(0)
    requires LifetimeOf(header, o.untilExpires) == Explicit(1)
            || LifetimeOf(header, o.untilExpires) == Until(Int64.SECOND)
    ensures Judge(o, header) == Decision(true, Int64.SECOND, Cacheable)
  {
    NothingRefused(o.request, o.status, header, o.defaultTtl, o.untilExpires);
    SecondRemains(LifetimeOf(header, o.untilExpires), o.defaultTtl);
  }

  lemma SecondRemains(lifetime: Lifetime, defaultTtl: int)
    requires lifetime == Explicit(1) || lifetime == Until(Int64.SECOND)
    ensures Remaining(lifetime, Some(0), defaultTtl) == Decision(true, Int64.SECOND, Cacheable)
  {
  }

  lemma EmptyBodyCommitted(max: int)
    ensures CaptureBody.Commits([CaptureBody.Chunk("", true, true)], max) == [""]
  {
    var e := CaptureBody.Chunk("", true, true);
    assert [e][..0] == [];
    assert CaptureBody.Commit(CaptureBody.Run([], max), e, max) == Some("");
  }

  lemma OnlyStore(op: LruSpec.Store, b: LruSpec.Bounds, now: int)
    requires b.entries >= 1 && LruSpec.Accepted(op, b) && now < op.now + op.ttl
    ensures LruSpec.Get(LruSpec.Run([LruSpec.SetOp(op)], b), op.key, now).hit
            == Some(op.response.(stored := op.storedAt))
  {
    var s := [LruSpec.EntryOf(op)];
    assert [LruSpec.SetOp(op)][..0] == [] && s + LruSpec.Without([], op.key) == s;
    LruSpec.TrimKeepsNewest(s, b);
    LruSpec.TrimIsLongestPrefix(s, b);
  }
}

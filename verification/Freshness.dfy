/**
 Freshness end to end: the storage policy, the cache, and the Age header that
 internal/proxy/handler.go writes on every hit (sections 4.2 and 5.1 of RFC 9111).
 */
module Freshness {
  import opened Common
  import opened Text
  import Int64
  import LruSpec
  import opened Policy

  /** time.Since: a difference of clock readings saturates at 64 bits. */
  function Since(stored: int, now: int): int {
    if now - stored > Int64.MAX then Int64.MAX
    else if now - stored < Int64.MIN then Int64.MIN
    else now - stored
  }

  /** The difference, or the nearest one that 64 bits can hold. */
  lemma SinceSaturates(stored: int, now: int)
    ensures Int64.InRange(Since(stored, now))
    ensures Int64.InRange(now - stored) ==> Since(stored, now) == now - stored
    ensures now - stored > Int64.MAX ==> Since(stored, now) == Int64.MAX
    ensures now - stored < Int64.MIN ==> Since(stored, now) == Int64.MIN
  {
  }

  /** The Age value of writeCached: whole seconds in this cache plus the age on arrival. */
  function AgeServed(response: LruSpec.Response, now: int): (age: nat)
    ensures age <= Int64.MAX
  {
    var elapsed := Int64.Quotient(Since(response.stored, now), Int64.SECOND);
    var here := if elapsed < 0 then 0 else elapsed;
    match ParseInt(TrimSpace(First(response.header, Age)))
    case Some(initial) => if initial > 0 && initial <= Int64.MAX - here then here + initial else here
    case None => here
  }

  /** The Age in full: the whole seconds since the response was stored, none if the clock
      stands before that, and the age on arrival if that is a number that still fits. */
  lemma AgeServedMeans(response: LruSpec.Response, now: int)
    ensures var here := (if now <= response.stored then 0
                         else if now - response.stored > Int64.MAX then Int64.MAX
                         else now - response.stored) / Int64.SECOND;
            var initial := ParseInt(TrimSpace(First(response.header, Age)));
            AgeServed(response, now)
            == if initial.Some? && 0 <= initial.value <= Int64.MAX - here then here + initial.value else here
  {
  }

  /** The header of a hit. */
  function ServedHeader(response: LruSpec.Response, now: int): Header {
    response.header[Age := [FormatNat(AgeServed(response, now))]]
  }

  /** What accompanied a response when the policy judged it, and the time it did: when
      the header had arrived, and not yet the body. */
  datatype Origin = Origin(request: Request, status: int, defaultTtl: int, untilExpires: Option<int>, judged: int)

  function Judge(o: Origin, header: Header): Decision {
    Evaluate(o.request, o.status, header, o.defaultTtl, o.untilExpires)
  }

  /** The lifetime stated by s-maxage or max-age, in seconds. */
  function ExplicitSeconds(header: Header): Option<int> {
    match LifetimeOf(header, None)
    case Explicit(seconds) => Some(seconds)
    case _ => None
  }

  /** This Set stores what the policy accepted, through s-maxage or max-age. */
  ghost predicate StoredFrom(op: LruSpec.Store, o: Origin) {
    && ExplicitSeconds(op.response.header).Some?
    && Judge(o, op.response.header) == Decision(true, op.ttl, Cacheable)
  }

  lemma ExplicitIsExplicit(header: Header, untilExpires: Option<int>)
    requires ExplicitSeconds(header).Some?
    ensures LifetimeOf(header, untilExpires) == Explicit(ExplicitSeconds(header).value)
  {
  }

  /** A header with an explicit lifetime is accepted for the time its age leaves. */
  lemma JudgeExplicit(o: Origin, header: Header)
    requires ExplicitSeconds(header).Some?
    ensures var seconds := ExplicitSeconds(header).value;
            && SecondsFit(seconds)
            && (Judge(o, header).cacheable <==>
                  && RequestEligible(o.request).None? && Refusal(o.status, header).None?
                  && AgeOf(header).Some? && AgeOf(header).value < seconds)
            && (Judge(o, header).cacheable ==>
                  && AgeOf(header).value >= 0
                  && Judge(o, header).ttl == (seconds - AgeOf(header).value) * Int64.SECOND)
  {
    ExplicitIsExplicit(header, o.untilExpires);
    ParsedSane(header, o.untilExpires);
    ExplicitLifetime(LifetimeOf(header, o.untilExpires), AgeOf(header), o.defaultTtl);
  }

  /** The Age of a hit, for a response that the policy accepted. */
  lemma AgeServedValue(response: LruSpec.Response, now: int)
    requires AgeOf(response.header).Some?
    requires 0 <= AgeOf(response.header).value && SecondsFit(AgeOf(response.header).value)
    requires response.stored <= now
    ensures AgeServed(response, now) == Since(response.stored, now) / Int64.SECOND + AgeOf(response.header).value
  {
    if !Present(response.header, Age) {
      assert TrimSpace("") == "";
    }
  }

  /** The times at which the cache may hit what this Set stored. */
  ghost predicate InLife(op: LruSpec.Store, t: int) {
    op.now <= t < op.now + op.ttl
  }

  /** The Age is read off the clock after the lookup has returned. */
  ghost predicate WrittenWithin(op: LruSpec.Store, looked: int, written: int, lag: int) {
    InLife(op, looked) && looked <= written <= looked + lag
  }

  /** The Age written at some time is below the stated lifetime exactly before the end
      of the life counted from Set's first clock reading. */
  lemma AgeBelowIff(op: LruSpec.Store, o: Origin, written: int)
    requires StoredFrom(op, o) && op.storedAt <= written
    ensures AgeServed(op.response.(stored := op.storedAt), written) < ExplicitSeconds(op.response.header).value
            <==> written < op.storedAt + op.ttl
  {
    JudgeExplicit(o, op.response.header);
    AgeServedValue(op.response.(stored := op.storedAt), written);
  }

  /** The bound that holds however far apart the clock reads are: the two of Set, and
      those of the lookup and of the Age. */
  lemma AgeWithinGap(op: LruSpec.Store, o: Origin, looked: int, written: int)
    requires StoredFrom(op, o) && op.storedAt <= op.now && InLife(op, looked) && looked <= written
    ensures AgeServed(op.response.(stored := op.storedAt), written) * Int64.SECOND
            < ExplicitSeconds(op.response.header).value * Int64.SECOND + (op.now - op.storedAt) + (written - looked)
  {
    JudgeExplicit(o, op.response.header);
    AgeServedValue(op.response.(stored := op.storedAt), written);
  }

  /** Over the whole life of a stored response the Age it is served with stays below its
      lifetime, exactly when Set's two clock reads coincide and the Age is written the
      moment the lookup decides. */
  lemma FreshIffClocksCoincide(op: LruSpec.Store, o: Origin, lag: nat)
    requires StoredFrom(op, o) && op.storedAt <= op.now
    ensures (forall looked, written :: WrittenWithin(op, looked, written, lag) ==>
               AgeServed(op.response.(stored := op.storedAt), written) < ExplicitSeconds(op.response.header).value)
            <==> op.storedAt == op.now && lag == 0
  {
    var response := op.response.(stored := op.storedAt);
    JudgeExplicit(o, op.response.header);
    forall looked, written | WrittenWithin(op, looked, written, lag)
      ensures AgeServed(response, written) < ExplicitSeconds(op.response.header).value
              <==> written < op.storedAt + op.ttl
    {
      AgeBelowIff(op, o, written);
    }
    var last := op.now + op.ttl - 1;
    assert WrittenWithin(op, last, last + lag, lag);
  }

  // ---------- counted from the judgement ----------

  /** The lifetime that the policy started from. */
  function Granted(o: Origin, header: Header): int {
    match LifetimeOf(header, o.untilExpires)
    case Explicit(seconds) => seconds * Int64.SECOND
    case Until(nanos) => nanos
    case Default => o.defaultTtl
    case Bad(_) => 0
  }

  /** The age on arrival and the time since then (section 4.2.3 of RFC 9111). */
  function CurrentAge(o: Origin, header: Header, t: int): int {
    (match AgeOf(header) case Some(age) => age * Int64.SECOND case None => 0) + (t - o.judged)
  }

  /** The policy accepted what this Set stores; the only range condition is the one of
      ExpiresLifetime. */
  ghost predicate AcceptedFrom(op: LruSpec.Store, o: Origin) {
    && Judge(o, op.response.header) == Decision(true, op.ttl, Cacheable)
    && 0 < o.defaultTtl <= Int64.MAX && (o.untilExpires.Some? ==> Int64.InRange(o.untilExpires.value))
    && Granted(o, op.response.header) - CurrentAge(o, op.response.header, o.judged) >= Int64.MIN
  }

  lemma AcceptedTtl(op: LruSpec.Store, o: Origin)
    requires AcceptedFrom(op, o)
    ensures AgeOf(op.response.header).Some? && AgeOf(op.response.header).value >= 0
    ensures op.ttl == Granted(o, op.response.header) - CurrentAge(o, op.response.header, o.judged) > 0
  {
    var header := op.response.header;
    var lifetime := LifetimeOf(header, o.untilExpires);
    ParsedSane(header, o.untilExpires);
    match lifetime
    case Explicit(_) => ExplicitLifetime(lifetime, AgeOf(header), o.defaultTtl);
    case Default => DefaultLifetime(lifetime, AgeOf(header), o.defaultTtl);
    case Until(_) => ExpiresLifetime(lifetime, AgeOf(header), o.defaultTtl);
    case Bad(_) =>
  }

  /** A hit at t is current exactly before the end of the lifetime counted from the
      judgement, and the cache serves it longer by the time the body took. */
  lemma CurrentAtHit(op: LruSpec.Store, o: Origin, t: int)
    requires AcceptedFrom(op, o)
    ensures CurrentAge(o, op.response.header, t) < Granted(o, op.response.header) <==> t < o.judged + op.ttl
    ensures t < op.now + op.ttl <==>
              CurrentAge(o, op.response.header, t) < Granted(o, op.response.header) + (op.now - o.judged)
  {
    AcceptedTtl(op, o);
  }

  /** A stored response is current over its whole life in the cache exactly when no time
      passes between the judgement and the Set: when the body took no time. */
  lemma CurrentIffNoDelay(op: LruSpec.Store, o: Origin)
    requires AcceptedFrom(op, o) && o.judged <= op.now
    ensures (forall t :: InLife(op, t) ==> CurrentAge(o, op.response.header, t) < Granted(o, op.response.header))
            <==> op.now == o.judged
  {
    AcceptedTtl(op, o);
    forall t ensures CurrentAge(o, op.response.header, t) < Granted(o, op.response.header) <==> t < o.judged + op.ttl {
      CurrentAtHit(op, o, t);
    }
    var last := op.now + op.ttl - 1;
    assert InLife(op, last);
    assert o.judged < op.now ==> !(CurrentAge(o, op.response.header, last) < Granted(o, op.response.header));
  }

  /** With Expires, every hit comes before that instant exactly when the body took no
      longer than the age on arrival.  The last term is zero unless the instant lies
      beyond what a 64-bit duration reaches. */
  lemma ExpiresIffDelayWithinAge(op: LruSpec.Store, o: Origin, expires: int)
    requires AcceptedFrom(op, o) && o.judged <= op.now
    requires LifetimeOf(op.response.header, o.untilExpires).Until? && o.untilExpires == Some(Since(o.judged, expires))
    ensures (forall t :: InLife(op, t) ==> t < expires)
            <==> op.now - o.judged
                 <= CurrentAge(o, op.response.header, o.judged) + (expires - o.judged - Since(o.judged, expires))
  {
    AcceptedTtl(op, o);
    var last := op.now + op.ttl - 1;
    assert InLife(op, last);
  }

  /** The Age that is written tells the current age, to the second, less the delay. */
  lemma AgeOmitsDelay(op: LruSpec.Store, o: Origin, t: int)
    requires StoredFrom(op, o) && op.storedAt <= t <= op.storedAt + Int64.MAX
    ensures var written := AgeServed(op.response.(stored := op.storedAt), t) * Int64.SECOND;
            written <= CurrentAge(o, op.response.header, t) - (op.storedAt - o.judged) < written + Int64.SECOND
  {
    JudgeExplicit(o, op.response.header);
    AgeServedValue(op.response.(stored := op.storedAt), t);
  }

  // ---------- every hit ----------

  /** What this Set stores was judged at this origin, whatever its lifetime comes from. */
  ghost predicate JudgedFrom(op: LruSpec.Store, o: Origin) {
    Judge(o, op.response.header) == Decision(true, op.ttl, Cacheable)
  }

  /** Every response put into the cache was accepted from one of these origins. */
  ghost predicate AllFromUpstream(ops: seq<LruSpec.Op>, origins: set<Origin>, now: int) {
    forall op :: LruSpec.SetOp(op) in ops ==>
      op.storedAt <= op.now <= now && exists o :: o in origins && JudgedFrom(op, o) && o.judged <= op.storedAt
  }

  /** Where a hit comes from, and how fresh it is when its Age is written.  But for the
      delay of the body and the time from the lookup to the Age, the current age is below
      the granted lifetime; but for that time and the gap between the clock reads of Set,
      the Age is below the stated lifetime. */
  ghost predicate FreshWithin(op: LruSpec.Store, o: Origin, hit: LruSpec.Response, looked: int, written: int) {
    && JudgedFrom(op, o) && hit == op.response.(stored := op.storedAt)
    && o.judged <= op.storedAt <= op.now <= looked <= written
    && (AcceptedFrom(op, o) ==>
          CurrentAge(o, hit.header, written) < Granted(o, hit.header) + (op.now - o.judged) + (written - looked))
    && (ExplicitSeconds(hit.header).Some? ==>
          AgeServed(hit, written) * Int64.SECOND
          < ExplicitSeconds(hit.header).value * Int64.SECOND + (op.now - op.storedAt) + (written - looked))
  }

  /** After any run of the cache. */
  lemma EveryHitIsFresh(ops: seq<LruSpec.Op>, b: LruSpec.Bounds, origins: set<Origin>, key: string, looked: int,
                        written: int)
    requires AllFromUpstream(ops, origins, looked) && looked <= written
    ensures match LruSpec.Get(LruSpec.Run(ops, b), key, looked).hit
            case None => true
            case Some(hit) =>
              exists op, o ::
                LruSpec.SetOp(op) in ops && op.key == key && o in origins && FreshWithin(op, o, hit, looked, written)
  {
    var found := LruSpec.Get(LruSpec.Run(ops, b), key, looked).hit;
    if found.Some? {
      LruSpec.HitIsLastAccepted(ops, b, key, looked);
      LruSpec.LastAcceptedFacts(ops, key, b);
      var last := LruSpec.LastAccepted(ops, key, b).value;
      var o: Origin :| o in origins && JudgedFrom(last, o) && o.judged <= last.storedAt;
      HitFresh(last, o, looked, written);
      assert FreshWithin(last, o, found.value, looked, written);
    }
  }

  lemma HitFresh(op: LruSpec.Store, o: Origin, looked: int, written: int)
    requires JudgedFrom(op, o) && o.judged <= op.storedAt <= op.now && InLife(op, looked) && looked <= written
    ensures FreshWithin(op, o, op.response.(stored := op.storedAt), looked, written)
  {
    if AcceptedFrom(op, o) {
      CurrentAtHit(op, o, looked);
    }
    if ExplicitSeconds(op.response.header).Some? {
      AgeWithinGap(op, o, looked, written);
    }
  }

  // ---------- a chain of two caches ----------

  /** The Age a hit is served with is the age a second cache reads, if it fits. */
  lemma AgeRoundTrip(response: LruSpec.Response, now: int)
    ensures AgeOf(ServedHeader(response, now))
         == if SecondsFit(AgeServed(response, now)) then Some(AgeServed(response, now)) else None
  {
    FormatParse(AgeServed(response, now));
  }

  /** A second cache behind the first accepts a hit exactly if its Age, written at t, is
      below the lifetime, and then for the time that is left by that Age, to the second. */
  lemma ServedHeaderJudged(op: LruSpec.Store, o: Origin, t: int, second: Origin)
    requires StoredFrom(op, o) && op.storedAt <= t
    requires RequestEligible(second.request).None? && second.status == o.status
    ensures var decision := Judge(second, ServedHeader(op.response.(stored := op.storedAt), t));
            && (decision.cacheable <==> t < op.storedAt + op.ttl)
            && (decision.cacheable ==> op.storedAt + op.ttl <= t + decision.ttl < op.storedAt + op.ttl + Int64.SECOND)
  {
    var response := op.response.(stored := op.storedAt);
    var header := ServedHeader(response, t);
    ServedHeaderAccepted(response, o, t, second);
    JudgeExplicit(o, response.header);
    AgeBelowIff(op, o, t);
    AgeServedValue(response, t);
  }

  lemma ServedHeaderAccepted(response: LruSpec.Response, o: Origin, t: int, second: Origin)
    requires ExplicitSeconds(response.header).Some? && Judge(o, response.header).cacheable
    requires RequestEligible(second.request).None? && second.status == o.status
    ensures var decision, left := Judge(second, ServedHeader(response, t)),
                                  ExplicitSeconds(response.header).value - AgeServed(response, t);
            (decision.cacheable <==> left > 0) && (decision.cacheable ==> decision.ttl == left * Int64.SECOND)
  {
    var header := ServedHeader(response, t);
    LifetimeIgnoresAge(response.header, header);
    RefusalIgnoresAge(response.header, header, o.status);
    JudgeExplicit(o, response.header);
    JudgeExplicit(second, header);
    AgeRoundTrip(response, t);
  }

  /** The second cache counts from its own Set, which comes with the end of the body: its
      life of the response ends later than the first one's by the time since the Age was
      written, less than a second, and no more, but for the gap of Set's clock reads. */
  lemma ChainedCaches(op: LruSpec.Store, o: Origin, t: int, second: Origin, next: LruSpec.Store)
    requires StoredFrom(op, o) && op.storedAt <= op.now && op.storedAt <= t <= second.judged <= next.now
    requires RequestEligible(second.request).None? && second.status == o.status
    requires next.response.header == ServedHeader(op.response.(stored := op.storedAt), t) && JudgedFrom(next, second)
    ensures var late := (next.now + next.ttl) - (op.now + op.ttl);
            (next.now - t) - (op.now - op.storedAt) <= late < (next.now - t) - (op.now - op.storedAt) + Int64.SECOND
  {
    ServedHeaderJudged(op, o, t, second);
  }

  ghost predicate OnlyAgeChanged(header: Header, served: Header) {
    forall f :: f != Age ==> Lines(header, f) == Lines(served, f)
  }

  lemma LifetimeIgnoresAge(header: Header, served: Header)
    requires OnlyAgeChanged(header, served)
    ensures ExplicitSeconds(served) == ExplicitSeconds(header)
  {
    assert CacheControlValue(served) == CacheControlValue(header);
  }

  lemma RefusalIgnoresAge(header: Header, served: Header, status: int)
    requires OnlyAgeChanged(header, served)
    ensures Refusal(status, served) == Refusal(status, header)
  {
    assert CacheControlValue(served) == CacheControlValue(header);
  }
}

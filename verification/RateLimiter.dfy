/**
 The fixed-window admission of internal/proxy/ratelimit.go, with its lazily
 pruned, bounded key table.  Times are nanoseconds; calls carry, in lock order,
 nondecreasing times.
 */
module RateLimiter {
  import Int64

  datatype Bucket = Bucket(start: int, count: int)

  type Table = map<string, Bucket>

  datatype Config = Config(limit: int, window: int, maxKeys: nat)

  datatype Answer = Answer(allowed: bool, retry: int)

  datatype Outcome = Outcome(table: Table, answer: Answer)

  const DEFAULT_MAX_KEYS: nat := 10000

  /** The largest bound that validation accepts. */
  const MAX_KEYS: nat := 1_000_000

  /** newRateLimiter: a zero key bound selects the default. */
  function Configured(requests: int, window: int, maxKeys: nat): Config {
    Config(requests, window, if maxKeys == 0 then DEFAULT_MAX_KEYS else maxKeys)
  }

  // ---------- one decision ----------

  function Prune(table: Table, window: int, now: int): Table {
    map key | key in table && now - table[key].start < window :: table[key]
  }

  /** What happens to a key that has a bucket. */
  function Count(c: Config, table: Table, key: string, now: int): Outcome
    requires key in table
  {
    var bucket := table[key];
    if now - bucket.start < c.window then
      if bucket.count >= c.limit then Outcome(table, Answer(false, bucket.start + c.window - now))
      else Outcome(table[key := bucket.(count := bucket.count + 1)], Answer(true, 0))
    else Outcome(table[key := Bucket(now, 1)], Answer(true, 0))
  }

  function Decide(c: Config, table: Table, key: string, now: int): Outcome {
    if key in table then Count(c, table, key, now)
    else
      var room := if |table| >= c.maxKeys then Prune(table, c.window, now) else table;
      if |room| >= c.maxKeys then Outcome(room, Answer(false, Int64.SECOND))
      else Outcome(room[key := Bucket(now, 1)], Answer(true, 0))
  }

  /** The call finds no bucket for its key and no room for one, even after pruning. */
  predicate TableFull(c: Config, table: Table, key: string, now: int) {
    key !in table && |table| >= c.maxKeys && |Prune(table, c.window, now)| >= c.maxKeys
  }

  class Limiter {
    const config: Config
    var buckets: Table

    constructor (requests: int, window: int, maxKeys: nat)
      ensures config == Configured(requests, window, maxKeys) && buckets == map[]
      ensures config.limit == requests && config.window == window
      ensures config.maxKeys == if maxKeys == 0 then 10_000 else maxKeys
      ensures maxKeys <= MAX_KEYS ==> 1 <= config.maxKeys <= MAX_KEYS
    {
      config := Configured(requests, window, maxKeys);
      buckets := map[];
    }

    method Allow(key: string, now: int) returns (allowed: bool, retry: int)
      modifies this
      ensures Outcome(buckets, Answer(allowed, retry)) == Decide(config, old(buckets), key, now)
      ensures |old(buckets)| <= config.maxKeys ==> |buckets| <= config.maxKeys
    {
      if key in buckets {
        var bucket := buckets[key];
        assert |buckets[key := bucket]| == |buckets| by { assert buckets[key := bucket] == buckets; }
        if now - bucket.start < config.window {
          if bucket.count >= config.limit {
            return false, bucket.start + config.window - now;
          }
          bucket := bucket.(count := bucket.count + 1);
          buckets := buckets[key := bucket];
          return true, 0;
        }
        buckets := buckets[key := Bucket(now, 1)];
        return true, 0;
      }
      if |buckets| >= config.maxKeys {
        PruneExpired(now);
        if |buckets| >= config.maxKeys {
          return false, Int64.SECOND;
        }
      }
      buckets := buckets[key := Bucket(now, 1)];
      return true, 0;
    }

    method PruneExpired(now: int)
      modifies this
      ensures buckets == Prune(old(buckets), config.window, now)
      ensures |buckets| <= |old(buckets)|
    {
      var keys := buckets.Keys;
      while keys != {}
        invariant keys <= old(buckets).Keys
        invariant buckets.Keys <= old(buckets).Keys
        invariant forall k :: k in buckets ==> buckets[k] == old(buckets)[k]
        invariant forall k :: k in old(buckets) && k !in keys ==>
                    (k in buckets <==> now - old(buckets)[k].start < config.window)
        invariant forall k :: k in keys ==> k in buckets
        decreases keys
      {
        var key :| key in keys;
        if now - buckets[key].start >= config.window {
          buckets := buckets - {key};
        }
        keys := keys - {key};
      }
      SubsetSize(buckets.Keys, old(buckets).Keys);
      assert |buckets| == |buckets.Keys| && |old(buckets)| == |old(buckets).Keys|;
    }
  }

  lemma SubsetSize<T>(a: set<T>, b: set<T>)
    requires a <= b
    ensures |a| <= |b|
  {
    assert b == a + (b - a);
  }

  // ---------- traces ----------

  datatype Call = Call(key: string, now: int)

  ghost predicate Ordered(calls: seq<Call>) {
    forall i, j :: 0 <= i < j < |calls| ==> calls[i].now <= calls[j].now
  }

  function Run(c: Config, calls: seq<Call>): Table {
    if calls == [] then map[]
    else
      var last := calls[|calls| - 1];
      Decide(c, Run(c, calls[..|calls| - 1]), last.key, last.now).table
  }

  function AnswerAt(c: Config, calls: seq<Call>, i: nat): Answer
    requires i < |calls|
  {
    Decide(c, Run(c, calls[..i]), calls[i].key, calls[i].now).answer
  }

  /** How many calls for this key were admitted at times in lo .. hi. */
  function Admitted(c: Config, calls: seq<Call>, key: string, lo: int, hi: int): nat {
    if calls == [] then 0
    else
      var before, last := calls[..|calls| - 1], calls[|calls| - 1];
      Admitted(c, before, key, lo, hi) +
      if last.key == key && lo <= last.now < hi && Decide(c, Run(c, before), last.key, last.now).answer.allowed
      then 1 else 0
  }

  // ---------- the interval bound ----------

  /** A window's worth of calls is bounded by what the live bucket still accounts for. */
  ghost predicate Accounted(c: Config, table: Table, key: string, lo: int, admitted: nat) {
    var most := if c.limit >= 1 then c.limit else 1;
    if key !in table then admitted <= most - 1
    else
      && 1 <= table[key].count <= most
      && admitted <= table[key].count + if table[key].start >= lo then most - 1 else -1
  }

  lemma AccountedStep(c: Config, table: Table, call: Call, key: string, lo: int, admitted: nat)
    requires c.window > 0 && call.now < lo + c.window
    requires Accounted(c, table, key, lo, admitted) && (call.now < lo ==> admitted == 0)
    ensures var o := Decide(c, table, call.key, call.now);
            Accounted(c, o.table, key, lo,
                      admitted + if call.key == key && lo <= call.now && o.answer.allowed then 1 else 0)
  {
  }

  lemma {:induction false} NoneBefore(c: Config, calls: seq<Call>, key: string, lo: int, hi: int)
    requires forall i :: 0 <= i < |calls| ==> calls[i].now < lo
    ensures Admitted(c, calls, key, lo, hi) == 0
  {
    if calls != [] {
      NoneBefore(c, calls[..|calls| - 1], key, lo, hi);
    }
  }

  lemma {:induction false} AccountedRun(c: Config, calls: seq<Call>, key: string, lo: int)
    requires c.window > 0 && Ordered(calls)
    requires forall i :: 0 <= i < |calls| ==> calls[i].now < lo + c.window
    ensures Accounted(c, Run(c, calls), key, lo, Admitted(c, calls, key, lo, lo + c.window))
  {
    if calls != [] {
      var before, last := calls[..|calls| - 1], calls[|calls| - 1];
      AccountedRun(c, before, key, lo);
      if last.now < lo {
        NoneBefore(c, before, key, lo, lo + c.window);
      }
      AccountedStep(c, Run(c, before), last, key, lo, Admitted(c, before, key, lo, lo + c.window));
    }
  }

  /** In any interval one window long, one key is admitted fewer than twice its limit. */
  lemma {:induction false} IntervalBound(c: Config, calls: seq<Call>, key: string, lo: int)
    requires c.window > 0 && c.limit >= 1 && Ordered(calls)
    ensures Admitted(c, calls, key, lo, lo + c.window) <= 2 * c.limit - 1
  {
    if calls != [] && calls[|calls| - 1].now >= lo + c.window {
      IntervalBound(c, calls[..|calls| - 1], key, lo);
    } else {
      AccountedRun(c, calls, key, lo);
    }
  }

  /** The bound is attained: one early call, then the rest of the first bucket just
      before it expires, then a whole second bucket. */
  function Burst(limit: nat, window: int, n: nat): seq<Call> {
    seq(n, i requires 0 <= i < n => Call("k", if i == 0 then 0 else if i < limit then window - 1 else window))
  }

  lemma BurstStep(c: Config, n: nat)
    requires c.limit >= 1 && c.window >= 2 && c.maxKeys >= 1 && 0 < n <= 2 * c.limit
    ensures var table: Table := if n == 1 then map[] else map["k" := BurstBucket(c, n - 1)];
            var now := if n == 1 then 0 else if n <= c.limit then c.window - 1 else c.window;
            Decide(c, table, "k", now) == Outcome(map["k" := BurstBucket(c, n)], Answer(true, 0))
  {
  }

  function BurstBucket(c: Config, n: nat): Bucket {
    if n <= c.limit then Bucket(0, n) else Bucket(c.window, n - c.limit)
  }

  lemma {:induction false} BurstAdmitted(c: Config, n: nat)
    requires c.limit >= 1 && c.window >= 2 && c.maxKeys >= 1 && n <= 2 * c.limit
    ensures Admitted(c, Burst(c.limit, c.window, n), "k", c.window - 1, 2 * c.window - 1) == if n == 0 then 0 else n - 1
    ensures n > 0 ==> Run(c, Burst(c.limit, c.window, n))
                      == map["k" := BurstBucket(c, n)]
  {
    if n > 0 {
      var calls := Burst(c.limit, c.window, n);
      assert calls[..n - 1] == Burst(c.limit, c.window, n - 1);
      BurstAdmitted(c, n - 1);
      BurstStep(c, n);
    }
  }

  /** For every limit there is an ordered trace that reaches the bound. */
  lemma IntervalBoundIsSharp(c: Config)
    requires c.limit >= 1 && c.window >= 2 && c.maxKeys >= 1
    ensures var calls, lo := Burst(c.limit, c.window, 2 * c.limit), c.window - 1;
            Ordered(calls) && Admitted(c, calls, "k", lo, lo + c.window) == 2 * c.limit - 1
  {
    BurstAdmitted(c, 2 * c.limit);
    assert c.window - 1 + c.window == 2 * c.window - 1;
  }

  // ---------- across reloads ----------

  /** A reload gives the route a new limiter, while requests that are still on an old
      snapshot go on using theirs: each limiter with the calls it receives. */
  datatype Generation = Generation(config: Config, calls: seq<Call>)

  ghost predicate Working(g: Generation, length: int) {
    g.config.window >= length > 0 && g.config.limit >= 1 && Ordered(g.calls)
  }

  /** Its first call does not come before this time. */
  ghost predicate StartsAt(g: Generation, lo: int) {
    forall i :: 0 <= i < |g.calls| ==> lo <= g.calls[i].now
  }

  function AdmittedByAll(generations: seq<Generation>, key: string, lo: int, hi: int): nat {
    if generations == [] then 0
    else
      var last := generations[|generations| - 1];
      AdmittedByAll(generations[..|generations| - 1], key, lo, hi) + Admitted(last.config, last.calls, key, lo, hi)
  }

  lemma {:induction false} AdmittedMonotone(c: Config, calls: seq<Call>, key: string, lo: int, hi: int, later: int)
    requires hi <= later
    ensures Admitted(c, calls, key, lo, hi) <= Admitted(c, calls, key, lo, later)
  {
    if calls != [] {
      AdmittedMonotone(c, calls[..|calls| - 1], key, lo, hi, later);
    }
  }

  /** A limiter that starts inside the interval has one bucket for the key in it. */
  ghost predicate OneBucket(c: Config, table: Table, key: string, lo: int, admitted: nat) {
    if key !in table then admitted == 0 else table[key].start >= lo && admitted <= table[key].count <= c.limit
  }

  lemma OneBucketStep(c: Config, table: Table, call: Call, key: string, lo: int, admitted: nat)
    requires c.limit >= 1 && lo <= call.now < lo + c.window && OneBucket(c, table, key, lo, admitted)
    ensures var o := Decide(c, table, call.key, call.now);
            OneBucket(c, o.table, key, lo,
                      admitted + if call.key == key && lo <= call.now && o.answer.allowed then 1 else 0)
  {
  }

  lemma {:induction false} OneBucketRun(c: Config, calls: seq<Call>, key: string, lo: int)
    requires c.limit >= 1 && forall i :: 0 <= i < |calls| ==> lo <= calls[i].now < lo + c.window
    ensures OneBucket(c, Run(c, calls), key, lo, Admitted(c, calls, key, lo, lo + c.window))
  {
    if calls != [] {
      var before, last := calls[..|calls| - 1], calls[|calls| - 1];
      OneBucketRun(c, before, key, lo);
      OneBucketStep(c, Run(c, before), last, key, lo, Admitted(c, before, key, lo, lo + c.window));
    }
  }

  lemma {:induction false} FreshBound(c: Config, calls: seq<Call>, key: string, lo: int)
    requires c.limit >= 1 && Ordered(calls) && forall i :: 0 <= i < |calls| ==> lo <= calls[i].now
    ensures Admitted(c, calls, key, lo, lo + c.window) <= c.limit
  {
    if calls != [] && calls[|calls| - 1].now >= lo + c.window {
      FreshBound(c, calls[..|calls| - 1], key, lo);
    } else {
      OneBucketRun(c, calls, key, lo);
    }
  }

  /** What one limiter may contribute to an interval that begins here. */
  ghost function Most(g: Generation, lo: int): int {
    if StartsAt(g, lo) then g.config.limit else 2 * g.config.limit - 1
  }

  ghost function MostOfAll(generations: seq<Generation>, lo: int): int {
    if generations == [] then 0
    else MostOfAll(generations[..|generations| - 1], lo) + Most(generations[|generations| - 1], lo)
  }

  /** In an interval no longer than any of the windows, all limiters of a route together
      admit a key at most twice the limit minus one for each that was in use before, and
      the limit for each that a reload brought in. */
  lemma {:induction false} BoundAcrossReloads(generations: seq<Generation>, key: string, lo: int, length: int)
    requires forall i :: 0 <= i < |generations| ==> Working(generations[i], length)
    ensures AdmittedByAll(generations, key, lo, lo + length) <= MostOfAll(generations, lo)
  {
    if generations != [] {
      var g := generations[|generations| - 1];
      BoundAcrossReloads(generations[..|generations| - 1], key, lo, length);
      AdmittedMonotone(g.config, g.calls, key, lo, lo + length, lo + g.config.window);
      IntervalBound(g.config, g.calls, key, lo);
      if StartsAt(g, lo) {
        FreshBound(g.config, g.calls, key, lo);
      }
    }
  }

  /** One limiter in use, and then this many reloads, each followed by a full burst. */
  function ReloadBursts(c: Config, reloads: nat): seq<Generation>
    requires c.limit >= 1
  {
    if reloads == 0 then [Generation(c, Burst(c.limit, c.window, 2 * c.limit))]
    else ReloadBursts(c, reloads - 1) + [Generation(c, Repeat(c.limit, c.window))]
  }

  function Repeat(n: nat, now: int): seq<Call> {
    seq(n, i => Call("k", now))
  }

  lemma {:induction false} RepeatAdmitted(c: Config, n: nat, now: int, lo: int, hi: int)
    requires c.window >= 1 && c.maxKeys >= 1 && n <= c.limit && lo <= now < hi
    ensures Admitted(c, Repeat(n, now), "k", lo, hi) == n
    ensures Run(c, Repeat(n, now)) == if n == 0 then map[] else map["k" := Bucket(now, n)]
  {
    if n > 0 {
      assert Repeat(n, now)[..n - 1] == Repeat(n - 1, now);
      RepeatAdmitted(c, n - 1, now, lo, hi);
    }
  }

  lemma AdmittedByAllStep(generations: seq<Generation>, g: Generation, key: string, lo: int, hi: int)
    ensures AdmittedByAll(generations + [g], key, lo, hi)
         == AdmittedByAll(generations, key, lo, hi) + Admitted(g.config, g.calls, key, lo, hi)
  {
    assert (generations + [g])[..|generations|] == generations;
  }

  lemma OneMoreTime(times: nat, n: nat)
    requires times > 0
    ensures times * n == (times - 1) * n + n
  {
  }

  /** The bursts of the limiter in use begin before the interval, those of the others in it. */
  lemma {:induction false} MostOfBursts(c: Config, reloads: nat)
    requires c.limit >= 1 && c.window >= 2
    ensures MostOfAll(ReloadBursts(c, reloads), c.window - 1) == 2 * c.limit - 1 + reloads * c.limit
  {
    var all, g := ReloadBursts(c, reloads), Generation(c, Repeat(c.limit, c.window));
    if reloads == 0 {
      var first := Generation(c, Burst(c.limit, c.window, 2 * c.limit));
      assert first.calls[0].now == 0 && !StartsAt(first, c.window - 1);
      assert all[..0] == [] && MostOfAll([], c.window - 1) == 0;
    } else {
      MostOfBursts(c, reloads - 1);
      assert all[..|all| - 1] == ReloadBursts(c, reloads - 1) && all[|all| - 1] == g;
      assert StartsAt(g, c.window - 1);
      OneMoreTime(reloads, c.limit);
    }
  }

  lemma BurstAlone(c: Config)
    requires c.limit >= 1 && c.window >= 2 && c.maxKeys >= 1
    ensures AdmittedByAll(ReloadBursts(c, 0), "k", c.window - 1, 2 * c.window - 1) == 2 * c.limit - 1
  {
    var g := Generation(c, Burst(c.limit, c.window, 2 * c.limit));
    BurstAdmitted(c, 2 * c.limit);
    AdmittedByAllStep([], g, "k", c.window - 1, 2 * c.window - 1);
    assert [] + [g] == [g];
  }

  /** So every reload in the interval can add a whole limit. */
  lemma {:induction false} ReloadsAddUp(c: Config, reloads: nat)
    requires c.limit >= 1 && c.window >= 2 && c.maxKeys >= 1
    ensures AdmittedByAll(ReloadBursts(c, reloads), "k", c.window - 1, 2 * c.window - 1)
         == 2 * c.limit - 1 + reloads * c.limit
  {
    var lo, hi := c.window - 1, 2 * c.window - 1;
    if reloads == 0 {
      BurstAlone(c);
    } else {
      ReloadsAddUp(c, reloads - 1);
      RepeatAdmitted(c, c.limit, c.window, lo, hi);
      AdmittedByAllStep(ReloadBursts(c, reloads - 1), Generation(c, Repeat(c.limit, c.window)), "k", lo, hi);
      OneMoreTime(reloads, c.limit);
    }
  }

  /** Which is the bound. */
  lemma BoundReached(c: Config, reloads: nat)
    requires c.limit >= 1 && c.window >= 2 && c.maxKeys >= 1
    ensures AdmittedByAll(ReloadBursts(c, reloads), "k", c.window - 1, 2 * c.window - 1)
         == MostOfAll(ReloadBursts(c, reloads), c.window - 1)
  {
    ReloadsAddUp(c, reloads);
    MostOfBursts(c, reloads);
  }

  // ---------- the table stays bounded ----------

  lemma DecideBounded(c: Config, table: Table, key: string, now: int)
    requires |table| <= c.maxKeys
    ensures |Decide(c, table, key, now).table| <= c.maxKeys
  {
    if key in table {
      var t := Decide(c, table, key, now).table;
      assert t.Keys == table.Keys;
      assert |t| == |t.Keys| && |table| == |table.Keys|;
    } else {
      var pruned := Prune(table, c.window, now);
      SubsetSize(pruned.Keys, table.Keys);
      assert |pruned| == |pruned.Keys| && |table| == |table.Keys|;
    }
  }

  lemma {:induction false} TableBounded(c: Config, calls: seq<Call>)
    ensures |Run(c, calls)| <= c.maxKeys
  {
    if calls != [] {
      TableBounded(c, calls[..|calls| - 1]);
      var last := calls[|calls| - 1];
      DecideBounded(c, Run(c, calls[..|calls| - 1]), last.key, last.now);
    }
  }

  // ---------- pruning is invisible ----------

  /** The limiter that never prunes and has no key bound. */
  function Ideal(c: Config, table: Table, key: string, now: int): Outcome {
    if key in table then Count(c, table, key, now)
    else Outcome(table[key := Bucket(now, 1)], Answer(true, 0))
  }

  function IdealRun(c: Config, calls: seq<Call>): Table {
    if calls == [] then map[]
    else
      var last := calls[|calls| - 1];
      Ideal(c, IdealRun(c, calls[..|calls| - 1]), last.key, last.now).table
  }

  function IdealAnswerAt(c: Config, calls: seq<Call>, i: nat): Answer
    requires i < |calls|
  {
    Ideal(c, IdealRun(c, calls[..i]), calls[i].key, calls[i].now).answer
  }

  /** The bounded table lacks only buckets that have expired. */
  ghost predicate Simulates(c: Config, table: Table, ideal: Table, now: int) {
    && (forall k :: k in table ==> k in ideal && ideal[k] == table[k])
    && (forall k :: k in ideal && k !in table ==> now - ideal[k].start >= c.window)
  }

  lemma SimulationStep(c: Config, table: Table, ideal: Table, key: string, now: int)
    requires Simulates(c, table, ideal, now)
    ensures var actual, other := Decide(c, table, key, now), Ideal(c, ideal, key, now);
            if TableFull(c, table, key, now) then !actual.answer.allowed && other.answer.allowed
            else actual.answer == other.answer && Simulates(c, actual.table, other.table, now)
  {
  }

  ghost predicate FullAt(c: Config, calls: seq<Call>, i: nat)
    requires i < |calls|
  {
    TableFull(c, Run(c, calls[..i]), calls[i].key, calls[i].now)
  }

  lemma {:induction false} SimulatedRun(c: Config, calls: seq<Call>, now: int)
    requires Ordered(calls) && (calls != [] ==> calls[|calls| - 1].now <= now)
    requires forall i :: 0 <= i < |calls| ==> !FullAt(c, calls, i)
    ensures Simulates(c, Run(c, calls), IdealRun(c, calls), now)
  {
    if calls != [] {
      var before, last := calls[..|calls| - 1], calls[|calls| - 1];
      assert forall i :: 0 <= i < |before| ==> before[..i] == calls[..i];
      assert !FullAt(c, calls, |before|);
      forall i | 0 <= i < |before| ensures !FullAt(c, before, i) {
        assert !FullAt(c, calls, i);
      }
      SimulatedRun(c, before, last.now);
      SimulationStep(c, Run(c, before), IdealRun(c, before), last.key, last.now);
    }
  }

  /** Every answer of a run agrees with the unbounded limiter exactly when no call of
      the run met a full table. */
  lemma PruningIsInvisible(c: Config, calls: seq<Call>)
    requires Ordered(calls)
    ensures (forall i :: 0 <= i < |calls| ==> AnswerAt(c, calls, i) == IdealAnswerAt(c, calls, i))
            <==> (forall i :: 0 <= i < |calls| ==> !FullAt(c, calls, i))
  {
    if forall i :: 0 <= i < |calls| ==> !FullAt(c, calls, i) {
      forall i | 0 <= i < |calls| ensures AnswerAt(c, calls, i) == IdealAnswerAt(c, calls, i) {
        AgreesUpTo(c, calls, i);
      }
    } else {
      var i :| 0 <= i < |calls| && FullAt(c, calls, i);
      DiffersAtFirstFull(c, calls, i);
    }
  }

  lemma AgreesUpTo(c: Config, calls: seq<Call>, i: nat)
    requires Ordered(calls) && i < |calls| && forall j :: 0 <= j < i ==> !FullAt(c, calls, j)
    ensures FullAt(c, calls, i) <==> AnswerAt(c, calls, i) != IdealAnswerAt(c, calls, i)
  {
    var before := calls[..i];
    forall j | 0 <= j < i ensures !FullAt(c, before, j) {
      assert before[..j] == calls[..j];
      assert !FullAt(c, calls, j);
    }
    SimulatedRun(c, before, calls[i].now);
    SimulationStep(c, Run(c, before), IdealRun(c, before), calls[i].key, calls[i].now);
  }

  lemma {:induction false} DiffersAtFirstFull(c: Config, calls: seq<Call>, i: nat)
    requires Ordered(calls) && i < |calls| && FullAt(c, calls, i)
    ensures exists j :: 0 <= j < |calls| && AnswerAt(c, calls, j) != IdealAnswerAt(c, calls, j)
  {
    if j: nat :| j < i && FullAt(c, calls, j) {
      DiffersAtFirstFull(c, calls, j);
    } else {
      AgreesUpTo(c, calls, i);
    }
  }

  // ---------- the advertised delay ----------

  lemma {:induction false} BucketPersists(c: Config, table: Table, calls: seq<Call>, key: string, until: int)
    requires key in table && table[key].count >= c.limit && table[key].start + c.window == until
    requires forall i :: 0 <= i < |calls| ==> calls[i].now < until
    ensures var t := RunFrom(c, table, calls); key in t && t[key] == table[key]
  {
    if calls != [] {
      BucketPersists(c, table, calls[..|calls| - 1], key, until);
    }
  }

  function RunFrom(c: Config, table: Table, calls: seq<Call>): Table {
    if calls == [] then table
    else
      var last := calls[|calls| - 1];
      Decide(c, RunFrom(c, table, calls[..|calls| - 1]), last.key, last.now).table
  }

  /** The delay of a key over its limit is exact: whatever calls come in between, the key is
      refused again before it has passed, and admitted by the first call after it. */
  lemma RetryDelayIsExact(c: Config, table: Table, key: string, now: int, between: seq<Call>, later: int)
    requires key in table && !Decide(c, table, key, now).answer.allowed
    requires forall i :: 0 <= i < |between| ==> between[i].now < now + Decide(c, table, key, now).answer.retry
    ensures Decide(c, RunFrom(c, Decide(c, table, key, now).table, between), key, later).answer.allowed
            <==> later >= now + Decide(c, table, key, now).answer.retry
  {
    BucketPersists(c, table, between, key, table[key].start + c.window);
  }

  predicate Expired(c: Config, table: Table, now: int) {
    exists key :: key in table && now - table[key].start >= c.window
  }

  lemma PruneShrinks(c: Config, table: Table, now: int)
    ensures |Prune(table, c.window, now)| <= |table|
    ensures |Prune(table, c.window, now)| == |table| <==> !Expired(c, table, now)
  {
    var room := Prune(table, c.window, now);
    assert |table.Keys| == |table| && |room.Keys| == |room|;
    SubsetSize(room.Keys, table.Keys);
    if Expired(c, table, now) {
      var key :| key in table && now - table[key].start >= c.window;
      SubsetSize(room.Keys, table.Keys - {key});
    } else {
      assert room == table;
    }
  }

  /** The other refusal: a key that found the table full is admitted, if no call comes
      in between, exactly once some bucket has expired. */
  lemma FullTableAdmits(c: Config, table: Table, key: string, now: int, later: int)
    requires c.maxKeys >= 1 && |table| <= c.maxKeys && TableFull(c, table, key, now)
    ensures Decide(c, table, key, now) == Outcome(table, Answer(false, Int64.SECOND))
    ensures Decide(c, table, key, later).answer.allowed <==> Expired(c, table, later)
  {
    PruneShrinks(c, table, now);
    PruneShrinks(c, table, later);
    assert forall k :: k in table ==> now - table[k].start < c.window;
    assert Prune(table, c.window, now) == table;
  }

  /** So the second it is told to wait is exact only by coincidence: if and only if the
      first bucket to expire does so right then. */
  lemma FullTableDelayIff(c: Config, table: Table, key: string, now: int)
    requires c.maxKeys >= 1 && |table| <= c.maxKeys && TableFull(c, table, key, now)
    ensures (forall later :: Decide(c, table, key, later).answer.allowed <==> later >= now + Int64.SECOND)
            <==> (exists k :: k in table && table[k].start + c.window == now + Int64.SECOND)
                 && (forall k :: k in table ==> table[k].start + c.window >= now + Int64.SECOND)
  {
    var soon := now + Int64.SECOND;
    forall later ensures Decide(c, table, key, later).answer.allowed <==> Expired(c, table, later) {
      FullTableAdmits(c, table, key, now, later);
    }
    if forall later :: Decide(c, table, key, later).answer.allowed <==> later >= soon {
      assert Decide(c, table, key, soon).answer.allowed && !Decide(c, table, key, soon - 1).answer.allowed;
      assert Expired(c, table, soon) && !Expired(c, table, soon - 1);
    }
  }

  /** A second is too short here: b is told to wait one second for a table that stays
      full for a minute. */
  lemma FullTableDelayTooShort()
    ensures var c, table := Config(1, 60 * Int64.SECOND, 1), map["a" := Bucket(0, 1)];
            && Decide(c, table, "b", 0) == Outcome(table, Answer(false, Int64.SECOND))
            && Decide(c, table, "b", Int64.SECOND) == Outcome(table, Answer(false, Int64.SECOND))
  {
    var c, table := Config(1, 60 * Int64.SECOND, 1), map["a" := Bucket(0, 1)];
    assert Prune(table, c.window, 0) == table && Prune(table, c.window, Int64.SECOND) == table;
  }

  /** retryAfterSeconds, in wrapping 64-bit arithmetic. */
  function RetryAfterSeconds(delay: int): int {
    if delay <= 0 then 1
    else
      var seconds := Int64.Quotient(Int64.Wrap(Int64.Wrap(delay + Int64.SECOND) - 1), Int64.SECOND);
      if seconds < 1 then 1 else seconds
  }

  /** The advertised whole seconds cover the delay, with less than a second to spare,
      exactly when rounding up does not pass the largest 64-bit duration. */
  lemma RetryAfterCovers(delay: int)
    requires 0 < delay <= Int64.MAX
    ensures (delay <= RetryAfterSeconds(delay) * Int64.SECOND < delay + Int64.SECOND)
            <==> delay <= Int64.MAX - (Int64.SECOND - 1)
    ensures delay > Int64.MAX - (Int64.SECOND - 1) ==> RetryAfterSeconds(delay) == 1
  {
    var x := delay + Int64.SECOND - 1;
    if delay <= Int64.MAX - (Int64.SECOND - 1) {
      assert Int64.Wrap(Int64.Wrap(delay + Int64.SECOND) - 1) == x;
    } else {
      assert Int64.Wrap(Int64.Wrap(delay + Int64.SECOND) - 1) == x - 0x1_0000_0000_0000_0000;
      assert RetryAfterSeconds(delay) == 1;
    }
  }

  /** A client is never told to retry at once. */
  lemma RetryAfterIsPositive(delay: int)
    requires delay <= Int64.MAX
    ensures RetryAfterSeconds(delay) >= 1 && (delay <= 0 ==> RetryAfterSeconds(delay) == 1)
  {
  }
}

/**
 The response cache of internal/cache/cache.go as a mathematical object: a
 sequence of entries, most recently used first.  The class in LruCache.dfy is
 proved to compute exactly these functions.
 */
module LruSpec {
  import opened Common
  import Sums

  datatype Response = Response(status: int, header: Header, body: string, stored: int)

  datatype Entry = Entry(key: string, response: Response, expiresAt: int, size: nat)

  datatype Bounds = Bounds(entries: nat, bytes: nat)

  // ---------- sizes ----------

  function Lengths(values: seq<string>): nat {
    if values == [] then 0 else Lengths(values[..|values| - 1]) + |values[|values| - 1]|
  }

  function LineSizes(header: Header): map<Field, nat> {
    map name | name in header :: name.Length() + Lengths(header[name])
  }

  ghost function ResponseSize(key: string, response: Response): nat {
    |key| + |response.body| + Sums.Total(LineSizes(response.header))
  }

  function Bytes(s: seq<Entry>): nat {
    if s == [] then 0 else Bytes(s[..|s| - 1]) + s[|s| - 1].size
  }

  predicate Within(s: seq<Entry>, b: Bounds) {
    |s| <= b.entries && Bytes(s) <= b.bytes
  }

  // ---------- operations ----------

  ghost predicate UniqueKeys(s: seq<Entry>) {
    forall i, j :: 0 <= i < j < |s| ==> s[i].key != s[j].key
  }

  function Without(s: seq<Entry>, key: string): seq<Entry> {
    if s == [] then []
    else if s[0].key == key then Without(s[1..], key)
    else [s[0]] + Without(s[1..], key)
  }

  function Find(s: seq<Entry>, key: string): Option<Entry> {
    if s == [] then None
    else if s[0].key == key then Some(s[0])
    else Find(s[1..], key)
  }

  /** Drop least recently used entries, one at a time, until both bounds hold. */
  function Trim(s: seq<Entry>, b: Bounds): seq<Entry> {
    if Within(s, b) then s else Trim(s[..|s| - 1], b)
  }

  datatype Lookup = Lookup(entries: seq<Entry>, hit: Option<Response>)

  function Get(s: seq<Entry>, key: string, now: int): Lookup {
    match Find(s, key)
    case None => Lookup(s, None)
    case Some(e) =>
      if now < e.expiresAt then Lookup([e] + Without(s, key), Some(e.response))
      else Lookup(Without(s, key), None)
  }

  /** One call of Set: storedAt is the clock read before the lock, now the one under it. */
  datatype Store = Store(key: string, response: Response, ttl: int, storedAt: int, now: int)

  ghost predicate Accepted(op: Store, b: Bounds) {
    op.ttl > 0 && ResponseSize(op.key, op.response) <= b.bytes
  }

  ghost function EntryOf(op: Store): Entry {
    Entry(op.key, op.response.(stored := op.storedAt), op.now + op.ttl, ResponseSize(op.key, op.response))
  }

  ghost function Set(s: seq<Entry>, op: Store, b: Bounds): seq<Entry> {
    if Accepted(op, b) then Trim([EntryOf(op)] + Without(s, op.key), b) else s
  }

  // ---------- elementary facts ----------

  lemma {:induction false} WithoutMembers(s: seq<Entry>, key: string)
    ensures forall e :: e in Without(s, key) <==> e in s && e.key != key
    ensures |Without(s, key)| <= |s|
  {
    if s != [] {
      WithoutMembers(s[1..], key);
      assert s == [s[0]] + s[1..];
    }
  }

  lemma {:induction false} WithoutUnique(s: seq<Entry>, key: string)
    requires UniqueKeys(s)
    ensures UniqueKeys(Without(s, key))
  {
    if s != [] {
      WithoutUnique(s[1..], key);
      WithoutMembers(s[1..], key);
    }
  }

  lemma WithoutFacts(s: seq<Entry>, key: string)
    ensures forall e :: e in Without(s, key) <==> e in s && e.key != key
    ensures UniqueKeys(s) ==> UniqueKeys(Without(s, key))
    ensures |Without(s, key)| <= |s|
  {
    WithoutMembers(s, key);
    if UniqueKeys(s) {
      WithoutUnique(s, key);
    }
  }

  lemma {:induction false} WithoutAbsent(s: seq<Entry>, key: string)
    requires forall e :: e in s ==> e.key != key
    ensures Without(s, key) == s
  {
    if s != [] {
      assert s[0] in s;
      assert forall e :: e in s[1..] ==> e in s;
      WithoutAbsent(s[1..], key);
    }
  }

  lemma {:induction false} FindFacts(s: seq<Entry>, key: string)
    ensures Find(s, key).Some? ==> Find(s, key).value in s && Find(s, key).value.key == key
    ensures Find(s, key).None? ==> forall e :: e in s ==> e.key != key
  {
    if s != [] {
      FindFacts(s[1..], key);
      assert s == [s[0]] + s[1..];
    }
  }

  lemma {:induction false} BytesConcat(s: seq<Entry>, t: seq<Entry>)
    ensures Bytes(s + t) == Bytes(s) + Bytes(t)
  {
    if t == [] {
      assert s + t == s;
    } else {
      assert (s + t)[..|s + t| - 1] == s + t[..|t| - 1];
      BytesConcat(s, t[..|t| - 1]);
    }
  }

  lemma {:induction false} WithoutShrinks(s: seq<Entry>, key: string)
    ensures Bytes(Without(s, key)) <= Bytes(s)
    ensures |Without(s, key)| <= |s|
  {
    if s != [] {
      WithoutShrinks(s[1..], key);
      assert s == [s[0]] + s[1..];
      BytesConcat([s[0]], s[1..]);
      BytesConcat([s[0]], Without(s[1..], key));
    }
  }

  // ---------- eviction ----------

  /** Eviction keeps exactly the longest prefix that satisfies both bounds. */
  lemma {:induction false} TrimIsLongestPrefix(s: seq<Entry>, b: Bounds)
    ensures Trim(s, b) <= s
    ensures Within(Trim(s, b), b)
    ensures forall i :: |Trim(s, b)| < i <= |s| ==> !Within(s[..i], b)
  {
    if Within(s, b) {
    } else {
      var t := s[..|s| - 1];
      TrimIsLongestPrefix(t, b);
      forall i | |Trim(s, b)| < i <= |s| ensures !Within(s[..i], b) {
        if i == |s| {
          assert s[..i] == s;
        } else {
          assert s[..i] == t[..i];
        }
      }
    }
  }

  /** The entry just inserted survives its own insertion. */
  lemma TrimKeepsNewest(s: seq<Entry>, b: Bounds)
    requires s != [] && b.entries >= 1 && s[0].size <= b.bytes
    ensures |Trim(s, b)| >= 1 && Trim(s, b)[0] == s[0]
  {
    TrimIsLongestPrefix(s, b);
    assert Bytes(s[..1]) == s[0].size by {
      assert s[..1][..0] == [];
    }
  }

  // ---------- what is held ----------

  function Concatenated(values: seq<string>): string {
    if values == [] then "" else values[0] + Concatenated(values[1..])
  }

  /** The text of a response as it lies in memory: key, body, header names and values. */
  ghost function Footprint(key: string, response: Response): nat {
    var lines := map name | name in response.header :: |name.Spelling() + Concatenated(response.header[name])|;
    |key + response.body| + Sums.Total(lines)
  }

  ghost function Held(s: seq<Entry>): nat {
    if s == [] then 0 else Footprint(s[0].key, s[0].response) + Held(s[1..])
  }

  lemma {:induction false} LengthsOfConcatenated(values: seq<string>)
    ensures Lengths(values) == |Concatenated(values)|
  {
    if values != [] {
      LengthsFirst(values);
      LengthsOfConcatenated(values[1..]);
    }
  }

  lemma {:induction false} LengthsFirst(values: seq<string>)
    requires values != []
    ensures Lengths(values) == |values[0]| + Lengths(values[1..])
  {
    var n := |values| - 1;
    if n == 0 {
      assert values[..0] == [] && values[1..] == [];
    } else {
      LengthsFirst(values[..n]);
      assert values[..n][1..] == values[1..][..n - 1];
    }
  }

  /** The size that is accounted for is the size that is held. */
  lemma SizeIsFootprint(key: string, response: Response)
    ensures ResponseSize(key, response) == Footprint(key, response)
  {
    var lines := map name | name in response.header :: |name.Spelling() + Concatenated(response.header[name])|;
    forall name | name in response.header ensures LineSizes(response.header)[name] == lines[name] {
      name.SpellingLength();
      LengthsOfConcatenated(response.header[name]);
    }
    assert LineSizes(response.header) == lines;
  }

  /** A Set is accepted exactly if it lives and what it holds fits the bound. */
  lemma AcceptedIff(op: Store, b: Bounds)
    ensures Accepted(op, b) <==> op.ttl > 0 && Footprint(op.key, op.response) <= b.bytes
  {
    SizeIsFootprint(op.key, op.response);
  }

  /** Each entry accounts for what it holds. */
  ghost predicate Measured(s: seq<Entry>) {
    forall e :: e in s ==> e.size == Footprint(e.key, e.response)
  }

  lemma EntryMeasured(op: Store)
    ensures EntryOf(op).size == Footprint(op.key, EntryOf(op).response)
  {
    SizeIsFootprint(op.key, op.response);
  }

  lemma {:induction false} HeldIsBytes(s: seq<Entry>)
    requires Measured(s)
    ensures Held(s) == Bytes(s)
  {
    if s != [] {
      assert s == [s[0]] + s[1..] && s[0] in s;
      HeldIsBytes(s[1..]);
      BytesCons(s[0], s[1..]);
    }
  }

  lemma GetKeeps(s: seq<Entry>, key: string, now: int, b: Bounds)
    requires UniqueKeys(s) && Within(s, b) && Measured(s)
    ensures Within(Get(s, key, now).entries, b) && Measured(Get(s, key, now).entries)
  {
    GetFacts(s, key, now, b);
  }

  lemma SetMeasured(s: seq<Entry>, op: Store, b: Bounds)
    requires Measured(s) && Accepted(op, b)
    ensures Measured(Set(s, op, b)) && Within(Set(s, op, b), b)
  {
    EntryMeasured(op);
    WithoutMembers(s, op.key);
    TrimIsLongestPrefix([EntryOf(op)] + Without(s, op.key), b);
  }

  /** After any run what is held fits both bounds. */
  lemma HeldIsBounded(ops: seq<Op>, b: Bounds)
    ensures Held(Run(ops, b)) == Bytes(Run(ops, b)) <= b.bytes && |Run(ops, b)| <= b.entries
  {
    RunInvariant(ops, b);
    forall e | e in Run(ops, b) ensures e.size == Footprint(e.key, e.response) {
      LastAcceptedFacts(ops, e.key, b);
      EntryMeasured(LastAccepted(ops, e.key, b).value);
    }
    HeldIsBytes(Run(ops, b));
  }

  /** A key is hit exactly if it is held and the lifetime given to it last is not over. */
  lemma HitIff(ops: seq<Op>, b: Bounds, key: string, now: int)
    ensures Get(Run(ops, b), key, now).hit.Some? <==>
              && (exists e :: e in Run(ops, b) && e.key == key)
              && LastAccepted(ops, key, b).Some?
              && now < LastAccepted(ops, key, b).value.now + LastAccepted(ops, key, b).value.ttl
  {
    RunInvariant(ops, b);
    FindFacts(Run(ops, b), key);
  }

  // ---------- whole runs ----------

  datatype Op = GetOp(key: string, now: int) | SetOp(store: Store)

  ghost function Run(ops: seq<Op>, b: Bounds): seq<Entry> {
    if ops == [] then []
    else
      var s := Run(ops[..|ops| - 1], b);
      match ops[|ops| - 1]
      case GetOp(key, now) => Get(s, key, now).entries
      case SetOp(op) => Set(s, op, b)
  }

  /** The latest Set of this key that the cache accepted. */
  ghost function LastAccepted(ops: seq<Op>, key: string, b: Bounds): Option<Store> {
    if ops == [] then None
    else
      var last := ops[|ops| - 1];
      if last.SetOp? && last.store.key == key && Accepted(last.store, b) then Some(last.store)
      else LastAccepted(ops[..|ops| - 1], key, b)
  }

  lemma SetFacts(s: seq<Entry>, op: Store, b: Bounds)
    requires UniqueKeys(s) && Within(s, b) && Accepted(op, b)
    ensures UniqueKeys(Set(s, op, b)) && Within(Set(s, op, b), b)
    ensures forall e :: e in Set(s, op, b) ==> e == EntryOf(op) || (e in s && e.key != op.key)
  {
    var t := [EntryOf(op)] + Without(s, op.key);
    WithoutFacts(s, op.key);
    TrimIsLongestPrefix(t, b);
    assert forall i :: 0 <= i < |Trim(t, b)| ==> Trim(t, b)[i] == t[i];
  }

  lemma GetFacts(s: seq<Entry>, key: string, now: int, b: Bounds)
    requires UniqueKeys(s) && Within(s, b)
    ensures UniqueKeys(Get(s, key, now).entries) && Within(Get(s, key, now).entries, b)
    ensures forall e :: e in Get(s, key, now).entries ==> e in s
  {
    FindFacts(s, key);
    WithoutFacts(s, key);
    WithoutShrinks(s, key);
    if Find(s, key).Some? {
      var e := Find(s, key).value;
      FindSplit(s, key);
      BytesConcat([e], Without(s, key));
    }
  }

  /** With unique keys, a found entry and the rest make up the whole contents. */
  lemma {:induction false} FindSplit(s: seq<Entry>, key: string)
    requires UniqueKeys(s) && Find(s, key).Some?
    ensures Bytes(s) == Find(s, key).value.size + Bytes(Without(s, key))
    ensures |s| == 1 + |Without(s, key)|
  {
    assert s == [s[0]] + s[1..];
    BytesConcat([s[0]], s[1..]);
    assert Bytes([s[0]]) == s[0].size by { assert [s[0]][..0] == []; }
    if s[0].key == key {
      WithoutAbsent(s[1..], key);
    } else {
      FindSplit(s[1..], key);
      BytesConcat([s[0]], Without(s[1..], key));
    }
  }

  /** In every reachable state keys are unique, both bounds hold, and each entry
      is the last accepted write of its key. */
  lemma {:induction false} RunInvariant(ops: seq<Op>, b: Bounds)
    ensures UniqueKeys(Run(ops, b)) && Within(Run(ops, b), b)
    ensures forall e :: e in Run(ops, b) ==>
              LastAccepted(ops, e.key, b).Some? && e == EntryOf(LastAccepted(ops, e.key, b).value)
  {
    if ops != [] {
      var s := Run(ops[..|ops| - 1], b);
      RunInvariant(ops[..|ops| - 1], b);
      match ops[|ops| - 1]
      case GetOp(key, now) => GetFacts(s, key, now, b);
      case SetOp(op) => if Accepted(op, b) { SetFacts(s, op, b); }
    }
  }

  /** After any run, a hit returns exactly the last accepted Set, before its expiry. */
  lemma HitIsLastAccepted(ops: seq<Op>, b: Bounds, key: string, now: int)
    requires Get(Run(ops, b), key, now).hit.Some?
    ensures LastAccepted(ops, key, b).Some?
    ensures var last := LastAccepted(ops, key, b).value;
            && Get(Run(ops, b), key, now).hit == Some(last.response.(stored := last.storedAt))
            && now < last.now + last.ttl
            && Accepted(last, b) && last.key == key
  {
    RunInvariant(ops, b);
    FindFacts(Run(ops, b), key);
    LastAcceptedFacts(ops, key, b);
  }

  lemma {:induction false} LastAcceptedFacts(ops: seq<Op>, key: string, b: Bounds)
    requires LastAccepted(ops, key, b).Some?
    ensures var last := LastAccepted(ops, key, b).value;
            Accepted(last, b) && last.key == key && SetOp(last) in ops
  {
    if LastAccepted(ops[..|ops| - 1], key, b).Some? {
      LastAcceptedFacts(ops[..|ops| - 1], key, b);
    }
  }

  // ---------- inclusion: a larger cache keeps what a smaller one keeps ----------

  /** The handler's use of the cache: look up at one time and, on a miss, store the
      fetched response at another, if the policy lets it be stored. */
  datatype Access = Access(key: string, now: int, fetched: Option<Store>)

  ghost function Serve(s: seq<Entry>, a: Access, b: Bounds): seq<Entry> {
    var found := Get(s, a.key, a.now);
    if found.hit.Some? || a.fetched.None? then found.entries else Set(found.entries, a.fetched.value, b)
  }

  ghost function ServeAll(trace: seq<Access>, b: Bounds): seq<Entry> {
    if trace == [] then [] else Serve(ServeAll(trace[..|trace| - 1], b), trace[|trace| - 1], b)
  }

  /** The keys of s are a prefix of the keys of t. */
  ghost predicate KeyPrefix(s: seq<Entry>, t: seq<Entry>) {
    |s| <= |t| && forall i :: 0 <= i < |s| ==> s[i].key == t[i].key
  }

  /** The responses for a key are always cacheable, and then of one size, or never. */
  ghost predicate Steady(a: Access, sizes: map<string, nat>) {
    && (a.fetched.Some? <==> a.key in sizes)
    && (a.fetched.Some? ==>
          var op := a.fetched.value;
          op.key == a.key && op.ttl > 0 && ResponseSize(op.key, op.response) == sizes[a.key])
  }

  ghost predicate AllSteady(trace: seq<Access>, sizes: map<string, nat>) {
    forall i :: 0 <= i < |trace| ==> Steady(trace[i], sizes)
  }

  ghost predicate Sized(s: seq<Entry>, sizes: map<string, nat>) {
    forall e :: e in s ==> e.key in sizes && e.size == sizes[e.key]
  }

  ghost predicate Settled(s: seq<Entry>, sizes: map<string, nat>, b: Bounds) {
    UniqueKeys(s) && Within(s, b) && Sized(s, sizes)
  }

  lemma {:induction false} SameSizes(s: seq<Entry>, t: seq<Entry>, sizes: map<string, nat>)
    requires Sized(s, sizes) && Sized(t, sizes) && |s| == |t| && KeyPrefix(s, t)
    ensures Bytes(s) == Bytes(t)
  {
    if s != [] {
      SameSizes(s[..|s| - 1], t[..|t| - 1], sizes);
      assert s[|s| - 1] in s && t[|t| - 1] in t;
    }
  }

  /** Trimming to smaller bounds keeps a prefix of what larger bounds keep. */
  lemma TrimMonotone(s: seq<Entry>, t: seq<Entry>, small: Bounds, large: Bounds, sizes: map<string, nat>)
    requires Sized(s, sizes) && Sized(t, sizes) && KeyPrefix(s, t)
    requires small.entries <= large.entries && small.bytes <= large.bytes
    ensures KeyPrefix(Trim(s, small), Trim(t, large))
  {
    TrimIsLongestPrefix(s, small);
    TrimIsLongestPrefix(t, large);
    var n := |Trim(s, small)|;
    assert Trim(s, small) == s[..n];
    SameSizes(s[..n], t[..n], sizes);
    assert Within(t[..n], large);
  }

  lemma {:induction false} WithoutPrefix(s: seq<Entry>, t: seq<Entry>, key: string)
    requires KeyPrefix(s, t)
    ensures KeyPrefix(Without(s, key), Without(t, key))
  {
    if s != [] {
      assert KeyPrefix(s[1..], t[1..]);
      WithoutPrefix(s[1..], t[1..], key);
    }
  }

  lemma FindPrefix(s: seq<Entry>, t: seq<Entry>, key: string)
    requires KeyPrefix(s, t) && Find(s, key).Some?
    ensures Find(t, key).Some?
  {
    FindFacts(s, key);
    FindFacts(t, key);
    var i :| 0 <= i < |s| && s[i] == Find(s, key).value;
    assert t[i] in t;
  }

  lemma PrefixCons(e: Entry, f: Entry, s: seq<Entry>, t: seq<Entry>)
    requires e.key == f.key && KeyPrefix(s, t)
    ensures KeyPrefix([e] + s, [f] + t)
  {
  }

  /** Hit, expired or absent: an access of a cacheable key puts that key in front and
      trims, whatever the times are. */
  lemma ServeFront(s: seq<Entry>, a: Access, b: Bounds, sizes: map<string, nat>) returns (e: Entry)
    requires Settled(s, sizes, b) && Steady(a, sizes) && a.fetched.Some? && sizes[a.key] <= b.bytes
    ensures e.key == a.key && e.size == sizes[a.key]
    ensures Serve(s, a, b) == Trim([e] + Without(s, a.key), b)
    ensures e == if Get(s, a.key, a.now).hit.Some? then Find(s, a.key).value else EntryOf(a.fetched.value)
  {
    FindFacts(s, a.key);
    WithoutFacts(s, a.key);
    WithoutAbsent(Without(s, a.key), a.key);
    e := EntryOf(a.fetched.value);
    if Get(s, a.key, a.now).hit.Some? {
      e := Find(s, a.key).value;
      FindSplit(s, a.key);
      BytesCons(e, Without(s, a.key));
    }
  }

  lemma BytesCons(e: Entry, s: seq<Entry>)
    ensures Bytes([e] + s) == e.size + Bytes(s)
  {
    assert Bytes([e]) == e.size by { assert [e][..0] == []; }
    BytesConcat([e], s);
  }

  lemma FrontSettled(s: seq<Entry>, e: Entry, b: Bounds, sizes: map<string, nat>)
    requires Settled(s, sizes, b) && e.key in sizes && e.size == sizes[e.key]
    ensures Sized([e] + Without(s, e.key), sizes)
    ensures Settled(Trim([e] + Without(s, e.key), b), sizes, b)
  {
    WithoutFacts(s, e.key);
    TrimIsLongestPrefix([e] + Without(s, e.key), b);
  }

  lemma InclusionStep(s: seq<Entry>, t: seq<Entry>, a: Access, small: Bounds, large: Bounds, sizes: map<string, nat>)
    requires Settled(s, sizes, small) && Settled(t, sizes, large) && Steady(a, sizes)
    requires small.entries <= large.entries && small.bytes <= large.bytes
    requires forall k :: k in sizes ==> sizes[k] <= small.bytes
    requires KeyPrefix(s, t)
    ensures KeyPrefix(Serve(s, a, small), Serve(t, a, large))
    ensures Settled(Serve(s, a, small), sizes, small) && Settled(Serve(t, a, large), sizes, large)
  {
    if a.fetched.None? {
      FindFacts(s, a.key);
      FindFacts(t, a.key);
    } else {
      var e := ServeFront(s, a, small, sizes);
      var f := ServeFront(t, a, large, sizes);
      FrontSettled(s, e, small, sizes);
      FrontSettled(t, f, large, sizes);
      WithoutPrefix(s, t, a.key);
      PrefixCons(e, f, Without(s, a.key), Without(t, a.key));
      TrimMonotone([e] + Without(s, a.key), [f] + Without(t, a.key), small, large, sizes);
    }
  }

  /** LRU inclusion: over any trace, whatever expires during it, the smaller cache's
      recency list is a prefix of the larger's. */
  lemma {:induction false} Inclusion(trace: seq<Access>, small: Bounds, large: Bounds, sizes: map<string, nat>)
    requires AllSteady(trace, sizes)
    requires small.entries <= large.entries && small.bytes <= large.bytes
    requires forall k :: k in sizes ==> sizes[k] <= small.bytes
    ensures KeyPrefix(ServeAll(trace, small), ServeAll(trace, large))
    ensures Settled(ServeAll(trace, small), sizes, small) && Settled(ServeAll(trace, large), sizes, large)
  {
    if trace != [] {
      var before, a := trace[..|trace| - 1], trace[|trace| - 1];
      Inclusion(before, small, large, sizes);
      InclusionStep(ServeAll(before, small), ServeAll(before, large), a, small, large, sizes);
    }
  }

  /** What the smaller cache hits the larger one holds, and hits as well exactly if its
      own copy, which may be an older one, has not expired. */
  lemma HitInLarger(trace: seq<Access>, small: Bounds, large: Bounds, sizes: map<string, nat>, key: string, now: int)
    requires AllSteady(trace, sizes)
    requires small.entries <= large.entries && small.bytes <= large.bytes
    requires forall k :: k in sizes ==> sizes[k] <= small.bytes
    requires Get(ServeAll(trace, small), key, now).hit.Some?
    ensures Find(ServeAll(trace, large), key).Some?
    ensures Get(ServeAll(trace, large), key, now).hit.Some? <==> now < Find(ServeAll(trace, large), key).value.expiresAt
  {
    Inclusion(trace, small, large, sizes);
    FindPrefix(ServeAll(trace, small), ServeAll(trace, large), key);
  }

  /** Nothing stored during the trace expires before the horizon. */
  ghost predicate Lasting(trace: seq<Access>, horizon: int) {
    forall i :: 0 <= i < |trace| && trace[i].fetched.Some? ==>
      horizon <= trace[i].fetched.value.now + trace[i].fetched.value.ttl
  }

  lemma {:induction false} EntriesLast(trace: seq<Access>, b: Bounds, horizon: int)
    requires Lasting(trace, horizon)
    ensures forall e :: e in ServeAll(trace, b) ==> e.expiresAt >= horizon
  {
    if trace != [] {
      var before, a := trace[..|trace| - 1], trace[|trace| - 1];
      EntriesLast(before, b, horizon);
      ServedFrom(ServeAll(before, b), a, b);
    }
  }

  lemma ServedFrom(s: seq<Entry>, a: Access, b: Bounds)
    ensures forall e :: e in Serve(s, a, b) ==> e in s || (a.fetched.Some? && e == EntryOf(a.fetched.value))
  {
    var rest := Get(s, a.key, a.now).entries;
    GottenFrom(s, a.key, a.now);
    if a.fetched.Some? {
      WithoutMembers(rest, a.fetched.value.key);
      TrimIsLongestPrefix([EntryOf(a.fetched.value)] + Without(rest, a.fetched.value.key), b);
    }
  }

  lemma GottenFrom(s: seq<Entry>, key: string, now: int)
    ensures forall e :: e in Get(s, key, now).entries ==> e in s
  {
    FindFacts(s, key);
    WithoutMembers(s, key);
  }

  /** While nothing stored has expired, enlarging the cache never turns a hit into a miss. */
  lemma NoBeladyAnomaly(trace: seq<Access>, small: Bounds, large: Bounds, sizes: map<string, nat>, horizon: int,
                        key: string, now: int)
    requires AllSteady(trace, sizes) && Lasting(trace, horizon) && now < horizon
    requires small.entries <= large.entries && small.bytes <= large.bytes
    requires forall k :: k in sizes ==> sizes[k] <= small.bytes
    requires Get(ServeAll(trace, small), key, now).hit.Some?
    ensures Get(ServeAll(trace, large), key, now).hit.Some?
  {
    HitInLarger(trace, small, large, sizes, key, now);
    EntriesLast(trace, large, horizon);
    FindFacts(ServeAll(trace, large), key);
  }

  /** Why hits do not carry over without that: the larger cache may hold an older copy,
      which expires before the one the smaller cache had to fetch again.  The lists of
      keys are in inclusion all the same. */
  lemma OlderCopyExpires()
    ensures Get(ServeAll(Refetch(), Bounds(1, 10)), "a", 12).hit.Some?
    ensures Get(ServeAll(Refetch(), Bounds(2, 10)), "a", 12).hit.None?
    ensures KeyPrefix(ServeAll(Refetch(), Bounds(1, 10)), ServeAll(Refetch(), Bounds(2, 10)))
  {
    var trace := Refetch();
    var ea, eb := Fetched(trace[0]), Fetched(trace[1]);
    assert trace[..2] == [trace[0], trace[1]];
    RefetchStart(Bounds(1, 10));
    RefetchStart(Bounds(2, 10));
    TrimUnits(eb, ea);
    TrimUnits(Fetched(trace[2]), eb);
    Miss([eb], trace[2], Bounds(1, 10));
    assert ServeAll(trace, Bounds(1, 10)) == [Fetched(trace[2])];
    assert Find([eb, ea], "a") == Find([ea], "a") == Some(ea) by { assert [eb, ea][1..] == [ea]; }
    assert ServeAll(trace, Bounds(2, 10)) == [ea] + Without([eb, ea], "a");
  }

  function Fetch(key: string, ttl: int, now: int): Access {
    Access(key, now, Some(Store(key, Response(200, map[], "", 0), ttl, now, now)))
  }

  function Refetch(): seq<Access> {
    [Fetch("a", 10, 0), Fetch("b", 100, 1), Fetch("a", 10, 5)]
  }

  lemma RefetchStart(limits: Bounds)
    requires limits == Bounds(1, 10) || limits == Bounds(2, 10)
    ensures ServeAll(Refetch()[..2], limits) == Trim([Fetched(Refetch()[1]), Fetched(Refetch()[0])], limits)
    ensures Fetched(Refetch()[0]).size == Fetched(Refetch()[1]).size == Fetched(Refetch()[2]).size == 1
  {
    var a, b := Refetch()[0], Refetch()[1];
    assert LineSizes(map[]) == map[];
    assert [a][..0] == [] && Refetch()[..2] == [a, b] && [a, b][..1] == [a];
    Miss([], a, limits);
    TrimUnits(Fetched(a), Fetched(b));
    Miss([Fetched(a)], b, limits);
  }

  ghost function Fetched(a: Access): Entry
    requires a.fetched.Some?
  {
    EntryOf(a.fetched.value)
  }

  lemma Miss(s: seq<Entry>, a: Access, b: Bounds)
    requires a.fetched.Some? && a.fetched.value.key == a.key && Accepted(a.fetched.value, b)
    requires |s| <= 1 && forall e :: e in s ==> e.key != a.key
    ensures Serve(s, a, b) == Trim([Fetched(a)] + s, b)
    ensures |s| == 1 ==> [Fetched(a)] + s == [Fetched(a), s[0]]
    ensures |s| == 0 ==> [Fetched(a)] + s == [Fetched(a)]
  {
    FindFacts(s, a.key);
    WithoutAbsent(s, a.key);
  }

  lemma TrimUnits(e: Entry, f: Entry)
    requires e.size == 1 && f.size == 1
    ensures Trim([e], Bounds(1, 10)) == [e] && Trim([e], Bounds(2, 10)) == [e]
    ensures Trim([e, f], Bounds(1, 10)) == [e] && Trim([e, f], Bounds(2, 10)) == [e, f]
  {
    assert [e][..0] == [] && [e, f][..1] == [e];
    assert Bytes([e, f]) == Bytes([e]) + 1;
  }
}

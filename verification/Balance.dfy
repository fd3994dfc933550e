/**
 The balancers of internal/balance: round robin that skips dead backends, and
 least connections with a rotating tie-break.  Both advance a 64-bit counter.
 */
module Balance {
  import opened Common
  import opened Backends

  const COUNTER: nat := 0x1_0000_0000_0000_0000

  /** The counters have 64 bits. */
  lemma CounterWidth()
    ensures COUNTER == 256 * 256 * 256 * 256 * 256 * 256 * 256 * 256
  {
  }

  // ---------- positions on a ring ----------

  /** (x + k) % n for a position x and an offset k below n. */
  function Ahead(x: nat, k: nat, n: nat): (y: nat)
    requires x < n && k < n
    ensures y < n
  {
    if x + k < n then x + k else x + k - n
  }

  /** (x - k) modulo n. */
  function Behind(x: nat, k: nat, n: nat): (y: nat)
    requires x < n && k < n
    ensures y < n
  {
    if k <= x then x - k else x + n - k
  }

  lemma WrapAround(x: nat, n: nat)
    requires n > 0 && x < 2 * n
    ensures x % n == if x < n then x else x - n
  {
    if x >= n {
      assert x == n + (x - n);
    }
  }

  lemma MulMonotone(a: nat, b: nat, n: nat)
    requires a <= b
    ensures a * n <= b * n
  {
  }

  lemma MulStep(q: nat, n: nat)
    ensures (q + 1) * n == q * n + n
  {
  }

  lemma ModUnique(x: nat, q: nat, r: nat, n: nat)
    requires n > 0 && r < n && x == q * n + r
    ensures x % n == r
  {
    var p := x / n;
    assert x == p * n + x % n;
    if p < q {
      MulMonotone(p + 1, q, n);
      MulStep(p, n);
    } else if p > q {
      MulMonotone(q + 1, p, n);
      MulStep(q, n);
    }
  }

  lemma AddPeriod(c: nat, n: nat)
    requires n > 0
    ensures (c + n) % n == c % n
  {
    MulStep(c / n, n);
    assert c == (c / n) * n + c % n;
    ModUnique(c + n, c / n + 1, c % n, n);
  }

  // ---------- round robin ----------

  /** The first live position at or after s, going around; None when all are dead. */
  function PickFrom(alive: seq<bool>, s: nat, offset: nat): (pick: Option<nat>)
    requires s < |alive| && offset <= |alive|
    ensures pick.Some? ==> pick.value < |alive| && alive[pick.value]
    decreases |alive| - offset
  {
    if offset == |alive| then None
    else if alive[Ahead(s, offset, |alive|)] then Some(Ahead(s, offset, |alive|))
    else PickFrom(alive, s, offset + 1)
  }

  function Pick(alive: seq<bool>, s: nat): (pick: Option<nat>)
    requires s < |alive|
    ensures pick.Some? ==> pick.value < |alive| && alive[pick.value]
  {
    PickFrom(alive, s, 0)
  }

  lemma {:induction false} PickFacts(alive: seq<bool>, s: nat, offset: nat)
    requires s < |alive| && offset <= |alive|
    ensures PickFrom(alive, s, offset).Some? ==>
              exists k :: offset <= k < |alive| && PickFrom(alive, s, offset) == Some(Ahead(s, k, |alive|))
                && alive[Ahead(s, k, |alive|)] && forall h :: offset <= h < k ==> !alive[Ahead(s, h, |alive|)]
    ensures PickFrom(alive, s, offset).None? ==> forall h :: offset <= h < |alive| ==> !alive[Ahead(s, h, |alive|)]
    decreases |alive| - offset
  {
    if offset < |alive| && !alive[Ahead(s, offset, |alive|)] {
      PickFacts(alive, s, offset + 1);
    }
  }

  /** The length of the run of dead positions directly before j, going around. */
  function DeadRun(alive: seq<bool>, j: nat, r: nat): (run: nat)
    requires j < |alive| && r < |alive|
    ensures r <= run < |alive|
    decreases |alive| - r
  {
    if r + 1 == |alive| || alive[Behind(j, r + 1, |alive|)] then r
    else DeadRun(alive, j, r + 1)
  }

  lemma {:induction false} DeadRunFacts(alive: seq<bool>, j: nat, r: nat)
    requires j < |alive| && r < |alive|
    ensures var run := DeadRun(alive, j, r);
            && (forall d :: r < d <= run ==> !alive[Behind(j, d, |alive|)])
            && (run + 1 == |alive| || alive[Behind(j, run + 1, |alive|)])
    decreases |alive| - r
  {
    if r + 1 < |alive| && !alive[Behind(j, r + 1, |alive|)] {
      DeadRunFacts(alive, j, r + 1);
    }
  }

  lemma PickPast(alive: seq<bool>, j: nat, d: nat)
    requires j < |alive| && DeadRun(alive, j, 0) < d < |alive|
    ensures Pick(alive, Behind(j, d, |alive|)) != Some(j)
  {
    var n, s, run := |alive|, Behind(j, d, |alive|), DeadRun(alive, j, 0);
    DeadRunFacts(alive, j, 0);
    PickFacts(alive, s, 0);
    var h := d - (run + 1);
    assert Ahead(s, h, n) == Behind(j, run + 1, n) && alive[Ahead(s, h, n)];
    assert forall k :: 0 <= k <= h ==> Ahead(s, k, n) != j;
  }

  lemma PickWithin(alive: seq<bool>, j: nat, d: nat)
    requires j < |alive| && alive[j] && d <= DeadRun(alive, j, 0)
    ensures Pick(alive, Behind(j, d, |alive|)) == Some(j)
  {
    var n, s := |alive|, Behind(j, d, |alive|);
    DeadRunFacts(alive, j, 0);
    PickFacts(alive, s, 0);
    assert Ahead(s, d, n) == j;
    forall h | 0 <= h < d ensures !alive[Ahead(s, h, n)] {
      assert Ahead(s, h, n) == Behind(j, d - h, n);
    }
  }

  /** Starting d places before a live j, the pick is j exactly when only the dead run
      lies in between. */
  lemma PickBehind(alive: seq<bool>, j: nat, d: nat)
    requires j < |alive| && alive[j] && d < |alive|
    ensures Pick(alive, Behind(j, d, |alive|)) == Some(j) <==> d <= DeadRun(alive, j, 0)
  {
    if d <= DeadRun(alive, j, 0) {
      PickWithin(alive, j, d);
    } else {
      PickPast(alive, j, d);
    }
  }

  /** How many of m calls, from counter value c on, choose position j. */
  function Tally(alive: seq<bool>, c: nat, m: nat, j: nat): nat
    requires alive != []
  {
    if m == 0 then 0
    else Tally(alive, c, m - 1, j) + if Pick(alive, (c + m - 1) % |alive|) == Some(j) then 1 else 0
  }

  lemma {:induction false} TallyFirst(alive: seq<bool>, c: nat, m: nat, j: nat)
    requires alive != []
    ensures Tally(alive, c, m + 1, j)
         == Tally(alive, c + 1, m, j) + if Pick(alive, c % |alive|) == Some(j) then 1 else 0
  {
    if m > 0 {
      TallyFirst(alive, c, m - 1, j);
      assert c + (m + 1) - 1 == (c + 1) + m - 1;
    }
  }

  /** A whole rotation counts the same wherever it starts. */
  lemma {:induction false} TallyRotation(alive: seq<bool>, c: nat, j: nat)
    requires alive != []
    ensures Tally(alive, c, |alive|, j) == Tally(alive, 0, |alive|, j)
  {
    if c > 0 {
      TallyRotation(alive, c - 1, j);
      TallyFirst(alive, c - 1, |alive|, j);
      AddPeriod(c - 1, |alive|);
    }
  }

  /** Starting right after j, the last calls of the rotation, dead run and j itself, choose j. */
  lemma {:induction false} TallyAfter(alive: seq<bool>, m: nat, j: nat)
    requires j < |alive| && alive[j] && m <= |alive|
    ensures var others := |alive| - 1 - DeadRun(alive, j, 0);
            Tally(alive, j + 1, m, j) == if m <= others then 0 else m - others
  {
    if m > 0 {
      TallyAfter(alive, m - 1, j);
      WrapAround(j + m, |alive|);
      assert (j + 1 + m - 1) % |alive| == Behind(j, |alive| - m, |alive|);
      PickBehind(alive, j, |alive| - m);
    }
  }

  lemma {:induction false} TallyDead(alive: seq<bool>, c: nat, m: nat, j: nat)
    requires alive != [] && (j < |alive| ==> !alive[j])
    ensures Tally(alive, c, m, j) == 0
  {
    if m > 0 {
      TallyDead(alive, c, m - 1, j);
    }
  }

  /** One more than the length of the dead run before a live position; nothing for a dead one. */
  function Share(alive: seq<bool>, j: nat): nat
    requires j < |alive|
  {
    if alive[j] then 1 + DeadRun(alive, j, 0) else 0
  }

  /** Any n consecutive calls over n backends choose a live one exactly once more than
      the length of the dead run before it, and a dead one never. */
  lemma ExactDistribution(alive: seq<bool>, c: nat, j: nat)
    requires j < |alive|
    ensures Tally(alive, c, |alive|, j) == Share(alive, j)
  {
    if alive[j] {
      TallyRotation(alive, c, j);
      TallyRotation(alive, j + 1, j);
      TallyAfter(alive, |alive|, j);
    } else {
      TallyDead(alive, c, |alive|, j);
    }
  }

  lemma {:induction false} TallyConcat(alive: seq<bool>, c: nat, m: nat, k: nat, j: nat)
    requires alive != []
    ensures Tally(alive, c, m + k, j) == Tally(alive, c, m, j) + Tally(alive, c + m, k, j)
  {
    if k > 0 {
      TallyConcat(alive, c, m, k - 1, j);
      assert c + (m + k) - 1 == c + m + k - 1;
    }
  }

  lemma OneRotationMore(alive: seq<bool>, c: nat, m: nat, j: nat)
    requires j < |alive|
    ensures Tally(alive, c, m + |alive|, j) == Tally(alive, c, m, j) + Share(alive, j)
  {
    TallyConcat(alive, c, m, |alive|, j);
    ExactDistribution(alive, c + m, j);
  }

  /** The same over any number of whole rotations. */
  lemma {:induction false} ExactOverRotations(alive: seq<bool>, c: nat, rotations: nat, j: nat)
    requires j < |alive|
    ensures Tally(alive, c, rotations * |alive|, j) == rotations * Share(alive, j)
  {
    if rotations > 0 {
      var before, n, share := rotations - 1, |alive|, Share(alive, j);
      var done: nat := before * n;
      ExactOverRotations(alive, c, before, j);
      OneRotationMore(alive, c, done, j);
      assert rotations * n == done + n by { MulStep(before, n); }
      assert rotations * share == before * share + share by { MulStep(before, share); }
    }
  }

  /** When all are alive every backend has its turn exactly once in a rotation. */
  lemma AllAliveIsPermutation(alive: seq<bool>, c: nat, j: nat)
    requires j < |alive| && forall i :: 0 <= i < |alive| ==> alive[i]
    ensures Tally(alive, c, |alive|, j) == 1
  {
    ExactDistribution(alive, c, j);
    DeadRunFacts(alive, j, 0);
  }

  ghost function AliveOf(backends: seq<Backend>): (alive: seq<bool>)
    reads backends
    ensures |alive| == |backends|
    ensures forall i :: 0 <= i < |backends| ==> alive[i] == backends[i].alive
  {
    seq(|backends|, i requires 0 <= i < |backends| reads backends => backends[i].alive)
  }

  /** No pick means that no backend is alive. */
  lemma NoPick(backends: seq<Backend>, s: nat)
    requires s < |backends|
    ensures Pick(AliveOf(backends), s).None? <==> forall b :: b in backends ==> !b.alive
  {
    var alive, n := AliveOf(backends), |backends|;
    PickFacts(alive, s, 0);
    if Pick(alive, s).None? {
      forall b | b in backends ensures !b.alive {
        var i :| 0 <= i < n && backends[i] == b;
        assert Ahead(s, Behind(i, s, n), n) == i;
        assert !alive[Ahead(s, Behind(i, s, n), n)];
      }
    } else {
      assert backends[Pick(alive, s).value] in backends;
    }
  }

  class RoundRobin {
    var next: nat

    constructor ()
      ensures next == 0
    {
      next := 0;
    }

    method Next(backends: seq<Backend>) returns (chosen: Backend?)
      requires next < COUNTER
      modifies this
      ensures backends == [] ==> chosen == null && next == old(next)
      ensures backends != [] ==> next == (old(next) + 1) % COUNTER
      ensures backends != [] ==>
                match Pick(AliveOf(backends), old(next) % |backends|)
                case None => chosen == null
                case Some(j) => chosen == backends[j] && backends[j].alive
      ensures chosen == null <==> forall b :: b in backends ==> !b.alive
    {
      if |backends| == 0 {
        return null;
      }
      var start := next % |backends|;
      NoPick(backends, start);
      next := (next + 1) % COUNTER;
      ghost var alive := AliveOf(backends);
      for offset := 0 to |backends|
        modifies {}
        invariant PickFrom(alive, start, 0) == PickFrom(alive, start, offset)
      {
        WrapAround(start + offset, |backends|);
        var candidate := backends[(start + offset) % |backends|];
        if candidate.alive {
          return candidate;
        }
      }
      return null;
    }
  }

  // ---------- least connections ----------

  ghost function ActiveOf(backends: seq<Backend>): (active: seq<int>)
    reads backends
    ensures |active| == |backends|
    ensures forall i :: 0 <= i < |backends| ==> active[i] == backends[i].active
  {
    seq(|backends|, i requires 0 <= i < |backends| reads backends => backends[i].active)
  }

  /** The live positions below n that no live position undercuts, in order. */
  function Least(alive: seq<bool>, active: seq<int>, n: nat): (c: seq<nat>)
    requires n <= |alive| == |active|
    ensures forall k :: 0 <= k < |c| ==> c[k] < n && alive[c[k]]
  {
    if n == 0 then []
    else
      var c := Least(alive, active, n - 1);
      if !alive[n - 1] then c
      else if c == [] || active[n - 1] < active[c[0]] then [n - 1]
      else if active[n - 1] == active[c[0]] then c + [n - 1]
      else c
  }

  ghost predicate LeastLoaded(alive: seq<bool>, active: seq<int>, n: nat, i: nat)
    requires n <= |alive| == |active|
  {
    i < n && alive[i] && forall h :: 0 <= h < n && alive[h] ==> active[i] <= active[h]
  }

  /** The candidates found so far are exactly the least-loaded live backends so far. */
  ghost predicate Leasts(alive: seq<bool>, active: seq<int>, n: nat, c: seq<nat>)
    requires n <= |alive| == |active|
  {
    && (forall k :: 0 <= k < |c| ==> LeastLoaded(alive, active, n, c[k]))
    && (forall k, l :: 0 <= k < l < |c| ==> c[k] < c[l])
    && (c == [] <==> forall h :: 0 <= h < n ==> !alive[h])
  }

  lemma {:induction false} LeastAreLeast(alive: seq<bool>, active: seq<int>, n: nat)
    requires n <= |alive| == |active|
    ensures Leasts(alive, active, n, Least(alive, active, n))
  {
    if n > 0 {
      LeastAreLeast(alive, active, n - 1);
      LeastsStep(alive, active, n, Least(alive, active, n - 1));
    }
  }

  lemma LeastsStep(alive: seq<bool>, active: seq<int>, n: nat, c: seq<nat>)
    requires 0 < n <= |alive| == |active| && Leasts(alive, active, n - 1, c)
    ensures !alive[n - 1] ==> Leasts(alive, active, n, c)
    ensures alive[n - 1] && (c == [] || active[n - 1] < active[c[0]]) ==> Leasts(alive, active, n, [n - 1])
    ensures alive[n - 1] && c != [] && active[n - 1] == active[c[0]] ==> Leasts(alive, active, n, c + [n - 1])
    ensures alive[n - 1] && c != [] && active[n - 1] > active[c[0]] ==> Leasts(alive, active, n, c)
  {
    assert forall k :: 0 <= k < |c| ==> active[c[k]] == active[c[0]];
  }

  lemma {:induction false} LeastIsFound(alive: seq<bool>, active: seq<int>, n: nat, i: nat)
    requires n <= |alive| == |active| && LeastLoaded(alive, active, n, i)
    ensures i in Least(alive, active, n)
  {
    var before, c := Least(alive, active, n - 1), Least(alive, active, n);
    LeastAreLeast(alive, active, n - 1);
    if i < n - 1 {
      assert LeastLoaded(alive, active, n - 1, i);
      LeastIsFound(alive, active, n - 1, i);
    } else {
      assert c == before + [n - 1] || c == [n - 1];
      assert c[|c| - 1] == n - 1;
    }
  }

  /** The candidates are the least-loaded live backends, all of them, each once. */
  lemma {:induction false} LeastIsLeast(alive: seq<bool>, active: seq<int>, n: nat)
    requires n <= |alive| == |active|
    ensures Leasts(alive, active, n, Least(alive, active, n))
    ensures forall i: nat :: LeastLoaded(alive, active, n, i) ==> i in Least(alive, active, n)
  {
    LeastAreLeast(alive, active, n);
    forall i: nat | LeastLoaded(alive, active, n, i) ensures i in Least(alive, active, n) {
      LeastIsFound(alive, active, n, i);
    }
  }

  lemma LeastBackend(backends: seq<Backend>, k: nat)
    requires k < |Least(AliveOf(backends), ActiveOf(backends), |backends|)|
    ensures var chosen := backends[Least(AliveOf(backends), ActiveOf(backends), |backends|)[k]];
            chosen.alive && forall b :: b in backends && b.alive ==> chosen.active <= b.active
  {
    var alive, active := AliveOf(backends), ActiveOf(backends);
    LeastIsLeast(alive, active, |backends|);
    var c := Least(alive, active, |backends|);
    assert LeastLoaded(alive, active, |backends|, c[k]);
    forall b | b in backends && b.alive ensures active[c[k]] <= b.active {
      var h :| 0 <= h < |backends| && backends[h] == b;
      assert alive[h];
    }
  }

  lemma NoLeastBackend(backends: seq<Backend>)
    ensures Least(AliveOf(backends), ActiveOf(backends), |backends|) == [] <==> forall b :: b in backends ==> !b.alive
  {
    var alive := AliveOf(backends);
    LeastIsLeast(alive, ActiveOf(backends), |backends|);
    forall h | 0 <= h < |backends| ensures alive[h] ==> backends[h] in backends && backends[h].alive {
    }
    forall b | b in backends && b.alive ensures exists h :: 0 <= h < |backends| && alive[h] {
      var h :| 0 <= h < |backends| && backends[h] == b;
      assert alive[h];
    }
  }

  class LeastConnections {
    var tie: nat

    constructor ()
      ensures tie == 0
    {
      tie := 0;
    }

    /** The loop of Next: one pass that keeps the least-loaded live backends seen so far. */
    static method Candidates(backends: seq<Backend>) returns (candidates: seq<Backend>)
      ensures var c := Least(AliveOf(backends), ActiveOf(backends), |backends|);
              |candidates| == |c| && forall k :: 0 <= k < |c| ==> candidates[k] == backends[c[k]]
    {
      candidates := [];
      var minimum := 0;
      ghost var alive, active := AliveOf(backends), ActiveOf(backends);
      ghost var c: seq<nat> := [];
      for i := 0 to |backends|
        invariant c == Least(alive, active, i)
        invariant |candidates| == |c| && forall k :: 0 <= k < |c| ==> candidates[k] == backends[c[k]]
        invariant c != [] ==> minimum == active[c[0]]
      {
        var candidate := backends[i];
        if !candidate.alive {
          continue;
        }
        var load := candidate.active;
        if |candidates| == 0 || load < minimum {
          minimum := load;
          candidates := [candidate];
          c := [i];
        } else if load == minimum {
          candidates := candidates + [candidate];
          c := c + [i];
        }
      }
    }

    method Next(backends: seq<Backend>) returns (chosen: Backend?)
      requires tie < COUNTER
      modifies this
      ensures var c := Least(AliveOf(backends), ActiveOf(backends), |backends|);
              if c == [] then chosen == null && tie == old(tie)
              else chosen == backends[c[old(tie) % |c|]] && tie == (old(tie) + 1) % COUNTER
      ensures chosen == null <==> forall b :: b in backends ==> !b.alive
      ensures chosen != null ==>
                chosen in backends && chosen.alive && forall b :: b in backends && b.alive ==> chosen.active <= b.active
    {
      var candidates := Candidates(backends);
      NoLeastBackend(backends);
      if |candidates| == 0 {
        return null;
      }
      var index := tie % |candidates|;
      tie := (tie + 1) % COUNTER;
      LeastBackend(backends, index);
      return candidates[index];
    }
  }

  // ---------- runs of Next followed by Acquire ----------

  function Sum(active: seq<int>): int {
    if active == [] then 0 else Sum(active[..|active| - 1]) + active[|active| - 1]
  }

  lemma {:induction false} SumUpdate(active: seq<int>, i: nat, v: int)
    requires i < |active|
    ensures Sum(active[i := v]) == Sum(active) - active[i] + v
  {
    var n := |active| - 1;
    if i == n {
      assert active[i := v][..n] == active[..n];
    } else {
      assert active[i := v][..n] == active[..n][i := v];
      SumUpdate(active[..n], i, v);
    }
  }

  ghost predicate Spread(alive: seq<bool>, active: seq<int>, most: int)
    requires |alive| == |active|
  {
    forall i, j :: 0 <= i < |alive| && 0 <= j < |alive| && alive[i] && alive[j] ==> active[i] - active[j] <= most
  }

  /** From s to t only live backends took requests, this many in all, and the spread stayed. */
  ghost predicate Fair(alive: seq<bool>, s: seq<int>, t: seq<int>, steps: nat, most: int) {
    && |alive| == |s| == |t|
    && Spread(alive, t, most)
    && Sum(t) == Sum(s) + steps
    && forall i :: 0 <= i < |alive| && !alive[i] ==> t[i] == s[i]
  }

  /** A selected backend, one of the least loaded, takes one more request. */
  ghost predicate Assigned(alive: seq<bool>, s: seq<int>, t: seq<int>)
    requires |alive| == |s|
  {
    exists i: nat :: AssignedAt(alive, s, t, i)
  }

  ghost predicate AssignedAt(alive: seq<bool>, s: seq<int>, t: seq<int>, i: nat)
    requires |alive| == |s|
  {
    LeastLoaded(alive, s, |alive|, i) && t == s[i := s[i] + 1]
  }

  ghost predicate AllCounted(backends: seq<Backend>)
    reads (set b | b in backends)`active, (set b | b in backends)`outstanding
    reads set b, h | b in backends && h in b.outstanding :: h
  {
    forall b :: b in backends ==> b.Counted()
  }

  method AcquireCounted(backends: seq<Backend>, chosen: Backend) returns (handle: Handle)
    requires chosen in backends && AllCounted(backends)
    modifies chosen`active, chosen`outstanding
    ensures fresh(handle) && handle.of == chosen && handle in chosen.outstanding && AllCounted(backends)
    ensures chosen.active == old(chosen.active) + 1
  {
    handle := chosen.Acquire();
  }

  method AcquireOne(backends: seq<Backend>, chosen: Backend, ghost i: nat) returns (handle: Handle)
    requires i < |backends| && chosen == backends[i] && Distinct(backends) && AllCounted(backends)
    requires LeastLoaded(AliveOf(backends), ActiveOf(backends), |backends|, i)
    modifies chosen`active, chosen`outstanding
    ensures fresh(handle) && handle.of == chosen && handle in chosen.outstanding && AllCounted(backends)
    ensures AssignedAt(AliveOf(backends), old(ActiveOf(backends)), ActiveOf(backends), i)
  {
    ghost var s := ActiveOf(backends);
    handle := AcquireCounted(backends, chosen);
    assert ActiveOf(backends) == s[i := s[i] + 1];
  }

  lemma LeastAt(alive: seq<bool>, active: seq<int>, tie: nat)
    requires |alive| == |active| && Least(alive, active, |alive|) != []
    ensures var c := Least(alive, active, |alive|); LeastLoaded(alive, active, |alive|, c[tie % |c|])
  {
    LeastIsLeast(alive, active, |alive|);
  }

  /** Next, and then the Acquire of the handler. */
  method Assign(balancer: LeastConnections, backends: seq<Backend>) returns (handle: Handle?)
    requires balancer.tie < COUNTER && Distinct(backends) && AllCounted(backends)
    modifies balancer, (set b | b in backends)`active, (set b | b in backends)`outstanding
    ensures handle == null <==> forall b :: b in backends ==> !b.alive
    ensures handle == null ==> ActiveOf(backends) == old(ActiveOf(backends))
    ensures handle != null ==>
              exists i: nat :: i < |backends| && handle.of == backends[i]
                               && AssignedAt(AliveOf(backends), old(ActiveOf(backends)), ActiveOf(backends), i)
    ensures handle != null ==> fresh(handle) && handle in handle.of.outstanding
    ensures balancer.tie < COUNTER && AllCounted(backends)
  {
    ghost var c, tie := Least(AliveOf(backends), ActiveOf(backends), |backends|), balancer.tie;
    var chosen := balancer.Next(backends);
    if chosen == null {
      return null;
    }
    LeastAt(AliveOf(backends), ActiveOf(backends), tie);
    handle := AcquireOne(backends, chosen, c[tie % |c|]);
  }

  lemma OneMore(alive: seq<bool>, s: seq<int>, t: seq<int>, most: int)
    requires |alive| == |s| && most >= 1 && Spread(alive, s, most) && Assigned(alive, s, t)
    ensures Fair(alive, s, t, 1, most)
  {
    var i: nat :| AssignedAt(alive, s, t, i);
    SumUpdate(s, i, s[i] + 1);
  }

  /** Any number of assignments without a release, each to a backend that Next may
      choose, keeps the spread of the live backends within its initial value, or one,
      and places every request. */
  lemma {:induction false} StaysBalanced(alive: seq<bool>, states: seq<seq<int>>, steps: nat, most: int)
    requires steps < |states| && forall k :: 0 <= k < |states| ==> |states[k]| == |alive|
    requires forall k :: 0 <= k < |states| - 1 ==> Assigned(alive, states[k], states[k + 1])
    requires most >= 1 && Spread(alive, states[0], most)
    ensures Fair(alive, states[0], states[steps], steps, most)
  {
    if steps > 0 {
      StaysBalanced(alive, states, steps - 1, most);
      OneMore(alive, states[steps - 1], states[steps], most);
    }
  }

  lemma {:induction false} SumOfNone(active: seq<int>)
    requires forall i :: 0 <= i < |active| ==> active[i] == 0
    ensures Sum(active) == 0
  {
    if active != [] {
      SumOfNone(active[..|active| - 1]);
    }
  }

  /** From rest, with all backends alive, the counts differ by at most one and add up to
      the number of steps. */
  lemma BalancedFromRest(states: seq<seq<int>>, steps: nat, n: nat)
    requires steps < |states| && forall k :: 0 <= k < |states| ==> |states[k]| == n
    requires forall i :: 0 <= i < n ==> states[0][i] == 0
    requires forall k :: 0 <= k < |states| - 1 ==> Assigned(seq(n, i => true), states[k], states[k + 1])
    ensures forall i, j :: 0 <= i < n && 0 <= j < n ==> states[steps][i] - states[steps][j] <= 1
    ensures Sum(states[steps]) == steps
  {
    var alive := seq(n, i => true);
    StaysBalanced(alive, states, steps, 1);
    SumOfNone(states[0]);
    forall i, j | 0 <= i < n && 0 <= j < n ensures states[steps][i] - states[steps][j] <= 1 {
      assert alive[i] && alive[j];
    }
  }

  // ---------- rotation among equals ----------

  /** How many of m selections by Next, from this tie value on and with liveness and
      counts held fixed, choose backend i. */
  function TieTally(alive: seq<bool>, active: seq<int>, tie: nat, m: nat, i: nat): nat
    requires |alive| == |active| && Least(alive, active, |alive|) != []
  {
    var c := Least(alive, active, |alive|);
    if m == 0 then 0
    else TieTally(alive, active, tie, m - 1, i) + if c[(tie + m - 1) % |c|] == i then 1 else 0
  }

  lemma {:induction false} TieIsRoundRobin(alive: seq<bool>, active: seq<int>, tie: nat, m: nat, k: nat)
    requires |alive| == |active| && k < |Least(alive, active, |alive|)|
    ensures var c := Least(alive, active, |alive|);
            TieTally(alive, active, tie, m, c[k]) == Tally(seq(|c|, j => true), tie, m, k)
  {
    if m > 0 {
      var c := Least(alive, active, |alive|);
      TieIsRoundRobin(alive, active, tie, m - 1, k);
      LeastAreLeast(alive, active, |alive|);
      var turn := (tie + m - 1) % |c|;
      assert c[turn] == c[k] <==> turn == k;
      assert Pick(seq(|c|, j => true), turn) == Some(turn);
    }
  }

  lemma {:induction false} TieSkips(alive: seq<bool>, active: seq<int>, tie: nat, m: nat, i: nat)
    requires |alive| == |active| && Least(alive, active, |alive|) != [] && i !in Least(alive, active, |alive|)
    ensures TieTally(alive, active, tie, m, i) == 0
  {
    if m > 0 {
      TieSkips(alive, active, tie, m - 1, i);
      var c := Least(alive, active, |alive|);
      assert c[(tie + m - 1) % |c|] in c;
    }
  }

  lemma FullShare(n: nat, k: nat)
    requires k < n
    ensures Share(seq(n, j => true), k) == 1
  {
    DeadRunFacts(seq(n, j => true), k, 0);
  }

  /** Whole rotations choose every least-loaded live backend equally often, and no other. */
  lemma TiesRotateEvenly(alive: seq<bool>, active: seq<int>, tie: nat, rotations: nat, i: nat)
    requires |alive| == |active| && Least(alive, active, |alive|) != []
    ensures TieTally(alive, active, tie, rotations * |Least(alive, active, |alive|)|, i)
         == if LeastLoaded(alive, active, |alive|, i) then rotations else 0
  {
    var c := Least(alive, active, |alive|);
    LeastIsLeast(alive, active, |alive|);
    if i in c {
      var k :| 0 <= k < |c| && c[k] == i;
      TieIsRoundRobin(alive, active, tie, rotations * |c|, k);
      ExactOverRotations(seq(|c|, j => true), tie, rotations, k);
      FullShare(|c|, k);
    } else {
      TieSkips(alive, active, tie, rotations * |c|, i);
    }
  }
}

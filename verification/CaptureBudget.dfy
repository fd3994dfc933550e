/**
 The byte budget that all capturing bodies share (internal/proxy/handler.go): a
 compare-and-swap loop raises the counter, releases lower it.  Every access to the
 counter is one step, and the bodies' steps interleave freely.
 */
module CaptureBudget {
  import opened CaptureBody
  import Sums

  type Id = nat

  /** Where a body stands between two calls, or inside a Read. */
  datatype Position =
    | Idle
    | Load(data: string, eof: bool)                  // about to read the counter
    | Swap(data: string, eof: bool, seen: int)       // about to compare and swap
    | Won(data: string, eof: bool)                   // swapped; not yet recorded in `reserved`
    | Overflowing(eof: bool)                         // about to give back and drop the copy
    | Finishing                                      // about to give back after the end

  datatype Reader = Reader(body: Body, at: Position)

  datatype State = State(counter: int, readers: map<Id, Reader>)

  datatype Action =
    | Open(id: Id)
    | Begin(id: Id, data: string, eof: bool)
    | BeginClose(id: Id)
    | Advance(id: Id)

  /** After the chunk itself is dealt with, end of file finishes an unfinished body. */
  function Conclude(b: Body, eof: bool): Reader {
    if eof && !b.finished then Reader(b.(finished := true), Finishing) else Reader(b, Idle)
  }

  predicate Enabled(s: State, a: Action) {
    match a
    case Open(id) => id !in s.readers
    case Begin(id, data, eof) =>
      // readers stop at end of file and at Close
      id in s.readers && s.readers[id].at == Idle && (s.readers[id].body.finished ==> data == "")
    case BeginClose(id) => id in s.readers && s.readers[id].at == Idle
    case Advance(id) => id in s.readers && s.readers[id].at != Idle
  }

  /** One step of a body inside a call: at most one access to the counter. */
  function Move(counter: int, r: Reader, max: int): (int, Reader) {
    match r.at
    case Idle => (counter, r)
    case Load(data, eof) =>
      if |data| > max - counter then (counter, Reader(r.body.(overflow := true), Overflowing(eof)))
      else (counter, r.(at := Swap(data, eof, counter)))
    case Swap(data, eof, seen) =>
      if counter == seen then (counter + |data|, r.(at := Won(data, eof)))
      else (counter, r.(at := Load(data, eof)))
    case Won(data, eof) => (counter, Conclude(Append(r.body, data), eof))
    case Overflowing(eof) => (counter - r.body.reserved, Conclude(Discard(r.body), eof))
    case Finishing => (counter - r.body.reserved, Reader(Discard(r.body), Idle))
  }

  function Start(r: Reader, data: string, eof: bool, max: int): Reader {
    if r.body.overflow || data == "" then Conclude(r.body, eof)
    else if Fits(r.body, data, max) then r.(at := Load(data, eof))
    else Reader(r.body.(overflow := true), Overflowing(eof))
  }

  function Next(s: State, a: Action, max: int): State
    requires Enabled(s, a)
  {
    match a
    case Open(id) => s.(readers := s.readers[id := Reader(Fresh, Idle)])
    case Begin(id, data, eof) => s.(readers := s.readers[id := Start(s.readers[id], data, eof, max)])
    case BeginClose(id) => s.(readers := s.readers[id := Conclude(s.readers[id].body, true)])
    case Advance(id) =>
      var (counter, r) := Move(s.counter, s.readers[id], max);
      State(counter, s.readers[id := r])
  }

  /** What a body accounts for: its recorded reservation, and one just won. */
  function Held(r: Reader): nat {
    r.body.reserved + if r.at.Won? then |r.at.data| else 0
  }

  function Holdings(s: State): map<Id, nat> {
    map id | id in s.readers :: Held(s.readers[id])
  }

  ghost predicate Sound(r: Reader, max: int) {
    && (r.at.Swap? ==> |r.at.data| <= max - r.at.seen)
    && (r.at.Load? || r.at.Swap? || r.at.Won? ==> !r.body.overflow && !r.body.finished)
    && (r.body.finished && r.at == Idle ==> r.body.reserved == 0)
    && (r.body.finished && r.at.Overflowing? ==> r.body.reserved == 0)
  }

  ghost predicate Inv(s: State, max: int) {
    && 0 <= s.counter <= max
    && s.counter == Sums.Total(Holdings(s))
    && (forall id :: id in s.readers ==> Sound(s.readers[id], max))
  }

  lemma HoldingsStep(s: State, id: Id, r: Reader)
    ensures Sums.Total(Holdings(s.(readers := s.readers[id := r])))
         == Sums.Total(Holdings(s)) - (if id in s.readers then Held(s.readers[id]) else 0) + Held(r)
  {
    var h := Holdings(s);
    assert Holdings(s.(readers := s.readers[id := r])) == h[id := Held(r)];
    Sums.TotalUpdate(h, id, Held(r));
    if id in h {
      Sums.TotalSplit(h, id);
    } else {
      assert h - {id} == h;
    }
  }

  lemma MoveSound(counter: int, r: Reader, max: int)
    requires Sound(r, max) && Held(r) <= counter <= max
    ensures var (c, q) := Move(counter, r, max);
            Sound(q, max) && c - counter == Held(q) - Held(r) && 0 <= c <= max
  {
  }

  lemma InvStep(s: State, a: Action, max: int)
    requires Inv(s, max) && Enabled(s, a)
    ensures Inv(Next(s, a, max), max)
  {
    var t := Next(s, a, max);
    HoldingsStep(s, a.id, t.readers[a.id]);
    assert t.readers == s.readers[a.id := t.readers[a.id]];
    assert Holdings(t) == Holdings(s.(readers := t.readers));
    if a.Advance? {
      Sums.TotalSplit(Holdings(s), a.id);
      MoveSound(s.counter, s.readers[a.id], max);
    }
  }

  // ---------- whole runs ----------

  ghost predicate Execution(states: seq<State>, actions: seq<Action>, max: int) {
    && |states| == |actions| + 1
    && states[0] == State(0, map[])
    && (forall i :: 0 <= i < |actions| ==>
          Enabled(states[i], actions[i]) && states[i + 1] == Next(states[i], actions[i], max))
  }

  /** In every state of every interleaving the counter is the sum of what the bodies
      hold, and never leaves its bounds. */
  lemma {:induction false} CounterIsExact(states: seq<State>, actions: seq<Action>, max: int, i: nat)
    requires max >= 0 && Execution(states, actions, max) && i < |states|
    ensures Inv(states[i], max)
  {
    if i == 0 {
      assert Holdings(states[0]) == map[];
    } else {
      CounterIsExact(states, actions, max, i - 1);
      InvStep(states[i - 1], actions[i - 1], max);
    }
  }

  lemma {:induction false} ZeroTotal(m: map<Id, nat>)
    requires forall id :: id in m ==> m[id] == 0
    ensures Sums.Total(m) == 0
    decreases |m|
  {
    if m != map[] {
      ZeroTotal(m - {Sums.Pick(m)});
    }
  }

  /** Once every body has reached end of file or been closed, the budget is whole again. */
  lemma BudgetReturns(states: seq<State>, actions: seq<Action>, max: int, i: nat)
    requires max >= 0 && Execution(states, actions, max) && i < |states|
    requires forall id :: id in states[i].readers ==>
               states[i].readers[id].body.finished && states[i].readers[id].at == Idle
    ensures states[i].counter == 0
  {
    CounterIsExact(states, actions, max, i);
    ZeroTotal(Holdings(states[i]));
  }

  // ---------- the calls, undisturbed, are those of the object ----------

  function MoveUntilIdle(counter: int, r: Reader, max: int, fuel: nat): (int, Reader)
    decreases fuel
  {
    if fuel == 0 || r.at == Idle then (counter, r)
    else
      var (c, q) := Move(counter, r, max);
      MoveUntilIdle(c, q, max, fuel - 1)
  }

  /** A Read that no other body disturbs takes at most five steps, and leaves the body
      as the object's Read does, granted exactly when the counter has room. */
  lemma UndisturbedRead(counter: int, b: Body, data: string, eof: bool, max: int)
    ensures var (c, r) := MoveUntilIdle(counter, Start(Reader(b, Idle), data, eof, max), max, 5);
            var granted := |data| <= max - counter;
            && r.at == Idle
            && r.body == Step(b, Chunk(data, eof, granted), max)
            && c - counter == r.body.reserved - b.reserved
  {
    var r0 := Start(Reader(b, Idle), data, eof, max);
    var (c1, r1) := Move(counter, r0, max);
    var (c2, r2) := Move(c1, r1, max);
    var (c3, r3) := Move(c2, r2, max);
    var (c4, r4) := Move(c3, r3, max);
    assert MoveUntilIdle(counter, r0, max, 5) == if r0.at == Idle then (counter, r0) else MoveUntilIdle(c1, r1, max, 4);
    assert MoveUntilIdle(c1, r1, max, 4) == if r1.at == Idle then (c1, r1) else MoveUntilIdle(c2, r2, max, 3);
    assert MoveUntilIdle(c2, r2, max, 3) == if r2.at == Idle then (c2, r2) else MoveUntilIdle(c3, r3, max, 2);
    assert MoveUntilIdle(c3, r3, max, 2) == if r3.at == Idle then (c3, r3) else MoveUntilIdle(c4, r4, max, 1);
    assert r4.at == Idle;
  }

  /** And a Close likewise. */
  lemma UndisturbedClose(counter: int, b: Body, max: int)
    ensures var (c, r) := MoveUntilIdle(counter, Conclude(b, true), max, 1);
            && r == Reader(Step(b, Closed, max), Idle)
            && c - counter == r.body.reserved - b.reserved
  {
    assert MoveUntilIdle(counter, Conclude(b, true), max, 1).1.at == Idle;
  }

  /** The steps of such a call are steps of the state machine. */
  lemma CallsCanRun(s: State, id: Id, data: string, eof: bool, max: int)
    requires id in s.readers
    ensures s.readers[id].at == Idle && !s.readers[id].body.finished ==>
              && Enabled(s, Begin(id, data, eof))
              && Next(s, Begin(id, data, eof), max)
                 == State(s.counter, s.readers[id := Start(s.readers[id], data, eof, max)])
    ensures s.readers[id].at == Idle ==>
              && Enabled(s, BeginClose(id))
              && Next(s, BeginClose(id), max) == State(s.counter, s.readers[id := Conclude(s.readers[id].body, true)])
    ensures s.readers[id].at != Idle ==>
              && Enabled(s, Advance(id))
              && var (c, r) := Move(s.counter, s.readers[id], max);
                 Next(s, Advance(id), max) == State(c, s.readers[id := r])
  {
  }
}

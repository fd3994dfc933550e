/**
 The body that internal/proxy/handler.go wraps around a cacheable response: it
 copies every chunk it hands to the client and publishes the copy at end of file.
 The outcome of reserving budget is an input here; CaptureBudget.dfy models the
 reservation protocol itself.
 */
module CaptureBody {
  import opened Common

  datatype Body = Body(buffer: string, overflow: bool, finished: bool, reserved: nat)

  const Fresh: Body := Body("", false, false, 0)

  // ---------- the local steps ----------

  function Discard(b: Body): Body {
    b.(reserved := 0, buffer := "")
  }

  function Append(b: Body, chunk: string): Body {
    b.(buffer := b.buffer + chunk, reserved := b.reserved + |chunk|)
  }

  predicate Fits(b: Body, chunk: string, max: int) {
    |b.buffer| + |chunk| <= max
  }

  function Capture(b: Body, chunk: string, granted: bool, max: int): Body {
    if b.overflow || chunk == "" then b
    else if Fits(b, chunk, max) && granted then Append(b, chunk)
    else Discard(b).(overflow := true)
  }

  function Finish(b: Body): Body {
    if b.finished then b else Discard(b).(finished := true)
  }

  // ---------- the object ----------

  datatype Event = Chunk(data: string, eof: bool, granted: bool) | Closed

  function Step(b: Body, e: Event, max: int): Body {
    match e
    case Closed => Finish(b)
    case Chunk(data, eof, granted) =>
      var c := Capture(b, data, granted, max);
      if eof then Finish(c) else c
  }

  /** The body handed to commit by this event, if any. */
  function Commit(b: Body, e: Event, max: int): Option<string> {
    if e.Closed? || !e.eof then None
    else
      var c := Capture(b, e.data, e.granted, max);
      if c.overflow || c.finished then None else Some(c.buffer)
  }

  /** The bytes by which this event raises the shared counter. */
  function Taken(b: Body, e: Event, max: int): nat {
    if e.Chunk? && !b.overflow && Fits(b, e.data, max) && e.granted then |e.data| else 0
  }

  /** The counter rises by the bytes of a chunk exactly when the chunk is kept. */
  lemma TakenMeans(b: Body, e: Event, max: int)
    ensures Taken(b, e, max)
         == if e.Chunk? && Capture(b, e.data, e.granted, max).reserved > b.reserved then |e.data| else 0
    ensures e.Chunk? && Taken(b, e, max) > 0 ==> Capture(b, e.data, e.granted, max).buffer == b.buffer + e.data
  {
  }

  class CaptureBody {
    const max: int
    var buffer: string
    var overflow: bool
    var finished: bool
    var reserved: nat

    ghost function State(): Body
      reads this
    {
      Body(buffer, overflow, finished, reserved)
    }

    constructor (max: int)
      ensures this.max == max && State() == Fresh
    {
      this.max, buffer, overflow, finished, reserved := max, "", false, false, 0;
    }

    /** One Read that obtained this chunk from upstream, with or without end of file.
        What was taken from the shared counter and not kept has been given back. */
    method Read(data: string, eof: bool, granted: bool) returns (committed: Option<string>, released: nat)
      modifies this
      ensures State() == Step(old(State()), Chunk(data, eof, granted), max)
      ensures committed == Commit(old(State()), Chunk(data, eof, granted), max)
      ensures old(reserved) + Taken(old(State()), Chunk(data, eof, granted), max) == reserved + released
    {
      committed, released := None, 0;
      if !overflow && |data| > 0 {
        if |buffer| + |data| <= max && granted {
          buffer := buffer + data;
          reserved := reserved + |data|;
        } else {
          overflow := true;
          released := DiscardBuffer();
        }
      }
      if eof {
        var more;
        committed, more := FinishCapture(!overflow);
        released := released + more;
      }
    }

    method Close() returns (released: nat)
      modifies this
      ensures State() == Step(old(State()), Closed, max)
      ensures old(reserved) == reserved + released
    {
      var committed;
      committed, released := FinishCapture(false);
    }

    method FinishCapture(commit: bool) returns (committed: Option<string>, released: nat)
      modifies this
      ensures State() == Finish(old(State()))
      ensures committed == if commit && !old(finished) then Some(old(buffer)) else None
      ensures old(reserved) == reserved + released
    {
      if finished {
        return None, 0;
      }
      finished := true;
      committed := if commit then Some(buffer) else None;
      released := DiscardBuffer();
    }

    method DiscardBuffer() returns (released: nat)
      modifies this`buffer, this`reserved
      ensures State() == Discard(old(State()))
      ensures released == old(reserved) && buffer == "" && reserved == 0
    {
      released := reserved;
      reserved := 0;
      buffer := "";
    }
  }

  // ---------- whole runs ----------

  function Run(events: seq<Event>, max: int): Body {
    if events == [] then Fresh else Step(Run(events[..|events| - 1], max), events[|events| - 1], max)
  }

  function Commits(events: seq<Event>, max: int): seq<string> {
    if events == [] then []
    else
      var before, last := events[..|events| - 1], events[|events| - 1];
      match Commit(Run(before, max), last, max)
      case None => Commits(before, max)
      case Some(body) => Commits(before, max) + [body]
  }

  /** Everything the client has received. */
  function Delivered(events: seq<Event>): string {
    if events == [] then ""
    else
      var last := events[|events| - 1];
      Delivered(events[..|events| - 1]) + if last.Chunk? then last.data else ""
  }

  predicate Ends(e: Event) {
    e.Closed? || e.eof
  }

  /** This chunk was within the size bound and was granted budget. */
  ghost predicate Kept(events: seq<Event>, i: nat, max: int)
    requires i < |events|
  {
    events[i].Chunk? && events[i].data != "" ==> events[i].granted && |Delivered(events[..i + 1])| <= max
  }

  ghost predicate AllKept(events: seq<Event>, max: int) {
    forall i :: 0 <= i < |events| ==> Kept(events, i, max)
  }

  lemma AllKeptStep(events: seq<Event>, max: int)
    requires events != []
    ensures var before, last := events[..|events| - 1], events[|events| - 1];
            AllKept(events, max) <==>
              AllKept(before, max) && (last.Chunk? && last.data != "" ==> last.granted && |Delivered(events)| <= max)
  {
    var n := |events| - 1;
    var before := events[..n];
    assert events[..n + 1] == events;
    forall i | 0 <= i < n ensures Kept(before, i, max) == Kept(events, i, max) {
      assert before[..i + 1] == events[..i + 1];
    }
    assert Kept(events, n, max) <==>
             (events[n].Chunk? && events[n].data != "" ==> events[n].granted && |Delivered(events)| <= max);
  }

  /** Until the body ends, the copy is exactly what the client received, unless some
      chunk could not be kept; and nothing has been committed. */
  lemma {:induction false} CopyIsExact(events: seq<Event>, max: int)
    requires forall i :: 0 <= i < |events| ==> !Ends(events[i])
    ensures var b := Run(events, max);
            && !b.finished && (b.overflow <==> !AllKept(events, max))
            && (!b.overflow ==> b.buffer == Delivered(events))
    ensures Commits(events, max) == []
  {
    if events != [] {
      var before, last := events[..|events| - 1], events[|events| - 1];
      CopyIsExact(before, max);
      AllKeptStep(events, max);
      assert !Ends(last);
    }
  }

  /** A finished body never commits again. */
  lemma {:induction false} CommitsOnce(events: seq<Event>, n: nat, max: int)
    requires n <= |events| && Run(events[..n], max).finished
    ensures Run(events, max).finished && Commits(events, max) == Commits(events[..n], max)
  {
    if n == |events| {
      assert events[..n] == events;
    } else {
      var before := events[..|events| - 1];
      assert before[..n] == events[..n];
      CommitsOnce(before, n, max);
    }
  }

  /** What the event that ends the body commits. */
  lemma EndCommits(events: seq<Event>, max: int)
    requires events != [] && Ends(events[|events| - 1])
    requires forall i :: 0 <= i < |events| - 1 ==> !Ends(events[i])
    ensures Run(events, max).finished
    ensures Commits(events, max) ==
              if events[|events| - 1].Chunk? && AllKept(events, max) then [Delivered(events)] else []
  {
    var before, last := events[..|events| - 1], events[|events| - 1];
    CopyIsExact(before, max);
    AllKeptStep(events, max);
    assert Delivered(before) + "" == Delivered(before);
  }

  /** The whole behaviour: nothing is committed before the body ends; if it ends with
      end of file and every chunk was kept, exactly what the client received is
      committed, once; otherwise nothing ever is. */
  lemma CommitIsWholeBody(events: seq<Event>, n: nat, max: int)
    requires n < |events| && Ends(events[n]) && forall i :: 0 <= i < n ==> !Ends(events[i])
    ensures Commits(events, max) ==
              if events[n].Chunk? && AllKept(events[..n + 1], max) then [Delivered(events[..n + 1])] else []
  {
    EndCommits(events[..n + 1], max);
    CommitsOnce(events, n + 1, max);
  }

  /** At any time exactly the copy is reserved, and a copy given up is dropped. */
  lemma {:induction false} CopyIsReserved(events: seq<Event>, max: int)
    ensures |Run(events, max).buffer| == Run(events, max).reserved
    ensures Run(events, max).overflow ==> Run(events, max).buffer == ""
  {
    if events != [] {
      CopyIsReserved(events[..|events| - 1], max);
    }
  }

  // ---------- reservations of a finished body ----------

  /** A chunk arrives after the body has ended, and is captured all the same. */
  ghost predicate CapturedLate(events: seq<Event>, i: nat, max: int)
    requires i < |events|
  {
    var b, e := Run(events[..i], max), events[i];
    b.finished && !b.overflow && e.Chunk? && e.data != "" && Fits(b, e.data, max) && e.granted
  }

  lemma {:induction false} FinishedHoldsNothing(events: seq<Event>, max: int)
    requires forall i :: 0 <= i < |events| ==> !CapturedLate(events, i, max)
    ensures Run(events, max).finished ==> Run(events, max).reserved == 0
  {
    if events != [] {
      var n := |events| - 1;
      var before := events[..n];
      forall i | 0 <= i < n ensures !CapturedLate(before, i, max) {
        assert before[..i] == events[..i];
        assert !CapturedLate(events, i, max);
      }
      FinishedHoldsNothing(before, max);
      assert !CapturedLate(events, n, max);
    }
  }

  /** A finished body holds no reservation at any time, exactly when no chunk is
      captured after the end, which readers that stop at end of file or Close ensure. */
  lemma FinishedHoldsNothingIff(events: seq<Event>, max: int)
    ensures (forall n :: 0 <= n <= |events| && Run(events[..n], max).finished ==> Run(events[..n], max).reserved == 0)
            <==> (forall i :: 0 <= i < |events| ==> !CapturedLate(events, i, max))
  {
    if forall i :: 0 <= i < |events| ==> !CapturedLate(events, i, max) {
      forall n | 0 <= n <= |events| && Run(events[..n], max).finished ensures Run(events[..n], max).reserved == 0 {
        forall i | 0 <= i < n ensures !CapturedLate(events[..n], i, max) {
          assert events[..n][..i] == events[..i];
          assert !CapturedLate(events, i, max);
        }
        FinishedHoldsNothing(events[..n], max);
      }
    } else {
      var i :| 0 <= i < |events| && CapturedLate(events, i, max);
      var upTo := events[..i + 1];
      assert upTo[..i] == events[..i] && upTo[i] == events[i];
      assert Run(upTo, max).finished && Run(upTo, max).reserved > 0;
    }
  }
}

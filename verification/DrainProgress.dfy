// Flush comes to an end: in every interleaving it returns true once the workers and Flush itself have
// taken enough steps, unless its time runs out first.
module DrainProgress {
  import opened Delivery
  import opened Drain
  import Queue = BoundedQueue
  import Performance = PerformanceHistory
  import Metrics = MetricHistory

  predicate Running(phase: Phase) {
    !phase.Idle? && !phase.Returned?
  }

  /** What Flush waits for is there: the snapshot has been pushed or dropped, the channel has room for the
      marker, the worker is done with it. A buffer's flush it never waits to begin. */
  predicate Ready(s: System) {
    && (s.phase.AwaitSnapshot? ==> !s.snapshot.Building?)
    && (s.phase.SendError? && s.present.errors ==> |s.errors.queue| < s.errors.capacity)
    && (s.phase.AwaitError? ==> s.phase.marker < |s.errors.processed|)
    && (s.phase.SendSpan? && s.present.spans ==> |s.spans.queue| < s.spans.capacity)
    && (s.phase.AwaitSpan? ==> s.phase.marker < |s.spans.processed|)
  }

  /** A Flush that is ready gets on, however its deliveries end; one that is not stays as it is. */
  lemma MovesOnIff(s: System, outcome: Outcome)
    requires Running(s.phase)
    ensures Ready(s) ==> Progress(Step(s, Advance(outcome)).phase) > Progress(s.phase)
    ensures !Ready(s) ==> Step(s, Advance(outcome)) == s
  {
    hide Performance.AfterBegin, Performance.AfterEnd, Metrics.AfterBegin, Metrics.AfterEnd;
  }

  // ---------------------------------------------------------------- steps that count

  /** Worker steps until the channel is empty. */
  function Items<T>(c: Queue.Channel<T>): nat {
    2 * |c.queue| + if c.current.Some? then 1 else 0
  }

  /** Steps of Flush, the workers and the startup goroutine until Flush has returned and nothing waits. */
  function Left(s: System): nat {
    3 * (12 - Progress(s.phase)) + Items(s.errors) + Items(s.spans) + if s.snapshot.Building? then 3 else 0
  }

  /** A worker takes an item up or is done with one, the snapshot is pushed or dropped, or Flush gets on. */
  predicate Moves(s: System, event: Event) {
    || (event.Errors? && Queue.WorkerMoves(s.errors, event.errors))
    || (event.Spans? && Queue.WorkerMoves(s.spans, event.spans))
    || (event.PushSnapshot? && s.snapshot.Building?)
    || (event.Advance? && Running(s.phase) && Ready(s))
  }

  /** What an event can add to the work: two steps for each item queued, three for a snapshot. */
  function Added(event: Event): nat {
    match event
    case Errors(e) => if e.Push? || e.Mark? then 2 else 0
    case Spans(e) => if e.Push? || e.Mark? then 2 else 0
    case StartSnapshot => 3
    case _ => 0
  }

  lemma StepCounts(s: System, event: Event)
    requires Running(s.phase) || s.phase.Returned?
    requires event != TimeOut
    ensures Left(Step(s, event)) <= Left(s) + Added(event) - if Moves(s, event) then 1 else 0
    ensures Running(Step(s, event).phase) || Step(s, event).phase.Returned?
  {
    hide Performance.Step, Performance.AfterBegin, Performance.AfterEnd;
    hide Metrics.Step, Metrics.AfterBegin, Metrics.AfterEnd;
    if event.Advance? && Running(s.phase) {
      MovesOnIff(s, event.outcome);
    }
  }

  function MovesIn(s: System, events: seq<Event>): nat
    decreases |events|
  {
    if events == [] then 0
    else (if Moves(s, events[0]) then 1 else 0) + MovesIn(Step(s, events[0]), events[1..])
  }

  function AddedBy(events: seq<Event>): nat {
    if events == [] then 0 else Added(events[0]) + AddedBy(events[1..])
  }

  predicate TimeLasts(events: seq<Event>) {
    forall k :: 0 <= k < |events| ==> events[k] != TimeOut
  }

  lemma {:induction false} RunCounts(s: System, events: seq<Event>)
    requires Running(s.phase) || s.phase.Returned?
    requires TimeLasts(events)
    ensures Left(Run(s, events)) + MovesIn(s, events) <= Left(s) + AddedBy(events)
    decreases |events|
  {
    hide Step, Left, Moves, Added;
    if events != [] {
      var t := Step(s, events[0]);
      StepCounts(s, events[0]);
      RunCounts(t, events[1..]);
    }
  }

  /** However it is interleaved, a Flush whose time lasts has returned true once as many steps have been
      taken as were left and were added: by records, other flushes and idle steps none, by each item queued
      two. */
  lemma FlushReturns(s: System, events: seq<Event>)
    requires Running(s.phase) && TimeLasts(events)
    requires MovesIn(s, events) >= Left(s) + AddedBy(events)
    ensures Run(s, events).phase.Returned? && Run(s, events).phase.inTime
  {
    hide Run, MovesIn, AddedBy;
    RunCounts(s, events);
  }

  /** It is never stuck: in every reachable state in which Flush runs, Flush, a worker or the startup
      goroutine has such a step to take. */
  lemma FlushCanMove(s: System)
    requires Running(s.phase) && Inv(s) && s.errors.capacity >= 1 && s.spans.capacity >= 1
    ensures exists event :: event != TimeOut && Added(event) == 0 && Moves(s, event)
  {
    hide Performance.Inv, Metrics.Inv;
    if Ready(s) {
      assert Moves(s, Advance(Delivered));
    } else if s.phase.AwaitSnapshot? {
      assert Moves(s, PushSnapshot(0));
    } else if s.phase.SendError? || s.phase.AwaitError? {
      if s.phase.AwaitError? {
        Queue.WorkerCanMove(s.errors, s.phase.marker);
      }
      assert Moves(s, Errors(Queue.Take)) || Moves(s, Errors(Queue.Done));
    } else {
      if s.phase.AwaitSpan? {
        Queue.WorkerCanMove(s.spans, s.phase.marker);
      }
      assert Moves(s, Spans(Queue.Take)) || Moves(s, Spans(Queue.Done));
    }
  }

  /** So from every reachable state in which Flush runs it can come to return true. */
  lemma {:induction false} FlushCanFinish(s: System)
    requires Running(s.phase) && Inv(s) && s.errors.capacity >= 1 && s.spans.capacity >= 1
    ensures exists events ::
              && TimeLasts(events) && AddedBy(events) == 0 && |events| <= Left(s)
              && Run(s, events).phase.Returned? && Run(s, events).phase.inTime
    decreases Left(s)
  {
    hide Step, Inv, Left, Moves, Added;
    FlushCanMove(s);
    var event :| event != TimeOut && Added(event) == 0 && Moves(s, event);
    var t := Step(s, event);
    StepCounts(s, event);
    KeepsRunning(s, event);
    assert Run(s, [event]) == Run(t, []) == t;
    if Running(t.phase) {
      RunKeepsInv(s, [event]);
      FlushCanFinish(t);
      var rest :| && TimeLasts(rest) && AddedBy(rest) == 0 && |rest| <= Left(t)
                  && Run(t, rest).phase.Returned? && Run(t, rest).phase.inTime;
      var events := [event] + rest;
      assert events[1..] == rest;
      assert TimeLasts(events) && AddedBy(events) == 0 && Run(s, events) == Run(t, rest);
    } else {
      assert TimeLasts([event]) && AddedBy([event]) == 0;
    }
  }

  lemma KeepsRunning(s: System, event: Event)
    requires Running(s.phase) && event != TimeOut
    ensures var t := Step(s, event);
            && (Running(t.phase) || (t.phase.Returned? && t.phase.inTime))
            && t.errors.capacity == s.errors.capacity && t.spans.capacity == s.spans.capacity
  {
    hide Performance.Step, Performance.AfterBegin, Performance.AfterEnd;
    hide Metrics.Step, Metrics.AfterBegin, Metrics.AfterEnd;
  }

  // ---------------------------------------------------------------- waiting for a marker

  lemma ProgressStays(s: System, event: Event)
    requires Running(s.phase) || (s.phase.Returned? && s.phase.inTime)
    requires event != TimeOut
    ensures Progress(Step(s, event).phase) >= Progress(s.phase)
    ensures Progress(Step(s, event).phase) > Progress(s.phase) || Step(s, event).phase == s.phase
  {
    hide Performance.Step, Performance.AfterBegin, Performance.AfterEnd;
    hide Metrics.Step, Metrics.AfterBegin, Metrics.AfterEnd;
  }

  lemma {:induction false} ProgressLasts(s: System, events: seq<Event>)
    requires Progress(s.phase) >= 1 && TimeLasts(events)
    ensures Progress(Run(s, events).phase) >= Progress(s.phase)
    decreases |events|
  {
    hide Step;
    if events != [] {
      ProgressStays(s, events[0]);
      ProgressLasts(Step(s, events[0]), events[1..]);
    }
  }

  predicate ErrorWorkerMoves(s: System, event: Event) {
    event.Errors? && Queue.WorkerMoves(s.errors, event.errors)
  }

  predicate SpanWorkerMoves(s: System, event: Event) {
    event.Spans? && Queue.WorkerMoves(s.spans, event.spans)
  }

  function ErrorWorkIn(s: System, events: seq<Event>): nat
    decreases |events|
  {
    if events == [] then 0
    else (if ErrorWorkerMoves(s, events[0]) then 1 else 0) + ErrorWorkIn(Step(s, events[0]), events[1..])
  }

  function SpanWorkIn(s: System, events: seq<Event>): nat
    decreases |events|
  {
    if events == [] then 0
    else (if SpanWorkerMoves(s, events[0]) then 1 else 0) + SpanWorkIn(Step(s, events[0]), events[1..])
  }

  lemma ErrorStepCounts(s: System, event: Event)
    requires s.phase.AwaitError? && Queue.Inv(s.errors) && s.phase.marker < |s.errors.accepted|
    requires Step(s, event).phase == s.phase
    ensures var t := Step(s, event);
            && Queue.Inv(t.errors) && s.phase.marker < |t.errors.accepted|
            && |t.errors.processed| >= |s.errors.processed|
            && (Queue.Waiting(s.errors, s.phase.marker) ==>
                  Queue.Work(t.errors, s.phase.marker)
                    == Queue.Work(s.errors, s.phase.marker) - if ErrorWorkerMoves(s, event) then 1 else 0)
  {
    hide Performance.Step, Performance.AfterBegin, Performance.AfterEnd;
    hide Metrics.Step, Metrics.AfterBegin, Metrics.AfterEnd;
    if event.Errors? {
      Queue.StepKeepsInv(s.errors, event.errors);
    } else if event.PushSnapshot? {
      Queue.StepKeepsInv(s.errors, Queue.Push(event.payload));
    }
  }

  /** However many pushes, records and other flushes come in between: once the error worker has taken as
      many steps as its work up to the marker was, a Flush whose time lasts gets past the error queue. */
  lemma {:induction false} MarkerReleasesErrors(s: System, events: seq<Event>, outcome: Outcome)
    requires s.phase.AwaitError? && Queue.Inv(s.errors) && s.phase.marker < |s.errors.accepted|
    requires TimeLasts(events)
    requires ErrorWorkIn(s, events) >= Queue.Work(s.errors, s.phase.marker)
    ensures Progress(Step(Run(s, events), Advance(outcome)).phase) >= 4
    decreases |events|
  {
    hide Step, Queue.Inv;
    if events == [] {
      if !Ready(s) {
        Queue.WorkerCanMove(s.errors, s.phase.marker);
      }
      MovesOnIff(s, outcome);
    } else {
      var t := Step(s, events[0]);
      ProgressStays(s, events[0]);
      if t.phase == s.phase {
        ErrorStepCounts(s, events[0]);
        MarkerReleasesErrors(t, events[1..], outcome);
      } else {
        ProgressLasts(t, events[1..]);
        ProgressLasts(Run(t, events[1..]), [Advance(outcome)]);
      }
    }
  }

  lemma SpanStepCounts(s: System, event: Event)
    requires s.phase.AwaitSpan? && Queue.Inv(s.spans) && s.phase.marker < |s.spans.accepted|
    requires Step(s, event).phase == s.phase
    ensures var t := Step(s, event);
            && Queue.Inv(t.spans) && s.phase.marker < |t.spans.accepted|
            && |t.spans.processed| >= |s.spans.processed|
            && (Queue.Waiting(s.spans, s.phase.marker) ==>
                  Queue.Work(t.spans, s.phase.marker)
                    == Queue.Work(s.spans, s.phase.marker) - if SpanWorkerMoves(s, event) then 1 else 0)
  {
    hide Performance.Step, Performance.AfterBegin, Performance.AfterEnd;
    hide Metrics.Step, Metrics.AfterBegin, Metrics.AfterEnd;
    if event.Spans? {
      Queue.StepKeepsInv(s.spans, event.spans);
    }
  }

  /** And so with the span queue. */
  lemma {:induction false} MarkerReleasesSpans(s: System, events: seq<Event>, outcome: Outcome)
    requires s.phase.AwaitSpan? && Queue.Inv(s.spans) && s.phase.marker < |s.spans.accepted|
    requires TimeLasts(events)
    requires SpanWorkIn(s, events) >= Queue.Work(s.spans, s.phase.marker)
    ensures Progress(Step(Run(s, events), Advance(outcome)).phase) >= 6
    decreases |events|
  {
    hide Step, Queue.Inv;
    if events == [] {
      if !Ready(s) {
        Queue.WorkerCanMove(s.spans, s.phase.marker);
      }
      MovesOnIff(s, outcome);
    } else {
      var t := Step(s, events[0]);
      ProgressStays(s, events[0]);
      if t.phase == s.phase {
        SpanStepCounts(s, events[0]);
        MarkerReleasesSpans(t, events[1..], outcome);
      } else {
        ProgressLasts(t, events[1..]);
        ProgressLasts(Run(t, events[1..]), [Advance(outcome)]);
      }
    }
  }
}

// The package-level Flush: it drains the startup snapshot, the error queue, the span queue and the
// buffers in turn, while everything else goes on around it: records, pushes, the workers, and any number
// of other flushes of the buffers.
module Drain {
  import opened Delivery
  import opened MetricBuffer
  import Queue = BoundedQueue
  import Performance = PerformanceHistory
  import Metrics = MetricHistory

  type Channel = Queue.Channel<int>

  /** The startup change snapshot: built on a goroutine of its own, then pushed on the error queue at a
      position, or dropped when that is full. */
  datatype Snapshot = NotStarted | Building | Queued(position: nat) | Dropped

  /** Which parts exist yet when Flush looks: each is made on first use. */
  datatype Present = Present(errors: bool, spans: bool, performance: bool, metrics: bool)

  /** How much each part had accepted when Flush was called, and whether the snapshot was under way. */
  datatype Call = Call(errors: nat, spans: nat, performance: nat, metrics: nat, infrastructure: nat, snapshot: bool)

  /** Where Flush has got to. A wait for a marker names its position in the channel. Flush is cut short
      by a panic, which counts as done: it returns true. */
  datatype Phase =
    | Idle
    | AwaitSnapshot
    | SendError | AwaitError(marker: nat)
    | SendSpan | AwaitSpan(marker: nat)
    | FlushPerformance | AwaitPerformance
    | FlushMetrics | AwaitMetrics
    | FlushInfrastructure | AwaitInfrastructure
    | Returned(inTime: bool, cutShort: bool)

  datatype System = System(
    errors: Channel,
    spans: Channel,
    performance: Performance.System,
    metrics: Metrics.System,
    infrastructure: Metrics.System,
    snapshot: Snapshot,
    present: Present,
    call: Call,
    phase: Phase)

  datatype Event =
    | Errors(errors: Queue.Event<int>)
    | Spans(spans: Queue.Event<int>)
    | OnPerformance(performance: Performance.Event)
    | OnMetrics(metrics: Metrics.Event)
    | OnInfrastructure(infrastructure: Metrics.Event)
    | StartSnapshot
    | PushSnapshot(payload: int)
    | CallFlush(present: Present)
    | Advance(outcome: Outcome)
    | TimeOut

  /** The id Flush's own flushes of the buffers go by. */
  const OWN: nat := 0

  function Initial(errorSize: int, spanSize: int, now: int): System {
    System(
      Queue.Channel(Queue.Capacity(errorSize), [], None, [], []),
      Queue.Channel(Queue.Capacity(spanSize), [], None, [], []),
      Performance.Initial(now), Metrics.INITIAL, Metrics.INITIAL,
      NotStarted, Present(false, false, false, false), Call(0, 0, 0, 0, 0, false), Idle)
  }

  /** A part Flush does not find has accepted nothing, and the snapshot needs the error queue. */
  predicate MayFind(s: System, present: Present) {
    && (present.errors || (s.errors.accepted == [] && s.snapshot.NotStarted?))
    && (present.spans || s.spans.accepted == [])
    && (present.performance || s.performance.recorded == [])
    && (present.metrics || (s.metrics.accepted == [] && s.infrastructure.accepted == []))
  }

  function AfterCall(s: System, present: Present): System {
    if s.phase != Idle || !MayFind(s, present) then s
    else
      s.(phase := AwaitSnapshot, present := present,
         call := Call(|s.errors.accepted|, |s.spans.accepted|, |s.performance.recorded|, |s.metrics.accepted|,
                      |s.infrastructure.accepted|, !s.snapshot.NotStarted?))
  }

  /** A marker goes in when there is room; until then Flush waits for it. */
  function TrySend(c: Channel): Channel {
    Queue.AfterPush(c, Queue.Marker(OWN))
  }

  predicate OwnPanics(m: Metrics.System, outcome: Outcome) {
    OWN in m.flights && Panics(m.buffer, |m.flights[OWN].snapshot|, outcome)
  }

  function AfterAdvance(s: System, outcome: Outcome): System {
    match s.phase
    case AwaitSnapshot => if s.snapshot.Building? then s else s.(phase := SendError)
    case SendError =>
      if !s.present.errors then s.(phase := SendSpan)
      else if |s.errors.queue| < s.errors.capacity then
        s.(errors := TrySend(s.errors), phase := AwaitError(|s.errors.accepted|))
      else s
    case AwaitError(marker) => if marker < |s.errors.processed| then s.(phase := SendSpan) else s
    case SendSpan =>
      if !s.present.spans then s.(phase := FlushPerformance)
      else if |s.spans.queue| < s.spans.capacity then
        s.(spans := TrySend(s.spans), phase := AwaitSpan(|s.spans.accepted|))
      else s
    case AwaitSpan(marker) => if marker < |s.spans.processed| then s.(phase := FlushPerformance) else s
    case FlushPerformance =>
      if !s.present.performance then s.(phase := FlushMetrics)
      else
        var after := Performance.AfterBegin(s.performance, OWN);
        s.(performance := after, phase := if OWN in after.flights then AwaitPerformance else FlushMetrics)
    case AwaitPerformance => s.(performance := Performance.AfterEnd(s.performance, OWN, outcome), phase := FlushMetrics)
    case FlushMetrics =>
      if !s.present.metrics then s.(phase := Returned(true, false))
      else
        var after := Metrics.AfterBegin(s.metrics, OWN);
        s.(metrics := after, phase := if OWN in after.flights then AwaitMetrics else FlushInfrastructure)
    case AwaitMetrics =>
      s.(metrics := Metrics.AfterEnd(s.metrics, OWN, outcome),
         phase := if OwnPanics(s.metrics, outcome) then Returned(true, true) else FlushInfrastructure)
    case FlushInfrastructure =>
      var after := Metrics.AfterBegin(s.infrastructure, OWN);
      s.(infrastructure := after, phase := if OWN in after.flights then AwaitInfrastructure else Returned(true, false))
    case AwaitInfrastructure =>
      s.(infrastructure := Metrics.AfterEnd(s.infrastructure, OWN, outcome), phase := Returned(true, false))
    case _ => s
  }

  /** Flush is running and has not begun its own flush of the performance buckets. */
  predicate PerformanceAhead(phase: Phase) {
    !phase.Returned? && Progress(phase) < 7
  }

  predicate MetricsAhead(phase: Phase) {
    !phase.Returned? && Progress(phase) < 9
  }

  predicate InfrastructureAhead(phase: Phase) {
    !phase.Returned? && Progress(phase) < 11
  }

  // Besides Flush's own flush of a buffer, known by its id, everything can happen to it.

  predicate MetricsMay(event: Metrics.Event) {
    event.Record? || event.flush != OWN
  }

  predicate PerformanceMay(event: Performance.Event) {
    event.Record? || event.flush != OWN
  }

  function Step(s: System, event: Event): System {
    match event
    case Errors(e) => s.(errors := Queue.Step(s.errors, e))
    case Spans(e) => s.(spans := Queue.Step(s.spans, e))
    case OnPerformance(e) => if PerformanceMay(e) then s.(performance := Performance.Step(s.performance, e)) else s
    case OnMetrics(e) => if MetricsMay(e) then s.(metrics := Metrics.Step(s.metrics, e)) else s
    case OnInfrastructure(e) => if MetricsMay(e) then s.(infrastructure := Metrics.Step(s.infrastructure, e)) else s
    case StartSnapshot => if s.snapshot.NotStarted? then s.(snapshot := Building) else s
    case PushSnapshot(payload) =>
      if !s.snapshot.Building? then s
      else
        s.(errors := Queue.AfterPush(s.errors, Queue.Payload(payload)),
           snapshot := if |s.errors.queue| < s.errors.capacity then Queued(|s.errors.accepted|) else Dropped)
    case CallFlush(present) => AfterCall(s, present)
    case Advance(outcome) => AfterAdvance(s, outcome)
    case TimeOut => if s.phase.Idle? || s.phase.Returned? then s else s.(phase := Returned(false, false))
  }

  function Run(s: System, events: seq<Event>): System
    decreases |events|
  {
    if events == [] then s else Run(Step(s, events[0]), events[1..])
  }

  // ---------------------------------------------------------------- what each phase has made sure of

  /** How far Flush has got; a Flush that ran out of time has made sure of nothing. */
  function Progress(phase: Phase): nat {
    match phase
    case Idle => 0
    case AwaitSnapshot => 1
    case SendError => 2
    case AwaitError(_) => 3
    case SendSpan => 4
    case AwaitSpan(_) => 5
    case FlushPerformance => 6
    case AwaitPerformance => 7
    case FlushMetrics => 8
    case AwaitMetrics => 9
    case FlushInfrastructure => 10
    case AwaitInfrastructure => 11
    case Returned(inTime, _) => if inTime then 12 else 0
  }

  predicate SentAtLeastOnce(sends: seq<nat>, n: nat) {
    n <= |sends| && forall k :: 0 <= k < n ==> sends[k] >= 1
  }

  /** Each of the first n requests was sent, if no flush has mixed its transaction up. */
  predicate SentUnlessMixed(p: Performance.System, n: nat) {
    && n <= |p.recorded| == |p.sends|
    && forall k :: 0 <= k < n && p.recorded[k].name !in p.mixed ==> p.sends[k] >= 1
  }

  /** Each of the first n entries was sent, or a flush that had not sent it has removed it. */
  predicate SentUnlessLost(m: Metrics.System, n: nat) {
    n <= |m.sends| && forall k :: 0 <= k < n ==> m.sends[k] >= 1 || k < m.gone
  }

  /** The error queue's part: after the marker came through, everything accepted before the call is
      done with, and so is the snapshot if it was under way and was accepted. */
  predicate ErrorsInv(s: System) {
    var n := Progress(s.phase);
    && Queue.Inv(s.errors)
    && (s.snapshot.Queued? ==> s.snapshot.position < |s.errors.accepted|)
    && (n >= 1 ==> s.call.errors <= |s.errors.accepted|)
    && (n >= 1 && s.call.snapshot ==> s.present.errors && !s.snapshot.NotStarted?)
    && (n >= 1 && !s.present.errors ==> s.call.errors == 0)
    && (n >= 2 && s.call.snapshot ==> !s.snapshot.Building?)
    && (s.phase.AwaitError? ==>
          && s.call.errors <= s.phase.marker < |s.errors.accepted|
          && (s.call.snapshot && s.snapshot.Queued? ==> s.snapshot.position < s.phase.marker))
    && (n >= 4 ==> s.call.errors <= |s.errors.processed|)
    && (n >= 4 && s.call.snapshot && s.snapshot.Queued? ==> s.snapshot.position < |s.errors.processed|)
  }

  predicate SpansInv(s: System) {
    var n := Progress(s.phase);
    && Queue.Inv(s.spans)
    && (n >= 1 ==> s.call.spans <= |s.spans.accepted|)
    && (n >= 1 && !s.present.spans ==> s.call.spans == 0)
    && (s.phase.AwaitSpan? ==> s.call.spans <= s.phase.marker < |s.spans.accepted|)
    && (n >= 6 ==> s.call.spans <= |s.spans.processed|)
  }

  ghost predicate PerformanceInv(s: System) {
    var n := Progress(s.phase);
    && Performance.Inv(s.performance)
    && (PerformanceAhead(s.phase) ==> OWN !in s.performance.flights)
    && (n >= 1 ==> s.call.performance <= |s.performance.recorded|)
    && (n >= 1 && !s.present.performance ==> s.call.performance == 0)
    && (s.phase.AwaitPerformance? ==> OWN in s.performance.flights)
    && (n >= 7 ==> SentUnlessMixed(s.performance, s.call.performance))
  }

  predicate MetricsInv(s: System) {
    var n := Progress(s.phase);
    && Metrics.Inv(s.metrics)
    && (MetricsAhead(s.phase) ==> OWN !in s.metrics.flights)
    && (n >= 1 ==> s.call.metrics <= |s.metrics.accepted|)
    && (n >= 1 && !s.present.metrics ==> s.call.metrics == 0)
    && (s.phase.AwaitMetrics? ==> OWN in s.metrics.flights)
    && (n >= 9 ==> SentUnlessLost(s.metrics, s.call.metrics))
  }

  predicate InfrastructureInv(s: System) {
    var n := Progress(s.phase);
    && Metrics.Inv(s.infrastructure)
    && (InfrastructureAhead(s.phase) ==> OWN !in s.infrastructure.flights)
    && (n >= 1 ==> s.call.infrastructure <= |s.infrastructure.accepted|)
    && (n >= 1 && !s.present.metrics ==> s.call.infrastructure == 0)
    && (s.phase.AwaitMetrics? || s.phase.FlushInfrastructure? || s.phase.AwaitInfrastructure? ==> s.present.metrics)
    && (s.phase.AwaitInfrastructure? ==> OWN in s.infrastructure.flights)
    && (n >= 11 && s.phase != Returned(true, true) ==> SentUnlessLost(s.infrastructure, s.call.infrastructure))
  }

  ghost predicate Inv(s: System) {
    ErrorsInv(s) && SpansInv(s) && PerformanceInv(s) && MetricsInv(s) && InfrastructureInv(s)
  }

  // ---------------------------------------------------------------- each part, step by step

  lemma ChannelGrows(c: Channel, event: Queue.Event<int>)
    requires Queue.Inv(c)
    ensures var d := Queue.Step(c, event);
            Queue.Inv(d) && |c.accepted| <= |d.accepted| && |c.processed| <= |d.processed|
  {
  }

  lemma MarkerGoesLast(c: Channel)
    requires Queue.Inv(c) && |c.queue| < c.capacity
    ensures var d := TrySend(c); Queue.Inv(d) && |d.accepted| == |c.accepted| + 1 && d.processed == c.processed
  {
  }

  lemma StepKeepsErrors(s: System, event: Event)
    requires ErrorsInv(s)
    ensures ErrorsInv(Step(s, event))
  {
    hide Performance.Step, Performance.AfterBegin, Performance.AfterEnd;
    hide Metrics.Step, Metrics.AfterBegin, Metrics.AfterEnd;
    match event {
      case Errors(e) => ChannelGrows(s.errors, e);
      case PushSnapshot(payload) => Queue.StepKeepsInv(s.errors, Queue.Push(payload));
      case Advance(_) =>
        if s.phase.SendError? && |s.errors.queue| < s.errors.capacity {
          MarkerGoesLast(s.errors);
        }
      case _ =>
    }
  }

  lemma StepKeepsSpans(s: System, event: Event)
    requires SpansInv(s)
    ensures SpansInv(Step(s, event))
  {
    hide Performance.Step, Performance.AfterBegin, Performance.AfterEnd;
    hide Metrics.Step, Metrics.AfterBegin, Metrics.AfterEnd;
    match event {
      case Spans(e) => ChannelGrows(s.spans, e);
      case Advance(_) =>
        if s.phase.SendSpan? && |s.spans.queue| < s.spans.capacity {
          MarkerGoesLast(s.spans);
        }
      case _ =>
    }
  }

  predicate NoneForgotten(before: seq<nat>, after: seq<nat>) {
    |before| <= |after| && forall k :: 0 <= k < |before| ==> before[k] <= after[k]
  }

  /** Whatever happens to the performance buckets, no request and no send is forgotten. */
  lemma PerformanceGrows(p: Performance.System, event: Performance.Event)
    requires Performance.Inv(p)
    ensures var q := Performance.Step(p, event);
            && Performance.Inv(q) && p.recorded <= q.recorded && p.mixed <= q.mixed
            && |p.sends| == |p.recorded| && |q.sends| == |q.recorded| && NoneForgotten(p.sends, q.sends)
            && (PerformanceMay(event) ==> (OWN in q.flights <==> OWN in p.flights))
  {
    Performance.StepKeepsInv(p, event);
    hide Performance.Maxima, Performance.Tracked, Performance.Clashing;
  }

  /** A flush that begins sends everything pending, and what is not pending was sent before. */
  lemma PerformanceBeginCovers(p: Performance.System)
    requires Performance.Inv(p) && OWN !in p.flights
    ensures var q := Performance.AfterBegin(p, OWN);
            Performance.Inv(q) && q.recorded == p.recorded && q.mixed == p.mixed && SentUnlessMixed(q, |q.recorded|)
  {
    PerformanceGrows(p, Performance.Begin(0, OWN));
    assert p.(now := p.now + 0) == p;
    hide Performance.Inv;
    forall k: nat | k < |p.recorded| && p.recorded[k].name !in p.mixed
      ensures Performance.AfterBegin(p, OWN).sends[k] >= 1
    {
      Performance.BeginCovers(p, OWN, k);
    }
  }

  lemma PerformanceEnds(p: Performance.System, outcome: Outcome)
    requires Performance.Inv(p)
    ensures var q := Performance.AfterEnd(p, OWN, outcome);
            Performance.Inv(q) && q.recorded == p.recorded && p.mixed <= q.mixed && q.sends == p.sends
  {
    PerformanceGrows(p, Performance.End(0, OWN, outcome));
    assert p.(now := p.now + 0) == p;
  }

  lemma SendsOfAllRequests(p: Performance.System)
    requires Performance.Inv(p)
    ensures |p.sends| == |p.recorded|
  {
  }

  lemma StepKeepsPerformance(s: System, event: Event)
    requires PerformanceInv(s)
    ensures PerformanceInv(Step(s, event))
  {
    hide Performance.Step, Metrics.Step, Performance.AfterBegin, Performance.AfterEnd, Metrics.AfterBegin,
         Metrics.AfterEnd, Performance.Inv, Panics;
    SendsOfAllRequests(s.performance);
    match event {
      case OnPerformance(e) => PerformanceGrows(s.performance, e);
      case Advance(outcome) =>
        if s.phase.FlushPerformance? {
          PerformanceBeginCovers(s.performance);
        } else if s.phase.AwaitPerformance? {
          PerformanceEnds(s.performance, outcome);
        }
      case _ =>
    }
  }

  /** Nor does a metric buffer forget any. */
  lemma MetricsGrow(m: Metrics.System, event: Metrics.Event)
    requires Metrics.Inv(m)
    ensures var n := Metrics.Step(m, event);
            && Metrics.Inv(n) && |m.accepted| <= |n.accepted| && m.gone <= n.gone && NoneForgotten(m.sends, n.sends)
            && (MetricsMay(event) ==> (OWN in n.flights <==> OWN in m.flights))
  {
    Metrics.StepKeepsInv(m, event);
  }

  lemma MetricsBeginCovers(m: Metrics.System)
    requires Metrics.Inv(m) && OWN !in m.flights
    ensures var n := Metrics.AfterBegin(m, OWN);
            Metrics.Inv(n) && n.accepted == m.accepted && SentUnlessLost(n, |n.accepted|)
  {
    Metrics.StepKeepsInv(m, Metrics.Begin(OWN));
  }

  lemma MetricsEnd(m: Metrics.System, outcome: Outcome)
    requires Metrics.Inv(m)
    ensures var n := Metrics.AfterEnd(m, OWN, outcome);
            Metrics.Inv(n) && n.accepted == m.accepted && n.sends == m.sends && m.gone <= n.gone
  {
    Metrics.StepKeepsInv(m, Metrics.End(OWN, outcome));
  }

  lemma SendsOfAll(m: Metrics.System)
    requires Metrics.Inv(m)
    ensures |m.sends| == |m.accepted|
  {
  }

  lemma StepKeepsMetrics(s: System, event: Event)
    requires MetricsInv(s)
    ensures MetricsInv(Step(s, event))
  {
    hide Performance.Step, Metrics.Step, Performance.AfterBegin, Performance.AfterEnd, Metrics.AfterBegin,
         Metrics.AfterEnd, Metrics.Inv, Panics;
    SendsOfAll(s.metrics);
    match event {
      case OnMetrics(e) => MetricsGrow(s.metrics, e);
      case Advance(outcome) =>
        if s.phase.FlushMetrics? {
          MetricsBeginCovers(s.metrics);
        } else if s.phase.AwaitMetrics? {
          MetricsEnd(s.metrics, outcome);
        }
      case _ =>
    }
  }

  lemma StepKeepsInfrastructure(s: System, event: Event)
    requires InfrastructureInv(s)
    ensures InfrastructureInv(Step(s, event))
  {
    hide Performance.Step, Metrics.Step, Performance.AfterBegin, Performance.AfterEnd, Metrics.AfterBegin,
         Metrics.AfterEnd, Metrics.Inv, Panics;
    SendsOfAll(s.infrastructure);
    match event {
      case OnInfrastructure(e) => MetricsGrow(s.infrastructure, e);
      case Advance(outcome) =>
        if s.phase.FlushInfrastructure? {
          MetricsBeginCovers(s.infrastructure);
        } else if s.phase.AwaitInfrastructure? {
          MetricsEnd(s.infrastructure, outcome);
        }
      case _ =>
    }
  }

  // ---------------------------------------------------------------- every run

  lemma {:induction false} RunKeepsInv(s: System, events: seq<Event>)
    requires Inv(s)
    ensures Inv(Run(s, events))
    decreases |events|
  {
    hide Step, ErrorsInv, SpansInv, PerformanceInv, MetricsInv, InfrastructureInv;
    if events != [] {
      StepKeepsErrors(s, events[0]);
      StepKeepsSpans(s, events[0]);
      StepKeepsPerformance(s, events[0]);
      StepKeepsMetrics(s, events[0]);
      StepKeepsInfrastructure(s, events[0]);
      RunKeepsInv(Step(s, events[0]), events[1..]);
    }
  }

  lemma StartsWell(errorSize: int, spanSize: int, now: int)
    ensures Inv(Initial(errorSize, spanSize, now))
  {
    hide Performance.Inv, Queue.Capacity;
    Performance.StartsWell(now);
  }

  /** If Flush returns true, whatever went on around it: every error and change accepted before the
      call has been handed on, so has the startup snapshot when it was under way and not dropped, so has
      every trace; every request recorded before the call was in at least one delivery attempt, unless
      overlapping flushes have mixed its transaction up; and so was every metric and, unless Flush was cut
      short, every infrastructure reading, except those that overlapping flushes have removed unsent. */
  lemma FlushLeavesNothingBehind(errorSize: int, spanSize: int, now: int, events: seq<Event>)
    requires var phase := Run(Initial(errorSize, spanSize, now), events).phase; phase.Returned? && phase.inTime
    ensures var s := Run(Initial(errorSize, spanSize, now), events);
            && s.errors.processed <= s.errors.accepted && s.call.errors <= |s.errors.processed|
            && (s.call.snapshot ==>
                  s.snapshot.Dropped? || (s.snapshot.Queued? && s.snapshot.position < |s.errors.processed|))
            && s.spans.processed <= s.spans.accepted && s.call.spans <= |s.spans.processed|
            && SentUnlessMixed(s.performance, s.call.performance)
            && SentUnlessLost(s.metrics, s.call.metrics)
            && (!s.phase.cutShort ==> SentUnlessLost(s.infrastructure, s.call.infrastructure))
  {
    hide Run, Queue.Capacity, Performance.Inv, Metrics.Inv;
    StartsWell(errorSize, spanSize, now);
    RunKeepsInv(Initial(errorSize, spanSize, now), events);
  }

  // ---------------------------------------------------------------- no overlap before Flush's own

  /** As long as Flush's own flush of a buffer is ahead, one begins there only when none is in flight. */
  predicate Alone(s: System, event: Event) {
    match event
    case OnPerformance(e) => PerformanceAhead(s.phase) ==> Performance.Single(s.performance, e)
    case OnMetrics(e) => MetricsAhead(s.phase) ==> Metrics.Single(s.metrics, e)
    case OnInfrastructure(e) => InfrastructureAhead(s.phase) ==> Metrics.Single(s.infrastructure, e)
    case _ => true
  }

  predicate AloneRun(s: System, events: seq<Event>)
    decreases |events|
  {
    events == [] || (Alone(s, events[0]) && AloneRun(Step(s, events[0]), events[1..]))
  }

  ghost predicate PerformanceAlone(s: System) {
    && (PerformanceAhead(s.phase) ==> Performance.SingleInv(s.performance))
    && (Progress(s.phase) >= 7 ==> SentAtLeastOnce(s.performance.sends, s.call.performance))
  }

  predicate MetricsAlone(s: System) {
    && (MetricsAhead(s.phase) ==> Metrics.SingleInv(s.metrics))
    && (Progress(s.phase) >= 9 ==> SentAtLeastOnce(s.metrics.sends, s.call.metrics))
  }

  predicate InfrastructureAlone(s: System) {
    && (InfrastructureAhead(s.phase) ==> Metrics.SingleInv(s.infrastructure))
    && (Progress(s.phase) >= 11 && s.phase != Returned(true, true) ==>
          SentAtLeastOnce(s.infrastructure.sends, s.call.infrastructure))
  }

  lemma NothingMixed(p: Performance.System)
    requires Performance.SingleInv(p)
    ensures Performance.Inv(p) && p.mixed == {}
  {
  }

  lemma AloneKeepsPerformance(s: System, event: Event)
    requires PerformanceInv(s) && PerformanceAlone(s) && Alone(s, event)
    ensures PerformanceAlone(Step(s, event))
  {
    hide Performance.Step, Metrics.Step, Performance.AfterBegin, Performance.AfterEnd, Metrics.AfterBegin,
         Metrics.AfterEnd, Performance.Inv, Performance.SingleInv, Performance.Single, Panics;
    match event {
      case OnPerformance(e) =>
        PerformanceGrows(s.performance, e);
        if PerformanceAhead(s.phase) {
          Performance.SingleStepKeepsInv(s.performance, e);
        }
      case Advance(outcome) =>
        if s.phase.FlushPerformance? {
          NothingMixed(s.performance);
          PerformanceBeginCovers(s.performance);
        } else if s.phase.AwaitPerformance? {
          PerformanceEnds(s.performance, outcome);
        }
      case _ =>
    }
  }

  lemma MetricsBeginCoversAll(m: Metrics.System)
    requires Metrics.SingleInv(m) && OWN !in m.flights
    ensures var n := Metrics.AfterBegin(m, OWN);
            n.accepted == m.accepted && |n.sends| == |n.accepted| && SentAtLeastOnce(n.sends, |n.accepted|)
  {
  }

  lemma AloneKeepsMetrics(s: System, event: Event)
    requires MetricsInv(s) && MetricsAlone(s) && Alone(s, event)
    ensures MetricsAlone(Step(s, event))
  {
    hide Performance.Step, Metrics.Step, Performance.AfterBegin, Performance.AfterEnd, Metrics.AfterBegin,
         Metrics.AfterEnd, Metrics.SingleInv, Metrics.Inv, Metrics.Single, Panics;
    SendsOfAll(s.metrics);
    match event {
      case OnMetrics(e) =>
        MetricsGrow(s.metrics, e);
        if MetricsAhead(s.phase) {
          Metrics.SingleStepKeepsInv(s.metrics, e);
        }
      case Advance(outcome) =>
        if s.phase.FlushMetrics? {
          MetricsBeginCoversAll(s.metrics);
        } else if s.phase.AwaitMetrics? {
          MetricsEnd(s.metrics, outcome);
        }
      case _ =>
    }
  }

  lemma AloneKeepsInfrastructure(s: System, event: Event)
    requires InfrastructureInv(s) && InfrastructureAlone(s) && Alone(s, event)
    ensures InfrastructureAlone(Step(s, event))
  {
    hide Performance.Step, Metrics.Step, Performance.AfterBegin, Performance.AfterEnd, Metrics.AfterBegin,
         Metrics.AfterEnd, Metrics.SingleInv, Metrics.Inv, Metrics.Single, Panics;
    SendsOfAll(s.infrastructure);
    match event {
      case OnInfrastructure(e) =>
        MetricsGrow(s.infrastructure, e);
        if InfrastructureAhead(s.phase) {
          Metrics.SingleStepKeepsInv(s.infrastructure, e);
        }
      case Advance(outcome) =>
        if s.phase.FlushInfrastructure? {
          MetricsBeginCoversAll(s.infrastructure);
        } else if s.phase.AwaitInfrastructure? {
          MetricsEnd(s.infrastructure, outcome);
        }
      case _ =>
    }
  }

  lemma {:induction false} AloneThroughout(s: System, events: seq<Event>)
    requires Inv(s) && PerformanceAlone(s) && MetricsAlone(s) && InfrastructureAlone(s) && AloneRun(s, events)
    ensures var t := Run(s, events); PerformanceAlone(t) && MetricsAlone(t) && InfrastructureAlone(t)
    decreases |events|
  {
    hide Step, Alone, ErrorsInv, SpansInv, PerformanceInv, MetricsInv, InfrastructureInv, PerformanceAlone,
         MetricsAlone, InfrastructureAlone;
    if events != [] {
      StepKeepsErrors(s, events[0]);
      StepKeepsSpans(s, events[0]);
      StepKeepsPerformance(s, events[0]);
      StepKeepsMetrics(s, events[0]);
      StepKeepsInfrastructure(s, events[0]);
      AloneKeepsPerformance(s, events[0]);
      AloneKeepsMetrics(s, events[0]);
      AloneKeepsInfrastructure(s, events[0]);
      AloneThroughout(Step(s, events[0]), events[1..]);
    }
  }

  lemma StartsAlone(errorSize: int, spanSize: int, now: int)
    ensures var s := Initial(errorSize, spanSize, now);
            PerformanceAlone(s) && MetricsAlone(s) && InfrastructureAlone(s)
  {
    hide Performance.SingleInv, Performance.TimeInv, Queue.Capacity;
    Performance.SingleStartsWell(now);
  }

  /** When, besides, no two flushes of a buffer overlap before Flush's own of it begins, there is no
      exception: every request and metric and, unless Flush was cut short, every reading recorded before
      the call was in a delivery attempt. */
  lemma FlushAloneLeavesNothingBehind(errorSize: int, spanSize: int, now: int, events: seq<Event>)
    requires AloneRun(Initial(errorSize, spanSize, now), events)
    requires var phase := Run(Initial(errorSize, spanSize, now), events).phase; phase.Returned? && phase.inTime
    ensures var s := Run(Initial(errorSize, spanSize, now), events);
            && SentAtLeastOnce(s.performance.sends, s.call.performance)
            && SentAtLeastOnce(s.metrics.sends, s.call.metrics)
            && (!s.phase.cutShort ==> SentAtLeastOnce(s.infrastructure.sends, s.call.infrastructure))
  {
    hide Run, Queue.Capacity, Performance.Inv, Metrics.Inv, Performance.SingleInv, Metrics.SingleInv, AloneRun, Inv;
    StartsWell(errorSize, spanSize, now);
    StartsAlone(errorSize, spanSize, now);
    AloneThroughout(Initial(errorSize, spanSize, now), events);
  }

  /** Flush is cut short exactly when it ends its own flush of the metrics by letting the batch go and
      more entries have left the buffer since it took the batch than have been accepted since. */
  lemma FlushIsCutShortIff(s: System, event: Event)
    requires Inv(s) && !s.phase.Returned?
    ensures Step(s, event).phase == Returned(true, true) <==>
            && s.phase.AwaitMetrics? && event.Advance?
            && LetsGo(s.metrics.buffer.failures, event.outcome)
            && var flight := s.metrics.flights[OWN];
               s.metrics.gone - flight.base > |s.metrics.accepted| - (flight.base + |flight.snapshot|)
  {
    hide PerformanceInv, ErrorsInv, SpansInv;
    if s.phase.AwaitMetrics? && event.Advance? {
      Metrics.PanicsIff(s.metrics, OWN, event.outcome);
    }
  }

  // ---------------------------------------------------------------- cut short

  /** One metric and one reading are recorded, a ticker's flush of the metrics begins, and Flush is
      called. */
  function Opening(metric: Metric, reading: Metric): seq<Event> {
    [OnMetrics(Metrics.Record(metric, 0)), OnInfrastructure(Metrics.Record(reading, 0)),
     OnMetrics(Metrics.Begin(1)), CallFlush(Present(false, false, false, true))]
  }

  /** Flush gets to the metrics. */
  const FOUR_STEPS := [Advance(Delivered), Advance(Delivered), Advance(Delivered), Advance(Delivered)]

  /** Its own flush of them begins, and the ticker's ends first. */
  const OVERTAKEN := [Advance(Delivered), OnMetrics(Metrics.End(1, Delivered)), Advance(Delivered)]

  lemma {:induction false} RunJoin(s: System, a: seq<Event>, b: seq<Event>)
    ensures Run(s, a + b) == Run(Run(s, a), b)
    decreases |a|
  {
    hide Step;
    if a == [] {
      assert a + b == b;
    } else {
      assert (a + b)[1..] == a[1..] + b;
      RunJoin(Step(s, a[0]), a[1..], b);
    }
  }

  lemma RunOf3(s: System, a: Event, b: Event, c: Event)
    ensures Run(s, [a, b, c]) == Step(Step(Step(s, a), b), c)
  {
    hide Step;
    var events := [a, b, c];
    assert events[1..] == [b, c] && [b, c][1..] == [c] && [c][1..] == [];
    assert Run(Step(Step(s, a), b), [c]) == Step(Step(Step(s, a), b), c);
    assert Run(Step(s, a), [b, c]) == Run(Step(Step(s, a), b), [c]);
  }

  lemma RunOf4(s: System, a: Event, b: Event, c: Event, d: Event)
    ensures Run(s, [a, b, c, d]) == Step(Step(Step(Step(s, a), b), c), d)
  {
    hide Step;
    assert [a, b, c, d][1..] == [b, c, d];
    RunOf3(Step(s, a), b, c, d);
  }

  lemma OpeningRun(s: System, metric: Metric, reading: Metric)
    requires s.phase == Idle && s.snapshot == NotStarted && s.errors.accepted == [] && s.spans.accepted == []
    requires s.performance.recorded == [] && s.metrics == Metrics.INITIAL && s.infrastructure == Metrics.INITIAL
    requires metric.value.Finite? && reading.value.Finite?
    ensures var t := Run(s, Opening(metric, reading));
            && t.phase == AwaitSnapshot && t.snapshot == NotStarted && t.present == Present(false, false, false, true)
            && t.metrics.buffer == Buffer([Entry(metric, 0)], 0)
            && t.metrics.flights == map[1 := Metrics.Flight(0, [Entry(metric, 0)])]
            && t.call.infrastructure == 1 && t.infrastructure.accepted == [Entry(reading, 0)]
            && t.infrastructure.sends == [0] && t.infrastructure.flights == map[]
  {
    hide Run, Queue.Step, Performance.Step, AfterAdvance;
    var events := Opening(metric, reading);
    RunOf4(s, events[0], events[1], events[2], events[3]);
    assert events == [events[0], events[1], events[2], events[3]];
    var s1 := Step(s, events[0]);
    assert s1.metrics.buffer == Buffer([Entry(metric, 0)], 0);
    var s2 := Step(s1, events[1]);
    assert s2.infrastructure.accepted == [Entry(reading, 0)] && s2.infrastructure.sends == [0];
    var s3 := Step(s2, events[2]);
    assert s3.metrics.flights == map[1 := Metrics.Flight(0, [Entry(metric, 0)])];
  }

  lemma QuietRun(s: System)
    requires s.phase == AwaitSnapshot && s.snapshot == NotStarted && s.present == Present(false, false, false, true)
    ensures Run(s, FOUR_STEPS) == s.(phase := FlushMetrics)
  {
    hide Run, Performance.AfterBegin, Performance.AfterEnd, Metrics.AfterBegin, Metrics.AfterEnd;
    RunOf4(s, Advance(Delivered), Advance(Delivered), Advance(Delivered), Advance(Delivered));
  }

  lemma OvertakenRun(s: System, entry: Entry)
    requires s.phase == FlushMetrics && s.present.metrics && s.metrics.buffer == Buffer([entry], 0)
    requires s.metrics.flights == map[1 := Metrics.Flight(0, [entry])]
    ensures var t := Run(s, OVERTAKEN);
            t.phase == Returned(true, true) && t.call == s.call && t.infrastructure == s.infrastructure
  {
    hide Run, Performance.AfterBegin, Performance.AfterEnd, Performance.Step, Queue.Step;
    RunOf3(s, Advance(Delivered), OnMetrics(Metrics.End(1, Delivered)), Advance(Delivered));
    var s1 := Step(s, Advance(Delivered));
    assert s1.phase == AwaitMetrics && s1.metrics.flights[OWN].snapshot == [entry];
    assert 1 in s1.metrics.flights && s1.metrics.flights[1].snapshot == [entry];
    var s2 := Step(s1, OnMetrics(Metrics.End(1, Delivered)));
    assert s2.metrics.buffer == Buffer([], 0) && OWN in s2.metrics.flights;
  }

  /** Then Flush returns true although the reading was never sent. */
  lemma FlushCanSkipReadings(errorSize: int, spanSize: int, now: int, metric: Metric, reading: Metric)
    requires metric.value.Finite? && reading.value.Finite?
    ensures var s := Run(Initial(errorSize, spanSize, now), Opening(metric, reading) + FOUR_STEPS + OVERTAKEN);
            && s.phase == Returned(true, true) && s.call.infrastructure == 1
            && s.infrastructure.accepted == [Entry(reading, 0)] && s.infrastructure.sends == [0]
            && s.infrastructure.flights == map[]
  {
    hide Run, Queue.Capacity, Opening;
    var s := Initial(errorSize, spanSize, now);
    var opening := Opening(metric, reading);
    RunJoin(s, opening + FOUR_STEPS, OVERTAKEN);
    RunJoin(s, opening, FOUR_STEPS);
    OpeningRun(s, metric, reading);
    QuietRun(Run(s, opening));
    OvertakenRun(Run(s, opening).(phase := FlushMetrics), Entry(metric, 0));
  }
}

// SpanBuffer and the contexts that carry the open span: WithTrace, StartSpan, RecordSpan, FinishTrace.
// A span id is a number; every id made in this process is a fresh one.
module SpanBuffer {
  import opened Delivery

  /** What parent_span_id holds: nothing, a span of this process, or the calling service's span. */
  datatype Parent = NoParent | Local(id: nat) | Remote(caller: nat)

  datatype Span = Span(id: nat, parent: Parent, isRoot: bool, durationMs: real)

  /** One trace: the id its root span will have, the calling service's span, and what is recorded. */
  datatype Trace = Trace(root: nat, caller: Option<nat>, spans: seq<Span>, rootDurationMs: Option<real>)

  function RootParent(trace: Trace): Parent {
    match trace.caller
    case Some(id) => Remote(id)
    case None => NoParent
  }

  /** record: a root span's parent is the caller's span, never the open one. */
  function AfterRecord(trace: Trace, id: nat, parent: nat, durationMs: real, isRoot: bool): Trace {
    if isRoot then
      trace.(spans := trace.spans + [Span(id, RootParent(trace), true, durationMs)], rootDurationMs := Some(durationMs))
    else
      trace.(spans := trace.spans + [Span(id, Local(parent), false, durationMs)])
  }

  predicate IsLastRoot(spans: seq<Span>, k: nat) {
    k < |spans| && spans[k].isRoot && forall j :: k < j < |spans| ==> !spans[j].isRoot
  }

  /** A trace has a duration exactly when a root span is recorded in it, and then the last one's. */
  predicate RootIsTimed(trace: Trace) {
    && (trace.rootDurationMs.None? ==> forall k :: 0 <= k < |trace.spans| ==> !trace.spans[k].isRoot)
    && (trace.rootDurationMs.Some? ==>
          exists k :: 0 <= k < |trace.spans| && IsLastRoot(trace.spans, k)
                      && trace.spans[k].durationMs == trace.rootDurationMs.value)
  }

  lemma RecordKeepsTimed(trace: Trace, id: nat, parent: nat, durationMs: real, isRoot: bool)
    requires RootIsTimed(trace)
    ensures RootIsTimed(AfterRecord(trace, id, parent, durationMs, isRoot))
  {
    var after := AfterRecord(trace, id, parent, durationMs, isRoot);
    if isRoot {
      assert IsLastRoot(after.spans, |trace.spans|);
    } else if k :| 0 <= k < |trace.spans| && IsLastRoot(trace.spans, k)
                   && trace.rootDurationMs == Some(trace.spans[k].durationMs) {
      assert IsLastRoot(after.spans, k);
    }
  }

  class SpanBuffer {
    const rootSpanId: nat
    const remoteParentSpanId: Option<nat>
    var spans: seq<Span>
    var rootDurationMs: Option<real>

    function State(): Trace
      reads this
    {
      Trace(rootSpanId, remoteParentSpanId, spans, rootDurationMs)
    }

    predicate Valid()
      reads this
    {
      RootIsTimed(State())
    }

    constructor (root: nat, caller: Option<nat>)
      ensures Valid() && State() == Trace(root, caller, [], None)
    {
      rootSpanId, remoteParentSpanId := root, caller;
      spans, rootDurationMs := [], None;
    }

    method Record(id: nat, parent: nat, durationMs: real, isRoot: bool)
      requires Valid()
      modifies this
      ensures Valid() && State() == AfterRecord(old(State()), id, parent, durationMs, isRoot)
    {
      RecordKeepsTimed(State(), id, parent, durationMs, isRoot);
      var recorded := Local(parent);
      if isRoot {
        recorded := if remoteParentSpanId.Some? then Remote(remoteParentSpanId.value) else NoParent;
      }
      spans := spans + [Span(id, recorded, isRoot, durationMs)];
      if isRoot {
        rootDurationMs := Some(durationMs);
      }
    }

    /** Slow is a trace whose last root span took that long; one with no root span yet is not. */
    method IsSlow(thresholdMs: real) returns (slow: bool)
      requires Valid()
      ensures slow <==>
              exists k :: 0 <= k < |spans| && IsLastRoot(spans, k) && spans[k].durationMs >= thresholdMs
    {
      return rootDurationMs.Some? && rootDurationMs.value >= thresholdMs;
    }
  }

  // ---------------------------------------------------------------- contexts and runs

  /** The two values a context carries: the trace, by its place among all traces, and the open span. */
  datatype Context = Context(trace: Option<nat>, parent: Option<nat>)

  const BACKGROUND := Context(None, None)

  /** A span other than a root, from the moment it is given its id and parent. */
  datatype Started = Started(trace: nat, id: nat, parent: nat)

  /** Every trace, every context anyone holds, every span started, and which of these have ended. */
  datatype System = System(
    traces: seq<Trace>,
    contexts: seq<Context>,
    started: seq<Started>,
    ended: set<nat>,
    nextId: nat)

  const INITIAL := System([], [BACKGROUND], [], {}, 0)

  datatype Event =
    | WithTrace(context: nat, enabled: bool, caller: Option<nat>)
    | StartSpan(context: nat)
    | EndSpan(span: nat, durationMs: real)
    | RecordSpan(context: nat, durationMs: real)
    | FinishTrace(context: nat, durationMs: real)

  /** The open span a context names, or its trace's root when it names none. */
  function ParentFrom(context: Context, trace: Trace): nat {
    if context.parent.Some? then context.parent.value else trace.root
  }

  function AfterWithTrace(s: System, enabled: bool, caller: Option<nat>): System {
    if !enabled then s
    else
      s.(traces := s.traces + [Trace(s.nextId, caller, [], None)],
         contexts := s.contexts + [Context(Some(|s.traces|), Some(s.nextId))],
         nextId := s.nextId + 1)
  }

  function AfterStart(s: System, context: Context): System {
    if context.trace.None? || context.trace.value >= |s.traces| then s
    else
      var t := context.trace.value;
      s.(contexts := s.contexts + [context.(parent := Some(s.nextId))],
         started := s.started + [Started(t, s.nextId, ParentFrom(context, s.traces[t]))],
         nextId := s.nextId + 1)
  }

  /** The end function of a span, which does its work once. */
  function AfterEnd(s: System, span: nat, durationMs: real): System {
    if span >= |s.started| || span in s.ended || s.started[span].trace >= |s.traces| then s
    else
      var b := s.started[span];
      s.(ended := s.ended + {span},
         traces := s.traces[b.trace := AfterRecord(s.traces[b.trace], b.id, b.parent, durationMs, false)])
  }

  function AfterFinish(s: System, context: Context, durationMs: real): System {
    if context.trace.None? || context.trace.value >= |s.traces| then s
    else
      var t := context.trace.value;
      s.(traces := s.traces[t := AfterRecord(s.traces[t], s.traces[t].root, 0, durationMs, true)])
  }

  function Step(s: System, event: Event): System {
    if !event.EndSpan? && event.context >= |s.contexts| then s
    else
      match event
      case WithTrace(_, enabled, caller) => AfterWithTrace(s, enabled, caller)
      case StartSpan(c) => AfterStart(s, s.contexts[c])
      case EndSpan(span, durationMs) => AfterEnd(s, span, durationMs)
      case RecordSpan(c, durationMs) =>
        var t := AfterStart(s, s.contexts[c]);
        if |t.started| == |s.started| then s
        else AfterEnd(t.(contexts := s.contexts), |s.started|, durationMs)
      case FinishTrace(c, durationMs) => AfterFinish(s, s.contexts[c], durationMs)
  }

  function Run(s: System, events: seq<Event>): System
    decreases |events|
  {
    if events == [] then s else Run(Step(s, events[0]), events[1..])
  }
}

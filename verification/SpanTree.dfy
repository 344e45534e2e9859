// Spans form trees, one for each trace, however goroutines interleave.
module SpanTree {
  import opened Delivery
  import opened SpanBuffer

  /** The id is that trace's root, or a span of it among the first n started. */
  predicate Known(s: System, trace: nat, id: nat, n: nat) {
    && trace < |s.traces| && n <= |s.started|
    && (id == s.traces[trace].root || exists j :: 0 <= j < n && s.started[j].trace == trace && s.started[j].id == id)
  }

  predicate ContextHolds(s: System, context: Context) {
    match context.trace
    case None => context.parent == None
    case Some(t) => context.parent.Some? && Known(s, t, context.parent.value, |s.started|)
  }

  predicate StartedHolds(s: System, i: nat)
    requires i < |s.started|
  {
    Known(s, s.started[i].trace, s.started[i].parent, i)
  }

  /** A recorded span is its trace's root under the caller's span, or one of the spans started in it and
      ended, under the parent it was given then. */
  predicate SpanHolds(s: System, trace: nat, span: Span)
    requires trace < |s.traces|
  {
    if span.isRoot then span.id == s.traces[trace].root && span.parent == RootParent(s.traces[trace])
    else
      exists i :: i in s.ended && i < |s.started| && s.started[i].trace == trace
                  && span.id == s.started[i].id && span.parent == Local(s.started[i].parent)
  }

  predicate IdsDiffer(s: System) {
    && (forall t :: 0 <= t < |s.traces| ==> s.traces[t].root < s.nextId)
    && (forall i :: 0 <= i < |s.started| ==> s.started[i].id < s.nextId)
    && (forall t, u :: 0 <= t < u < |s.traces| ==> s.traces[t].root != s.traces[u].root)
    && (forall i, j :: 0 <= i < j < |s.started| ==> s.started[i].id != s.started[j].id)
    && (forall t, i :: 0 <= t < |s.traces| && 0 <= i < |s.started| ==> s.traces[t].root != s.started[i].id)
  }

  predicate SpansHold(s: System) {
    forall t, k :: 0 <= t < |s.traces| && 0 <= k < |s.traces[t].spans| ==> SpanHolds(s, t, s.traces[t].spans[k])
  }

  predicate Inv(s: System) {
    && IdsDiffer(s)
    && (forall c :: 0 <= c < |s.contexts| ==> ContextHolds(s, s.contexts[c]))
    && (forall i :: 0 <= i < |s.started| ==> StartedHolds(s, i))
    && SpansHold(s)
  }

  // ---------------------------------------------------------------- what each step keeps

  /** s grew into t: more traces, contexts and spans, the old ones where they were. */
  predicate Grew(s: System, t: System) {
    && |s.traces| <= |t.traces| && s.started <= t.started && s.ended <= t.ended
    && forall k :: 0 <= k < |s.traces| ==>
      s.traces[k].root == t.traces[k].root && s.traces[k].caller == t.traces[k].caller
  }

  lemma KnownStays(s: System, t: System, trace: nat, id: nat, n: nat)
    requires Grew(s, t) && Known(s, trace, id, n)
    ensures Known(t, trace, id, n)
  {
  }

  lemma ContextStays(s: System, t: System, context: Context)
    requires Grew(s, t) && ContextHolds(s, context)
    ensures ContextHolds(t, context)
  {
  }

  lemma StartedStays(s: System, t: System, i: nat)
    requires Grew(s, t) && i < |s.started| && StartedHolds(s, i)
    ensures StartedHolds(t, i)
  {
  }

  lemma SpanStays(s: System, t: System, trace: nat, span: Span)
    requires Grew(s, t) && trace < |s.traces| && SpanHolds(s, trace, span)
    ensures SpanHolds(t, trace, span)
  {
  }

  lemma OldOnesStay(s: System, t: System)
    requires Inv(s) && Grew(s, t)
    ensures forall c :: 0 <= c < |s.contexts| ==> ContextHolds(t, s.contexts[c])
    ensures forall i :: 0 <= i < |s.started| ==> StartedHolds(t, i)
    ensures forall k, j :: 0 <= k < |s.traces| && 0 <= j < |s.traces[k].spans| ==> SpanHolds(t, k, s.traces[k].spans[j])
  {
    forall c | 0 <= c < |s.contexts| ensures ContextHolds(t, s.contexts[c]) {
      ContextStays(s, t, s.contexts[c]);
    }
    forall i | 0 <= i < |s.started| ensures StartedHolds(t, i) {
      StartedStays(s, t, i);
    }
    forall k, j | 0 <= k < |s.traces| && 0 <= j < |s.traces[k].spans| ensures SpanHolds(t, k, s.traces[k].spans[j]) {
      SpanStays(s, t, k, s.traces[k].spans[j]);
    }
  }

  lemma WithTraceKeepsInv(s: System, caller: Option<nat>)
    requires Inv(s)
    ensures Inv(AfterWithTrace(s, true, caller))
  {
    var t := AfterWithTrace(s, true, caller);
    OldOnesStay(s, t);
  }

  lemma StartKeepsInv(s: System, context: Context)
    requires Inv(s) && ContextHolds(s, context)
    ensures Inv(AfterStart(s, context))
  {
    var t := AfterStart(s, context);
    OldOnesStay(s, t);
    if |t.started| > |s.started| {
      var i := |s.started|;
      KnownStays(s, t, context.trace.value, context.parent.value, i);
      assert StartedHolds(t, i);
      assert t.started[i].id == s.nextId;
      assert ContextHolds(t, t.contexts[|s.contexts|]);
    }
  }

  lemma RecordedKeepsInv(s: System, t: System, trace: nat, span: Span)
    requires Inv(s) && trace < |s.traces| && Grew(s, t) && s.started == t.started && s.contexts == t.contexts
    requires s.nextId == t.nextId && |t.traces| == |s.traces|
    requires forall k :: 0 <= k < |s.traces| ==>
      t.traces[k].spans == if k == trace then s.traces[k].spans + [span] else s.traces[k].spans
    requires SpanHolds(t, trace, span)
    ensures Inv(t)
  {
    OldOnesStay(s, t);
    forall k, j | 0 <= k < |t.traces| && 0 <= j < |t.traces[k].spans| ensures SpanHolds(t, k, t.traces[k].spans[j]) {
      if k == trace && j == |s.traces[k].spans| {
        assert t.traces[k].spans[j] == span;
      } else {
        assert t.traces[k].spans[j] == s.traces[k].spans[j];
      }
    }
  }

  lemma EndKeepsInv(s: System, i: nat, durationMs: real)
    requires Inv(s)
    ensures Inv(AfterEnd(s, i, durationMs))
  {
    var t := AfterEnd(s, i, durationMs);
    if t != s {
      var b := s.started[i];
      var span := Span(b.id, Local(b.parent), false, durationMs);
      assert i in t.ended;
      assert SpanHolds(t, b.trace, span);
      RecordedKeepsInv(s, t, b.trace, span);
    }
  }

  lemma FinishKeepsInv(s: System, context: Context, durationMs: real)
    requires Inv(s)
    ensures Inv(AfterFinish(s, context, durationMs))
  {
    var t := AfterFinish(s, context, durationMs);
    if context.trace.Some? && context.trace.value < |s.traces| {
      var k := context.trace.value;
      RecordedKeepsInv(s, t, k, Span(s.traces[k].root, RootParent(s.traces[k]), true, durationMs));
    }
  }

  lemma StepKeepsInv(s: System, event: Event)
    requires Inv(s)
    ensures Inv(Step(s, event))
  {
    hide Inv;
    if event.EndSpan? || event.context < |s.contexts| {
      match event {
        case WithTrace(_, enabled, caller) =>
          if enabled {
            WithTraceKeepsInv(s, caller);
          }
        case StartSpan(c) =>
          ContextOf(s, c);
          StartKeepsInv(s, s.contexts[c]);
        case EndSpan(i, durationMs) => EndKeepsInv(s, i, durationMs);
        case RecordSpan(c, durationMs) =>
          ContextOf(s, c);
          StartKeepsInv(s, s.contexts[c]);
          var t := AfterStart(s, s.contexts[c]);
          FewerContexts(s, t);
          EndKeepsInv(t.(contexts := s.contexts), |s.started|, durationMs);
        case FinishTrace(c, durationMs) => FinishKeepsInv(s, s.contexts[c], durationMs);
      }
    }
  }

  lemma ContextOf(s: System, c: nat)
    requires Inv(s) && c < |s.contexts|
    ensures ContextHolds(s, s.contexts[c])
  {
  }

  lemma FewerContexts(s: System, t: System)
    requires Inv(t) && s.contexts <= t.contexts
    ensures Inv(t.(contexts := s.contexts))
  {
    var u := t.(contexts := s.contexts);
    OldOnesStay(t, u);
  }

  lemma {:induction false} RunKeepsInv(s: System, events: seq<Event>)
    requires Inv(s)
    ensures Inv(Run(s, events))
    decreases |events|
  {
    hide Step, Inv;
    if events != [] {
      StepKeepsInv(s, events[0]);
      RunKeepsInv(Step(s, events[0]), events[1..]);
    }
  }

  // ---------------------------------------------------------------- what follows for every run

  /** child is a span of that trace started under parent. */
  predicate ParentOf(s: System, trace: nat, child: nat, parent: nat) {
    exists i :: 0 <= i < |s.started| && s.started[i] == Started(trace, child, parent)
  }

  /** ids leads from its first to the trace's root, each under the next. */
  predicate PathToRoot(s: System, trace: nat, ids: seq<nat>) {
    && trace < |s.traces| && ids != [] && ids[|ids| - 1] == s.traces[trace].root
    && forall k :: 0 <= k < |ids| - 1 ==> ParentOf(s, trace, ids[k], ids[k + 1])
  }

  lemma {:induction false} FollowParents(s: System, i: nat) returns (ids: seq<nat>)
    requires Inv(s) && i < |s.started|
    ensures PathToRoot(s, s.started[i].trace, ids) && ids[0] == s.started[i].id && |ids| <= i + 2
    decreases i
  {
    var b := s.started[i];
    assert StartedHolds(s, i);
    assert ParentOf(s, b.trace, b.id, b.parent);
    if b.parent == s.traces[b.trace].root {
      ids := [b.id, b.parent];
    } else {
      var j :| 0 <= j < i && s.started[j].trace == b.trace && s.started[j].id == b.parent;
      var rest := FollowParents(s, j);
      ids := [b.id] + rest;
      forall k | 0 <= k < |ids| - 1 ensures ParentOf(s, b.trace, ids[k], ids[k + 1]) {
        if k > 0 {
          assert ParentOf(s, b.trace, rest[k - 1], rest[k]);
        }
      }
    }
  }

  /** Whatever the interleaving, from every recorded span that is no root following parents reaches the
      root of its own trace. */
  lemma EverySpanReachesItsRoot(events: seq<Event>, trace: nat, k: nat) returns (ids: seq<nat>)
    requires var s := Run(INITIAL, events);
             trace < |s.traces| && k < |s.traces[trace].spans| && !s.traces[trace].spans[k].isRoot
    ensures var s := Run(INITIAL, events);
            var span := s.traces[trace].spans[k];
            && PathToRoot(s, trace, ids) && |ids| >= 2
            && ids[0] == span.id && span.parent == Local(ids[1])
  {
    RunKeepsInv(INITIAL, events);
    var s := Run(INITIAL, events);
    var span := s.traces[trace].spans[k];
    assert SpanHolds(s, trace, span);
    var i :| i in s.ended && i < |s.started| && s.started[i].trace == trace
             && span.id == s.started[i].id && span.parent == Local(s.started[i].parent);
    ids := FollowParents(s, i);
    assert span.id != s.traces[trace].root;
    var j :| 0 <= j < |s.started| && s.started[j] == Started(trace, ids[0], ids[1]);
    assert j == i;
  }

  /** And no context pairs one trace with a span of another: the open span it names is the root of its
      trace or was started in it, and of no other trace. */
  lemma ContextsDoNotMix(events: seq<Event>, c: nat, other: nat)
    requires var s := Run(INITIAL, events);
             && c < |s.contexts| && s.contexts[c].trace.Some?
             && s.contexts[c].parent.Some? && Known(s, other, s.contexts[c].parent.value, |s.started|)
    ensures Run(INITIAL, events).contexts[c].trace == Some(other)
  {
    RunKeepsInv(INITIAL, events);
    var s := Run(INITIAL, events);
    assert ContextHolds(s, s.contexts[c]);
  }

  lemma StepKeepsTimed(s: System, event: Event)
    requires forall t :: t in s.traces ==> RootIsTimed(t)
    ensures forall t :: t in Step(s, event).traces ==> RootIsTimed(t)
  {
    hide RootIsTimed;
    match event {
      case WithTrace(_, _, caller) => NewIsTimed(s.nextId, caller);
      case EndSpan(i, durationMs) => EndKeepsTimed(s, i, durationMs);
      case RecordSpan(c, durationMs) =>
        if c < |s.contexts| {
          EndKeepsTimed(AfterStart(s, s.contexts[c]).(contexts := s.contexts), |s.started|, durationMs);
        }
      case FinishTrace(c, durationMs) =>
        if c < |s.contexts| && s.contexts[c].trace.Some? && s.contexts[c].trace.value < |s.traces| {
          var trace := s.traces[s.contexts[c].trace.value];
          RecordKeepsTimed(trace, trace.root, 0, durationMs, true);
        }
      case _ =>
    }
  }

  lemma NewIsTimed(root: nat, caller: Option<nat>)
    ensures RootIsTimed(Trace(root, caller, [], None))
  {
  }

  lemma EndKeepsTimed(s: System, i: nat, durationMs: real)
    requires forall t :: t in s.traces ==> RootIsTimed(t)
    ensures forall t :: t in AfterEnd(s, i, durationMs).traces ==> RootIsTimed(t)
  {
    hide RootIsTimed;
    if i < |s.started| && s.started[i].trace < |s.traces| {
      var b := s.started[i];
      RecordKeepsTimed(s.traces[b.trace], b.id, b.parent, durationMs, false);
    }
  }

  lemma {:induction false} TimedThroughout(s: System, events: seq<Event>)
    requires forall t :: t in s.traces ==> RootIsTimed(t)
    ensures forall t :: t in Run(s, events).traces ==> RootIsTimed(t)
    decreases |events|
  {
    hide Step, RootIsTimed;
    if events != [] {
      StepKeepsTimed(s, events[0]);
      TimedThroughout(Step(s, events[0]), events[1..]);
    }
  }

  /** In every run a trace counts as slow by its last root span, and only once that is recorded. */
  lemma SlowMeans(events: seq<Event>, trace: nat, thresholdMs: real)
    requires trace < |Run(INITIAL, events).traces|
    ensures var t := Run(INITIAL, events).traces[trace];
            (t.rootDurationMs.Some? && t.rootDurationMs.value >= thresholdMs) <==>
            exists k :: 0 <= k < |t.spans| && IsLastRoot(t.spans, k) && t.spans[k].durationMs >= thresholdMs
  {
    TimedThroughout(INITIAL, events);
    var t := Run(INITIAL, events).traces[trace];
    assert RootIsTimed(t);
  }
}

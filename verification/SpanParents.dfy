// What each step of a trace does, said of the spans themselves: every span hangs on the one open in its
// context, and is recorded once, under its own id, with its own duration.
module SpanParents {
  import opened Delivery
  import opened SpanBuffer
  import opened SpanTree

  predicate InTrace(s: System, c: nat) {
    c < |s.contexts| && s.contexts[c].trace.Some?
  }

  // ---------------------------------------------------------------- one step

  /** In every run a span started in a context gets the span open there as its parent, and the context
      handed back has it as its open span. */
  lemma StartsUnderOpenSpan(events: seq<Event>, c: nat)
    requires InTrace(Run(INITIAL, events), c)
    ensures var s := Run(INITIAL, events);
            var t := Step(s, StartSpan(c));
            var n := |s.started|;
            && t.started[..n] == s.started && |t.started| == n + 1
            && Some(t.started[n].trace) == s.contexts[c].trace
            && Some(t.started[n].parent) == s.contexts[c].parent
            && t.contexts == s.contexts + [Context(s.contexts[c].trace, Some(t.started[n].id))]
            && t.traces == s.traces && t.ended == s.ended
            && (forall i :: 0 <= i < n ==> s.started[i].id != t.started[n].id)
  {
    hide Run;
    var s := Run(INITIAL, events);
    RunKeepsInv(INITIAL, events);
    ContextOf(s, c);
  }

  /** A span recorded as a whole gets the same parent, and is in its trace at once. */
  lemma RecordsUnderOpenSpan(events: seq<Event>, c: nat, durationMs: real)
    requires InTrace(Run(INITIAL, events), c)
    ensures var s := Run(INITIAL, events);
            var t := Step(s, RecordSpan(c, durationMs));
            var k := s.contexts[c].trace.value;
            && k < |s.traces| == |t.traces| && t.contexts == s.contexts
            && (forall j :: 0 <= j < |s.traces| && j != k ==> t.traces[j] == s.traces[j])
            && |t.traces[k].spans| == |s.traces[k].spans| + 1
            && var span := t.traces[k].spans[|s.traces[k].spans|];
               && t.traces[k].spans == s.traces[k].spans + [span]
               && !span.isRoot && span.durationMs == durationMs
               && span.parent.Local? && Some(span.parent.id) == s.contexts[c].parent
  {
    hide Run;
    var s := Run(INITIAL, events);
    RunKeepsInv(INITIAL, events);
    ContextOf(s, c);
    NoFutureEnded(events);
  }

  /** Only spans that were started have ended. */
  predicate EndedStarted(s: System) {
    forall i :: i in s.ended ==> i < |s.started|
  }

  lemma {:induction false} EndedThroughout(s: System, events: seq<Event>)
    requires EndedStarted(s)
    ensures EndedStarted(Run(s, events))
    decreases |events|
  {
    if events != [] {
      EndedThroughout(Step(s, events[0]), events[1..]);
    }
  }

  lemma NoFutureEnded(events: seq<Event>)
    ensures EndedStarted(Run(INITIAL, events))
  {
    EndedThroughout(INITIAL, events);
  }

  /** Ending a span the first time records it in its own trace, under its id and parent; a second time
      it does nothing. */
  lemma EndRecordsOnce(events: seq<Event>, i: nat, durationMs: real, again: real)
    requires i < |Run(INITIAL, events).started|
    ensures var s := Run(INITIAL, events);
            var t := Step(s, EndSpan(i, durationMs));
            var b := s.started[i];
            && b.trace < |s.traces| == |t.traces|
            && (forall j :: 0 <= j < |s.traces| && j != b.trace ==> t.traces[j] == s.traces[j])
            && t.traces[b.trace].spans == s.traces[b.trace].spans
                 + (if i in s.ended then [] else [Span(b.id, Local(b.parent), false, durationMs)])
            && Step(t, EndSpan(i, again)) == t
  {
    hide Run;
    var s := Run(INITIAL, events);
    RunKeepsInv(INITIAL, events);
    assert StartedHolds(s, i);
  }

  /** A new trace: its root's id is a fresh one, and the context handed back has the root open. */
  lemma TraceStarts(s: System, c: nat, caller: Option<nat>)
    requires c < |s.contexts|
    ensures var t := Step(s, WithTrace(c, true, caller));
            var k := |s.traces|;
            && |t.traces| == k + 1 && t.traces[..k] == s.traces
            && t.traces[k].caller == caller && t.traces[k].spans == [] && t.traces[k].rootDurationMs == None
            && t.contexts == s.contexts + [Context(Some(k), Some(t.traces[k].root))]
            && Step(s, WithTrace(c, false, caller)) == s
  {
  }

  /** Finishing a trace records its root span under the calling service's span, if there was one, and
      under nothing otherwise. */
  lemma FinishRecordsRoot(s: System, c: nat, durationMs: real)
    requires InTrace(s, c) && s.contexts[c].trace.value < |s.traces|
    ensures var t := Step(s, FinishTrace(c, durationMs));
            var k := s.contexts[c].trace.value;
            var parent := match s.traces[k].caller case Some(id) => Remote(id) case None => NoParent;
            && t.traces[k].spans == s.traces[k].spans + [Span(s.traces[k].root, parent, true, durationMs)]
            && t.traces[k].rootDurationMs == Some(durationMs)
            && t.contexts == s.contexts && t.started == s.started
  {
  }

  /** Without a trace in the context nothing happens. */
  lemma NothingWithoutTrace(s: System, c: nat, durationMs: real)
    requires c < |s.contexts| && s.contexts[c].trace.None?
    ensures Step(s, StartSpan(c)) == s && Step(s, RecordSpan(c, durationMs)) == s
            && Step(s, FinishTrace(c, durationMs)) == s
  {
  }

  // ---------------------------------------------------------------- spans in spans

  lemma {:induction false} ContextsStay(s: System, events: seq<Event>)
    ensures s.contexts <= Run(s, events).contexts
    decreases |events|
  {
    if events != [] {
      ContextsStay(Step(s, events[0]), events[1..]);
    }
  }

  lemma {:induction false} RunJoin(s: System, a: seq<Event>, b: seq<Event>)
    ensures Run(s, a + b) == Run(Run(s, a), b)
    decreases |a|
  {
    hide Step;
    if a == [] {
      assert a + b == b;
    } else {
      assert (a + b)[1..] == a[1..] + b;
      RunJoin(Step(s, a[0]), a[1..], b);
    }
  }

  /** Whatever happens in between: what starts in the context that starting a span handed back has that
      span as its parent. */
  lemma NestedSpans(events: seq<Event>, c: nat, between: seq<Event>)
    requires InTrace(Run(INITIAL, events), c)
    ensures var s := Run(INITIAL, events);
            var t := Step(s, StartSpan(c));
            var u := Run(t, between);
            var v := Step(u, StartSpan(|s.contexts|));
            && |t.started| == |s.started| + 1 && |v.started| == |u.started| + 1
            && v.started[|u.started|].parent == t.started[|s.started|].id
            && v.started[|u.started|].trace == t.started[|s.started|].trace
  {
    hide Run, Step;
    var s := Run(INITIAL, events);
    var t := Step(s, StartSpan(c));
    StartsUnderOpenSpan(events, c);
    ContextsStay(t, between);
    var all := events + ([StartSpan(c)] + between);
    RunJoin(INITIAL, events, [StartSpan(c)] + between);
    RunJoin(s, [StartSpan(c)], between);
    RunOfOne(s, StartSpan(c));
    StartsUnderOpenSpan(all, |s.contexts|);
  }

  lemma RunOfOne(s: System, event: Event)
    ensures Run(s, [event]) == Step(s, event)
  {
    hide Step;
    assert [event][1..] == [];
    assert Run(Step(s, event), []) == Step(s, event);
  }
}

// Every run of a MetricBuffer: records and flushes in any interleaving, with the history that the
// buffer itself does not keep.
module MetricHistory {
  import opened Delivery
  import opened MetricBuffer

  /** A flush between its two halves: what it sent, and how many accepted entries had been let go of
      when it took them. */
  datatype Flight = Flight(base: nat, snapshot: seq<Entry>)

  /** The buffer and its history: every entry ever accepted, how many of them have left the buffer, how
      often each was sent, and the batches let go of, in order. */
  datatype System = System(
    buffer: Buffer,
    flights: map<nat, Flight>,
    accepted: seq<Entry>,
    gone: nat,
    sends: seq<nat>,
    settled: seq<seq<Entry>>)

  datatype Event =
    | Record(metric: Metric, now: int)
    | Begin(flush: nat)
    | End(flush: nat, outcome: Outcome)

  const INITIAL := System(Buffer([], 0), map[], [], 0, [], [])

  function AfterBegin(s: System, flush: nat): System {
    if s.buffer.entries == [] || flush in s.flights then s
    else s.(flights := s.flights[flush := Flight(s.gone, s.buffer.entries)], sends := Sent(s.sends, s.gone))
  }

  function AfterEnd(s: System, flush: nat, outcome: Outcome): System {
    if flush !in s.flights then s
    else
      var after := AfterFlush(s.buffer, |s.flights[flush].snapshot|, outcome);
      var removed := |s.buffer.entries| - |after.entries|;
      var t := s.(buffer := after, flights := s.flights - {flush});
      if removed <= 0 then t
      else t.(gone := s.gone + removed, settled := s.settled + [s.buffer.entries[..removed]])
  }

  function Step(s: System, event: Event): System {
    match event
    case Record(metric, now) =>
      var t := s.(buffer := AfterRecord(s.buffer, metric, now));
      if Keeps(s.buffer, metric) then
        t.(accepted := s.accepted + [Entry(metric, now)], sends := s.sends + [0])
      else t
    case Begin(flush) => AfterBegin(s, flush)
    case End(flush, outcome) => AfterEnd(s, flush, outcome)
  }

  function Run(s: System, events: seq<Event>): System
    decreases |events|
  {
    if events == [] then s else Run(Step(s, events[0]), events[1..])
  }

  function Flat(batches: seq<seq<Entry>>): seq<Entry> {
    if batches == [] then [] else Flat(batches[..|batches| - 1]) + batches[|batches| - 1]
  }

  // ---------------------------------------------------------------- every run at all

  predicate FlightHolds(s: System, flight: Flight) {
    && flight.base <= s.gone
    && 0 < |flight.snapshot| <= |s.accepted| - flight.base
    && flight.snapshot == s.accepted[flight.base..flight.base + |flight.snapshot|]
  }

  predicate Inv(s: System) {
    && s.gone <= |s.accepted| == |s.sends|
    && s.buffer.entries == s.accepted[s.gone..]
    && |s.buffer.entries| <= MAX_METRIC_ENTRIES
    && s.buffer.failures < MAX_FLUSH_FAILURES
    && Flat(s.settled) == s.accepted[..s.gone]
    && (forall f :: f in s.flights ==> FlightHolds(s, s.flights[f]))
    && SentInOrder(s)
  }

  /** Of the buffered entries an older one was sent at least as often as a newer one. */
  predicate SentInOrder(s: System) {
    forall i, j :: s.gone <= i <= j < |s.sends| ==> s.sends[i] >= s.sends[j]
  }

  lemma RecordKeepsInv(s: System, metric: Metric, now: int)
    requires Inv(s)
    ensures Inv(Step(s, Record(metric, now)))
  {
  }

  lemma EndKeepsInv(s: System, flush: nat, outcome: Outcome)
    requires Inv(s) && flush in s.flights
    ensures Inv(AfterEnd(s, flush, outcome))
  {
    var t := AfterEnd(s, flush, outcome);
    var removed := |s.buffer.entries| - |t.buffer.entries|;
    if removed > 0 {
      assert t.settled[..|s.settled|] == s.settled;
      assert s.accepted[..s.gone] + s.accepted[s.gone..][..removed] == s.accepted[..s.gone + removed];
    }
    forall f | f in t.flights ensures FlightHolds(t, t.flights[f]) {
      assert FlightHolds(s, s.flights[f]);
    }
  }

  lemma StepKeepsInv(s: System, event: Event)
    requires Inv(s)
    ensures Inv(Step(s, event))
  {
    match event {
      case Record(metric, now) => RecordKeepsInv(s, metric, now);
      case Begin(flush) =>
      case End(flush, outcome) =>
        if flush in s.flights {
          EndKeepsInv(s, flush, outcome);
        }
    }
  }

  /** Whatever the interleaving, overlapping flushes included: the buffer is what was accepted less a
      prefix, never holds more than the cap, and what left it left in the order it came. */
  lemma {:induction false} RunKeepsInv(s: System, events: seq<Event>)
    requires Inv(s)
    ensures Inv(Run(s, events))
    decreases |events|
  {
    if events != [] {
      StepKeepsInv(s, events[0]);
      RunKeepsInv(Step(s, events[0]), events[1..]);
    }
  }

  // ---------------------------------------------------------------- what one flush lets go of

  /** The entry at this position, among all accepted, is one the flush sent. */
  predicate WasSent(flight: Flight, k: nat) {
    flight.base <= k < flight.base + |flight.snapshot|
  }

  /** It left the buffer between s and t. */
  predicate WasRemoved(s: System, t: System, k: nat) {
    s.gone <= k < t.gone
  }

  /** A flush that ends by letting its batch go removes exactly the entries it sent if, and only if, no
      other flush has removed any since it took them. */
  lemma RemovesWhatItSentIff(s: System, flush: nat, outcome: Outcome)
    requires Inv(s) && flush in s.flights && LetsGo(s.buffer.failures, outcome)
    ensures var t := Step(s, End(flush, outcome));
            (forall k: nat :: WasRemoved(s, t, k) <==> WasSent(s.flights[flush], k))
            <==> s.flights[flush].base == s.gone
  {
    var flight := s.flights[flush];
    var t := Step(s, End(flush, outcome));
    assert FlightHolds(s, flight);
    assert WasSent(flight, flight.base);
    assert WasRemoved(s, t, flight.base) ==> s.gone <= flight.base;
  }

  /** Two flushes at once can lose an entry that was never sent: the second end removes again what the
      first one had already removed, by number. */
  lemma OverlappingFlushesLoseAnEntry(a: Metric, b: Metric)
    requires a.value.Finite? && b.value.Finite?
    ensures var events := [Record(a, 0), Begin(0), Begin(1), End(0, Delivered), Record(b, 1), End(1, Delivered)];
            var s := Run(INITIAL, events);
            s.accepted == [Entry(a, 0), Entry(b, 1)] && s.buffer.entries == [] && s.sends == [2, 0]
  {
    var s0 := INITIAL;
    var s1 := Step(s0, Record(a, 0));
    var s2 := Step(s1, Begin(0));
    var s3 := Step(s2, Begin(1));
    assert s3.sends == [2];
    var s4 := Step(s3, End(0, Delivered));
    assert s4.buffer.entries == [];
    var s5 := Step(s4, Record(b, 1));
    assert s5.buffer.entries == [Entry(b, 1)] && s5.flights[1].snapshot == [Entry(a, 0)];
    var s6 := Step(s5, End(1, Delivered));
    var events := [Record(a, 0), Begin(0), Begin(1), End(0, Delivered), Record(b, 1), End(1, Delivered)];
    RunOf6(events);
  }

  lemma RunOf6(events: seq<Event>)
    requires |events| == 6
    ensures Run(INITIAL, events) ==
            var s := Step(Step(Step(INITIAL, events[0]), events[1]), events[2]);
            Step(Step(Step(s, events[3]), events[4]), events[5])
  {
    hide Step;
    var s := Step(Step(Step(INITIAL, events[0]), events[1]), events[2]);
    RunOf3(INITIAL, events);
    RunOf3(s, events[3..]);
    assert events[3..][3..] == [];
  }

  lemma RunOf3(s: System, events: seq<Event>)
    requires |events| >= 3
    ensures Run(s, events) == Run(Step(Step(Step(s, events[0]), events[1]), events[2]), events[3..])
  {
    hide Step;
    assert events[1..][1..] == events[2..] && events[2..][1..] == events[3..];
    assert Run(s, events) == Run(Step(s, events[0]), events[1..]);
    assert Run(Step(s, events[0]), events[1..]) == Run(Step(Step(s, events[0]), events[1]), events[2..]);
  }

  /** No entry has left the buffer that was never sent. */
  predicate NothingLost(s: System) {
    s.gone <= |s.sends| && forall k :: 0 <= k < s.gone ==> s.sends[k] >= 1
  }

  /** This step removes an entry that was never sent: it ends a flush that lets its batch go and finds at
      least as many entries as it sent, of which the last it takes was in no batch. */
  predicate LosesAt(s: System, event: Event) {
    && event.End? && event.flush in s.flights && LetsGo(s.buffer.failures, event.outcome)
    && var last := s.gone + |s.flights[event.flush].snapshot|;
       0 < last <= |s.sends| && s.sends[last - 1] == 0
  }

  lemma LosesIff(s: System, event: Event)
    requires Inv(s)
    ensures var t := Step(s, event);
            && s.gone <= t.gone <= |t.sends|
            && (forall k :: 0 <= k < s.gone ==> t.sends[k] == s.sends[k])
            && ((forall k :: s.gone <= k < t.gone ==> t.sends[k] >= 1) <==> !LosesAt(s, event))
  {
    hide Flat;
    if event.End? && event.flush in s.flights {
      var flight := s.flights[event.flush];
      assert FlightHolds(s, flight);
      var t := Step(s, event);
      if t.gone > s.gone {
        assert t.gone == s.gone + |flight.snapshot| && t.sends == s.sends;
        assert forall k :: s.gone <= k < t.gone ==> s.sends[k] >= s.sends[t.gone - 1];
      }
    }
  }

  predicate EverLoses(s: System, events: seq<Event>)
    decreases |events|
  {
    events != [] && (LosesAt(s, events[0]) || EverLoses(Step(s, events[0]), events[1..]))
  }

  lemma {:induction false} LosesFrom(s: System, events: seq<Event>)
    requires Inv(s)
    ensures NothingLost(Run(s, events)) <==> NothingLost(s) && !EverLoses(s, events)
    decreases |events|
  {
    hide Step, Inv, LosesAt;
    SendsCover(s);
    if events != [] {
      StepKeepsInv(s, events[0]);
      LosesIff(s, events[0]);
      LosesFrom(Step(s, events[0]), events[1..]);
    }
  }

  lemma SendsCover(s: System)
    requires Inv(s)
    ensures s.gone <= |s.sends|
  {
  }

  /** In every run, with any number of flushes at once: every entry that has left the buffer was sent if,
      and only if, no flush ever ended by removing an entry that was in no batch; and that can be told
      from the last entry it removes. */
  lemma NothingIsLostIff(events: seq<Event>)
    ensures NothingLost(Run(INITIAL, events)) <==> !EverLoses(INITIAL, events)
  {
    LosesFrom(INITIAL, events);
  }

  /** A flush panics when it ends if, and only if, it lets its batch go and more entries have left the
      buffer since it took it than have been accepted since. */
  lemma PanicsIff(s: System, flush: nat, outcome: Outcome)
    requires Inv(s) && flush in s.flights
    ensures var flight := s.flights[flush];
            Panics(s.buffer, |flight.snapshot|, outcome) <==>
            && LetsGo(s.buffer.failures, outcome)
            && s.gone - flight.base > |s.accepted| - (flight.base + |flight.snapshot|)
  {
    assert FlightHolds(s, s.flights[flush]);
  }

  // ---------------------------------------------------------------- one flush in flight

  /** The flush may begin only when none is in flight. */
  predicate Single(s: System, event: Event) {
    event.Begin? ==> s.flights == map[]
  }

  predicate SingleRun(s: System, events: seq<Event>)
    decreases |events|
  {
    events == [] || (Single(s, events[0]) && SingleRun(Step(s, events[0]), events[1..]))
  }

  /** The front of the buffer is in flight, and what is behind it was never sent. */
  predicate FrontInFlight(s: System, flight: Flight) {
    && flight.base == s.gone
    && (forall k :: s.gone <= k < |s.sends| ==>
          if k < s.gone + |flight.snapshot| then 1 <= s.sends[k] <= s.buffer.failures + 1 else s.sends[k] == 0)
  }

  function InFlight(s: System): nat {
    if s.flights == map[] then 0 else 1
  }

  /** The failed flushes in a row are the times the oldest buffered entry was sent, not counting a flush
      in flight; an empty buffer has none. */
  predicate Budget(s: System) {
    && (s.gone < |s.sends| ==> s.sends[s.gone] == s.buffer.failures + InFlight(s))
    && (s.gone == |s.sends| ==> s.buffer.failures == 0)
  }

  /** At most one flight, and no entry sent too often: the failed flushes in a row bound how often
      what is still buffered was sent. */
  predicate SingleInv(s: System) {
    && Inv(s) && Budget(s)
    && (forall f, g :: f in s.flights && g in s.flights ==> f == g)
    && (forall f :: f in s.flights ==> FrontInFlight(s, s.flights[f]))
    && (forall k :: 0 <= k < s.gone ==> 1 <= s.sends[k] <= MAX_FLUSH_FAILURES)
    && (s.flights == map[] ==> forall k :: s.gone <= k < |s.sends| ==> s.sends[k] <= s.buffer.failures)
  }

  lemma RecordKeepsSingle(s: System, metric: Metric, now: int)
    requires SingleInv(s)
    ensures SingleInv(Step(s, Record(metric, now)))
  {
    RecordKeepsInv(s, metric, now);
    var t := Step(s, Record(metric, now));
    forall f | f in t.flights ensures FrontInFlight(t, t.flights[f]) {
      assert FrontInFlight(s, s.flights[f]) && FlightHolds(s, s.flights[f]);
    }
  }

  lemma EndKeepsSingle(s: System, flush: nat, outcome: Outcome)
    requires SingleInv(s) && flush in s.flights
    ensures SingleInv(AfterEnd(s, flush, outcome))
  {
    hide Flat;
    EndKeepsInv(s, flush, outcome);
    var flight := s.flights[flush];
    assert FrontInFlight(s, flight) && FlightHolds(s, flight);
    var t := AfterEnd(s, flush, outcome);
    assert t.flights == map[];
    if LetsGo(s.buffer.failures, outcome) {
      assert t.gone == s.gone + |flight.snapshot| && t.buffer.failures == 0;
    } else {
      assert t.gone == s.gone && t.buffer.failures == s.buffer.failures + 1;
    }
  }

  lemma SingleStepKeepsInv(s: System, event: Event)
    requires SingleInv(s) && Single(s, event)
    ensures SingleInv(Step(s, event))
  {
    match event {
      case Record(metric, now) => RecordKeepsSingle(s, metric, now);
      case Begin(flush) => StepKeepsInv(s, event);
      case End(flush, outcome) =>
        if flush in s.flights {
          EndKeepsSingle(s, flush, outcome);
        }
    }
  }

  lemma {:induction false} SingleRunKeepsInv(s: System, events: seq<Event>)
    requires SingleInv(s) && SingleRun(s, events)
    ensures SingleInv(Run(s, events))
    decreases |events|
  {
    if events != [] {
      SingleStepKeepsInv(s, events[0]);
      SingleRunKeepsInv(Step(s, events[0]), events[1..]);
    }
  }

  /** With one flush in flight at a time, any records between its halves: what was accepted is the
      batches let go of, in order, and then the buffer; the batch in flight is the front of the buffer;
      the cap holds; the failures counted are the sends of the oldest buffered entry, not counting a
      flush in flight; every entry let go of was sent at least once, and none is sent more than five
      times. */
  lemma HistoryIsExact(events: seq<Event>)
    requires SingleRun(INITIAL, events)
    ensures var s := Run(INITIAL, events);
            && s.accepted == Flat(s.settled) + s.buffer.entries
            && (forall f :: f in s.flights ==> s.flights[f].snapshot <= s.buffer.entries)
            && |s.buffer.entries| <= 1000 && s.buffer.failures < 5
            && |s.sends| == |s.accepted| && s.gone == |Flat(s.settled)|
            && (s.gone < |s.sends| ==> s.sends[s.gone] == s.buffer.failures + InFlight(s))
            && (s.gone == |s.sends| ==> s.buffer.failures == 0)
            && (forall k :: 0 <= k < |s.accepted| ==> s.sends[k] <= 5)
            && (forall k :: 0 <= k < |Flat(s.settled)| ==> s.sends[k] >= 1)
  {
    hide Run;
    SingleRunKeepsInv(INITIAL, events);
    var s := Run(INITIAL, events);
    assert s.accepted == s.accepted[..s.gone] + s.accepted[s.gone..];
    forall f | f in s.flights ensures s.flights[f].snapshot <= s.buffer.entries {
      assert FrontInFlight(s, s.flights[f]) && FlightHolds(s, s.flights[f]);
    }
    forall k | 0 <= k < |s.accepted| ensures s.sends[k] <= MAX_FLUSH_FAILURES {
      if s.flights != map[] {
        var f :| f in s.flights;
        assert FrontInFlight(s, s.flights[f]);
      }
    }
  }

  /** Nor does a flush that is alone ever panic. */
  lemma AloneNeverPanics(s: System, flush: nat, outcome: Outcome)
    requires SingleInv(s) && flush in s.flights
    ensures !Panics(s.buffer, |s.flights[flush].snapshot|, outcome)
  {
    assert FrontInFlight(s, s.flights[flush]) && FlightHolds(s, s.flights[flush]);
  }

  /** What has left the buffer is never sent again. */
  lemma {:induction false} GoneIsNotSent(s: System, events: seq<Event>, k: nat)
    requires k < s.gone && k < |s.sends|
    ensures var t := Run(s, events); k < |t.sends| && t.sends[k] == s.sends[k]
    decreases |events|
  {
    if events != [] {
      GoneIsNotSent(Step(s, events[0]), events[1..], k);
    }
  }

  /** With one flush in flight until then: an entry in a batch that was delivered or rejected is not sent
      again, whatever happens after. */
  lemma SettledIsNotResent(before: seq<Event>, flush: nat, outcome: Outcome, after: seq<Event>, k: nat)
    requires SingleRun(INITIAL, before) && flush in Run(INITIAL, before).flights
    requires outcome == Delivered || outcome == Rejected
    requires WasSent(Run(INITIAL, before).flights[flush], k)
    ensures var s := Run(INITIAL, before);
            var t := Step(s, End(flush, outcome));
            var u := Run(t, after);
            k < |s.sends| && k < |u.sends| && k < t.gone && u.sends[k] == s.sends[k]
  {
    hide Run;
    SingleRunKeepsInv(INITIAL, before);
    var s := Run(INITIAL, before);
    assert FrontInFlight(s, s.flights[flush]) && FlightHolds(s, s.flights[flush]);
    GoneIsNotSent(Step(s, End(flush, outcome)), after, k);
  }

  /** And each batch let go of is the one its own flush had sent, all of it. */
  lemma SettlesItsOwnBatch(s: System, flush: nat, outcome: Outcome)
    requires SingleInv(s) && flush in s.flights
    ensures var t := Step(s, End(flush, outcome));
            t.settled ==
            if LetsGo(s.buffer.failures, outcome) then s.settled + [s.flights[flush].snapshot] else s.settled
  {
    var flight := s.flights[flush];
    assert FrontInFlight(s, flight) && FlightHolds(s, flight);
    assert s.buffer.entries[..|flight.snapshot|] == flight.snapshot;
  }
}

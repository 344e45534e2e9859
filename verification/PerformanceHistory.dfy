// Every run of a PerformanceFlusher, with any number of flushes at once: when a transaction's bucket is
// what its pending requests add up to, what its maximum means, and that nothing is lost.
module PerformanceHistory {
  import opened Delivery
  import opened PerformanceFlusher
  import opened PerformanceTally

  /** A flush between its two halves: its snapshot, the positions of the requests pending when it took
      it, and when that was. */
  datatype Flight = Flight(base: nat, cut: nat, sent: Buckets, periodEnd: int)

  /** A window let go of, with the requests that went with it. */
  datatype Window = Window(start: int, end: int, requests: seq<Request>, delivered: bool)

  /** The flusher and the history it does not keep: every request, how many of them have been let go of,
      how often each was sent, which transactions overlapping flushes have mixed up, and from which
      request on each bucket has been there. The clock never runs backwards. */
  datatype System = System(
    flusher: Flusher,
    flights: map<nat, Flight>,
    recorded: seq<Request>,
    gone: nat,
    sends: seq<nat>,
    mixed: set<string>,
    born: map<string, nat>,
    windows: seq<Window>,
    now: int)

  /** Each event happens a while after the one before. */
  datatype Event =
    | Record(wait: nat, name: string, duration: real)
    | Begin(wait: nat, flush: nat)
    | End(wait: nat, flush: nat, outcome: Outcome)

  function Initial(now: int): System {
    System(Flusher(map[], 0, now), map[], [], 0, [], {}, map[], [], now)
  }

  function Max(a: nat, b: nat): nat {
    if a < b then b else a
  }

  /** The requests at these positions, as far as there are any. */
  function Slice(requests: seq<Request>, from: nat, to: nat): seq<Request> {
    if from <= to <= |requests| then requests[from..to] else []
  }

  function Pending(s: System): seq<Request> {
    Slice(s.recorded, s.gone, |s.recorded|)
  }

  function AfterRecord(s: System, name: string, duration: real): System {
    s.(flusher := s.flusher.(buckets := Tallied(s.flusher.buckets, name, duration)),
       recorded := s.recorded + [Request(name, duration, s.now)],
       sends := s.sends + [0],
       born := if name in s.flusher.buckets then s.born else s.born[name := |s.recorded|])
  }

  /** Whether a flush that begins now is known to send this request: it is pending, and its bucket is
      no mixture. */
  predicate GoesOut(s: System, k: nat) {
    s.gone <= k < |s.recorded| && s.recorded[k].name !in s.mixed
  }

  function AfterBegin(s: System, flush: nat): System {
    if flush in s.flights || s.flusher.buckets == map[] then s
    else
      s.(flights := s.flights[flush := Flight(s.gone, |s.recorded|, s.flusher.buckets, s.now)],
         sends := seq(|s.sends|, k requires 0 <= k < |s.sends| => if GoesOut(s, k) then s.sends[k] + 1 else s.sends[k]))
  }

  /** The batch holds requests of this transaction that another flush has let go of since, and others
      of it were recorded since: taking the batch out of its bucket takes out some of these. */
  predicate Clashes(recorded: seq<Request>, gone: nat, flight: Flight, name: string) {
    && CountOf(name, Slice(recorded, flight.base, if gone < flight.cut then gone else flight.cut)) > 0
    && CountOf(name, Slice(recorded, Max(gone, flight.cut), |recorded|)) > 0
  }

  function Clashing(recorded: seq<Request>, gone: nat, flight: Flight): set<string> {
    set k | 0 <= k < |recorded| && Clashes(recorded, gone, flight, recorded[k].name) :: recorded[k].name
  }

  function AfterEnd(s: System, flush: nat, outcome: Outcome): System {
    if flush !in s.flights then s
    else
      var flight := s.flights[flush];
      var after := AfterFlush(s.flusher, flight.sent, flight.periodEnd, outcome);
      var t := s.(flusher := after, flights := s.flights - {flush});
      if !LetsGo(s.flusher.failures, outcome) then t
      else
        var gone := Max(s.gone, flight.cut);
        var requests := Slice(s.recorded, s.gone, gone);
        t.(gone := gone,
           mixed := s.mixed + Clashing(s.recorded, s.gone, flight),
           born := s.born - (s.born.Keys - after.buckets.Keys),
           windows := s.windows + [Window(s.flusher.periodStart, flight.periodEnd, requests, outcome.Delivered?)])
  }

  function Step(s: System, event: Event): System {
    var t := s.(now := s.now + event.wait);
    match event
    case Record(_, name, duration) => AfterRecord(t, name, duration)
    case Begin(_, flush) => AfterBegin(t, flush)
    case End(_, flush, outcome) => AfterEnd(t, flush, outcome)
  }

  function Run(s: System, events: seq<Event>): System
    decreases |events|
  {
    if events == [] then s else Run(Step(s, events[0]), events[1..])
  }

  function Requests(windows: seq<Window>): seq<Request> {
    if windows == [] then [] else Requests(windows[..|windows| - 1]) + windows[|windows| - 1].requests
  }

  // ---------------------------------------------------------------- what every step keeps

  predicate Shape(s: System) {
    && s.gone <= |s.recorded| == |s.sends| && s.flusher.failures < MAX_FLUSH_FAILURES
    && (forall f :: f in s.flights ==>
          s.flights[f].base <= s.gone && s.flights[f].base <= s.flights[f].cut <= |s.recorded|)
    && Requests(s.windows) == s.recorded[..s.gone]
  }

  /** What is pending of a transaction was recorded since its bucket has been there. */
  predicate SinceBorn(s: System, name: string) {
    forall k :: s.gone <= k < |s.recorded| && s.recorded[k].name == name ==>
      name in s.flusher.buckets && name in s.born && s.born[name] <= k
  }

  /** The transaction's bucket tallies its pending requests, and each snapshot those of its batch. */
  ghost predicate Tracked(s: System, name: string) {
    && BucketTallies(s.flusher.buckets, name, Pending(s))
    && (forall f :: f in s.flights ==>
          BucketTallies(s.flights[f].sent, name, Slice(s.recorded, s.flights[f].base, s.flights[f].cut)))
    && SinceBorn(s, name)
  }

  /** What holds of the maxima: each is that of the requests since its bucket has been there. */
  predicate Maxima(s: System) {
    && s.born.Keys == s.flusher.buckets.Keys
    && (forall name :: name in s.born ==>
          && s.born[name] < |s.recorded|
          && s.flusher.buckets[name].maxDuration == LongestOf(name, Slice(s.recorded, s.born[name], |s.recorded|)))
  }

  /** What was let go of or is in some batch was sent, as far as its transaction is not mixed up. */
  predicate BatchesSent(s: System) {
    && |s.sends| == |s.recorded|
    && (forall k :: 0 <= k < s.gone && k < |s.recorded| && s.recorded[k].name !in s.mixed ==> s.sends[k] >= 1)
    && (forall f, k :: f in s.flights && 0 <= k < s.flights[f].cut && k < |s.recorded| && s.recorded[k].name !in s.mixed
          ==> s.sends[k] >= 1)
  }

  ghost predicate Inv(s: System) {
    Shape(s) && Maxima(s) && BatchesSent(s) && forall name :: name !in s.mixed ==> Tracked(s, name)
  }

  lemma RequestsGrow(windows: seq<Window>, w: Window)
    ensures Requests(windows + [w]) == Requests(windows) + w.requests
  {
    assert (windows + [w])[..|windows|] == windows;
  }

  lemma EndKeepsShape(s: System, flush: nat, outcome: Outcome)
    requires Shape(s)
    ensures Shape(AfterEnd(s, flush, outcome))
  {
    hide Subtract, Clashing, Requests;
    var t := AfterEnd(s, flush, outcome);
    if flush in s.flights && LetsGo(s.flusher.failures, outcome) {
      RequestsGrow(s.windows, t.windows[|s.windows|]);
      assert s.recorded[..s.gone] + s.recorded[s.gone..t.gone] == s.recorded[..t.gone];
    }
  }

  lemma ShapeStays(s: System, event: Event)
    requires Shape(s)
    ensures Shape(Step(s, event))
  {
    hide Tallied, Requests, AfterEnd;
    var t := Step(s, event);
    match event {
      case Record(_, _, _) => assert t.recorded[..t.gone] == s.recorded[..s.gone];
      case Begin(_, _) =>
      case End(wait, flush, outcome) => EndKeepsShape(s.(now := s.now + wait), flush, outcome);
    }
  }

  lemma RecordTracks(s: System, name: string, duration: real, other: string)
    requires Shape(s) && Maxima(s) && Tracked(s, other)
    ensures Tracked(AfterRecord(s, name, duration), other)
  {
    hide BucketTallies, LabelFor, LongestOf;
    var t := AfterRecord(s, name, duration);
    var r := Request(name, duration, s.now);
    RecordTalliesOne(s.flusher.buckets, Pending(s), r, other);
    assert Pending(t) == Pending(s) + [r];
    forall f | f in t.flights
      ensures BucketTallies(t.flights[f].sent, other, Slice(t.recorded, t.flights[f].base, t.flights[f].cut))
    {
      assert Slice(t.recorded, t.flights[f].base, t.flights[f].cut)
          == Slice(s.recorded, s.flights[f].base, s.flights[f].cut);
    }
  }

  lemma SliceJoin(requests: seq<Request>, from: nat, middle: nat, to: nat)
    requires from <= middle <= to <= |requests|
    ensures Slice(requests, from, middle) + Slice(requests, middle, to) == Slice(requests, from, to)
    ensures Slice(requests, middle, middle) == []
  {
  }

  /** A batch that is let go of leaves a transaction's bucket right if and only if it does not clash
      there. */
  lemma EndIsExactIff(s: System, flush: nat, outcome: Outcome, name: string)
    requires Shape(s) && Tracked(s, name) && flush in s.flights && LetsGo(s.flusher.failures, outcome)
    ensures var t := AfterEnd(s, flush, outcome);
            BucketTallies(t.flusher.buckets, name, Pending(t)) <==>
            !Clashes(s.recorded, s.gone, s.flights[flush], name)
  {
    hide BucketTallies, Subtract;
    var flight := s.flights[flush];
    var lo, hi := if s.gone < flight.cut then s.gone else flight.cut, Max(s.gone, flight.cut);
    var p, q := Slice(s.recorded, flight.base, lo), Slice(s.recorded, lo, flight.cut);
    var b := Slice(s.recorded, hi, |s.recorded|);
    SliceJoin(s.recorded, flight.base, lo, flight.cut);
    if hi == flight.cut {
      SliceJoin(s.recorded, lo, hi, |s.recorded|);
    } else {
      SliceJoin(s.recorded, hi, hi, |s.recorded|);
    }
    SubtractIsExactIff(s.flusher.buckets, flight.sent, name, p, q, b);
  }

  /** Some batch that this step lets go of clashes on the transaction. */
  predicate ClashesAt(s: System, event: Event, name: string) {
    && event.End? && event.flush in s.flights && LetsGo(s.flusher.failures, event.outcome)
    && Clashes(s.recorded, s.gone, s.flights[event.flush], name)
  }

  lemma EndTracks(s: System, flush: nat, outcome: Outcome, name: string)
    requires Shape(s) && Tracked(s, name)
    requires flush in s.flights && LetsGo(s.flusher.failures, outcome) ==>
               !Clashes(s.recorded, s.gone, s.flights[flush], name)
    ensures Tracked(AfterEnd(s, flush, outcome), name)
  {
    hide BucketTallies, Subtract, Clashes, Clashing;
    var t := AfterEnd(s, flush, outcome);
    if flush in s.flights && LetsGo(s.flusher.failures, outcome) {
      EndIsExactIff(s, flush, outcome, name);
      forall k | t.gone <= k < |t.recorded| && t.recorded[k].name == name ensures name in t.flusher.buckets {
        PendingHasBucket(t, k);
      }
    }
  }

  lemma PendingHasBucket(s: System, k: nat)
    requires s.gone <= k < |s.recorded| && BucketTallies(s.flusher.buckets, s.recorded[k].name, Pending(s))
    ensures s.recorded[k].name in s.flusher.buckets
  {
    MemberIsCounted(Pending(s), k - s.gone);
  }

  lemma StepTracks(s: System, event: Event, name: string)
    requires Shape(s) && Maxima(s) && Tracked(s, name) && !ClashesAt(s, event, name)
    ensures Tracked(Step(s, event), name)
  {
    hide BucketTallies, Tallied, Subtract, Clashing, Clashes, Maxima;
    var t := s.(now := s.now + event.wait);
    assert Tracked(t, name) && Shape(t);
    MaximaIgnoreClock(s, t.now);
    match event {
      case Record(_, n, duration) => RecordTracks(t, n, duration, name);
      case Begin(_, _) =>
      case End(_, flush, outcome) => EndTracks(t, flush, outcome, name);
    }
  }

  lemma MaximaIgnoreClock(s: System, now: int)
    requires Maxima(s)
    ensures Maxima(s.(now := now))
  {
  }

  lemma RecordKeepsMaxima(s: System, name: string, duration: real)
    requires Maxima(s)
    ensures Maxima(AfterRecord(s, name, duration))
  {
    hide LongestOf, Tallied;
    var t := AfterRecord(s, name, duration);
    var r := Request(name, duration, s.now);
    TalliedKeys(s.flusher.buckets, name, duration);
    forall n | n in t.born
      ensures t.born[n] < |t.recorded|
      ensures t.flusher.buckets[n].maxDuration == LongestOf(n, Slice(t.recorded, t.born[n], |t.recorded|))
    {
      var requests := Slice(s.recorded, t.born[n], |s.recorded|);
      assert Slice(t.recorded, t.born[n], |t.recorded|) == requests + [r];
      RecordKeepsLongest(s.flusher.buckets, requests, r, n);
    }
  }

  lemma EndKeepsMaxima(s: System, flush: nat, outcome: Outcome)
    requires Maxima(s)
    ensures Maxima(AfterEnd(s, flush, outcome))
  {
    hide LongestOf, Clashing;
  }

  lemma StepKeepsMaxima(s: System, event: Event)
    requires Maxima(s)
    ensures Maxima(Step(s, event))
  {
    hide LongestOf, Tallied, Subtract, Clashing, Maxima;
    var t := s.(now := s.now + event.wait);
    MaximaIgnoreClock(s, t.now);
    match event {
      case Record(_, name, duration) => RecordKeepsMaxima(t, name, duration);
      case Begin(_, flush) => BeginKeepsMaxima(t, flush);
      case End(_, flush, outcome) => EndKeepsMaxima(t, flush, outcome);
    }
  }

  lemma BeginKeepsMaxima(s: System, flush: nat)
    requires Maxima(s)
    ensures Maxima(AfterBegin(s, flush))
  {
  }

  /** The mixed-up transactions are those some batch let go of has clashed on. */
  lemma MixedBy(s: System, event: Event, name: string)
    ensures name in Step(s, event).mixed <==> name in s.mixed || ClashesAt(s, event, name)
  {
    hide Clashes, Clashing, Tallied, Subtract;
    if event.End? && event.flush in s.flights {
      ClashingHas(s.recorded, s.gone, s.flights[event.flush], name);
    }
  }

  lemma ClashingHas(recorded: seq<Request>, gone: nat, flight: Flight, name: string)
    ensures name in Clashing(recorded, gone, flight) <==> Clashes(recorded, gone, flight, name)
  {
    hide CountOf;
    if Clashes(recorded, gone, flight, name) {
      var from := Max(gone, flight.cut);
      Nothing(name, "");
      var k := CountedIsThere(name, Slice(recorded, from, |recorded|));
      assert recorded[from + k].name == name;
    }
  }

  lemma StepKeepsBatches(s: System, event: Event)
    requires Shape(s) && BatchesSent(s)
    ensures BatchesSent(Step(s, event))
  {
    hide Tallied, Subtract, Requests, Clashing;
    var t := Step(s, event);
    match event {
      case Record(_, _, _) => assert t.recorded[..|s.recorded|] == s.recorded;
      case Begin(_, _) =>
      case End(_, _, _) =>
    }
  }

  /** A flush that begins covers all there is: what is pending goes out, what is not was sent. */
  lemma BeginCovers(s: System, flush: nat, k: nat)
    requires Inv(s) && flush !in s.flights && k < |s.recorded| && s.recorded[k].name !in s.mixed
    ensures var t := AfterBegin(s, flush); |t.sends| == |s.recorded| && t.sends[k] >= 1
  {
    hide Maxima, BucketTallies;
    assert Tracked(s, s.recorded[k].name);
    if k >= s.gone {
      TrackedIsRight(s, s.recorded[k].name);
      PendingHasBucket(s, k);
    }
  }

  lemma StepKeepsInv(s: System, event: Event)
    requires Inv(s)
    ensures Inv(Step(s, event))
  {
    hide Tracked, Step, Shape, Maxima, BatchesSent, ClashesAt;
    ShapeStays(s, event);
    StepKeepsMaxima(s, event);
    StepKeepsBatches(s, event);
    var t := Step(s, event);
    forall name | name !in t.mixed ensures Tracked(t, name) {
      MixedBy(s, event, name);
      StepTracks(s, event, name);
    }
  }

  /** In every interleaving, overlapping flushes included. */
  lemma {:induction false} RunKeepsInv(s: System, events: seq<Event>)
    requires Inv(s)
    ensures Inv(Run(s, events))
    decreases |events|
  {
    hide Step, Inv;
    if events != [] {
      StepKeepsInv(s, events[0]);
      RunKeepsInv(Step(s, events[0]), events[1..]);
    }
  }

  lemma StartsWell(created: int)
    ensures Inv(Initial(created))
  {
  }

  // ---------------------------------------------------------------- exactly when the buckets are right

  /** The transaction's bucket is what its pending requests add up to, in this state and in every one
      that the run passes. */
  ghost predicate RightThroughout(s: System, events: seq<Event>, name: string)
    decreases |events|
  {
    && BucketTallies(s.flusher.buckets, name, Pending(s))
    && (events == [] || RightThroughout(Step(s, events[0]), events[1..], name))
  }

  predicate EverClashes(s: System, events: seq<Event>, name: string)
    decreases |events|
  {
    && events != []
    && (ClashesAt(s, events[0], name) || EverClashes(Step(s, events[0]), events[1..], name))
  }

  lemma {:induction false} MixedMeans(s: System, events: seq<Event>, name: string)
    ensures name in Run(s, events).mixed <==> name in s.mixed || EverClashes(s, events, name)
    decreases |events|
  {
    hide Step, ClashesAt;
    if events != [] {
      MixedBy(s, events[0], name);
      MixedMeans(Step(s, events[0]), events[1..], name);
    }
  }

  lemma {:induction false} RightFrom(s: System, events: seq<Event>, name: string)
    requires Shape(s) && Maxima(s) && Tracked(s, name)
    ensures RightThroughout(s, events, name) <==> !EverClashes(s, events, name)
    decreases |events|
  {
    hide Step, Tracked, ClashesAt, BucketTallies, Shape, Maxima;
    TrackedIsRight(s, name);
    if events != [] {
      ShapeStays(s, events[0]);
      StepKeepsMaxima(s, events[0]);
      if ClashesAt(s, events[0], name) {
        ClashIsWrong(s, events[0], name);
      } else {
        StepTracks(s, events[0], name);
        RightFrom(Step(s, events[0]), events[1..], name);
      }
    }
  }

  lemma TrackedIsRight(s: System, name: string)
    requires Tracked(s, name)
    ensures BucketTallies(s.flusher.buckets, name, Pending(s))
  {
  }

  lemma ClashIsWrong(s: System, event: Event, name: string)
    requires Shape(s) && Tracked(s, name) && ClashesAt(s, event, name)
    ensures var t := Step(s, event); !BucketTallies(t.flusher.buckets, name, Pending(t))
  {
    hide BucketTallies, Clashes, Subtract, Clashing;
    var t := s.(now := s.now + event.wait);
    assert Tracked(t, name) && Shape(t);
    EndIsExactIff(t, event.flush, event.outcome, name);
  }

  /** In every run, with any number of flushes at once, and for every transaction: its bucket is right
      all the way if and only if no batch let go of held requests of it that another flush had let go
      of since the snapshot while others of it were recorded. */
  lemma BucketIsRightIff(created: int, events: seq<Event>, name: string)
    ensures RightThroughout(Initial(created), events, name) <==> !EverClashes(Initial(created), events, name)
    ensures name in Run(Initial(created), events).mixed <==> EverClashes(Initial(created), events, name)
  {
    hide RightThroughout, EverClashes, Run, Shape, Maxima, Tracked;
    StartsWell(created);
    RightFrom(Initial(created), events, name);
    MixedMeans(Initial(created), events, name);
  }

  lemma RunOf3(s: System, events: seq<Event>)
    requires |events| >= 3
    ensures Run(s, events) == Run(Step(Step(Step(s, events[0]), events[1]), events[2]), events[3..])
  {
    hide Step;
    assert events[1..][1..] == events[2..] && events[2..][1..] == events[3..];
    assert Run(s, events) == Run(Step(s, events[0]), events[1..]);
    assert Run(Step(s, events[0]), events[1..]) == Run(Step(Step(s, events[0]), events[1]), events[2..]);
  }

  /** Two flushes at once can lose a request that was never sent: the second end subtracts again what
      the first one had subtracted. */
  lemma OverlappingFlushesLoseARequest(created: int, name: string, first: real, second: real)
    ensures var events := [Record(0, name, first), Begin(0, 0), Begin(0, 1), End(0, 0, Delivered),
                           Record(0, name, second), End(0, 1, Delivered)];
            var s := Run(Initial(created), events);
            && s.recorded == [Request(name, first, created), Request(name, second, created)]
            && s.sends == [2, 0] && s.flusher.buckets == map[] && s.flights == map[]
  {
    hide Clashing, Run, Tallied, Subtract;
    var events := [Record(0, name, first), Begin(0, 0), Begin(0, 1), End(0, 0, Delivered),
                   Record(0, name, second), End(0, 1, Delivered)];
    var a := Tallied(map[], name, first);
    SubtractedTwice(name, first, second);
    RunOf3(Initial(created), events);
    var s1 := Step(Initial(created), events[0]);
    var s2 := Step(s1, events[1]);
    var s3 := Step(s2, events[2]);
    assert s3.sends == [2] && s3.flusher.buckets == a;
    var flight := Flight(0, 1, a, created);
    assert s3.flights == map[0 := flight, 1 := flight];
    RunOf3(s3, events[3..]);
    var s4 := Step(s3, events[3]);
    assert s4.flusher.buckets == map[] && s4.flights == map[1 := flight];
    var s5 := Step(s4, events[4]);
    var s6 := Step(s5, events[5]);
    NothingLeftToRun(s6, events[3..][3..]);
  }

  lemma SubtractedTwice(name: string, first: real, second: real)
    ensures var a := Tallied(map[], name, first);
            a != map[] && Subtract(a, a) == map[] && Subtract(Tallied(map[], name, second), a) == map[]
  {
    hide LabelFor, Subtract;
    var a := Tallied(map[], name, first);
    assert name in a;
    NothingRemains(a, a, name);
    NothingRemains(Tallied(map[], name, second), a, name);
  }

  lemma NothingRemains(current: Buckets, sent: Buckets, name: string)
    requires current.Keys == {name} && name in sent && current[name].count <= sent[name].count
    ensures Subtract(current, sent) == map[]
  {
  }

  lemma NothingLeftToRun(s: System, events: seq<Event>)
    requires events == []
    ensures Run(s, events) == s
  {
  }

  // ---------------------------------------------------------------- what a maximum means

  lemma PartsOfLongest(requests: seq<Request>, from: nat, middle: nat, name: string)
    requires from <= middle <= |requests|
    ensures var x := LongestOf(name, Slice(requests, from, middle));
            var y := LongestOf(name, Slice(requests, middle, |requests|));
            LongestOf(name, Slice(requests, from, |requests|)) == if x > y then x else y
  {
    assert requests[from..|requests|] == requests[from..middle] + requests[middle..|requests|];
    LongestOfJoin(name, requests[from..middle], requests[middle..|requests|]);
  }

  /** In every run, overlapping flushes included: the maximum on a bucket overstates what is pending of
      its transaction exactly when something longer than that was let go of while the bucket was there;
      and unless overlapping flushes have mixed the transaction up, it never understates it. */
  lemma MaximumOverstatesIff(created: int, events: seq<Event>, name: string)
    requires name in Run(Initial(created), events).flusher.buckets
    ensures var s := Run(Initial(created), events);
            && name in s.born
            && (s.flusher.buckets[name].maxDuration > LongestOf(name, Pending(s)) <==>
                LongestOf(name, Slice(s.recorded, s.born[name], s.gone)) > LongestOf(name, Pending(s)))
            && (name !in s.mixed ==> s.flusher.buckets[name].maxDuration >= LongestOf(name, Pending(s)))
  {
    hide Run, LongestOf;
    StartsWell(created);
    RunKeepsInv(Initial(created), events);
    var s := Run(Initial(created), events);
    MaximumAt(s, name);
  }

  lemma MaximumAt(s: System, name: string)
    requires Shape(s) && Maxima(s) && name in s.born
    ensures s.flusher.buckets[name].maxDuration > LongestOf(name, Pending(s)) <==>
            LongestOf(name, Slice(s.recorded, s.born[name], s.gone)) > LongestOf(name, Pending(s))
    ensures SinceBorn(s, name) ==> s.flusher.buckets[name].maxDuration >= LongestOf(name, Pending(s))
  {
    hide LongestOf;
    var born := s.born[name];
    LongestOfAtLeast(name, Pending(s));
    if born <= s.gone {
      PartsOfLongest(s.recorded, born, s.gone, name);
    } else {
      PartsOfLongest(s.recorded, s.gone, born, name);
      NoneLongest(name, []);
      Nothing(name, "");
      if SinceBorn(s, name) {
        NoneBefore(s, name);
        LongestOfAtLeast(name, Slice(s.recorded, born, |s.recorded|));
      }
    }
  }

  lemma NoneBefore(s: System, name: string)
    requires name in s.born && s.gone <= s.born[name] <= |s.recorded| && SinceBorn(s, name)
    ensures LongestOf(name, Slice(s.recorded, s.gone, s.born[name])) == 0.0
  {
    hide LongestOf, CountOf;
    var before := Slice(s.recorded, s.gone, s.born[name]);
    assert forall j :: 0 <= j < |before| ==> before[j] == s.recorded[s.gone + j];
    if CountOf(name, before) > 0 {
      var k := CountedIsThere(name, before);
      assert false;
    }
    NoneLongest(name, before);
  }

  /** A maximum can stay behind for good: a long request is sent while a short one is recorded, and the
      flush after that sends only the short one. */
  lemma MaximumCanOverstate(created: int, name: string, long: real, short: real, last: real)
    requires long > 0.0 && long > short && long > last
    ensures var events := [Record(0, name, long), Begin(0, 0), Record(0, name, short), End(0, 0, Delivered),
                           Begin(0, 1), Record(0, name, last), End(0, 1, Delivered)];
            var s := Run(Initial(created), events);
            && Pending(s) == [Request(name, last, created)] && |s.windows| == 2
            && s.windows[1].requests == [Request(name, short, created)]
            && name in s.flusher.buckets && s.flusher.buckets[name].maxDuration == long > last
  {
    hide Clashing, Run, Tallied, Subtract;
    var events := [Record(0, name, long), Begin(0, 0), Record(0, name, short), End(0, 0, Delivered),
                   Begin(0, 1), Record(0, name, last), End(0, 1, Delivered)];
    StaleMaximum(name, long, short, last);
    RunOf3(Initial(created), events);
    var a := Tallied(map[], name, long);
    var s1 := Step(Initial(created), events[0]);
    var s2 := Step(s1, events[1]);
    var s3 := Step(s2, events[2]);
    assert s3.flights == map[0 := Flight(0, 1, a, created)] && s3.flusher.buckets == Tallied(a, name, short);
    OnlyShortIsSent(s3, events[3..], a, Tallied(a, name, short), name, last);
    assert s3.recorded[1..2] == [Request(name, short, created)];
  }

  lemma OnlyShortIsSent(s: System, events: seq<Event>, a: Buckets, b: Buckets, name: string, last: real)
    requires events == [End(0, 0, Delivered), Begin(0, 1), Record(0, name, last), End(0, 1, Delivered)]
    requires s.flights == map[0 := Flight(0, 1, a, s.now)] && s.flusher.buckets == b
    requires |s.recorded| == 2 && s.gone == 0 && s.windows == [] && Subtract(b, a) != map[]
    ensures var c := Subtract(b, a);
            var t := Run(s, events);
            && t.flusher.buckets == Subtract(Tallied(c, name, last), c)
            && Pending(t) == [Request(name, last, s.now)]
            && |t.windows| == 2 && t.windows[1].requests == s.recorded[1..2]
  {
    hide Clashing, Run, Tallied, Subtract;
    var c := Subtract(b, a);
    RunOf3(s, events);
    var s4 := Step(s, events[0]);
    assert s4.flusher.buckets == c && s4.flights == map[] && s4.gone == 1 && |s4.windows| == 1;
    var s5 := Step(s4, events[1]);
    assert s5.flights == map[1 := Flight(1, 2, c, s.now)];
    var s6 := Step(s5, events[2]);
    RunOfOne(s6, events[3..]);
    var s7 := Step(s6, events[3]);
    assert s6.recorded[1..2] == s.recorded[1..2];
    assert s7.gone == 2 && s7.recorded[2..3] == [Request(name, last, s.now)];
  }

  lemma StaleMaximum(name: string, long: real, short: real, last: real)
    requires long > 0.0 && long > short && long > last
    ensures var a := Tallied(map[], name, long);
            var c := Subtract(Tallied(a, name, short), a);
            var e := Subtract(Tallied(c, name, last), c);
            a != map[] && c != map[] && name in e && e[name].maxDuration == long
  {
    hide LabelFor, SubtractHistogram;
    var a := Tallied(map[], name, long);
    var c := Subtract(Tallied(a, name, short), a);
    assert name in a && name in c && c[name].count == 1;
    assert Tallied(c, name, last)[name].count == 2;
  }

  lemma RunOfOne(s: System, events: seq<Event>)
    requires |events| == 1
    ensures Run(s, events) == Step(s, events[0])
  {
    hide Step;
    NothingLeftToRun(Step(s, events[0]), events[1..]);
  }

  // ---------------------------------------------------------------- nothing is lost

  /** The requests of the windows that were, or were not, delivered. */
  function Of(delivered: bool, windows: seq<Window>): seq<Request> {
    if windows == [] then []
    else
      Of(delivered, windows[..|windows| - 1]) +
      (if windows[|windows| - 1].delivered == delivered then windows[|windows| - 1].requests else [])
  }

  lemma {:induction false} DeliveredOrDropped(name: string, range: string, windows: seq<Window>)
    ensures CountOf(name, Requests(windows)) == CountOf(name, Of(true, windows)) + CountOf(name, Of(false, windows))
    ensures SumOf(name, Requests(windows)) == SumOf(name, Of(true, windows)) + SumOf(name, Of(false, windows))
    ensures RangeCount(name, range, Requests(windows))
         == RangeCount(name, range, Of(true, windows)) + RangeCount(name, range, Of(false, windows))
  {
    hide CountOf, SumOf, RangeCount;
    if windows == [] {
      Nothing(name, range);
    } else {
      var ws, w := windows[..|windows| - 1], windows[|windows| - 1];
      DeliveredOrDropped(name, range, ws);
      CountsAdd(name, range, Requests(ws), w.requests);
      CountsAdd(name, range, Of(true, ws), if w.delivered then w.requests else []);
      CountsAdd(name, range, Of(false, ws), if w.delivered then [] else w.requests);
      Nothing(name, range);
    }
  }

  function BucketCount(buckets: Buckets, name: string): int {
    if name in buckets then buckets[name].count else 0
  }

  function BucketSum(buckets: Buckets, name: string): real {
    if name in buckets then buckets[name].durationSum else 0.0
  }

  function BucketRange(buckets: Buckets, name: string, range: string): int {
    if name in buckets then At(buckets[name].histogram, range) else 0
  }

  /** In every run, for every transaction that overlapping flushes have not mixed up and for every
      latency range: what was recorded is what was delivered, what was dropped and what the bucket still
      holds. */
  lemma NothingIsLost(created: int, events: seq<Event>, name: string, range: string)
    requires !EverClashes(Initial(created), events, name)
    ensures var s := Run(Initial(created), events);
            var delivered, dropped := Of(true, s.windows), Of(false, s.windows);
            && CountOf(name, s.recorded) ==
               CountOf(name, delivered) + CountOf(name, dropped) + BucketCount(s.flusher.buckets, name)
            && SumOf(name, s.recorded) ==
               SumOf(name, delivered) + SumOf(name, dropped) + BucketSum(s.flusher.buckets, name)
            && RangeCount(name, range, s.recorded) ==
               RangeCount(name, range, delivered) + RangeCount(name, range, dropped)
               + BucketRange(s.flusher.buckets, name, range)
  {
    hide Run, EverClashes;
    StartsWell(created);
    RunKeepsInv(Initial(created), events);
    BucketIsRightIff(created, events, name);
    AccountsAdd(Run(Initial(created), events), name, range);
  }

  lemma AccountsAdd(s: System, name: string, range: string)
    requires Shape(s) && BucketTallies(s.flusher.buckets, name, Pending(s))
    ensures var delivered, dropped := Of(true, s.windows), Of(false, s.windows);
            && CountOf(name, s.recorded) ==
               CountOf(name, delivered) + CountOf(name, dropped) + BucketCount(s.flusher.buckets, name)
            && SumOf(name, s.recorded) ==
               SumOf(name, delivered) + SumOf(name, dropped) + BucketSum(s.flusher.buckets, name)
            && RangeCount(name, range, s.recorded) ==
               RangeCount(name, range, delivered) + RangeCount(name, range, dropped)
               + BucketRange(s.flusher.buckets, name, range)
  {
    hide CountOf, SumOf, RangeCount, Of, Requests;
    var pending := Pending(s);
    assert s.recorded == s.recorded[..s.gone] + pending;
    CountsAdd(name, range, s.recorded[..s.gone], pending);
    DeliveredOrDropped(name, range, s.windows);
    if name in s.flusher.buckets {
      assert RangeTallied(s.flusher.buckets[name].histogram, range, RangeCount(name, range, pending));
    } else {
      NoneOf(name, pending);
    }
  }

  /** And no request of such a transaction was let go of that was not sent. */
  lemma LetGoWasSent(created: int, events: seq<Event>, k: nat)
    requires var s := Run(Initial(created), events);
             k < s.gone && k < |s.recorded| && !EverClashes(Initial(created), events, s.recorded[k].name)
    ensures var s := Run(Initial(created), events); |s.sends| == |s.recorded| && s.sends[k] >= 1
  {
    hide Run, EverClashes, Maxima, Tracked, Shape;
    StartsWell(created);
    RunKeepsInv(Initial(created), events);
    var s := Run(Initial(created), events);
    BucketIsRightIff(created, events, s.recorded[k].name);
  }

  // ---------------------------------------------------------------- one flush in flight

  /** The flush may begin only when none is in flight. */
  predicate Single(s: System, event: Event) {
    event.Begin? ==> s.flights == map[]
  }

  predicate SingleRun(s: System, events: seq<Event>)
    decreases |events|
  {
    events == [] || (Single(s, events[0]) && SingleRun(Step(s, events[0]), events[1..]))
  }

  /** The failed flushes in a row are the times the oldest pending request was sent, less the one in
      flight; none was sent more often; and only what is in flight was sent at all since. */
  predicate SendInv(s: System) {
    && |s.recorded| == |s.sends|
    && (forall k :: 0 <= k < s.gone <= |s.sends| ==> 1 <= s.sends[k] <= MAX_FLUSH_FAILURES)
    && (s.gone < |s.sends| ==> s.sends[s.gone] == s.flusher.failures + |s.flights|)
    && (s.gone == |s.sends| ==> s.flusher.failures == 0)
    && (forall k :: s.gone <= k < |s.sends| ==> s.sends[k] <= s.flusher.failures + |s.flights|)
    && (forall f, k :: f in s.flights && s.gone <= k < |s.sends| ==>
          if k < s.flights[f].cut then s.sends[k] >= 1 else s.sends[k] == 0)
  }

  /** At most one flight, of what has been pending longest, and nothing mixed up. */
  ghost predicate SingleInv(s: System) {
    && Inv(s) && SendInv(s) && s.mixed == {} && |s.flights| <= 1
    && (forall f :: f in s.flights ==> s.flights[f].base == s.gone < s.flights[f].cut)
  }

  lemma BatchIsPending(s: System, flush: nat)
    requires Inv(s) && s.mixed == {}
    ensures AfterBegin(s, flush) != s ==> s.gone < |s.recorded|
    ensures s.gone < |s.recorded| ==> s.flusher.buckets != map[]
  {
    hide BucketTallies, LongestOf, Tracked;
    forall name ensures BucketTallies(s.flusher.buckets, name, Pending(s)) {
      assert Tracked(s, name);
      TrackedIsRight(s, name);
    }
    SomeRequest(s.flusher.buckets, Pending(s));
  }

  lemma RecordKeepsSends(s: System, name: string, duration: real)
    requires SendInv(s) && Shape(s)
    requires forall f :: f in s.flights ==> s.gone < s.flights[f].cut
    requires |s.flights| <= 1
    ensures SendInv(AfterRecord(s, name, duration))
  {
    hide Tallied, Requests;
    if s.gone == |s.sends| {
      assert s.flights == map[] by {
        if f :| f in s.flights {
          assert false;
        }
      }
    }
  }

  lemma BeginKeepsSends(s: System, flush: nat)
    requires SendInv(s) && Shape(s) && s.mixed == {} && s.flights == map[]
    requires AfterBegin(s, flush) != s ==> s.gone < |s.recorded|
    ensures SendInv(AfterBegin(s, flush))
  {
    hide Requests;
  }

  lemma EndKeepsSends(s: System, flush: nat, outcome: Outcome)
    requires SendInv(s) && Shape(s) && |s.flights| <= 1 && flush in s.flights
    requires s.flights[flush].base == s.gone < s.flights[flush].cut
    ensures SendInv(AfterEnd(s, flush, outcome))
  {
    hide Requests, Subtract, Clashing, Max;
    OnlyFlight(s, flush);
    assert Max(s.gone, s.flights[flush].cut) == s.flights[flush].cut by { MaxOfLater(s.gone, s.flights[flush].cut); }
  }

  lemma MaxOfLater(a: nat, b: nat)
    requires a <= b
    ensures Max(a, b) == b
  {
  }

  lemma SingleKeepsSends(s: System, event: Event)
    requires SingleInv(s) && Single(s, event)
    ensures SendInv(Step(s, event))
  {
    hide Tracked, Maxima, SendInv, AfterRecord, AfterBegin, AfterEnd;
    var t := s.(now := s.now + event.wait);
    SameSends(s, t);
    match event {
      case Record(_, name, duration) => RecordKeepsSends(t, name, duration);
      case Begin(_, flush) =>
        InvIgnoresClock(s, t.now);
        BatchIsPending(t, flush);
        BeginKeepsSends(t, flush);
      case End(_, flush, outcome) =>
        if flush in s.flights {
          EndKeepsSends(t, flush, outcome);
        } else {
          NothingEnds(t, flush, outcome);
        }
    }
  }

  lemma SameSends(s: System, t: System)
    requires SendInv(s) && t == s.(now := t.now)
    ensures SendInv(t)
  {
  }

  lemma OnlyFlight(s: System, flush: nat)
    requires |s.flights| <= 1 && flush in s.flights
    ensures s.flights - {flush} == map[] && |s.flights| == 1
    ensures forall f :: f in s.flights ==> f == flush
  {
    var rest := s.flights.Keys - {flush};
    assert s.flights.Keys == rest + {flush};
    assert |s.flights.Keys| == |rest| + 1;
    assert rest == {};
  }

  lemma NoClashAlone(s: System, event: Event, name: string)
    requires SingleInv(s)
    ensures !ClashesAt(s, event, name)
  {
    Nothing(name, "");
  }

  lemma FlightsStaySingle(s: System, event: Event)
    requires SingleInv(s) && Single(s, event)
    ensures var t := Step(s, event);
            |t.flights| <= 1 && forall f :: f in t.flights ==> t.flights[f].base == t.gone < t.flights[f].cut
  {
    hide Inv, SendInv, Clashing, Tallied, Subtract;
    match event {
      case Record(_, _, _) =>
      case Begin(_, flush) =>
        var t := s.(now := s.now + event.wait);
        InvIgnoresClock(s, t.now);
        BatchIsPending(t, flush);
      case End(_, flush, outcome) =>
        if flush in s.flights {
          OnlyFlight(s, flush);
        }
    }
  }

  lemma SingleStepKeepsInv(s: System, event: Event)
    requires SingleInv(s) && Single(s, event)
    ensures SingleInv(Step(s, event))
  {
    hide Inv, SendInv, ClashesAt, Step;
    StepKeepsInv(s, event);
    SingleKeepsSends(s, event);
    FlightsStaySingle(s, event);
    var t := Step(s, event);
    forall name ensures name !in t.mixed {
      NoClashAlone(s, event, name);
      MixedBy(s, event, name);
    }
  }

  lemma InvIgnoresClock(s: System, now: int)
    requires Inv(s)
    ensures Inv(s.(now := now))
  {
    hide BucketTallies, LongestOf;
    var t := s.(now := now);
    forall name | name !in t.mixed ensures Tracked(t, name) {
      assert Tracked(s, name);
    }
  }

  // ---------------------------------------------------------------- windows

  predicate InWindow(window: Window, request: Request) {
    window.start <= request.at <= window.end
  }

  /** Windows follow one another without a gap from the flusher's creation to its current period, and
      each holds requests of its own time only. */
  predicate WindowsInv(windows: seq<Window>, created: int, periodStart: int) {
    && (forall i :: 0 < i < |windows| ==> windows[i - 1].end == windows[i].start)
    && (if windows == [] then periodStart == created
        else windows[0].start == created && windows[|windows| - 1].end == periodStart)
    && (forall w, r :: w in windows && r in w.requests ==> InWindow(w, r))
  }

  /** With one flush in flight the clock sorts requests: into settled windows, the period in flight,
      and after. */
  predicate TimeInv(s: System, created: int) {
    && s.gone <= |s.recorded| && s.flusher.periodStart <= s.now
    && (forall k :: 0 <= k < |s.recorded| ==> s.recorded[k].at <= s.now)
    && (forall k :: s.gone <= k < |s.recorded| ==> s.flusher.periodStart <= s.recorded[k].at)
    && (forall f :: f in s.flights ==>
          var flight := s.flights[f];
          && flight.base == s.gone <= flight.cut <= |s.recorded|
          && s.flusher.periodStart <= flight.periodEnd <= s.now
          && (forall k :: s.gone <= k < flight.cut ==> s.recorded[k].at <= flight.periodEnd)
          && (forall k :: flight.cut <= k < |s.recorded| ==> flight.periodEnd <= s.recorded[k].at))
    && WindowsInv(s.windows, created, s.flusher.periodStart)
  }

  lemma EndKeepsTime(s: System, flush: nat, outcome: Outcome, created: int)
    requires TimeInv(s, created) && |s.flights| <= 1 && flush in s.flights
    ensures TimeInv(AfterEnd(s, flush, outcome), created)
  {
    hide Subtract, Clashing, WindowsInv;
    OnlyFlight(s, flush);
    var t := AfterEnd(s, flush, outcome);
    if LetsGo(s.flusher.failures, outcome) {
      var cut := s.flights[flush].cut;
      var w := Window(s.flusher.periodStart, s.flights[flush].periodEnd, s.recorded[s.gone..cut], outcome.Delivered?);
      assert t.windows == s.windows + [w];
      forall r | r in w.requests ensures InWindow(w, r) {
        var k :| s.gone <= k < cut && s.recorded[k] == r;
      }
      NextWindow(s.windows, w, created);
    }
  }

  lemma NextWindow(windows: seq<Window>, w: Window, created: int)
    requires WindowsInv(windows, created, w.start)
    requires forall r :: r in w.requests ==> InWindow(w, r)
    ensures WindowsInv(windows + [w], created, w.end)
  {
  }

  lemma BeginKeepsTime(s: System, flush: nat, created: int)
    requires TimeInv(s, created) && s.flights == map[]
    ensures TimeInv(AfterBegin(s, flush), created)
  {
    hide WindowsInv;
  }

  lemma RecordKeepsTime(s: System, name: string, duration: real, created: int)
    requires TimeInv(s, created)
    ensures TimeInv(AfterRecord(s, name, duration), created)
  {
    hide Tallied, WindowsInv;
  }

  lemma StepKeepsTime(s: System, event: Event, created: int)
    requires TimeInv(s, created) && |s.flights| <= 1 && Single(s, event)
    ensures TimeInv(Step(s, event), created)
  {
    hide AfterRecord, AfterBegin, AfterEnd, TimeInv;
    var t := s.(now := s.now + event.wait);
    TimePasses(s, t.now, created);
    match event {
      case Record(_, name, duration) => RecordKeepsTime(t, name, duration, created);
      case Begin(_, flush) => BeginKeepsTime(t, flush, created);
      case End(_, flush, outcome) =>
        if flush in s.flights {
          EndKeepsTime(t, flush, outcome, created);
        } else {
          NothingEnds(t, flush, outcome);
        }
    }
  }

  lemma TimePasses(s: System, now: int, created: int)
    requires TimeInv(s, created) && s.now <= now
    ensures TimeInv(s.(now := now), created)
  {
    hide WindowsInv;
  }

  lemma NothingEnds(s: System, flush: nat, outcome: Outcome)
    requires flush !in s.flights
    ensures AfterEnd(s, flush, outcome) == s
  {
  }

  lemma {:induction false} SingleRunKeepsInv(s: System, events: seq<Event>, created: int)
    requires SingleInv(s) && TimeInv(s, created) && SingleRun(s, events)
    ensures SingleInv(Run(s, events)) && TimeInv(Run(s, events), created)
    decreases |events|
  {
    hide Step, Inv, SendInv, TimeInv, Single;
    if events != [] {
      SingleStepKeepsInv(s, events[0]);
      StepKeepsTime(s, events[0], created);
      SingleRunKeepsInv(Step(s, events[0]), events[1..], created);
    }
  }

  lemma SingleStartsWell(created: int)
    ensures SingleInv(Initial(created)) && TimeInv(Initial(created), created)
  {
    StartsWell(created);
  }

  /** With one flush in flight at a time, in every run: nothing is ever mixed up; a bucket exists exactly
      when its transaction has pending requests, its histogram adds up to its count, and its maximum
      bounds them; settled windows are contiguous and hold exactly the requests let go of, each in its
      own window's time. */
  lemma EveryRun(created: int, events: seq<Event>)
    requires SingleRun(Initial(created), events)
    ensures var s := Run(Initial(created), events);
            && s.mixed == {} && s.gone <= |s.recorded|
            && (forall name :: name in s.flusher.buckets <==> CountOf(name, Pending(s)) > 0)
            && (forall name :: name in s.flusher.buckets ==>
                  Total(s.flusher.buckets[name].histogram, 9) == s.flusher.buckets[name].count)
            && (forall name :: name in s.flusher.buckets ==>
                  s.flusher.buckets[name].maxDuration >= LongestOf(name, Pending(s)))
            && WindowsInv(s.windows, created, s.flusher.periodStart)
            && Requests(s.windows) == s.recorded[..s.gone]
  {
    hide Run, CountOf, Total, WindowsInv, Requests, SendInv, LongestOf, BucketTallies;
    SingleStartsWell(created);
    SingleRunKeepsInv(Initial(created), events, created);
    var s := Run(Initial(created), events);
    forall name ensures BucketTallies(s.flusher.buckets, name, Pending(s)) {
      assert Tracked(s, name);
      TrackedIsRight(s, name);
    }
    forall name ensures name in s.flusher.buckets <==> CountOf(name, Pending(s)) > 0 {
      BucketIffCounted(s.flusher.buckets, name, Pending(s));
    }
    forall name | name in s.flusher.buckets
      ensures Total(s.flusher.buckets[name].histogram, 9) == s.flusher.buckets[name].count
      ensures s.flusher.buckets[name].maxDuration >= LongestOf(name, Pending(s))
    {
      HistogramAddsUp(s.flusher.buckets, name, Pending(s));
      assert Tracked(s, name);
      MaximumAt(s, name);
    }
  }

  lemma BucketIffCounted(buckets: Buckets, name: string, requests: seq<Request>)
    requires BucketTallies(buckets, name, requests)
    ensures name in buckets <==> CountOf(name, requests) > 0
  {
  }

  /** And the retry budget is kept exactly: the failures counted are the times the oldest pending request
      has been sent, not counting a flush still in flight, and none are counted when nothing is pending;
      every request let go of was sent at least once, and none is sent more than five times. */
  lemma RetriesAreCounted(created: int, events: seq<Event>)
    requires SingleRun(Initial(created), events)
    ensures var s := Run(Initial(created), events);
            && s.gone <= |s.recorded| == |s.sends| && s.flusher.failures < 5 && |s.flights| <= 1
            && (s.gone < |s.sends| ==> s.sends[s.gone] == s.flusher.failures + |s.flights|)
            && (s.gone == |s.sends| ==> s.flusher.failures == 0)
            && (forall k :: 0 <= k < |s.sends| ==> s.sends[k] <= 5)
            && (forall k :: 0 <= k < s.gone ==> s.sends[k] >= 1)
  {
    hide Run, Maxima, Tracked;
    SingleStartsWell(created);
    SingleRunKeepsInv(Initial(created), events, created);
  }

  /** What was let go of is never sent again. */
  lemma {:induction false} GoneIsNotSent(s: System, events: seq<Event>, k: nat)
    requires k < s.gone && k < |s.sends|
    ensures var t := Run(s, events); k < |t.sends| && t.sends[k] == s.sends[k]
    decreases |events|
  {
    hide Tallied, Subtract, Clashing;
    if events != [] {
      GoneIsNotSent(Step(s, events[0]), events[1..], k);
    }
  }

  /** In any run, overlapping flushes included: a request in a batch that was delivered or rejected is not
      sent again, whatever happens after. */
  lemma SettledIsNotResent(created: int, before: seq<Event>, wait: nat, flush: nat, outcome: Outcome,
                           after: seq<Event>, k: nat)
    requires flush in Run(Initial(created), before).flights && k < Run(Initial(created), before).flights[flush].cut
    requires outcome == Delivered || outcome == Rejected
    ensures var s := Run(Initial(created), before);
            var t := Step(s, End(wait, flush, outcome));
            var u := Run(t, after);
            k < |s.sends| && k < |u.sends| && k < t.gone && u.sends[k] == s.sends[k]
  {
    hide Run, Maxima, Tracked, BatchesSent, Subtract, Clashing;
    StartsWell(created);
    RunKeepsInv(Initial(created), before);
    GoneIsNotSent(Step(Run(Initial(created), before), End(wait, flush, outcome)), after, k);
  }
}

// MetricBuffer: entries recorded under a lock, delivered with the lock released, then removed.
module MetricBuffer {
  import opened Delivery

  const MAX_METRIC_ENTRIES: nat := 1000

  /** A metric's value as the caller passed it: a finite number, NaN or an infinity, or no number. */
  datatype Value = Finite(amount: real) | NotFinite | NotANumber

  datatype Metric = Metric(name: string, value: Value)

  /** A kept metric, with the time it was recorded at. */
  datatype Entry = Entry(metric: Metric, recordedAt: int)

  datatype Buffer = Buffer(entries: seq<Entry>, failures: nat)

  predicate Keeps(buffer: Buffer, metric: Metric) {
    metric.value.Finite? && |buffer.entries| < MAX_METRIC_ENTRIES
  }

  function AfterRecord(buffer: Buffer, metric: Metric, now: int): Buffer {
    if Keeps(buffer, metric) then buffer.(entries := buffer.entries + [Entry(metric, now)]) else buffer
  }

  /** Whether the second half of a flush that sent a batch of this size panics, cutting more entries off
      the slice than it has left. */
  predicate Panics(buffer: Buffer, sent: nat, outcome: Outcome) {
    LetsGo(buffer.failures, outcome) && sent > |buffer.entries|
  }

  /** The second half of a flush that sent a batch of this size. A panic leaves the entries as they were,
      the counter being reset already; the ticker and Flush recover from it, FlushMetrics does not. */
  function AfterFlush(buffer: Buffer, sent: nat, outcome: Outcome): Buffer {
    var b := buffer.(failures := FailuresAfter(buffer.failures, outcome));
    if LetsGo(buffer.failures, outcome) && !Panics(buffer, sent, outcome)
    then b.(entries := buffer.entries[sent..]) else b
  }

  /** A metric is kept, last and with its time, if its value is finite and fewer than 1000 wait; else
      nothing changes. */
  lemma RecordMeans(entries: seq<Entry>, failures: nat, metric: Metric, now: int)
    ensures AfterRecord(Buffer(entries, failures), metric, now) ==
            if (exists amount: real :: metric.value == Finite(amount)) && |entries| < 1000
            then Buffer(entries + [Entry(metric, now)], failures) else Buffer(entries, failures)
  {
    if metric.value.Finite? {
      assert metric.value == Finite(metric.value.amount);
    }
  }

  /** A batch that was delivered or rejected goes at once, and the failures are forgotten. */
  lemma DeliveredOrRejectedGoes(entries: seq<Entry>, failures: nat, sent: nat, outcome: Outcome)
    requires sent <= |entries| && (outcome == Delivered || outcome == Rejected)
    ensures AfterFlush(Buffer(entries, failures), sent, outcome) == Buffer(entries[sent..], 0)
  {
  }

  /** One that failed stays, and is counted, but for the fifth failure in a row: then it goes. */
  lemma FailedStaysUntilFifth(entries: seq<Entry>, failures: nat, sent: nat)
    requires sent <= |entries| && failures < 5
    ensures AfterFlush(Buffer(entries, failures), sent, Failed) ==
            if failures == 4 then Buffer(entries[sent..], 0) else Buffer(entries, failures + 1)
  {
  }

  /** When fewer entries are left than were sent none goes. */
  lemma NothingGoesInPanic(entries: seq<Entry>, failures: nat, sent: nat, outcome: Outcome)
    requires sent > |entries| && failures < 5
    ensures var b := AfterFlush(Buffer(entries, failures), sent, outcome);
            && b.entries == entries
            && (Panics(Buffer(entries, failures), sent, outcome) <==> outcome != Failed || failures == 4)
  {
  }

  class MetricBuffer {
    var entries: seq<Entry>
    var failures: nat

    function State(): Buffer
      reads this
    {
      Buffer(entries, failures)
    }

    constructor ()
      ensures State() == Buffer([], 0)
    {
      entries, failures := [], 0;
    }

    method Record(metric: Metric, now: int) returns (kept: bool)
      modifies this
      ensures kept == Keeps(old(State()), metric)
      ensures State() == AfterRecord(old(State()), metric, now)
    {
      if !metric.value.Finite? {
        return false;
      }
      if |entries| >= MAX_METRIC_ENTRIES {
        return false;
      }
      var stamped := Entry(metric, now);
      entries := entries + [stamped];
      return true;
    }

    /** The first half of Flush, up to releasing the lock; None when there is nothing to send. */
    method BeginFlush() returns (snapshot: Option<seq<Entry>>)
      ensures snapshot == if entries == [] then None else Some(entries)
    {
      if |entries| == 0 {
        return None;
      }
      return Some(entries[..]);
    }

    /** The second half of Flush, once delivery has ended. */
    method EndFlush(snapshot: seq<Entry>, outcome: Outcome) returns (panicked: bool)
      modifies this
      ensures panicked == Panics(old(State()), |snapshot|, outcome)
      ensures State() == AfterFlush(old(State()), |snapshot|, outcome)
    {
      match outcome {
        case Delivered =>
          failures := 0;
        case Rejected =>
          failures := 0;
        case Failed =>
          failures := failures + 1;
          if failures < MAX_FLUSH_FAILURES {
            return false;
          }
          failures := 0;
      }
      if |snapshot| > |entries| {
        return true;
      }
      entries := entries[|snapshot|..];
      return false;
    }
  }
}

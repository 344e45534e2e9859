// PerformanceFlusher: requests tallied into buckets under a lock, a snapshot delivered with the lock
// released, and what the snapshot held subtracted afterwards. Durations are reals.
module PerformanceFlusher {
  import opened Delivery

  datatype Bucket = Bucket(count: int, durationSum: real, maxDuration: real, histogram: map<string, int>)

  type Buckets = map<string, Bucket>

  // ---------------------------------------------------------------- latency ranges

  function Boundaries(): seq<nat> {
    [50, 100, 250, 500, 1000, 2500, 5000, 10000]
  }

  function Decimal(n: nat): string {
    var digit := [('0' as int + n % 10) as char];
    if n < 10 then digit else Decimal(n / 10) + digit
  }

  /** The range of the smallest of these boundaries the duration fits under, or "inf". */
  function LabelAmong(boundaries: seq<nat>, duration: real): string {
    if boundaries == [] then "inf"
    else if duration <= (boundaries[0] as real) then Decimal(boundaries[0])
    else LabelAmong(boundaries[1..], duration)
  }

  function LabelFor(duration: real): string {
    LabelAmong(Boundaries(), duration)
  }

  method BucketFor(duration: real) returns (range: string)
    ensures range == LabelFor(duration)
  {
    hide Decimal;
    var boundaries := Boundaries();
    assert boundaries[0..] == boundaries;
    for i := 0 to |boundaries|
      invariant LabelFor(duration) == LabelAmong(boundaries[i..], duration)
    {
      if duration <= (boundaries[i] as real) {
        return Decimal(boundaries[i]);
      }
    }
    return "inf";
  }

  // ---------------------------------------------------------------- subtracting a snapshot

  function At(histogram: map<string, int>, range: string): int {
    if range in histogram then histogram[range] else 0
  }

  /** The histogram less the counts sent; what does not stay positive goes. */
  function SubtractHistogram(current: map<string, int>, sent: map<string, int>): map<string, int> {
    map range | range in current.Keys + sent.Keys && (range in sent ==> At(current, range) > sent[range]) ::
      if range in sent then At(current, range) - sent[range] else current[range]
  }

  function SubtractBucket(current: Bucket, sent: Bucket): Bucket {
    Bucket(current.count - sent.count, current.durationSum - sent.durationSum, current.maxDuration,
           SubtractHistogram(current.histogram, sent.histogram))
  }

  function Subtract(current: Buckets, sent: Buckets): Buckets {
    map name | name in current && (name in sent ==> current[name].count > sent[name].count) ::
      if name in sent then SubtractBucket(current[name], sent[name]) else current[name]
  }

  function Tallied(buckets: Buckets, name: string, duration: real): Buckets {
    var b := if name in buckets then buckets[name] else Bucket(0, 0.0, 0.0, map[]);
    var range := LabelFor(duration);
    buckets[name := Bucket(b.count + 1, b.durationSum + duration,
                           if duration > b.maxDuration then duration else b.maxDuration,
                           b.histogram[range := At(b.histogram, range) + 1])]
  }

  // ---------------------------------------------------------------- the flusher

  datatype Flusher = Flusher(buckets: Buckets, failures: nat, periodStart: int)

  /** What the second half of a flush does, the snapshot having been taken at periodEnd. */
  function AfterFlush(f: Flusher, sent: Buckets, periodEnd: int, outcome: Outcome): Flusher {
    var g := f.(failures := FailuresAfter(f.failures, outcome));
    if LetsGo(f.failures, outcome) then g.(buckets := Subtract(f.buckets, sent), periodStart := periodEnd) else g
  }

  /** A snapshot that was delivered or rejected is taken out at once, and the failures are forgotten. */
  lemma DeliveredOrRejectedGoes(f: Flusher, sent: Buckets, periodEnd: int, outcome: Outcome)
    requires outcome == Delivered || outcome == Rejected
    ensures AfterFlush(f, sent, periodEnd, outcome) == Flusher(Subtract(f.buckets, sent), 0, periodEnd)
  {
  }

  /** One that failed stays, and is counted, but for the fifth failure in a row: then it is taken out. */
  lemma FailedStaysUntilFifth(f: Flusher, sent: Buckets, periodEnd: int)
    requires f.failures < 5
    ensures AfterFlush(f, sent, periodEnd, Failed) ==
            if f.failures == 4 then Flusher(Subtract(f.buckets, sent), 0, periodEnd)
            else Flusher(f.buckets, f.failures + 1, f.periodStart)
  {
  }

  class PerformanceFlusher {
    var buckets: Buckets
    var periodStart: int
    var failures: nat

    function State(): Flusher
      reads this
    {
      Flusher(buckets, failures, periodStart)
    }

    constructor (now: int)
      ensures State() == Flusher(map[], 0, now)
    {
      buckets, periodStart, failures := map[], now, 0;
    }

    method Record(name: string, duration: real)
      modifies this`buckets
      ensures State() == old(State()).(buckets := Tallied(old(buckets), name, duration))
    {
      hide LabelFor;
      var bucket := if name in buckets then buckets[name] else Bucket(0, 0.0, 0.0, map[]);
      bucket := bucket.(count := bucket.count + 1);
      bucket := bucket.(durationSum := bucket.durationSum + duration);
      if duration > bucket.maxDuration {
        bucket := bucket.(maxDuration := duration);
      }
      var range := BucketFor(duration);
      bucket := bucket.(histogram := bucket.histogram[range := At(bucket.histogram, range) + 1]);
      buckets := buckets[name := bucket];
    }

    /** The first half of Flush, up to releasing the lock; None when there is nothing to send. */
    method BeginFlush() returns (sent: Option<Buckets>)
      ensures sent == if buckets == map[] then None else Some(buckets)
    {
      if |buckets| == 0 {
        assert buckets == map[];
        return None;
      }
      return Some(buckets);
    }

    /** The second half of Flush, once delivery has ended. */
    method EndFlush(sent: Buckets, periodEnd: int, outcome: Outcome)
      modifies this
      ensures State() == AfterFlush(old(State()), sent, periodEnd, outcome)
    {
      match outcome {
        case Delivered =>
          failures := 0;
        case Rejected =>
          failures := 0;
        case Failed =>
          failures := failures + 1;
          if failures < MAX_FLUSH_FAILURES {
            return;
          }
          failures := 0;
      }
      buckets := LessBuckets(buckets, sent);
      periodStart := periodEnd;
    }
  }

  function Restricted<T>(m: map<string, T>, keys: set<string>): map<string, T> {
    map k | k in m && k in keys :: m[k]
  }

  /** One turn of the loop over the buckets sent. */
  lemma SubtractNext(current: Buckets, sent: Buckets, done: set<string>, name: string)
    requires name in sent && name !in done
    ensures var before := Subtract(current, Restricted(sent, done));
            Subtract(current, Restricted(sent, done + {name})) ==
            if name !in before then before
            else if before[name].count <= sent[name].count then before - {name}
            else before[name := SubtractBucket(before[name], sent[name])]
  {
  }

  lemma SubtractNothing(current: Buckets, sent: Buckets)
    ensures Subtract(current, Restricted(sent, {})) == current
    ensures Restricted(sent, sent.Keys) == sent
  {
  }

  /** The loop over the buckets sent. */
  method LessBuckets(current: Buckets, sent: Buckets) returns (buckets: Buckets)
    ensures buckets == Subtract(current, sent)
  {
    hide Subtract, Restricted;
    buckets := current;
    var names := sent.Keys;
    ghost var done: set<string> := {};
    SubtractNothing(current, sent);
    while names != {}
      invariant done + names == sent.Keys && done !! names
      invariant buckets == Subtract(current, Restricted(sent, done))
      decreases |names|
    {
      var name :| name in names;
      names := names - {name};
      SubtractNext(current, sent, done, name);
      done := done + {name};
      if name in buckets {
        var bucket := buckets[name];
        bucket := bucket.(count := bucket.count - sent[name].count);
        bucket := bucket.(durationSum := bucket.durationSum - sent[name].durationSum);
        var histogram := LessHistogram(bucket.histogram, sent[name].histogram);
        bucket := bucket.(histogram := histogram);
        if bucket.count <= 0 {
          buckets := buckets - {name};
        } else {
          buckets := buckets[name := bucket];
        }
      }
    }
    assert done == sent.Keys;
  }

  lemma LeftOfRange(current: map<string, int>, sent: map<string, int>, range: string)
    ensures var left := SubtractHistogram(current, sent);
            && (range !in sent ==> At(left, range) == At(current, range) && (range in left <==> range in current))
            && (range in sent ==> (range in left <==> At(current, range) > sent[range]))
            && (range in left ==>
                  left[range] == if range in sent then At(current, range) - sent[range] else current[range])
  {
  }

  lemma HistogramNext(current: map<string, int>, sent: map<string, int>, done: set<string>, range: string)
    requires range in sent && range !in done
    ensures var before := SubtractHistogram(current, Restricted(sent, done));
            var remaining := At(before, range) - sent[range];
            SubtractHistogram(current, Restricted(sent, done + {range})) ==
            if remaining > 0 then before[range := remaining] else before - {range}
  {
    hide SubtractHistogram, At;
    var before := SubtractHistogram(current, Restricted(sent, done));
    var after := SubtractHistogram(current, Restricted(sent, done + {range}));
    LeftOfRange(current, Restricted(sent, done), range);
    LeftOfRange(current, Restricted(sent, done + {range}), range);
    forall r | r != range ensures (r in after <==> r in before) && (r in after ==> after[r] == before[r]) {
      LeftOfRange(current, Restricted(sent, done), r);
      LeftOfRange(current, Restricted(sent, done + {range}), r);
    }
  }

  lemma HistogramNothing(current: map<string, int>, sent: map<string, int>)
    ensures SubtractHistogram(current, Restricted(sent, {})) == current
    ensures Restricted(sent, sent.Keys) == sent
  {
  }

  /** The loop over one bucket's ranges. */
  method LessHistogram(current: map<string, int>, sent: map<string, int>) returns (histogram: map<string, int>)
    ensures histogram == SubtractHistogram(current, sent)
  {
    hide SubtractHistogram, Restricted;
    histogram := current;
    var ranges := sent.Keys;
    ghost var done: set<string> := {};
    HistogramNothing(current, sent);
    while ranges != {}
      invariant done + ranges == sent.Keys && done !! ranges
      invariant histogram == SubtractHistogram(current, Restricted(sent, done))
      decreases |ranges|
    {
      var range :| range in ranges;
      ranges := ranges - {range};
      HistogramNext(current, sent, done, range);
      done := done + {range};
      var remaining := At(histogram, range) - sent[range];
      if remaining > 0 {
        histogram := histogram[range := remaining];
      } else {
        histogram := histogram - {range};
      }
    }
    assert done == sent.Keys;
  }
}

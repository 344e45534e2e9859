// How a delivery attempt can end, and what a batch sender does about it: the part MetricBuffer.Flush
// and PerformanceFlusher.Flush share.
module Delivery {

  datatype Option<+T> = None | Some(value: T)

  /** What the network made of a batch; which one is up to the environment. */
  datatype Outcome = Delivered | Rejected | Failed

  const MAX_FLUSH_FAILURES: nat := 5

  /** Whether the batch is let go of, delivered or dropped, rather than kept for the next flush. */
  predicate LetsGo(failures: nat, outcome: Outcome) {
    !outcome.Failed? || failures + 1 >= MAX_FLUSH_FAILURES
  }

  /** Failed flushes in a row after this one. */
  function FailuresAfter(failures: nat, outcome: Outcome): nat {
    if LetsGo(failures, outcome) then 0 else failures + 1
  }

  /** How often each item was sent, after one more send of every item from this position on. */
  function Sent(sends: seq<nat>, from: nat): (r: seq<nat>)
    ensures |r| == |sends|
    ensures forall k :: 0 <= k < |r| ==> r[k] == if k < from then sends[k] else sends[k] + 1
  {
    seq(|sends|, k requires 0 <= k < |sends| => if k < from then sends[k] else sends[k] + 1)
  }
}

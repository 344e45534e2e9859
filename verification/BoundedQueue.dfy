// DeliveryQueue and SpanQueue: a bounded channel, one worker, and a marker that waits its turn. The
// two differ only in what an item carries.
module BoundedQueue {
  import opened Delivery

  /** A payload to deliver, or the marker of a Flush call. */
  datatype Item<T> = Payload(payload: T) | Marker(flush: nat)

  /** The channel's buffer and what the worker has in hand; and, as history, every item the channel
      accepted and every item the worker is done with. A marker's done channel is closed when the worker
      is done with it. */
  datatype Channel<T> = Channel(
    capacity: nat,
    queue: seq<Item<T>>,
    current: Option<Item<T>>,
    accepted: seq<Item<T>>,
    processed: seq<Item<T>>)

  function Capacity(size: int): nat {
    if size < 1 then 1 else size
  }

  /** A send that does not wait: the item is dropped when the buffer is full. */
  function AfterPush<T>(c: Channel<T>, item: Item<T>): Channel<T> {
    if |c.queue| < c.capacity then c.(queue := c.queue + [item], accepted := c.accepted + [item]) else c
  }

  function AfterTake<T>(c: Channel<T>): Channel<T> {
    if c.current.Some? || c.queue == [] then c
    else c.(current := Some(c.queue[0]), queue := c.queue[1..])
  }

  /** Delivered, failed or panicked: the worker is done with the item either way. */
  function AfterDone<T>(c: Channel<T>): Channel<T> {
    if c.current.None? then c else c.(current := None, processed := c.processed + [c.current.value])
  }

  class BoundedQueue<T> {
    const capacity: nat
    var queue: seq<Item<T>>
    var current: Option<Item<T>>
    ghost var accepted: seq<Item<T>>
    ghost var processed: seq<Item<T>>

    ghost function State(): Channel<T>
      reads this
    {
      Channel(capacity, queue, current, accepted, processed)
    }

    constructor (size: int)
      ensures State() == Channel(Capacity(size), [], None, [], [])
    {
      capacity := if size < 1 then 1 else size;
      queue, current, accepted, processed := [], None, [], [];
    }

    method Push(payload: T) returns (kept: bool)
      modifies this
      ensures kept == (|old(queue)| < capacity)
      ensures State() == AfterPush(old(State()), Payload(payload))
    {
      if |queue| < capacity {
        queue, accepted := queue + [Payload(payload)], accepted + [Payload(payload)];
        return true;
      }
      return false;
    }

    /** The first half of sendAndWait, at a moment when it need not wait for room. */
    method SendMarker(flush: nat) returns (sent: bool)
      modifies this
      ensures sent == (|old(queue)| < capacity)
      ensures State() == AfterPush(old(State()), Marker(flush))
    {
      if |queue| < capacity {
        queue, accepted := queue + [Marker(flush)], accepted + [Marker(flush)];
        return true;
      }
      return false;
    }

    /** The worker receives the next item, when it is free and there is one. */
    method Take()
      modifies this
      ensures State() == AfterTake(old(State()))
    {
      if current.None? && queue != [] {
        current, queue := Some(queue[0]), queue[1..];
      }
    }

    /** The worker is done with the item; closed says which Flush, if any, stops waiting. */
    method Done() returns (closed: Option<nat>)
      modifies this
      ensures State() == AfterDone(old(State()))
      ensures closed == match old(current) case Some(Marker(flush)) => Some(flush) case _ => None
    {
      closed := None;
      if current.Some? {
        if current.value.Marker? {
          closed := Some(current.value.flush);
        }
        processed := processed + [current.value];
        current := None;
      }
    }
  }

  // ---------------------------------------------------------------- every reachable state

  datatype Event<T> = Push(payload: T) | Mark(flush: nat) | Take | Done

  function Step<T>(c: Channel<T>, event: Event<T>): Channel<T> {
    match event
    case Push(payload) => AfterPush(c, Payload(payload))
    case Mark(flush) => AfterPush(c, Marker(flush))
    case Take => AfterTake(c)
    case Done => AfterDone(c)
  }

  function Run<T>(c: Channel<T>, events: seq<Event<T>>): Channel<T>
    decreases |events|
  {
    if events == [] then c else Run(Step(c, events[0]), events[1..])
  }

  function InHand<T>(c: Channel<T>): seq<Item<T>> {
    if c.current.Some? then [c.current.value] else []
  }

  /** What was accepted is what is done, what the worker has in hand and what waits, in this order. */
  predicate Inv<T(==)>(c: Channel<T>) {
    c.accepted == c.processed + InHand(c) + c.queue && |c.queue| <= c.capacity
  }

  lemma StepKeepsInv<T>(c: Channel<T>, event: Event<T>)
    requires Inv(c)
    ensures Inv(Step(c, event))
  {
    var d := Step(c, event);
    if event.Take? && c.current.None? && c.queue != [] {
      assert c.queue == [c.queue[0]] + c.queue[1..];
    }
    if event.Push? || event.Mark? {
      assert forall x :: c.processed + InHand(c) + (c.queue + [x]) == c.processed + InHand(c) + c.queue + [x];
    }
  }

  lemma {:induction false} RunKeepsInv<T>(c: Channel<T>, events: seq<Event<T>>)
    requires Inv(c)
    ensures Inv(Run(c, events))
    ensures c.accepted <= Run(c, events).accepted && c.processed <= Run(c, events).processed
    decreases |events|
  {
    if events != [] {
      StepKeepsInv(c, events[0]);
      RunKeepsInv(Step(c, events[0]), events[1..]);
    }
  }

  /** In every state a new queue can reach, the items the worker is done with are the first ones
      accepted, each once and in order, and the buffer is never over capacity. */
  lemma QueueIsFifo<T>(size: int, events: seq<Event<T>>)
    ensures var c := Run(Channel(Capacity(size), [], None, [], []), events);
            && c.processed + InHand(c) + c.queue == c.accepted
            && c.processed <= c.accepted
            && |c.queue| <= Capacity(size)
  {
    var c0: Channel<T> := Channel(Capacity(size), [], None, [], []);
    RunKeepsInv(c0, events);
    CapacityStays(c0, events);
  }

  /** A queue holds as many items as it was made for, one at least; while it is full a push drops its item
      and changes nothing, and otherwise the item goes last. */
  lemma PushedLastOrDropped<T>(size: int, events: seq<Event<T>>, payload: T)
    ensures var c := Run(Channel(Capacity(size), [], None, [], []), events);
            var d := Step(c, Push(payload));
            if |c.queue| >= 1 && |c.queue| >= size then d == c
            else
              && d.queue == c.queue + [Payload(payload)] && d.accepted == c.accepted + [Payload(payload)]
              && d.current == c.current && d.processed == c.processed
  {
    hide Run;
    CapacityStays(Channel(Capacity(size), [], None, [], []), events);
  }

  lemma {:induction false} CapacityStays<T>(c: Channel<T>, events: seq<Event<T>>)
    ensures Run(c, events).capacity == c.capacity
    decreases |events|
  {
    if events != [] {
      CapacityStays(Step(c, events[0]), events[1..]);
    }
  }

  // ---------------------------------------------------------------- markers

  /** The done channel of this Flush is closed. */
  predicate Closed<T(==)>(c: Channel<T>, flush: nat) {
    Marker(flush) in c.processed
  }

  /** No Flush call uses a done channel twice: each makes its own. */
  predicate MarkersDiffer<T>(c: Channel<T>) {
    forall i, j :: 0 <= i < j < |c.accepted| && c.accepted[i].Marker? && c.accepted[j].Marker? ==>
      c.accepted[i].flush != c.accepted[j].flush
  }

  /** A Flush that saw its done channel closed was overtaken by nothing: every item the channel had
      accepted before its marker is done with. */
  lemma ClosedMeansFlushed<T>(c: Channel<T>, p: nat)
    requires Inv(c) && MarkersDiffer(c) && p < |c.accepted| && c.accepted[p].Marker?
    requires Closed(c, c.accepted[p].flush)
    ensures p < |c.processed| && c.accepted[..p] <= c.processed
  {
    var q :| 0 <= q < |c.processed| && c.processed[q] == Marker(c.accepted[p].flush);
    assert c.accepted[q] == c.processed[q];
    assert q == p;
    assert c.accepted[..p] == c.processed[..p];
  }

  /** Worker steps that item p, and everything before it, still needs: two for each item not taken up,
      one for the one in hand. */
  function Work<T>(c: Channel<T>, p: nat): int {
    2 * (p + 1 - |c.processed|) - (if c.current.Some? then 1 else 0)
  }

  predicate Waiting<T>(c: Channel<T>, p: nat) {
    |c.processed| <= p < |c.accepted|
  }

  /** The worker takes up an item or is done with one. */
  predicate WorkerMoves<T>(c: Channel<T>, event: Event<T>) {
    (event.Take? && c.current.None? && c.queue != []) || (event.Done? && c.current.Some?)
  }

  /** Nothing queued later keeps an item waiting longer: its work changes by the worker's own steps
      only, and each takes one off. */
  lemma OnlyWorkerStepsCount<T>(c: Channel<T>, event: Event<T>, p: nat)
    requires Inv(c) && Waiting(c, p)
    ensures Work(Step(c, event), p) == Work(c, p) - (if WorkerMoves(c, event) then 1 else 0)
  {
  }

  /** The worker always has a step to take while an item waits. */
  lemma WorkerCanMove<T>(c: Channel<T>, p: nat)
    requires Inv(c) && Waiting(c, p)
    ensures Work(c, p) > 0
    ensures WorkerMoves(c, Take) || WorkerMoves(c, Done)
  {
    assert |c.accepted| == |c.processed| + |InHand(c)| + |c.queue|;
  }

  /** How many events of a run are the worker doing something. */
  function WorkerSteps<T>(c: Channel<T>, events: seq<Event<T>>): nat
    decreases |events|
  {
    if events == [] then 0
    else (if WorkerMoves(c, events[0]) then 1 else 0) + WorkerSteps(Step(c, events[0]), events[1..])
  }

  /** However pushes, other flushes and the worker interleave, once the worker has made as many steps as
      the item's work was, it is done with it. */
  lemma {:induction false} WorkGetsDone<T>(c: Channel<T>, events: seq<Event<T>>, p: nat)
    requires Inv(c) && Waiting(c, p)
    requires WorkerSteps(c, events) >= Work(c, p)
    ensures p < |Run(c, events).processed|
    decreases |events|
  {
    if events == [] {
      WorkerCanMove(c, p);
    } else {
      var d := Step(c, events[0]);
      StepKeepsInv(c, events[0]);
      OnlyWorkerStepsCount(c, events[0], p);
      if Waiting(d, p) {
        WorkGetsDone(d, events[1..], p);
      } else {
        RunKeepsInv(d, events[1..]);
      }
    }
  }
}

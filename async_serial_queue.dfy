/**
 * The one-at-a-time task queue of lib/algorithms/async-serial-queue.ts.
 *
 * A task is identified by the ticket `enqueue` hands out (its position in enqueue order);
 * the promise returned by `enqueue` is that ticket. The task's own asynchronous work is
 * not modelled: the moment it settles is the explicit `Complete(outcome)` event, and the
 * settlements of all futures are recorded in `settled`.
 */
module SerialQueue {
  import opened Wrappers

  /** How a task's future settles: with the task's value or with its error. */
  datatype Outcome<T> = Resolved(value: T) | Rejected(reason: string)

  datatype Settlement<T> = Settlement(ticket: nat, outcome: Outcome<T>)

  /** The tickets 0, 1, ..., n - 1. */
  function Tickets(n: nat): (r: seq<nat>)
    ensures |r| == n && forall i | 0 <= i < n :: r[i] == i
  {
    if n == 0 then [] else Tickets(n - 1) + [n - 1]
  }

  class AsyncSerialQueue<T> {
    /** The tickets still waiting, in enqueue order. */
    var queue: seq<nat>
    var running: bool
    /** The item the running task's `finally` continuation captured. */
    var current: Option<nat>
    var nextTicket: nat
    /** Tickets whose task was started, in start order. */
    var started: seq<nat>
    /** Futures settled so far, in settle order. */
    var settled: seq<Settlement<T>>

    /**
     * Tasks start in enqueue order and nothing is skipped; exactly the started tasks but
     * the running one have settled, in start order; an idle queue has nothing waiting.
     */
    ghost predicate Valid()
      reads this
    {
      && started + queue == Tickets(nextTicket)
      && (running <==> current.Some?)
      && |started| == |settled| + (if running then 1 else 0)
      && (forall i | 0 <= i < |settled| :: settled[i].ticket == i)
      && (running ==> current.value == |settled|)
      && (!running ==> queue == [])
    }

    constructor()
      ensures Valid() && queue == [] && !running && nextTicket == 0 && started == [] && settled == []
    {
      queue := [];
      running := false;
      current := None;
      nextTicket := 0;
      started := [];
      settled := [];
    }

    /** `size`: the number of waiting tasks; the running one is not counted. */
    function Size(): (n: nat)
      requires Valid()
      reads this
      ensures n == nextTicket - |started|
    {
      |queue|
    }

    /** `isRunning` */
    function IsRunning(): (b: bool)
      requires Valid()
      reads this
      ensures b <==> |started| > |settled|
    {
      running
    }

    /**
     * `enqueue`: the task gets the next ticket; it starts at once on an idle queue and
     * otherwise waits behind the others.
     */
    method Enqueue() returns (ticket: nat)
      requires Valid()
      modifies this
      ensures Valid()
      ensures ticket == old(nextTicket) && nextTicket == ticket + 1 && settled == old(settled)
      ensures !old(running) ==> running && current == Some(ticket) && started == old(started) + [ticket] && queue == []
      ensures old(running) ==> running && current == old(current) && started == old(started) && queue == old(queue) + [ticket]
    {
      ticket := nextTicket;
      nextTicket := nextTicket + 1;
      queue := queue + [ticket];
      RunNext();
    }

    /** `runNext`: starts the first waiting task unless one is running or none waits. */
    method RunNext()
      requires started + queue == Tickets(nextTicket)
      requires running <==> current.Some?
      requires |started| == |settled| + (if running then 1 else 0)
      requires forall i | 0 <= i < |settled| :: settled[i].ticket == i
      requires running ==> current.value == |settled|
      modifies this
      ensures Valid()
      ensures nextTicket == old(nextTicket) && settled == old(settled)
      ensures old(running) || old(queue) == [] ==>
        running == old(running) && current == old(current) && started == old(started) && queue == old(queue)
      ensures !old(running) && old(queue) != [] ==>
        && running && current == Some(old(queue)[0])
        && started == old(started) + [old(queue)[0]] && queue == old(queue)[1..]
    {
      if running {
        return;
      }
      if queue == [] {
        return;
      }
      var item := queue[0];
      assert item == (started + queue)[|started|] == |started|;
      assert (started + [item]) + queue[1..] == started + queue;
      queue := queue[1..];
      running := true;
      current := Some(item);
      started := started + [item];
    }

    /**
     * The running task settles: its own future gets `outcome`, then the `finally`
     * continuation clears `running` and starts the next waiting task, whatever the
     * outcome was.
     */
    method Complete(outcome: Outcome<T>)
      requires Valid() && running
      modifies this
      ensures Valid()
      ensures settled == old(settled) + [Settlement(old(current).value, outcome)]
      ensures nextTicket == old(nextTicket)
      ensures old(queue) == [] ==> !running && started == old(started) && queue == []
      ensures old(queue) != [] ==>
        && running && current == Some(old(queue)[0])
        && started == old(started) + [old(queue)[0]] && queue == old(queue)[1..]
    {
      var item := current.value;
      settled := settled + [Settlement(item, outcome)];
      running := false;
      current := None;
      RunNext();
    }
  }

  /** Tasks start in enqueue order: the i-th task started is the i-th enqueued. */
  lemma StartedInEnqueueOrder<T>(q: AsyncSerialQueue<T>)
    requires q.Valid()
    ensures forall i | 0 <= i < |q.started| :: q.started[i] == i
    ensures q.nextTicket == |q.started| + q.Size()
  {
    forall i | 0 <= i < |q.started| ensures q.started[i] == i {
      assert q.started[i] == (q.started + q.queue)[i];
    }
  }

  /**
   * Three tasks enqueued back to back: only the first starts; each completion settles
   * its own future and starts the next, so values and side effects come out in order.
   */
  method ThreeTasksInOrder<T>(v1: T, v2: T, v3: T) returns (q: AsyncSerialQueue<T>)
    ensures q.Valid() && !q.running && q.started == [0, 1, 2]
    ensures q.settled == [Settlement(0, Resolved(v1)), Settlement(1, Resolved(v2)), Settlement(2, Resolved(v3))]
  {
    q := new AsyncSerialQueue();
    var first := q.Enqueue();
    var second := q.Enqueue();
    var third := q.Enqueue();
    assert q.started == [0] && q.Size() == 2;
    q.Complete(Resolved(v1));
    q.Complete(Resolved(v2));
    q.Complete(Resolved(v3));
  }

  /** A task whose future rejects does not stop the queue: the next task starts. */
  method FailureDoesNotStall<T>(reason: string, v: T) returns (q: AsyncSerialQueue<T>)
    ensures q.Valid() && !q.running && q.started == [0, 1]
    ensures q.settled == [Settlement(0, Rejected(reason)), Settlement(1, Resolved(v))]
  {
    q := new AsyncSerialQueue();
    var first := q.Enqueue();
    var second := q.Enqueue();
    q.Complete(Rejected(reason));
    q.Complete(Resolved(v));
  }
}

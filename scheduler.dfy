/**
 * lib/scheduler/index.ts: a cooperative task runner with a time-ordered heap of
 * delayed tasks, a (priority, deadline)-ordered heap of ready tasks and a live map
 * from task id to the task that currently owns that id.
 *
 * The host's clock is the field `now`, moved forward by the event `AdvanceClock`
 * and by the time each callback takes. The two host timers (the deadline timer and
 * the zero-delay continuation) are the events `FireTimer` and `FireContinuation`.
 * A callback is data: what it does when invoked (returns, returns a promise that
 * later rejects, or throws) and how long it runs. Every invocation is appended to
 * the log `executed`. Object identity of tasks is a serial number given by `Push`.
 */
module Sched {
  import opened Wrappers
  import opened Heap
  import Seqs

  datatype Priority = Sync | Input | Default | NextFrame | Idle {
    function Value(): int {
      match this
      case Sync => 0
      case Input => 5
      case Default => 10
      case NextFrame => 30
      case Idle => 50
    }
  }

  /** What a callback does when invoked; a rejection of a returned promise is only logged. */
  datatype Outcome = Returns | ReturnsRejectingPromise | Throws

  datatype Callback = Callback(tag: nat, outcome: Outcome, duration: nat)

  datatype Task = Task(id: string, priority: Priority, callback: Callback, expiredTime: int, serial: nat)

  /** The time queue's comparator. */
  function TimeCompare(a: Task, b: Task): int {
    a.expiredTime - b.expiredTime
  }

  /** The ready queue's comparator: priority first, then deadline. */
  function ReadyCompare(a: Task, b: Task): int {
    if a.priority == b.priority then a.expiredTime - b.expiredTime
    else a.priority.Value() - b.priority.Value()
  }

  /** Ready-queue order spelled out: lexicographic on (priority value, deadline). */
  lemma ReadyOrderIsLexicographic(a: Task, b: Task)
    ensures Below(ReadyCompare, a, b) <==>
      a.priority.Value() < b.priority.Value()
      || (a.priority.Value() == b.priority.Value() && a.expiredTime < b.expiredTime)
  {
  }

  lemma ComparatorsAreStrictWeakOrders()
    ensures StrictWeakOrder(TimeCompare)
    ensures StrictWeakOrder(ReadyCompare)
  {
    forall a, b, c
      ensures NegativelyTransitive(ReadyCompare, a, b, c)
    {
      ReadyOrderIsLexicographic(a, c);
      ReadyOrderIsLexicographic(a, b);
      ReadyOrderIsLexicographic(b, c);
    }
  }

  /** The priority `push` uses: the given one, `Default` when absent. */
  function EffectivePriority(priority: Option<Priority>): Priority {
    if priority.Some? then priority.value else Default
  }

  /**
   * The deadline `push` gives a task: `now + (delayMs ?? 0)`, plus 16 for
   * `NextFrame` and 50 for `Idle`.
   */
  function Deadline(now: int, priority: Priority, delayMs: Option<int>): int {
    var base := now + (if delayMs.Some? then delayMs.value else 0);
    if priority == NextFrame then base + 16
    else if priority == Idle then base + 50
    else base
  }

  /** The deadline offsets order the priorities: for one push time and delay, NextFrame waits 16 and Idle 50. */
  lemma DeadlineOffsets(now: int, delayMs: Option<int>)
    ensures Deadline(now, EffectivePriority(None), delayMs) == Deadline(now, Default, delayMs)
    ensures Deadline(now, Sync, delayMs) == Deadline(now, Input, delayMs) == Deadline(now, Default, delayMs)
    ensures Deadline(now, NextFrame, delayMs) == Deadline(now, Sync, delayMs) + 16
    ensures Deadline(now, Idle, delayMs) == Deadline(now, Sync, delayMs) + 50
    ensures Deadline(now, Sync, None) == Deadline(now, Sync, Some(0)) == now
  {
  }

  /** `t` is the task that owns its id in the live map `m`. */
  ghost predicate LiveIn(m: map<string, Task>, t: Task) {
    t.id in m && m[t.id] == t
  }

  /** The ids of the tasks in a run of executions. */
  ghost function Ids(run: seq<Task>): set<string> {
    set i | 0 <= i < |run| :: run[i].id
  }

  /** Every task of `run` was in `q` and live in `m`. */
  ghost predicate RanFrom(run: seq<Task>, q: multiset<Task>, m: map<string, Task>) {
    forall t | t in run :: t in q && LiveIn(m, t)
  }

  /** No task runs twice in `run`: a task leaves the live map when it runs. */
  ghost predicate DistinctIds(run: seq<Task>) {
    forall i, j | 0 <= i < j < |run| :: run[i].id != run[j].id
  }

  /** Every entry of `q` that is live in `m` is in `run`. */
  ghost predicate AllRan(q: multiset<Task>, m: map<string, Task>, run: seq<Task>) {
    forall t | t in q && LiveIn(m, t) :: t in run
  }

  /** Every entry of `q` whose deadline has passed at `now` and that is live in `m` is in `run`. */
  ghost predicate AllDueRan(q: multiset<Task>, now: int, m: map<string, Task>, run: seq<Task>) {
    forall t | t in q && t.expiredTime <= now && LiveIn(m, t) :: t in run
  }

  lemma IdsAppend(run: seq<Task>, t: Task)
    ensures Ids(run + [t]) == Ids(run) + {t.id}
  {
    var r := run + [t];
    forall id | id in Ids(r) ensures id in Ids(run) + {t.id} {
      var i :| 0 <= i < |r| && r[i].id == id;
      if i < |run| {
        assert run[i].id == id;
      }
    }
    forall id | id in Ids(run) ensures id in Ids(r) {
      var i :| 0 <= i < |run| && run[i].id == id;
      assert r[i].id == id;
    }
    assert r[|run|].id == t.id;
  }

  class Scheduler {
    const timeQueue: MinHeap<Task>
    const taskQueue: MinHeap<Task>
    const timeSliceMs: int
    var isFlush: bool
    var flushScheduled: bool
    /** Whether `scheduleTimer` is set. */
    var timerArmed: bool
    var scheduleTimestamp: int
    var taskIdMap: map<string, Task>
    /** The host clock (`getNow()`). */
    var now: int
    var nextSerial: nat
    /** Every callback invocation, in order. */
    var executed: seq<Task>

    /** The entry `t` is the live task for its id; any other entry is stale. */
    ghost predicate Live(t: Task)
      reads this
    {
      LiveIn(taskIdMap, t)
    }

    /** The structural invariant, which holds also in the middle of a flush. */
    ghost predicate Consistent()
      reads this, timeQueue, taskQueue
    {
      && timeQueue != taskQueue
      && timeQueue.Valid() && taskQueue.Valid()
      && timeQueue.compare == TimeCompare && taskQueue.compare == ReadyCompare
      && timeSliceMs == 5
    }

    /**
     * The invariant between host events: no flush is running, and ready tasks are
     * left over only while a continuation is pending.
     */
    ghost predicate Valid()
      reads this, timeQueue, taskQueue
    {
      && Consistent()
      && !isFlush
      && (!flushScheduled ==> taskQueue.Elements() == multiset{})
    }

    /**
     * After `peekTimeQueue`: no task is waiting in the time queue without a timer armed
     * for its deadline or earlier, and the head of the queue is live.
     */
    ghost predicate TimerCoversHead()
      reads this, timeQueue, taskQueue
      requires Consistent()
    {
      timeQueue.Elements() != multiset{} ==>
        var head := timeQueue.Peek().value;
        Live(head) && timerArmed && scheduleTimestamp <= head.expiredTime
    }

    constructor (clock: int)
      ensures Valid() && fresh(timeQueue) && fresh(taskQueue)
      ensures taskIdMap == map[] && executed == [] && now == clock && nextSerial == 0
      ensures !timerArmed && !flushScheduled
    {
      ComparatorsAreStrictWeakOrders();
      timeQueue := new MinHeap(TimeCompare);
      taskQueue := new MinHeap(ReadyCompare);
      timeSliceMs := 5;
      isFlush := false;
      flushScheduled := false;
      timerArmed := false;
      scheduleTimestamp := 0;
      taskIdMap := map[];
      now := clock;
      nextSerial := 0;
      executed := [];
    }

    predicate HasTaskById(id: string)
      reads this
    {
      id in taskIdMap
    }

    method Cancel(id: string)
      requires Valid()
      modifies this
      ensures Valid()
      ensures !HasTaskById(id)
      ensures taskIdMap == old(taskIdMap) - {id}
      ensures executed == old(executed) && now == old(now) && timerArmed == old(timerArmed)
      ensures flushScheduled == old(flushScheduled) && nextSerial == old(nextSerial)
    {
      taskIdMap := taskIdMap - {id};
    }

    /** The host clock moves forward between events. */
    method AdvanceClock(dt: nat)
      requires Valid()
      modifies this
      ensures Valid() && now == old(now) + dt
      ensures taskIdMap == old(taskIdMap) && executed == old(executed)
      ensures timerArmed == old(timerArmed) && flushScheduled == old(flushScheduled)
    {
      now := now + dt;
    }

    /**
     * `push`: registers the task as the live task for its id (replacing any earlier
     * one), then a `Sync` task is run at once by a flush, and any other task waits in
     * the time queue with the timer armed no later than its deadline.
     */
    method Push(id: string, priority: Option<Priority>, delayMs: Option<int>, callback: Callback)
      requires Valid()
      modifies this, timeQueue, taskQueue
      ensures Valid()
      ensures nextSerial == old(nextSerial) + 1
      ensures var task := Task(id, EffectivePriority(priority), callback,
                               Deadline(old(now), EffectivePriority(priority), delayMs), old(nextSerial));
        && (task.priority != Sync ==>
              && taskIdMap == old(taskIdMap)[id := task]
              && executed == old(executed) && now == old(now)
              && task in timeQueue.Elements()
              && timerArmed && scheduleTimestamp <= task.expiredTime)
        && (task.priority == Sync ==>
              && old(executed) <= executed
              && task in executed[|old(executed)|..]
              && RanFrom(executed[|old(executed)|..], old(taskQueue.Elements()) + multiset{task}, old(taskIdMap)[id := task])
              && taskIdMap == old(taskIdMap)[id := task] - Ids(executed[|old(executed)|..])
              && !HasTaskById(id))
    {
      var p := EffectivePriority(priority);
      var task := Task(id, p, callback, Deadline(now, p, delayMs), nextSerial);
      nextSerial := nextSerial + 1;
      taskIdMap := taskIdMap[id := task];
      if p == Sync {
        RunSync(task);
      } else {
        Schedule(task);
      }
    }

    /** The `Sync` branch of `push`: the task enters the ready queue and a flush runs it. */
    method RunSync(task: Task)
      requires Valid() && Live(task)
      modifies this, timeQueue, taskQueue
      ensures Valid() && nextSerial == old(nextSerial)
      ensures old(executed) <= executed
      ensures task in executed[|old(executed)|..]
      ensures RanFrom(executed[|old(executed)|..], old(taskQueue.Elements()) + multiset{task}, old(taskIdMap))
      ensures taskIdMap == old(taskIdMap) - Ids(executed[|old(executed)|..])
    {
      taskQueue.Push(task);
      ghost var ready := taskQueue.Elements();
      assert task in ready;
      Flush();
      if !old(flushScheduled) && flushScheduled {
        assert ready == multiset{task};
        assert executed[|old(executed)|..][0] in ready;
      }
    }

    /** A live entry survives a removal of stale entries. */
    static lemma StillPending(before: multiset<Task>, after: multiset<Task>, m: map<string, Task>, task: Task)
      requires forall t | t in before - after :: !LiveIn(m, t)
      requires task in before && LiveIn(m, task)
      ensures task in after
    {
      assert task !in before - after;
    }

    /** The other branch of `push`: the task enters the time queue and the timer is re-armed if needed. */
    method Schedule(task: Task)
      requires Valid() && Live(task)
      modifies this, timeQueue
      ensures Valid()
      ensures taskIdMap == old(taskIdMap) && executed == old(executed) && now == old(now)
      ensures nextSerial == old(nextSerial)
      ensures timerArmed && scheduleTimestamp <= task.expiredTime
      ensures task in timeQueue.Elements()
    {
      timeQueue.Push(task);
      ghost var pending := timeQueue.Elements();
      assert task in pending;
      PeekTimeQueue();
      StillPending(pending, timeQueue.Elements(), taskIdMap, task);
      assert !Below(TimeCompare, task, timeQueue.Peek().value);
    }

    /** `requestFlush`: at most one continuation is pending at a time. */
    method RequestFlush()
      modifies this
      ensures flushScheduled
      ensures taskIdMap == old(taskIdMap) && executed == old(executed) && now == old(now)
      ensures isFlush == old(isFlush) && timerArmed == old(timerArmed) && nextSerial == old(nextSerial)
      ensures scheduleTimestamp == old(scheduleTimestamp)
    {
      if flushScheduled {
        return;
      }
      flushScheduled := true;
    }

    /**
     * `flush`: a no-op while a flush is running; otherwise drains the ready queue and,
     * unless it stopped for the time slice, re-arms the timer.
     */
    method Flush()
      requires Consistent()
      modifies this, timeQueue, taskQueue
      ensures Consistent()
      ensures nextSerial == old(nextSerial) && isFlush == old(isFlush)
      ensures old(isFlush) ==>
        && taskIdMap == old(taskIdMap) && executed == old(executed) && now == old(now)
        && flushScheduled == old(flushScheduled) && timerArmed == old(timerArmed)
      ensures old(executed) <= executed
      ensures var run := executed[|old(executed)|..];
        && taskIdMap == old(taskIdMap) - Ids(run)
        && RanFrom(run, old(taskQueue.Elements()), old(taskIdMap))
        && (forall i, j | 0 <= i < j < |run| :: !Below(ReadyCompare, run[j], run[i]))
        && DistinctIds(run)
      ensures timeQueue.Elements() <= old(timeQueue.Elements()) && now >= old(now)
      ensures !old(isFlush) && !flushScheduled ==> taskQueue.Elements() == multiset{}
      ensures !old(isFlush) && (old(flushScheduled) || !flushScheduled) ==>
        AllRan(old(taskQueue.Elements()), old(taskIdMap), executed[|old(executed)|..])
      ensures !old(isFlush) && !old(flushScheduled) && flushScheduled ==> |executed| > |old(executed)|
      ensures !old(isFlush) && !old(flushScheduled) && flushScheduled ==>
        && timerArmed == old(timerArmed) && scheduleTimestamp == old(scheduleTimestamp)
        && timeQueue.Elements() == old(timeQueue.Elements())
      ensures !old(isFlush) && (old(flushScheduled) || !flushScheduled) ==>
        && (forall t | t in old(timeQueue.Elements()) - timeQueue.Elements() :: !Live(t))
        && (timeQueue.Elements() == multiset{} ==>
              timerArmed == old(timerArmed) && scheduleTimestamp == old(scheduleTimestamp))
        && (timeQueue.Elements() != multiset{} ==>
              var head := timeQueue.Peek().value;
              if !old(timerArmed) || head.expiredTime < old(scheduleTimestamp)
              then timerArmed && scheduleTimestamp == head.expiredTime
              else timerArmed == old(timerArmed) && scheduleTimestamp == old(scheduleTimestamp))
        && TimerCoversHead()
    {
      if isFlush {
        return;
      }
      isFlush := true;
      var stopped, popped := DrainReady();
      ghost var run := executed[|old(executed)|..];
      DrainFacts(old(taskQueue.Elements()), old(taskIdMap), taskQueue.Elements(), popped, taskIdMap, run);
      isFlush := false;
      if !stopped {
        PeekTimeQueue();
      }
      assert executed[|old(executed)|..] == run;
    }

    /**
     * The loop of `flush`: runs ready tasks until the ready queue is empty or the time
     * slice is used up (`stopped`, after a continuation was requested).
     */
    method DrainReady() returns (stopped: bool, ghost popped: multiset<Task>)
      requires Consistent()
      modifies this, taskQueue
      ensures Consistent()
      ensures isFlush == old(isFlush) && timerArmed == old(timerArmed) && nextSerial == old(nextSerial)
      ensures scheduleTimestamp == old(scheduleTimestamp) && now >= old(now)
      ensures old(executed) <= executed
      ensures DrainInvariant(old(taskQueue.Elements()), old(taskIdMap), taskQueue.Elements(),
                             popped, taskIdMap, executed[|old(executed)|..])
      ensures stopped ==> flushScheduled && !old(flushScheduled) && |executed| > |old(executed)|
      ensures !stopped ==> taskQueue.Elements() == multiset{} && flushScheduled == old(flushScheduled)
    {
      var start := now;
      popped := multiset{};
      while !taskQueue.IsEmpty()
        invariant Consistent()
        invariant isFlush == old(isFlush) && timerArmed == old(timerArmed) && nextSerial == old(nextSerial)
        invariant scheduleTimestamp == old(scheduleTimestamp) && now >= start == old(now)
        invariant flushScheduled == old(flushScheduled)
        invariant old(executed) <= executed
        invariant DrainInvariant(old(taskQueue.Elements()), old(taskIdMap),
                                 taskQueue.Elements(), popped, taskIdMap, executed[|old(executed)|..])
        decreases taskQueue.Len()
      {
        ghost var run0 := executed[|old(executed)|..];
        ghost var map0 := taskIdMap;
        ghost var q0 := taskQueue.Elements();
        ghost var e0 := executed;
        var stop, head := RunNext(start);
        assert stop ==> LiveIn(map0, head);
        if LiveIn(map0, head) {
          Seqs.SuffixAppend(e0, [head], |old(executed)|);
        }
        DrainStep(old(taskQueue.Elements()), old(taskIdMap), q0, popped, map0, run0,
                  head, taskQueue.Elements(), taskIdMap, executed[|old(executed)|..]);
        popped := popped + multiset{head};
        if stop {
          return true, popped;
        }
      }
      return false, popped;
    }

    /**
     * What the loop of `flush` keeps, over the ready queue `q` it has left, the entries
     * it has `popped`, the live map `m` and the `run` of tasks it invoked: every invoked
     * task was live at the start, every popped task that was live at the start was
     * invoked, and the run is in (priority, deadline) order, ahead of everything left.
     */
    static ghost predicate DrainInvariant(startQ: multiset<Task>, startMap: map<string, Task>,
                                          q: multiset<Task>, popped: multiset<Task>,
                                          m: map<string, Task>, run: seq<Task>)
    {
      && q + popped == startQ
      && m == startMap - Ids(run)
      && (forall t | t in run :: t in popped && LiveIn(startMap, t))
      && (forall i, j | 0 <= i < j < |run| :: !Below(ReadyCompare, run[j], run[i]))
      && DistinctIds(run)
      && (forall x, i | x in q && 0 <= i < |run| :: !Below(ReadyCompare, x, run[i]))
      && (forall t | t in popped && LiveIn(startMap, t) :: t in run)
    }

    static lemma DrainFacts(startQ: multiset<Task>, startMap: map<string, Task>,
                            q: multiset<Task>, popped: multiset<Task>, m: map<string, Task>, run: seq<Task>)
      requires DrainInvariant(startQ, startMap, q, popped, m, run)
      ensures RanFrom(run, startQ, startMap)
      ensures q == multiset{} ==> AllRan(startQ, startMap, run)
    {
      if q == multiset{} {
        assert popped == startQ;
      }
    }

    static lemma DrainStep(startQ: multiset<Task>, startMap: map<string, Task>,
                           q: multiset<Task>, popped: multiset<Task>, m: map<string, Task>, run: seq<Task>,
                           head: Task, q': multiset<Task>, m': map<string, Task>, run': seq<Task>)
      requires DrainInvariant(startQ, startMap, q, popped, m, run)
      requires head in q && q' == q - multiset{head}
      requires forall x | x in q :: !Below(ReadyCompare, x, head)
      requires LiveIn(m, head) ==> m' == m - {head.id} && run' == run + [head]
      requires !LiveIn(m, head) ==> m' == m && run' == run
      ensures DrainInvariant(startQ, startMap, q', popped + multiset{head}, m', run')
    {
      if LiveIn(m, head) {
        IdsAppend(run, head);
        forall i | 0 <= i < |run| ensures run[i].id != head.id {
          assert run[i].id in Ids(run);
        }
      } else {
        StaleWasRun(startMap, m, head, run);
      }
    }

    /**
     * One turn of the loop of `flush`: pops the head of the ready queue; a stale entry
     * is skipped; a live task leaves the live map and is invoked. After a callback that
     * did not throw, if no continuation is pending and more than `timeSliceMs` has
     * passed since `start`, a continuation is requested and the loop stops.
     */
    method RunNext(start: int) returns (stop: bool, ghost head: Task)
      requires Consistent() && taskQueue.Elements() != multiset{}
      modifies this, taskQueue
      ensures Consistent()
      ensures isFlush == old(isFlush) && timerArmed == old(timerArmed) && nextSerial == old(nextSerial)
      ensures scheduleTimestamp == old(scheduleTimestamp)
      ensures head in old(taskQueue.Elements()) && taskQueue.Elements() == old(taskQueue.Elements()) - multiset{head}
      ensures forall x | x in old(taskQueue.Elements()) :: !Below(ReadyCompare, x, head)
      ensures old(Live(head)) ==>
        && executed == old(executed) + [head]
        && taskIdMap == old(taskIdMap) - {head.id}
        && now == old(now) + head.callback.duration
        && (stop <==> head.callback.outcome != Throws && !old(flushScheduled) && now - start > timeSliceMs)
        && flushScheduled == (old(flushScheduled) || stop)
      ensures !old(Live(head)) ==>
        && executed == old(executed) && taskIdMap == old(taskIdMap) && now == old(now)
        && flushScheduled == old(flushScheduled) && !stop
    {
      var popped := taskQueue.Pop();
      var task := popped.value;
      head := task;
      stop := false;
      if !(task.id in taskIdMap && taskIdMap[task.id] == task) {
        return;
      }
      taskIdMap := taskIdMap - {task.id};
      executed := executed + [task];
      now := now + task.callback.duration;
      if task.callback.outcome != Throws {
        if !flushScheduled && now - start > timeSliceMs {
          RequestFlush();
          stop := true;
        }
      }
    }

    /** A popped entry that is no longer live but was live at the start of the drain has already run. */
    static lemma StaleWasRun(start: map<string, Task>, current: map<string, Task>, task: Task, run: seq<Task>)
      requires current == start - Ids(run)
      requires forall t | t in run :: LiveIn(start, t)
      requires !LiveIn(current, task)
      ensures LiveIn(start, task) ==> task in run
    {
      if LiveIn(start, task) {
        assert task.id in Ids(run);
        var i :| 0 <= i < |run| && run[i].id == task.id;
        assert LiveIn(start, run[i]);
      }
    }

    /**
     * `peekTimeQueue`: drops stale entries from the head of the time queue, then arms the
     * timer for the head's deadline unless a timer is already armed for a deadline no
     * later than it.
     */
    method PeekTimeQueue()
      requires Consistent()
      modifies this, timeQueue
      ensures Consistent()
      ensures taskIdMap == old(taskIdMap) && executed == old(executed) && now == old(now)
      ensures isFlush == old(isFlush) && flushScheduled == old(flushScheduled) && nextSerial == old(nextSerial)
      ensures timeQueue.Elements() <= old(timeQueue.Elements())
      ensures forall t | t in old(timeQueue.Elements()) - timeQueue.Elements() :: !Live(t)
      ensures timeQueue.Elements() == multiset{} ==>
        timerArmed == old(timerArmed) && scheduleTimestamp == old(scheduleTimestamp)
      ensures timeQueue.Elements() != multiset{} ==>
        var head := timeQueue.Peek().value;
        && Live(head)
        && (if !old(timerArmed) || head.expiredTime < old(scheduleTimestamp)
            then timerArmed && scheduleTimestamp == head.expiredTime
            else timerArmed == old(timerArmed) && scheduleTimestamp == old(scheduleTimestamp))
    {
      DropStaleHeads();
      var head := timeQueue.Peek();
      if head.None? {
        return;
      }
      var headTask := head.value;
      if timerArmed {
        if headTask.expiredTime < scheduleTimestamp {
          timerArmed := false;
        } else {
          return;
        }
      }
      scheduleTimestamp := headTask.expiredTime;
      timerArmed := true;
    }

    /** The loop of `peekTimeQueue`: pops head entries while they are stale. */
    method DropStaleHeads()
      requires Consistent()
      modifies timeQueue
      ensures Consistent()
      ensures timeQueue.Elements() <= old(timeQueue.Elements())
      ensures forall t | t in old(timeQueue.Elements()) - timeQueue.Elements() :: !Live(t)
      ensures timeQueue.Elements() != multiset{} ==> Live(timeQueue.Peek().value)
    {
      while true
        invariant Consistent()
        invariant timeQueue.Elements() <= old(timeQueue.Elements())
        invariant forall t | t in old(timeQueue.Elements()) - timeQueue.Elements() :: !Live(t)
        decreases timeQueue.Len()
      {
        var head := timeQueue.Peek();
        if head.None? || (head.value.id in taskIdMap && taskIdMap[head.value.id] == head.value) {
          return;
        }
        var stale := timeQueue.Pop();
      }
    }

    /**
     * The loop of the timer callback: every entry of the time queue whose deadline has
     * passed leaves it, and exactly the live ones among them enter the ready queue.
     */
    method MoveDueTasks() returns (ghost due: multiset<Task>, ghost moved: multiset<Task>)
      requires Consistent()
      modifies timeQueue, taskQueue
      ensures Consistent()
      ensures MoveInvariant(old(timeQueue.Elements()), old(taskQueue.Elements()), taskIdMap, now,
                            timeQueue.Elements(), taskQueue.Elements(), due, moved)
      ensures forall t | t in timeQueue.Elements() :: t.expiredTime > now
    {
      due, moved := multiset{}, multiset{};
      while !timeQueue.IsEmpty()
        invariant Consistent()
        invariant MoveInvariant(old(timeQueue.Elements()), old(taskQueue.Elements()), taskIdMap, now,
                                timeQueue.Elements(), taskQueue.Elements(), due, moved)
        decreases timeQueue.Len()
      {
        var task := timeQueue.Peek().value;
        if task.expiredTime > now {
          forall t | t in timeQueue.Elements() ensures t.expiredTime > now {
            assert !Below(TimeCompare, t, task);
          }
          break;
        }
        ghost var t0, q0 := timeQueue.Elements(), taskQueue.Elements();
        var live := MoveHead();
        MoveStep(old(timeQueue.Elements()), old(taskQueue.Elements()), taskIdMap, now,
                 t0, q0, due, moved, task, live);
        due := due + multiset{task};
        if live {
          moved := moved + multiset{task};
        }
      }
    }

    /**
     * What the loop of the timer callback keeps: the time queue `t` and the entries
     * taken from it (`due`, all of them due at `now`) make up the starting time queue,
     * and the ready queue gained exactly the live entries among them (`moved`).
     */
    static ghost predicate MoveInvariant(startT: multiset<Task>, startQ: multiset<Task>, m: map<string, Task>,
                                         now: int, t: multiset<Task>, q: multiset<Task>,
                                         due: multiset<Task>, moved: multiset<Task>)
    {
      && t + due == startT
      && q == startQ + moved
      && (forall x | x in due :: x.expiredTime <= now)
      && (forall x | x in moved :: x in due && LiveIn(m, x))
      && (forall x | x in due && LiveIn(m, x) :: x in moved)
    }

    static lemma MoveStep(startT: multiset<Task>, startQ: multiset<Task>, m: map<string, Task>, now: int,
                          t: multiset<Task>, q: multiset<Task>, due: multiset<Task>, moved: multiset<Task>,
                          head: Task, live: bool)
      requires MoveInvariant(startT, startQ, m, now, t, q, due, moved)
      requires head in t && head.expiredTime <= now && live == LiveIn(m, head)
      ensures MoveInvariant(startT, startQ, m, now, t - multiset{head},
                            if live then q + multiset{head} else q,
                            due + multiset{head}, if live then moved + multiset{head} else moved)
    {
      assert t - multiset{head} + (due + multiset{head}) == t + due;
    }

    /** One turn of the timer callback's loop: the head of the time queue leaves it and, if live, enters the ready queue. */
    method MoveHead() returns (live: bool)
      requires Consistent() && timeQueue.Elements() != multiset{}
      modifies timeQueue, taskQueue
      ensures Consistent()
      ensures var head := old(timeQueue.Peek()).value;
        && live == Live(head)
        && timeQueue.Elements() == old(timeQueue.Elements()) - multiset{head}
        && taskQueue.Elements() == if live then old(taskQueue.Elements()) + multiset{head} else old(taskQueue.Elements())
    {
      var head := timeQueue.Pop();
      live := head.value.id in taskIdMap && taskIdMap[head.value.id] == head.value;
      if live {
        taskQueue.Push(head.value);
      }
    }

    /**
     * The deadline timer fires at time `at` (no earlier than the deadline it was armed
     * for): due tasks move to the ready queue, then a flush runs. Every task invoked was
     * live and either ready already or due; unless the flush stopped for its time slice,
     * every live due task was invoked; no entry left in the time queue is due.
     */
    method FireTimer(at: int)
      requires Valid() && timerArmed && at >= now && at >= scheduleTimestamp
      modifies this, timeQueue, taskQueue
      ensures Valid() && now >= at
      ensures old(executed) <= executed
      ensures var run := executed[|old(executed)|..];
        && taskIdMap == old(taskIdMap) - Ids(run)
        && (forall t | t in run ::
              && LiveIn(old(taskIdMap), t)
              && (t in old(taskQueue.Elements()) || (t in old(timeQueue.Elements()) && t.expiredTime <= at)))
        && (old(flushScheduled) || !flushScheduled ==> AllDueRan(old(timeQueue.Elements()), at, old(taskIdMap), run))
        && (!old(flushScheduled) && flushScheduled ==> |run| > 0)
        && DistinctIds(run)
      ensures forall t | t in timeQueue.Elements() :: t.expiredTime > at
      ensures old(flushScheduled) || !flushScheduled ==> TimerCoversHead()
      ensures !old(flushScheduled) && flushScheduled ==> !timerArmed
    {
      now := at;
      timerArmed := false;
      TimerCallback();
    }

    /** The body of the timer callback, at the current time. */
    method TimerCallback()
      requires Valid()
      modifies this, timeQueue, taskQueue
      ensures Valid() && now >= old(now)
      ensures old(executed) <= executed
      ensures var run := executed[|old(executed)|..];
        && taskIdMap == old(taskIdMap) - Ids(run)
        && (forall t | t in run ::
              && LiveIn(old(taskIdMap), t)
              && (t in old(taskQueue.Elements()) || (t in old(timeQueue.Elements()) && t.expiredTime <= old(now))))
        && (old(flushScheduled) || !flushScheduled ==>
              AllDueRan(old(timeQueue.Elements()), old(now), old(taskIdMap), run))
        && (!old(flushScheduled) && flushScheduled ==> |run| > 0)
        && DistinctIds(run)
      ensures forall t | t in timeQueue.Elements() :: t.expiredTime > old(now)
      ensures old(flushScheduled) || !flushScheduled ==> TimerCoversHead()
      ensures !old(flushScheduled) && flushScheduled ==>
        timerArmed == old(timerArmed) && scheduleTimestamp == old(scheduleTimestamp)
    {
      ghost var t0, q0, m0, e0 := timeQueue.Elements(), taskQueue.Elements(), taskIdMap, executed;
      var due, moved := MoveDueTasks();
      ghost var t1, q1, m1, e1 := timeQueue.Elements(), taskQueue.Elements(), taskIdMap, executed;
      Flush();
      ghost var run := executed[|e1|..];
      assert RanFrom(run, q1, m1);
      TimerFacts(t0, q0, m0, old(now), t1, due, moved, q1, run);
    }

    /** What the timer callback achieves, from what its loop keeps and what the flush did. */
    static lemma TimerFacts(t0: multiset<Task>, q0: multiset<Task>, m: map<string, Task>, at: int,
                            t1: multiset<Task>, due: multiset<Task>, moved: multiset<Task>, q1: multiset<Task>,
                            run: seq<Task>)
      requires MoveInvariant(t0, q0, m, at, t1, q1, due, moved)
      requires forall t | t in t1 :: t.expiredTime > at
      requires RanFrom(run, q1, m)
      ensures forall t | t in run :: LiveIn(m, t) && (t in q0 || (t in t0 && t.expiredTime <= at))
      ensures AllRan(q1, m, run) ==> AllDueRan(t0, at, m, run)
    {
    }

    /**
     * The zero-delay continuation requested by a flush that ran out of its time slice:
     * it either runs every live ready task, or runs at least one and requests the next
     * continuation.
     */
    method FireContinuation()
      requires Valid() && flushScheduled
      modifies this, timeQueue, taskQueue
      ensures Valid()
      ensures old(executed) <= executed
      ensures var run := executed[|old(executed)|..];
        && taskIdMap == old(taskIdMap) - Ids(run)
        && RanFrom(run, old(taskQueue.Elements()), old(taskIdMap))
        && (!flushScheduled ==> AllRan(old(taskQueue.Elements()), old(taskIdMap), run))
        && (flushScheduled ==> |run| > 0)
        && DistinctIds(run)
      ensures !flushScheduled ==> TimerCoversHead()
      ensures flushScheduled ==> timerArmed == old(timerArmed) && scheduleTimestamp == old(scheduleTimestamp)
    {
      flushScheduled := false;
      Flush();
    }
  }

  /** A task cancelled before its deadline never runs: the timer still fires, but finds only a stale entry. */
  method CancelledTaskNeverRuns(callback: Callback) returns (ran: seq<Task>)
    ensures ran == []
  {
    var s := new Scheduler(0);
    s.Push("a", Some(Default), Some(100), callback);
    s.Cancel("a");
    var at := if s.scheduleTimestamp > s.now then s.scheduleTimestamp else s.now;
    s.FireTimer(at);
    ran := s.executed;
    NoMemberEmpty(ran);
  }

  lemma NoMemberEmpty(s: seq<Task>)
    requires forall t | t in s :: false
    ensures s == []
  {
    if s != [] {
      assert false by {
        assert s[0] in s;
      }
    }
  }

  /** Pushing a second task under an id supersedes the first: only the second runs. */
  method LatestPushWins(first: Callback, second: Callback) returns (ran: seq<Task>)
    ensures |ran| == 1 && ran[0].callback == second && ran[0].serial == 1
  {
    var s := new Scheduler(0);
    s.Push("a", Some(Input), Some(10), first);
    s.Push("a", Some(Input), Some(10), second);
    ghost var latest := Task("a", Input, second, 10, 1);
    ghost var m, t0 := s.taskIdMap, s.timeQueue.Elements();
    assert m == map["a" := latest] && latest in t0 && s.executed == [];
    var at := if s.scheduleTimestamp > 10 then s.scheduleTimestamp else 10;
    s.FireTimer(at);
    ran := s.executed;
    assert ran == s.executed[0..];
    OnlyLatestRan(ran, m, t0, at, latest);
  }

  /** A run drawn from a live map holding one task, that includes every due task, is that task alone. */
  lemma OnlyLatestRan(run: seq<Task>, m: map<string, Task>, t0: multiset<Task>, at: int, latest: Task)
    requires m == map[latest.id := latest] && latest in t0 && latest.expiredTime <= at
    requires forall t | t in run :: LiveIn(m, t)
    requires DistinctIds(run)
    requires AllDueRan(t0, at, m, run) || |run| > 0
    ensures run == [latest]
  {
    assert AllDueRan(t0, at, m, run) ==> latest in run;
    forall i | 0 <= i < |run| ensures run[i] == latest {
      assert LiveIn(m, run[i]);
    }
    SameIdAtMostOnce(run, latest.id);
  }

  /** Tasks that all share one id can run at most once between them. */
  lemma SameIdAtMostOnce(run: seq<Task>, id: string)
    requires DistinctIds(run)
    requires forall i | 0 <= i < |run| :: run[i].id == id
    ensures |run| <= 1
  {
    DistinctIdsCount(run);
    if |run| > 0 {
      assert run[0].id in Ids(run);
      assert Ids(run) == {id};
    }
  }

  /** A run in which no task runs twice has as many ids as invocations. */
  lemma {:induction false} DistinctIdsCount(run: seq<Task>)
    requires DistinctIds(run)
    ensures |Ids(run)| == |run|
    decreases |run|
  {
    if run != [] {
      var r, last := run[..|run| - 1], run[|run| - 1];
      assert run == r + [last];
      forall i | 0 <= i < |r| ensures r[i].id != last.id {
        assert r[i] == run[i];
      }
      DistinctIdsCount(r);
      IdsAppend(r, last);
    }
  }


  /** A `Sync` push runs its callback before `push` returns. */
  method SyncRunsAtOnce(callback: Callback) returns (ran: seq<Task>)
    ensures |ran| > 0 && forall t | t in ran :: t.callback == callback && t.priority == Sync
  {
    var s := new Scheduler(0);
    s.Push("a", Some(Sync), None, callback);
    ran := s.executed;
    assert ran[0..] == ran;
  }
}

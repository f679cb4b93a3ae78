/**
 * The all-or-nothing task list of lib/scheduler/transaction.ts.
 *
 * A callback is modelled as data: which calls it makes on the same transaction while
 * it is suspended at its `await` (the only way outside code can observe the running
 * transaction), and how it settles. The shared context object is not modelled.
 * Side effects are recorded in the trace `log`: the start of every step, the result of
 * every call made into the transaction while it runs, and every undo invoked.
 */
module Transactions {
  import opened Wrappers
  import Strings
  import Seqs

  /** An undo function: its `name` property ("" when anonymous) and whether it throws. */
  datatype Undo = Undo(name: string, fails: bool)

  /** How a step settles: with an optional (truthy) undo, or by throwing. */
  datatype Settles = Completes(undo: Option<Undo>) | Throws

  /** A call made into the same transaction by outside code while a step is suspended. */
  datatype Call = AddCall(taskName: string) | ApplyCall

  datatype Callback = Callback(interleaved: seq<Call>, settles: Settles)

  datatype QueuedTask = QueuedTask(taskName: string, callback: Callback)

  datatype Phase = ApplyPhase | RollbackPhase

  datatype Failure = Failure(phase: Phase, taskName: string)

  /** The errors `add` and `apply` throw; `ApplyFailed` is `TransactionApplyError`. */
  datatype TxError =
    | Flushing
    | NameRequired
    | Running
    | ApplyFailed(failures: seq<Failure>, rolledBack: bool)

  datatype Event = Ran(taskName: string) | Rejected(error: TxError) | Undid(undoName: string)

  function UndoName(u: Undo): (r: string)
    ensures r != []
    ensures u.name != [] ==> r == u.name
  {
    if u.name == "" then "anonymous-undo" else u.name
  }

  /** What a call made while the transaction runs is told. */
  function Rejection(c: Call): TxError {
    match c
    case AddCall(_) => Flushing
    case ApplyCall => Running
  }

  function Rejections(calls: seq<Call>): (r: seq<Event>)
    ensures |r| == |calls|
    ensures forall i | 0 <= i < |calls| :: r[i] == Rejected(Rejection(calls[i]))
  {
    if calls == [] then [] else [Rejected(Rejection(calls[0]))] + Rejections(calls[1..])
  }

  function StepEvents(t: QueuedTask): seq<Event> {
    [Ran(t.taskName)] + Rejections(t.callback.interleaved)
  }

  function UndoList(s: Settles): seq<Undo> {
    if s.Completes? && s.undo.Some? then [s.undo.value] else []
  }

  // ---------------------------------------------------------------------------
  // Specification of the forward pass (over a prefix of the queue) and of rollback

  /** The undo stack, the trace and the failing step after running `q` in order. */
  datatype Progress = Progress(undos: seq<Undo>, events: seq<Event>, failed: Option<string>)

  function Forward(q: seq<QueuedTask>): Progress
    decreases |q|
  {
    if q == [] then Progress([], [], None)
    else
      var p := Forward(q[..|q| - 1]);
      var t := q[|q| - 1];
      if p.failed.Some? then p
      else
        var events := p.events + StepEvents(t);
        if t.callback.settles.Throws? then Progress(p.undos, events, Some(t.taskName))
        else Progress(p.undos + UndoList(t.callback.settles), events, None)
  }

  datatype Unwound = Unwound(events: seq<Event>, failures: seq<Failure>)

  /** Popping and invoking every undo of `stack`, top first. */
  function Rollback(stack: seq<Undo>): Unwound
    decreases |stack|
  {
    if stack == [] then Unwound([], [])
    else
      var u := stack[|stack| - 1];
      var rest := Rollback(stack[..|stack| - 1]);
      Unwound([Undid(UndoName(u))] + rest.events,
              (if u.fails then [Failure(RollbackPhase, UndoName(u))] else []) + rest.failures)
  }

  /** What `apply` settles with for queue `q`. */
  function ApplyOutcome(q: seq<QueuedTask>): Result<(), TxError> {
    var p := Forward(q);
    if p.failed.None? then Ok(())
    else
      var failures := Rollback(p.undos).failures;
      Err(ApplyFailed([Failure(ApplyPhase, p.failed.value)] + failures, failures == []))
  }

  /** The trace `apply` leaves for queue `q`. */
  function ApplyTrace(q: seq<QueuedTask>): seq<Event> {
    var p := Forward(q);
    if p.failed.None? then p.events else p.events + Rollback(p.undos).events
  }

  // ---------------------------------------------------------------------------
  // Independent descriptions the specification is checked against

  predicate Throwing(t: QueuedTask) {
    t.callback.settles.Throws?
  }

  /** The undos of the steps of `q`, in the order they are pushed. */
  function PushedUndos(q: seq<QueuedTask>): seq<Undo> {
    if q == [] then [] else UndoList(q[0].callback.settles) + PushedUndos(q[1..])
  }

  /** The trace of running every step of `q`. */
  function AllStepEvents(q: seq<QueuedTask>): seq<Event> {
    if q == [] then [] else StepEvents(q[0]) + AllStepEvents(q[1..])
  }

  function Reverse<T>(s: seq<T>): (r: seq<T>)
    ensures |r| == |s|
  {
    if s == [] then [] else Reverse(s[1..]) + [s[0]]
  }

  function UndidEvents(stack: seq<Undo>): seq<Event> {
    if stack == [] then [] else [Undid(UndoName(stack[0]))] + UndidEvents(stack[1..])
  }

  function CountFailing(stack: seq<Undo>): nat {
    if stack == [] then 0 else (if stack[0].fails then 1 else 0) + CountFailing(stack[1..])
  }

  lemma PushedUndosAppend(q: seq<QueuedTask>, t: QueuedTask)
    ensures PushedUndos(q + [t]) == PushedUndos(q) + UndoList(t.callback.settles)
  {
    if q != [] {
      assert (q + [t])[1..] == q[1..] + [t];
    }
  }

  lemma AllStepEventsAppend(q: seq<QueuedTask>, t: QueuedTask)
    ensures AllStepEvents(q + [t]) == AllStepEvents(q) + StepEvents(t)
  {
    if q != [] {
      assert (q + [t])[1..] == q[1..] + [t];
    }
  }

  /**
   * Without a throwing step every step runs, in queue order, and every truthy undo is
   * stacked in push order.
   */
  lemma {:induction false} ForwardWithoutThrow(q: seq<QueuedTask>)
    requires forall i | 0 <= i < |q| :: !Throwing(q[i])
    ensures Forward(q) == Progress(PushedUndos(q), AllStepEvents(q), None)
    decreases |q|
  {
    if q != [] {
      var init := q[..|q| - 1];
      ForwardWithoutThrow(init);
      assert q == init + [q[|q| - 1]];
      PushedUndosAppend(init, q[|q| - 1]);
      AllStepEventsAppend(init, q[|q| - 1]);
    }
  }

  /** Once a prefix has failed, the later steps change nothing: they never run. */
  lemma {:induction false} ForwardStops(q: seq<QueuedTask>, k: nat)
    requires k <= |q| && Forward(q[..k]).failed.Some?
    ensures Forward(q) == Forward(q[..k])
    decreases |q| - k
  {
    if k < |q| {
      assert q[..k + 1][..k] == q[..k];
      ForwardStops(q, k + 1);
    } else {
      assert q[..k] == q;
    }
  }

  /**
   * The first throwing step stops the pass: the failure names it, the trace covers the
   * steps up to and including it, and only the undos of the steps before it are stacked.
   */
  lemma FirstThrowStops(q: seq<QueuedTask>, k: nat)
    requires k < |q| && Throwing(q[k])
    requires forall i | 0 <= i < k :: !Throwing(q[i])
    ensures Forward(q).failed == Some(q[k].taskName)
    ensures Forward(q).undos == PushedUndos(q[..k])
    ensures Forward(q).events == AllStepEvents(q[..k]) + StepEvents(q[k])
  {
    var pre := q[..k];
    var upto := q[..k + 1];
    assert upto[..k] == pre && upto[k] == q[k];
    ForwardWithoutThrow(pre);
    assert Forward(upto) == Progress(PushedUndos(pre), AllStepEvents(pre) + StepEvents(q[k]), Some(q[k].taskName));
    ForwardStops(q, k + 1);
  }

  /** The forward pass fails exactly when some step throws. */
  lemma ForwardFailsIffThrow(q: seq<QueuedTask>)
    ensures Forward(q).failed.Some? <==> exists i | 0 <= i < |q| :: Throwing(q[i])
  {
    if exists i | 0 <= i < |q| :: Throwing(q[i]) {
      var k := FirstThrowing(q);
      FirstThrowStops(q, k);
    } else {
      ForwardWithoutThrow(q);
    }
  }

  /** The index of the first throwing step. */
  lemma FirstThrowing(q: seq<QueuedTask>) returns (k: nat)
    requires exists i | 0 <= i < |q| :: Throwing(q[i])
    ensures k < |q| && Throwing(q[k])
    ensures forall i | 0 <= i < k :: !Throwing(q[i])
  {
    k := 0;
    while !Throwing(q[k])
      invariant k < |q|
      invariant forall i | 0 <= i < k :: !Throwing(q[i])
      decreases |q| - k
    {
      k := k + 1;
    }
  }

  lemma ReverseAppend<T>(s: seq<T>, x: T)
    ensures Reverse(s + [x]) == [x] + Reverse(s)
  {
    if s != [] {
      assert (s + [x])[1..] == s[1..] + [x];
    }
  }

  lemma UndidEventsAppend(s: seq<Undo>, u: Undo)
    ensures UndidEvents(s + [u]) == UndidEvents(s) + [Undid(UndoName(u))]
  {
    if s != [] {
      assert (s + [u])[1..] == s[1..] + [u];
    }
  }

  lemma CountFailingAppend(s: seq<Undo>, u: Undo)
    ensures CountFailing(s + [u]) == CountFailing(s) + (if u.fails then 1 else 0)
  {
    if s != [] {
      assert (s + [u])[1..] == s[1..] + [u];
    }
  }

  /**
   * Rollback invokes every undo exactly once, in reverse push order, even after one of
   * them throws; it records one failure per throwing undo.
   */
  lemma {:induction false} RollbackIsReversed(stack: seq<Undo>)
    ensures Rollback(stack).events == Reverse(UndidEvents(stack))
    ensures |Rollback(stack).failures| == CountFailing(stack)
    ensures forall f | f in Rollback(stack).failures :: f.phase == RollbackPhase
    decreases |stack|
  {
    if stack != [] {
      var init := stack[..|stack| - 1];
      var u := stack[|stack| - 1];
      RollbackIsReversed(init);
      assert stack == init + [u];
      UndidEventsAppend(init, u);
      ReverseAppend(UndidEvents(init), Undid(UndoName(u)));
      CountFailingAppend(init, u);
    }
  }

  lemma {:induction false} CountFailingZero(stack: seq<Undo>)
    ensures CountFailing(stack) == 0 <==> forall i | 0 <= i < |stack| :: !stack[i].fails
    decreases |stack|
  {
    if stack != [] {
      CountFailingZero(stack[1..]);
      assert forall i | 1 <= i < |stack| :: stack[i] == stack[1..][i - 1];
    }
  }

  /** `apply` succeeds exactly when no step throws, and then the trace is every step in order. */
  lemma ApplySucceedsIffNoThrow(q: seq<QueuedTask>)
    ensures ApplyOutcome(q).Ok? <==> forall i | 0 <= i < |q| :: !Throwing(q[i])
    ensures ApplyOutcome(q).Ok? ==> ApplyTrace(q) == AllStepEvents(q)
  {
    ForwardFailsIffThrow(q);
    if forall i | 0 <= i < |q| :: !Throwing(q[i]) {
      ForwardWithoutThrow(q);
    }
  }

  /**
   * When step `k` is the first to throw: the first failure is an apply failure naming it,
   * the rest are rollback failures, one per throwing undo among those stacked before it,
   * `rolledBack` holds exactly when none of those undos throws, and the trace is the
   * steps up to `k` followed by those undos in reverse push order.
   */
  lemma ApplyFailsAtFirstThrow(q: seq<QueuedTask>, k: nat)
    requires k < |q| && Throwing(q[k])
    requires forall i | 0 <= i < k :: !Throwing(q[i])
    ensures var stacked := PushedUndos(q[..k]);
      && ApplyOutcome(q).Err?
      && ApplyOutcome(q).error.ApplyFailed?
      && |ApplyOutcome(q).error.failures| == 1 + CountFailing(stacked)
      && ApplyOutcome(q).error.failures[0] == Failure(ApplyPhase, q[k].taskName)
      && (forall i | 1 <= i < |ApplyOutcome(q).error.failures| ::
            ApplyOutcome(q).error.failures[i].phase == RollbackPhase)
      && (ApplyOutcome(q).error.rolledBack <==> forall i | 0 <= i < |stacked| :: !stacked[i].fails)
      && ApplyTrace(q) == AllStepEvents(q[..k]) + StepEvents(q[k]) + Reverse(UndidEvents(stacked))
  {
    var stacked := PushedUndos(q[..k]);
    FirstThrowStops(q, k);
    RollbackIsReversed(stacked);
    CountFailingZero(stacked);
    var fs := ApplyOutcome(q).error.failures;
    assert forall i | 1 <= i < |fs| :: fs[i] in Rollback(stacked).failures by {
      forall i | 1 <= i < |fs| ensures fs[i] in Rollback(stacked).failures {
        assert fs[i] == Rollback(stacked).failures[i - 1];
      }
    }
  }

  // ---------------------------------------------------------------------------
  // The transaction object

  class Transaction {
    var queue: seq<QueuedTask>
    var undoStack: seq<Undo>
    var isRunning: bool
    /** Every side effect observed so far (not part of the source's object). */
    var log: seq<Event>

    /** Outside `apply` the undo stack is empty: `apply` always ends by clearing it. */
    ghost predicate Valid()
      reads this
    {
      !isRunning ==> undoStack == []
    }

    constructor()
      ensures Valid() && queue == [] && undoStack == [] && !isRunning && log == []
    {
      queue := [];
      undoStack := [];
      isRunning := false;
      log := [];
    }

    /** `add`: rejected while running or for a blank name; otherwise queues the trimmed name. */
    method Add(taskName: string, callback: Callback) returns (r: Result<(), TxError>)
      requires Valid()
      modifies this
      ensures Valid()
      ensures undoStack == old(undoStack) && isRunning == old(isRunning) && log == old(log)
      ensures old(isRunning) ==> r == Err(Flushing) && queue == old(queue)
      ensures !old(isRunning) && Strings.Trim(taskName) == [] ==> r == Err(NameRequired) && queue == old(queue)
      ensures !old(isRunning) && Strings.Trim(taskName) != [] ==>
        r == Ok(()) && queue == old(queue) + [QueuedTask(Strings.Trim(taskName), callback)]
    {
      if isRunning {
        return Err(Flushing);
      }
      var normalized := Strings.Trim(taskName);
      if normalized == [] {
        return Err(NameRequired);
      }
      queue := queue + [QueuedTask(normalized, callback)];
      r := Ok(());
    }

    /**
     * `apply`: rejected without any change while already running; otherwise runs the
     * queue as `ApplyOutcome` and `ApplyTrace` say and always ends cleared and idle.
     */
    method Apply() returns (r: Result<(), TxError>)
      requires Valid()
      modifies this
      decreases if isRunning then 0 else 1, 3
      ensures Valid()
      ensures old(isRunning) ==>
        && r == Err(Running) && isRunning
        && queue == old(queue) && undoStack == old(undoStack) && log == old(log)
      ensures !old(isRunning) ==>
        && r == ApplyOutcome(old(queue)) && log == old(log) + ApplyTrace(old(queue))
        && queue == [] && undoStack == [] && !isRunning
    {
      if isRunning {
        return Err(Running);
      }
      ghost var q0, log0 := queue, log;
      isRunning := true;
      var failed, events := RunTasks();
      ghost var p := Forward(q0);
      if failed.Some? {
        var rollbackFailures := RollBack();
        r := Err(ApplyFailed([Failure(ApplyPhase, failed.value)] + rollbackFailures, rollbackFailures == []));
      } else {
        r := Ok(());
      }
      Clear();
      isRunning := false;
    }

    /** The loop of `apply` that runs the queued steps until one throws. */
    method RunTasks() returns (failed: Option<string>, ghost events: seq<Event>)
      requires isRunning && undoStack == []
      modifies this
      decreases 1, 2
      ensures isRunning && queue == old(queue)
      ensures log == old(log) + events
      ensures Forward(queue) == Progress(undoStack, events, failed)
    {
      ghost var q0, log0 := queue, log;
      events := [];
      var i := 0;
      failed := None;
      while i < |queue|
        invariant 0 <= i <= |queue| && queue == q0 && isRunning
        invariant log == log0 + events
        invariant Forward(q0[..i]) == Progress(undoStack, events, None)
      {
        var task := queue[i];
        ghost var undos, before := undoStack, events;
        RunStep(task);
        ForwardStep(q0, i, undos, before);
        Seqs.AppendAssoc(log0, before, StepEvents(task));
        events := events + StepEvents(task);
        if task.callback.settles.Throws? {
          failed := Some(task.taskName);
          return;
        }
        i := i + 1;
      }
      assert q0[..i] == q0;
    }

    /** One step: invoke the callback, serve the calls made while it waits, stack its undo. */
    method RunStep(task: QueuedTask)
      requires isRunning
      modifies this
      decreases 1, 1
      ensures isRunning && queue == old(queue)
      ensures log == old(log) + StepEvents(task)
      ensures undoStack == old(undoStack) + UndoList(task.callback.settles)
    {
      log := log + [Ran(task.taskName)];
      var rejections := Interleave(task.callback.interleaved);
      if task.callback.settles.Completes? && task.callback.settles.undo.Some? {
        undoStack := undoStack + [task.callback.settles.undo.value];
      }
    }

    static lemma ForwardStep(q: seq<QueuedTask>, i: nat, undos: seq<Undo>, events: seq<Event>)
      requires i < |q| && Forward(q[..i]) == Progress(undos, events, None)
      ensures Throwing(q[i]) ==>
        Forward(q[..i + 1]).failed.Some? && Forward(q) == Progress(undos, events + StepEvents(q[i]), Some(q[i].taskName))
      ensures !Throwing(q[i]) ==>
        Forward(q[..i + 1]) == Progress(undos + UndoList(q[i].callback.settles), events + StepEvents(q[i]), None)
    {
      assert q[..i + 1][..i] == q[..i];
      if Throwing(q[i]) {
        ForwardStops(q, i + 1);
      }
    }

    /** The calls outside code makes while a step is suspended, in order. */
    method Interleave(calls: seq<Call>) returns (ghost rejections: seq<Event>)
      requires isRunning
      modifies this
      decreases 1, 0
      ensures isRunning && queue == old(queue) && undoStack == old(undoStack)
      ensures rejections == Rejections(calls) && log == old(log) + rejections
    {
      rejections := [];
      var j := 0;
      while j < |calls|
        invariant 0 <= j <= |calls| && isRunning
        invariant queue == old(queue) && undoStack == old(undoStack)
        invariant rejections == Rejections(calls)[..j] && log == old(log) + rejections
      {
        var r: Result<(), TxError>;
        match calls[j] {
          case AddCall(name) =>
            r := Add(name, Callback([], Completes(None)));
          case ApplyCall =>
            r := Apply();
        }
        Seqs.PrefixSnoc(Rejections(calls), j);
        Seqs.AppendAssoc(old(log), rejections, [Rejected(r.error)]);
        log := log + [Rejected(r.error)];
        rejections := rejections + [Rejected(r.error)];
        j := j + 1;
      }
    }

    /** `_rollback`: pops and invokes every undo, collecting the failures. */
    method RollBack() returns (failures: seq<Failure>)
      modifies this
      ensures undoStack == [] && queue == old(queue) && isRunning == old(isRunning)
      ensures log == old(log) + Rollback(old(undoStack)).events
      ensures failures == Rollback(old(undoStack)).failures
    {
      ghost var s0, log0 := undoStack, log;
      ghost var events: seq<Event> := [];
      failures := [];
      while undoStack != []
        invariant queue == old(queue) && isRunning == old(isRunning)
        invariant log == log0 + events
        invariant Rollback(s0) == Unwound(events + Rollback(undoStack).events, failures + Rollback(undoStack).failures)
        decreases |undoStack|
      {
        var undo := undoStack[|undoStack| - 1];
        RollbackPop(undoStack, events, failures);
        Seqs.AppendAssoc(log0, events, [Undid(UndoName(undo))]);
        undoStack := undoStack[..|undoStack| - 1];
        var undoName := UndoName(undo);
        log := log + [Undid(undoName)];
        events := events + [Undid(undoName)];
        if undo.fails {
          failures := failures + [Failure(RollbackPhase, undoName)];
        }
      }
    }

    /** Popping the top undo moves its event and failure from the rest of the unwinding to what is done. */
    static lemma RollbackPop(stack: seq<Undo>, events: seq<Event>, failures: seq<Failure>)
      requires stack != []
      ensures var u, rest := stack[|stack| - 1], stack[..|stack| - 1];
        && events + Rollback(stack).events == (events + [Undid(UndoName(u))]) + Rollback(rest).events
        && failures + Rollback(stack).failures
           == (failures + if u.fails then [Failure(RollbackPhase, UndoName(u))] else []) + Rollback(rest).failures
    {
      var u, rest := stack[|stack| - 1], stack[..|stack| - 1];
      Seqs.AppendAssoc(events, [Undid(UndoName(u))], Rollback(rest).events);
      Seqs.AppendAssoc(failures, if u.fails then [Failure(RollbackPhase, UndoName(u))] else [], Rollback(rest).failures);
    }

    /** `clear`: empties the queue and the undo stack. */
    method Clear()
      modifies this
      ensures queue == [] && undoStack == [] && isRunning == old(isRunning) && log == old(log)
    {
      queue := [];
      undoStack := [];
    }
  }

  // ---------------------------------------------------------------------------
  // The scenarios of test/transaction.ts

  /** A name `add` stores unchanged. */
  predicate Trimmed(name: string) {
    name != [] && !Strings.IsWhitespace(name[0]) && !Strings.IsWhitespace(name[|name| - 1])
  }

  /** Two steps added in order run in that order and `apply` settles normally. */
  method StepsRunInAddOrder(firstName: string, secondName: string) returns (r: Result<(), TxError>, trace: seq<Event>)
    requires Trimmed(firstName) && Trimmed(secondName)
    ensures r == Ok(()) && trace == [Ran(firstName), Ran(secondName)]
  {
    var first := QueuedTask(firstName, Callback([], Completes(None)));
    var second := QueuedTask(secondName, Callback([], Completes(None)));
    var tx := new Transaction();
    Strings.NoWhitespaceEnds(firstName);
    Strings.NoWhitespaceEnds(secondName);
    var added := tx.Add(firstName, first.callback);
    added := tx.Add(secondName, second.callback);
    assert tx.queue == [first, second];
    ForwardWithoutThrow([first, second]);
    assert [first, second][1..] == [second];
    assert AllStepEvents([second]) == [Ran(secondName)];
    assert AllStepEvents([first, second]) == [Ran(firstName), Ran(secondName)];
    r := tx.Apply();
    trace := tx.log;
  }

  /**
   * A failing second step: its start is traced, the first step's anonymous undo runs,
   * and the single failure names the failing step with `rolledBack` set.
   */
  method FailureRollsBack(mainName: string, failingName: string) returns (r: Result<(), TxError>, trace: seq<Event>)
    requires Trimmed(mainName) && Trimmed(failingName)
    ensures r == Err(ApplyFailed([Failure(ApplyPhase, failingName)], true))
    ensures trace == [Ran(mainName), Ran(failingName), Undid("anonymous-undo")]
  {
    var undo := Undo("", false);
    var main := QueuedTask(mainName, Callback([], Completes(Some(undo))));
    var failing := QueuedTask(failingName, Callback([], Throws));
    var tx := new Transaction();
    Strings.NoWhitespaceEnds(mainName);
    Strings.NoWhitespaceEnds(failingName);
    var added := tx.Add(mainName, main.callback);
    added := tx.Add(failingName, failing.callback);
    assert tx.queue == [main, failing];
    var q := [main, failing];
    FirstThrowStops(q, 1);
    assert q[..1] == [main];
    assert PushedUndos([main]) == [undo];
    assert AllStepEvents([main]) == [Ran(mainName)];
    assert Rollback([undo]) == Unwound([Undid(UndoName(undo))], []);
    assert Forward(q).undos == [undo] && Forward(q).failed == Some(failingName);
    assert [Failure(ApplyPhase, failingName)] + [] == [Failure(ApplyPhase, failingName)];
    assert ApplyOutcome(q) == Err(ApplyFailed([Failure(ApplyPhase, failingName)], true));
    assert ApplyTrace(q) == [Ran(mainName), Ran(failingName), Undid(UndoName(undo))];
    r := tx.Apply();
    trace := tx.log;
  }

  /** An `add` made while a step is suspended is rejected and the step still completes. */
  method AddDuringApplyRejected(slowName: string, lateName: string) returns (r: Result<(), TxError>, trace: seq<Event>)
    requires Trimmed(slowName)
    ensures r == Ok(()) && trace == [Ran(slowName), Rejected(Flushing)]
  {
    var slow := QueuedTask(slowName, Callback([AddCall(lateName)], Completes(None)));
    var tx := new Transaction();
    Strings.NoWhitespaceEnds(slowName);
    var added := tx.Add(slowName, slow.callback);
    assert tx.queue == [slow];
    ForwardWithoutThrow([slow]);
    assert Rejections([AddCall(lateName)]) == [Rejected(Flushing)];
    r := tx.Apply();
    trace := tx.log;
  }

  /** A whitespace-only name is rejected. */
  method BlankNameRejected() returns (r: Result<(), TxError>)
    ensures r == Err(NameRequired)
  {
    var tx := new Transaction();
    Strings.TrimEmptyIffBlank("  ");
    r := tx.Add("  ", Callback([], Completes(None)));
  }
}

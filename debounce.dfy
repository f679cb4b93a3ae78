/**
 * `debounce` of lib/algorithms/debounce.ts: a one-slot pending-call state machine.
 *
 * The captured `timer` variable becomes the field `pending`, which holds the arguments
 * the armed timer will pass to `fn` and the time it is due. Timer expiry is the explicit
 * `Fire` event; the invocations of `fn` are recorded in `invoked`.
 */
module Debounce {
  import opened Wrappers

  datatype Armed<A> = Armed(args: A, dueAt: int)

  /** What happens to a debounced function, in order. */
  datatype Event<A> = Call(args: A) | Flush(args: A) | Cancel | Fire

  /**
   * The arguments of the invocation pending after `h`: those of the latest call, unless
   * a flush, a cancel or a timer expiry came after it.
   */
  function PendingArgs<A>(h: seq<Event<A>>): Option<A> {
    if h == [] then None
    else match h[|h| - 1]
      case Call(args) => Some(args)
      case _ => None
  }

  /** The invocations of `fn` that history `h` produces, in order. */
  function Invocations<A>(h: seq<Event<A>>): seq<A>
    decreases |h|
  {
    if h == [] then []
    else
      var init := Invocations(h[..|h| - 1]);
      match h[|h| - 1]
      case Call(_) => init
      case Cancel => init
      case Flush(args) => init + [args]
      case Fire => init + (match PendingArgs(h[..|h| - 1]) case Some(args) => [args] case None => [])
  }

  /** A burst of calls. */
  function Calls<A>(args: seq<A>): (r: seq<Event<A>>)
    ensures |r| == |args|
    ensures forall i | 0 <= i < |args| :: r[i] == Call(args[i])
  {
    if args == [] then [] else [Call(args[0])] + Calls(args[1..])
  }

  /** Calling the debounced function never invokes `fn` at once. */
  lemma CallInvokesNothing<A>(h: seq<Event<A>>, args: A)
    ensures Invocations(h + [Call(args)]) == Invocations(h)
    ensures PendingArgs(h + [Call(args)]) == Some(args)
  {
    assert (h + [Call(args)])[..|h|] == h;
  }

  /** A burst of calls invokes nothing, and only its last call stays pending. */
  lemma {:induction false} BurstKeepsLatest<A>(h: seq<Event<A>>, args: seq<A>)
    requires args != []
    ensures Invocations(h + Calls(args)) == Invocations(h)
    ensures PendingArgs(h + Calls(args)) == Some(args[|args| - 1])
    decreases |args|
  {
    var init := args[..|args| - 1];
    var last := args[|args| - 1];
    assert Calls(args) == Calls(init) + [Call(last)] by {
      assert args == init + [last];
      CallsAppend(init, last);
    }
    assert h + Calls(args) == (h + Calls(init)) + [Call(last)];
    CallInvokesNothing(h + Calls(init), last);
    if init != [] {
      BurstKeepsLatest(h, init);
    } else {
      assert h + Calls(init) == h;
    }
  }

  lemma {:induction false} CallsAppend<A>(args: seq<A>, x: A)
    ensures Calls(args + [x]) == Calls(args) + [Call(x)]
    decreases |args|
  {
    if args != [] {
      assert (args + [x])[1..] == args[1..] + [x];
      CallsAppend(args[1..], x);
    }
  }

  /**
   * Debouncing: a burst of calls followed by the timer's expiry invokes `fn` exactly once,
   * with the arguments of the last call, and leaves nothing pending.
   */
  lemma BurstThenFireInvokesOnce<A>(h: seq<Event<A>>, args: seq<A>)
    requires args != []
    ensures Invocations(h + Calls(args) + [Fire]) == Invocations(h) + [args[|args| - 1]]
    ensures PendingArgs(h + Calls(args) + [Fire]) == None
  {
    BurstKeepsLatest(h, args);
    assert (h + Calls(args) + [Fire])[..|h + Calls(args)|] == h + Calls(args);
  }

  /** `cancel` drops the pending invocation: a later expiry invokes nothing. */
  lemma CancelThenFireInvokesNothing<A>(h: seq<Event<A>>)
    ensures Invocations(h + [Cancel, Fire]) == Invocations(h)
    ensures PendingArgs(h + [Cancel]) == None
  {
    assert (h + [Cancel, Fire])[..|h| + 1] == h + [Cancel];
    assert (h + [Cancel])[..|h|] == h;
  }

  /** `flush` invokes `fn` once with its own arguments, whatever was pending. */
  lemma FlushInvokesWithOwnArgs<A>(h: seq<Event<A>>, args: A)
    ensures Invocations(h + [Flush(args)]) == Invocations(h) + [args]
    ensures PendingArgs(h + [Flush(args)]) == None
  {
    assert (h + [Flush(args)])[..|h|] == h;
  }

  class Debounced<A> {
    const waitMs: int
    /** The armed timer; `None` is `timer === null`. */
    var pending: Option<Armed<A>>
    /** Arguments of every invocation of `fn`, in order. */
    var invoked: seq<A>
    ghost var history: seq<Event<A>>

    /** The state is what the history of events says it is. */
    ghost predicate Valid()
      reads this
    {
      && (match pending case Some(armed) => PendingArgs(history) == Some(armed.args) case None => PendingArgs(history).None?)
      && invoked == Invocations(history)
    }

    constructor(waitMs: int)
      ensures Valid() && this.waitMs == waitMs && pending == None && invoked == [] && history == []
    {
      this.waitMs := waitMs;
      pending := None;
      invoked := [];
      history := [];
    }

    /** The debounced function: re-arms the timer with the new arguments, `waitMs` from `now`. */
    method Call(args: A, now: int)
      requires Valid()
      modifies this
      ensures Valid() && history == old(history) + [Event.Call(args)]
      ensures pending == Some(Armed(args, now + waitMs)) && invoked == old(invoked)
    {
      history := history + [Event.Call(args)];
      CallInvokesNothing(old(history), args);
      pending := Some(Armed(args, now + waitMs));
    }

    /** The timer expires: it is cleared and `fn` runs with the armed arguments. */
    method Fire(now: int)
      requires Valid() && pending.Some? && now >= pending.value.dueAt
      modifies this
      ensures Valid() && history == old(history) + [Event.Fire]
      ensures pending == None && invoked == old(invoked) + [old(pending).value.args]
    {
      var args := pending.value.args;
      assert (history + [Event.Fire])[..|history|] == history;
      history := history + [Event.Fire];
      pending := None;
      invoked := invoked + [args];
    }

    /** `flush(args)`: clears any armed timer and runs `fn` with flush's own arguments. */
    method Flush(args: A)
      requires Valid()
      modifies this
      ensures Valid() && history == old(history) + [Event.Flush(args)]
      ensures pending == None && invoked == old(invoked) + [args]
    {
      FlushInvokesWithOwnArgs(history, args);
      history := history + [Event.Flush(args)];
      pending := None;
      invoked := invoked + [args];
    }

    /** `cancel`: clears any armed timer without running `fn`. */
    method Cancel()
      requires Valid()
      modifies this
      ensures Valid() && history == old(history) + [Event.Cancel]
      ensures pending == None && invoked == old(invoked)
    {
      assert (history + [Event.Cancel])[..|history|] == history;
      history := history + [Event.Cancel];
      pending := None;
    }
  }
}

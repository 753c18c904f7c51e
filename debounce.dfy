/**
 * The debounce scheduler of `useDebounce(fn, {type, delay})`
 * (`src/hooks/use-debounce`) on a virtual clock. One instance holds at most one
 * pending call; the target runs once the pending call's due time is reached.
 * `type: 'raf'` (the default) waits one animation frame, whose length is a
 * parameter; `type: 'timeout'` waits `delay`. The target's invocations are
 * observed as the list of argument lists it received.
 */
module Debounce {
  import opened Outcomes

  /** The scheduling strategy chosen by the options. */
  datatype Strategy = AnimationFrame | Timeout(delay: nat)

  /** The options default to the animation-frame strategy. */
  function StrategyOf(options: Option<Strategy>): Strategy
  {
    match options
    case None => AnimationFrame
    case Some(s) => s
  }

  /** A scheduled call: when it is due, and the arguments it will pass. */
  datatype Pending<A> = Pending(due: int, args: A)

  /** The observable state of one scheduler on the virtual clock. */
  datatype Sched<A> = Sched(strategy: Strategy, frame: nat, now: int, pending: Option<Pending<A>>, calls: seq<A>)
  {
    /** A pending call is never overdue. */
    predicate Valid()
    {
      pending.Some? ==> pending.value.due >= now
    }

    /** How long a call waits before it fires. */
    function Wait(): nat
    {
      match strategy
      case AnimationFrame => frame
      case Timeout(d) => d
    }

    /** Calling the debounced function schedules the target, replacing any pending call. */
    function Call(args: A): (s: Sched<A>)
      ensures s.calls == calls && s.now == now && s.Valid()
      ensures s.pending == Some(Pending(now + Wait(), args))
    {
      this.(pending := Some(Pending(now + Wait(), args)))
    }

    /** Moving the clock forward by `dt` fires the pending call if it falls due. */
    function Advance(dt: nat): (s: Sched<A>)
      ensures s.now == now + dt
      ensures Valid() ==> s.Valid()
      ensures s.calls == calls || (pending.Some? && s.calls == calls + [pending.value.args])
      ensures |s.calls| == |calls| + 1 <==> pending.Some? && pending.value.due <= now + dt
    {
      var t := now + dt;
      if pending.Some? && pending.value.due <= t then
        this.(now := t, pending := None, calls := calls + [pending.value.args])
      else
        this.(now := t)
    }

    /** Runs every pending timer, moving the clock to its due time. */
    function RunAllTimers(): (s: Sched<A>)
      ensures s.pending == None && (Valid() ==> s.Valid())
      ensures pending.Some? ==> s.calls == calls + [pending.value.args]
      ensures pending.None? ==> s == this
    {
      if pending.Some? then
        this.(now := if pending.value.due > now then pending.value.due else now,
              pending := None, calls := calls + [pending.value.args])
      else
        this
    }

    /** Unmounting the owner cancels the pending call. */
    function Unmount(): (s: Sched<A>)
      ensures s.pending == None && s.calls == calls && s.now == now && s.Valid()
    {
      this.(pending := None)
    }
  }

  function Initial<A>(options: Option<Strategy>, frame: nat): Sched<A>
  {
    Sched(StrategyOf(options), frame, 0, None, [])
  }

  /** One debounced function: `useDebounce(fn, options)` while it is mounted. */
  class Debouncer<A> {
    const strategy: Strategy
    const frame: nat
    var now: int
    var pending: Option<Pending<A>>
    var calls: seq<A>

    function State(): Sched<A>
      reads this
    {
      Sched(strategy, frame, now, pending, calls)
    }

    constructor (options: Option<Strategy>, frame: nat)
      ensures State() == Initial(options, frame) && State().Valid()
    {
      this.strategy := StrategyOf(options);
      this.frame := frame;
      now := 0;
      pending := None;
      calls := [];
    }

    method Call(args: A)
      requires State().Valid()
      modifies this
      ensures State() == old(State()).Call(args) && State().Valid()
      ensures calls == old(calls)
    {
      var wait := if strategy.AnimationFrame? then frame else strategy.delay;
      pending := Some(Pending(now + wait, args));
    }

    method Advance(dt: nat)
      requires State().Valid()
      modifies this
      ensures State() == old(State()).Advance(dt) && State().Valid()
    {
      now := now + dt;
      if pending.Some? && pending.value.due <= now {
        calls := calls + [pending.value.args];
        pending := None;
      }
    }

    method RunAllTimers()
      requires State().Valid()
      modifies this
      ensures State() == old(State()).RunAllTimers() && State().Valid()
      ensures pending == None
    {
      if pending.Some? {
        now := pending.value.due;
        calls := calls + [pending.value.args];
        pending := None;
      }
    }

    method Unmount()
      requires State().Valid()
      modifies this
      ensures State() == old(State()).Unmount() && State().Valid()
      ensures calls == old(calls) && pending == None
    {
      pending := None;
    }
  }

  /** A client of the class: the unmount test, seen only through the methods' contracts. */
  method UnmountAfterFireClient()
  {
    var d := new Debouncer<string>(Some(Timeout(100)), 16);
    d.Call("test");
    assert d.calls == [];
    d.RunAllTimers();
    d.Unmount();
    assert d.calls == ["test"];
  }

  /** A client of the class: two calls a full delay apart. */
  method SequentialCallsClient()
  {
    var d := new Debouncer<string>(Some(Timeout(50)), 16);
    d.Call("call1");
    d.Advance(50);
    d.Call("call2");
    d.Advance(50);
    assert d.calls == ["call1", "call2"];
  }

  // ---------------------------------------------------------------------
  // Properties

  /** Calling never runs the target synchronously, and schedules exactly one call, due after the wait. */
  lemma CallIsDeferred<A>(s: Sched<A>, args: A)
    ensures s.Call(args).calls == s.calls
    ensures s.Call(args).pending == Some(Pending(s.now + s.Wait(), args))
  {
  }

  /** After a call, the target does not run before the wait has elapsed, and runs once, with the call's arguments, when it has. */
  lemma FiresExactlyAtWait<A>(s: Sched<A>, args: A, dt: nat)
    ensures dt < s.Wait() ==> s.Call(args).Advance(dt).calls == s.calls
    ensures dt >= s.Wait() ==> s.Call(args).Advance(dt).calls == s.calls + [args]
  {
  }

  /** Timeout mode: nothing after `delay - 1`, the call after one more tick. */
  lemma TimeoutScenario<A>(delay: nat, frame: nat, args: A)
    requires delay >= 1
    ensures Initial<A>(Some(Timeout(delay)), frame).Call(args).Advance(delay - 1).calls == []
    ensures Initial<A>(Some(Timeout(delay)), frame).Call(args).Advance(delay - 1).Advance(1).calls == [args]
  {
  }

  /** Without options the animation-frame strategy is used: the call fires after one frame. */
  lemma DefaultScenario<A>(frame: nat, args: A)
    ensures Initial<A>(None, frame).strategy == AnimationFrame
    ensures Initial<A>(None, frame).Call(args).calls == []
    ensures Initial<A>(None, frame).Call(args).Advance(frame).calls == [args]
  {
  }

  /** Two calls separated by a full delay each fire once, in call order. */
  lemma SequentialCallsScenario<A>(delay: nat, frame: nat, first: A, second: A)
    ensures Initial<A>(Some(Timeout(delay)), frame).Call(first).Advance(delay).Call(second).Advance(delay).calls == [first, second]
  {
  }

  /** Unmounting after the pending call has fired adds no invocation. */
  lemma UnmountAfterFireScenario<A>(delay: nat, frame: nat, args: A)
    ensures Initial<A>(Some(Timeout(delay)), frame).Call(args).RunAllTimers().Unmount().calls == [args]
  {
  }

  /** Unmounting with a call still pending means it never fires. */
  lemma UnmountCancels<A>(s: Sched<A>, dt: nat)
    ensures s.Unmount().Advance(dt).calls == s.calls
  {
  }

  /** A new call supersedes the pending one: only the latest arguments are kept. */
  lemma CallSupersedes<A>(s: Sched<A>, first: A, second: A)
    ensures s.Call(first).Call(second) == s.Call(second)
  {
  }

  /** Advancing in two steps is advancing by the sum. */
  lemma AdvanceAdditive<A>(s: Sched<A>, dt1: nat, dt2: nat)
    requires s.Valid()
    ensures s.Advance(dt1).Advance(dt2) == s.Advance(dt1 + dt2)
  {
  }

  /** What the owner of a debounced function does with it. */
  datatype Op<A> = CallOp(args: A) | AdvanceOp(dt: nat) | RunAllOp | UnmountOp

  function Step<A>(s: Sched<A>, op: Op<A>): Sched<A>
  {
    match op
    case CallOp(args) => s.Call(args)
    case AdvanceOp(dt) => s.Advance(dt)
    case RunAllOp => s.RunAllTimers()
    case UnmountOp => s.Unmount()
  }

  function Run<A>(s: Sched<A>, ops: seq<Op<A>>): Sched<A>
    decreases |ops|
  {
    if ops == [] then s else Run(Step(s, ops[0]), ops[1..])
  }

  function CallCount<A>(ops: seq<Op<A>>): nat
  {
    if ops == [] then 0 else (if ops[0].CallOp? then 1 else 0) + CallCount(ops[1..])
  }

  function PendingCount<A>(s: Sched<A>): nat
  {
    if s.pending.Some? then 1 else 0
  }

  /** Every operation keeps the pending call from being overdue. */
  lemma {:induction false} RunValid<A>(s: Sched<A>, ops: seq<Op<A>>)
    requires s.Valid()
    ensures Run(s, ops).Valid()
    decreases |ops|
  {
    if ops != [] {
      RunValid(Step(s, ops[0]), ops[1..]);
    }
  }

  /** The target runs at most once per call of the debounced function. */
  lemma {:induction false} AtMostOneRunPerCall<A>(s: Sched<A>, ops: seq<Op<A>>)
    ensures |Run(s, ops).calls| + PendingCount(Run(s, ops)) <= |s.calls| + PendingCount(s) + CallCount(ops)
    decreases |ops|
  {
    if ops != [] {
      AtMostOneRunPerCall(Step(s, ops[0]), ops[1..]);
    }
  }

  /** The target only ever receives argument lists that some call passed, unchanged; earlier invocations are kept. */
  lemma {:induction false} RunsOnlyWithCallArguments<A>(s: Sched<A>, ops: seq<Op<A>>, x: A)
    requires x in Run(s, ops).calls
    ensures x in s.calls || (s.pending.Some? && s.pending.value.args == x)
         || exists k :: 0 <= k < |ops| && ops[k] == CallOp(x)
    decreases |ops|
  {
    if ops != [] {
      var t := Step(s, ops[0]);
      RunsOnlyWithCallArguments(t, ops[1..], x);
      if exists k :: 0 <= k < |ops[1..]| && ops[1..][k] == CallOp(x) {
        var k :| 0 <= k < |ops[1..]| && ops[1..][k] == CallOp(x);
        assert ops[k + 1] == CallOp(x);
      } else if t.pending.Some? && t.pending.value.args == x && ops[0].CallOp? {
        assert ops[0] == CallOp(x);
      }
    }
  }
}

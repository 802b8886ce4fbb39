/** `debounce(func, wait, immediate)`: a wrapper around `func` that holds at
    most one pending timer. Time is left out: a call of the wrapper and the
    expiry of its timer are discrete events, and `wait` only decides when the
    `Fire` event happens. */
module Debounce {
  import opened Options

  /** What can happen to a debounced wrapper: it is called with some
      arguments, or its pending timer expires. */
  datatype Event<A> = Call(args: A) | Fire

  /** The wrapper's `timeout` variable: no timer, or one timer whose `later`
      closure holds the arguments of the call that set it. */
  datatype Slot<A> = Idle | Pending(args: A)

  /** The new slot after an event, and the arguments `func` ran with, if it
      ran. */
  datatype Outcome<A> = Outcome(slot: Slot<A>, ran: Option<A>)

  /** One event. A call cancels any pending timer and starts a new one with
      its own arguments; with `immediate` set it also runs `func` at once
      when no timer was pending. An expiring timer clears the slot and, in
      trailing mode, runs `func` with the arguments it holds. With no timer
      pending there is nothing to expire. */
  function Step<A>(immediate: bool, slot: Slot<A>, e: Event<A>): Outcome<A>
  {
    match e
    case Call(args) =>
      var callNow := immediate && slot.Idle?;
      Outcome(Pending(args), if callNow then Some(args) else None)
    case Fire =>
      match slot
      case Idle => Outcome(Idle, None)
      case Pending(args) => Outcome(Idle, if immediate then None else Some(args))
  }

  /** The slot after a sequence of events. */
  function Final<A>(immediate: bool, slot: Slot<A>, events: seq<Event<A>>): Slot<A>
    decreases events
  {
    if events == [] then slot
    else Final(immediate, Step(immediate, slot, events[0]).slot, events[1..])
  }

  /** The arguments of every run of `func` during a sequence of events, in
      order. */
  function Runs<A>(immediate: bool, slot: Slot<A>, events: seq<Event<A>>): seq<A>
    decreases events
  {
    if events == [] then []
    else
      var o := Step(immediate, slot, events[0]);
      (if o.ran.Some? then [o.ran.value] else []) + Runs(immediate, o.slot, events[1..])
  }

  /** Running two sequences of events one after the other. */
  lemma {:induction false} RunsAppend<A>(immediate: bool, slot: Slot<A>, xs: seq<Event<A>>, ys: seq<Event<A>>)
    ensures Final(immediate, slot, xs + ys) == Final(immediate, Final(immediate, slot, xs), ys)
    ensures Runs(immediate, slot, xs + ys) ==
              Runs(immediate, slot, xs) + Runs(immediate, Final(immediate, slot, xs), ys)
    decreases xs
  {
    if xs == [] {
      assert xs + ys == ys;
    } else {
      var o := Step(immediate, slot, xs[0]);
      assert (xs + ys)[0] == xs[0];
      assert (xs + ys)[1..] == xs[1..] + ys;
      RunsAppend(immediate, o.slot, xs[1..], ys);
    }
  }

  /** A burst of calls with the given arguments and no expiry in between. */
  function Calls<A>(args: seq<A>): (events: seq<Event<A>>)
    ensures |events| == |args|
    ensures forall i :: 0 <= i < |args| ==> events[i] == Call(args[i])
  {
    if args == [] then [] else [Call(args[0])] + Calls(args[1..])
  }

  /** A burst leaves one timer pending, holding the arguments of its last
      call; `func` runs during the burst only in leading mode and only when
      no timer was pending before it, with the first call's arguments. */
  lemma {:induction false} BurstLeavesLastPending<A>(immediate: bool, slot: Slot<A>, args: seq<A>)
    requires args != []
    ensures Final(immediate, slot, Calls(args)) == Pending(args[|args| - 1])
    ensures Runs(immediate, slot, Calls(args)) == (if immediate && slot.Idle? then [args[0]] else [])
    decreases args
  {
    var evs := Calls(args);
    assert evs[0] == Call(args[0]);
    assert evs[1..] == Calls(args[1..]);
    if |args| > 1 {
      BurstLeavesLastPending(immediate, Pending(args[0]), args[1..]);
    }
  }

  /** Trailing mode: a burst followed by the quiet period runs `func` exactly
      once, with the arguments of the last call, and leaves no timer. */
  lemma TrailingBurstRunsOnceWithLast<A>(slot: Slot<A>, args: seq<A>)
    requires args != []
    ensures Runs(false, slot, Calls(args) + [Fire]) == [args[|args| - 1]]
    ensures Final(false, slot, Calls(args) + [Fire]) == Idle
  {
    RunsAppend(false, slot, Calls(args), [Fire]);
    BurstLeavesLastPending(false, slot, args);
  }

  /** Leading mode: a burst that starts with no timer pending runs `func`
      exactly once, at its first call and with that call's arguments; the
      expiry runs nothing and re-arms the wrapper. */
  lemma LeadingBurstRunsOnceWithFirst<A>(args: seq<A>)
    requires args != []
    ensures Runs(true, Idle, Calls(args) + [Fire]) == [args[0]]
    ensures Final(true, Idle, Calls(args) + [Fire]) == Idle
  {
    RunsAppend(true, Idle, Calls(args), [Fire]);
    BurstLeavesLastPending(true, Idle, args);
  }

  /** Leading mode: a burst that starts while a timer is still pending runs
      nothing at all. */
  lemma LeadingBurstWhilePendingRunsNothing<A>(pending: A, args: seq<A>)
    requires args != []
    ensures Runs(true, Pending(pending), Calls(args)) == []
  {
    BurstLeavesLastPending(true, Pending(pending), args);
  }

  function CountFires<A>(events: seq<Event<A>>): nat
  {
    if events == [] then 0 else (if events[0].Fire? then 1 else 0) + CountFires(events[1..])
  }

  function CountCalls<A>(events: seq<Event<A>>): nat
  {
    if events == [] then 0 else (if events[0].Call? then 1 else 0) + CountCalls(events[1..])
  }

  /** Trailing mode: `func` runs only when a timer expires, so never more
      often than timers expire. */
  lemma {:induction false} TrailingRunsOnlyOnExpiry<A>(slot: Slot<A>, events: seq<Event<A>>)
    ensures |Runs(false, slot, events)| <= CountFires(events)
    decreases events
  {
    if events != [] {
      TrailingRunsOnlyOnExpiry(Step(false, slot, events[0]).slot, events[1..]);
    }
  }

  /** Leading mode: `func` runs only on a call, so never more often than the
      wrapper is called. */
  lemma {:induction false} LeadingRunsOnlyOnCalls<A>(slot: Slot<A>, events: seq<Event<A>>)
    ensures |Runs(true, slot, events)| <= CountCalls(events)
    decreases events
  {
    if events != [] {
      LeadingRunsOnlyOnCalls(Step(true, slot, events[0]).slot, events[1..]);
    }
  }

  /** `func` only ever runs with arguments the wrapper was called with: those
      of a call among the events, or those held by the timer pending at the
      start. */
  lemma {:induction false} RunsUseCallArguments<A>(immediate: bool, slot: Slot<A>, events: seq<Event<A>>, a: A)
    requires a in Runs(immediate, slot, events)
    ensures Call(a) in events || slot == Pending(a)
    decreases events
  {
    var o := Step(immediate, slot, events[0]);
    var rest := Runs(immediate, o.slot, events[1..]);
    if o.ran.Some? && a == o.ran.value {
    } else {
      assert a in rest;
      RunsUseCallArguments(immediate, o.slot, events[1..], a);
      assert Call(a) in events[1..] ==> Call(a) in events;
    }
  }

  /** The wrapper returned by `debounce`, with its closed-over `timeout`. */
  class Debouncer<A> {
    const immediate: bool
    var slot: Slot<A>

    constructor(immediate: bool)
      ensures this.immediate == immediate && slot == Idle
    {
      this.immediate := immediate;
      slot := Idle;
    }

    /** A call of the wrapper: `ran` holds the arguments `func` was run with
        during the call, if it ran. */
    method Invoke(args: A) returns (ran: Option<A>)
      modifies this
      ensures Outcome(slot, ran) == Step(immediate, old(slot), Call(args))
    {
      var callNow := immediate && slot.Idle?;
      slot := Pending(args);
      if callNow {
        ran := Some(args);
      } else {
        ran := None;
      }
    }

    /** The pending timer expires and its `later` closure runs. */
    method Expire() returns (ran: Option<A>)
      modifies this
      ensures Outcome(slot, ran) == Step(immediate, old(slot), Fire)
    {
      ran := None;
      if slot.Pending? {
        var args := slot.args;
        slot := Idle;
        if !immediate {
          ran := Some(args);
        }
      }
    }
  }
}

/** The debounce wrapper used for the second scroll listener: one slot for the
    pending timer, which every call replaces. With `immediate` the wrapped handler
    runs at the start of a burst of calls; without it, it runs when the timer of
    the last call fires, with that call's arguments. */
module Debounce {
  import opened Dom

  /** What happens to a debounced handler: a call with its arguments, or the
      firing of the pending timer. */
  datatype Event<A> = Call(args: A) | Fire

  /** The arguments the handler is invoked with on a call, given the pending slot
      before it. */
  function CallInvokes<A>(immediate: bool, pending: Option<A>, args: A): Option<A> {
    if immediate && pending.None? then Some(args) else None
  }

  /** The arguments the handler is invoked with when the pending timer fires. */
  function FireInvokes<A>(immediate: bool, pending: Option<A>): Option<A> {
    if !immediate && pending.Some? then pending else None
  }

  function AsSeq<A>(o: Option<A>): seq<A> {
    if o.Some? then [o.value] else []
  }

  /** The slot after an event: a call leaves its own timer pending, a firing
      leaves nothing pending. */
  function After<A>(pending: Option<A>, e: Event<A>): Option<A> {
    match e
    case Call(a) => Some(a)
    case Fire => None
  }

  /** The invocations of the handler over a sequence of events, in order. */
  function Invocations<A>(immediate: bool, pending: Option<A>, events: seq<Event<A>>): seq<A>
    decreases |events|
  {
    if events == [] then []
    else
      var now := match events[0]
        case Call(a) => CallInvokes(immediate, pending, a)
        case Fire => FireInvokes(immediate, pending);
      AsSeq(now) + Invocations(immediate, After(pending, events[0]), events[1..])
  }

  function CountFires<A>(events: seq<Event<A>>): nat
    decreases |events|
  {
    if events == [] then 0 else (if events[0].Fire? then 1 else 0) + CountFires(events[1..])
  }

  predicate AllCalls<A>(events: seq<Event<A>>) {
    forall k :: 0 <= k < |events| ==> events[k].Call?
  }

  /** With `immediate`, a burst of calls with no timer firing in between invokes
      the handler once, with the first call's arguments, when nothing was pending;
      and not at all while a timer is pending. */
  lemma {:induction false} LeadingBurst<A>(pending: Option<A>, events: seq<Event<A>>)
    requires AllCalls(events) && events != []
    ensures Invocations(true, pending, events) == if pending.None? then [events[0].args] else []
    decreases |events|
  {
    var rest := events[1..];
    assert AllCalls(rest) by {
      forall k | 0 <= k < |rest| ensures rest[k].Call? { assert rest[k] == events[k + 1]; }
    }
    if rest != [] {
      LeadingBurst(Some(events[0].args), rest);
    }
  }

  /** Without `immediate`, a burst of calls invokes nothing until the timer fires,
      and then the handler runs once, with the last call's arguments. */
  lemma {:induction false} TrailingBurst<A>(pending: Option<A>, events: seq<Event<A>>)
    requires AllCalls(events) && events != []
    ensures Invocations(false, pending, events + [Fire]) == [events[|events| - 1].args]
    decreases |events|
  {
    var rest := events[1..];
    assert (events + [Fire])[0] == events[0];
    assert (events + [Fire])[1..] == rest + [Fire];
    if rest != [] {
      assert AllCalls(rest) by {
        forall k | 0 <= k < |rest| ensures rest[k].Call? { assert rest[k] == events[k + 1]; }
      }
      TrailingBurst(Some(events[0].args), rest);
    } else {
      assert rest + [Fire] == [Fire];
      var fire: seq<Event<A>> := [Fire];
      assert fire[1..] == [];
      assert Invocations(false, Some(events[0].args), fire) == [events[0].args];
    }
  }

  /** With `immediate`, the handler runs at most once more than timers have fired:
      a call only runs it when the slot is empty, and only a firing empties it. */
  lemma {:induction false} LeadingBound<A>(pending: Option<A>, events: seq<Event<A>>)
    ensures |Invocations(true, pending, events)| + (if pending.Some? then 1 else 0) <= CountFires(events) + 1
    decreases |events|
  {
    if events != [] {
      LeadingBound(After(pending, events[0]), events[1..]);
    }
  }

  /** Without `immediate`, the handler runs only when a timer fires, so never more
      often than timers fire. */
  lemma {:induction false} TrailingBound<A>(pending: Option<A>, events: seq<Event<A>>)
    ensures |Invocations(false, pending, events)| <= CountFires(events)
    decreases |events|
  {
    if events != [] {
      TrailingBound(After(pending, events[0]), events[1..]);
    }
  }

  /** The function debounce returns, with its closure's `timeout` slot. The slot
      holds the arguments of the call whose timer is pending (a timer that has
      been cleared never fires, so only that one can), or None when the slot is
      empty. */
  class Debouncer<A> {
    const immediate: bool
    var pending: Option<A>

    /** debounce(func, wait, immediate): nothing is pending yet. */
    constructor (immediate: bool)
      ensures this.immediate == immediate && pending == None
    {
      this.immediate := immediate;
      pending := None;
    }

    /** A call: run now when `immediate` and no timer is pending, and in every
        case replace the pending timer by a new one for this call. */
    method Call(args: A) returns (invoked: Option<A>)
      modifies this
      ensures invoked == CallInvokes(immediate, old(pending), args)
      ensures pending == Some(args)
    {
      var callNow := immediate && pending.None?;
      pending := Some(args);
      invoked := if callNow then Some(args) else None;
    }

    /** The pending timer fires (`later`): the slot is emptied, and the handler runs
        with the arguments of the call that set the timer unless `immediate`. With
        no timer pending nothing can fire. */
    method Fire() returns (invoked: Option<A>)
      modifies this
      ensures invoked == FireInvokes(immediate, old(pending))
      ensures pending == None
    {
      if pending.None? {
        return None;
      }
      var args := pending.value;
      pending := None;
      invoked := if !immediate then Some(args) else None;
    }
  }
}

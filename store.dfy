/** A mutable observable cell (src/Store.ts).

    The cell holds a current value and an insertion-ordered registry of
    listeners. Every listener in this model belongs to one pending `wait`
    call, so a listener is identified by the id of its waiter, and the
    registry is the sequence of those ids in insertion order. The waiter
    itself records the condition it waits for and the outcome of its
    promise. */
module ReactiveStore {

  /** The state of the promise returned by one `wait` call that registered
      a listener. */
  datatype Outcome<T> = Pending | Resolved(value: T) | Aborted

  /** One `wait` call that registered a listener: its condition and the
      state of its promise. */
  datatype Waiter<!T> = Waiter(condition: T -> bool, outcome: Outcome<T>)

  /** What `wait` does when it is called: fail at once because the signal is
      already aborted, resolve at once with the current value, or register
      the listener of waiter `id` and stay pending. */
  datatype WaitResult<T> = AbortError | ResolvedNow(value: T) | Registered(id: nat)

  /** One invocation of the listener of waiter `listener` with `arg`. */
  datatype Call<T> = Call(listener: nat, arg: T)

  /** The whole state of a cell. `history` is every value the cell has held,
      oldest first; it is bookkeeping of the model, not a variable of the
      source. */
  datatype StoreState<!T> = StoreState(
    value: T,
    listeners: seq<nat>,
    waiters: map<nat, Waiter<T>>,
    nextId: nat,
    history: seq<T>)

  /** The result of `wait` on a state: the new state and what the call did. */
  datatype Waited<!T> = Waited(state: StoreState<T>, result: WaitResult<T>)

  /** No id occurs twice: the registry is a `Set`. */
  ghost predicate Distinct(ids: seq<nat>)
    decreases |ids|
  {
    ids == [] || (ids[0] !in ids[1..] && Distinct(ids[1..]))
  }

  /** The invariant of a cell. A waiter is pending exactly when its listener
      is registered, so every waiter ends in exactly one of the two terminal
      outcomes once its listener is gone; a resolved waiter resolved with a
      value that satisfies its condition and that the cell held. */
  ghost predicate ValidState<T>(s: StoreState<T>)
  {
    && |s.history| > 0
    && s.history[|s.history| - 1] == s.value
    && Distinct(s.listeners)
    && (forall id :: id in s.listeners ==> id in s.waiters)
    && (forall id :: id in s.waiters ==> id < s.nextId)
    && (forall id :: id in s.waiters ==> (s.waiters[id].outcome.Pending? <==> id in s.listeners))
    && (forall id :: id in s.waiters && s.waiters[id].outcome.Resolved? ==>
          s.waiters[id].condition(s.waiters[id].outcome.value) && s.waiters[id].outcome.value in s.history)
  }

  function Init<T>(initialValue: T): StoreState<T>
  {
    StoreState(initialValue, [], map[], 0, [initialValue])
  }

  /** The elements of `ids` that satisfy `keep`, in their order. */
  function Filter(ids: seq<nat>, keep: nat -> bool): seq<nat>
    decreases |ids|
  {
    if ids == [] then []
    else
      var last := ids[|ids| - 1];
      Filter(ids[..|ids| - 1], keep) + (if keep(last) then [last] else [])
  }

  function Except(x: nat): nat -> bool
  {
    id => id != x
  }

  /** `Set.prototype.delete` on the registry. */
  function Remove(ids: seq<nat>, x: nat): seq<nat>
  {
    Filter(ids, Except(x))
  }

  /** The listeners that stay registered after a change to `v`: those whose
      condition does not hold of `v`. */
  function Survives<T>(waiters: map<nat, Waiter<T>>, v: T): nat -> bool
  {
    id => id in waiters && !waiters[id].condition(v)
  }

  /** The waiters after the listeners `ids` have been called with `v`: each
      one whose condition holds of `v` is resolved with `v`. */
  function Dispatch<T>(ids: seq<nat>, waiters: map<nat, Waiter<T>>, v: T): map<nat, Waiter<T>>
  {
    map id | id in waiters ::
      if id in ids && waiters[id].condition(v) then waiters[id].(outcome := Resolved(v)) else waiters[id]
  }

  /** The log of calling each listener of `ids` with `v`, in order. */
  function Invocations<T>(ids: seq<nat>, v: T): seq<Call<T>>
    decreases |ids|
  {
    if ids == [] then [] else Invocations(ids[..|ids| - 1], v) + [Call(ids[|ids| - 1], v)]
  }

  /** The setter of `value` (src/Store.ts:23-33). */
  ghost function SetSpec<T>(s: StoreState<T>, next: T): StoreState<T>
    requires forall id :: id in s.listeners ==> id in s.waiters
  {
    if s.value == next then s
    else s.(value := next,
             history := s.history + [next],
             listeners := Filter(s.listeners, Survives(s.waiters, next)),
             waiters := Dispatch(s.listeners, s.waiters, next))
  }

  /** `wait` at the moment it is called (src/Store.ts:35-59). */
  function WaitSpec<T>(s: StoreState<T>, aborted: bool, condition: T -> bool): Waited<T>
  {
    if aborted then Waited(s, AbortError)
    else if condition(s.value) then Waited(s, ResolvedNow(s.value))
    else
      var id := s.nextId;
      Waited(s.(listeners := s.listeners + [id],
                waiters := s.waiters[id := Waiter(condition, Pending)],
                nextId := id + 1),
             Registered(id))
  }

  /** The abort event reaching waiter `id`: the cleanup deletes its listener
      and its promise is rejected. A settled waiter is left alone. */
  function AbortSpec<T>(s: StoreState<T>, id: nat): StoreState<T>
  {
    if id in s.waiters && s.waiters[id].outcome.Pending? then
      s.(listeners := Remove(s.listeners, id),
         waiters := s.waiters[id := s.waiters[id].(outcome := Aborted)])
    else s
  }

  /** Anything that can happen to a cell: a write, a `wait` call, an abort. */
  datatype Event<!T> = Write(next: T) | Wait(aborted: bool, condition: T -> bool) | Abort(id: nat)

  ghost function Step<T>(s: StoreState<T>, e: Event<T>): (s': StoreState<T>)
    requires ValidState(s)
    ensures ValidState(s')
  {
    match e
    case Write(next) => SetPreservesValid(s, next); SetSpec(s, next)
    case Wait(aborted, condition) => WaitPreservesValid(s, aborted, condition); WaitSpec(s, aborted, condition).state
    case Abort(id) => AbortPreservesValid(s, id); AbortSpec(s, id)
  }

  ghost function Run<T>(s: StoreState<T>, events: seq<Event<T>>): (s': StoreState<T>)
    requires ValidState(s)
    ensures ValidState(s')
    decreases |events|
  {
    if events == [] then s else Run(Step(s, events[0]), events[1..])
  }

  // ---------------------------------------------------------------------
  // Properties of the specification

  /** The log of a notification has one call per listener, in the
      registry's order, each with the new value. */
  lemma {:induction false} InvocationsCallEachInOrder<T>(ids: seq<nat>, v: T)
    ensures |Invocations(ids, v)| == |ids|
    ensures forall i :: 0 <= i < |ids| ==> Invocations(ids, v)[i] == Call(ids[i], v)
    decreases |ids|
  {
    if ids != [] {
      var prefix := ids[..|ids| - 1];
      InvocationsCallEachInOrder(prefix, v);
      assert forall i :: 0 <= i < |prefix| ==> prefix[i] == ids[i];
    }
  }

  /** `Filter` keeps exactly the ids that satisfy `keep`. */
  lemma {:induction false} FilterMembers(ids: seq<nat>, keep: nat -> bool)
    ensures forall id :: id in Filter(ids, keep) <==> id in ids && keep(id)
    decreases |ids|
  {
    if ids != [] {
      var prefix := ids[..|ids| - 1];
      FilterMembers(prefix, keep);
      assert ids == prefix + [ids[|ids| - 1]];
    }
  }

  lemma {:induction false} FilterConcat(a: seq<nat>, b: seq<nat>, keep: nat -> bool)
    ensures Filter(a + b, keep) == Filter(a, keep) + Filter(b, keep)
    decreases |b|
  {
    if b == [] {
      assert a + b == a;
    } else {
      var b' := b[..|b| - 1];
      assert (a + b)[..|a + b| - 1] == a + b';
      FilterConcat(a, b', keep);
    }
  }

  lemma {:induction false} FilterKeepsAll(ids: seq<nat>, keep: nat -> bool)
    requires forall i :: 0 <= i < |ids| ==> keep(ids[i])
    ensures Filter(ids, keep) == ids
    decreases |ids|
  {
    if ids != [] {
      var prefix := ids[..|ids| - 1];
      FilterKeepsAll(prefix, keep);
      assert prefix + [ids[|ids| - 1]] == ids;
    }
  }

  /** In a registry without duplicates, the `i`-th id occurs neither before
      nor after position `i`. */
  lemma {:induction false} DistinctAt(ids: seq<nat>, i: nat)
    requires Distinct(ids) && i < |ids|
    ensures ids[i] !in ids[..i] && ids[i] !in ids[i + 1..]
    decreases |ids|
  {
    if i > 0 {
      var tail := ids[1..];
      DistinctAt(tail, i - 1);
      assert tail[..i - 1] == ids[1..i] && tail[i..] == ids[i + 1..];
      assert ids[i] in tail;
      assert ids[..i] == [ids[0]] + ids[1..i];
    }
  }

  lemma {:induction false} DistinctPrefix(ids: seq<nat>, n: nat)
    requires Distinct(ids) && n <= |ids|
    ensures Distinct(ids[..n])
    decreases n
  {
    if n > 0 {
      var tail := ids[1..];
      DistinctPrefix(tail, n - 1);
      assert ids[..n][1..] == tail[..n - 1];
      assert forall id :: id in tail[..n - 1] ==> id in tail;
    }
  }

  lemma {:induction false} DistinctAppend(ids: seq<nat>, id: nat)
    requires Distinct(ids) && id !in ids
    ensures Distinct(ids + [id])
    decreases |ids|
  {
    if ids != [] {
      DistinctAppend(ids[1..], id);
      assert (ids + [id])[1..] == ids[1..] + [id];
    }
  }

  lemma {:induction false} FilterDistinct(ids: seq<nat>, keep: nat -> bool)
    requires Distinct(ids)
    ensures Distinct(Filter(ids, keep))
    decreases |ids|
  {
    if ids != [] {
      var n := |ids| - 1;
      var prefix := ids[..n];
      DistinctPrefix(ids, n);
      DistinctAt(ids, n);
      FilterDistinct(prefix, keep);
      var kept := Filter(prefix, keep);
      FilterMembers(prefix, keep);
      if keep(ids[n]) {
        DistinctAppend(kept, ids[n]);
      } else {
        assert kept + [] == kept;
      }
    }
  }

  /** Writing the current value again changes nothing. */
  lemma SetSameValueIsNoop<T>(s: StoreState<T>)
    requires ValidState(s)
    ensures SetSpec(s, s.value) == s
  {
  }

  lemma SetPreservesValid<T>(s: StoreState<T>, next: T)
    requires ValidState(s)
    ensures ValidState(SetSpec(s, next))
  {
    if s.value != next {
      var s' := SetSpec(s, next);
      FilterDistinct(s.listeners, Survives(s.waiters, next));
      FilterMembers(s.listeners, Survives(s.waiters, next));
      forall id | id in s'.waiters && s'.waiters[id].outcome.Resolved?
        ensures s'.waiters[id].condition(s'.waiters[id].outcome.value)
        ensures s'.waiters[id].outcome.value in s'.history
      {
        if id in s.listeners && s.waiters[id].condition(next) {
          assert s'.history[|s'.history| - 1] == next;
        } else {
          assert s'.waiters[id] == s.waiters[id];
          assert s.waiters[id].outcome.value in s.history;
        }
      }
    }
  }

  lemma WaitPreservesValid<T>(s: StoreState<T>, aborted: bool, condition: T -> bool)
    requires ValidState(s)
    ensures ValidState(WaitSpec(s, aborted, condition).state)
  {
    var s' := WaitSpec(s, aborted, condition).state;
    if !aborted && !condition(s.value) {
      var id := s.nextId;
      assert id !in s.listeners;
      DistinctAppend(s.listeners, id);
    }
  }

  lemma AbortPreservesValid<T>(s: StoreState<T>, id: nat)
    requires ValidState(s)
    ensures ValidState(AbortSpec(s, id))
  {
    FilterDistinct(s.listeners, Except(id));
    FilterMembers(s.listeners, Except(id));
  }

  /** `wait` on an aborted signal fails and registers nothing, even when the
      condition already holds (src/Store.ts:39). */
  lemma WaitOnAbortedSignal<T>(s: StoreState<T>, condition: T -> bool)
    ensures WaitSpec(s, true, condition) == Waited(s, AbortError)
  {
  }

  /** `wait` whose condition holds now resolves with the current value and
      registers nothing (src/Store.ts:41-43). */
  lemma WaitAlreadySatisfied<T>(s: StoreState<T>, condition: T -> bool)
    requires condition(s.value)
    ensures WaitSpec(s, false, condition) == Waited(s, ResolvedNow(s.value))
  {
  }

  /** Otherwise `wait` appends exactly one fresh listener, whose waiter is
      pending, and changes nothing else (src/Store.ts:45-53). */
  lemma WaitRegistersOneListener<T>(s: StoreState<T>, condition: T -> bool)
    requires ValidState(s)
    requires !condition(s.value)
    ensures var w := WaitSpec(s, false, condition);
      && w.result.Registered?
      && w.result.id !in s.waiters
      && w.state.listeners == s.listeners + [w.result.id]
      && w.state.waiters == s.waiters[w.result.id := Waiter(condition, Pending)]
      && w.state.value == s.value
      && ValidState(w.state)
  {
    WaitPreservesValid(s, false, condition);
  }

  /** A write of a new value resolves a pending waiter exactly when the value
      satisfies its condition, and then removes its listener and no other;
      otherwise the waiter stays pending and registered. The outcome of each
      waiter depends only on its own condition (src/Store.ts:28-32, 46-50). */
  lemma WriteSettlesEachWaiterByItsOwnCondition<T>(s: StoreState<T>, next: T, id: nat)
    requires ValidState(s)
    requires next != s.value
    requires id in s.waiters && s.waiters[id].outcome.Pending?
    ensures var s' := SetSpec(s, next);
      && id in s'.waiters
      && s'.waiters[id].condition == s.waiters[id].condition
      && (s.waiters[id].condition(next) ==> s'.waiters[id].outcome == Resolved(next) && id !in s'.listeners)
      && (!s.waiters[id].condition(next) ==> s'.waiters[id].outcome.Pending? && id in s'.listeners)
  {
    FilterMembers(s.listeners, Survives(s.waiters, next));
  }

  /** A write leaves every waiter that is not pending untouched. */
  lemma WriteLeavesSettledWaiters<T>(s: StoreState<T>, next: T, id: nat)
    requires ValidState(s)
    requires id in s.waiters && !s.waiters[id].outcome.Pending?
    ensures id in SetSpec(s, next).waiters && SetSpec(s, next).waiters[id] == s.waiters[id]
  {
  }

  /** The abort cleanup removes the waiter's own listener and no other, and
      rejects only its promise (src/Store.ts:55-57). */
  lemma AbortRemovesOnlyItsListener<T>(s: StoreState<T>, id: nat)
    requires ValidState(s)
    requires id in s.waiters && s.waiters[id].outcome.Pending?
    ensures var s' := AbortSpec(s, id);
      && s'.waiters[id].outcome == Aborted
      && id !in s'.listeners
      && (forall other :: other in s.listeners && other != id ==> other in s'.listeners)
      && (forall other :: other in s.waiters && other != id ==> other in s'.waiters && s'.waiters[other] == s.waiters[other])
      && s'.value == s.value
  {
    FilterMembers(s.listeners, Except(id));
  }

  /** Once a waiter has resolved or been aborted, nothing that happens to the
      cell afterwards changes its outcome or registers its listener again:
      in particular no later write resolves an aborted waiter. */
  lemma {:induction false} SettledWaiterStaysSettled<T>(s: StoreState<T>, events: seq<Event<T>>, id: nat)
    requires ValidState(s)
    requires id in s.waiters && !s.waiters[id].outcome.Pending?
    ensures var s' := Run(s, events);
      id in s'.waiters && s'.waiters[id] == s.waiters[id] && id !in s'.listeners
    decreases |events|
  {
    if events != [] {
      var t := Step(s, events[0]);
      assert id in t.waiters && t.waiters[id] == s.waiters[id];
      SettledWaiterStaysSettled(t, events[1..], id);
    }
  }

  /** A registered waiter leaves the pending state only through a write whose
      value satisfies its condition or through its abort. */
  lemma StepSettlesOnlyByWriteOrAbort<T>(s: StoreState<T>, e: Event<T>, id: nat)
    requires ValidState(s)
    requires id in s.waiters && s.waiters[id].outcome.Pending?
    ensures var s' := Step(s, e);
      id in s'.waiters &&
      (s'.waiters[id].outcome.Pending?
       || (e.Write? && e.next != s.value && s.waiters[id].condition(e.next) && s'.waiters[id].outcome == Resolved(e.next))
       || (e == Abort(id) && s'.waiters[id].outcome == Aborted))
  {
  }

  /** Nothing that happens to a cell forgets a value it held or a waiter it
      registered, and no waiter's condition ever changes. */
  lemma StepKeepsHistoryAndConditions<T>(s: StoreState<T>, e: Event<T>)
    requires ValidState(s)
    ensures var s' := Step(s, e);
      && (forall v :: v in s.history ==> v in s'.history)
      && (forall id :: id in s.waiters ==> id in s'.waiters && s'.waiters[id].condition == s.waiters[id].condition)
  {
  }

  // ---------------------------------------------------------------------
  // The cell as the source has it: a closure over `value` and `listeners`

  class Store<T(==)> {
    var value: T
    var listeners: seq<nat>
    var waiters: map<nat, Waiter<T>>
    var nextId: nat
    ghost var history: seq<T>
    /** Every listener invocation so far, in order. */
    ghost var calls: seq<Call<T>>

    ghost function State(): StoreState<T>
      reads this
    {
      StoreState(value, listeners, waiters, nextId, history)
    }

    ghost predicate Valid()
      reads this
    {
      ValidState(State())
    }

    /** `Store(initialValue)` (src/Store.ts:14-17). */
    constructor (initialValue: T)
      ensures Valid()
      ensures State() == Init(initialValue) && calls == []
    {
      value := initialValue;
      listeners := [];
      waiters := map[];
      nextId := 0;
      history := [initialValue];
      calls := [];
    }

    /** The getter of `value` (src/Store.ts:20-22). */
    method Get() returns (v: T)
      requires Valid()
      ensures v == value && v == history[|history| - 1]
    {
      v := value;
    }

    /** The setter of `value` (src/Store.ts:23-33): a write of the current
        value does nothing; any other write stores the value and calls each
        listener registered at that moment once, in insertion order, with the
        new value. A listener whose condition holds resolves its waiter and
        deletes itself. */
    method Set(next: T)
      requires Valid()
      modifies this
      ensures Valid()
      ensures State() == SetSpec(old(State()), next)
      ensures calls == old(calls) + (if next == old(value) then [] else Invocations(old(listeners), next))
    {
      ghost var s0 := State();
      SetPreservesValid(s0, next);
      if value == next {
        return;
      }
      value := next;
      history := history + [next];
      NotifyListeners();
    }

    /** The `for...of` loop of the setter (src/Store.ts:30-32): call each
        registered listener with the new value, in insertion order. */
    method NotifyListeners()
      requires Distinct(listeners) && forall id :: id in listeners ==> id in waiters
      modifies this`listeners, this`waiters, this`calls
      ensures listeners == Filter(old(listeners), Survives(old(waiters), value))
      ensures waiters == Dispatch(old(listeners), old(waiters), value)
      ensures calls == old(calls) + Invocations(old(listeners), value)
    {
      ghost var registered := listeners;
      ghost var waiters0 := waiters;
      ghost var calls0 := calls;
      ghost var done: seq<nat> := [];
      var todo := listeners;
      while todo != []
        invariant Notifying(registered, done, todo, waiters0, calls0)
        decreases |todo|
      {
        NotifyNext(registered, done, todo, waiters0, calls0);
        done := done + [todo[0]];
        todo := todo[1..];
      }
      assert done == registered;
    }

    /** The state of the notification loop after the listeners `done` have
        been called, with `todo` still to call: the registry has lost the
        resolved ones among `done`, the waiters they belong to are resolved,
        and the log has grown by one call per listener of `done`. */
    ghost predicate Notifying(registered: seq<nat>, done: seq<nat>, todo: seq<nat>, waiters0: map<nat, Waiter<T>>, calls0: seq<Call<T>>)
      reads this
    {
      && done + todo == registered
      && Distinct(todo) && (forall id :: id in todo ==> id in waiters0 && id !in done)
      && listeners == Filter(done, Survives(waiters0, value)) + todo
      && waiters == Dispatch(done, waiters0, value)
      && calls == calls0 + Invocations(done, value)
    }

    /** One turn of the loop: call the first listener still to call. */
    method NotifyNext(ghost registered: seq<nat>, ghost done: seq<nat>, todo: seq<nat>, ghost waiters0: map<nat, Waiter<T>>, ghost calls0: seq<Call<T>>)
      requires todo != [] && Notifying(registered, done, todo, waiters0, calls0)
      modifies this`listeners, this`waiters, this`calls
      ensures Notifying(registered, done + [todo[0]], todo[1..], waiters0, calls0)
    {
      var id := todo[0];
      TodoStep(done, todo, waiters0.Keys);
      FilterStep(done, todo, waiters0, value);
      DispatchStep(done, id, waiters0, value);
      InvocationsSnoc(done, id, value);
      CallListener(id);
    }

    /** The listener that `wait` registered for waiter `id`
        (src/Store.ts:46-51), called with the current value: when the
        condition holds, it resolves the promise with the value and deletes
        itself from the registry. */
    method CallListener(id: nat)
      requires id in waiters
      modifies this`listeners, this`waiters, this`calls
      ensures calls == old(calls) + [Call(id, value)]
      ensures old(waiters[id].condition(value)) ==>
        waiters == old(waiters)[id := old(waiters[id]).(outcome := Resolved(value))]
        && listeners == Remove(old(listeners), id)
      ensures !old(waiters[id].condition(value)) ==>
        waiters == old(waiters) && listeners == old(listeners)
    {
      calls := calls + [Call(id, value)];
      var w := waiters[id];
      if w.condition(value) {
        waiters := waiters[id := w.(outcome := Resolved(value))];
        listeners := Remove(listeners, id);
      }
    }

    /** `wait(signal, condition)` up to the point where it returns its promise
        (src/Store.ts:35-59); `aborted` is whether the signal is already
        aborted when it is called. */
    method Wait(aborted: bool, condition: T -> bool) returns (r: WaitResult<T>)
      requires Valid()
      modifies this
      ensures Valid()
      ensures Waited(State(), r) == WaitSpec(old(State()), aborted, condition)
      ensures calls == old(calls)
    {
      WaitPreservesValid(State(), aborted, condition);
      if aborted {
        return AbortError;
      }
      if condition(value) {
        return ResolvedNow(value);
      }
      var id := nextId;
      nextId := nextId + 1;
      waiters := waiters[id := Waiter(condition, Pending)];
      listeners := listeners + [id];
      r := Registered(id);
    }

    /** The abort event of the signal given to the `wait` call that registered
        waiter `id` (src/Store.ts:55-57). */
    method Abort(id: nat)
      requires Valid()
      modifies this
      ensures Valid()
      ensures State() == AbortSpec(old(State()), id)
      ensures calls == old(calls)
    {
      AbortPreservesValid(State(), id);
      if id in waiters && waiters[id].outcome.Pending? {
        listeners := Remove(listeners, id);
        waiters := waiters[id := waiters[id].(outcome := Aborted)];
      }
    }
  }

  /** One turn of the notification loop moves the first listener still to
      call from `todo` to `done`; the rest keep their properties. */
  lemma TodoStep(done: seq<nat>, todo: seq<nat>, known: set<nat>)
    requires todo != []
    requires Distinct(todo) && forall id :: id in todo ==> id in known && id !in done
    ensures done + [todo[0]] + todo[1..] == done + todo
    ensures Distinct(todo[1..])
    ensures forall id :: id in todo[1..] ==> id in known && id !in done + [todo[0]]
  {
    assert todo == [todo[0]] + todo[1..];
    DistinctAt(todo, 0);
  }

  lemma InvocationsSnoc<T>(ids: seq<nat>, id: nat, v: T)
    ensures Invocations(ids + [id], v) == Invocations(ids, v) + [Call(id, v)]
  {
    assert (ids + [id])[..|ids|] == ids;
  }

  lemma FilterStep<T>(done: seq<nat>, todo: seq<nat>, waiters0: map<nat, Waiter<T>>, v: T)
    requires todo != []
    requires Distinct(todo) && todo[0] in waiters0 && todo[0] !in done
    ensures var id := todo[0];
      var kept := Filter(done, Survives(waiters0, v));
      Filter(done + [id], Survives(waiters0, v)) + todo[1..]
      == (if waiters0[id].condition(v) then Remove(kept + todo, id) else kept + todo)
  {
    var id := todo[0];
    var survives := Survives(waiters0, v);
    assert todo == [id] + todo[1..];
    if waiters0[id].condition(v) {
      DistinctAt(todo, 0);
      FilterMembers(done, survives);
      FilterSnocDropped(done, id, todo[1..], survives);
    } else {
      FilterSnocKept(done, id, todo[1..], survives);
    }
  }

  lemma FilterSnocDropped(ids: seq<nat>, id: nat, rest: seq<nat>, keep: nat -> bool)
    requires !keep(id) && id !in Filter(ids, keep) && id !in rest
    ensures Filter(ids + [id], keep) + rest == Remove(Filter(ids, keep) + ([id] + rest), id)
  {
    var kept := Filter(ids, keep);
    FilterSnoc(ids, id, keep);
    assert kept + ([id] + rest) == kept + [id] + rest;
    RemoveOnly(kept, id, rest);
  }

  lemma FilterSnocKept(ids: seq<nat>, id: nat, rest: seq<nat>, keep: nat -> bool)
    requires keep(id)
    ensures Filter(ids + [id], keep) + rest == Filter(ids, keep) + ([id] + rest)
  {
    FilterSnoc(ids, id, keep);
  }

  lemma FilterSnoc(ids: seq<nat>, id: nat, keep: nat -> bool)
    ensures Filter(ids + [id], keep) == Filter(ids, keep) + (if keep(id) then [id] else [])
  {
    assert (ids + [id])[..|ids|] == ids;
  }

  /** Calling one more listener resolves its waiter or leaves the waiters as they were. */
  lemma DispatchStep<T>(ids: seq<nat>, id: nat, waiters: map<nat, Waiter<T>>, v: T)
    requires id !in ids && id in waiters
    ensures var d := Dispatch(ids, waiters, v);
      Dispatch(ids + [id], waiters, v)
      == (if waiters[id].condition(v) then d[id := waiters[id].(outcome := Resolved(v))] else d)
  {
    var d := Dispatch(ids, waiters, v);
    var d' := Dispatch(ids + [id], waiters, v);
    var e := if waiters[id].condition(v) then d[id := waiters[id].(outcome := Resolved(v))] else d;
    assert d'.Keys == e.Keys;
    forall k | k in d' ensures d'[k] == e[k] {
      assert k in ids + [id] <==> k in ids || k == id;
    }
  }

  /** Deleting a listener that occurs once, between `kept` and `rest`. */
  lemma RemoveOnly(kept: seq<nat>, id: nat, rest: seq<nat>)
    requires id !in kept && id !in rest
    ensures Remove(kept + [id] + rest, id) == kept + rest
  {
    var other := Except(id);
    FilterConcat(kept + [id], rest, other);
    FilterConcat(kept, [id], other);
    assert Filter([id], other) == [] by {
      assert [id][..0] == [];
    }
    assert kept + [] == kept;
    assert forall i :: 0 <= i < |kept| ==> other(kept[i]);
    FilterKeepsAll(kept, other);
    assert forall i :: 0 <= i < |rest| ==> other(rest[i]);
    FilterKeepsAll(rest, other);
    assert Filter(kept + [id], other) == kept;
    assert Filter(kept + [id] + rest, other) == kept + rest;
  }
}

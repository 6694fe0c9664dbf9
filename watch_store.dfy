/** An async generator over a cell's values (src/watchStore.ts).

    The generator yields the cell's value when its body first runs, then
    loops for ever: it waits for a value different from the one it yielded
    last, yields it, and remembers it. Each call of the generator's `next`
    is one step of the machine below; the values yielded so far are its
    trace. */
module WatchStore {
  import opened ReactiveStore

  /** Where the generator body stands between two `next` calls, together with
      its `lastValue` variable where that is set. */
  datatype Phase<T> =
    | NotStarted
      // suspended at the first `yield`, having read `last` (src/watchStore.ts:7-9)
    | AtFirstYield(last: T)
      // suspended at the `yield` in the loop with `yielded`; `lastValue` is still `last`
      // (src/watchStore.ts:14)
    | AtLoopYield(last: T, yielded: T)
      // awaiting the cell's waiter `id` for a value other than `last` (src/watchStore.ts:12)
    | Awaiting(last: T, id: nat)
      // the body has thrown
    | Finished

  /** What one `next` call does: deliver a value, stay pending on the cell,
      reject with the abort error, or report that the generator is done. */
  datatype StepResult<T> = Yield(value: T) | Suspended | Threw | Done

  /** The generator's state and every value it has yielded, oldest first. */
  datatype Gen<T> = Gen(phase: Phase<T>, trace: seq<T>)

  /** The cell and the generator after one step, and what the step did. */
  datatype Moved<!T> = Moved(store: StoreState<T>, gen: Gen<T>, result: StepResult<T>)

  /** The condition the loop waits with (src/watchStore.ts:12). */
  function Differs<T(==)>(last: T): T -> bool
  {
    v => v != last
  }

  /** No value is yielded twice in a row. */
  ghost predicate NoRepeats<T>(trace: seq<T>)
  {
    forall i :: 0 < i < |trace| ==> trace[i - 1] != trace[i]
  }

  /** The invariant linking the generator to its cell: the trace matches the
      phase, has no repeats, holds only values the cell held, and a pending
      wait is the cell's waiter for a value other than the last yield. */
  ghost predicate WatchInv<T>(s: StoreState<T>, g: Gen<T>)
  {
    && NoRepeats(g.trace)
    && (forall v :: v in g.trace ==> v in s.history)
    && match g.phase
       case NotStarted => g.trace == []
       case AtFirstYield(last) => g.trace == [last]
       case AtLoopYield(last, yielded) =>
         |g.trace| >= 2 && g.trace[|g.trace| - 2] == last && g.trace[|g.trace| - 1] == yielded
       case Awaiting(last, id) =>
         && g.trace != [] && g.trace[|g.trace| - 1] == last
         && id in s.waiters && s.waiters[id].condition == Differs(last)
       case Finished => true
  }

  /** The loop head (src/watchStore.ts:11-14): wait for a value other than
      `last`; a value at hand is yielded, an aborted signal throws, otherwise
      the generator stays on the registered waiter. */
  function AwaitChange<T(==)>(s: StoreState<T>, last: T, trace: seq<T>, aborted: bool): Moved<T>
  {
    var w := WaitSpec(s, aborted, Differs(last));
    match w.result
    case AbortError => Moved(w.state, Gen(Finished, trace), Threw)
    case ResolvedNow(v) => Moved(w.state, Gen(AtLoopYield(last, v), trace + [v]), Yield(v))
    case Registered(id) => Moved(w.state, Gen(Awaiting(last, id), trace), Suspended)
  }

  /** One `next` call on the generator. Resuming after the loop's `yield`
      first sets `lastValue` to the value yielded (src/watchStore.ts:16). */
  function WatchNext<T(==)>(s: StoreState<T>, g: Gen<T>, aborted: bool): Moved<T>
    requires g.phase.Awaiting? ==> g.phase.id in s.waiters
  {
    match g.phase
    case NotStarted => Moved(s, Gen(AtFirstYield(s.value), g.trace + [s.value]), Yield(s.value))
    case AtFirstYield(last) => AwaitChange(s, last, g.trace, aborted)
    case AtLoopYield(_, yielded) => AwaitChange(s, yielded, g.trace, aborted)
    case Awaiting(last, id) =>
      (match s.waiters[id].outcome
       case Pending => Moved(s, g, Suspended)
       case Resolved(v) => Moved(s, Gen(AtLoopYield(last, v), g.trace + [v]), Yield(v))
       case Aborted => Moved(s, Gen(Finished, g.trace), Threw))
    case Finished => Moved(s, g, Done)
  }

  lemma NoRepeatsSnoc<T>(trace: seq<T>, v: T)
    requires NoRepeats(trace)
    requires trace != [] ==> trace[|trace| - 1] != v
    ensures NoRepeats(trace + [v])
  {
    var t := trace + [v];
    forall i | 0 < i < |t|
      ensures t[i - 1] != t[i]
    {
      if i < |trace| {
        assert t[i - 1] == trace[i - 1] && t[i] == trace[i];
      }
    }
  }

  /** A step of the generator keeps the invariant and the cell's. */
  lemma WatchNextPreservesInv<T>(s: StoreState<T>, g: Gen<T>, aborted: bool)
    requires ValidState(s) && WatchInv(s, g)
    ensures var m := WatchNext(s, g, aborted);
      ValidState(m.store) && WatchInv(m.store, m.gen)
  {
    var m := WatchNext(s, g, aborted);
    match g.phase
    case NotStarted =>
    case AtFirstYield(last) =>
      AwaitChangePreservesInv(s, last, g.trace, aborted);
    case AtLoopYield(_, yielded) =>
      AwaitChangePreservesInv(s, yielded, g.trace, aborted);
    case Awaiting(last, id) =>
      if s.waiters[id].outcome.Resolved? {
        var v := s.waiters[id].outcome.value;
        assert Differs(last)(v);
        NoRepeatsSnoc(g.trace, v);
      }
    case Finished =>
  }

  lemma AwaitChangePreservesInv<T>(s: StoreState<T>, last: T, trace: seq<T>, aborted: bool)
    requires ValidState(s)
    requires NoRepeats(trace) && trace != [] && trace[|trace| - 1] == last
    requires forall v :: v in trace ==> v in s.history
    ensures var m := AwaitChange(s, last, trace, aborted);
      ValidState(m.store) && WatchInv(m.store, m.gen)
  {
    WaitPreservesValid(s, aborted, Differs(last));
    var w := WaitSpec(s, aborted, Differs(last));
    if w.result.ResolvedNow? {
      NoRepeatsSnoc(trace, s.value);
    }
  }

  /** Anything else that happens to the cell keeps the generator's invariant:
      the cell forgets no value and no waiter's condition changes. */
  lemma StoreStepPreservesWatchInv<T>(s: StoreState<T>, e: Event<T>, g: Gen<T>)
    requires ValidState(s) && WatchInv(s, g)
    ensures WatchInv(Step(s, e), g)
  {
    StepKeepsHistoryAndConditions(s, e);
  }

  /** The first `next` yields the cell's value at that moment
      (src/watchStore.ts:7-9). */
  lemma FirstYieldIsCurrentValue<T>(s: StoreState<T>, aborted: bool)
    ensures WatchNext(s, Gen(NotStarted, []), aborted)
      == Moved(s, Gen(AtFirstYield(s.value), [s.value]), Yield(s.value))
  {
  }

  /** Every value yielded after the first differs from the one yielded just
      before it, is a value the cell held, and is appended to the trace;
      a step that yields nothing leaves the trace as it was
      (src/watchStore.ts:11-16). */
  lemma LaterYieldsDiffer<T>(s: StoreState<T>, g: Gen<T>, aborted: bool)
    requires ValidState(s) && WatchInv(s, g)
    ensures var m := WatchNext(s, g, aborted);
      && (m.result.Yield? ==> m.gen.trace == g.trace + [m.result.value] && m.result.value in s.history)
      && (m.result.Yield? && g.trace != [] ==> m.result.value != g.trace[|g.trace| - 1])
      && (!m.result.Yield? ==> m.gen.trace == g.trace)
  {
    WatchNextPreservesInv(s, g, aborted);
    var m := WatchNext(s, g, aborted);
    if m.result.Yield? && g.trace != [] {
      var t := m.gen.trace;
      assert t[|t| - 2] == g.trace[|g.trace| - 1];
    }
  }

  /** Resuming after the loop's `yield` waits for a value other than the one
      just yielded, not other than the one before it: `lastValue` has become
      the value yielded (src/watchStore.ts:12-16). If the cell has moved away
      from it meanwhile, the new value is yielded at once, even when it equals
      an older yield; otherwise the generator registers a waiter for a value
      other than the one yielded. */
  lemma ResumeWaitsForChangeFromLastYield<T>(s: StoreState<T>, last: T, yielded: T, trace: seq<T>, aborted: bool)
    requires !aborted
    ensures var m := WatchNext(s, Gen(AtLoopYield(last, yielded), trace), aborted);
      if s.value != yielded then
        && m.result == Yield(s.value)
        && m.gen == Gen(AtLoopYield(yielded, s.value), trace + [s.value])
        && m.store == s
      else
        && m.result == StepResult.Suspended
        && m.gen == Gen(Awaiting(yielded, s.nextId), trace)
        && s.nextId in m.store.waiters && m.store.waiters[s.nextId] == Waiter(Differs(yielded), Pending)
  {
  }

  /** The generator never finishes on its own: a step throws only when the
      signal is aborted before a wait or the awaited waiter is aborted, and
      reports done only once it has thrown (src/watchStore.ts:11-17). */
  lemma EndsOnlyByAbort<T>(s: StoreState<T>, g: Gen<T>, aborted: bool)
    requires g.phase.Awaiting? ==> g.phase.id in s.waiters
    ensures var m := WatchNext(s, g, aborted);
      && (m.result == Done <==> g.phase.Finished?)
      && (m.result == Threw <==>
            ((g.phase.AtFirstYield? || g.phase.AtLoopYield?) && aborted)
            || (g.phase.Awaiting? && s.waiters[g.phase.id].outcome.Aborted?))
      && (m.gen.phase.Finished? ==> m.result == Threw || m.result == Done)
  {
  }

  /** Something that can happen while the generator runs: an event on the
      cell from any party, or a `next` call on the generator with the signal
      in the state given. */
  datatype Action<!T> = Happen(event: Event<T>) | Pull(aborted: bool)

  /** The cell and the generator after a sequence of actions. */
  ghost function Play<T>(s: StoreState<T>, g: Gen<T>, actions: seq<Action<T>>): (m: Moved<T>)
    requires ValidState(s) && WatchInv(s, g)
    ensures ValidState(m.store) && WatchInv(m.store, m.gen)
    decreases |actions|
  {
    if actions == [] then Moved(s, g, Suspended)
    else match actions[0]
      case Happen(e) =>
        StoreStepPreservesWatchInv(s, e, g);
        Play(Step(s, e), g, actions[1..])
      case Pull(aborted) =>
        WatchNextPreservesInv(s, g, aborted);
        var n := WatchNext(s, g, aborted);
        Play(n.store, n.gen, actions[1..])
  }

  /** Whatever the cell and the generator go through, the values yielded
      only grow, never repeat back to back, and were all held by the cell. */
  lemma {:induction false} PlayKeepsYields<T>(s: StoreState<T>, g: Gen<T>, actions: seq<Action<T>>)
    requires ValidState(s) && WatchInv(s, g)
    ensures var m := Play(s, g, actions);
      && |g.trace| <= |m.gen.trace| && m.gen.trace[..|g.trace|] == g.trace
      && NoRepeats(m.gen.trace)
      && forall v :: v in m.gen.trace ==> v in m.store.history
    decreases |actions|
  {
    if actions != [] {
      match actions[0]
      case Happen(e) =>
        StoreStepPreservesWatchInv(s, e, g);
        PlayKeepsYields(Step(s, e), g, actions[1..]);
      case Pull(aborted) =>
        WatchNextPreservesInv(s, g, aborted);
        LaterYieldsDiffer(s, g, aborted);
        var n := WatchNext(s, g, aborted);
        PlayKeepsYields(n.store, n.gen, actions[1..]);
        var t := Play(n.store, n.gen, actions[1..]).gen.trace;
        assert t[..|n.gen.trace|][..|g.trace|] == t[..|g.trace|];
    }
  }

  // ---------------------------------------------------------------------
  // The generator as the source has it

  class Watcher<T(==)> {
    const store: Store<T>
    var phase: Phase<T>
    /** Every value yielded so far. */
    ghost var trace: seq<T>

    ghost predicate Valid()
      reads this, store
    {
      store.Valid() && WatchInv(store.State(), Gen(phase, trace))
    }

    /** `watchStore(signal, store)`: the generator object, whose body has not
        started (src/watchStore.ts:3-6). */
    constructor (s: Store<T>)
      requires s.Valid()
      ensures Valid()
      ensures store == s && phase == NotStarted && trace == []
    {
      store := s;
      phase := NotStarted;
      trace := [];
    }

    /** One `next` call; `aborted` is whether the signal is aborted when the
        body reaches `wait`. */
    method Next(aborted: bool) returns (r: StepResult<T>)
      requires Valid()
      modifies this, store
      ensures Valid()
      ensures Moved(store.State(), Gen(phase, trace), r) == WatchNext(old(store.State()), old(Gen(phase, trace)), aborted)
      ensures store.calls == old(store.calls)
    {
      WatchNextPreservesInv(store.State(), Gen(phase, trace), aborted);
      ghost var m := WatchNext(store.State(), Gen(phase, trace), aborted);
      match phase {
        case NotStarted =>
          var v := store.Get();
          phase := AtFirstYield(v);
          trace := trace + [v];
          r := Yield(v);
        case AtFirstYield(last) =>
          r := Await(last, aborted);
        case AtLoopYield(_, yielded) =>
          r := Await(yielded, aborted);
        case Awaiting(last, id) =>
          match store.waiters[id].outcome {
            case Pending =>
              r := Suspended;
            case Resolved(v) =>
              phase := AtLoopYield(last, v);
              trace := trace + [v];
              r := Yield(v);
            case Aborted =>
              phase := Finished;
              r := Threw;
          }
        case Finished =>
          r := Done;
      }
      assert Moved(store.State(), Gen(phase, trace), r) == m;
    }

    /** The loop head: `wait` for a value other than `last`. */
    method Await(last: T, aborted: bool) returns (r: StepResult<T>)
      requires store.Valid()
      modifies this`phase, this`trace, store
      ensures Moved(store.State(), Gen(phase, trace), r) == AwaitChange(old(store.State()), last, old(trace), aborted)
      ensures store.calls == old(store.calls)
    {
      var w := store.Wait(aborted, Differs(last));
      match w
      case AbortError =>
        phase := Finished;
        r := Threw;
      case ResolvedNow(v) =>
        phase := AtLoopYield(last, v);
        trace := trace + [v];
        r := Yield(v);
      case Registered(id) =>
        phase := Awaiting(last, id);
        r := Suspended;
    }
  }
}

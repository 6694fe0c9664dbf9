/** A read-only view of a parent cell through a transform (src/deriveStore.ts).

    The view keeps a single-slot cache: the last parent value it transformed
    and the result. Reading the view and waiting on it both go through that
    cache. `transform` is a Dafny function, so it is pure; a ghost counter
    records how often the view calls it. */
module DeriveStore {
  import opened ReactiveStore

  /** The `cache` variable (src/deriveStore.ts:7): empty, or the last parent
      value transformed together with its transform. */
  datatype Cache<T, R> = Empty | Cached(parentValue: T, transformedValue: R)

  /** The result of one `memoizedTransform` call: what it returns, the cache
      it leaves behind and whether it called `transform`. */
  datatype Memoized<T, R> = Memoized(result: R, cache: Cache<T, R>, invoked: bool)

  /** What the view's `wait` does when it is called: fail because the signal
      is already aborted, return a transformed value at once, or stay
      suspended on the parent's waiter `id`. */
  datatype Reply<R> = Failed | Returned(value: R) | Waiting(id: nat)

  /** The cache holds the transform of the parent value it records. */
  ghost predicate Coherent<T, R>(f: T -> R, cache: Cache<T, R>)
  {
    cache.Cached? ==> cache.transformedValue == f(cache.parentValue)
  }

  /** The cache answers for parent value `p` without calling the transform. */
  predicate Hit<T(==), R>(cache: Cache<T, R>, p: T)
  {
    cache.Cached? && cache.parentValue == p
  }

  /** `memoizedTransform(p)` (src/deriveStore.ts:9-19): a hit returns the
      cached result; a miss calls the transform once and overwrites the
      cache. Either way the cache afterwards records `p`. */
  function Memo<T(==), R>(f: T -> R, cache: Cache<T, R>, p: T): (m: Memoized<T, R>)
    ensures m.cache == Cached(p, m.result)
    ensures m.invoked <==> !Hit(cache, p)
    ensures Hit(cache, p) ==> m.result == cache.transformedValue && m.cache == cache
  {
    if Hit(cache, p) then Memoized(cache.transformedValue, cache, false)
    else
      var r := f(p);
      Memoized(r, Cached(p, r), true)
  }

  /** The condition the view hands to the parent's `wait`
      (src/deriveStore.ts:30-32): the caller's condition on the transformed
      parent value. */
  function Lifted<T, R>(f: T -> R, condition: R -> bool): T -> bool
  {
    p => condition(f(p))
  }

  /** The memo is transparent: with a coherent cache it returns exactly the
      transform of its argument and leaves a coherent cache. */
  lemma MemoIsTransform<T, R>(f: T -> R, cache: Cache<T, R>, p: T)
    requires Coherent(f, cache)
    ensures Memo(f, cache, p).result == f(p)
    ensures Coherent(f, Memo(f, cache, p).cache)
  {
  }

  /** A sequence of reads through the memo, one per parent value in `ps`:
      the values returned, the final cache and how many times the transform
      was called. */
  datatype Reads<T, R> = Reads(results: seq<R>, cache: Cache<T, R>, invocations: nat)

  function ReadAll<T(==), R>(f: T -> R, cache: Cache<T, R>, ps: seq<T>): (out: Reads<T, R>)
    decreases |ps|
  {
    if ps == [] then Reads([], cache, 0)
    else
      var m := Memo(f, cache, ps[0]);
      var rest := ReadAll(f, m.cache, ps[1..]);
      Reads([m.result] + rest.results, rest.cache, rest.invocations + (if m.invoked then 1 else 0))
  }

  /** Every read returns the transform of the parent value it was made at. */
  lemma {:induction false} ReadsAreTransforms<T, R>(f: T -> R, cache: Cache<T, R>, ps: seq<T>)
    requires Coherent(f, cache)
    ensures var out := ReadAll(f, cache, ps);
      |out.results| == |ps| && Coherent(f, out.cache)
      && forall i :: 0 <= i < |ps| ==> out.results[i] == f(ps[i])
    decreases |ps|
  {
    if ps != [] {
      var m := Memo(f, cache, ps[0]);
      ReadsAreTransforms(f, m.cache, ps[1..]);
      var rest := ReadAll(f, m.cache, ps[1..]);
      var out := ReadAll(f, cache, ps);
      assert out.results == [m.result] + rest.results;
      forall i | 0 <= i < |ps|
        ensures out.results[i] == f(ps[i])
      {
        if i > 0 {
          assert out.results[i] == rest.results[i - 1];
          assert ps[i] == ps[1..][i - 1];
        }
      }
    }
  }

  /** Reads while the parent value stays `p` never call the transform once
      the cache records `p`. */
  lemma {:induction false} HitsStayHits<T, R>(f: T -> R, cache: Cache<T, R>, p: T, ps: seq<T>)
    requires Hit(cache, p)
    requires forall i :: 0 <= i < |ps| ==> ps[i] == p
    ensures ReadAll(f, cache, ps).invocations == 0
    ensures ReadAll(f, cache, ps).cache == cache
    decreases |ps|
  {
    if ps != [] {
      assert ps[0] == p;
      HitsStayHits(f, cache, p, ps[1..]);
    }
  }

  /** Repeated reads of the view while the parent value is unchanged call the
      transform at most once in total, and not at all when the cache already
      records that parent value (src/deriveStore.ts:10-16, 22-24). */
  lemma RepeatedReadsInvokeAtMostOnce<T, R>(f: T -> R, cache: Cache<T, R>, p: T, ps: seq<T>)
    requires forall i :: 0 <= i < |ps| ==> ps[i] == p
    ensures ReadAll(f, cache, ps).invocations <= 1
    ensures Hit(cache, p) ==> ReadAll(f, cache, ps).invocations == 0
  {
    if ps != [] {
      var m := Memo(f, cache, ps[0]);
      assert ps[0] == p;
      HitsStayHits(f, m.cache, p, ps[1..]);
    }
  }

  /** Waiting on the view when the transformed current parent value already
      satisfies the condition answers with that transformed value, which
      satisfies the condition; the parent registers nothing
      (src/deriveStore.ts:30-34, src/Store.ts:41-43). */
  lemma ViewWaitAlreadySatisfied<T, R>(s: StoreState<T>, f: T -> R, condition: R -> bool)
    requires condition(f(s.value))
    ensures WaitSpec(s, false, Lifted(f, condition)) == Waited(s, ResolvedNow(s.value))
  {
  }

  /** A parent waiter registered for the view resolves only with a parent
      value whose transform satisfies the view's condition, so the value the
      view's `wait` finally returns satisfies it (src/deriveStore.ts:30-34). */
  lemma ViewWaiterResolvesSatisfying<T, R>(s: StoreState<T>, f: T -> R, condition: R -> bool, id: nat)
    requires ValidState(s)
    requires id in s.waiters && s.waiters[id].condition == Lifted(f, condition)
    requires s.waiters[id].outcome.Resolved?
    ensures condition(f(s.waiters[id].outcome.value))
    ensures s.waiters[id].outcome.value in s.history
  {
    var pv := s.waiters[id].outcome.value;
    assert Lifted(f, condition)(pv);
  }

  // ---------------------------------------------------------------------
  // The view as the source has it: a closure over `cache`

  class DerivedStore<T(==), R> {
    const parent: Store<T>
    const transform: T -> R
    var cache: Cache<T, R>
    /** How many times the view has called `transform`. */
    ghost var invocations: nat

    ghost predicate Valid()
      reads this, parent
    {
      parent.Valid() && Coherent(transform, cache)
    }

    /** `deriveStore(parentStore, transform)` (src/deriveStore.ts:3-7). */
    constructor (parentStore: Store<T>, f: T -> R)
      requires parentStore.Valid()
      ensures Valid()
      ensures parent == parentStore && transform == f
      ensures cache == Empty && invocations == 0
    {
      parent := parentStore;
      transform := f;
      cache := Empty;
      invocations := 0;
    }

    /** `memoizedTransform(p)` (src/deriveStore.ts:9-19). */
    method MemoizedTransform(p: T) returns (r: R)
      requires Coherent(transform, cache)
      modifies this`cache, this`invocations
      ensures var m := Memo(transform, old(cache), p);
        r == m.result && cache == m.cache
        && invocations == old(invocations) + (if m.invoked then 1 else 0)
      ensures r == transform(p) && Coherent(transform, cache)
    {
      if cache.Cached? && cache.parentValue == p {
        return cache.transformedValue;
      }
      r := transform(p);
      invocations := invocations + 1;
      cache := Cached(p, r);
    }

    /** The getter of `value` (src/deriveStore.ts:22-24): the transform of
        the parent's current value, through the cache. The parent is left as
        it was. */
    method Get() returns (r: R)
      requires Valid()
      modifies this`cache, this`invocations
      ensures Valid()
      ensures r == transform(parent.value)
      ensures cache == Cached(parent.value, r)
      ensures invocations == old(invocations) + (if Hit(old(cache), parent.value) then 0 else 1)
    {
      var p := parent.Get();
      r := MemoizedTransform(p);
    }

    /** `wait(signal, condition)` on the view up to the point where it
        suspends or answers (src/deriveStore.ts:26-35). The parent's `wait`
        first evaluates the lifted condition on its current value, which
        goes through the cache, unless the signal is already aborted. When it
        resolves at once, the view transforms that same value again, which
        is then a cache hit: the call invokes the transform at most once. */
    method Wait(aborted: bool, condition: R -> bool) returns (r: Reply<R>)
      requires Valid()
      modifies this`cache, this`invocations, parent
      ensures Valid()
      ensures var w := WaitSpec(old(parent.State()), aborted, Lifted(transform, condition));
        && parent.State() == w.state
        && match w.result
           case AbortError => r == Failed
           case ResolvedNow(pv) => r == Returned(transform(pv)) && condition(r.value)
           case Registered(id) => r == Waiting(id)
      ensures parent.value == old(parent.value) && parent.calls == old(parent.calls)
      ensures aborted ==> cache == old(cache) && invocations == old(invocations)
      ensures !aborted ==>
        cache == Cached(parent.value, transform(parent.value))
        && invocations == old(invocations) + (if Hit(old(cache), parent.value) then 0 else 1)
    {
      if !aborted {
        var current := parent.Get();
        var _ := MemoizedTransform(current);
      }
      var outcome := parent.Wait(aborted, Lifted(transform, condition));
      match outcome
      case AbortError =>
        r := Failed;
      case ResolvedNow(pv) =>
        var v := MemoizedTransform(pv);
        r := Returned(v);
      case Registered(id) =>
        r := Waiting(id);
    }

    /** The rest of a suspended `wait` on the view, once the parent's waiter
        `id` that it registered with `condition` has settled
        (src/deriveStore.ts:30-34): a parent value resolves the view's wait
        with its transform, through the cache, and that transform satisfies
        the condition; an abort rejects the view's wait too. */
    method Resume(id: nat, condition: R -> bool) returns (r: Outcome<R>)
      requires Valid()
      requires id in parent.waiters && parent.waiters[id].condition == Lifted(transform, condition)
      modifies this`cache, this`invocations
      ensures Valid()
      ensures match parent.waiters[id].outcome
        case Pending => r == Pending && cache == old(cache) && invocations == old(invocations)
        case Aborted => r == Aborted && cache == old(cache) && invocations == old(invocations)
        case Resolved(pv) =>
          && r == Resolved(transform(pv)) && condition(r.value)
          && cache == Cached(pv, r.value)
          && invocations == old(invocations) + (if Hit(old(cache), pv) then 0 else 1)
    {
      match parent.waiters[id].outcome
      case Pending =>
        r := Pending;
      case Aborted =>
        r := Aborted;
      case Resolved(pv) =>
        ViewWaiterResolvesSatisfying(parent.State(), transform, condition, id);
        var v := MemoizedTransform(pv);
        r := Resolved(v);
    }
  }
}

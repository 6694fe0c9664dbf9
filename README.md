# abort-controller-x-reactive-store in Dafny

A model of the reactive-value primitive of `abort-controller-x-reactive-store`,
with proofs about it. The package has three pieces.

- **`Store`** is a mutable observable cell. It keeps a current value and an
  insertion-ordered set of listeners.
  - Its setter ignores a write of the current value. Any other write stores
    the value and calls every listener once, in insertion order.
  - `wait(signal, condition)` fails at once when the signal is already
    aborted. It resolves at once when the condition already holds.
    Otherwise it registers a listener. That listener resolves the promise and
    removes itself on the first change that satisfies the condition. The
    signal's abort cleanup also removes it.
- **`deriveStore`** is a read-only view of a parent cell through a
  transform. It has a single-slot memo cache, shared by its `value` getter
  and its `wait`.
- **`watchStore`** is an async generator. It yields the cell's value, then
  loops for ever: it waits for a value different from the last one yielded,
  yields it and remembers it.

Files and modules:

- `store.dfy`, module `ReactiveStore`, models `src/Store.ts`.
  - The class `Store` has the closure's variables as fields. The listener
    registry is a `seq` of waiter ids in insertion order. A map holds each
    waiter's condition and the outcome of its promise: `Pending`,
    `Resolved(v)` or `Aborted`.
  - Each method is proved against a pure function of the cell's state:
    `SetSpec`, `WaitSpec` or `AbortSpec`. The setter's `for...of` loop is a
    `while` loop with invariants.
  - The invariant `ValidState` is proved preserved by every operation.
  - Ghost fields record every value the cell has held (`history`) and
    every listener call (`calls`).
- `derive_store.dfy`, module `DeriveStore`, models `src/deriveStore.ts`.
  - The class `DerivedStore` has the `cache` variable as a field and a ghost
    counter of `transform` calls.
  - Its methods are proved against the pure memo function `Memo`.
- `watch_store.dfy`, module `WatchStore`, models `src/watchStore.ts`.
  - The generator is a step machine. The class `Watcher` records where the
    body is suspended and its `lastValue`, plus a ghost trace of the values
    it has yielded.
  - Each `next` call is proved against the pure function `WatchNext`.
  - The invariant `WatchInv` ties the generator to its cell. It is
    preserved by the generator's steps and by anything else that happens to
    the cell.

The abort signal is modelled as two things:

- a flag saying whether the signal is already aborted when `wait` is called;
- an `Abort(id)` operation that runs the abort cleanup of the waiter `id`.

## Model

| member | source | states |
|---|---|---|
| ReactiveStore.Store.constructor | src/Store.ts:14-17 | a new cell holds the initial value, has no listeners and has made no listener calls |
| ReactiveStore.Store.Get | src/Store.ts:20-22 | reading returns the current value, which is the last value the cell took, and changes nothing |
| ReactiveStore.Store.Set | src/Store.ts:23-33 | the new state is `SetSpec` of the old one and the invariant is kept; a write of the current value calls no listener; any other write calls each listener registered at that moment, in insertion order, with the new value |
| ReactiveStore.Store.NotifyListeners | src/Store.ts:30-32 | the loop leaves in the registry exactly the listeners whose condition fails on the new value, resolves the waiters of the others with it, and logs one call per listener registered at the start, in order |
| ReactiveStore.Store.NotifyNext | src/Store.ts:30-32 | one turn of the loop calls the next listener of the snapshot and keeps the loop invariant |
| ReactiveStore.Store.CallListener | src/Store.ts:46-51 | a listener called with a value that satisfies its condition resolves its waiter with that value and deletes only itself from the registry; otherwise it changes nothing but the call log |
| ReactiveStore.Store.Wait | src/Store.ts:35-59 | the new state and the result are `WaitSpec` of the old state, and the invariant is kept |
| ReactiveStore.Store.Abort | src/Store.ts:55-57 | the new state is `AbortSpec` of the old one, and the invariant is kept |
| ReactiveStore.Step | src/Store.ts:23-59 | any write, `wait` call or abort keeps the cell's invariant |
| ReactiveStore.Run | src/Store.ts:23-59 | any sequence of writes, `wait` calls and aborts keeps the cell's invariant |
| ReactiveStore.InvocationsCallEachInOrder | src/Store.ts:30-32 | the call log of a notification has exactly one call per listener, the i-th call going to the i-th listener with the new value |
| ReactiveStore.FilterMembers | src/Store.ts:49 | deleting from the registry keeps exactly the ids that satisfy the filter |
| ReactiveStore.FilterDistinct | src/Store.ts:17 | deleting from the registry keeps it free of duplicates, as a `Set` is |
| ReactiveStore.SetSameValueIsNoop | src/Store.ts:24-26 | writing the current value leaves the whole state unchanged |
| ReactiveStore.SetPreservesValid | src/Store.ts:23-33 | a write keeps the invariant: a waiter is pending exactly when its listener is registered, and a resolved waiter holds a value that satisfies its condition and that the cell held |
| ReactiveStore.WaitPreservesValid | src/Store.ts:35-59 | `wait` keeps the invariant |
| ReactiveStore.AbortPreservesValid | src/Store.ts:55-57 | the abort cleanup keeps the invariant |
| ReactiveStore.WaitOnAbortedSignal | src/Store.ts:39 | `wait` on an already aborted signal fails and changes nothing, even when the condition holds |
| ReactiveStore.WaitAlreadySatisfied | src/Store.ts:41-43 | `wait` whose condition holds on the current value resolves with that value and registers nothing |
| ReactiveStore.WaitRegistersOneListener | src/Store.ts:45-53 | otherwise `wait` appends one fresh listener, whose waiter is pending, and changes nothing else |
| ReactiveStore.WriteSettlesEachWaiterByItsOwnCondition | src/Store.ts:46-51 | a write of a new value resolves a pending waiter with that value and unregisters it exactly when its own condition holds of the value; otherwise the waiter stays pending and registered |
| ReactiveStore.WriteLeavesSettledWaiters | src/Store.ts:30-32 | a write leaves every waiter that is no longer pending untouched |
| ReactiveStore.AbortRemovesOnlyItsListener | src/Store.ts:55-57 | aborting a pending waiter rejects it and deletes its listener, and keeps every other listener, every other waiter and the value |
| ReactiveStore.SettledWaiterStaysSettled | src/Store.ts:46-57 | after any sequence of events, a resolved or aborted waiter keeps its outcome and its listener stays unregistered, so no later write resolves an aborted waiter |
| ReactiveStore.StepSettlesOnlyByWriteOrAbort | src/Store.ts:46-57 | a pending waiter leaves the pending state only by a write of a new value that satisfies its condition, resolving with that value, or by its own abort |
| ReactiveStore.StepKeepsHistoryAndConditions | src/Store.ts:23-59 | no event makes the cell forget a value it held or a waiter it registered, and no waiter's condition changes |
| DeriveStore.Memo | src/deriveStore.ts:9-19 | after `memoizedTransform(p)` the cache records `p` with the result; the transform is called exactly when the cache misses; a hit returns the cached result and keeps the cache |
| DeriveStore.MemoIsTransform | src/deriveStore.ts:9-19 | with a coherent cache the memo returns exactly `transform(p)` and leaves a coherent cache |
| DeriveStore.ReadsAreTransforms | src/deriveStore.ts:22-24 | a sequence of reads through the memo returns, at each read, the transform of the parent value at that read |
| DeriveStore.HitsStayHits | src/deriveStore.ts:10-12 | while the parent value stays the one the cache records, reads never call the transform and keep the cache |
| DeriveStore.RepeatedReadsInvokeAtMostOnce | src/deriveStore.ts:10-16 | repeated reads while the parent value is unchanged call the transform at most once, and not at all when the cache already records that value |
| DeriveStore.ViewWaitAlreadySatisfied | src/deriveStore.ts:30-34 | when the transform of the parent's current value satisfies the condition, the parent's `wait` resolves at once with that parent value and registers nothing |
| DeriveStore.ViewWaiterResolvesSatisfying | src/deriveStore.ts:30-34 | a parent waiter registered for the view resolves only with a value the parent held whose transform satisfies the view's condition |
| DeriveStore.DerivedStore.constructor | src/deriveStore.ts:3-7 | a new view has an empty cache and has not called the transform |
| DeriveStore.DerivedStore.MemoizedTransform | src/deriveStore.ts:9-19 | the result, the new cache and the call count follow `Memo`; the result is `transform(p)` and the cache stays coherent |
| DeriveStore.DerivedStore.Get | src/deriveStore.ts:22-24 | reading the view returns the transform of the parent's value, leaves that pair in the cache and calls the transform only on a miss; the parent is not written |
| DeriveStore.DerivedStore.Wait | src/deriveStore.ts:26-35 | the parent goes through `wait` with the lifted condition; an abort fails the view's wait; an immediate resolution returns the transform of that parent value, which satisfies the condition; the call invokes the transform at most once and never writes the parent's value |
| DeriveStore.DerivedStore.Resume | src/deriveStore.ts:30-34 | once the parent's waiter resolves with `pv`, the view's wait returns `transform(pv)`, which satisfies the condition, through the shared cache, calling the transform only when the cache misses `pv`; an abort of the parent's waiter rejects it; a pending one leaves it waiting |
| WatchStore.FirstYieldIsCurrentValue | src/watchStore.ts:7-9 | the first `next` yields the cell's current value and starts the trace with it |
| WatchStore.LaterYieldsDiffer | src/watchStore.ts:11-16 | every later yield differs from the value yielded just before it, is a value the cell held, and is appended to the trace; a step that yields nothing leaves the trace unchanged |
| WatchStore.ResumeWaitsForChangeFromLastYield | src/watchStore.ts:12-16 | resuming after the loop's `yield` compares with the value just yielded, so `lastValue` has become that value: if the cell now holds another value, that value is yielded at once, even when it equals an earlier yield; otherwise a waiter for a value other than the one just yielded is registered and the generator suspends |
| WatchStore.EndsOnlyByAbort | src/watchStore.ts:11-17 | a step throws exactly when the signal is aborted at a `wait` or the awaited waiter is aborted, and reports done exactly when the generator has already thrown: the sequence never ends on its own |
| WatchStore.NoRepeatsSnoc | src/watchStore.ts:14 | appending a value different from the last one keeps the trace free of back-to-back repeats |
| WatchStore.WatchNextPreservesInv | src/watchStore.ts:7-17 | every `next` keeps the cell's invariant and the generator's: no back-to-back repeats, only values the cell held, and a pending wait is the cell's waiter for a value other than the last yield |
| WatchStore.AwaitChangePreservesInv | src/watchStore.ts:11-14 | the loop's `wait` keeps both invariants whichever way it goes |
| WatchStore.StoreStepPreservesWatchInv | src/watchStore.ts:12 | writes, other `wait` calls and aborts on the cell keep the generator's invariant |
| WatchStore.Play | src/watchStore.ts:7-17 | any interleaving of cell events and `next` calls keeps both invariants |
| WatchStore.PlayKeepsYields | src/watchStore.ts:7-17 | under any interleaving of cell events and `next` calls, the yielded values only grow, never repeat back to back, and were all held by the cell |
| WatchStore.Watcher.constructor | src/watchStore.ts:3-6 | a new generator has not started and has yielded nothing |
| WatchStore.Watcher.Next | src/watchStore.ts:7-17 | one `next` call moves the cell and the generator as `WatchNext` says, keeps both invariants and calls no listener |
| WatchStore.Watcher.Await | src/watchStore.ts:11-14 | the loop's `wait` moves the cell and the generator as `AwaitChange` says |

## Left out

- `execute` and `throwIfAborted` from `abort-controller-x`, and the `AbortSignal` listener plumbing, are not part of this model. Abort is a flag read when `wait` is called plus the `Abort(id)` operation that runs the cleanup of `src/Store.ts:55-57`. An abort of a waiter that has already settled does nothing.
- Promise and microtask scheduling, and async-generator suspension, are not modelled. A promise's settlement is the outcome recorded for its waiter. A pending `next` is the `Suspended` result, and a later `next` call observes the outcome.
- The TypeScript overloads and the type guard `value is S` are static typing only.
- A condition or transform that throws during the setter's loop is not modelled. The source does not handle it.
- Writes made from inside a condition are not modelled, and neither are listeners added while the setter's loop runs. The loop iterates over the registry as it was when the write began. The only change made during the loop is a listener deleting itself, which a JavaScript `Set` iteration tolerates with the same result.
- JavaScript `===` corner cases (`NaN`, `+0`/`-0`, object identity) are not modelled. Equality is Dafny equality on `T`.
- Listeners other than those registered by `wait` are not modelled. The registry is private to the closure, so `wait` is the only way to add one.
- DeriveStore.Lifted: the condition handed to the parent is the pure `p => condition(transform(p))`. In the source it calls `memoizedTransform`, so the parent's setter refreshes the view's cache while it notifies. Those refreshes are not reflected in the model's `cache` or in its count of transform calls. Values returned are the same either way, because the cache always holds the transform of the value it records. The first evaluation inside the parent's `wait` is modelled, in `DeriveStore.DerivedStore.Wait`.
- WatchStore.Watcher.Next: the generator's `return` and `throw` methods, and a consumer's `for await` loop, are not modelled. Only `next` calls are.
- DeriveStore.DerivedStore, WatchStore.Watcher: the source accepts any read-only store as the parent of a view or as the cell to watch, including another derived view. Here the parent and the watched cell are always a `Store`, so a view of a view and watching a view are not modelled.
- ReactiveStore.Store: `history` and `calls` are ghost bookkeeping of the model. The source keeps neither.

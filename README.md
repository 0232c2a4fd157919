# A Dafny model of the watcher hook and state-update rules of umi4-react18-playground

The repository is a React teaching app. Two parts of it contain logic of its own,
and they are modelled and proved here:

- **`useWatch`** (`src/pages/BasicFunction/hooks/useWatch.tsx`) is a Vue-style
  `watch`. It has three refs: `oldValue`, which starts as `null`;
  `isFirstRender`, which starts `true`; and `isWatch`, which starts `true`. It also
  has one effect that runs on mount and each time the target changes. A run made
  after `unWatch` does nothing. The first watching run calls the callback only
  when `config.immediate` is set (it is off by default). Every later watching run
  calls it. Each watching run then stores the target as the old value. `unWatch`
  clears `isWatch`, and nothing sets it again.
  `use_watch.dfy` describes one run as the pure function `Effect` and a series of
  runs and `unWatch` calls as `Replay`. The class `Watcher` holds the refs as
  fields. Its methods `Run` and `UnWatch` are proved to follow `Effect` and
  `StopWatching`. Its invariant `Valid` ties the fields and the ghost log of
  callback calls to `Replay` of the whole event history since mount.
- **The counter demo's state updates** (`src/pages/BasicFunction/components/FunctionHooks.tsx`).
  These are the `useReducer` reducer (`add`, `sub`, `reset`, and anything else
  leaves the state alone), the two `c => c + 1` updaters queued by
  `changeDoubleState`, and the `{ ...val, a: 11 }` updater of `changeReactive`.
  `function_hooks.dfy` models them as functions. `ApplyUpdaters` folds queued
  updaters in order, and `ReduceAll` folds dispatched actions in order.

The callback of `useWatch` is declared as `(prev, next)`, but it receives the new
value first and the old value second. The doc comment says the same, and the
caller in `FunctionHooksCustom.tsx` relies on it. The model calls the two fields
of `Call` `newValue` and `oldValue`.

The hook does not compare the old value with the new one itself. The comparison
is React's, through the effect's dependency array. So every watching run after
the first calls the callback, whatever the target is. In the model, `Run` may be
called with any target.

The initial values are the constants `UseWatch.DefaultImmediate` (`immediate`
off), `FunctionHooks.InitialCount` (the reducer's 0) and
`FunctionHooks.InitialReactive` (`{ a: 1, b: 2, c: 3 }`). The Watcher
constructor, `DemoButtons` and `ChangeReactiveFromInitial` use them.

## Model

| member | source | states |
|---|---|---|
| `UseWatch.Mounted` | src/pages/BasicFunction/hooks/useWatch.tsx:16-18 | at mount the old value is `null` (`None`), the first render is pending and the hook is watching; this state is consistent (a value is remembered exactly when the first render is over) |
| `UseWatch.Effect` | src/pages/BasicFunction/hooks/useWatch.tsx:20-33 | an unwatched run calls nothing and changes no cell; a watching run remembers the target, ends the first render and keeps watching; the first run calls nothing unless `immediate`, and with `immediate` calls once with `(target, null)`; a later run calls exactly once with `(target, remembered value)`; consistency is preserved |
| `UseWatch.StopWatching` | src/pages/BasicFunction/hooks/useWatch.tsx:37-39 | `unWatch` turns watching off and leaves the old value and the first-render flag as they were |
| `UseWatch.Apply` | src/pages/BasicFunction/hooks/useWatch.tsx:20-39 | one effect run or one `unWatch` call: it invokes the callback at most once, and only with the target it was run for; `unWatch` calls nothing and leaves watching off; nothing turns watching back on; consistency is preserved |
| `UseWatch.Replay` | src/pages/BasicFunction/hooks/useWatch.tsx:20-39 | a series of effect runs and `unWatch` calls, in order: no events change nothing; there is at most one callback invocation per event, and every invocation's new value is a target that some run was made for |
| `UseWatch.UnWatchDuringCallback` | src/pages/BasicFunction/hooks/useWatch.tsx:24-38 | a callback that calls `unWatch` during a watching run: the run still makes its call and stores the target (line 33), and watching is then off — the outcome of that run followed by `unWatch` |
| `UseWatch.ReplayConcat` | src/pages/BasicFunction/hooks/useWatch.tsx:20-39 | events take effect in order: replaying `es + fs` is replaying `fs` from where `es` left off, with the calls concatenated |
| `UseWatch.ReplayKeepsConsistent` | src/pages/BasicFunction/hooks/useWatch.tsx:16-33 | no sequence of runs and `unWatch` calls breaks "old value remembered iff first render over" |
| `UseWatch.UnwatchedIsInert` | src/pages/BasicFunction/hooks/useWatch.tsx:21 | once watching is off, any sequence of events makes no call and changes no cell |
| `UseWatch.CancelIsFinal` | src/pages/BasicFunction/hooks/useWatch.tsx:21-39 | `unWatch` cannot be undone: whatever follows it, no further call is made and the cells stay as `unWatch` left them |
| `UseWatch.CancelIsIdempotent` | src/pages/BasicFunction/hooks/useWatch.tsx:37-39 | calling `unWatch` twice has the same outcome as calling it once |
| `UseWatch.FirstRenderEndsOnce` | src/pages/BasicFunction/hooks/useWatch.tsx:17-24 | `isFirstRender` only goes from true to false: once false it stays false across any events |
| `UseWatch.RendersReportSuccessiveValues` | src/pages/BasicFunction/hooks/useWatch.tsx:20-34 | from mount, runs for targets `t0 … tn` without `unWatch` call back with `(t0, null)` (only if `immediate`) and then `(ti, ti-1)` for every later target, in order; afterwards the old value is the last target |
| `UseWatch.Watcher.Valid` | src/pages/BasicFunction/hooks/useWatch.tsx:16-39 | the invariant: the fields and the ghost call log are what replaying the event history from mount gives; so the cells are consistent, the log has at most one entry per event, and every logged new value is a target that was run |
| `UseWatch.Watcher.constructor` | src/pages/BasicFunction/hooks/useWatch.tsx:11-18 | mounting gives the initial refs, an empty call log and an empty history, and the invariant holds; `immediate` defaults to off, as the default `config` does (line 14) |
| `UseWatch.Watcher.Run` | src/pages/BasicFunction/hooks/useWatch.tsx:20-34 | one effect run updates the refs exactly as `Effect` says and appends its calls to the log; the invariant (fields and log equal the replay of the history) is kept |
| `UseWatch.Watcher.UnWatch` | src/pages/BasicFunction/hooks/useWatch.tsx:37-39 | clears `isWatch` only, leaves the log, records the event and keeps the invariant |
| `FunctionHooks.ActionOf` | src/pages/BasicFunction/components/FunctionHooks.tsx:71-81 | the `switch` on `name`: `'add'`, `'sub'` and `'reset'` (with the payload) are recognised, each exactly for its name; a missing or any other name is `Other` |
| `FunctionHooks.Reduce` | src/pages/BasicFunction/components/FunctionHooks.tsx:70-82 | `add` gives state + 1, `sub` state - 1, `reset` the payload, anything else the state unchanged |
| `FunctionHooks.AddSubCancel` | src/pages/BasicFunction/components/FunctionHooks.tsx:74-77 | `add` followed by `sub`, or `sub` followed by `add`, gives back the original state |
| `FunctionHooks.ResetIsIdempotent` | src/pages/BasicFunction/components/FunctionHooks.tsx:78-79 | `reset` gives the payload whatever the state, so applying it twice equals applying it once |
| `FunctionHooks.UnknownNameKeepsState` | src/pages/BasicFunction/components/FunctionHooks.tsx:73-81 | a dispatch with no name or an unknown name, such as `{}`, returns the state unchanged |
| `FunctionHooks.ReduceAll` | src/pages/BasicFunction/components/FunctionHooks.tsx:70-82 | the dispatches, in order: none leave the counter alone; after a final `reset` the counter is its payload; without resets each dispatch moves it by at most one |
| `FunctionHooks.DemoButtons` | src/pages/BasicFunction/components/FunctionHooks.tsx:82-101 | from the initial 0, the buttons `add`, `add`, `sub` and `{}` give 1, and `add` then `reset` with 666 gives 666 |
| `FunctionHooks.ReduceAllConcat` | src/pages/BasicFunction/components/FunctionHooks.tsx:70-82 | dispatching `xs` and then `ys` equals dispatching `xs + ys` |
| `FunctionHooks.ReduceAllWithoutReset` | src/pages/BasicFunction/components/FunctionHooks.tsx:70-94 | with no `reset`, the counter ends at start + number of `add`s - number of `sub`s |
| `FunctionHooks.ResetForgetsHistory` | src/pages/BasicFunction/components/FunctionHooks.tsx:78-82 | after a `reset`, the counter depends only on the payload and what is dispatched later |
| `FunctionHooks.ApplyUpdaters` | src/pages/BasicFunction/components/FunctionHooks.tsx:31-32 | queued functional updaters, in order: an empty queue leaves the state alone, and a single updater is handed the current state |
| `FunctionHooks.Increment` | src/pages/BasicFunction/components/FunctionHooks.tsx:31-32 | the updater `c => c + 1` moves the count exactly as dispatching `add` to the reducer does |
| `FunctionHooks.DoubleStateUpdaters` | src/pages/BasicFunction/components/FunctionHooks.tsx:28-32 | `changeDoubleState` queues the same updater `c => c + 1` twice |
| `FunctionHooks.SetTo` | src/pages/BasicFunction/components/FunctionHooks.tsx:29-30 | a plain `setCount(v)` acts as an updater that ignores the state it is handed and gives `v` |
| `FunctionHooks.ApplyUpdatersConcat` | src/pages/BasicFunction/components/FunctionHooks.tsx:31-32 | queued updaters compose in order: `fs + gs` applies `gs` to the result of `fs` |
| `FunctionHooks.IncrementsAddUp` | src/pages/BasicFunction/components/FunctionHooks.tsx:31-32 | queuing `c => c + 1` n times raises the count by n |
| `FunctionHooks.ChangeDoubleStateAddsTwo` | src/pages/BasicFunction/components/FunctionHooks.tsx:28-32 | `changeDoubleState` takes the count to count + 2 |
| `FunctionHooks.StaleValueSetsApplyOnce` | src/pages/BasicFunction/components/FunctionHooks.tsx:28-31 | the commented-out `setCount(count + 1)` twice, both reading the render's stale `count`, raises the count by one only |
| `FunctionHooks.ChangeReactive` | src/pages/BasicFunction/components/FunctionHooks.tsx:42-47 | `changeReactive` makes `a` 11 and copies `b` and `c` |
| `FunctionHooks.ChangeReactiveIsIdempotent` | src/pages/BasicFunction/components/FunctionHooks.tsx:43-46 | applying the `changeReactive` updater twice equals applying it once |
| `FunctionHooks.RepeatedChangeReactive` | src/pages/BasicFunction/components/FunctionHooks.tsx:42-47 | any positive number of queued `changeReactive` updaters gives the result of one |
| `FunctionHooks.ChangeReactiveFromInitial` | src/pages/BasicFunction/components/FunctionHooks.tsx:37-47 | an example from the demo page: from the initial `{ a: 1, b: 2, c: 3 }`, one click gives `{ a: 11, b: 2, c: 3 }` |

## Left out

- React's effect scheduling and the dependency comparison of `[target]` are not modelled. `Run` stands for one effect run and may be called with any target. React Strict Mode's extra mount-time effect run is part of that scheduling.
- The callback's own side effects (for example `setWatchResult` in `FunctionHooksCustom.tsx`) are not modelled; the model only records each call in a ghost log. A callback that calls `unWatch` during a run is covered: its outcome is that of the run followed by `unWatch` (see `UseWatch.UnWatchDuringCallback`).
- A callback that throws is not modelled. By then line 24 has already cleared `isFirstRender`, and line 33 is skipped, so `oldValue` keeps its earlier value. React then unmounts the component, so nothing observable is lost.
- A configuration that changes between renders is not modelled: `immediate` is fixed when the watcher is built. Only the first watching run reads `config.immediate`, and that run is the mount-time one, so nothing observable is lost.
- The initial `null` of `oldValue` is `None`. A target that is itself `null` is `Some(null)` in the model, but JavaScript cannot tell it apart from the initial value.
- `FunctionHooks.Reduce`: the state is an unbounded `int`. JavaScript numbers are doubles and lose precision beyond 2^53. A `reset` dispatched without a payload would make the state `undefined`; the demo never does this, and the model does not cover it. Non-numeric states are not covered either.
- `useState` and `useReducer` scheduling, batching and re-rendering are React's. `ApplyUpdaters` and `ReduceAll` fold the queued updates in order and go no further.
- The lazy initialiser `calcVal` (`count + '(计算版)'`), `useMemo`, `useCallback`, `React.memo`, `useContext`, every piece of JSX and every `console.log`/`alert` are rendering or framework calls.
- `src/pages/BasicFunction/index.tsx` repeats `changeDoubleState` and `changeReactive` unchanged, so the model covers those copies too. The rest of that file, the class components, routing, clipboard access and context providers are framework consumers and are not part of this model.

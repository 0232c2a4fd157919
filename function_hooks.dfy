/**
 * The state-update rules of the hooks demo page
 * (src/pages/BasicFunction/components/FunctionHooks.tsx): the counter reducer
 * given to `useReducer`, the functional updaters queued by `changeDoubleState`,
 * and the spread update of `changeReactive`. React applies queued updaters and
 * dispatched actions in order; ApplyUpdaters and ReduceAll stand for that.
 */
module FunctionHooks {
  import opened Wrappers

  // ---------------------------------------------------------------- reducer

  /** The actions the reducer tells apart by their `name`. */
  datatype Action = Add | Sub | Reset(payload: int) | Other

  /** The counter starts at 0. */
  const InitialCount: int := 0

  /** A dispatched `{ name, payload }` object as the reducer's `switch` sees it. */
  function ActionOf(name: Option<string>, payload: int): (a: Action)
    ensures a == Add <==> name == Some("add")
    ensures a == Sub <==> name == Some("sub")
    ensures a.Reset? <==> name == Some("reset")
    ensures a.Reset? ==> a.payload == payload
    ensures a == Other <==> name !in {Some("add"), Some("sub"), Some("reset")}
  {
    if name == Some("add") then Add
    else if name == Some("sub") then Sub
    else if name == Some("reset") then Reset(payload)
    else Other
  }

  /** The reducer: the new counter for one action. */
  function Reduce(state: int, action: Action): (r: int)
    ensures action == Add ==> r == state + 1
    ensures action == Sub ==> r == state - 1
    ensures action.Reset? ==> r == action.payload
    ensures action == Other ==> r == state
  {
    match action
    case Add => state + 1
    case Sub => state - 1
    case Reset(payload) => payload
    case Other => state
  }

  /** `sub` undoes `add`, and `add` undoes `sub`. */
  lemma AddSubCancel(state: int)
    ensures Reduce(Reduce(state, Add), Sub) == state
    ensures Reduce(Reduce(state, Sub), Add) == state
  {
  }

  /** `reset` forgets the state, so resetting twice is resetting once. */
  lemma ResetIsIdempotent(state: int, other: int, payload: int)
    ensures Reduce(state, Reset(payload)) == Reduce(other, Reset(payload))
    ensures Reduce(Reduce(state, Reset(payload)), Reset(payload)) == Reduce(state, Reset(payload))
  {
  }

  /** An object with no name or an unknown one, such as the empty dispatch `{}`, changes nothing. */
  lemma UnknownNameKeepsState(state: int, name: Option<string>, payload: int)
    requires name !in {Some("add"), Some("sub"), Some("reset")}
    ensures Reduce(state, ActionOf(name, payload)) == state
  {
  }

  /** The dispatched actions, in order, starting from `state`. */
  function ReduceAll(state: int, actions: seq<Action>): (r: int)
    // no dispatch leaves the counter alone
    ensures actions == [] ==> r == state
    // after a final `reset` the counter is its payload, whatever came before
    ensures |actions| > 0 && actions[|actions| - 1].Reset? ==> r == actions[|actions| - 1].payload
    // dispatches that are not resets move the counter by at most one each
    ensures (forall i :: 0 <= i < |actions| ==> !actions[i].Reset?) ==> state - |actions| <= r <= state + |actions|
    decreases |actions|
  {
    if actions == [] then state
    else Reduce(ReduceAll(state, actions[..|actions| - 1]), actions[|actions| - 1])
  }

  /** Dispatching `xs` and then `ys` is dispatching `xs + ys`. */
  lemma {:induction false} ReduceAllConcat(state: int, xs: seq<Action>, ys: seq<Action>)
    ensures ReduceAll(state, xs + ys) == ReduceAll(ReduceAll(state, xs), ys)
    decreases |ys|
  {
    if ys == [] {
      assert xs + ys == xs;
    } else {
      var ys', y := ys[..|ys| - 1], ys[|ys| - 1];
      assert ys == ys' + [y];
      assert (xs + ys)[..|xs + ys| - 1] == xs + ys';
      ReduceAllConcat(state, xs, ys');
    }
  }

  /** Without a reset the counter moves by the number of adds minus the number of subs. */
  lemma {:induction false} ReduceAllWithoutReset(state: int, actions: seq<Action>)
    requires forall i :: 0 <= i < |actions| ==> !actions[i].Reset?
    ensures ReduceAll(state, actions) == state + multiset(actions)[Add] - multiset(actions)[Sub]
    decreases |actions|
  {
    if actions != [] {
      var init, last := actions[..|actions| - 1], actions[|actions| - 1];
      assert actions == init + [last];
      ReduceAllWithoutReset(state, init);
      assert multiset(actions) == multiset(init) + multiset{last};
    }
  }

  /**
   * The demo's buttons from the initial 0: `add` twice, `sub`, the empty
   * dispatch `{}`, then `reset` with 666.
   */
  lemma DemoButtons()
    ensures ReduceAll(InitialCount, [ActionOf(Some("add"), 0), ActionOf(Some("add"), 0),
                                     ActionOf(Some("sub"), 0), ActionOf(None, 0)]) == 1
    ensures ReduceAll(InitialCount, [ActionOf(Some("add"), 0), ActionOf(Some("reset"), 666)]) == 666
  {
    var clicks := [ActionOf(Some("add"), 0), ActionOf(Some("add"), 0), ActionOf(Some("sub"), 0), ActionOf(None, 0)];
    assert clicks == [Add, Add, Sub, Other];
    ReduceAllWithoutReset(InitialCount, clicks);
    assert multiset(clicks)[Add] == 2 && multiset(clicks)[Sub] == 1;
  }

  /** A reset makes everything dispatched before it irrelevant. */
  lemma ResetForgetsHistory(state: int, before: seq<Action>, payload: int, after: seq<Action>)
    ensures ReduceAll(state, before + [Reset(payload)] + after) == ReduceAll(payload, after)
  {
    ReduceAllConcat(state, before + [Reset(payload)], after);
    ReduceAllConcat(state, before, [Reset(payload)]);
  }

  // --------------------------------------------------------------- updaters

  /** Functional updaters queued on one state, applied in the order they were queued. */
  function ApplyUpdaters<S>(s: S, updaters: seq<S -> S>): (r: S)
    // an empty queue leaves the state alone
    ensures updaters == [] ==> r == s
    // a single updater is handed the current state
    ensures |updaters| == 1 ==> r == updaters[0](s)
    decreases |updaters|
  {
    if updaters == [] then s
    else updaters[|updaters| - 1](ApplyUpdaters(s, updaters[..|updaters| - 1]))
  }

  /** Queuing `fs` and then `gs` is queuing `fs + gs`. */
  lemma {:induction false} ApplyUpdatersConcat<S>(s: S, fs: seq<S -> S>, gs: seq<S -> S>)
    ensures ApplyUpdaters(s, fs + gs) == ApplyUpdaters(ApplyUpdaters(s, fs), gs)
    decreases |gs|
  {
    if gs == [] {
      assert fs + gs == fs;
    } else {
      assert (fs + gs)[..|fs + gs| - 1] == fs + gs[..|gs| - 1];
      ApplyUpdatersConcat(s, fs, gs[..|gs| - 1]);
    }
  }

  /** The same updater queued `n` times. */
  function Repeat<S>(n: nat, f: S -> S): (fs: seq<S -> S>)
    ensures |fs| == n
    ensures forall i :: 0 <= i < n ==> fs[i] == f
  {
    seq(n, _ => f)
  }

  /** The updater `c => c + 1`. */
  function Increment(c: int): (r: int)
    // the updater moves the count exactly as dispatching `add` does
    ensures r == Reduce(c, Add)
  {
    c + 1
  }

  /** What `changeDoubleState` queues: `c => c + 1`, twice. */
  function DoubleStateUpdaters(): (fs: seq<int -> int>)
    ensures fs == Repeat(2, Increment)
  {
    [Increment, Increment]
  }

  /** Queuing `c => c + 1` n times adds n, since each updater sees its predecessor's result. */
  lemma {:induction false} IncrementsAddUp(count: int, n: nat)
    ensures ApplyUpdaters(count, Repeat(n, Increment)) == count + n
    decreases n
  {
    if n > 0 {
      assert Repeat(n, Increment)[..n - 1] == Repeat(n - 1, Increment);
      IncrementsAddUp(count, n - 1);
    }
  }

  /** `changeDoubleState` adds two to the count. */
  lemma ChangeDoubleStateAddsTwo(count: int)
    ensures ApplyUpdaters(count, DoubleStateUpdaters()) == count + 2
  {
  }

  /** `setCount(v)` with a plain value acts like the updater `_ => v`. */
  function SetTo<S(!new)>(v: S): (f: S -> S)
    // the updater ignores the state it is handed
    ensures forall x :: f(x) == v
  {
    _ => v
  }

  /**
   * The commented-out alternative `setCount(count + 1)` twice reads the
   * render's stale `count` both times, so the count moves by one only.
   */
  lemma StaleValueSetsApplyOnce(count: int)
    ensures ApplyUpdaters(count, [SetTo(count + 1), SetTo(count + 1)]) == count + 1
  {
  }

  // --------------------------------------------------------- reactive state

  /** The `reactive` state object. */
  datatype Reactive = Reactive(a: int, b: int, c: int)

  /** Its initial value `{ a: 1, b: 2, c: 3 }`. */
  const InitialReactive: Reactive := Reactive(1, 2, 3)

  /** The updater `val => ({ ...val, a: 11 })` of `changeReactive`. */
  function ChangeReactive(val: Reactive): (r: Reactive)
    ensures r.a == 11
    ensures r.b == val.b && r.c == val.c
  {
    val.(a := 11)
  }

  lemma ChangeReactiveIsIdempotent(val: Reactive)
    ensures ChangeReactive(ChangeReactive(val)) == ChangeReactive(val)
  {
  }

  /** Clicking "change reactive" any positive number of times gives the result of one click. */
  lemma {:induction false} RepeatedChangeReactive(val: Reactive, n: nat)
    requires n > 0
    ensures ApplyUpdaters(val, Repeat(n, ChangeReactive)) == ChangeReactive(val)
    decreases n
  {
    assert Repeat(n, ChangeReactive)[..n - 1] == Repeat(n - 1, ChangeReactive);
    if n > 1 {
      RepeatedChangeReactive(val, n - 1);
    }
  }

  /** An example from the demo page: from the initial object, one click gives `{ a: 11, b: 2, c: 3 }`. */
  lemma ChangeReactiveFromInitial()
    ensures ApplyUpdaters(InitialReactive, [ChangeReactive]) == Reactive(11, 2, 3)
  {
  }
}

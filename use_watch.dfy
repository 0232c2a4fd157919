/**
 * The `useWatch` hook: a Vue-style `watch` built from three React refs and one
 * effect. The effect runs on mount and whenever the watched target changes;
 * each run may invoke the callback with (new value, old value) and then
 * remembers the target as the old value. The hook hands back `unWatch`, which
 * switches watching off for good.
 *
 * The pure part of this module (Cells, Effect, Replay) says what one run and a
 * sequence of runs do; the class Watcher holds the refs as mutable fields and is
 * proved to follow that specification.
 */
module UseWatch {
  import opened Wrappers

  /** The three ref cells of one hook instance. */
  datatype Cells<T> = Cells(oldValue: Option<T>, isFirstRender: bool, isWatch: bool)

  /** One invocation of the callback: the new value first, the old value second. */
  datatype Call<T> = Call(newValue: T, oldValue: Option<T>)

  /** The cells left behind by some runs, and the callback invocations they made, in order. */
  datatype Reaction<T> = Reaction(cells: Cells<T>, calls: seq<Call<T>>)

  /** What can happen to a mounted hook: an effect run for a target, or a call of `unWatch`. */
  datatype Event<T> = Render(target: T) | Cancel

  /** The default configuration leaves `immediate` off. */
  const DefaultImmediate: bool := false

  /** A value has been remembered exactly when the first watching run is over. */
  predicate Consistent<T>(c: Cells<T>) {
    c.oldValue.Some? <==> !c.isFirstRender
  }

  /** The cells right after mounting: no old value (`null`), first render pending, watching. */
  function Mounted<T>(): (c: Cells<T>)
    ensures c.oldValue == None && c.isFirstRender && c.isWatch
    ensures Consistent(c)
  {
    Cells(None, true, true)
  }

  /** One run of the effect body for `target`. */
  function Effect<T>(c: Cells<T>, immediate: bool, target: T): (r: Reaction<T>)
    // after unWatch a run invokes nothing and changes nothing
    ensures !c.isWatch ==> r == Reaction(c, [])
    // a watching run remembers the target, ends the first render and keeps watching
    ensures c.isWatch ==> r.cells == Cells(Some(target), false, true)
    // the first watching run invokes the callback only when `immediate` is set ...
    ensures c.isWatch && c.isFirstRender && !immediate ==> r.calls == []
    // ... and then with the target and the initial null
    ensures c.isWatch && c.isFirstRender && immediate && Consistent(c) ==> r.calls == [Call(target, None)]
    // every later watching run invokes it once, with the target and the remembered value
    ensures c.isWatch && !c.isFirstRender ==> r.calls == [Call(target, c.oldValue)]
    ensures Consistent(c) ==> Consistent(r.cells)
  {
    if !c.isWatch then
      Reaction(c, [])
    else
      var calls := if c.isFirstRender && !immediate then [] else [Call(target, c.oldValue)];
      Reaction(Cells(Some(target), false, true), calls)
  }

  /** The `unWatch` closure: watching is off, nothing else changes. */
  function StopWatching<T>(c: Cells<T>): (r: Cells<T>)
    ensures !r.isWatch
    ensures r.oldValue == c.oldValue && r.isFirstRender == c.isFirstRender
    ensures Consistent(c) ==> Consistent(r)
  {
    c.(isWatch := false)
  }

  /** What one event does to the cells, with the calls it makes. */
  function Apply<T>(c: Cells<T>, immediate: bool, e: Event<T>): (r: Reaction<T>)
    // an event invokes the callback at most once, and only with a target it was run for
    ensures |r.calls| <= 1
    ensures forall k :: 0 <= k < |r.calls| ==> e == Render(r.calls[k].newValue)
    // `unWatch` calls nothing and leaves watching off
    ensures e == Cancel ==> r.calls == [] && !r.cells.isWatch
    // nothing turns watching back on
    ensures !c.isWatch ==> !r.cells.isWatch
    ensures Consistent(c) ==> Consistent(r.cells)
  {
    match e
    case Render(target) => Effect(c, immediate, target)
    case Cancel => Reaction(StopWatching(c), [])
  }

  /** The events `es`, in order, starting from the cells `c`. */
  function Replay<T>(c: Cells<T>, immediate: bool, es: seq<Event<T>>): (r: Reaction<T>)
    // no event, no change
    ensures es == [] ==> r == Reaction(c, [])
    // at most one callback invocation per event ...
    ensures |r.calls| <= |es|
    // ... and every invocation reports as new value a target some run was made for
    ensures forall k :: 0 <= k < |r.calls| ==> Render(r.calls[k].newValue) in es
    decreases |es|
  {
    if es == [] then
      Reaction(c, [])
    else
      var r := Replay(c, immediate, es[..|es| - 1]);
      var s := Apply(r.cells, immediate, es[|es| - 1]);
      Reaction(s.cells, r.calls + s.calls)
  }

  /** Only effect runs, one per target. */
  function Renders<T>(targets: seq<T>): (es: seq<Event<T>>)
    ensures |es| == |targets|
    ensures forall i :: 0 <= i < |targets| ==> es[i] == Render(targets[i])
  {
    seq(|targets|, i requires 0 <= i < |targets| => Render(targets[i]))
  }

  /** The i-th target with the one before it (`None` for the first). */
  function Successive<T>(targets: seq<T>): (calls: seq<Call<T>>)
  {
    seq(|targets|, i requires 0 <= i < |targets| =>
      Call(targets[i], if i == 0 then None else Some(targets[i - 1])))
  }

  /**
   * What a watcher that is never cancelled should report for a series of
   * targets: every target with its predecessor, except that the mount-time
   * target is reported (with a null old value) only when `immediate` is set.
   */
  function ExpectedCalls<T>(immediate: bool, targets: seq<T>): seq<Call<T>>
  {
    if immediate || targets == [] then Successive(targets) else Successive(targets)[1..]
  }

  lemma ReplayAppend<T>(c: Cells<T>, immediate: bool, es: seq<Event<T>>, e: Event<T>)
    ensures Replay(c, immediate, es + [e])
         == var r := Replay(c, immediate, es);
            var s := Apply(r.cells, immediate, e);
            Reaction(s.cells, r.calls + s.calls)
  {
  }

  /** Running `es` and then `fs` is running `es + fs`. */
  lemma {:induction false} ReplayConcat<T>(c: Cells<T>, immediate: bool, es: seq<Event<T>>, fs: seq<Event<T>>)
    ensures Replay(c, immediate, es + fs)
         == var r := Replay(c, immediate, es);
            var s := Replay(r.cells, immediate, fs);
            Reaction(s.cells, r.calls + s.calls)
    decreases |fs|
  {
    if fs == [] {
      assert es + fs == es;
    } else {
      var fs', f := fs[..|fs| - 1], fs[|fs| - 1];
      assert fs == fs' + [f];
      assert es + fs == (es + fs') + [f];
      ReplayConcat(c, immediate, es, fs');
      ReplayAppend(c, immediate, es + fs', f);
      var r := Replay(c, immediate, es);
      ReplayAppend(r.cells, immediate, fs', f);
    }
  }

  /** Every sequence of events keeps the cells consistent. */
  lemma {:induction false} ReplayKeepsConsistent<T>(c: Cells<T>, immediate: bool, es: seq<Event<T>>)
    requires Consistent(c)
    ensures Consistent(Replay(c, immediate, es).cells)
    decreases |es|
  {
    if es != [] {
      ReplayKeepsConsistent(c, immediate, es[..|es| - 1]);
    }
  }

  /** Once watching is off, no sequence of events invokes the callback or changes a cell. */
  lemma {:induction false} UnwatchedIsInert<T>(c: Cells<T>, immediate: bool, es: seq<Event<T>>)
    requires !c.isWatch
    ensures Replay(c, immediate, es) == Reaction(c, [])
    decreases |es|
  {
    if es != [] {
      UnwatchedIsInert(c, immediate, es[..|es| - 1]);
    }
  }

  /** `unWatch` cannot be undone: whatever follows it, the outcome is that of the events up to it. */
  lemma CancelIsFinal<T>(c: Cells<T>, immediate: bool, es: seq<Event<T>>, fs: seq<Event<T>>)
    ensures Replay(c, immediate, es + [Cancel] + fs)
         == var r := Replay(c, immediate, es);
            Reaction(StopWatching(r.cells), r.calls)
  {
    var r := Replay(c, immediate, es);
    ReplayAppend(c, immediate, es, Cancel);
    ReplayConcat(c, immediate, es + [Cancel], fs);
    UnwatchedIsInert(StopWatching(r.cells), immediate, fs);
  }

  /**
   * A callback that calls `unWatch` while a run is under way: the run still
   * makes its call and stores the target, and watching is then off. This is
   * the outcome of the run followed by `unWatch`.
   */
  lemma UnWatchDuringCallback<T>(c: Cells<T>, immediate: bool, es: seq<Event<T>>, target: T)
    requires Replay(c, immediate, es).cells.isWatch
    ensures Replay(c, immediate, es + [Render(target), Cancel])
         == var r := Replay(c, immediate, es);
            Reaction(Cells(Some(target), false, false), r.calls + Effect(r.cells, immediate, target).calls)
  {
    assert es + [Render(target), Cancel] == (es + [Render(target)]) + [Cancel];
    ReplayAppend(c, immediate, es + [Render(target)], Cancel);
    ReplayAppend(c, immediate, es, Render(target));
  }

  /** Calling `unWatch` twice is the same as calling it once. */
  lemma CancelIsIdempotent<T>(c: Cells<T>, immediate: bool, es: seq<Event<T>>)
    ensures Replay(c, immediate, es + [Cancel, Cancel]) == Replay(c, immediate, es + [Cancel])
  {
    CancelIsFinal(c, immediate, es, [Cancel]);
    CancelIsFinal(c, immediate, es, []);
    assert es + [Cancel] + [Cancel] == es + [Cancel, Cancel];
    assert es + [Cancel] + [] == es + [Cancel];
  }

  /** The first render ends at most once: after it has ended, no event brings it back. */
  lemma {:induction false} FirstRenderEndsOnce<T>(c: Cells<T>, immediate: bool, es: seq<Event<T>>)
    requires !c.isFirstRender
    ensures !Replay(c, immediate, es).cells.isFirstRender
    decreases |es|
  {
    if es != [] {
      FirstRenderEndsOnce(c, immediate, es[..|es| - 1]);
    }
  }

  lemma SuccessiveAppend<T>(targets: seq<T>, t: T)
    ensures Successive(targets + [t])
         == Successive(targets) + [Call(t, if targets == [] then None else Some(targets[|targets| - 1]))]
  {
  }

  /**
   * A watcher that is never cancelled, fed a series of targets from mount,
   * reports exactly ExpectedCalls and ends up remembering the last target.
   */
  lemma {:induction false} RendersReportSuccessiveValues<T>(immediate: bool, targets: seq<T>)
    ensures Replay(Mounted(), immediate, Renders(targets)).calls == ExpectedCalls(immediate, targets)
    ensures Replay(Mounted(), immediate, Renders(targets)).cells
         == if targets == [] then Mounted() else Cells(Some(targets[|targets| - 1]), false, true)
    decreases |targets|
  {
    if targets != [] {
      var ts, t := targets[..|targets| - 1], targets[|targets| - 1];
      assert targets == ts + [t];
      assert Renders(targets) == Renders(ts) + [Render(t)];
      RendersReportSuccessiveValues(immediate, ts);
      ReplayAppend(Mounted(), immediate, Renders(ts), Render(t));
      SuccessiveAppend(ts, t);
      if ts != [] && !immediate {
        assert Successive(targets)[1..] == Successive(ts)[1..] + [Call(t, Some(ts[|ts| - 1]))];
      }
    }
  }

  /**
   * One mounted `useWatch` hook. The fields are the refs' `.current` values;
   * `immediate` is the configuration the mount-time effect read. The ghost
   * `log` records every callback invocation and `history` every event so far.
   */
  class Watcher<T> {
    var oldValue: Option<T>
    var isFirstRender: bool
    var isWatch: bool
    const immediate: bool
    ghost var log: seq<Call<T>>
    ghost var history: seq<Event<T>>

    function State(): Cells<T>
      reads this
    {
      Cells(oldValue, isFirstRender, isWatch)
    }

    /** The fields and the log are what the events so far produce from mount. */
    ghost predicate Valid()
      reads this
      ensures Valid() ==> Consistent(State()) && |log| <= |history|
      ensures Valid() ==> forall k :: 0 <= k < |log| ==> Render(log[k].newValue) in history
    {
      Consistent(State()) && Replay(Mounted(), immediate, history) == Reaction(State(), log)
    }

    /** Mounting the hook: the three refs get their initial values; `immediate` is off unless given. */
    constructor (immediate: bool := DefaultImmediate)
      ensures Valid() && this.immediate == immediate
      ensures State() == Mounted() && log == [] && history == []
    {
      oldValue := None;
      isFirstRender := true;
      isWatch := true;
      this.immediate := immediate;
      log := [];
      history := [];
    }

    /** One run of the effect for `target`; the callback invocation, if any, is appended to `log`. */
    method Run(target: T)
      requires Valid()
      modifies this
      ensures Valid()
      ensures history == old(history) + [Render(target)]
      ensures State() == Effect(old(State()), immediate, target).cells
      ensures log == old(log) + Effect(old(State()), immediate, target).calls
    {
      ReplayAppend(Mounted(), immediate, history, Render(target));
      history := history + [Render(target)];
      if !isWatch {
        return;
      }
      if isFirstRender {
        isFirstRender := false;
        if immediate {
          log := log + [Call(target, oldValue)];
        }
      } else {
        log := log + [Call(target, oldValue)];
      }
      oldValue := Some(target);
    }

    /** The returned `unWatch` closure. */
    method UnWatch()
      requires Valid()
      modifies this
      ensures Valid()
      ensures history == old(history) + [Cancel]
      ensures State() == StopWatching(old(State())) && log == old(log)
    {
      ReplayAppend(Mounted(), immediate, history, Cancel);
      history := history + [Cancel];
      isWatch := false;
    }
  }
}

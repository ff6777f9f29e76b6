/** The lifecycle dispatcher: the six-stage state machine that `eer_staging`
    runs over one component instance, and the callback wrappers that commit
    new props into the instance.

    A component's callbacks are user code. The model gives each body that can
    change the instance as a function (will_mount, should_update, will_update
    and release); every callback invocation is recorded as a `Call` in the
    instance's ghost `trace`, with the stage, props and state the body sees. */
module Lifecycle {
  import opened Interface

  /** `enum eer_context`, kept in a 2-bit field: SAME = 0, UPDATED = 1,
      BLOCKED = 2. OR-ing two contexts can give 3. */
  type Context = bv2

  const SAME: Context := 0
  const UPDATED: Context := 1
  const BLOCKED: Context := 2

  /** The stage enumerators, in declaration order. */
  datatype Stage = Blocked | Released | Defined | Reacting | Prepared | Unmounted

  /** The numeric value of each stage enumerator. */
  function Code(s: Stage): nat {
    match s
    case Blocked => 0
    case Released => 1
    case Defined => 2
    case Reacting => 3
    case Prepared => 4
    case Unmounted => 5
  }

  /** What `eer_staging` receives as `next_props`: a context value cast to a
      pointer, or a pointer to new props. */
  datatype Trigger<P> = Ctx(c: Context) | NewProps(p: P)

  /** The context value 3 is not one of the three flags, so `eer_staging`
      would take it for a props pointer and dereference it; callers never
      pass it (see Loop.SignalsCombine). */
  predicate Admissible<P>(t: Trigger<P>) {
    t.Ctx? ==> t.c != 3
  }

  datatype Hook = WillMount | ShouldUpdate | WillUpdate | Release | DidMount | DidUpdate | DidUnmount

  /** One callback invocation: the hook, the instance's stage while it runs,
      the props and state its body sees, and the `next_props` it is handed
      (after a null pointer has been replaced by the instance's own props). */
  datatype Call<P, S> = Call(hook: Hook, stage: Stage, props: P, state: S, next: Option<P>)

  /** The callback set of a component. Every body but should_update may
      write the state it is handed. `hasDidUnmount` is false when the
      did_unmount slot is null. */
  datatype Callbacks<!P, !S> = Callbacks(
    willMount: (P, S) -> S,
    shouldUpdate: (P, S, P) -> bool,
    willUpdate: (P, S, P) -> S,
    release: (P, S) -> S,
    didMount: (P, S) -> S,
    didUpdate: (P, S) -> S,
    didUnmount: (P, S) -> S,
    hasDidUnmount: bool)

  /** The callback set made of the `*_SKIP` implementations. */
  function Skip<P, S>(): Callbacks<P, S> {
    Callbacks((p: P, s: S) => s, (p: P, s: S, n: P) => true, (p: P, s: S, n: P) => s, (p: P, s: S) => s,
              (p: P, s: S) => s, (p: P, s: S) => s, (p: P, s: S) => s, true)
  }

  /** The part of an instance the dispatcher reads and writes. */
  datatype Snapshot<P, S> = Snapshot(stage: Stage, props: P, state: S)

  /** What one dispatch does: the new snapshot, the callbacks it invoked in
      order, and the context it returns. */
  datatype Outcome<P, S> = Outcome(after: Snapshot<P, S>, calls: seq<Call<P, S>>, result: Context)

  /** The hooks of a call list, in order. */
  function Hooks<P, S>(calls: seq<Call<P, S>>): seq<Hook> {
    seq(|calls|, i requires 0 <= i < |calls| => calls[i].hook)
  }

  /** will_update followed by stage PREPARED. */
  function Prepare<P, S>(cb: Callbacks<P, S>, s: Snapshot<P, S>, next: P): Outcome<P, S> {
    Outcome(Snapshot(Prepared, next, cb.willUpdate(s.props, s.state, next)),
            [Call(Hook.WillUpdate, Prepared, s.props, s.state, Some(next))], UPDATED)
  }

  /** Stage RELEASED, then release, then did_update. */
  function Commit<P, S>(cb: Callbacks<P, S>, s: Snapshot<P, S>): Outcome<P, S> {
    var released := cb.release(s.props, s.state);
    Outcome(Snapshot(Released, s.props, cb.didUpdate(s.props, released)),
            [Call(Hook.Release, Released, s.props, s.state, None),
             Call(Hook.DidUpdate, Released, s.props, released, None)], UPDATED)
  }

  /** will_mount (after the props are committed), release, did_mount, all
      while the stage is still DEFINED; only then RELEASED. */
  function Mount<P, S>(cb: Callbacks<P, S>, s: Snapshot<P, S>, next: P): Outcome<P, S> {
    var mounted := cb.willMount(next, s.state);
    var released := cb.release(next, mounted);
    Outcome(Snapshot(Released, next, cb.didMount(next, released)),
            [Call(Hook.WillMount, Defined, next, s.state, Some(next)),
             Call(Hook.Release, Defined, next, mounted, None),
             Call(Hook.DidMount, Defined, next, released, None)], UPDATED)
  }

  /** Stage BLOCKED, then did_unmount when the slot is set. */
  function Unmount<P, S>(cb: Callbacks<P, S>, s: Snapshot<P, S>): Outcome<P, S> {
    Outcome(Snapshot(Blocked, s.props, if cb.hasDidUnmount then cb.didUnmount(s.props, s.state) else s.state),
            if cb.hasDidUnmount then [Call(Hook.DidUnmount, Blocked, s.props, s.state, None)] else [],
            UPDATED)
  }

  /** The transition table of `eer_staging`, stage by stage. A SAME trigger
      leaves RELEASED and BLOCKED instances alone, a BLOCKED trigger unmounts
      from any stage, and any other trigger is handled by the current stage;
      a context trigger hands the callbacks a null `next_props`, which they
      read as the instance's own props. */
  function Dispatch<P, S>(cb: Callbacks<P, S>, s: Snapshot<P, S>, t: Trigger<P>): (o: Outcome<P, S>)
    requires Admissible(t)
    ensures o.result == SAME || o.result == UPDATED
    ensures o.after.stage == Blocked || o.after.stage == Released || o.after.stage == Prepared
    ensures o.result == SAME ==> o.after == s && |o.calls| <= 1 && forall c :: c in o.calls ==> c.hook == Hook.ShouldUpdate
    ensures t == Ctx(BLOCKED) ==> o.after.stage == Blocked && o.after.props == s.props && o.result == UPDATED
    ensures o.after.props != s.props ==> exists c :: c in o.calls && c.hook in {Hook.WillMount, Hook.WillUpdate}
    ensures o.after.state != s.state ==> exists c :: c in o.calls && c.hook != Hook.ShouldUpdate
  {
    if t == Ctx(SAME) && Code(s.stage) <= Code(Released) then
      Outcome(s, [], SAME)
    else if t == Ctx(BLOCKED) then
      Unmount(cb, s)
    else
      Handle(cb, s, if t.NewProps? then t.p else s.props)
  }

  /** The stage chain of `eer_staging`, given the props that the callbacks
      are handed. */
  function Handle<P, S>(cb: Callbacks<P, S>, s: Snapshot<P, S>, next: P): Outcome<P, S> {
    match s.stage
    case Released =>
      var ask := Call(Hook.ShouldUpdate, Released, s.props, s.state, Some(next));
      if cb.shouldUpdate(s.props, s.state, next) then
        var prepared := Prepare(cb, s, next);
        Outcome(prepared.after, [ask] + prepared.calls, UPDATED)
      else
        Outcome(s, [ask], SAME)
    case Reacting =>
      var prepared := Prepare(cb, s, next);
      var committed := Commit(cb, prepared.after.(stage := Released));
      Outcome(committed.after, prepared.calls + committed.calls, UPDATED)
    case Prepared => Commit(cb, s)
    case Defined => Mount(cb, s, next)
    case Unmounted => Unmount(cb, s)
    case Blocked => Outcome(s, [], UPDATED)
  }

  /** A component instance (`eer_t` together with its props and state). Its
      callback set is fixed for its lifetime. */
  class Instance<P, S> {
    const cb: Callbacks<P, S>
    var stage: Stage
    var props: P
    var state: S
    ghost var trace: seq<Call<P, S>>

    function View(): Snapshot<P, S>
      reads this
    {
      Snapshot(stage, props, state)
    }

    /** A freshly defined instance: stage DEFINED, initial props and state. */
    constructor (cb: Callbacks<P, S>, props: P, state: S)
      ensures this.cb == cb && View() == Snapshot(Defined, props, state) && trace == []
    {
      this.cb := cb;
      stage := Defined;
      this.props := props;
      this.state := state;
      trace := [];
    }

    /** The will_mount wrapper: null `next_props` becomes the instance's own
        props, the props are committed, and then the body runs. */
    method WillMount(next: Option<P>)
      modifies this
      ensures stage == old(stage) && props == old(next.GetOr(props))
      ensures state == cb.willMount(props, old(state))
      ensures trace == old(trace) + [Call(Hook.WillMount, stage, props, old(state), Some(props))]
    {
      var target := if next.Some? then next.value else props;
      props := target;
      trace := trace + [Call(Hook.WillMount, stage, props, state, Some(target))];
      state := cb.willMount(props, state);
    }

    /** The should_update wrapper: forwards the body's answer and changes no
        props, state or stage. */
    method ShouldUpdate(next: Option<P>) returns (b: bool)
      modifies this
      ensures View() == old(View())
      ensures b == cb.shouldUpdate(props, state, next.GetOr(props))
      ensures trace == old(trace) + [Call(Hook.ShouldUpdate, stage, props, state, Some(next.GetOr(props)))]
    {
      var target := if next.Some? then next.value else props;
      trace := trace + [Call(Hook.ShouldUpdate, stage, props, state, Some(target))];
      b := cb.shouldUpdate(props, state, target);
    }

    /** The will_update wrapper: the body runs first and sees the old props
        and `next_props`; only then are the new props committed. */
    method WillUpdate(next: Option<P>)
      modifies this
      ensures stage == old(stage) && props == old(next.GetOr(props))
      ensures state == cb.willUpdate(old(props), old(state), props)
      ensures trace == old(trace) + [Call(Hook.WillUpdate, stage, old(props), old(state), Some(props))]
    {
      var target := if next.Some? then next.value else props;
      trace := trace + [Call(Hook.WillUpdate, stage, props, state, Some(target))];
      state := cb.willUpdate(props, state, target);
      props := target;
    }

    method Release()
      modifies this
      ensures stage == old(stage) && props == old(props)
      ensures state == cb.release(props, old(state))
      ensures trace == old(trace) + [Call(Hook.Release, stage, props, old(state), None)]
    {
      trace := trace + [Call(Hook.Release, stage, props, state, None)];
      state := cb.release(props, state);
    }

    method DidMount()
      modifies this
      ensures stage == old(stage) && props == old(props)
      ensures state == cb.didMount(props, old(state))
      ensures trace == old(trace) + [Call(Hook.DidMount, stage, props, old(state), None)]
    {
      trace := trace + [Call(Hook.DidMount, stage, props, state, None)];
      state := cb.didMount(props, state);
    }

    method DidUpdate()
      modifies this
      ensures stage == old(stage) && props == old(props)
      ensures state == cb.didUpdate(props, old(state))
      ensures trace == old(trace) + [Call(Hook.DidUpdate, stage, props, old(state), None)]
    {
      trace := trace + [Call(Hook.DidUpdate, stage, props, state, None)];
      state := cb.didUpdate(props, state);
    }

    method DidUnmount()
      modifies this
      ensures stage == old(stage) && props == old(props)
      ensures state == cb.didUnmount(props, old(state))
      ensures trace == old(trace) + [Call(Hook.DidUnmount, stage, props, old(state), None)]
    {
      trace := trace + [Call(Hook.DidUnmount, stage, props, state, None)];
      state := cb.didUnmount(props, state);
    }

    /** `eer_staging`: one dispatch of this instance, written as the source's
        chain of tests. It does what the transition table says. */
    method Staging(t: Trigger<P>) returns (r: Context)
      requires Admissible(t)
      modifies this
      ensures View() == Dispatch(cb, old(View()), t).after
      ensures trace == old(trace) + Dispatch(cb, old(View()), t).calls
      ensures r == Dispatch(cb, old(View()), t).result
    {
      var next: Option<P> := None;
      if t == Ctx(SAME) {
        if Code(Released) >= Code(stage) {
          return SAME;
        }
      } else if t == Ctx(UPDATED) {
        next := None;
      } else if t == Ctx(BLOCKED) {
        stage := Unmounted;
      } else {
        next := Some(t.p);
      }
      r := Advance(next);
    }

    /** The stage chain of `eer_staging`, after the trigger has been read:
        each stage runs its callbacks in the source's order. */
    method Advance(next: Option<P>) returns (r: Context)
      modifies this
      ensures View() == Handle(cb, old(View()), old(next.GetOr(props))).after
      ensures trace == old(trace) + Handle(cb, old(View()), old(next.GetOr(props))).calls
      ensures r == Handle(cb, old(View()), old(next.GetOr(props))).result
    {
      if stage == Released {
        var go := ShouldUpdate(next);
        if !go {
          return SAME;
        }
        stage := Prepared;
        WillUpdate(next);
      } else if stage == Reacting {
        stage := Prepared;
        WillUpdate(next);
        stage := Released;
        Release();
        DidUpdate();
      } else if stage == Prepared {
        stage := Released;
        Release();
        DidUpdate();
      } else if stage == Defined {
        WillMount(next);
        Release();
        DidMount();
        stage := Released;
      } else if stage == Unmounted {
        stage := Blocked;
        if cb.hasDidUnmount {
          DidUnmount();
        }
      } else if Code(Blocked) != 0 {
        return BLOCKED;
      }
      return UPDATED;
    }
  }

  /** The props a context trigger or a props trigger hands the callbacks. */
  function NextProps<P>(t: Trigger<P>, current: P): P {
    if t.NewProps? then t.p else current
  }

  /** The enumerators' values: contexts SAME = 0, UPDATED = 1, BLOCKED = 2
      (and UPDATED | BLOCKED = 3); stages BLOCKED = 0 up to UNMOUNTED = 5,
      all distinct. */
  lemma Encodings()
    ensures SAME == 0 && UPDATED == 1 && BLOCKED == 2 && UPDATED | BLOCKED == 3
    ensures Code(Blocked) == 0 && Code(Released) == 1 && Code(Defined) == 2
    ensures Code(Reacting) == 3 && Code(Prepared) == 4 && Code(Unmounted) == 5
    ensures forall a: Stage, b: Stage :: Code(a) == Code(b) ==> a == b
  {
  }

  /** A SAME trigger on a RELEASED or BLOCKED instance (the stages whose
      value is at most RELEASED's) returns SAME and does nothing. */
  lemma SameIsQuiet<P, S>(cb: Callbacks<P, S>, s: Snapshot<P, S>)
    requires s.stage == Released || s.stage == Blocked
    ensures Dispatch(cb, s, Ctx(SAME)) == Outcome(s, [], SAME)
  {
  }

  /** A DEFINED instance mounts: will_mount (seeing the new props as
      current), release, did_mount, all still DEFINED; then RELEASED, and
      the result is UPDATED. */
  lemma MountSequence<P, S>(cb: Callbacks<P, S>, s: Snapshot<P, S>, t: Trigger<P>)
    requires Admissible(t) && t != Ctx(BLOCKED) && s.stage == Defined
    ensures var o := Dispatch(cb, s, t);
      && Hooks(o.calls) == [WillMount, Release, DidMount]
      && (forall i :: 0 <= i < 3 ==> o.calls[i].stage == Defined && o.calls[i].props == NextProps(t, s.props))
      && o.after.stage == Released && o.after.props == NextProps(t, s.props)
      && o.after.state == cb.didMount(NextProps(t, s.props), cb.release(NextProps(t, s.props), cb.willMount(NextProps(t, s.props), s.state)))
      && o.result == UPDATED
  {
  }

  /** A RELEASED instance whose should_update declines returns SAME and keeps
      its stage, props and state; should_update was the only call. */
  lemma UpdateDeclined<P, S>(cb: Callbacks<P, S>, s: Snapshot<P, S>, t: Trigger<P>)
    requires Admissible(t) && t != Ctx(SAME) && t != Ctx(BLOCKED) && s.stage == Released
    requires !cb.shouldUpdate(s.props, s.state, NextProps(t, s.props))
    ensures var o := Dispatch(cb, s, t);
      o.result == SAME && o.after == s && Hooks(o.calls) == [ShouldUpdate]
  {
  }

  /** A RELEASED instance whose should_update accepts becomes PREPARED and
      runs will_update only: release and did_update wait for the next call.
      will_update sees the old props; the new ones are committed after it. */
  lemma UpdatePrepared<P, S>(cb: Callbacks<P, S>, s: Snapshot<P, S>, t: Trigger<P>)
    requires Admissible(t) && t != Ctx(SAME) && t != Ctx(BLOCKED) && s.stage == Released
    requires cb.shouldUpdate(s.props, s.state, NextProps(t, s.props))
    ensures var o := Dispatch(cb, s, t);
      && o.result == UPDATED && Hooks(o.calls) == [ShouldUpdate, WillUpdate]
      && o.calls[1] == Call(Hook.WillUpdate, Prepared, s.props, s.state, Some(NextProps(t, s.props)))
      && o.after == Snapshot(Prepared, NextProps(t, s.props), cb.willUpdate(s.props, s.state, NextProps(t, s.props)))
  {
  }

  /** A PREPARED instance commits on any other than a BLOCKED trigger:
      RELEASED first, then release, then did_update; props are not touched. */
  lemma CommitSequence<P, S>(cb: Callbacks<P, S>, s: Snapshot<P, S>, t: Trigger<P>)
    requires Admissible(t) && t != Ctx(BLOCKED) && s.stage == Prepared
    ensures var o := Dispatch(cb, s, t);
      && o.result == UPDATED && Hooks(o.calls) == [Release, DidUpdate]
      && o.calls[0].stage == Released && o.calls[1].stage == Released
      && o.after == Snapshot(Released, s.props, cb.didUpdate(s.props, cb.release(s.props, s.state)))
  {
  }

  /** A REACTING instance runs will_update (PREPARED), release and
      did_update (RELEASED) in one call, without consulting should_update. */
  lemma ReactSequence<P, S>(cb: Callbacks<P, S>, s: Snapshot<P, S>, t: Trigger<P>)
    requires Admissible(t) && t != Ctx(BLOCKED) && s.stage == Reacting
    ensures var o := Dispatch(cb, s, t);
      && o.result == UPDATED && Hooks(o.calls) == [WillUpdate, Release, DidUpdate]
      && o.calls[0].stage == Prepared && o.calls[1].stage == Released && o.calls[2].stage == Released
      && ShouldUpdate !in Hooks(o.calls)
      && o.after.stage == Released && o.after.props == NextProps(t, s.props)
      && o.after.state == cb.didUpdate(NextProps(t, s.props), cb.release(NextProps(t, s.props), cb.willUpdate(s.props, s.state, NextProps(t, s.props))))
  {
  }

  /** A BLOCKED trigger unmounts from every stage, BLOCKED included: the
      instance passes through UNMOUNTED and ends BLOCKED, did_unmount runs
      only when its slot is set, and the result is UPDATED. */
  lemma BlockedTriggerUnmounts<P, S>(cb: Callbacks<P, S>, s: Snapshot<P, S>)
    ensures var o := Dispatch(cb, s, Ctx(BLOCKED));
      && o.result == UPDATED && o.after.stage == Blocked && o.after.props == s.props
      && o.after.state == (if cb.hasDidUnmount then cb.didUnmount(s.props, s.state) else s.state)
      && Hooks(o.calls) == (if cb.hasDidUnmount then [DidUnmount] else [])
  {
  }

  /** The last branch of the chain tests the enumerator BLOCKED, whose value
      is 0, so it is never taken: a BLOCKED instance given UPDATED or props
      returns UPDATED and invokes nothing. No dispatch returns BLOCKED. */
  lemma BlockedStageAnswersUpdated<P, S>(cb: Callbacks<P, S>, s: Snapshot<P, S>, t: Trigger<P>)
    requires Admissible(t) && t != Ctx(SAME) && t != Ctx(BLOCKED) && s.stage == Blocked
    ensures Dispatch(cb, s, t) == Outcome(s, [], UPDATED)
  {
  }

  /** SHOULD_UPDATE_SKIP answers true; the will_mount, will_update and
      release skips leave the state as it is. */
  lemma SkipBodies<P, S>(p: P, s: S, n: P)
    ensures Skip<P, S>().shouldUpdate(p, s, n)
    ensures Skip<P, S>().willMount(p, s) == s && Skip<P, S>().release(p, s) == s
    ensures Skip<P, S>().willUpdate(p, s, n) == s
  {
  }

  /** With the skip implementations a component's state never changes, and
      its props change only to the props a trigger carries. */
  lemma SkipIsInert<P, S>(s: Snapshot<P, S>, t: Trigger<P>)
    requires Admissible(t)
    ensures var o := Dispatch(Skip(), s, t);
      o.after.state == s.state && (o.after.props == s.props || o.after.props == NextProps(t, s.props))
  {
  }

  /** Given UPDATED, an instance answers SAME exactly when it is RELEASED
      and its should_update declines its own props; every other instance
      answers UPDATED. */
  lemma UpdatedQuietIff<P, S>(cb: Callbacks<P, S>, s: Snapshot<P, S>)
    ensures var r := Dispatch(cb, s, Ctx(UPDATED)).result;
      && (r == SAME <==> s.stage == Released && !cb.shouldUpdate(s.props, s.state, s.props))
      && (r != SAME ==> r == UPDATED)
  {
  }
}

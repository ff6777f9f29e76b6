/** The loop controller: the per-instance helpers `apply`, `react`, `shut`,
    `use` and `with`, the `eer_while` tick loop, and the `eer_init` boot with
    its `terminate`/`halt` restart.

    The subscription list of a loop is a sequence of distinct instances of
    one component type. The user code between the macros is abstract: a loop
    body only raises the `unmounted` flag, at the tick the caller names. */
module Loop {
  import opened Interface
  import opened Lifecycle

  /** `union eer_land`, without its bit-field packing. */
  datatype Land = Land(context: Context, finished: bool, unmounted: bool)

  /** No instance is listed twice. */
  predicate Distinct<P, S>(xs: seq<Instance<P, S>>) {
    forall i, j :: 0 <= i < j < |xs| ==> xs[i] != xs[j]
  }

  /** The frame of a subscription list. */
  function Objects<P, S>(xs: seq<Instance<P, S>>): set<Instance<P, S>> {
    set x | x in xs
  }

  /** The snapshots of a list of instances. */
  function Views<P, S>(xs: seq<Instance<P, S>>): (r: seq<Snapshot<P, S>>)
    reads Objects(xs)
    ensures |r| == |xs| && forall i :: 0 <= i < |xs| ==> r[i] == xs[i].View()
  {
    seq(|xs|, i requires 0 <= i < |xs| reads xs => xs[i].View())
  }

  /** The call traces of a list of instances. */
  ghost function Traces<P, S>(xs: seq<Instance<P, S>>): (r: seq<seq<Call<P, S>>>)
    reads Objects(xs)
    ensures |r| == |xs| && forall i :: 0 <= i < |xs| ==> r[i] == xs[i].trace
  {
    seq(|xs|, i requires 0 <= i < |xs| reads xs => xs[i].trace)
  }

  /** The bitwise OR of a list of contexts, SAME for none. */
  function OrAll(rs: seq<Context>): Context {
    if |rs| == 0 then SAME else OrAll(rs[..|rs| - 1]) | rs[|rs| - 1]
  }

  /** Every listed context is UPDATED. */
  predicate AllUpdated(cs: seq<Context>) {
    forall k :: 0 <= k < |cs| ==> cs[k] == UPDATED
  }

  /** Every listed context is SAME or UPDATED. */
  predicate Signals(rs: seq<Context>) {
    forall i :: 0 <= i < |rs| ==> rs[i] == SAME || rs[i] == UPDATED
  }

  /** The OR of dispatch results (each SAME or UPDATED) is again SAME or
      UPDATED: it is UPDATED exactly when one of them is. So no loop context
      ever becomes 3 or BLOCKED. */
  lemma {:induction false} SignalsCombine(rs: seq<Context>)
    requires Signals(rs)
    ensures OrAll(rs) == SAME || OrAll(rs) == UPDATED
    ensures OrAll(rs) == UPDATED <==> exists i :: 0 <= i < |rs| && rs[i] == UPDATED
  {
    if |rs| > 0 {
      var init := rs[..|rs| - 1];
      assert Signals(init) by {
        forall i | 0 <= i < |init| ensures init[i] == SAME || init[i] == UPDATED {
          assert init[i] == rs[i];
        }
      }
      SignalsCombine(init);
      if OrAll(init) == UPDATED {
        var i :| 0 <= i < |init| && init[i] == UPDATED;
        assert rs[i] == UPDATED;
      }
      if exists i :: 0 <= i < |rs| && rs[i] == UPDATED {
        var i :| 0 <= i < |rs| && rs[i] == UPDATED;
        if i < |init| {
          assert init[i] == UPDATED;
        }
      }
    }
  }

  /** The OR of any contexts is SAME exactly when each of them is SAME. */
  lemma {:induction false} QuietIffAllSame(rs: seq<Context>)
    ensures OrAll(rs) == SAME <==> forall i :: 0 <= i < |rs| ==> rs[i] == SAME
  {
    if |rs| > 0 {
      var init := rs[..|rs| - 1];
      QuietIffAllSame(init);
      assert forall i :: 0 <= i < |init| ==> init[i] == rs[i];
      assert OrAll(rs) == SAME <==> OrAll(init) == SAME && rs[|rs| - 1] == SAME;
    }
  }

  /** `EVAL(MAP(f, xs...))` over `eer_staging`: stages each instance once, in
      list order, with the same trigger, and collects the results. */
  method StageEach<P, S>(xs: seq<Instance<P, S>>, t: Trigger<P>) returns (rs: seq<Context>)
    requires Admissible(t) && Distinct(xs)
    modifies Objects(xs)
    ensures |rs| == |xs| && Signals(rs)
    ensures forall i :: 0 <= i < |xs| ==>
      var o := Dispatch(xs[i].cb, old(xs[i].View()), t);
      xs[i].View() == o.after && xs[i].trace == old(xs[i].trace) + o.calls && rs[i] == o.result
  {
    rs := [];
    var k := 0;
    while k < |xs|
      invariant 0 <= k <= |xs| && |rs| == k && Signals(rs)
      invariant forall i :: 0 <= i < k ==>
        var o := Dispatch(xs[i].cb, old(xs[i].View()), t);
        xs[i].View() == o.after && xs[i].trace == old(xs[i].trace) + o.calls && rs[i] == o.result
      invariant forall i :: k <= i < |xs| ==> xs[i].View() == old(xs[i].View()) && xs[i].trace == old(xs[i].trace)
    {
      var r := xs[k].Staging(t);
      rs := rs + [r];
      k := k + 1;
    }
  }

  /** The trigger `apply` hands `eer_staging`: the new props when the loop
      context is UPDATED and the instance is RELEASED or DEFINED, a null
      pointer otherwise. */
  function ApplyTrigger<P>(context: Context, stage: Stage, p: P): (t: Trigger<P>)
    ensures t.NewProps? <==> context == UPDATED && (stage == Released || stage == Defined)
    ensures t.NewProps? ==> t.p == p
    ensures t.Ctx? ==> t.c == SAME
  {
    if context == UPDATED && (stage == Released || stage == Defined) then NewProps(p) else Ctx(SAME)
  }

  /** What the gate of `apply` is for: the proposed props p are committed
      only under an UPDATED loop context, by a DEFINED instance (mounting)
      or by a RELEASED one whose should_update accepts them. In every other
      case the instance keeps its props, whatever p is. */
  lemma ApplyGate<P, S>(cb: Callbacks<P, S>, s: Snapshot<P, S>, context: Context, p: P)
    ensures var o := Dispatch(cb, s, ApplyTrigger(context, s.stage, p));
      && (!(context == UPDATED && (s.stage == Released || s.stage == Defined)) ==> o.after.props == s.props)
      && (context == UPDATED && s.stage == Defined ==> o.after.props == p)
      && (context == UPDATED && s.stage == Released ==>
            if cb.shouldUpdate(s.props, s.state, p) then o.after.props == p else o.after == s)
  {
  }

  /** `eer_apply`: the two-phase update. The result of staging is dropped. */
  method Apply<P, S>(land: Land, x: Instance<P, S>, p: P)
    modifies x
    ensures var o := Dispatch(x.cb, old(x.View()), ApplyTrigger(land.context, old(x.stage), p));
      x.View() == o.after && x.trace == old(x.trace) + o.calls
  {
    if land.context == UPDATED && (x.stage == Released || x.stage == Defined) {
      var _ := x.Staging(NewProps(p));
    } else {
      var _ := x.Staging(Ctx(SAME));
    }
  }

  /** `eer_react`: staging with the loop context, then, unless that context
      is BLOCKED, a forced REACTING stage and staging with the new props. The
      result of the first staging does not decide the second. */
  method React<P, S>(land: Land, x: Instance<P, S>, p: P)
    requires land.context != 3
    modifies x
    ensures var first := Dispatch(x.cb, old(x.View()), Ctx(land.context));
      if land.context == BLOCKED then
        x.View() == first.after && x.trace == old(x.trace) + first.calls
      else
        var forced := Dispatch(x.cb, first.after.(stage := Reacting), NewProps(p));
        x.View() == forced.after && x.trace == old(x.trace) + first.calls + forced.calls
  {
    var _ := x.Staging(Ctx(land.context));
    if BLOCKED != land.context {
      x.stage := Reacting;
      var _ := x.Staging(NewProps(p));
    }
  }

  /** `eer_shut`: forces UNMOUNTED and stages with a null pointer, which
      leaves the instance BLOCKED with its props. did_unmount, when that slot
      is set, runs last and is the only callback that may change the state. */
  method Shut<P, S>(x: Instance<P, S>)
    modifies x
    ensures x.stage == Blocked && x.props == old(x.props)
    ensures x.state == if x.cb.hasDidUnmount then x.cb.didUnmount(x.props, old(x.state)) else old(x.state)
    ensures x.trace == old(x.trace) +
      if x.cb.hasDidUnmount then [Call(Hook.DidUnmount, Blocked, x.props, old(x.state), None)] else []
  {
    x.stage := Unmounted;
    var _ := x.Staging(Ctx(SAME));
  }

  /** `eer_use`: stages each listed instance once with the loop context. */
  method Use<P, S>(land: Land, xs: seq<Instance<P, S>>)
    requires land.context != 3 && Distinct(xs)
    modifies Objects(xs)
    ensures forall i :: 0 <= i < |xs| ==>
      var o := Dispatch(xs[i].cb, old(xs[i].View()), Ctx(land.context));
      xs[i].View() == o.after && xs[i].trace == old(xs[i].trace) + o.calls
  {
    var _ := StageEach(xs, Ctx(land.context));
  }

  /** `eer_with`: two nested one-shot `for` loops closed by the `finished`
      flag. Unless the enclosing land is already finished, the instances are
      staged once with its context, the inner land's context is the OR of the
      results (ORed with SAME), and the body runs exactly once. */
  method With<P, S>(land: Land, xs: seq<Instance<P, S>>) returns (inner: Land, rs: seq<Context>, runs: nat)
    requires land.context != 3 && Distinct(xs)
    modifies Objects(xs)
    ensures runs == if land.finished then 0 else 1
    ensures !land.finished ==>
      && |rs| == |xs| && inner.context == OrAll(rs)
      && forall i :: 0 <= i < |xs| ==>
        var o := Dispatch(xs[i].cb, old(xs[i].View()), Ctx(land.context));
        xs[i].View() == o.after && xs[i].trace == old(xs[i].trace) + o.calls && rs[i] == o.result
    ensures land.finished ==> forall i :: 0 <= i < |xs| ==> xs[i].View() == old(xs[i].View()) && xs[i].trace == old(xs[i].trace)
  {
    var current := land;
    inner, rs, runs := Land(SAME, false, false), [], 0;
    while !current.finished
      invariant current.context == land.context
      invariant runs == if current.finished && !land.finished then 1 else 0
      invariant land.finished ==> current.finished
      invariant !current.finished || land.finished ==>
        forall i :: 0 <= i < |xs| ==> xs[i].View() == old(xs[i].View()) && xs[i].trace == old(xs[i].trace)
      invariant current.finished && !land.finished ==>
        && |rs| == |xs| && inner.context == OrAll(rs)
        && forall i :: 0 <= i < |xs| ==>
          var o := Dispatch(xs[i].cb, old(xs[i].View()), Ctx(land.context));
          xs[i].View() == o.after && xs[i].trace == old(xs[i].trace) + o.calls && rs[i] == o.result
      decreases if current.finished then 0 else 1
    {
      rs := StageEach(xs, Ctx(current.context));
      inner := Land(OrAll(rs) | SAME, false, false);
      while !inner.finished
        invariant runs <= 1 && (inner.finished <==> runs == 1) && inner.context == OrAll(rs)
        decreases if inner.finished then 0 else 1
      {
        runs := runs + 1;
        inner := inner.(finished := true);
      }
      current := current.(finished := true);
    }
  }

  /** The context `eer_while` computes at its start and after every tick:
      the OR of staging each subscribed instance with UPDATED, or UPDATED when
      none is subscribed. It is SAME exactly when there are instances and
      every one of them is RELEASED and declines its own props. */
  method Broadcast<P, S>(xs: seq<Instance<P, S>>) returns (c: Context)
    requires Distinct(xs)
    modifies Objects(xs)
    ensures c == SAME || c == UPDATED
    ensures c == SAME <==> |xs| > 0 && forall i :: 0 <= i < |xs| ==>
      old(xs[i].stage) == Released && !xs[i].cb.shouldUpdate(old(xs[i].props), old(xs[i].state), old(xs[i].props))
    ensures forall i :: 0 <= i < |xs| ==>
      var o := Dispatch(xs[i].cb, old(xs[i].View()), Ctx(UPDATED));
      xs[i].View() == o.after && xs[i].trace == old(xs[i].trace) + o.calls
  {
    if |xs| == 0 {
      return UPDATED;
    }
    var rs := StageEach(xs, Ctx(UPDATED));
    c := OrAll(rs) | SAME;
    SignalsCombine(rs);
    QuietIffAllSame(rs);
    forall i | 0 <= i < |xs|
      ensures rs[i] == SAME <==> old(xs[i].stage) == Released && !xs[i].cb.shouldUpdate(old(xs[i].props), old(xs[i].state), old(xs[i].props))
    {
      UpdatedQuietIff(xs[i].cb, old(xs[i].View()));
    }
  }

  /** An instance answers SAME to UPDATED: it is RELEASED and declines its
      own props. */
  predicate Quiet<P, S>(cb: Callbacks<P, S>, s: Snapshot<P, S>) {
    s.stage == Released && !cb.shouldUpdate(s.props, s.state, s.props)
  }

  /** An instance after k stagings with UPDATED in a row: its snapshot, the
      callbacks those stagings invoked, and the last result. */
  function Ticks<P, S>(cb: Callbacks<P, S>, s: Snapshot<P, S>, k: nat): Outcome<P, S>
    decreases k, 1
  {
    if k == 0 then Outcome(s, [], UPDATED) else LastTick(cb, s, k)
  }

  /** The k-th of those stagings on top of the first k - 1. It is a separate
      function so that a statement about Ticks unfolds one staging at a
      time. */
  function LastTick<P, S>(cb: Callbacks<P, S>, s: Snapshot<P, S>, k: nat): Outcome<P, S>
    requires k > 0
    decreases k, 0
  {
    var prev := Ticks(cb, s, k - 1);
    var o := Dispatch(cb, prev.after, Ctx(UPDATED));
    Outcome(o.after, prev.calls + o.calls, o.result)
  }

  /** Once an instance is quiet, further broadcasts leave it as it is, and
      each of them answers SAME. */
  lemma {:induction false} TicksSettle<P, S>(cb: Callbacks<P, S>, s: Snapshot<P, S>, k: nat, m: nat)
    requires k <= m && Quiet(cb, Ticks(cb, s, k).after)
    ensures Ticks(cb, s, m).after == Ticks(cb, s, k).after
    ensures m > k ==> Ticks(cb, s, m).result == SAME
    decreases m - k
  {
    if m > k {
      TicksSettle(cb, s, k, m - 1);
      UpdateDeclined(cb, Ticks(cb, s, m - 1).after, Ctx(UPDATED));
      assert Ticks(cb, s, m) == LastTick(cb, s, m);
    }
  }

  /** Every instance of xs has had k broadcasts since the snapshot start[i],
      and its trace grew from before[i] by exactly the calls they made. */
  ghost predicate AtTick<P, S>(xs: seq<Instance<P, S>>, start: seq<Snapshot<P, S>>, before: seq<seq<Call<P, S>>>, k: nat)
    reads Objects(xs)
  {
    && |start| == |xs| && |before| == |xs|
    && forall i {:trigger Ticks(xs[i].cb, start[i], k)} :: 0 <= i < |xs| ==>
      var o := Ticks(xs[i].cb, start[i], k);
      xs[i].View() == o.after && xs[i].trace == before[i] + o.calls
  }

  /** Every instance is quiet after k broadcasts since start[i]. */
  ghost predicate AllQuiet<P, S>(xs: seq<Instance<P, S>>, start: seq<Snapshot<P, S>>, k: nat)
    requires |start| == |xs|
  {
    |xs| > 0 && forall i :: 0 <= i < |xs| ==> Quiet(xs[i].cb, Ticks(xs[i].cb, start[i], k).after)
  }

  /** One more broadcast over instances that have had k of them since the
      snapshots `start` and traces `before`. The answer is SAME exactly when
      every instance was quiet before it. */
  method Rebroadcast<P, S>(xs: seq<Instance<P, S>>, ghost k: nat, ghost start: seq<Snapshot<P, S>>, ghost before: seq<seq<Call<P, S>>>)
      returns (c: Context)
    requires Distinct(xs) && AtTick(xs, start, before, k)
    modifies Objects(xs)
    ensures c == SAME || c == UPDATED
    ensures c == SAME <==> AllQuiet(xs, start, k)
    ensures AtTick(xs, start, before, k + 1)
  {
    c := Broadcast(xs);
    forall i | 0 <= i < |xs|
      ensures var o := Ticks(xs[i].cb, start[i], k + 1);
        xs[i].View() == o.after && xs[i].trace == before[i] + o.calls
    {
      var prev := Ticks(xs[i].cb, start[i], k);
      var o := Dispatch(xs[i].cb, prev.after, Ctx(UPDATED));
      assert Ticks(xs[i].cb, start[i], k + 1) == LastTick(xs[i].cb, start[i], k + 1);
      assert xs[i].trace == before[i] + prev.calls + o.calls;
    }
  }

  /** `eer_while` (and `eer_loop`, which jumps to the line before it). The
      body of tick k raises `unmounted` when k == unmountAt; `fuel` bounds the
      number of ticks the model runs. Every body run sees the context
      UPDATED; the loop stops when the body has unmounted or a broadcast
      returned SAME, and the broadcast of the for-step still runs after the
      unmounting tick. */
  method While<P, S>(xs: seq<Instance<P, S>>, fuel: nat, unmountAt: nat) returns (land: Land, seen: seq<Context>, broadcasts: nat)
    requires Distinct(xs)
    modifies Objects(xs)
    ensures |seen| <= fuel && |seen| <= unmountAt + 1
    ensures AllUpdated(seen)
    ensures broadcasts == |seen| + 1
    ensures land.context == SAME || land.context == UPDATED
    ensures land.unmounted <==> |seen| == unmountAt + 1
    ensures |seen| < fuel ==> land.unmounted || land.context == SAME
    ensures !land.finished
    ensures AtTick(xs, old(Views(xs)), old(Traces(xs)), broadcasts)
    ensures land.context == SAME <==> AllQuiet(xs, old(Views(xs)), broadcasts - 1)
    ensures |xs| == 0 ==> land.context == UPDATED
  {
    ghost var start, before := Views(xs), Traces(xs);
    var c := Rebroadcast(xs, 0, start, before);
    land, seen, broadcasts := Spin(xs, fuel, unmountAt, c, start, before);
  }

  /** The loop of `eer_while` after its first broadcast, stated against the
      snapshots `start` and traces `before` taken before that broadcast. */
  method Spin<P, S>(xs: seq<Instance<P, S>>, fuel: nat, unmountAt: nat, c0: Context,
                    ghost start: seq<Snapshot<P, S>>, ghost before: seq<seq<Call<P, S>>>)
      returns (land: Land, seen: seq<Context>, broadcasts: nat)
    requires Distinct(xs) && Running(xs, start, before, c0, [])
    modifies Objects(xs)
    ensures |seen| <= fuel && |seen| <= unmountAt + 1
    ensures broadcasts == |seen| + 1
    ensures Running(xs, start, before, land.context, seen)
    ensures land.unmounted <==> |seen| == unmountAt + 1
    ensures |seen| < fuel ==> land.unmounted || land.context == SAME
    ensures !land.finished
  {
    var c := c0;
    seen := [];
    while |seen| != unmountAt + 1 && c != SAME && |seen| < fuel
      invariant |seen| <= fuel && |seen| <= unmountAt + 1
      invariant Running(xs, start, before, c, seen)
      decreases fuel - |seen|
    {
      c, seen := Tick(xs, c, seen, start, before);
    }
    land, broadcasts := Land(c, false, |seen| == unmountAt + 1), |seen| + 1;
  }

  /** The state of `eer_while` after |seen| body runs: every instance has had
      one broadcast more than that since `start`, every body saw UPDATED, and
      the loop context is SAME exactly when every instance was quiet before
      the last broadcast. */
  ghost predicate Running<P, S>(xs: seq<Instance<P, S>>, start: seq<Snapshot<P, S>>, before: seq<seq<Call<P, S>>>,
                                c: Context, seen: seq<Context>)
    reads Objects(xs)
  {
    && AtTick(xs, start, before, |seen| + 1)
    && AllUpdated(seen)
    && (c == SAME || c == UPDATED)
    && (c == SAME <==> AllQuiet(xs, start, |seen|))
  }

  /** One pass of the `eer_while` body under the context c, followed by the
      broadcast of the for-step. */
  method Tick<P, S>(xs: seq<Instance<P, S>>, c: Context, seen: seq<Context>,
                    ghost start: seq<Snapshot<P, S>>, ghost before: seq<seq<Call<P, S>>>)
      returns (c': Context, seen': seq<Context>)
    requires Distinct(xs) && Running(xs, start, before, c, seen) && c != SAME
    modifies Objects(xs)
    ensures seen' == seen + [c]
    ensures Running(xs, start, before, c', seen')
  {
    seen' := seen + [c];
    c' := Rebroadcast(xs, |seen| + 1, start, before);
  }

  /** The boot of `eer_init`: the OR of staging each instance with UPDATED,
      ORed with UPDATED, which is always exactly UPDATED. */
  method Boot<P, S>(xs: seq<Instance<P, S>>) returns (c: Context)
    requires Distinct(xs)
    modifies Objects(xs)
    ensures c == UPDATED
    ensures forall i :: 0 <= i < |xs| ==>
      var o := Dispatch(xs[i].cb, old(xs[i].View()), Ctx(UPDATED));
      xs[i].View() == o.after && xs[i].trace == old(xs[i].trace) + o.calls
  {
    if |xs| == 0 {
      return UPDATED;
    }
    var rs := StageEach(xs, Ctx(UPDATED));
    SignalsCombine(rs);
    c := OrAll(rs) | UPDATED;
  }

  /** `eer_init` followed by a body and `eer_halt(code)`; a `terminate` in
      the body behaves like reaching the halt early. The flags are cleared
      once, before the boot label, so `unmounted` survives every restart.
      Pass k raises `unmounted` when k == unmountAt, and `fuel` bounds the
      number of passes. The exit code is returned only once `unmounted` is
      set; every pass runs with the context UPDATED. */
  method Ignite<P, S>(xs: seq<Instance<P, S>>, fuel: nat, unmountAt: nat, code: int)
    returns (land: Land, seen: seq<Context>, exit: Option<int>)
    requires Distinct(xs)
    modifies Objects(xs)
    ensures AllUpdated(seen)
    ensures exit.Some? <==> unmountAt < fuel
    ensures exit.Some? ==> exit.value == code && |seen| == unmountAt + 1 && land.unmounted
    ensures exit.None? ==> |seen| == fuel && !land.unmounted
    ensures AtTick(xs, old(Views(xs)), old(Traces(xs)), |seen|)
    ensures |seen| > 0 ==> land.context == UPDATED
  {
    ghost var start, before := Views(xs), Traces(xs);
    var c := SAME;
    seen := [];
    while |seen| < fuel && |seen| != unmountAt + 1
      invariant |seen| <= fuel && |seen| <= unmountAt + 1
      invariant Restarted(xs, start, before, c, seen)
      decreases fuel - |seen|
    {
      c := Reboot(xs, |seen|, start, before);
      seen := seen + [c];
    }
    land := Land(c, false, |seen| == unmountAt + 1);
    exit := if land.unmounted then Some(code) else None;
  }

  /** The state of `eer_init` after |seen| passes: every instance has been
      booted that many times since `start`, every pass saw UPDATED, and so
      does the loop context once a pass has run. */
  ghost predicate Restarted<P, S>(xs: seq<Instance<P, S>>, start: seq<Snapshot<P, S>>, before: seq<seq<Call<P, S>>>,
                                  c: Context, seen: seq<Context>)
    reads Objects(xs)
  {
    AtTick(xs, start, before, |seen|) && AllUpdated(seen) && (|seen| > 0 ==> c == UPDATED)
  }

  /** One more boot over instances that have had k of them since the
      snapshots `start` and traces `before`. */
  method Reboot<P, S>(xs: seq<Instance<P, S>>, ghost k: nat, ghost start: seq<Snapshot<P, S>>, ghost before: seq<seq<Call<P, S>>>)
      returns (c: Context)
    requires Distinct(xs) && AtTick(xs, start, before, k)
    modifies Objects(xs)
    ensures c == UPDATED
    ensures AtTick(xs, start, before, k + 1)
  {
    c := Boot(xs);
    forall i | 0 <= i < |xs|
      ensures var o := Ticks(xs[i].cb, start[i], k + 1);
        xs[i].View() == o.after && xs[i].trace == before[i] + o.calls
    {
      var prev := Ticks(xs[i].cb, start[i], k);
      var o := Dispatch(xs[i].cb, prev.after, Ctx(UPDATED));
      assert Ticks(xs[i].cb, start[i], k + 1) == LastTick(xs[i].cb, start[i], k + 1);
      assert xs[i].trace == before[i] + prev.calls + o.calls;
    }
  }

  /** Two ticks of `apply` on a RELEASED instance whose should_update takes
      the new props p. The first tick (context UPDATED) prepares: will_update
      runs and the props are already p. The next tick, whatever its context,
      stages with a null pointer, so release and did_update run and the
      props q proposed then are dropped. */
  lemma TwoPhaseApply<P, S>(cb: Callbacks<P, S>, s: Snapshot<P, S>, p: P, q: P, later: Context)
    requires s.stage == Released && cb.shouldUpdate(s.props, s.state, p)
    ensures var first := Dispatch(cb, s, ApplyTrigger(UPDATED, s.stage, p));
      var second := Dispatch(cb, first.after, ApplyTrigger(later, first.after.stage, q));
      && first.result == UPDATED && first.after.stage == Prepared && first.after.props == p
      && Hooks(first.calls) == [ShouldUpdate, WillUpdate]
      && second.result == UPDATED && Hooks(second.calls) == [Release, DidUpdate]
      && second.after == Snapshot(Released, p, cb.didUpdate(p, cb.release(p, cb.willUpdate(s.props, s.state, p))))
  {
    UpdatePrepared(cb, s, NewProps(p));
    var first := Dispatch(cb, s, ApplyTrigger(UPDATED, s.stage, p));
    CommitSequence(cb, first.after, Ctx(SAME));
  }

  /** After `react` under a SAME or UPDATED loop context the instance is
      RELEASED with the new props, and the forced staging ran will_update
      (seeing the props the first staging left), release and did_update,
      without asking should_update. */
  lemma ReactForces<P, S>(cb: Callbacks<P, S>, s: Snapshot<P, S>, context: Context, p: P)
    requires context == SAME || context == UPDATED
    ensures var first := Dispatch(cb, s, Ctx(context));
      var forced := Dispatch(cb, first.after.(stage := Reacting), NewProps(p));
      && forced.after.stage == Released && forced.after.props == p
      && Hooks(forced.calls) == [WillUpdate, Release, DidUpdate]
      && forced.calls[0].props == first.after.props
      && forced.after.state == cb.didUpdate(p, cb.release(p, cb.willUpdate(first.after.props, first.after.state, p)))
  {
    var first := Dispatch(cb, s, Ctx(context));
    ReactSequence(cb, first.after.(stage := Reacting), NewProps(p));
  }
}

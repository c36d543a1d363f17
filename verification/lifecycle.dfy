/**
  The instance lifecycle (`skynet_module_instance_create`, `_init`, `_release`
  and `_signal` in skynet-src/skynet_module.c): thin dispatch over a record's
  entry points, with fallbacks for the optional ones.

  The entry points are foreign code. What the model keeps is which entry point
  is invoked, with which arguments, and what comes back: each operation yields
  the invocations it makes, and the values returned by `create()` and `init()`
  are oracle parameters.
*/
module Lifecycle {
  import opened Wrappers
  import Registry

  /** A pointer on a 64-bit target. */
  type Addr = bv64

  /** `(void *)(intptr_t)(~0)`: the instance of a module without `create`. */
  const NoInstanceData: Addr := 0xFFFF_FFFF_FFFF_FFFF

  /** A `struct skynet_context *`, passed through to `init` untouched. */
  type Ctx = Addr

  /** A call into the module's code. The `init` parameter string is a
      `const char *` that may be NULL. */
  datatype Invocation<S> =
    | InvokeCreate(entry: S)
    | InvokeInit(entry: S, inst: Addr, ctx: Ctx, parm: Option<string>)
    | InvokeRelease(entry: S, inst: Addr)
    | InvokeSignal(entry: S, inst: Addr, signal: int)

  /** A lifecycle operation's result and the calls it made into the module. */
  datatype Effect<T, S> = Effect(value: T, calls: seq<Invocation<S>>)

  /** `skynet_module_instance_create`: call `create` when there is one,
      otherwise hand out the all-ones sentinel without calling anything. */
  function InstanceCreate<H, S>(m: Registry.Module<H, S>, create: S -> Addr): (e: Effect<Addr, S>)
    ensures m.api.create.None? ==> e.calls == [] && e.value == NoInstanceData
    ensures m.api.create.Some? ==>
      e.calls == [InvokeCreate(m.api.create.value)] && e.value == create(m.api.create.value)
  {
    match m.api.create
    case Some(f) => Effect(create(f), [InvokeCreate(f)])
    case None => Effect(NoInstanceData, [])
  }

  /** `skynet_module_instance_init`: always one call of `init`, whose status is
      returned unchanged. */
  function InstanceInit<H, S>(m: Registry.Module<H, S>, inst: Addr, ctx: Ctx, parm: Option<string>,
                              init: (S, Addr, Ctx, Option<string>) -> int): (e: Effect<int, S>)
    ensures e.calls == [InvokeInit(m.api.init, inst, ctx, parm)]
    ensures e.value == init(m.api.init, inst, ctx, parm)
  {
    Effect(init(m.api.init, inst, ctx, parm), [InvokeInit(m.api.init, inst, ctx, parm)])
  }

  /** `skynet_module_instance_release`: call `release` when there is one,
      otherwise do nothing. */
  function InstanceRelease<H, S>(m: Registry.Module<H, S>, inst: Addr): (calls: seq<Invocation<S>>)
    ensures m.api.release.None? ==> calls == []
    ensures m.api.release.Some? ==> calls == [InvokeRelease(m.api.release.value, inst)]
  {
    match m.api.release
    case Some(f) => [InvokeRelease(f, inst)]
    case None => []
  }

  /** `skynet_module_instance_signal`: call `signal` when there is one,
      otherwise do nothing. */
  function InstanceSignal<H, S>(m: Registry.Module<H, S>, inst: Addr, signal: int): (calls: seq<Invocation<S>>)
    ensures m.api.signal.None? ==> calls == []
    ensures m.api.signal.Some? ==> calls == [InvokeSignal(m.api.signal.value, inst, signal)]
  {
    match m.api.signal
    case Some(f) => [InvokeSignal(f, inst, signal)]
    case None => []
  }

  /** The entry points a record holds. */
  ghost predicate Holds<H, S>(m: Registry.Module<H, S>, f: S) {
    m.api.create == Some(f) || m.api.init == f || m.api.release == Some(f) || m.api.signal == Some(f)
  }

  /** The calls a service makes over its life: create, init with the instance
      create gave, the signals, then release of that same instance. */
  function Lifetime<H, S>(m: Registry.Module<H, S>, create: S -> Addr, ctx: Ctx, parm: Option<string>,
                          init: (S, Addr, Ctx, Option<string>) -> int, signals: seq<int>): seq<Invocation<S>>
  {
    var c := InstanceCreate(m, create);
    c.calls + InstanceInit(m, c.value, ctx, parm, init).calls
      + Signals(m, c.value, signals) + InstanceRelease(m, c.value)
  }

  /** The calls made by delivering the signals in order. */
  function Signals<H, S>(m: Registry.Module<H, S>, inst: Addr, signals: seq<int>): (calls: seq<Invocation<S>>)
    ensures m.api.signal.None? ==> calls == []
    ensures m.api.signal.Some? ==> |calls| == |signals|
    ensures m.api.signal.Some? ==>
      forall k :: 0 <= k < |signals| ==> calls[k] == InvokeSignal(m.api.signal.value, inst, signals[k])
  {
    if signals == [] then []
    else InstanceSignal(m, inst, signals[0]) + Signals(m, inst, signals[1..])
  }

  /** Over a service's life, only entry points the record holds are called,
      `init` exactly once; every call gets the instance `create` handed out,
      which is the sentinel when the module has no `create`. */
  lemma LifetimeCalls<H, S>(m: Registry.Module<H, S>, create: S -> Addr, ctx: Ctx, parm: Option<string>,
                            init: (S, Addr, Ctx, Option<string>) -> int, signals: seq<int>)
    ensures var calls := Lifetime(m, create, ctx, parm, init, signals);
      var inst := InstanceCreate(m, create).value;
      && (forall k :: 0 <= k < |calls| ==> Holds(m, calls[k].entry))
      && (forall k :: 0 <= k < |calls| && !calls[k].InvokeCreate? ==> calls[k].inst == inst)
      && |set k | 0 <= k < |calls| && calls[k].InvokeInit?| == 1
      && (m.api.create.None? ==> inst == NoInstanceData)
  {
    var c := InstanceCreate(m, create);
    var i := InstanceInit(m, c.value, ctx, parm, init).calls;
    var sg := Signals(m, c.value, signals);
    var r := InstanceRelease(m, c.value);
    var calls := c.calls + i + sg + r;
    assert calls == Lifetime(m, create, ctx, parm, init, signals);
    assert calls[|c.calls|] == InvokeInit(m.api.init, c.value, ctx, parm);
    assert (set k | 0 <= k < |calls| && calls[k].InvokeInit?) == {|c.calls|};
  }
}

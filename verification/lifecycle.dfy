/** The instance wrapper of src/instance.rs. A loaded plugin instance is a descriptor
    (the plugin's table of entry points, some of them optional) plus the handle the
    plugin returned when it was constructed. The plugin's own code is not part of this
    model; what the wrapper does is decide which entry point to call with which
    arguments, so every operation appends the call it makes to a trace. */
module Lifecycle {
  import opened Common

  /** Which optional hooks an `LV2_Descriptor` provides. `connect_port`, `run` and
      `cleanup` are mandatory. */
  datatype Descriptor = Descriptor(hasActivate: bool, hasDeactivate: bool)

  /** `InstanceImpl { descriptor, handle, .. }`. */
  datatype InstanceImpl = InstanceImpl(descriptor: Descriptor, handle: nat)

  /** `Instance(*mut InstanceImpl)`. */
  datatype Instance = Instance(inner: InstanceImpl)

  /** One call into the plugin's descriptor. */
  datatype Event =
    | ConnectPortCall(handle: nat, port: u32, data: Ptr)
    | ActivateCall(handle: nat)
    | RunCall(handle: nat, sampleCount: u32)
    | DeactivateCall(handle: nat)
    | CleanupCall(handle: nat)

  type Trace = seq<Event>

  // The four `InstanceImpl` calls below are pass-throughs by design: each appends the
  // one descriptor call it makes, and their contracts say just that. What holds over
  // a whole session is stated by the lemmas further down.

  /** `InstanceImpl::connect_port`: forwards the port index and the pointer unchanged. */
  function ImplConnectPort(i: InstanceImpl, port: u32, data: Ptr, t: Trace): (t': Trace)
    ensures t' == t + [ConnectPortCall(i.handle, port, data)]
  {
    t + [ConnectPortCall(i.handle, port, data)]
  }

  /** `InstanceImpl::activate`: calls the activate hook only when the descriptor has one. */
  function ImplActivate(i: InstanceImpl, t: Trace): (t': Trace)
    ensures i.descriptor.hasActivate ==> t' == t + [ActivateCall(i.handle)]
    ensures !i.descriptor.hasActivate ==> t' == t
  {
    if i.descriptor.hasActivate then t + [ActivateCall(i.handle)] else t
  }

  /** `InstanceImpl::run`: forwards the sample count unchanged. */
  function ImplRun(i: InstanceImpl, sampleCount: u32, t: Trace): (t': Trace)
    ensures t' == t + [RunCall(i.handle, sampleCount)]
  {
    t + [RunCall(i.handle, sampleCount)]
  }

  /** `InstanceImpl::deactivate`: calls the deactivate hook only when present. */
  function ImplDeactivate(i: InstanceImpl, t: Trace): (t': Trace)
    ensures i.descriptor.hasDeactivate ==> t' == t + [DeactivateCall(i.handle)]
    ensures !i.descriptor.hasDeactivate ==> t' == t
  {
    if i.descriptor.hasDeactivate then t + [DeactivateCall(i.handle)] else t
  }

  /** The public `Instance` methods: each is exactly the matching `InstanceImpl` call.
      Nothing tracks whether the instance is active, so any order of calls is accepted. */
  datatype Call = ConnectPort(port: u32, data: Ptr) | Activate | Run(sampleCount: u32) | Deactivate

  function Perform(inst: Instance, c: Call, t: Trace): (t': Trace)
    ensures c.ConnectPort? ==> t' == ImplConnectPort(inst.inner, c.port, c.data, t)
    ensures c.Activate? ==> t' == ImplActivate(inst.inner, t)
    ensures c.Run? ==> t' == ImplRun(inst.inner, c.sampleCount, t)
    ensures c.Deactivate? ==> t' == ImplDeactivate(inst.inner, t)
  {
    match c
    case ConnectPort(port, data) => ImplConnectPort(inst.inner, port, data, t)
    case Activate => ImplActivate(inst.inner, t)
    case Run(n) => ImplRun(inst.inner, n, t)
    case Deactivate => ImplDeactivate(inst.inner, t)
  }

  /** `Drop for Instance`: calls `cleanup` and nothing else. */
  function Drop(inst: Instance, t: Trace): (t': Trace)
    ensures t' == t + [CleanupCall(inst.inner.handle)]
  {
    t + [CleanupCall(inst.inner.handle)]
  }

  /** A whole session: the calls in order, then the drop. */
  function PerformAll(inst: Instance, calls: seq<Call>, t: Trace): (t': Trace)
    decreases |calls|
  {
    if |calls| == 0 then t else PerformAll(inst, calls[1..], Perform(inst, calls[0], t))
  }

  function Session(inst: Instance, calls: seq<Call>): Trace {
    Drop(inst, PerformAll(inst, calls, []))
  }

  function CountCleanups(t: Trace): nat {
    if |t| == 0 then 0 else (if t[0].CleanupCall? then 1 else 0) + CountCleanups(t[1..])
  }

  function CountDeactivates(t: Trace): nat {
    if |t| == 0 then 0 else (if t[0].DeactivateCall? then 1 else 0) + CountDeactivates(t[1..])
  }

  function CountDeactivateCalls(calls: seq<Call>): nat {
    if |calls| == 0 then 0 else (if calls[0].Deactivate? then 1 else 0) + CountDeactivateCalls(calls[1..])
  }

  /** The sample counts of the `run` calls in a trace, in order. */
  function RunCounts(t: Trace): seq<u32> {
    if |t| == 0 then []
    else (if t[0].RunCall? then [t[0].sampleCount] else []) + RunCounts(t[1..])
  }

  function RunArgs(calls: seq<Call>): seq<u32> {
    if |calls| == 0 then []
    else (if calls[0].Run? then [calls[0].sampleCount] else []) + RunArgs(calls[1..])
  }

  lemma {:induction false} CountsDistribute(a: Trace, b: Trace)
    ensures CountCleanups(a + b) == CountCleanups(a) + CountCleanups(b)
    ensures CountDeactivates(a + b) == CountDeactivates(a) + CountDeactivates(b)
    ensures RunCounts(a + b) == RunCounts(a) + RunCounts(b)
    decreases |a|
  {
    if |a| > 0 {
      CountsDistribute(a[1..], b);
      assert (a + b)[0] == a[0];
      assert (a + b)[1..] == a[1..] + b;
    } else {
      assert a + b == b;
    }
  }

  /** One call's contribution to the trace. */
  lemma PerformStep(inst: Instance, c: Call, t: Trace)
    ensures var t' := Perform(inst, c, t);
            && CountCleanups(t') == CountCleanups(t)
            && CountDeactivates(t') == CountDeactivates(t)
               + (if inst.inner.descriptor.hasDeactivate && c.Deactivate? then 1 else 0)
            && RunCounts(t') == RunCounts(t) + (if c.Run? then [c.sampleCount] else [])
  {
    var t' := Perform(inst, c, t);
    if t' != t {
      CountsDistribute(t, t'[|t|..]);
      assert t' == t + t'[|t|..];
    }
  }

  /** What the wrapper contributes over a run of calls: no cleanup, one deactivate
      call per `deactivate` when the hook exists (none otherwise), and the `run` calls'
      sample counts forwarded in order. */
  lemma {:induction false} PerformAllFacts(inst: Instance, calls: seq<Call>, t: Trace)
    ensures var t' := PerformAll(inst, calls, t);
            && CountCleanups(t') == CountCleanups(t)
            && CountDeactivates(t') == CountDeactivates(t)
               + (if inst.inner.descriptor.hasDeactivate then CountDeactivateCalls(calls) else 0)
            && RunCounts(t') == RunCounts(t) + RunArgs(calls)
    decreases |calls|
  {
    if |calls| > 0 {
      var t1 := Perform(inst, calls[0], t);
      assert PerformAll(inst, calls, t) == PerformAll(inst, calls[1..], t1);
      PerformStep(inst, calls[0], t);
      PerformAllFacts(inst, calls[1..], t1);
      assert CountDeactivateCalls(calls)
             == (if calls[0].Deactivate? then 1 else 0) + CountDeactivateCalls(calls[1..]);
      assert RunArgs(calls) == (if calls[0].Run? then [calls[0].sampleCount] else []) + RunArgs(calls[1..]);
    }
  }

  /** Dropping an instance after any session calls `cleanup` exactly once, as the last
      call, and adds no `deactivate` call of its own, even when the session activated
      the instance and never deactivated it. */
  lemma SessionCleansUpOnce(inst: Instance, calls: seq<Call>)
    ensures var t := Session(inst, calls);
            && CountCleanups(t) == 1
            && t[|t| - 1] == CleanupCall(inst.inner.handle)
            && CountDeactivates(t)
               == (if inst.inner.descriptor.hasDeactivate then CountDeactivateCalls(calls) else 0)
  {
    var t := PerformAll(inst, calls, []);
    PerformAllFacts(inst, calls, []);
    CountsDistribute(t, [CleanupCall(inst.inner.handle)]);
  }

  /** Every `run` reaches the plugin with its sample count unchanged and in order. */
  lemma SessionForwardsRuns(inst: Instance, calls: seq<Call>)
    ensures RunCounts(Session(inst, calls)) == RunArgs(calls)
  {
    var t := PerformAll(inst, calls, []);
    PerformAllFacts(inst, calls, []);
    CountsDistribute(t, [CleanupCall(inst.inner.handle)]);
  }

  /** No state gates `run`: on a freshly created instance it goes straight to the
      plugin, before any `activate`. */
  lemma RunBeforeActivateIsForwarded(inst: Instance, n: u32)
    ensures Session(inst, [Run(n)]) == [RunCall(inst.inner.handle, n), CleanupCall(inst.inner.handle)]
  {
    assert [Run(n)][1..] == [];
    assert Perform(inst, Run(n), []) == [RunCall(inst.inner.handle, n)];
    assert PerformAll(inst, [Run(n)], []) == PerformAll(inst, [], [RunCall(inst.inner.handle, n)]);
  }
}

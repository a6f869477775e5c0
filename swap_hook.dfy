/**
 * The swap hook framework: one global slot for a swap_hook_ops table, set
 * at most once, and three dispatchers that forward to the registered table.
 *
 * The callbacks are code outside the model; invoking one is recorded as an
 * entry of a call trace.  READ_ONCE and WRITE_ONCE only matter for
 * concurrency, which is not modelled.
 */
module SwapHook {

  import opened Common

  const EINVAL: int := 22

  /** A registered swap_hook_ops table, identified by its address. */
  datatype SwapHookOps = SwapHookOps(addr: nat)

  /** One callback invocation, with the arguments the callback received. */
  datatype Callback =
    | StoreCb(page: nat)
    | InvalidatePageCb(swapType: nat, offset: nat)
    | InvalidateAreaCb(swapType: nat)

  datatype Call = Call(ops: SwapHookOps, cb: Callback)

  /** The operations a caller can perform; swap types are C ints. */
  datatype Op =
    | RegisterOps(ops: Option<SwapHookOps>)
    | Store(page: nat)
    | InvalidatePage(swapType: int32, offset: nat)
    | InvalidateArea(swapType: int32)

  /** registered_swap_hook_ops and the callbacks invoked so far. */
  datatype HookState = HookState(slot: Option<SwapHookOps>, calls: seq<Call>)

  /** The callback a dispatcher passes its arguments to; the int swap type becomes unsigned. */
  function CallbackFor(op: Op): Callback
    requires !op.RegisterOps?
  {
    match op
    case Store(page) => StoreCb(page)
    case InvalidatePage(t, off) => InvalidatePageCb(ToU32(t), off)
    case InvalidateArea(t) => InvalidateAreaCb(ToU32(t))
  }

  /** What swap_hook_register_ops returns when the slot holds slot. */
  function RegisterResult(slot: Option<SwapHookOps>): int
  {
    if slot.Some? then -EINVAL else 0
  }

  /** One operation on the hook state. */
  function Step(s: HookState, op: Op): HookState
  {
    match op
    case RegisterOps(ops) => if s.slot.Some? then s else HookState(ops, s.calls)
    case _ =>
      if s.slot.Some? then HookState(s.slot, s.calls + [Call(s.slot.value, CallbackFor(op))])
      else s
  }

  /** A run of operations, applied in order. */
  function Run(s: HookState, ops: seq<Op>): HookState
    decreases |ops|
  {
    if ops == [] then s else Run(Step(s, ops[0]), ops[1..])
  }

  /** The first non-NULL table among the ones passed to register. */
  function FirstNonNull(ops: seq<Op>): Option<SwapHookOps>
    decreases |ops|
  {
    if ops == [] then None
    else if ops[0].RegisterOps? && ops[0].ops.Some? then ops[0].ops
    else FirstNonNull(ops[1..])
  }

  /** The global slot with its call trace. */
  class SwapHookSlot {
    var registered: Option<SwapHookOps>
    var calls: seq<Call>

    function State(): HookState
      reads this
    {
      HookState(registered, calls)
    }

    /** The slot starts out empty. */
    constructor()
      ensures registered == None && calls == []
    {
      registered := None;
      calls := [];
    }

    /** swap_hook_register_ops: fill the slot unless it already holds a table. */
    method RegisterOps(ops: Option<SwapHookOps>) returns (err: int)
      modifies this
      ensures err == RegisterResult(old(registered))
      ensures old(registered).Some? ==> err == -EINVAL && registered == old(registered)
      ensures old(registered).None? ==> err == 0 && registered == ops
      ensures calls == old(calls)
      ensures State() == Step(old(State()), Op.RegisterOps(ops))
    {
      if registered.Some? {
        return -EINVAL;
      }
      registered := ops;
      return 0;
    }

    /** swap_hook_store: hand the page to the registered store callback, if any. */
    method Store(page: nat)
      modifies this
      ensures registered == old(registered)
      ensures registered.None? ==> calls == old(calls)
      ensures registered.Some? ==> calls == old(calls) + [Call(registered.value, StoreCb(page))]
      ensures State() == Step(old(State()), Op.Store(page))
    {
      var ops := registered;
      if ops.Some? {
        calls := calls + [Call(ops.value, StoreCb(page))];
      }
    }

    /** swap_hook_invalidate_page: forward to invalidate_page, if a table is registered. */
    method InvalidatePage(swapType: int32, offset: nat)
      modifies this
      ensures registered == old(registered)
      ensures registered.None? ==> calls == old(calls)
      ensures registered.Some? ==>
                calls == old(calls) + [Call(registered.value, InvalidatePageCb(ToU32(swapType), offset))]
      ensures State() == Step(old(State()), Op.InvalidatePage(swapType, offset))
    {
      var ops := registered;
      if ops.Some? {
        calls := calls + [Call(ops.value, InvalidatePageCb(ToU32(swapType), offset))];
      }
    }

    /** swap_hook_invalidate_area: forward to invalidate_area, if a table is registered. */
    method InvalidateArea(swapType: int32)
      modifies this
      ensures registered == old(registered)
      ensures registered.None? ==> calls == old(calls)
      ensures registered.Some? ==> calls == old(calls) + [Call(registered.value, InvalidateAreaCb(ToU32(swapType)))]
      ensures State() == Step(old(State()), Op.InvalidateArea(swapType))
    {
      var ops := registered;
      if ops.Some? {
        calls := calls + [Call(ops.value, InvalidateAreaCb(ToU32(swapType)))];
      }
    }
  }

  /** Registering on an empty slot stores the table and succeeds; on a full slot it fails and changes nothing. */
  lemma RegisterOutcome(s: HookState, ops: Option<SwapHookOps>)
    ensures s.slot.None? ==> Step(s, RegisterOps(ops)) == HookState(ops, s.calls)
                             && RegisterResult(s.slot) == 0
    ensures s.slot.Some? ==> Step(s, RegisterOps(ops)) == s && RegisterResult(s.slot) == -EINVAL
  {
  }

  /** Registering NULL leaves the slot open, so a later registration still succeeds. */
  lemma NullRegistrationKeepsSlotOpen(calls: seq<Call>, ops: SwapHookOps)
    ensures var s := Step(HookState(None, calls), RegisterOps(None));
            s.slot == None && RegisterResult(s.slot) == 0
            && Step(s, RegisterOps(Some(ops))).slot == Some(ops)
  {
  }

  /** With the slot empty, a dispatcher does nothing at all. */
  lemma EmptySlotDispatchIsNoop(s: HookState, op: Op)
    requires s.slot.None? && !op.RegisterOps?
    ensures Step(s, op) == s
  {
  }

  /** With a table registered, a dispatcher calls exactly its own callback once and leaves the slot. */
  lemma DispatchCallsOwnCallbackOnce(s: HookState, op: Op)
    requires s.slot.Some? && !op.RegisterOps?
    ensures Step(s, op).slot == s.slot
    ensures Step(s, op).calls == s.calls + [Call(s.slot.value, CallbackFor(op))]
    ensures op.Store? ==> CallbackFor(op) == StoreCb(op.page)
    ensures op.InvalidatePage? ==> CallbackFor(op).InvalidatePageCb? && CallbackFor(op).offset == op.offset
    ensures op.InvalidatePage? && op.swapType >= 0 ==> CallbackFor(op).swapType == op.swapType as int
    ensures op.InvalidateArea? && op.swapType >= 0 ==> CallbackFor(op) == InvalidateAreaCb(op.swapType as int)
  {
  }

  /** There is no unregister: once a table is stored, no run of operations changes the slot. */
  lemma {:induction false} SlotNeverChangesOnceSet(s: HookState, ops: seq<Op>)
    requires s.slot.Some?
    ensures Run(s, ops).slot == s.slot
    decreases |ops|
  {
    if ops != [] {
      SlotNeverChangesOnceSet(Step(s, ops[0]), ops[1..]);
    }
  }

  /** Starting from an empty slot, the slot ends up holding the first non-NULL table ever registered. */
  lemma {:induction false} FirstNonNullRegistrationWins(calls: seq<Call>, ops: seq<Op>)
    ensures Run(HookState(None, calls), ops).slot == FirstNonNull(ops)
    decreases |ops|
  {
    if ops != [] {
      var s := Step(HookState(None, calls), ops[0]);
      if ops[0].RegisterOps? && ops[0].ops.Some? {
        SlotNeverChangesOnceSet(s, ops[1..]);
      } else {
        FirstNonNullRegistrationWins(s.calls, ops[1..]);
      }
    }
  }

  /** Every recorded call went to the table the slot holds. */
  predicate CallsMatchSlot(s: HookState)
  {
    forall i :: 0 <= i < |s.calls| ==> s.slot == Some(s.calls[i].ops)
  }

  /** One operation keeps every recorded call pointing at the slot's table. */
  lemma StepKeepsCallsMatch(s: HookState, op: Op)
    requires CallsMatchSlot(s)
    ensures CallsMatchSlot(Step(s, op))
  {
    var s' := Step(s, op);
    if !op.RegisterOps? && s.slot.Some? {
      assert forall i :: 0 <= i < |s.calls| ==> s'.calls[i] == s.calls[i];
    }
  }

  /** Every callback ever invoked went to the table the slot holds: no call reaches another table. */
  lemma {:induction false} CallsGoToRegisteredOps(s: HookState, run: seq<Op>)
    requires CallsMatchSlot(s)
    ensures CallsMatchSlot(Run(s, run))
    decreases |run|
  {
    if run != [] {
      StepKeepsCallsMatch(s, run[0]);
      CallsGoToRegisteredOps(Step(s, run[0]), run[1..]);
    }
  }
}

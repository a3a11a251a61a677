/** GpioImpl: the application's handle on a GPIO pin. It checks each argument, and
    tracks the configured direction so that output-only and input-only calls are
    refused before any call reaches the service. */
module ClientGpio {
  import opened Lang
  import opened Constants
  import opened Rpc
  import opened Callbacks

  /** A GpioImpl call that its guards inspect. */
  datatype GpioOp =
    | SetDirection(d: int)
    | SetValue(high: bool)
    | SetEdgeTriggerType(e: int)
    | SetActiveType(t: int)
    | RegisterCallback(callback: Option<ClientCallback>)

  predicate ValidDirection(d: int)
  {
    DirectionIn <= d <= DirectionOutInitiallyLow
  }

  /** What the call's guards decide for a client whose direction is `direction`: the
      exception thrown before any service call, or Pass. A RemoteException of the service
      call itself is swallowed by every GpioOp call. */
  function Check(direction: int, op: GpioOp): Outcome
  {
    match op
    case SetDirection(d) =>
      if !ValidDirection(d) then Fail(IllegalArgument) else Pass
    case SetValue(_) =>
      if direction == DirectionIn then Fail(IO(NotOutputMode)) else Pass
    case SetEdgeTriggerType(e) =>
      if e < EdgeNone || e > EdgeBoth then Fail(IllegalArgument)
      else if direction != DirectionIn then Fail(IO(NotInputMode)) else Pass
    case SetActiveType(t) =>
      if t != ActiveLow && t != ActiveHigh then Fail(IllegalArgument) else Pass
    case RegisterCallback(callback) =>
      if direction != DirectionIn then Fail(IO(NotInputMode))
      else if callback == None then Fail(IO(NullCallback)) else Pass
  }

  /** The client's direction after the call: only an accepted `setDirection` changes it. */
  function NextDirection(direction: int, op: GpioOp): int
  {
    if op.SetDirection? && Check(direction, op) == Pass then op.d else direction
  }

  /** The direction after a sequence of calls, applied from the first. */
  function Configure(direction: int, ops: seq<GpioOp>): int
    decreases |ops|
  {
    if ops == [] then direction else Configure(NextDirection(direction, ops[0]), ops[1..])
  }

  /** The argument of the last `setDirection` in `ops` with a valid direction, or
      `initial` if there is none. */
  function LastDirection(initial: int, ops: seq<GpioOp>): int
    decreases |ops|
  {
    if ops == [] then initial
    else
      var last := ops[|ops| - 1];
      if last.SetDirection? && ValidDirection(last.d) then last.d
      else LastDirection(initial, ops[..|ops| - 1])
  }

  lemma {:induction false} ConfigureSnoc(direction: int, ops: seq<GpioOp>, op: GpioOp)
    ensures Configure(direction, ops + [op]) == NextDirection(Configure(direction, ops), op)
    decreases |ops|
  {
    if ops == [] {
      assert ops + [op] == [op];
      assert [op][1..] == [];
    } else {
      assert (ops + [op])[0] == ops[0] && (ops + [op])[1..] == ops[1..] + [op];
      ConfigureSnoc(NextDirection(direction, ops[0]), ops[1..], op);
    }
  }

  /** The direction a GpioImpl is in is the one last accepted by `setDirection`. */
  lemma {:induction false} ConfigureIsLastDirection(initial: int, ops: seq<GpioOp>)
    ensures Configure(initial, ops) == LastDirection(initial, ops)
    decreases |ops|
  {
    if ops != [] {
      var front, last := ops[..|ops| - 1], ops[|ops| - 1];
      assert ops == front + [last];
      ConfigureSnoc(initial, front, last);
      ConfigureIsLastDirection(initial, front);
    }
  }

  /** Starting from a valid direction, the direction stays valid whatever is called. */
  lemma {:induction false} ConfigureKeepsValid(initial: int, ops: seq<GpioOp>)
    requires ValidDirection(initial)
    ensures ValidDirection(Configure(initial, ops))
    decreases |ops|
  {
    if ops != [] {
      ConfigureKeepsValid(NextDirection(initial, ops[0]), ops[1..]);
    }
  }

  /** The gate of a new GpioImpl (direction 0, DIRECTION_IN): after any calls `ops`,
      `setValue` passes exactly when the last accepted `setDirection` chose an output
      direction, and edge triggers and callbacks are refused exactly then. */
  lemma DirectionGates(ops: seq<GpioOp>, high: bool, e: int, callback: ClientCallback)
    requires EdgeNone <= e <= EdgeBoth
    ensures Check(Configure(DirectionIn, ops), GpioOp.SetValue(high)) == Pass <==>
              LastDirection(DirectionIn, ops) in {DirectionOutInitiallyHigh, DirectionOutInitiallyLow}
    ensures Check(Configure(DirectionIn, ops), GpioOp.SetEdgeTriggerType(e)) == Pass <==>
              LastDirection(DirectionIn, ops) == DirectionIn
    ensures Check(Configure(DirectionIn, ops), RegisterCallback(Some(callback))) == Pass <==>
              LastDirection(DirectionIn, ops) == DirectionIn
  {
    ConfigureIsLastDirection(DirectionIn, ops);
    ConfigureKeepsValid(DirectionIn, ops);
  }

  class GpioImpl {
    const name: string
    const pin: int
    const thingsId: int
    const manager: ManagerProxy
    /** `mWrapperCallback`, the CallbackWrapper the service calls on an edge. */
    const wrapper: CallbackWrapper
    var direction: int

    /** Registers the pin lease with the service; the direction starts at Java's
        default 0, which is DIRECTION_IN. */
    constructor(name: string, pin: int, manager: ManagerProxy, thingsId: int)
      modifies manager`calls
      ensures this.name == name && this.pin == pin && this.manager == manager && this.thingsId == thingsId
      ensures direction == DirectionIn
      ensures fresh(wrapper) && wrapper.pin == pin && wrapper.manager == manager && wrapper.callback == None
      ensures manager.calls == old(manager.calls) + [Register(pin, thingsId)]
    {
      this.name := name;
      this.pin := pin;
      this.thingsId := thingsId;
      this.manager := manager;
      wrapper := new CallbackWrapper(pin, manager);
      direction := 0;
      new;
      manager.Invoke(Register(pin, thingsId));
    }

    /** Throws when the service reports false; the lease is unregistered only after a
        successful close. */
    method Close(reply: Reply<bool>) returns (o: Outcome)
      modifies manager`calls
      ensures o == StatusOutcome(reply)
      ensures manager.calls == old(manager.calls) + [CloseGpio(pin)]
                               + if o == Pass then [Unregister(pin, thingsId)] else []
    {
      o := CloseLease(manager, CloseGpio(pin), Unregister(pin, thingsId), reply);
    }

    /** The service's value, or false on a RemoteException. */
    method GetValue(reply: Reply<bool>) returns (value: bool)
      modifies manager`calls
      ensures value <==> Succeeded(reply)
      ensures manager.calls == old(manager.calls) + [GetGpioValue(pin)]
    {
      manager.Invoke(GetGpioValue(pin));
      value := if reply.Returned? then reply.value else false;
    }

    method SetDirection(d: int) returns (o: Outcome)
      modifies this`direction, manager`calls
      ensures o == Check(old(direction), GpioOp.SetDirection(d))
      ensures direction == NextDirection(old(direction), GpioOp.SetDirection(d))
      ensures manager.calls == old(manager.calls) + if o == Pass then [SetGpioDirection(pin, d)] else []
    {
      if d < DirectionIn || d > DirectionOutInitiallyLow {
        return Fail(IllegalArgument);
      }
      direction := d;
      manager.Invoke(SetGpioDirection(pin, d));
      o := Pass;
    }

    method SetValue(high: bool) returns (o: Outcome)
      modifies manager`calls
      ensures o == Check(direction, GpioOp.SetValue(high))
      ensures manager.calls == old(manager.calls) + if o == Pass then [SetGpioValue(pin, high)] else []
    {
      if direction == DirectionIn {
        return Fail(IO(NotOutputMode));
      }
      manager.Invoke(SetGpioValue(pin, high));
      o := Pass;
    }

    method SetEdgeTriggerType(e: int) returns (o: Outcome)
      modifies manager`calls
      ensures o == Check(direction, GpioOp.SetEdgeTriggerType(e))
      ensures manager.calls == old(manager.calls) + if o == Pass then [Call.SetEdgeTriggerType(pin, e)] else []
    {
      if e < EdgeNone || e > EdgeBoth {
        return Fail(IllegalArgument);
      }
      if direction != DirectionIn {
        return Fail(IO(NotInputMode));
      }
      manager.Invoke(Call.SetEdgeTriggerType(pin, e));
      o := Pass;
    }

    /** The active type is only checked and passed on; the client does not keep it. */
    method SetActiveType(t: int) returns (o: Outcome)
      modifies manager`calls
      ensures o == Check(direction, GpioOp.SetActiveType(t))
      ensures manager.calls == old(manager.calls) + if o == Pass then [SetGpioActiveType(pin, t)] else []
    {
      if t != ActiveLow && t != ActiveHigh {
        return Fail(IllegalArgument);
      }
      manager.Invoke(SetGpioActiveType(pin, t));
      o := Pass;
    }

    /** Installs the application's callback in the wrapper and registers the wrapper. */
    method RegisterGpioCallback(callback: Option<ClientCallback>) returns (o: Outcome)
      modifies wrapper`callback, manager`calls
      ensures o == Check(direction, GpioOp.RegisterCallback(callback))
      ensures o != Pass ==> wrapper.callback == old(wrapper.callback) && manager.calls == old(manager.calls)
      ensures o == Pass ==> wrapper.callback == callback
                            && manager.calls == old(manager.calls) + [Call.RegisterGpioCallback(pin, wrapper)]
    {
      if direction != DirectionIn {
        return Fail(IO(NotInputMode));
      }
      if callback == None {
        return Fail(IO(NullCallback));
      }
      wrapper.callback := callback;
      manager.Invoke(Call.RegisterGpioCallback(pin, wrapper));
      o := Pass;
    }

    /** Acts only when `callback` is the installed one (null included); the callback is
        cleared only if the unregister call does not throw RemoteException. */
    method UnregisterGpioCallback(callback: Option<ClientCallback>, remoteFails: bool)
      modifies wrapper`callback, manager`calls
      ensures old(wrapper.callback) != callback ==>
                wrapper.callback == old(wrapper.callback) && manager.calls == old(manager.calls)
      ensures old(wrapper.callback) == callback ==>
                manager.calls == old(manager.calls) + [Call.UnregisterGpioCallback(pin, wrapper)]
                && wrapper.callback == if remoteFails then callback else None
    {
      if wrapper.callback == callback {
        manager.Invoke(Call.UnregisterGpioCallback(pin, wrapper));
        if !remoteFails {
          wrapper.callback := None;
        }
      }
    }
  }
}

/** OdroidGpio: one GPIO pin on the board side. It keeps the pin's configuration
    (`GpioState`), passes each setting to the native layer, and broadcasts an edge to
    the single remote callback list the last registration installed. */
module NativeGpio {
  import opened Lang
  import opened Constants
  import opened Broadcast

  /** A call into the GPIO native layer. */
  datatype NativeCall =
    | DirectionSet(pin: int, direction: int)
    | ValueSet(pin: int, high: bool)
    | ValueRead(pin: int)
    | ActiveTypeSet(pin: int, activeType: int)
    | EdgeTriggerTypeSet(pin: int, triggerType: int)
    | CallbackRegistered(pin: int)
    | CallbackUnregistered(pin: int)

  /** The logical value `getValue` reports for the native level `raw`. */
  function Level(activeType: int, raw: bool): bool
  {
    if activeType == ActiveLow then !raw else raw
  }

  /** `getValue` inverts the native level exactly for an active-low pin, and reading
      back through the same active type recovers the native level. */
  lemma LevelInvertsActiveLow(activeType: int, raw: bool)
    ensures Level(activeType, raw) != raw <==> activeType == ActiveLow
    ensures Level(activeType, Level(activeType, raw)) == raw
  {
  }

  class OdroidGpio {
    const pin: int
    var direction: int
    var activeType: int
    var triggerType: int
    /** The `RemoteCallbackList`; None while null. */
    var remoteCallback: Option<seq<Listener>>
    /** Native calls made for this pin, oldest first. */
    ghost var native: seq<NativeCall>
    /** Remote callbacks reached by edge broadcasts, oldest first. */
    ghost var delivered: seq<Listener>

    /** A new pin is active-high, with no callback list; `direction` and `triggerType`
        keep Java's default 0. */
    constructor(pin: int)
      ensures this.pin == pin && activeType == ActiveHigh
      ensures direction == 0 && triggerType == 0
      ensures remoteCallback == None && native == [] && delivered == []
    {
      this.pin := pin;
      direction := 0;
      activeType := ActiveHigh;
      triggerType := 0;
      remoteCallback := None;
      native := [];
      delivered := [];
    }

    /** The native callback is unregistered only when a callback list exists. */
    method Close()
      modifies this`native
      ensures native == old(native) + if remoteCallback.Some? then [CallbackUnregistered(pin)] else []
    {
      if remoteCallback.Some? {
        native := native + [CallbackUnregistered(pin)];
      }
    }

    method SetDirection(d: int)
      modifies this`direction, this`native
      ensures direction == d
      ensures native == old(native) + [DirectionSet(pin, d)]
    {
      direction := d;
      native := native + [DirectionSet(pin, d)];
    }

    method SetValue(value: bool)
      modifies this`native
      ensures native == old(native) + [ValueSet(pin, value)]
    {
      native := native + [ValueSet(pin, value)];
    }

    /** `raw` is the level the native layer reads. */
    method GetValue(raw: bool) returns (value: bool)
      modifies this`native
      ensures value == Level(activeType, raw)
      ensures native == old(native) + [ValueRead(pin)]
    {
      native := native + [ValueRead(pin)];
      value := raw;
      if activeType == ActiveLow {
        value := !value;
      }
    }

    method SetActiveType(t: int)
      modifies this`activeType, this`native
      ensures activeType == t
      ensures native == old(native) + [ActiveTypeSet(pin, t)]
    {
      activeType := t;
      native := native + [ActiveTypeSet(pin, t)];
    }

    method SetEdgeTriggerType(e: int)
      modifies this`triggerType, this`native
      ensures triggerType == e
      ensures native == old(native) + [EdgeTriggerTypeSet(pin, e)]
    {
      triggerType := e;
      native := native + [EdgeTriggerTypeSet(pin, e)];
    }

    /** A fresh list holding only `callback` replaces any earlier one: the last
        registration wins. */
    method RegisterCallback(callback: Listener)
      modifies this`remoteCallback, this`native
      ensures remoteCallback == Some([callback])
      ensures forall failing :: Reached(remoteCallback.value, failing) == if callback in failing then [] else [callback]
      ensures native == old(native) + [CallbackRegistered(pin)]
    {
      remoteCallback := Some([callback]);
      assert [callback][1..] == [];
      native := native + [CallbackRegistered(pin)];
    }

    /** The native unregister comes first; then the list is dropped, or, with no list,
        the dereference throws NullPointerException. */
    method UnregisterCallback(callback: Listener) returns (o: Outcome)
      modifies this`remoteCallback, this`native
      ensures native == old(native) + [CallbackUnregistered(pin)]
      ensures remoteCallback == None
      ensures o == if old(remoteCallback).Some? then Pass else Fail(NullPointer)
    {
      native := native + [CallbackUnregistered(pin)];
      if remoteCallback == None {
        return Fail(NullPointer);
      }
      remoteCallback := None;
      o := Pass;
    }

    /** An edge: every registered callback is called, and those in `failing` throw
        RemoteException, which is swallowed. With no list, `beginBroadcast` dereferences
        null and the NullPointerException escapes. */
    method DoCallback(failing: set<Listener>) returns (o: Outcome)
      modifies this`delivered
      ensures remoteCallback.None? ==> o == Fail(NullPointer) && delivered == old(delivered)
      ensures remoteCallback.Some? ==>
                o == Pass && delivered == old(delivered) + Reached(remoteCallback.value, failing)
    {
      if remoteCallback == None {
        return Fail(NullPointer);
      }
      var reached := Deliver(remoteCallback.value, failing);
      delivered := delivered + reached;
      o := Pass;
    }
  }
}

/** OdroidUart: one UART port on the board side. It opens the native port when built,
    keeps its index in `state` until closed, and broadcasts data-available events to the
    single remote callback list the last registration installed. */
module NativeUart {
  import opened Lang
  import opened Broadcast

  /** A call into the UART native layer. */
  datatype NativeCall =
    | PortOpened(idx: int)
    | PortClosed(idx: int)
    | CallbackRegistered(idx: int)
    | CallbackUnregistered(idx: int)

  class OdroidUart {
    /** `UartState`'s index; None once the port is closed (`state = null`). */
    var state: Option<int>
    /** The `RemoteCallbackList`; None while null. */
    var remoteCallback: Option<seq<Listener>>
    /** Native calls made for this port, oldest first. */
    ghost var native: seq<NativeCall>
    /** Remote callbacks reached by data-available broadcasts, oldest first. */
    ghost var delivered: seq<Listener>

    /** Building the port opens the native port for its index. */
    constructor(idx: int)
      ensures state == Some(idx) && remoteCallback == None
      ensures native == [PortOpened(idx)] && delivered == []
    {
      state := Some(idx);
      remoteCallback := None;
      native := [PortOpened(idx)];
      delivered := [];
    }

    /** A registered list is dropped (native unregister first) before the native close;
        afterwards `state` is null, so a second close throws NullPointerException. */
    method Close() returns (o: Outcome)
      modifies this`state, this`remoteCallback, this`native
      ensures old(state).None? ==> o == Fail(NullPointer) && state == None
                                   && remoteCallback == old(remoteCallback) && native == old(native)
      ensures old(state).Some? ==>
                o == Pass && state == None && remoteCallback == None
                && native == old(native)
                             + (if old(remoteCallback).Some? then [CallbackUnregistered(old(state).value)] else [])
                             + [PortClosed(old(state).value)]
    {
      if state == None {
        return Fail(NullPointer);
      }
      var idx := state.value;
      if remoteCallback.Some? {
        native := native + [CallbackUnregistered(idx)];
        remoteCallback := None;
      }
      native := native + [PortClosed(idx)];
      state := None;
      o := Pass;
    }

    /** A fresh list holding only `callback` replaces any earlier one. It is installed
        before `state` is read, so on a closed port the list is set and the call throws. */
    method RegisterCallback(callback: Listener) returns (o: Outcome)
      modifies this`remoteCallback, this`native
      ensures remoteCallback == Some([callback])
      ensures state.Some? ==> o == Pass && native == old(native) + [CallbackRegistered(state.value)]
      ensures state.None? ==> o == Fail(NullPointer) && native == old(native)
    {
      remoteCallback := Some([callback]);
      if state == None {
        return Fail(NullPointer);
      }
      native := native + [CallbackRegistered(state.value)];
      o := Pass;
    }

    /** The native unregister, then the list is cleared to null; a closed port or a
        missing list throws NullPointerException at the dereference. */
    method UnregisterCallback(callback: Listener) returns (o: Outcome)
      modifies this`remoteCallback, this`native
      ensures state.None? ==> o == Fail(NullPointer) && remoteCallback == old(remoteCallback) && native == old(native)
      ensures state.Some? ==> native == old(native) + [CallbackUnregistered(state.value)] && remoteCallback == None
      ensures state.Some? ==> o == if old(remoteCallback).Some? then Pass else Fail(NullPointer)
    {
      if state == None {
        return Fail(NullPointer);
      }
      native := native + [CallbackUnregistered(state.value)];
      if remoteCallback == None {
        return Fail(NullPointer);
      }
      remoteCallback := None;
      o := Pass;
    }

    /** Data available: every registered callback is called, and those in `failing` throw
        RemoteException, which is swallowed. With no list the NullPointerException escapes. */
    method DoCallback(failing: set<Listener>) returns (o: Outcome)
      modifies this`delivered
      ensures remoteCallback.None? ==> o == Fail(NullPointer) && delivered == old(delivered)
      ensures remoteCallback.Some? ==>
                o == Pass && delivered == old(delivered) + Reached(remoteCallback.value, failing)
    {
      if remoteCallback == None {
        return Fail(NullPointer);
      }
      var reached := Deliver(remoteCallback.value, failing);
      delivered := delivered + reached;
      o := Pass;
    }
  }
}

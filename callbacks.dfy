/** The client-side callback objects the service calls back into: `CallbackWrapper` for
    a GPIO edge and `UartCallbackWrapper` for UART data. Each forwards to the
    application's callback and unregisters itself when that callback returns false. */
module Callbacks {
  import opened Lang
  import opened Rpc

  /** An application callback object (a `GpioCallback` or `UartDeviceCallback`). */
  type ClientCallback = nat

  /** A `CallbackHandlerExecutor` built around the application's Handler. */
  type Executor = nat

  class CallbackWrapper {
    const pin: int
    const manager: ManagerProxy
    /** The application's callback; None while null. */
    var callback: Option<ClientCallback>
    /** Application callbacks invoked, oldest first. */
    ghost var invoked: seq<ClientCallback>

    constructor(pin: int, manager: ManagerProxy)
      ensures this.pin == pin && this.manager == manager
      ensures callback == None && invoked == []
    {
      this.pin := pin;
      this.manager := manager;
      callback := None;
      invoked := [];
    }

    /** An edge. `verdict` is what the application's callback returns, `remoteFails`
        whether the unregister call throws RemoteException. */
    method OnGpioEdge(verdict: bool, remoteFails: bool)
      modifies this`callback, this`invoked, manager`calls
      ensures old(callback).None? ==>
                callback == None && invoked == old(invoked) && manager.calls == old(manager.calls)
      ensures old(callback).Some? ==> invoked == old(invoked) + [old(callback).value]
      ensures old(callback).Some? && verdict ==>
                callback == old(callback) && manager.calls == old(manager.calls)
      ensures old(callback).Some? && !verdict ==>
                manager.calls == old(manager.calls) + [UnregisterGpioCallback(pin, this)]
                && callback == if remoteFails then old(callback) else None
    {
      var result := true;
      if callback.Some? {
        invoked := invoked + [callback.value];
        result := verdict;
      }
      if !result {
        manager.Invoke(UnregisterGpioCallback(pin, this));
        if !remoteFails {
          callback := None;
        }
      }
    }
  }

  class UartCallbackWrapper {
    const idx: int
    const manager: ManagerProxy
    /** The application's callback; None while null. */
    var callback: Option<ClientCallback>
    /** The executor `setHandler` installed; None while null. */
    var executor: Option<Executor>
    /** Application callbacks invoked, oldest first. */
    ghost var invoked: seq<ClientCallback>

    constructor(idx: int, manager: ManagerProxy)
      ensures this.idx == idx && this.manager == manager
      ensures callback == None && executor == None && invoked == []
    {
      this.idx := idx;
      this.manager := manager;
      callback := None;
      executor := None;
      invoked := [];
    }

    /** `setHandler`: a new executor around the handler, which will run `Run`. */
    method SetHandler(handler: Executor)
      modifies this`executor
      ensures executor == Some(handler)
    {
      executor := Some(handler);
    }

    /** The runnable `setHandler` installs. `verdict` is what the application's callback
        returns, `remoteFails` whether the unregister call throws RemoteException. */
    method Run(verdict: bool, remoteFails: bool)
      modifies this`callback, this`executor, this`invoked, manager`calls
      ensures old(callback).None? ==>
                callback == None && executor == old(executor)
                && invoked == old(invoked) && manager.calls == old(manager.calls)
      ensures old(callback).Some? ==> invoked == old(invoked) + [old(callback).value]
      ensures old(callback).Some? && verdict ==>
                callback == old(callback) && executor == old(executor) && manager.calls == old(manager.calls)
      ensures old(callback).Some? && !verdict ==>
                manager.calls == old(manager.calls) + [UnregisterUartDeviceCallback(idx, this)]
                && (remoteFails ==> callback == old(callback) && executor == old(executor))
                && (!remoteFails ==> callback == None && executor == None)
    {
      if callback.Some? {
        invoked := invoked + [callback.value];
        var result := verdict;
        if !result {
          manager.Invoke(UnregisterUartDeviceCallback(idx, this));
          if !remoteFails {
            callback := None;
            executor := None;
          }
        }
      }
    }

    /** `onUartDeviceDataAvailable`: hands the event to the executor, which runs `Run`
        (the Handler's asynchronous posting is not modelled); with no executor the
        dereference throws NullPointerException. */
    method OnUartDeviceDataAvailable(verdict: bool, remoteFails: bool) returns (o: Outcome)
      modifies this`callback, this`executor, this`invoked, manager`calls
      ensures old(executor).None? ==>
                o == Fail(NullPointer) && callback == old(callback) && executor == None
                && invoked == old(invoked) && manager.calls == old(manager.calls)
      ensures old(executor).Some? ==> o == Pass
      ensures old(executor).Some? && old(callback).None? ==>
                callback == None && executor == old(executor)
                && invoked == old(invoked) && manager.calls == old(manager.calls)
      ensures old(executor).Some? && old(callback).Some? ==> invoked == old(invoked) + [old(callback).value]
      ensures old(executor).Some? && old(callback).Some? && verdict ==>
                callback == old(callback) && executor == old(executor) && manager.calls == old(manager.calls)
      ensures old(executor).Some? && old(callback).Some? && !verdict ==>
                manager.calls == old(manager.calls) + [UnregisterUartDeviceCallback(idx, this)]
                && (remoteFails ==> callback == old(callback) && executor == old(executor))
                && (!remoteFails ==> callback == None && executor == None)
    {
      if executor == None {
        return Fail(NullPointer);
      }
      Run(verdict, remoteFails);
      o := Pass;
    }
  }
}

/** The client side of the Binder interface `IThingsManager`: the calls the peripheral
    classes make, recorded in order on a proxy object, and the two ways a call can end. */
module Rpc {
  import opened Lang

  /** The outcome of a remote call that returns a value: the value, or a RemoteException. */
  datatype Reply<T> = Returned(value: T) | RemoteFailure

  /** One `IThingsManager` call. `wrapper` is the callback object passed along. */
  datatype Call =
    // leases of GPIO (and PWM) pins, UART, SPI and I2C devices
    | Register(pin: int, thingsId: int)
    | Unregister(pin: int, thingsId: int)
    | RegisterUart(idx: int, thingsId: int)
    | UnregisterUart(idx: int, thingsId: int)
    | RegisterSpi(idx: int, thingsId: int)
    | UnregisterSpi(idx: int, thingsId: int)
    | RegisterI2c(idx: int, thingsId: int)
    | UnregisterI2c(idx: int, thingsId: int)
    | CloseGpio(pin: int)
    | CloseUartBy(idx: int)
    | CloseSpiBy(idx: int)
    | CloseI2c(idx: int)
    // GPIO
    | GetGpioValue(pin: int)
    | SetGpioActiveType(pin: int, value: int)
    | SetGpioDirection(pin: int, value: int)
    | SetEdgeTriggerType(pin: int, value: int)
    | SetGpioValue(pin: int, high: bool)
    | RegisterGpioCallback(pin: int, wrapper: object)
    | UnregisterGpioCallback(pin: int, wrapper: object)
    // UART
    | Flush(idx: int, value: int)
    | SendBreak(idx: int, value: int)
    | SetBaudrate(idx: int, value: int)
    | SetDataSize(idx: int, value: int)
    | SetHardwareFlowControl(idx: int, value: int)
    | SetParity(idx: int, value: int)
    | SetStopBits(idx: int, value: int)
    | ReadUart(idx: int, length: int)
    | WriteUart(idx: int, data: seq<JByte>, length: int)
    | RegisterUartDeviceCallback(idx: int, wrapper: object)
    | UnregisterUartDeviceCallback(idx: int, wrapper: object)
    // SPI
    | SetBitJustification(idx: int, value: int)
    | SetBitsPerWord(idx: int, value: int)
    | SetCsChange(idx: int, change: bool)
    | SetDelay(idx: int, value: int)
    | SetSpiFrequency(idx: int, value: int)
    | SetMode(idx: int, value: int)
    | TransferSpi(idx: int, data: seq<JByte>, length: int)
    | WriteSpi(idx: int, data: seq<JByte>, length: int)
    | ReadSpi(idx: int, length: int)
    // I2C
    | ReadI2c(idx: int, length: int)
    | ReadI2cRegBuffer(idx: int, reg: int, length: int)
    | ReadI2cRegByte(idx: int, reg: int)
    | ReadI2cRegWord(idx: int, reg: int)
    | WriteI2c(idx: int, data: seq<JByte>, length: int)
    | WriteI2cRegBuffer(idx: int, reg: int, data: seq<JByte>, length: int)
    | WriteI2cRegByte(idx: int, reg: int, byteValue: JByte)
    | WriteI2cRegWord(idx: int, reg: int, wordValue: int)

  /** A boolean service result as the callers read it: a RemoteException leaves the
      local `result` at its initial `false`. */
  function Succeeded(reply: Reply<bool>): (ok: bool)
    ensures ok <==> reply.Returned? && reply.value
  {
    reply == Returned(true)
  }

  /** The `if (result == false) throw new IOException(...)` that ends every checked call. */
  function StatusOutcome(reply: Reply<bool>): (o: Outcome)
    ensures o == Pass <==> Succeeded(reply)
    ensures o != Pass ==> o == Fail(IO(OperationFailed))
  {
    if Succeeded(reply) then Pass else Fail(IO(OperationFailed))
  }

  /** The client's proxy of the service; it records every call made through it. */
  class ManagerProxy {
    ghost var calls: seq<Call>

    constructor()
      ensures calls == []
    {
      calls := [];
    }

    /** Send one call; whether it ends in a RemoteException is the caller's parameter. */
    method Invoke(c: Call)
      modifies this`calls
      ensures calls == old(calls) + [c]
    {
      calls := calls + [c];
    }
  }

  /** A call whose boolean result is checked: `result = manager.x(...)`, with a
      RemoteException leaving `result` false, then `if (result == false) throw`. */
  method CheckedCall(manager: ManagerProxy, c: Call, reply: Reply<bool>) returns (o: Outcome)
    modifies manager`calls
    ensures manager.calls == old(manager.calls) + [c]
    ensures o == StatusOutcome(reply)
  {
    manager.Invoke(c);
    o := StatusOutcome(reply);
  }

  /** `close()` of a client peripheral: the manager's close call; when it reports false
      an IOException, otherwise the lease is unregistered (its RemoteException swallowed). */
  method CloseLease(manager: ManagerProxy, close: Call, unregister: Call, reply: Reply<bool>) returns (o: Outcome)
    modifies manager`calls
    ensures o == StatusOutcome(reply)
    ensures manager.calls == old(manager.calls) + [close] + if o == Pass then [unregister] else []
  {
    o := CheckedCall(manager, close, reply);
    if o == Pass {
      manager.Invoke(unregister);
    }
  }
}

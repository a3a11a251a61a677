/** UartImpl: the application's handle on a UART port. Every setting is range-checked
    before it is sent, and the service's false reply becomes an IOException. */
module ClientUart {
  import opened Lang
  import opened Constants
  import opened Rpc
  import opened Callbacks
  import opened Buffers

  class UartImpl {
    const name: string
    const idx: int
    const thingsId: int
    const manager: ManagerProxy
    /** `mWrapperCallback`, the UartCallbackWrapper the service calls when data arrive. */
    const wrapper: UartCallbackWrapper

    /** Registers the UART lease with the service. */
    constructor(name: string, idx: int, manager: ManagerProxy, thingsId: int)
      modifies manager`calls
      ensures this.name == name && this.idx == idx && this.manager == manager && this.thingsId == thingsId
      ensures fresh(wrapper) && wrapper.idx == idx && wrapper.manager == manager
      ensures wrapper.callback == None && wrapper.executor == None
      ensures manager.calls == old(manager.calls) + [RegisterUart(idx, thingsId)]
    {
      this.name := name;
      this.idx := idx;
      this.thingsId := thingsId;
      this.manager := manager;
      wrapper := new UartCallbackWrapper(idx, manager);
      new;
      manager.Invoke(RegisterUart(idx, thingsId));
    }

    method Close(reply: Reply<bool>) returns (o: Outcome)
      modifies manager`calls
      ensures o == StatusOutcome(reply)
      ensures manager.calls == old(manager.calls) + [CloseUartBy(idx)]
                               + if o == Pass then [UnregisterUart(idx, thingsId)] else []
    {
      o := CloseLease(manager, CloseUartBy(idx), UnregisterUart(idx, thingsId), reply);
    }

    method Flush(direction: int, reply: Reply<bool>) returns (o: Outcome)
      modifies manager`calls
      ensures !(FlushIn <= direction <= FlushInOut) ==>
                o == Fail(IO(BadArgument)) && manager.calls == old(manager.calls)
      ensures FlushIn <= direction <= FlushInOut ==>
                o == StatusOutcome(reply) && manager.calls == old(manager.calls) + [Call.Flush(idx, direction)]
    {
      if direction < FlushIn || direction > FlushInOut {
        return Fail(IO(BadArgument));
      }
      o := CheckedCall(manager, Call.Flush(idx, direction), reply);
    }

    method SendBreak(durationMsecs: int, reply: Reply<bool>) returns (o: Outcome)
      modifies manager`calls
      ensures durationMsecs < 0 ==> o == Fail(IO(BadArgument)) && manager.calls == old(manager.calls)
      ensures durationMsecs >= 0 ==>
                o == StatusOutcome(reply) && manager.calls == old(manager.calls) + [Call.SendBreak(idx, durationMsecs)]
    {
      if durationMsecs < 0 {
        return Fail(IO(BadArgument));
      }
      o := CheckedCall(manager, Call.SendBreak(idx, durationMsecs), reply);
    }

    method SetBaudrate(rate: int, reply: Reply<bool>) returns (o: Outcome)
      modifies manager`calls
      ensures rate <= 0 ==> o == Fail(IllegalArgument) && manager.calls == old(manager.calls)
      ensures rate > 0 ==>
                o == StatusOutcome(reply) && manager.calls == old(manager.calls) + [Call.SetBaudrate(idx, rate)]
    {
      if rate <= 0 {
        return Fail(IllegalArgument);
      }
      o := CheckedCall(manager, Call.SetBaudrate(idx, rate), reply);
    }

    method SetDataSize(size: int, reply: Reply<bool>) returns (o: Outcome)
      modifies manager`calls
      ensures size <= 0 ==> o == Fail(IllegalArgument) && manager.calls == old(manager.calls)
      ensures size > 0 ==>
                o == StatusOutcome(reply) && manager.calls == old(manager.calls) + [Call.SetDataSize(idx, size)]
    {
      if size <= 0 {
        return Fail(IllegalArgument);
      }
      o := CheckedCall(manager, Call.SetDataSize(idx, size), reply);
    }

    /** Out-of-range modes and AUTO_RTSCTS are both refused, so only NONE reaches the service. */
    method SetHardwareFlowControl(mode: int, reply: Reply<bool>) returns (o: Outcome)
      modifies manager`calls
      ensures mode != HwFlowControlNone ==> o.Fail? && manager.calls == old(manager.calls)
      ensures !(HwFlowControlNone <= mode <= HwFlowControlAutoRtsCts) ==> o == Fail(IO(BadArgument))
      ensures mode == HwFlowControlAutoRtsCts ==> o == Fail(IO(NotSupported))
      ensures mode == HwFlowControlNone ==>
                o == StatusOutcome(reply)
                && manager.calls == old(manager.calls) + [Call.SetHardwareFlowControl(idx, HwFlowControlNone)]
    {
      if mode < HwFlowControlNone || mode > HwFlowControlAutoRtsCts {
        return Fail(IO(BadArgument));
      }
      if mode == HwFlowControlAutoRtsCts {
        return Fail(IO(NotSupported));
      }
      o := CheckedCall(manager, Call.SetHardwareFlowControl(idx, mode), reply);
    }

    /** Modem control lines are not supported: the call always throws. */
    method ClearModemControl(lines: int) returns (o: Outcome)
      ensures o == Fail(IO(NotSupported))
    {
      o := Fail(IO(NotSupported));
    }

    method SetModemControl(lines: int) returns (o: Outcome)
      ensures o == Fail(IO(NotSupported))
    {
      o := Fail(IO(NotSupported));
    }

    method SetParity(mode: int, reply: Reply<bool>) returns (o: Outcome)
      modifies manager`calls
      ensures !(ParityNone <= mode <= ParitySpace) ==>
                o == Fail(IO(BadArgument)) && manager.calls == old(manager.calls)
      ensures ParityNone <= mode <= ParitySpace ==>
                o == StatusOutcome(reply) && manager.calls == old(manager.calls) + [Call.SetParity(idx, mode)]
    {
      if mode < ParityNone || mode > ParitySpace {
        return Fail(IO(BadArgument));
      }
      o := CheckedCall(manager, Call.SetParity(idx, mode), reply);
    }

    method SetStopBits(bits: int, reply: Reply<bool>) returns (o: Outcome)
      modifies manager`calls
      ensures bits < 0 ==> o == Fail(IO(BadArgument)) && manager.calls == old(manager.calls)
      ensures bits >= 0 ==>
                o == StatusOutcome(reply) && manager.calls == old(manager.calls) + [Call.SetStopBits(idx, bits)]
    {
      if bits < 0 {
        return Fail(IO(BadArgument));
      }
      o := CheckedCall(manager, Call.SetStopBits(idx, bits), reply);
    }

    /** `read(buffer, length)`: the bytes the service returns are copied into the front of
        `buffer`, the rest of it is kept, and their number is returned (0 on a
        RemoteException); a result longer than the buffer overruns it. */
    method Read(buffer: array<JByte>, length: int, reply: Reply<seq<JByte>>) returns (r: Result<int>)
      modifies buffer, manager`calls
      ensures buffer.Length < length ==>
                r == Err(IllegalArgument) && buffer[..] == old(buffer[..]) && manager.calls == old(manager.calls)
      ensures buffer.Length >= length ==> manager.calls == old(manager.calls) + [ReadUart(idx, length)]
      ensures buffer.Length >= length && reply.RemoteFailure? ==> r == Ok(0) && buffer[..] == old(buffer[..])
      ensures buffer.Length >= length && reply.Returned? ==>
                buffer[..] == Overwritten(old(buffer[..]), reply.value, Copied(buffer.Length, |reply.value|, |reply.value|))
                && r == if |reply.value| <= buffer.Length then Ok(|reply.value|) else Err(IndexOutOfBounds)
    {
      if buffer.Length < length {
        return Err(IllegalArgument);
      }
      manager.Invoke(ReadUart(idx, length));
      var readBytes := 0;
      if reply.Returned? {
        var result := reply.value;
        readBytes := |result|;
        var copied := CopyPrefix(buffer, result, readBytes);
        if copied != Pass {
          return Err(copied.error);
        }
      }
      r := Ok(readBytes);
    }

    /** `write(buffer, length)`: the service's count of bytes written; a negative count or a
        RemoteException (which leaves the count at -1) throws. */
    method Write(buffer: array<JByte>, length: int, reply: Reply<int>) returns (r: Result<int>)
      modifies manager`calls
      ensures buffer.Length < length ==> r == Err(IllegalArgument) && manager.calls == old(manager.calls)
      ensures buffer.Length >= length ==> manager.calls == old(manager.calls) + [WriteUart(idx, buffer[..], length)]
      ensures buffer.Length >= length ==>
                r == if reply.Returned? && reply.value >= 0 then Ok(reply.value) else Err(IO(OperationFailed))
    {
      if buffer.Length < length {
        return Err(IllegalArgument);
      }
      var result := -1;
      manager.Invoke(WriteUart(idx, buffer[..], length));
      if reply.Returned? {
        result := reply.value;
      }
      if result < 0 {
        return Err(IO(OperationFailed));
      }
      r := Ok(result);
    }

    /** Installs the application's callback and an executor for `handler` in the wrapper,
        then registers the wrapper. */
    method RegisterUartDeviceCallback(handler: Executor, callback: Option<ClientCallback>) returns (o: Outcome)
      modifies wrapper`callback, wrapper`executor, manager`calls
      ensures callback == None ==>
                o == Fail(IO(NullCallback)) && wrapper.callback == old(wrapper.callback)
                && wrapper.executor == old(wrapper.executor) && manager.calls == old(manager.calls)
      ensures callback != None ==>
                o == Pass && wrapper.callback == callback && wrapper.executor == Some(handler)
                && manager.calls == old(manager.calls) + [Call.RegisterUartDeviceCallback(idx, wrapper)]
    {
      if callback == None {
        return Fail(IO(NullCallback));
      }
      wrapper.callback := callback;
      wrapper.SetHandler(handler);
      manager.Invoke(Call.RegisterUartDeviceCallback(idx, wrapper));
      o := Pass;
    }

    /** Acts only when `callback` is the installed one (null included); callback and
        executor are cleared only if the unregister call does not throw RemoteException. */
    method UnregisterUartDeviceCallback(callback: Option<ClientCallback>, remoteFails: bool)
      modifies wrapper`callback, wrapper`executor, manager`calls
      ensures old(wrapper.callback) != callback ==>
                wrapper.callback == old(wrapper.callback) && wrapper.executor == old(wrapper.executor)
                && manager.calls == old(manager.calls)
      ensures old(wrapper.callback) == callback ==>
                manager.calls == old(manager.calls) + [Call.UnregisterUartDeviceCallback(idx, wrapper)]
      ensures old(wrapper.callback) == callback && remoteFails ==>
                wrapper.callback == old(wrapper.callback) && wrapper.executor == old(wrapper.executor)
      ensures old(wrapper.callback) == callback && !remoteFails ==>
                wrapper.callback == None && wrapper.executor == None
    {
      if wrapper.callback == callback {
        manager.Invoke(Call.UnregisterUartDeviceCallback(idx, wrapper));
        if !remoteFails {
          wrapper.callback := None;
          wrapper.executor := None;
        }
      }
    }
  }
}

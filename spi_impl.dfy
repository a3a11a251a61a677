/** SpiImpl: the application's handle on an SPI device. Settings are range-checked before
    they are sent, transfers check the buffer lengths, and the service's false reply
    becomes an IOException. */
module ClientSpi {
  import opened Lang
  import opened Constants
  import opened Rpc
  import opened Buffers

  class SpiImpl {
    const name: string
    const idx: int
    const thingsId: int
    const manager: ManagerProxy

    /** Registers the SPI lease with the service. */
    constructor(name: string, idx: int, manager: ManagerProxy, thingsId: int)
      modifies manager`calls
      ensures this.name == name && this.idx == idx && this.manager == manager && this.thingsId == thingsId
      ensures manager.calls == old(manager.calls) + [RegisterSpi(idx, thingsId)]
    {
      this.name := name;
      this.idx := idx;
      this.thingsId := thingsId;
      this.manager := manager;
      new;
      manager.Invoke(RegisterSpi(idx, thingsId));
    }

    method Close(reply: Reply<bool>) returns (o: Outcome)
      modifies manager`calls
      ensures o == StatusOutcome(reply)
      ensures manager.calls == old(manager.calls) + [CloseSpiBy(idx)]
                               + if o == Pass then [UnregisterSpi(idx, thingsId)] else []
    {
      o := CloseLease(manager, CloseSpiBy(idx), UnregisterSpi(idx, thingsId), reply);
    }

    /** Only MSB-first and LSB-first are accepted. */
    method SetBitJustification(justification: int, reply: Reply<bool>) returns (o: Outcome)
      modifies manager`calls
      ensures justification != BitJustificationMsbFirst && justification != BitJustificationLsbFirst ==>
                o == Fail(IO(BadArgument)) && manager.calls == old(manager.calls)
      ensures justification == BitJustificationMsbFirst || justification == BitJustificationLsbFirst ==>
                o == StatusOutcome(reply)
                && manager.calls == old(manager.calls) + [Call.SetBitJustification(idx, justification)]
    {
      if justification != BitJustificationMsbFirst && justification != BitJustificationLsbFirst {
        return Fail(IO(BadArgument));
      }
      o := CheckedCall(manager, Call.SetBitJustification(idx, justification), reply);
    }

    method SetBitsPerWord(bitsPerWord: int, reply: Reply<bool>) returns (o: Outcome)
      modifies manager`calls
      ensures bitsPerWord < 1 ==> o == Fail(IO(BadArgument)) && manager.calls == old(manager.calls)
      ensures bitsPerWord >= 1 ==>
                o == StatusOutcome(reply) && manager.calls == old(manager.calls) + [Call.SetBitsPerWord(idx, bitsPerWord)]
    {
      if bitsPerWord < 1 {
        return Fail(IO(BadArgument));
      }
      o := CheckedCall(manager, Call.SetBitsPerWord(idx, bitsPerWord), reply);
    }

    /** No argument check: the request always goes to the service. */
    method SetCsChange(change: bool, reply: Reply<bool>) returns (o: Outcome)
      modifies manager`calls
      ensures o == StatusOutcome(reply)
      ensures manager.calls == old(manager.calls) + [Call.SetCsChange(idx, change)]
    {
      o := CheckedCall(manager, Call.SetCsChange(idx, change), reply);
    }

    /** A zero delay is accepted. */
    method SetDelay(delayUs: int, reply: Reply<bool>) returns (o: Outcome)
      modifies manager`calls
      ensures delayUs < 0 ==> o == Fail(IO(BadArgument)) && manager.calls == old(manager.calls)
      ensures delayUs >= 0 ==>
                o == StatusOutcome(reply) && manager.calls == old(manager.calls) + [Call.SetDelay(idx, delayUs)]
    {
      if delayUs < 0 {
        return Fail(IO(BadArgument));
      }
      o := CheckedCall(manager, Call.SetDelay(idx, delayUs), reply);
    }

    /** A zero frequency is accepted; a negative one is an IllegalArgumentException. */
    method SetFrequency(frequencyHz: int, reply: Reply<bool>) returns (o: Outcome)
      modifies manager`calls
      ensures frequencyHz < 0 ==> o == Fail(IllegalArgument) && manager.calls == old(manager.calls)
      ensures frequencyHz >= 0 ==>
                o == StatusOutcome(reply) && manager.calls == old(manager.calls) + [SetSpiFrequency(idx, frequencyHz)]
    {
      if frequencyHz < 0 {
        return Fail(IllegalArgument);
      }
      o := CheckedCall(manager, SetSpiFrequency(idx, frequencyHz), reply);
    }

    method SetMode(mode: int, reply: Reply<bool>) returns (o: Outcome)
      modifies manager`calls
      ensures !(Mode0 <= mode <= Mode3) ==> o == Fail(IO(BadArgument)) && manager.calls == old(manager.calls)
      ensures Mode0 <= mode <= Mode3 ==>
                o == StatusOutcome(reply) && manager.calls == old(manager.calls) + [Call.SetMode(idx, mode)]
    {
      if mode < Mode0 || Mode3 < mode {
        return Fail(IO(BadArgument));
      }
      o := CheckedCall(manager, Call.SetMode(idx, mode), reply);
    }

    /** `transfer(txBuffer, rxBuffer, length)`: the bytes the service returns are copied
        into the front of `rxBuffer` and the rest of it is kept; a RemoteException is
        swallowed, and a result longer than `rxBuffer` overruns it. */
    method Transfer(txBuffer: array<JByte>, rxBuffer: array<JByte>, length: int, reply: Reply<seq<JByte>>)
      returns (o: Outcome)
      modifies rxBuffer, manager`calls
      ensures txBuffer.Length < length || rxBuffer.Length < length ==>
                o == Fail(IllegalArgument) && rxBuffer[..] == old(rxBuffer[..]) && manager.calls == old(manager.calls)
      ensures txBuffer.Length >= length && rxBuffer.Length >= length ==>
                manager.calls == old(manager.calls) + [TransferSpi(idx, old(txBuffer[..]), length)]
      ensures txBuffer.Length >= length && rxBuffer.Length >= length && reply.RemoteFailure? ==>
                o == Pass && rxBuffer[..] == old(rxBuffer[..])
      ensures txBuffer.Length >= length && rxBuffer.Length >= length && reply.Returned? ==>
                rxBuffer[..] == Overwritten(old(rxBuffer[..]), reply.value, Copied(rxBuffer.Length, |reply.value|, |reply.value|))
                && o == if |reply.value| <= rxBuffer.Length then Pass else Fail(IndexOutOfBounds)
    {
      if txBuffer.Length < length || rxBuffer.Length < length {
        return Fail(IllegalArgument);
      }
      manager.Invoke(TransferSpi(idx, txBuffer[..], length));
      o := Pass;
      if reply.Returned? {
        o := CopyPrefix(rxBuffer, reply.value, |reply.value|);
      }
    }

    method Write(txBuffer: array<JByte>, length: int, reply: Reply<bool>) returns (o: Outcome)
      modifies manager`calls
      ensures txBuffer.Length < length ==> o == Fail(IllegalArgument) && manager.calls == old(manager.calls)
      ensures txBuffer.Length >= length ==>
                o == StatusOutcome(reply) && manager.calls == old(manager.calls) + [WriteSpi(idx, txBuffer[..], length)]
    {
      if txBuffer.Length < length {
        return Fail(IllegalArgument);
      }
      o := CheckedCall(manager, WriteSpi(idx, txBuffer[..], length), reply);
    }

    /** `read(rxBuffer, length)`: as `transfer`, without bytes to send. */
    method Read(rxBuffer: array<JByte>, length: int, reply: Reply<seq<JByte>>) returns (o: Outcome)
      modifies rxBuffer, manager`calls
      ensures rxBuffer.Length < length ==>
                o == Fail(IllegalArgument) && rxBuffer[..] == old(rxBuffer[..]) && manager.calls == old(manager.calls)
      ensures rxBuffer.Length >= length ==> manager.calls == old(manager.calls) + [ReadSpi(idx, length)]
      ensures rxBuffer.Length >= length && reply.RemoteFailure? ==> o == Pass && rxBuffer[..] == old(rxBuffer[..])
      ensures rxBuffer.Length >= length && reply.Returned? ==>
                rxBuffer[..] == Overwritten(old(rxBuffer[..]), reply.value, Copied(rxBuffer.Length, |reply.value|, |reply.value|))
                && o == if |reply.value| <= rxBuffer.Length then Pass else Fail(IndexOutOfBounds)
    {
      if rxBuffer.Length < length {
        return Fail(IllegalArgument);
      }
      manager.Invoke(ReadSpi(idx, length));
      o := Pass;
      if reply.Returned? {
        o := CopyPrefix(rxBuffer, reply.value, |reply.value|);
      }
    }
  }
}

/** I2cImpl: the application's handle on an I2C device. Reads copy exactly `length`
    bytes of the service's result into the caller's buffer; writes turn the service's
    false status into an IOException. */
module ClientI2c {
  import opened Lang
  import opened Rpc
  import opened Buffers

  class I2cImpl {
    const name: string
    const idx: int
    const thingsId: int
    const manager: ManagerProxy

    /** Registers the I2C lease with the service. */
    constructor(name: string, idx: int, manager: ManagerProxy, thingsId: int)
      modifies manager`calls
      ensures this.name == name && this.idx == idx && this.manager == manager && this.thingsId == thingsId
      ensures manager.calls == old(manager.calls) + [RegisterI2c(idx, thingsId)]
    {
      this.name := name;
      this.idx := idx;
      this.thingsId := thingsId;
      this.manager := manager;
      new;
      manager.Invoke(RegisterI2c(idx, thingsId));
    }

    method Close(reply: Reply<bool>) returns (o: Outcome)
      modifies manager`calls
      ensures o == StatusOutcome(reply)
      ensures manager.calls == old(manager.calls) + [CloseI2c(idx)]
                               + if o == Pass then [UnregisterI2c(idx, thingsId)] else []
    {
      o := CloseLease(manager, CloseI2c(idx), UnregisterI2c(idx, thingsId), reply);
    }

    /** `read(buffer, length)`: exactly `buffer[0..length)` is overwritten with the result
        and the rest is kept; a RemoteException leaves the buffer as it was, and a result
        shorter than `length` throws after the bytes it has. */
    method Read(buffer: array<JByte>, length: int, reply: Reply<seq<JByte>>) returns (o: Outcome)
      modifies buffer, manager`calls
      ensures buffer.Length < length ==>
                o == Fail(IllegalArgument) && buffer[..] == old(buffer[..]) && manager.calls == old(manager.calls)
      ensures buffer.Length >= length ==> manager.calls == old(manager.calls) + [ReadI2c(idx, length)]
      ensures buffer.Length >= length && reply.RemoteFailure? ==> o == Pass && buffer[..] == old(buffer[..])
      ensures buffer.Length >= length && reply.Returned? ==>
                buffer[..] == Overwritten(old(buffer[..]), reply.value, Copied(buffer.Length, |reply.value|, length))
                && o == if length <= |reply.value| then Pass else Fail(IndexOutOfBounds)
    {
      if buffer.Length < length {
        return Fail(IllegalArgument);
      }
      manager.Invoke(ReadI2c(idx, length));
      o := Pass;
      if reply.Returned? {
        o := CopyPrefix(buffer, reply.value, length);
      }
    }

    /** As `read`, from register `reg`. */
    method ReadRegBuffer(reg: int, buffer: array<JByte>, length: int, reply: Reply<seq<JByte>>) returns (o: Outcome)
      modifies buffer, manager`calls
      ensures buffer.Length < length ==>
                o == Fail(IllegalArgument) && buffer[..] == old(buffer[..]) && manager.calls == old(manager.calls)
      ensures buffer.Length >= length ==> manager.calls == old(manager.calls) + [ReadI2cRegBuffer(idx, reg, length)]
      ensures buffer.Length >= length && reply.RemoteFailure? ==> o == Pass && buffer[..] == old(buffer[..])
      ensures buffer.Length >= length && reply.Returned? ==>
                buffer[..] == Overwritten(old(buffer[..]), reply.value, Copied(buffer.Length, |reply.value|, length))
                && o == if length <= |reply.value| then Pass else Fail(IndexOutOfBounds)
    {
      if buffer.Length < length {
        return Fail(IllegalArgument);
      }
      manager.Invoke(ReadI2cRegBuffer(idx, reg, length));
      o := Pass;
      if reply.Returned? {
        o := CopyPrefix(buffer, reply.value, length);
      }
    }

    /** The service's byte, or 0 on a RemoteException. */
    method ReadRegByte(reg: int, reply: Reply<JByte>) returns (b: JByte)
      modifies manager`calls
      ensures b == if reply.Returned? then reply.value else 0
      ensures manager.calls == old(manager.calls) + [ReadI2cRegByte(idx, reg)]
    {
      manager.Invoke(ReadI2cRegByte(idx, reg));
      b := 0;
      if reply.Returned? {
        b := reply.value;
      }
    }

    /** The service's int narrowed by `(short)`, or 0 on a RemoteException. */
    method ReadRegWord(reg: int, reply: Reply<int>) returns (w: JShort)
      modifies manager`calls
      ensures w == if reply.Returned? then ToShort(reply.value) else 0
      ensures manager.calls == old(manager.calls) + [ReadI2cRegWord(idx, reg)]
    {
      manager.Invoke(ReadI2cRegWord(idx, reg));
      w := 0;
      if reply.Returned? {
        w := ToShort(reply.value);
      }
    }

    method Write(buffer: array<JByte>, length: int, reply: Reply<bool>) returns (o: Outcome)
      modifies manager`calls
      ensures buffer.Length < length ==> o == Fail(IllegalArgument) && manager.calls == old(manager.calls)
      ensures buffer.Length >= length ==>
                o == StatusOutcome(reply) && manager.calls == old(manager.calls) + [WriteI2c(idx, buffer[..], length)]
    {
      if buffer.Length < length {
        return Fail(IllegalArgument);
      }
      o := CheckedCall(manager, WriteI2c(idx, buffer[..], length), reply);
    }

    method WriteRegBuffer(reg: int, buffer: array<JByte>, length: int, reply: Reply<bool>) returns (o: Outcome)
      modifies manager`calls
      ensures buffer.Length < length ==> o == Fail(IllegalArgument) && manager.calls == old(manager.calls)
      ensures buffer.Length >= length ==>
                o == StatusOutcome(reply)
                && manager.calls == old(manager.calls) + [WriteI2cRegBuffer(idx, reg, buffer[..], length)]
    {
      if buffer.Length < length {
        return Fail(IllegalArgument);
      }
      o := CheckedCall(manager, WriteI2cRegBuffer(idx, reg, buffer[..], length), reply);
    }

    method WriteRegByte(reg: int, data: JByte, reply: Reply<bool>) returns (o: Outcome)
      modifies manager`calls
      ensures o == StatusOutcome(reply)
      ensures manager.calls == old(manager.calls) + [WriteI2cRegByte(idx, reg, data)]
    {
      o := CheckedCall(manager, WriteI2cRegByte(idx, reg, data), reply);
    }

    /** The word goes to the service widened to an int. */
    method WriteRegWord(reg: int, data: JShort, reply: Reply<bool>) returns (o: Outcome)
      modifies manager`calls
      ensures o == StatusOutcome(reply)
      ensures manager.calls == old(manager.calls) + [WriteI2cRegWord(idx, reg, data as int)]
    {
      o := CheckedCall(manager, WriteI2cRegWord(idx, reg, data as int), reply);
    }
  }
}

# Odroid peripheral service: leases, clients, listeners and validators

This project models the peripheral service of the Android Things port for Odroid boards in
Dafny, and proves properties of that model.

On the server side, `OdroidThingsManager` keeps two registries:
- a fixed table of named pin slots, handed out first-free-by-name and closed by index;
- a map of open I2C devices, keyed by a counter that only grows.

`ThingsClientManager` maps each connected process id to a `ThingsClient`. A client holds four
lease sets: pins, I2C, UART and SPI. When the client is released, or its Binder connection
dies, every lease is closed through the registry.

The native peripheral objects (`OdroidGpio`, `OdroidUart`, `OdroidI2c`) keep listener lists
and configuration state, and `OdroidI2c` packs 16-bit register words into two bytes. The
callback wrappers (`CallbackWrapper`, `UartCallbackWrapper`) unregister themselves when the
client callback returns false.

On the client side, `GpioImpl`, `UartImpl`, `SpiImpl` and `I2cImpl` check their arguments
before any remote call, and copy replies into caller buffers. For GPIO, the configured
direction gates which operations are allowed. `UserSensor.Builder` validates sensor fields,
and `UserDriverManager` keeps the list of registered sensors.

Modules:
- `Lang`: Java values and outcomes, meaning thrown exceptions, `byte`/`short` narrowing and
  `Integer.toString`.
- `Seqs`: list operations: `indexOf`, `remove(Object)`, and the filter that `getFilteredListOf`
  computes.
- `Registry`: the pin table and the I2C map as values.
- `Things`: the three server classes, proved against `Registry`.
- `Rpc`: the calls a client makes to the manager service, logged on a proxy object.
- `Broadcast`: a `RemoteCallbackList` broadcast that swallows failures.
- `Buffers`: prefix copies into arrays.
- `NativeGpio`, `NativeUart`, `NativeI2c`: the native peripheral objects.
- `Callbacks`: the callback wrappers.
- `ClientGpio`, `ClientUart`, `ClientSpi`, `ClientI2c`: the client implementations.
- `UserSensors`, `UserDrivers`: the user-driver classes.
- `Constants`: the constants of the `Gpio`, `UartDevice` and `SpiDevice` interfaces.

How the environment is represented:
- The native calls that open, close, read, write, configure or register a callback on a
  peripheral are recorded in ghost logs: `trace` in `ThingsManager`, and `native` in the
  native peripheral classes. Their results are parameters.
- The enumerations `_getListOf` and `_getPinName` are not logged: what they return is a
  parameter, of the `ThingsManager` constructor (`pinNames`, `i2cNames`) or of
  `GetFilteredListOf` (`enumerated`).
- Binder calls to the manager service are recorded in `ManagerProxy.calls`. Each reply is a
  `Reply` parameter, whose `RemoteFailure` alternative stands for a `RemoteException`.
- A client callback's boolean verdict is a parameter.
- The caller's pid is a parameter.
- A thrown exception is an `Outcome.Fail` or a `Result.Err` naming it. `IO(...)` stands for an
  `IOException`, whose cause is named in the model.

## Model

| member | source | states |
|---|---|---|
| Registry.PinNumFor | java/com/google/android/things/odroid/OdroidThingsManager.java:126-138 | The index returned is the first slot carrying the name, and that slot was closed. If it is -1, then no slot carries the name, or the first one that does is already open. |
| Registry.Acquired | java/com/google/android/things/odroid/OdroidThingsManager.java:126-138 | Allocation opens only the returned slot, with the pin built for that index, and leaves every other slot and every name unchanged. |
| Registry.AcquireTwiceFails | java/com/google/android/things/odroid/OdroidThingsManager.java:128-134 | A second allocation of a name just allocated returns -1 and changes nothing. |
| Registry.AcquireCloseRoundTrip | java/com/google/android/things/odroid/OdroidThingsManager.java:126-148 | Closing the slot just handed out restores the table. |
| Registry.CloseTwice | java/com/google/android/things/odroid/OdroidThingsManager.java:140-148 | After a close, the slot is closed, a second close changes nothing, and the names are kept. |
| Registry.FreshTableAllocates | java/com/google/android/things/odroid/OdroidThingsManager.java:61-75 | In an all-closed table, every name can be allocated, at or before its first slot. |
| Registry.ReleaseFreesPins | java/com/google/android/things/odroid/ThingsClient.java:120-124 | Releasing a set of pins closes exactly those slots and keeps every other slot and every name. |
| Registry.OpenI2c | java/com/google/android/things/odroid/OdroidThingsManager.java:248-258 | The index returned is the counter value, which was not in use. The counter goes up by one, and the device is stored under that index with its bus-list position. |
| Registry.CloseI2c | java/com/google/android/things/odroid/OdroidThingsManager.java:260-270 | The close reports true exactly when the index was open. Afterwards the index is absent and the counter is unchanged. |
| Registry.CloseI2cTwice | java/com/google/android/things/odroid/OdroidThingsManager.java:260-270 | A repeated close reports false and changes nothing. |
| Registry.OpenCloseRoundTrip | java/com/google/android/things/odroid/OdroidThingsManager.java:248-270 | Opening and then closing the new index restores the open devices, but the counter stays advanced. |
| Registry.RunI2cIndicesFresh | java/com/google/android/things/odroid/OdroidThingsManager.java:248-258 | Over any interleaving of opens and closes, the indices handed out are consecutive from the counter and strictly increasing, so none is reused. |
| Seqs.IndexOf | java/com/google/android/things/odroid/OdroidThingsManager.java:252 | `indexOf` gives -1 exactly when the element is absent. Otherwise it gives the position of the element's first occurrence. |
| Seqs.RemoveFirst | java/com/google/android/things/userdriver/UserDriverManager.java:52 | `remove(Object)` takes away one occurrence, and changes nothing when the element is absent. |
| Seqs.RemoveFirstAt | java/com/google/android/things/userdriver/UserDriverManager.java:52 | When the element is present, `remove(Object)` cuts out its first occurrence and keeps the order of the rest. |
| Seqs.FilteredRemoveFirst | java/com/google/android/things/odroid/OdroidThingsManager.java:113-116 | Removing one more occurrence from a filtered list gives the filter by one more string. |
| Seqs.FilteredCount | java/com/google/android/things/odroid/OdroidThingsManager.java:109-119 | The filtered list holds each string as many times as the enumeration did, less the number of removals, but never fewer than zero. |
| Seqs.FilteredDisjoint | java/com/google/android/things/odroid/OdroidThingsManager.java:109-119 | When no element of the list is among the strings removed, the list is unchanged, order included. |
| Seqs.FilteredKeepsOthers | java/com/google/android/things/odroid/OdroidThingsManager.java:109-119 | Removals drawn from a set of strings never touch a string outside it: the strings outside it are kept, all of them and in their order. |
| Seqs.FilteredNothing | java/com/google/android/things/odroid/OdroidThingsManager.java:109-119 | With no occupied pins, the list is the enumeration. |
| Lang.IntToString | java/com/google/android/things/odroid/OdroidThingsManager.java:115 | `toString()` of an index is a non-empty string of digits, with an optional minus sign. |
| Lang.NatToStringValue | java/com/google/android/things/odroid/OdroidThingsManager.java:115 | The decimal digits of a natural number denote that number. |
| Lang.IntToStringRoundTrip | java/com/google/android/things/odroid/OdroidThingsManager.java:115 | Reading back the string `toString()` gives for an index, sign included, yields that index. |
| Lang.IntToStringInjective | java/com/google/android/things/odroid/OdroidThingsManager.java:115 | Distinct indices have distinct decimal strings. |
| Things.PinNamesCount | java/com/google/android/things/odroid/OdroidThingsManager.java:113-116 | Removing the strings of a client's pins removes each occupied index's string exactly once, and no string of an unoccupied index. |
| Things.RemovePinNames | java/com/google/android/things/odroid/OdroidThingsManager.java:113-116 | The loop over one client's pins removes one occurrence of each index's decimal string. |
| Things.ClosePins | java/com/google/android/things/odroid/ThingsClient.java:120-124 | `closePinBy` for every pin leaves the table as it was before, with those slots released. It appends one native close per slot that was open to the trace, after the old entries. |
| Things.CloseI2cs | java/com/google/android/things/odroid/ThingsClient.java:126-130 | `closeI2cBy` for every index removes those indices from the map. It appends one close per device that was open to the trace, after the old entries. |
| Things.CloseUarts | java/com/google/android/things/odroid/ThingsClient.java:132-136 | One `closeUartBy` request per UART index is appended to the trace. |
| Things.CloseSpis | java/com/google/android/things/odroid/ThingsClient.java:138-142 | One `closeSpiBy` request per SPI index is appended to the trace. |
| Things.ThingsManager.constructor | java/com/google/android/things/odroid/OdroidThingsManager.java:77-82 | The table has one closed slot per enumerated name, in order. The I2C map is empty, the counter is 0, and there are no clients. |
| Things.ThingsManager.InitPinStateList | java/com/google/android/things/odroid/OdroidThingsManager.java:61-75 | There is exactly one slot per enumerated name, in order, and all are closed. The I2C map is empty, and the bus list is the enumerated one. |
| Things.ThingsManager.GetPinNumBy | java/com/google/android/things/odroid/OdroidThingsManager.java:126-138 | The result is `PinNumFor`, and the new table is `Acquired`. The new pin is logged only on success. |
| Things.ThingsManager.ClosePinBy | java/com/google/android/things/odroid/OdroidThingsManager.java:140-148 | Reports true exactly when the slot was open. The slot ends up closed, and only an open pin's close is logged. |
| Things.ThingsManager.GetFilteredListOf | java/com/google/android/things/odroid/OdroidThingsManager.java:109-119 | For a client map in which each client is stored once, under its own id: the enumeration minus one occurrence of the decimal string of every occupied pin index of every client. Every string that is not such an index string is kept, in order. |
| Things.ThingsManager.GetI2cList | java/com/google/android/things/odroid/OdroidThingsManager.java:244-246 | The bus list, unfiltered. |
| Things.ThingsManager.GetI2cIdxBy | java/com/google/android/things/odroid/OdroidThingsManager.java:248-258 | The state follows `OpenI2c`. The index was never issued before, and the native open is logged. |
| Things.ThingsManager.CloseI2cBy | java/com/google/android/things/odroid/OdroidThingsManager.java:260-270 | The state follows `CloseI2c`, which reports false when the index is absent. The native close is logged only on success. |
| Things.ThingsManager.CloseUartBy | java/com/google/android/things/odroid/ThingsClient.java:134 | Abstract close, recorded in the log. |
| Things.ThingsManager.CloseSpiBy | java/com/google/android/things/odroid/ThingsClient.java:140 | Abstract close, recorded in the log. |
| Things.ThingsManager.Register | java/com/google/android/things/odroid/OdroidThingsManager.java:93-95 | A GPIO lease: the index is added to the client's pin set, and its I2C set is unchanged. An unknown client gives a NullPointerException. |
| Things.ThingsManager.Unregister | java/com/google/android/things/odroid/OdroidThingsManager.java:97-99 | The index is removed from the client's pin set, and its I2C set is unchanged. An unknown client gives a NullPointerException. |
| Things.ThingsManager.RegisterI2c | java/com/google/android/things/odroid/OdroidThingsManager.java:101-103 | The index is added to the client's I2C set, and its pin set is unchanged. An unknown client gives a NullPointerException. |
| Things.ThingsManager.UnregisterI2c | java/com/google/android/things/odroid/OdroidThingsManager.java:105-107 | The index is removed from the client's I2C set, and its pin set is unchanged. An unknown client gives a NullPointerException. |
| Things.ThingsClientManager.constructor | java/com/google/android/things/odroid/ThingsClientManager.java:35-38 | The client map is empty. |
| Things.ThingsClientManager.Clients | java/com/google/android/things/odroid/ThingsClientManager.java:40-42 | Exactly the clients stored in the map. |
| Things.ThingsClientManager.Create | java/com/google/android/things/odroid/ThingsClientManager.java:44-51 | Returns the pid, and stores a fresh client with four empty lease sets under it, replacing any old one. Other entries are untouched. |
| Things.ThingsClientManager.ReleaseClient | java/com/google/android/things/odroid/ThingsClientManager.java:53-57 | The client's pins are released and its I2C devices removed, with every close appended after the old trace. The id leaves the map. An unknown id gives a NullPointerException and changes nothing. |
| Things.ThingsClientManager.Register | java/com/google/android/things/odroid/ThingsClientManager.java:59-69 | GPIO adds to the pin set and I2C to the I2C set. PWM changes nothing. Only the client under the id is touched. |
| Things.ThingsClientManager.Unregister | java/com/google/android/things/odroid/ThingsClientManager.java:71-81 | GPIO removes from the pin set and I2C from the I2C set. PWM changes nothing. |
| Things.ThingsClient.constructor | java/com/google/android/things/odroid/ThingsClient.java:60-69 | All four lease sets are empty, and the client is not released. |
| Things.ThingsClient.SetThingsManager | java/com/google/android/things/odroid/ThingsClient.java:71-73 | The manager reference is set. |
| Things.ThingsClient.Add | java/com/google/android/things/odroid/ThingsClient.java:87-89 | Inserts into the pin set only, and is idempotent. |
| Things.ThingsClient.Remove | java/com/google/android/things/odroid/ThingsClient.java:91-93 | Deletes from the pin set only. Removing an absent index is a no-op. |
| Things.ThingsClient.AddI2c | java/com/google/android/things/odroid/ThingsClient.java:95-97 | Inserts into the I2C set only. |
| Things.ThingsClient.RemoveI2c | java/com/google/android/things/odroid/ThingsClient.java:99-101 | Deletes from the I2C set only. |
| Things.ThingsClient.AddUart | java/com/google/android/things/odroid/ThingsClient.java:103-105 | Inserts into the UART set only. |
| Things.ThingsClient.RemoveUart | java/com/google/android/things/odroid/ThingsClient.java:107-109 | Deletes from the UART set only. |
| Things.ThingsClient.AddSpi | java/com/google/android/things/odroid/ThingsClient.java:111-113 | Inserts into the SPI set only. |
| Things.ThingsClient.RemoveSpi | java/com/google/android/things/odroid/ThingsClient.java:115-117 | Deletes from the SPI set only. |
| Things.ThingsClient.Release | java/com/google/android/things/odroid/ThingsClient.java:119-147 | Exactly one close per lease, in each of the four sets, appended after the old trace, with the registry updated accordingly. Afterwards the sets are empty and the manager is null. A second release is excluded. |
| Things.ThingsClient.BinderDied | java/com/google/android/things/odroid/ThingsClient.java:53-57 | Unlinks the death recipient, then releases the client stored under its own id: that client's pins are released, its I2C devices removed, one close per lease of each of the four sets is appended after the old trace, and the id leaves the map. An absent id gives a NullPointerException and leaves the registry unchanged. |
| Rpc.Succeeded | java/com/google/android/things/pio/impl/GpioImpl.java:81-88 | A boolean call counts as true only when it returned true. A RemoteException counts as false. |
| Rpc.StatusOutcome | java/com/google/android/things/pio/impl/SpiImpl.java:109-121 | A false status or a RemoteException becomes an IOException. |
| Rpc.ManagerProxy.Invoke | java/com/google/android/things/pio/impl/GpioImpl.java:81-88 | The call is appended to the log. |
| Rpc.CheckedCall | java/com/google/android/things/pio/impl/SpiImpl.java:109-121 | One call is logged, and its status becomes the outcome. |
| Rpc.CloseLease | java/com/google/android/things/pio/impl/GpioImpl.java:62-75 | The close is always sent. The lease is unregistered only after a successful close, and failure is an IOException. |
| Broadcast.ReachedMembers | java/com/google/android/things/odroid/OdroidGpio.java:112-121 | The delivery reaches exactly the registered listeners that do not fail. |
| Broadcast.ReachedAppend | java/com/google/android/things/odroid/OdroidGpio.java:112-121 | A failure does not stop the later deliveries: delivery to a concatenation is delivery to its halves. |
| Broadcast.ReachedAll | java/com/google/android/things/odroid/OdroidGpio.java:112-121 | With no failures, every listener is reached, in order. |
| Broadcast.Deliver | java/com/google/android/things/odroid/OdroidGpio.java:112-121 | The broadcast loop reaches exactly `Reached`. |
| Buffers.Overwritten | java/com/google/android/things/pio/impl/I2cImpl.java:75-77 | The first k bytes come from the source, and the rest of the buffer is as before. |
| Buffers.Copied | java/com/google/android/things/pio/impl/I2cImpl.java:75-77 | The number of bytes a copy writes before it stops: the requested count if both arrays hold it, else the shorter length. |
| Buffers.CopyPrefix | java/com/google/android/things/pio/impl/I2cImpl.java:75-77 | The for loop writes `Copied` bytes. It passes exactly when both arrays hold n, and otherwise throws ArrayIndexOutOfBoundsException. |
| NativeGpio.LevelInvertsActiveLow | java/com/google/android/things/odroid/OdroidGpio.java:75-80 | The value read is the native value negated exactly when the pin is active-low, so the mapping is an involution. |
| NativeGpio.OdroidGpio.constructor | java/com/google/android/things/odroid/OdroidGpio.java:49-52 | A new pin is active-high and has no listener list. |
| NativeGpio.OdroidGpio.Close | java/com/google/android/things/odroid/OdroidGpio.java:60-64 | A native unregister is issued only when a listener list exists. |
| NativeGpio.OdroidGpio.SetDirection | java/com/google/android/things/odroid/OdroidGpio.java:66-69 | Records the direction and touches no other field. |
| NativeGpio.OdroidGpio.SetValue | java/com/google/android/things/odroid/OdroidGpio.java:71-73 | Sends the value to the native layer. |
| NativeGpio.OdroidGpio.GetValue | java/com/google/android/things/odroid/OdroidGpio.java:75-80 | The native value, inverted when the pin is active-low. |
| NativeGpio.OdroidGpio.SetActiveType | java/com/google/android/things/odroid/OdroidGpio.java:82-85 | Records the active type and touches no other field. |
| NativeGpio.OdroidGpio.SetEdgeTriggerType | java/com/google/android/things/odroid/OdroidGpio.java:87-90 | Records the trigger type and touches no other field. |
| NativeGpio.OdroidGpio.RegisterCallback | java/com/google/android/things/odroid/OdroidGpio.java:92-98 | The list becomes the new callback alone, so the last registration wins: a later broadcast reaches only it, unless it fails. |
| NativeGpio.OdroidGpio.UnregisterCallback | java/com/google/android/things/odroid/OdroidGpio.java:100-106 | Afterwards no list is left. Without a prior registration, it is a NullPointerException. |
| NativeGpio.OdroidGpio.DoCallback | java/com/google/android/things/odroid/OdroidGpio.java:108-124 | Every registered listener is tried, and those that do not fail are reached. Without a list, it is a NullPointerException. |
| NativeUart.OdroidUart.constructor | java/com/google/android/things/odroid/OdroidUart.java:44-47 | Opens the native port for its index. |
| NativeUart.OdroidUart.Close | java/com/google/android/things/odroid/OdroidUart.java:53-62 | Any listener list is dropped and unregistered before the native close, and the state ends null. A second close is a NullPointerException that changes nothing. |
| NativeUart.OdroidUart.RegisterCallback | java/com/google/android/things/odroid/OdroidUart.java:100-106 | The list becomes the new callback alone. On a closed port, the list is still replaced before the NullPointerException. |
| NativeUart.OdroidUart.UnregisterCallback | java/com/google/android/things/odroid/OdroidUart.java:108-114 | The list is cleared to null. A missing list or a closed port is a NullPointerException. |
| NativeUart.OdroidUart.DoCallback | java/com/google/android/things/odroid/OdroidUart.java:116-132 | Delivers to each registered listener and swallows the failures. |
| NativeI2c.EncodeWordBytes | java/com/google/android/things/odroid/OdroidI2c.java:84-89 | Byte 0 is the low byte of the word and byte 1 the high byte. Together, unsigned, they are the word modulo 2^16. |
| NativeI2c.WordRoundTrip | java/com/google/android/things/odroid/OdroidI2c.java:64-68 | Decoding the two bytes `writeRegWord` sends gives back the original `short`. |
| NativeI2c.BytesRoundTrip | java/com/google/android/things/odroid/OdroidI2c.java:64-68 | Encoding the word decoded from any two bytes gives back those bytes. |
| NativeI2c.NarrowPattern | java/com/google/android/things/odroid/OdroidI2c.java:66 | Narrowing a 16-bit pattern to `short` subtracts 2^16 from patterns with the top bit set. |
| NativeI2c.OdroidI2c.constructor | java/com/google/android/things/odroid/OdroidI2c.java:35-39 | Opens the native device with its bus position, address and index. |
| NativeI2c.OdroidI2c.Close | java/com/google/android/things/odroid/OdroidI2c.java:46-48 | Closes the native device. |
| NativeI2c.OdroidI2c.Read | java/com/google/android/things/odroid/OdroidI2c.java:50-52 | A register-0 buffer read of the given length. |
| NativeI2c.OdroidI2c.ReadRegBuffer | java/com/google/android/things/odroid/OdroidI2c.java:54-56 | A buffer read of the given register and length. |
| NativeI2c.OdroidI2c.ReadRegByte | java/com/google/android/things/odroid/OdroidI2c.java:58-62 | A 1-byte read, giving element 0. An empty reply is an ArrayIndexOutOfBoundsException. |
| NativeI2c.OdroidI2c.ReadRegWord | java/com/google/android/things/odroid/OdroidI2c.java:64-68 | A 2-byte read, decoded little-endian with both bytes unsigned. A shorter reply is an ArrayIndexOutOfBoundsException. |
| NativeI2c.OdroidI2c.Write | java/com/google/android/things/odroid/OdroidI2c.java:70-72 | A register-0 buffer write of the given length. |
| NativeI2c.OdroidI2c.WriteRegBuffer | java/com/google/android/things/odroid/OdroidI2c.java:74-76 | A buffer write to the given register. |
| NativeI2c.OdroidI2c.WriteRegByte | java/com/google/android/things/odroid/OdroidI2c.java:78-82 | Sends a 1-byte buffer holding the data. |
| NativeI2c.OdroidI2c.WriteRegWord | java/com/google/android/things/odroid/OdroidI2c.java:84-89 | Sends a 2-byte buffer: the low byte, then the high byte. |
| Callbacks.CallbackWrapper.constructor | java/com/google/android/things/pio/CallbackWrapper.java:38-42 | Starts with no client callback. |
| Callbacks.CallbackWrapper.OnGpioEdge | java/com/google/android/things/pio/CallbackWrapper.java:45-59 | With no callback, nothing happens. A true verdict keeps the callback. A false verdict unregisters the wrapper for its pin and then clears the callback; if that unregister fails remotely, the callback is kept. |
| Callbacks.UartCallbackWrapper.constructor | java/com/google/android/things/pio/UartCallbackWrapper.java:43-48 | Starts with no callback and no executor. |
| Callbacks.UartCallbackWrapper.SetHandler | java/com/google/android/things/pio/UartCallbackWrapper.java:50-71 | Installs the executor. |
| Callbacks.UartCallbackWrapper.Run | java/com/google/android/things/pio/UartCallbackWrapper.java:53-69 | With no callback, nothing happens. A true verdict keeps the callback and executor. A false verdict unregisters the wrapper for its index and clears both; if that unregister fails remotely, both are kept. |
| Callbacks.UartCallbackWrapper.OnUartDeviceDataAvailable | java/com/google/android/things/pio/UartCallbackWrapper.java:73-75 | With an executor, the runnable runs: nothing happens without a callback, a true verdict keeps callback and executor, and a false verdict unregisters the wrapper and clears both unless that call fails remotely. Without an executor, it is a NullPointerException that changes nothing. |
| ClientGpio.ConfigureSnoc | java/com/google/android/things/pio/impl/GpioImpl.java:136-147 | Configuring by a sequence of calls is a fold: one more call applies one more step. |
| ClientGpio.ConfigureIsLastDirection | java/com/google/android/things/pio/impl/GpioImpl.java:136-147 | After any sequence of calls, the direction is the last accepted `setDirection` argument, or the initial one. |
| ClientGpio.ConfigureKeepsValid | java/com/google/android/things/pio/impl/GpioImpl.java:136-141 | The direction always stays within the three defined directions. |
| ClientGpio.DirectionGates | java/com/google/android/things/pio/impl/GpioImpl.java:107-171 | From the initial input direction: `setValue` passes exactly when the last accepted direction is an output, and `setEdgeTriggerType` and callback registration pass exactly when it is the input. |
| ClientGpio.GpioImpl.constructor | java/com/google/android/things/pio/impl/GpioImpl.java:50-60 | The direction starts as input, with a fresh wrapper that has no callback, and the GPIO lease is registered. |
| ClientGpio.GpioImpl.Close | java/com/google/android/things/pio/impl/GpioImpl.java:62-75 | A failed close is an IOException. The lease is unregistered only after a successful close. |
| ClientGpio.GpioImpl.GetValue | java/com/google/android/things/pio/impl/GpioImpl.java:81-88 | The reported value, or false on a RemoteException. |
| ClientGpio.GpioImpl.SetDirection | java/com/google/android/things/pio/impl/GpioImpl.java:136-147 | A value outside the three directions is an IllegalArgumentException that leaves the direction unchanged. Otherwise the value is stored and sent. |
| ClientGpio.GpioImpl.SetValue | java/com/google/android/things/pio/impl/GpioImpl.java:163-171 | Fails with an IOException in input mode, including the initial state. Nothing is sent on failure. |
| ClientGpio.GpioImpl.SetEdgeTriggerType | java/com/google/android/things/pio/impl/GpioImpl.java:149-161 | Rejects values outside the edge range, and fails unless the pin is in input mode. |
| ClientGpio.GpioImpl.SetActiveType | java/com/google/android/things/pio/impl/GpioImpl.java:124-134 | Accepts only active-low or active-high. |
| ClientGpio.GpioImpl.RegisterGpioCallback | java/com/google/android/things/pio/impl/GpioImpl.java:107-122 | Fails unless the pin is in input mode, and fails on a null callback. On success, the wrapper holds the callback and is registered. |
| ClientGpio.GpioImpl.UnregisterGpioCallback | java/com/google/android/things/pio/impl/GpioImpl.java:173-182 | Acts only when the argument is the stored callback: it unregisters, then clears the callback unless the call fails remotely. Otherwise it is a no-op. |
| ClientUart.UartImpl.constructor | java/com/google/android/things/pio/impl/UartImpl.java:47-57 | A fresh wrapper, and the UART lease registered. |
| ClientUart.UartImpl.Close | java/com/google/android/things/pio/impl/UartImpl.java:59-76 | The lease is unregistered only after a successful close. A failure is an IOException. |
| ClientUart.UartImpl.Flush | java/com/google/android/things/pio/impl/UartImpl.java:83-97 | A direction outside the flush range fails before any call. |
| ClientUart.UartImpl.SendBreak | java/com/google/android/things/pio/impl/UartImpl.java:99-113 | A negative duration fails before any call. |
| ClientUart.UartImpl.SetBaudrate | java/com/google/android/things/pio/impl/UartImpl.java:115-129 | A rate of zero or less is an IllegalArgumentException, raised before any call. |
| ClientUart.UartImpl.SetDataSize | java/com/google/android/things/pio/impl/UartImpl.java:131-145 | A size of zero or less is an IllegalArgumentException, raised before any call. |
| ClientUart.UartImpl.SetHardwareFlowControl | java/com/google/android/things/pio/impl/UartImpl.java:147-165 | Values out of range, and also automatic RTS/CTS, fail, so only NONE ever reaches the manager. |
| ClientUart.UartImpl.ClearModemControl | java/com/google/android/things/pio/impl/UartImpl.java:167-170 | Always fails as unsupported. |
| ClientUart.UartImpl.SetModemControl | java/com/google/android/things/pio/impl/UartImpl.java:172-175 | Always fails as unsupported. |
| ClientUart.UartImpl.SetParity | java/com/google/android/things/pio/impl/UartImpl.java:177-191 | A mode outside the parity range fails before any call. |
| ClientUart.UartImpl.SetStopBits | java/com/google/android/things/pio/impl/UartImpl.java:193-207 | A negative count fails before any call. |
| ClientUart.UartImpl.Read | java/com/google/android/things/pio/impl/UartImpl.java:209-222 | A length longer than the buffer fails. Otherwise the reply is copied into the prefix of the buffer, the rest is kept, and the count returned is the reply's length, or 0 on a RemoteException. A reply longer than the buffer overruns it. |
| ClientUart.UartImpl.Write | java/com/google/android/things/pio/impl/UartImpl.java:224-238 | A length longer than the buffer fails. A negative count, or a RemoteException, which leaves the count at -1, becomes an IOException. |
| ClientUart.UartImpl.RegisterUartDeviceCallback | java/com/google/android/things/pio/impl/UartImpl.java:257-268 | A null callback fails with nothing changed. Otherwise the callback and executor are installed, and the wrapper is registered. |
| ClientUart.UartImpl.UnregisterUartDeviceCallback | java/com/google/android/things/pio/impl/UartImpl.java:270-280 | Acts only on the stored callback. Callback and executor are cleared unless the unregister fails remotely. |
| ClientSpi.SpiImpl.constructor | java/com/google/android/things/pio/impl/SpiImpl.java:41-50 | The SPI lease is registered. |
| ClientSpi.SpiImpl.Close | java/com/google/android/things/pio/impl/SpiImpl.java:52-69 | The lease is unregistered only after a successful close. |
| ClientSpi.SpiImpl.SetBitJustification | java/com/google/android/things/pio/impl/SpiImpl.java:76-91 | Accepts only MSB-first or LSB-first. |
| ClientSpi.SpiImpl.SetBitsPerWord | java/com/google/android/things/pio/impl/SpiImpl.java:93-107 | Rejects values below 1 before any call. |
| ClientSpi.SpiImpl.SetCsChange | java/com/google/android/things/pio/impl/SpiImpl.java:109-121 | Always sent. A false status is an IOException. |
| ClientSpi.SpiImpl.SetDelay | java/com/google/android/things/pio/impl/SpiImpl.java:123-137 | Rejects negative delays, and accepts zero. |
| ClientSpi.SpiImpl.SetFrequency | java/com/google/android/things/pio/impl/SpiImpl.java:139-153 | Rejects negative frequencies with an IllegalArgumentException, and accepts zero. |
| ClientSpi.SpiImpl.SetMode | java/com/google/android/things/pio/impl/SpiImpl.java:155-168 | Accepts only modes 0 to 3. |
| ClientSpi.SpiImpl.Transfer | java/com/google/android/things/pio/impl/SpiImpl.java:170-183 | A length larger than either buffer fails. Otherwise the reply is copied into the prefix of the receive buffer and the rest is kept. |
| ClientSpi.SpiImpl.Write | java/com/google/android/things/pio/impl/SpiImpl.java:185-199 | A length larger than the buffer fails. A false status is an IOException. |
| ClientSpi.SpiImpl.Read | java/com/google/android/things/pio/impl/SpiImpl.java:201-213 | A length larger than the buffer fails. Otherwise the reply is copied into the prefix of the receive buffer. |
| ClientI2c.I2cImpl.constructor | java/com/google/android/things/pio/impl/I2cImpl.java:40-49 | The I2C lease is registered. |
| ClientI2c.I2cImpl.Close | java/com/google/android/things/pio/impl/I2cImpl.java:51-64 | A false result throws. The lease is unregistered only after success. |
| ClientI2c.I2cImpl.Read | java/com/google/android/things/pio/impl/I2cImpl.java:70-79 | A length longer than the buffer fails. Otherwise exactly the first `length` bytes are overwritten with the reply and the rest are kept; a shorter reply overruns. |
| ClientI2c.I2cImpl.ReadRegBuffer | java/com/google/android/things/pio/impl/I2cImpl.java:81-90 | The same length guard and `length`-byte prefix copy, from a register. |
| ClientI2c.I2cImpl.ReadRegByte | java/com/google/android/things/pio/impl/I2cImpl.java:92-98 | The byte read, or 0 on a RemoteException. |
| ClientI2c.I2cImpl.ReadRegWord | java/com/google/android/things/pio/impl/I2cImpl.java:100-106 | The word read, narrowed to `short`, or 0 on a RemoteException. |
| ClientI2c.I2cImpl.Write | java/com/google/android/things/pio/impl/I2cImpl.java:108-119 | A length longer than the buffer fails. A false status is an IOException. |
| ClientI2c.I2cImpl.WriteRegBuffer | java/com/google/android/things/pio/impl/I2cImpl.java:121-132 | A length longer than the buffer fails. A false status is an IOException. |
| ClientI2c.I2cImpl.WriteRegByte | java/com/google/android/things/pio/impl/I2cImpl.java:134-142 | A false status is an IOException. |
| ClientI2c.I2cImpl.WriteRegWord | java/com/google/android/things/pio/impl/I2cImpl.java:144-152 | A false status is an IOException. |
| UserSensors.UserSensor.constructor | java/com/google/android/things/userdriver/sensor/UserSensor.java:82-95 | A new sensor has the default field values. |
| UserSensors.Builder.constructor | java/com/google/android/things/userdriver/sensor/UserSensor.java:100-102 | The builder holds a fresh default sensor. |
| UserSensors.Builder.Build | java/com/google/android/things/userdriver/sensor/UserSensor.java:104-109 | Returns the sensor being built. |
| UserSensors.Builder.SetName | java/com/google/android/things/userdriver/sensor/UserSensor.java:111-117 | Rejects null and leaves the sensor unchanged. Otherwise it sets the name only and returns the builder. |
| UserSensors.Builder.SetVendor | java/com/google/android/things/userdriver/sensor/UserSensor.java:119-125 | Rejects null. Otherwise it sets the vendor only. |
| UserSensors.Builder.SetVersion | java/com/google/android/things/userdriver/sensor/UserSensor.java:127-133 | Always sets the version only. |
| UserSensors.Builder.SetType | java/com/google/android/things/userdriver/sensor/UserSensor.java:135-141 | Rejects types below 0 or above the private base; the bound is inclusive. Otherwise it sets the type only. |
| UserSensors.Builder.SetCustomType | java/com/google/android/things/userdriver/sensor/UserSensor.java:143-154 | Rejects a type below the private base, and a null string type. On success it sets the type, the string type and the reporting mode. |
| UserSensors.Builder.SetMinDelay | java/com/google/android/things/userdriver/sensor/UserSensor.java:180-186 | Rejects a negative value. Otherwise it stores it. |
| UserSensors.Builder.SetMaxDelay | java/com/google/android/things/userdriver/sensor/UserSensor.java:188-194 | Rejects a negative value. Otherwise it stores it. |
| UserSensors.Builder.SetUuid | java/com/google/android/things/userdriver/sensor/UserSensor.java:196-200 | Always sets the UUID only. |
| UserSensors.Builder.SetDriver | java/com/google/android/things/userdriver/sensor/UserSensor.java:202-208 | Rejects null. Otherwise it sets the driver only. |
| UserDrivers.UserDriverManager.constructor | java/com/google/android/things/userdriver/UserDriverManager.java:31-35 | The sensor list starts empty. |
| UserDrivers.UserDriverManager.RegisterSensor | java/com/google/android/things/userdriver/UserDriverManager.java:47-49 | Appends the sensor at the end. |
| UserDrivers.UserDriverManager.UnregisterSensor | java/com/google/android/things/userdriver/UserDriverManager.java:51-55 | Removes the first occurrence, so the length drops by one and the order is kept. An absent sensor throws and leaves the list unchanged. |
| UserDrivers.RegisterUnregisterRoundTrip | java/com/google/android/things/userdriver/UserDriverManager.java:47-54 | Unregistering a sensor just registered, and not registered before, restores the list. |

## Left out

- Native JNI methods are foreign code. The `_open`, `_close`, `_read*`, `_write*`, `_set*`, `_registerCallback` and `_unregisterCallback` calls are recorded in a ghost log, and any result they return (the value read, the bytes read) is a parameter. The enumerations `_getListOf` and `_getPinName` are not logged; their results are the parameters `pinNames`, `i2cNames` and `enumerated`. `_init`, the native library's start-up call, is not modelled.
- The Binder plumbing is not modelled: `linkToDeath` success is a parameter, and `unlinkToDeath`, whose result the Java ignores, only clears `deathLinked` and `Binder.getCallingPid` is a parameter. `RemoteCallbackList` is reduced to an optional sequence of listeners, and a delivery failure to a `failing` set.
- A `RemoteException` from the manager service is the `RemoteFailure` reply, or a `remoteFails` flag for calls without a result.
- Concurrency is not modelled: the `synchronized` blocks and the asynchronous death notification become sequential calls.
- Floating point is not modelled: `PwmImpl`, `OdroidPwm`, the PWM pass-throughs of `OdroidThingsManager`, and UserSensor's `maxRange`, `resolution` and `power` setters are left out.
- `PeripheralManager` is left out; it is a singleton that forwards RPCs.
- `CallbackHandlerExecutor`, and the `checkHandler`/`Looper` code of `GpioImpl` and `UartImpl`, are left out. These are Android Handler posting. The handler is an opaque value, the runnable is run at once, and the IllegalArgumentException for a thread without a looper is not modelled.
- `OdroidSpi` is left out: its methods are one-line native pass-throughs.
- The interfaces `Gpio`, `UartDevice`, `SpiDevice`, `I2cDevice`, `Pwm` and `Pin` hold only constants. The constants used are in module `Constants`, and `Sensor.TYPE_DEVICE_PRIVATE_BASE` is written there as 0x10000.
- Logging is left out.
- `OdroidThingsManager`'s GPIO and I2C pass-throughs to the native objects (OdroidThingsManager.java:167-209 and 276-314) are left out, as are its `registNgetId`/`releaseClient` forwarders; the forwarders are the calls modelled in `ThingsClientManager`.
- UserDrivers.UserDriverManager.constructor: the private constructor and the `getInstance` singleton of `UserDriverManager` (UserDriverManager.java:31-43) are not modelled. The constructor is an ordinary one, so the model allows several sensor lists.
- `getGpioList`, `getPwmList`, `getGpioPinBy`, `getPwmPinBy`, `closeGpio`, `closePwm` and `closeI2c` are one-line forwarders. They are modelled by the members they call: `GetFilteredListOf`, `GetPinNumBy` with its `PinKind`, `ClosePinBy` and `CloseI2cBy`.
- `closeUartBy` and `closeSpiBy` are called by `ThingsClient.release` (ThingsClient.java:134,140), by `UartImpl.close` (UartImpl.java:65) and by `SpiImpl.close` (SpiImpl.java:58), but `OdroidThingsManager` defines no UART or SPI method at all. The model records only the request (`Things.ThingsManager.CloseUartBy`, `Things.ThingsManager.CloseSpiBy`), and on the client side the reply is a parameter.
- `OdroidUart`'s configuration and transfer pass-throughs are left out, as are the error callbacks `onGpioError` and `onUartDeviceError`.
- Things.ThingsManager.GetI2cIdxBy: the `i2cIdx` counter is an unbounded integer, so Java's 32-bit wrap-around after 2^31 allocations is not modelled.
- Things.ThingsManager.ClosePinBy: the caller must pass an index inside the table. Out of range, `pinStateList.get` would throw IndexOutOfBoundsException, and that case is not modelled.
- Things.ThingsClient.Release, Things.ThingsClientManager.ReleaseClient, Things.ThingsClient.BinderDied: the same case is excluded, since every occupied pin must be an index inside the table (`PinsInRange`); a lease on an index outside the table would throw in `closePinBy` midway through the release.
- Things.ThingsClient.Release: a second release is excluded by a precondition. It would dereference the nulled sets, and that NullPointerException is not modelled.
- Things.ThingsClient.Release: the closes of one set are issued in an unspecified order, as a `HashSet` iteration does. So what is appended after the old trace, which stays a prefix, is stated as a multiset. The order of the four loops (pins, then I2C, then UART, then SPI) is therefore not stated either. The same holds for ReleaseClient and BinderDied.
- The static fields of `OdroidThingsManager` are fields of the single `ThingsManager` object.
- Nested state objects are flattened into the fields of their owner: `GpioState` into `OdroidGpio`, and `UartState` into `OdroidUart`'s `state` index.
- Null arrays returned by an RPC or a native call are not modelled; a returned array is always a sequence.
- NativeGpio.OdroidGpio.DoCallback: the IllegalStateException that `beginBroadcast` raises on a nested broadcast cannot arise in a sequential model.
- The getters of `UserSensor` and of `ThingsClient` are plain field reads and are not modelled as members.
- UserSensors.Builder.Build: the null check on the sensor is dead code, because the builder always holds a sensor.
- NativeI2c.DecodeWord: the `|` of the two masked bytes is written as their sum, which is equal because the bytes occupy disjoint bits.
- Rpc.Succeeded, Rpc.StatusOutcome and Rpc.CheckedCall are shared by every client class; their rows cite one representative use.

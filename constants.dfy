/** The constants of the peripheral interfaces `Gpio`, `UartDevice` and `SpiDevice`,
    and the sensor type bound the user-driver builder checks against. */
module Constants {
  // Gpio
  const ActiveLow: int := 0
  const ActiveHigh: int := 1
  const DirectionIn: int := 0
  const DirectionOutInitiallyHigh: int := 1
  const DirectionOutInitiallyLow: int := 2
  const EdgeNone: int := 0
  const EdgeRising: int := 1
  const EdgeFalling: int := 2
  const EdgeBoth: int := 3

  // UartDevice
  const FlushIn: int := 0
  const FlushOut: int := 1
  const FlushInOut: int := 2
  const HwFlowControlNone: int := 0
  const HwFlowControlAutoRtsCts: int := 1
  const ParityNone: int := 0
  const ParityEven: int := 1
  const ParityOdd: int := 2
  const ParityMark: int := 3
  const ParitySpace: int := 4

  // SpiDevice
  const BitJustificationMsbFirst: int := 0
  const BitJustificationLsbFirst: int := 1
  const Mode0: int := 0
  const Mode1: int := 1
  const Mode2: int := 2
  const Mode3: int := 3

  /** Android's `Sensor.TYPE_DEVICE_PRIVATE_BASE`: the first vendor-defined sensor type. */
  const TypeDevicePrivateBase: int := 0x10000
}

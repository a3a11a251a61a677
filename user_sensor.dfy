/** UserSensor and its Builder: a sensor description assembled field by field, where
    each setter checks its argument and throws IllegalArgumentException before storing it. */
module UserSensors {
  import opened Lang
  import opened Constants

  /** A `java.util.UUID` and a `UserSensorDriver` object, by identity. */
  type Uuid = nat
  type Driver = nat

  /** The integer and reference fields of a UserSensor, as one value. */
  datatype SensorFields = SensorFields(
    sensorType: int, stringType: Option<string>, name: Option<string>, vendor: Option<string>,
    version: int, reportingMode: int, minDelay: int, maxDelay: int,
    uuid: Option<Uuid>, driver: Option<Driver>)

  /** Java's defaults: every int 0, every reference null. */
  const Defaults := SensorFields(0, None, None, None, 0, 0, 0, 0, None, None)

  class UserSensor {
    var sensorType: int
    var stringType: Option<string>
    var name: Option<string>
    var vendor: Option<string>
    var version: int
    var reportingMode: int
    var minDelay: int
    var maxDelay: int
    var uuid: Option<Uuid>
    var driver: Option<Driver>

    function Fields(): SensorFields
      reads this
    {
      SensorFields(sensorType, stringType, name, vendor, version, reportingMode, minDelay, maxDelay, uuid, driver)
    }

    constructor()
      ensures Fields() == Defaults
    {
      sensorType, stringType, name, vendor := 0, None, None, None;
      version, reportingMode, minDelay, maxDelay := 0, 0, 0, 0;
      uuid, driver := None, None;
    }
  }

  class Builder {
    /** The sensor being built; set by the constructor and never null. */
    const sensor: UserSensor

    constructor()
      ensures fresh(sensor) && sensor.Fields() == Defaults
    {
      sensor := new UserSensor();
    }

    /** `build`: the sensor being built, itself (its null check cannot fire). */
    method Build() returns (s: UserSensor)
      ensures s == sensor
    {
      s := sensor;
    }

    method SetName(name: Option<string>) returns (r: Result<Builder>)
      modifies sensor
      ensures name == None ==> r == Err(IllegalArgument) && sensor.Fields() == old(sensor.Fields())
      ensures name != None ==> r == Ok(this) && sensor.Fields() == old(sensor.Fields()).(name := name)
    {
      if name == None {
        return Err(IllegalArgument);
      }
      sensor.name := name;
      r := Ok(this);
    }

    method SetVendor(vendor: Option<string>) returns (r: Result<Builder>)
      modifies sensor
      ensures vendor == None ==> r == Err(IllegalArgument) && sensor.Fields() == old(sensor.Fields())
      ensures vendor != None ==> r == Ok(this) && sensor.Fields() == old(sensor.Fields()).(vendor := vendor)
    {
      if vendor == None {
        return Err(IllegalArgument);
      }
      sensor.vendor := vendor;
      r := Ok(this);
    }

    /** No check: every version is stored. */
    method SetVersion(version: int) returns (r: Result<Builder>)
      modifies sensor
      ensures r == Ok(this) && sensor.Fields() == old(sensor.Fields()).(version := version)
    {
      sensor.version := version;
      r := Ok(this);
    }

    /** Accepts the standard types 0 to TYPE_DEVICE_PRIVATE_BASE, the base included. */
    method SetType(t: int) returns (r: Result<Builder>)
      modifies sensor
      ensures !(0 <= t <= TypeDevicePrivateBase) ==> r == Err(IllegalArgument) && sensor.Fields() == old(sensor.Fields())
      ensures 0 <= t <= TypeDevicePrivateBase ==> r == Ok(this) && sensor.Fields() == old(sensor.Fields()).(sensorType := t)
    {
      if t < 0 || t > TypeDevicePrivateBase {
        return Err(IllegalArgument);
      }
      sensor.sensorType := t;
      r := Ok(this);
    }

    /** A vendor type: at least TYPE_DEVICE_PRIVATE_BASE and named; type, name and
        reporting mode are stored together. */
    method SetCustomType(t: int, stringType: Option<string>, reportingMode: int) returns (r: Result<Builder>)
      modifies sensor
      ensures (t < TypeDevicePrivateBase || stringType == None) ==>
                r == Err(IllegalArgument) && sensor.Fields() == old(sensor.Fields())
      ensures t >= TypeDevicePrivateBase && stringType != None ==>
                r == Ok(this)
                && sensor.Fields() == old(sensor.Fields()).(sensorType := t, stringType := stringType, reportingMode := reportingMode)
    {
      if t < TypeDevicePrivateBase {
        return Err(IllegalArgument);
      }
      if stringType == None {
        return Err(IllegalArgument);
      }
      sensor.sensorType := t;
      sensor.stringType := stringType;
      sensor.reportingMode := reportingMode;
      r := Ok(this);
    }

    method SetMinDelay(minDelay: int) returns (r: Result<Builder>)
      modifies sensor
      ensures minDelay < 0 ==> r == Err(IllegalArgument) && sensor.Fields() == old(sensor.Fields())
      ensures minDelay >= 0 ==> r == Ok(this) && sensor.Fields() == old(sensor.Fields()).(minDelay := minDelay)
    {
      if minDelay < 0 {
        return Err(IllegalArgument);
      }
      sensor.minDelay := minDelay;
      r := Ok(this);
    }

    method SetMaxDelay(maxDelay: int) returns (r: Result<Builder>)
      modifies sensor
      ensures maxDelay < 0 ==> r == Err(IllegalArgument) && sensor.Fields() == old(sensor.Fields())
      ensures maxDelay >= 0 ==> r == Ok(this) && sensor.Fields() == old(sensor.Fields()).(maxDelay := maxDelay)
    {
      if maxDelay < 0 {
        return Err(IllegalArgument);
      }
      sensor.maxDelay := maxDelay;
      r := Ok(this);
    }

    /** No check: a null UUID is stored too. */
    method SetUuid(uuid: Option<Uuid>) returns (r: Result<Builder>)
      modifies sensor
      ensures r == Ok(this) && sensor.Fields() == old(sensor.Fields()).(uuid := uuid)
    {
      sensor.uuid := uuid;
      r := Ok(this);
    }

    method SetDriver(driver: Option<Driver>) returns (r: Result<Builder>)
      modifies sensor
      ensures driver == None ==> r == Err(IllegalArgument) && sensor.Fields() == old(sensor.Fields())
      ensures driver != None ==> r == Ok(this) && sensor.Fields() == old(sensor.Fields()).(driver := driver)
    {
      if driver == None {
        return Err(IllegalArgument);
      }
      sensor.driver := driver;
      r := Ok(this);
    }
  }
}

/**
 * The three slots of a host telemetry record that the service-context
 * initializer writes: the cloud role name, the component version and the
 * string property bag. The host SDK's record type is reduced to these.
 */
module Telemetry {
  import opened Wrappers

  /** The value of a record's three slots at one moment. */
  datatype Record = Record(roleName: Option<string>, componentVersion: Option<string>, properties: map<string, string>)

  /** A telemetry record the host hands to initializers, updated in place. */
  class TelemetryRecord {
    var roleName: Option<string>
    var componentVersion: Option<string>
    var properties: map<string, string>

    constructor (roleName: Option<string>, componentVersion: Option<string>, properties: map<string, string>)
      ensures View() == Record(roleName, componentVersion, properties)
    {
      this.roleName := roleName;
      this.componentVersion := componentVersion;
      this.properties := properties;
    }

    /** The current contents of the three slots. */
    function View(): Record
      reads this
    {
      Record(roleName, componentVersion, properties)
    }
  }
}

/** The one entity both halves exchange: a telemetry snapshot of a host,
    and the JSON values its nested dictionaries hold. */
module Telemetry {

  /** A JSON value. Floating-point readings are carried as their decimal
      text; they are opaque payload to every operation modelled here. */
  datatype Value =
    | Null
    | Bool(b: bool)
    | Int(i: int)
    | Float(text: string)
    | Str(s: string)
    | Object(fields: map<string, Value>)

  /** A JSON object. */
  type Dict = map<string, Value>

  /** `SystemInfo`: the eight required fields of a submission. */
  datatype SystemInfo = SystemInfo(
    timestamp: string,
    hostname: string,
    ipAddress: string,
    macAddress: string,
    osInfo: Dict,
    memoryInfo: Dict,
    diskInfo: Dict,
    cpuInfo: Dict)

  /** The JSON keys of a snapshot. */
  const FieldNames: set<string> :=
    {"timestamp", "hostname", "ip_address", "mac_address",
     "os_info", "memory_info", "disk_info", "cpu_info"}

  /** The snapshot as the JSON object the client posts and the server stores. */
  function ToJson(info: SystemInfo): (r: Dict)
    ensures r.Keys == FieldNames
    ensures "error" !in r
    ensures r["hostname"] == Str(info.hostname) && r["mac_address"] == Str(info.macAddress)
  {
    map["timestamp" := Str(info.timestamp),
        "hostname" := Str(info.hostname),
        "ip_address" := Str(info.ipAddress),
        "mac_address" := Str(info.macAddress),
        "os_info" := Object(info.osInfo),
        "memory_info" := Object(info.memoryInfo),
        "disk_info" := Object(info.diskInfo),
        "cpu_info" := Object(info.cpuInfo)]
  }
}

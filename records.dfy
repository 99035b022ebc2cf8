/**
 * Rows as the store hands them out: positional tuples of SQLite values. The
 * column positions follow the table definitions of the store (coredumps,
 * firmwares, devices, clusters), so each reader below says which column it
 * takes by name.
 */
module Records {
  import Text

  /** A SQLite value: INTEGER, TEXT or NULL. */
  datatype Value = Int(i: int) | Str(s: string) | Null

  type Row = seq<Value>

  // coredumps: (coredump_id, device_mac_address, firmware_id_on_crash,
  //             cluster_id, raw_dump_path, log_path, received_at)
  const CoredumpIdCol := 0
  const DeviceMacCol := 1
  const FirmwareIdOnCrashCol := 2
  const ClusterIdCol := 3
  const RawDumpPathCol := 4
  const LogPathCol := 5
  const ReceivedAtCol := 6

  // firmwares: (firmware_id, name, version, elf_path)
  const FirmwareVersionCol := 2
  const FirmwareElfPathCol := 3

  // devices: (mac_address, current_firmware_id, chip_type)
  const DeviceFirmwareIdCol := 1
  const DeviceChipTypeCol := 2

  // clusters: (cluster_id, name)
  const ClusterNameCol := 1

  /** A full coredumps row. */
  function CoredumpRow(id: int, mac: string, firmwareId: int, clusterId: Value,
                       rawDumpPath: string, logPath: Value, receivedAt: Value): (r: Row)
    ensures |r| == 7 && r[CoredumpIdCol] == Int(id) && r[ClusterIdCol] == clusterId && r[LogPathCol] == logPath
  {
    [Int(id), Str(mac), Int(firmwareId), clusterId, Str(rawDumpPath), logPath, receivedAt]
  }

  /** Python's truth value of a column: 0, "" and NULL are false. */
  predicate Truthy(v: Value) {
    match v
    case Int(i) => i != 0
    case Str(s) => s != ""
    case Null => false
  }

  /** Python's `str(v)`; NULL prints as "None". */
  function PyStr(v: Value): string {
    match v
    case Int(i) => Text.IntToString(i)
    case Str(s) => s
    case Null => "None"
  }
}

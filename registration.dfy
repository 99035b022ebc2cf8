/**
 * What happens to a dump once its raw file is written: the device row names
 * the firmware it runs, the firmware row names the ELF, and the dump is
 * recorded in the store and analysed against that ELF. The store lookups, the
 * existence of the ELF and the analysis outcome are parameters; the writes and
 * the analysis run are returned, in order, as effects.
 */
module Registration {
  import opened Wrappers
  import opened Records
  import Text

  /** What a registration does to the outside world, in order. */
  datatype Effect =
    /** `save_coredump_raw`: a coredumps row without a report, whose id is `id`. */
    | SaveRaw(id: int, mac: string, firmwareId: int, rawPath: string, receivedAt: int)
    /** The analysis of `rawPath` against `elfPath` for the given chip. */
    | Analyse(rawPath: string, elfPath: string, chip: Value)
    /** `save_coredump_report`: the report path of coredump `id`. */
    | SaveReport(id: int, reportPath: string)
    /** `add_coredump`: one coredumps row, with its log path or NULL. */
    | AddCoredump(mac: string, firmwareId: int, rawPath: string, logPath: Option<string>, receivedAt: int)

  /** The firmware key of a device row column, as `int(...)` (or SQLite's comparison) reads it. */
  function FirmwareKey(v: Value): Option<int> {
    match v
    case Int(i) => Some(i)
    case Str(s) => Text.ParseInt(s)
    case Null => None
  }

  /** What the store and the file system answer during one registration. */
  datatype World = World(
    /** `get_device(mac)`. */
    device: Option<Row>,
    /** `get_firmware_by_id`. */
    firmwares: map<int, Row>,
    /** Whether the ELF file named by the firmware row exists. */
    elfExists: bool,
    /** The id the store gives the new coredumps row. */
    newId: int,
    /** The report path the analysis produces, or None where it raises. */
    report: Option<string>)

  /** The firmware row the device row leads to, when every lookup succeeds. */
  predicate Locates(w: World) {
    && w.device.Some? && |w.device.value| > DeviceFirmwareIdCol
    && Truthy(w.device.value[DeviceFirmwareIdCol])
    && FirmwareKey(w.device.value[DeviceFirmwareIdCol]).Some?
    && FirmwareKey(w.device.value[DeviceFirmwareIdCol]).value in w.firmwares
    && |w.firmwares[FirmwareKey(w.device.value[DeviceFirmwareIdCol]).value]| > FirmwareElfPathCol
  }

  function FirmwareId(w: World): int
    requires Locates(w)
  {
    FirmwareKey(w.device.value[DeviceFirmwareIdCol]).value
  }

  function Firmware(w: World): Row
    requires Locates(w)
  {
    w.firmwares[FirmwareId(w)]
  }

  /** `str(fw[3])`. */
  function ElfPath(w: World): string
    requires Locates(w)
  {
    PyStr(Firmware(w)[FirmwareElfPathCol])
  }

  /**
   * `_Assembler._process_and_register`: nothing for an unknown device (or a
   * device row that does not unpack into three columns), a falsy firmware id
   * or a missing firmware row; otherwise the raw record first, then, when the
   * ELF exists, the analysis and, unless it raises, the report. Every
   * exception is swallowed, so what was done before it stays done. The chip
   * passed on is column 2 of the firmware row.
   */
  function ReceiverRegister(w: World, mac: string, rawPath: string, receivedAt: int): (r: seq<Effect>)
  {
    if w.device.None? || |w.device.value| != 3 || !Locates(w) then []
    else
      var fw := Firmware(w);
      var raw := [SaveRaw(w.newId, mac, FirmwareId(w), rawPath, receivedAt)];
      if !w.elfExists then raw
      else
        var run := [Analyse(rawPath, ElfPath(w), fw[FirmwareVersionCol])];
        if w.report.None? then raw + run else raw + run + [SaveReport(w.newId, w.report.value)]
  }

  /** The same with the device's own chip type, which the handler unpacks and never uses. */
  function ReceiverRegisterFixed(w: World, mac: string, rawPath: string, receivedAt: int): (r: seq<Effect>)
  {
    if w.device.None? || |w.device.value| != 3 || !Locates(w) then []
    else
      var raw := [SaveRaw(w.newId, mac, FirmwareId(w), rawPath, receivedAt)];
      if !w.elfExists then raw
      else
        var run := [Analyse(rawPath, ElfPath(w), w.device.value[DeviceChipTypeCol])];
        if w.report.None? then raw + run else raw + run + [SaveReport(w.newId, w.report.value)]
  }

  /** `str(p).replace("\\", "/")`. */
  function ForwardSlashes(p: string): (r: string)
    ensures |r| == |p| && '\\' !in r
    ensures forall i | 0 <= i < |p| && p[i] != '\\' :: r[i] == p[i]
  {
    if p == [] then [] else [if p[0] == '\\' then '/' else p[0]] + ForwardSlashes(p[1..])
  }

  /**
   * `process_and_register_coredump` of the standalone subscriber: the same
   * lookups, then the analysis with the device's chip type when the ELF
   * exists, then one coredumps row with the report path (a path object, so
   * never falsy), or with NULL when the ELF is missing. An analysis that
   * raises ends the worker before anything is recorded.
   */
  function SubscriberRegister(w: World, mac: string, rawPath: string, receivedAt: int): (r: seq<Effect>)
  {
    if w.device.None? || |w.device.value| <= DeviceChipTypeCol || !Locates(w) then []
    else
      var row := AddCoredump(mac, FirmwareId(w), rawPath, None, receivedAt);
      if !w.elfExists then [row]
      else
        var run := [Analyse(rawPath, ElfPath(w), w.device.value[DeviceChipTypeCol])];
        match w.report
        case None => run
        case Some(p) => run + [row.(logPath := Some(ForwardSlashes(p)))]
  }

  /** The receiver records something exactly when all three lookups succeed, and then the raw record comes first. */
  lemma ReceiverRecordsIff(w: World, mac: string, rawPath: string, receivedAt: int)
    ensures var r := ReceiverRegister(w, mac, rawPath, receivedAt);
      && (r != [] <==> w.device.Some? && |w.device.value| == 3 && Locates(w))
      && (r != [] ==> r[0] == SaveRaw(w.newId, mac, FirmwareId(w), rawPath, receivedAt))
      && (forall i | 0 <= i < |r| :: r[i].SaveRaw? <==> i == 0)
  {
  }

  /** A report is saved only for an existing ELF whose analysis succeeded, under the id of the raw record. */
  lemma ReceiverReportIff(w: World, mac: string, rawPath: string, receivedAt: int)
    ensures var r := ReceiverRegister(w, mac, rawPath, receivedAt);
      (exists i | 0 <= i < |r| :: r[i].SaveReport?) <==>
        r != [] && w.elfExists && w.report.Some?
    ensures var r := ReceiverRegister(w, mac, rawPath, receivedAt);
      forall i | 0 <= i < |r| && r[i].SaveReport? :: i == 2 && r[i] == SaveReport(r[0].id, w.report.value)
  {
    var r := ReceiverRegister(w, mac, rawPath, receivedAt);
    if r != [] && w.elfExists && w.report.Some? {
      assert r[2].SaveReport?;
    }
  }

  /** The subscriber records at most one row, and one exactly when the lookups succeed and the analysis did not raise. */
  lemma SubscriberRecordsIff(w: World, mac: string, rawPath: string, receivedAt: int)
    ensures var r := SubscriberRegister(w, mac, rawPath, receivedAt);
      (exists i | 0 <= i < |r| :: r[i].AddCoredump?) <==>
        w.device.Some? && |w.device.value| > DeviceChipTypeCol && Locates(w) && (!w.elfExists || w.report.Some?)
    ensures var r := SubscriberRegister(w, mac, rawPath, receivedAt);
      forall i | 0 <= i < |r| && r[i].AddCoredump? :: i == |r| - 1 &&
        (r[i].logPath.Some? <==> w.elfExists)
  {
    var r := SubscriberRegister(w, mac, rawPath, receivedAt);
    if w.device.Some? && |w.device.value| > DeviceChipTypeCol && Locates(w) && (!w.elfExists || w.report.Some?) {
      assert r[|r| - 1].AddCoredump?;
    }
  }

  /** Every analysis either handler starts is of the raw file against the firmware's ELF, and only for an existing ELF. */
  lemma AnalysedOnlyWithElf(w: World, mac: string, rawPath: string, receivedAt: int)
    ensures forall e | e in ReceiverRegister(w, mac, rawPath, receivedAt) + SubscriberRegister(w, mac, rawPath, receivedAt) ::
      e.Analyse? ==> w.elfExists && Locates(w) && e.rawPath == rawPath && e.elfPath == ElfPath(w)
  {
  }

  /** A device on an ESP32-S3 running firmware version 1.0.0, with its ELF present. */
  function S3Device(): World {
    World(Some([Str("AA"), Int(7), Str("esp32s3")]),
      map[7 := [Int(7), Str("app"), Str("1.0.0"), Str("app.elf")]], true, 1, Some("r.txt"))
  }

  /** The receiver analyses the S3 device's dump as chip "1.0.0", the firmware version. */
  lemma ReceiverChipIsVersion()
    ensures Analyse("d.cdmp", "app.elf", Str("1.0.0")) in ReceiverRegister(S3Device(), "AA", "d.cdmp", 0)
    ensures forall e | e in ReceiverRegister(S3Device(), "AA", "d.cdmp", 0) :: e.Analyse? ==> e.chip != Str("esp32s3")
  {
    var r := ReceiverRegister(S3Device(), "AA", "d.cdmp", 0);
    assert r[1] == Analyse("d.cdmp", "app.elf", Str("1.0.0"));
  }

  /**
   * The corrected receiver analyses for the device's chip, as the subscriber
   * does, and otherwise does what the receiver as written does.
   */
  lemma FixedUsesDeviceChip(w: World, mac: string, rawPath: string, receivedAt: int)
    ensures var f := ReceiverRegisterFixed(w, mac, rawPath, receivedAt);
      var r := ReceiverRegister(w, mac, rawPath, receivedAt);
      && |f| == |r|
      && (forall i | 0 <= i < |f| :: f[i].Analyse? <==> r[i].Analyse?)
      && (forall i | 0 <= i < |f| && !f[i].Analyse? :: f[i] == r[i])
      && (forall i | 0 <= i < |f| && f[i].Analyse? :: f[i] == r[i].(chip := w.device.value[DeviceChipTypeCol]))
    ensures forall e, d |
      e in ReceiverRegisterFixed(w, mac, rawPath, receivedAt) && d in SubscriberRegister(w, mac, rawPath, receivedAt) &&
      e.Analyse? && d.Analyse? :: e == d
  {
  }
}

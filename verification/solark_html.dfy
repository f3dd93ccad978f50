/** The Solark debug endpoints of the web server: the ESPHome-style sensor
    lookup by id, and the raw-register list and return code of the JSON
    snapshot. */
module SolarkHtml {
  import opened Base
  import opened Text
  import opened ModbusRtu
  import opened SolarkRs485

  /** The state string of a sensor. Integer readings are rendered exactly;
      the three decimal readings are kept as raw value, divisor and number of
      decimals, because their text comes from floating-point formatting. */
  datatype SensorState =
    | Exact(text: string)
    | Scaled(raw: int, divisor: nat, decimals: nat, unit: string)

  const SocId := "sunsynk_battery_soc"
  const VoltageId := "sunsynk_battery_voltage"
  const CurrentId := "sunsynk_battery_current"
  const BatteryPowerId := "sunsynk_battery_power"
  const TotalBatteryPowerId := "sunsynk_total_battery_power"
  const GridPowerId := "sunsynk_grid_power"
  const LoadPowerId := "sunsynk_load_power"
  const TotalSolarPowerId := "sunsynk_total_solar_power"
  const PvPowerId := "sunsynk_pv_power"
  const Pv1PowerId := "sunsynk_pv1_power"
  const Pv2PowerId := "sunsynk_pv2_power"
  const SlavePv1PowerId := "sunsynk_slave_pv1_power"
  const SlavePv2PowerId := "sunsynk_slave_pv2_power"

  /** Every id the lookup answers. */
  const KnownIds: set<string> := {
    SocId, VoltageId, CurrentId, BatteryPowerId, TotalBatteryPowerId, GridPowerId, LoadPowerId,
    TotalSolarPowerId, PvPowerId, Pv1PowerId, Pv2PowerId, SlavePv1PowerId, SlavePv2PowerId}

  function Watts(w: int): string
  {
    IntToString(w) + " W"
  }

  /** PV string `k` (1 or 2) straight from the raw registers, 0 while fewer than 21 arrived. */
  function PvString(s: Snapshot, index: nat): u16
    requires index == 19 || index == 20
  {
    if s.rawRegisterCount > 20 && index < |s.rawRegisters| then s.rawRegisters[index] else 0
  }

  /** `solark_sensor_state_by_id`; `hasOut` is false when the caller passes no output argument. */
  function SensorStateById(s: Snapshot, id: string, hasOut: bool): (r: Option<SensorState>)
    ensures r.Some? <==> hasOut && id in KnownIds
  {
    if !hasOut then None
    else if id == SocId then Some(Scaled(s.batterySocPptt, 100, 2, " %"))
    else if id == VoltageId then Some(Scaled(s.batteryVoltageDv, 10, 1, " V"))
    else if id == CurrentId then Some(Scaled(s.batteryCurrentDa, 10, 1, " A"))
    else if id == BatteryPowerId || id == TotalBatteryPowerId then Some(Exact(Watts(s.batteryPowerW)))
    else if id == GridPowerId then Some(Exact(Watts(s.gridPowerW)))
    else if id == LoadPowerId then Some(Exact(Watts(s.loadPowerW)))
    else if id == TotalSolarPowerId || id == PvPowerId then Some(Exact(Watts(s.pvPowerW)))
    else if id == Pv1PowerId then Some(Exact(Watts(PvString(s, 19))))
    else if id == Pv2PowerId then Some(Exact(Watts(PvString(s, 20))))
    else if id == SlavePv1PowerId || id == SlavePv2PowerId then Some(Exact("0 W"))
    else None
  }

  /** The alias ids answer exactly what their partners answer. */
  lemma AliasesAgree(s: Snapshot)
    ensures SensorStateById(s, BatteryPowerId, true) == SensorStateById(s, TotalBatteryPowerId, true)
    ensures SensorStateById(s, TotalSolarPowerId, true) == SensorStateById(s, PvPowerId, true)
  {
  }

  /** The ids whose state is a whole number of watts. */
  const PowerIds: set<string> := {
    BatteryPowerId, TotalBatteryPowerId, GridPowerId, LoadPowerId, TotalSolarPowerId, PvPowerId,
    Pv1PowerId, Pv2PowerId, SlavePv1PowerId, SlavePv2PowerId}

  /** The snapshot field each power id reports, as the lookup table names it. */
  function PowerValue(s: Snapshot, id: string): int
  {
    if id == BatteryPowerId || id == TotalBatteryPowerId then s.batteryPowerW
    else if id == GridPowerId then s.gridPowerW
    else if id == LoadPowerId then s.loadPowerW
    else if id == TotalSolarPowerId || id == PvPowerId then s.pvPowerW
    else if id == Pv1PowerId then PvString(s, 19)
    else if id == Pv2PowerId then PvString(s, 20)
    else 0
  }

  /** The number a watt text shows: the integer before the " W" unit. */
  function ReadWatts(t: string): (r: Option<int>)
    ensures r.Some? ==> |t| >= 2 && t[|t| - 2..] == " W"
  {
    if |t| >= 2 && t[|t| - 2..] == " W" then ParseInt(t[..|t| - 2]) else None
  }

  /** A watt text reads back as the number it was printed from. */
  lemma WattsReadBack(w: int)
    ensures ReadWatts(Watts(w)) == Some(w)
  {
    var t := Watts(w);
    assert t[..|t| - 2] == IntToString(w);
    assert t[|t| - 2..] == " W";
    IntToStringRoundTrip(w);
  }

  /** The slave inverter's constant "0 W" is the watt text of 0. */
  lemma ZeroWatts()
    ensures Watts(0) == "0 W"
  {
    assert NatToString(0) == "0";
  }

  /** Every power id answers a watt text, and that text reads back as exactly
      the snapshot value the id reports; the other known ids answer a scaled
      reading. */
  lemma PowerReadingsExact(s: Snapshot, id: string)
    requires id in KnownIds
    ensures var st := SensorStateById(s, id, true);
      && st.Some?
      && (st.value.Exact? <==> id in PowerIds)
      && (id in PowerIds ==> ReadWatts(st.value.text) == Some(PowerValue(s, id)))
  {
    var st := SensorStateById(s, id, true);
    if id in PowerIds {
      ZeroWatts();
      assert st == Some(Exact(Watts(PowerValue(s, id))));
      WattsReadBack(PowerValue(s, id));
    } else {
      assert st.value.Scaled?;
    }
  }

  /** PV1 and PV2 are registers 19 and 20 once more than 20 registers were
      read, and 0 W before that; the slave inverter's strings always read 0 W. */
  lemma PvChannels(s: Snapshot)
    requires |s.rawRegisters| > 20
    ensures s.rawRegisterCount > 20 ==>
      && SensorStateById(s, Pv1PowerId, true) == Some(Exact(Watts(s.rawRegisters[19])))
      && SensorStateById(s, Pv2PowerId, true) == Some(Exact(Watts(s.rawRegisters[20])))
    ensures s.rawRegisterCount <= 20 ==>
      && SensorStateById(s, Pv1PowerId, true) == Some(Exact("0 W"))
      && SensorStateById(s, Pv2PowerId, true) == Some(Exact("0 W"))
    ensures SensorStateById(s, SlavePv1PowerId, true) == Some(Exact("0 W"))
    ensures SensorStateById(s, SlavePv2PowerId, true) == Some(Exact("0 W"))
  {
    assert NatToString(0) == "0";
    assert Watts(0) == "0 W";
  }

  /** The `raw_registers` array of the JSON snapshot: the stored registers in
      order, bounded by both the count and the array capacity. */
  function RawRegistersJson(s: Snapshot): (r: seq<u16>)
    ensures |r| == Min(s.rawRegisterCount, |s.rawRegisters|)
    ensures forall i :: 0 <= i < |r| ==> r[i] == s.rawRegisters[i]
  {
    s.rawRegisters[..Min(s.rawRegisterCount, |s.rawRegisters|)]
  }

  /** The return code of `solark_data_json`: the serialized length when it fits
      the caller's buffer, -1 otherwise. */
  function DataJsonResult(serializedLen: nat, bufSize: nat): (r: int)
    ensures r >= 0 <==> serializedLen <= bufSize
    ensures r >= 0 ==> r == serializedLen
  {
    if serializedLen <= bufSize then serializedLen else -1
  }

  /** End to end: after the client accepts a response carrying `regs`, the JSON
      snapshot lists exactly those registers, as many as the array holds. */
  lemma JsonShowsReceivedRegisters(s: Snapshot, regs: seq<u16>, now: u32)
    requires |regs| <= 127
    ensures RawRegistersJson(ParseAndUpdate(s, ReadHoldingResponse(SlaveId, regs), now))
            == regs[..Min(|regs|, |s.rawRegisters|)]
  {
    ResponseRoundTrip(s, regs, now);
  }
}

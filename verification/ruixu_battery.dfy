/** The Ruixu battery adapter over CAN: a driver whose protocol is not filled
    in yet. Frames are accepted and ignored, nothing is transmitted, and every
    update projects the adapter's private state (its constructor defaults)
    into the shared battery status. */
module RuixuBattery {
  import opened Base
  import opened Text

  type i16 = x: int | -0x8000 <= x < 0x8000

  const Name := "Ruixu (CAN)"
  const CanSpeedKbps: nat := 500
  /** `battery_protocol` is a 64-character buffer: 63 characters and a NUL. */
  const ProtocolChars: nat := 63

  /** The adapter's private fields, in their units: decivolts, deciamps,
      hundredths of a percent, millivolts and tenths of a degree. */
  datatype Adapter = Adapter(
    voltageDv: u16,
    currentDa: i16,
    socPptt: u16,
    sohPptt: u16,
    cellMaxMv: u16,
    cellMinMv: u16,
    temperatureMaxDc: i16,
    temperatureMinDc: i16,
    maxChargeCurrentDa: i16,
    maxDischargeCurrentDa: i16)

  /** The part of the shared battery status the adapter writes. */
  datatype Status = Status(
    realSoc: int,
    reportedSoc: int,
    sohPptt: int,
    voltageDv: int,
    currentDa: int,
    reportedCurrentDa: int,
    cellMaxVoltageMv: int,
    cellMinVoltageMv: int,
    temperatureMaxDc: int,
    temperatureMinDc: int,
    remainingCapacityWh: nat,
    reportedRemainingCapacityWh: nat,
    maxChargePowerW: u32,
    maxDischargePowerW: u32)

  datatype CanFrame = CanFrame(id: nat, data: seq<byte>)

  /** The constructor's field initialisers. */
  function Initial(): (a: Adapter)
    ensures 0 <= a.socPptt <= 10000 && 0 <= a.sohPptt <= 10000
    ensures a.cellMinMv <= a.cellMaxMv && a.temperatureMinDc <= a.temperatureMaxDc
    ensures a.voltageDv == 0 && a.maxChargeCurrentDa == 0 && a.maxDischargeCurrentDa == 0
  {
    Adapter(0, 0, 5000, 10000, 3300, 3300, 250, 250, 0, 0)
  }

  /** `setup`: the protocol name, cut to the buffer and NUL-terminated. */
  function Setup(): (protocol: string)
    ensures |protocol| <= ProtocolChars
    ensures protocol == Name
  {
    Prefix(Name, ProtocolChars)
  }

  /** `handle_incoming_can_frame`: no identifier is decoded yet. */
  function HandleFrame(a: Adapter, f: CanFrame): Adapter
  {
    a
  }

  /** Frames received in order. */
  function HandleAll(a: Adapter, frames: seq<CanFrame>): Adapter
    decreases |frames|
  {
    if |frames| == 0 then a else HandleAll(HandleFrame(a, frames[0]), frames[1..])
  }

  /** No sequence of frames, of any identifier, changes the adapter. */
  lemma {:induction false} FramesChangeNothing(a: Adapter, frames: seq<CanFrame>)
    ensures HandleAll(a, frames) == a
    decreases |frames|
  {
    if |frames| > 0 {
      FramesChangeNothing(HandleFrame(a, frames[0]), frames[1..]);
    }
  }

  /** `transmit_can`: the adapter is passive. */
  function TransmitCan(a: Adapter, currentMillis: nat): (frames: seq<CanFrame>)
    ensures |frames| == 0
  {
    []
  }

  /** The bounds of the signed product behind a power limit. */
  lemma PowerProduct(limitDa: i16, voltageDv: u16)
    ensures var p := TruncDiv(limitDa, 10) * (voltageDv / 10);
      && -3276 * 6553 <= p <= 3276 * 6553
      && (limitDa < 0 ==> p <= 0 && (p == 0 <==> limitDa > -10 || voltageDv < 10))
  {
    var q := TruncDiv(limitDa, 10);
    var v := voltageDv / 10;
    assert -3276 <= q <= 3276 && 0 <= v <= 6553;
    MulMono(q, 3276, v);
    MulMono(-3276, q, v);
    MulMono(v, 6553, 3276);
    if limitDa < 0 {
      MulMono(q, 0, v);
      if q < 0 && v > 0 {
        MulMono(q, -1, v);
      }
    }
  }

  /** A power limit: `(uint32_t)((limit_dA / 10) * (voltage_dV / 10))`, with
      C's truncating division and the wrap of the unsigned cast. */
  function PowerLimit(limitDa: i16, voltageDv: u16): (w: u32)
    ensures limitDa >= 0 ==> w == (limitDa / 10) * (voltageDv / 10)
    ensures limitDa < 0 ==> (w == 0 <==> limitDa > -10 || voltageDv < 10)
    ensures limitDa < 0 && w != 0 ==> w >= 0x1_0000_0000 - 3276 * 6553
  {
    PowerProduct(limitDa, voltageDv);
    (TruncDiv(limitDa, 10) * (voltageDv / 10)) % 0x1_0000_0000
  }

  /** `update_values`, given the pack's total capacity in watt-hours. The
      remaining capacity is the exact share `soc / 10000` of the total. */
  function UpdateValues(a: Adapter, s: Status, totalCapacityWh: nat): (s': Status)
    ensures s'.realSoc == a.socPptt && s'.reportedSoc == a.socPptt && s'.sohPptt == a.sohPptt
    ensures s'.voltageDv == a.voltageDv
    ensures s'.currentDa == a.currentDa && s'.reportedCurrentDa == a.currentDa
    ensures s'.cellMaxVoltageMv == a.cellMaxMv && s'.cellMinVoltageMv == a.cellMinMv
    ensures s'.temperatureMaxDc == a.temperatureMaxDc && s'.temperatureMinDc == a.temperatureMinDc
    ensures s'.reportedRemainingCapacityWh == s'.remainingCapacityWh
    ensures s'.remainingCapacityWh * 10000 <= a.socPptt * totalCapacityWh < (s'.remainingCapacityWh + 1) * 10000
    ensures a.voltageDv == 0 ==> s'.maxChargePowerW == s.maxChargePowerW && s'.maxDischargePowerW == s.maxDischargePowerW
    ensures a.voltageDv > 0 ==>
      s'.maxChargePowerW == PowerLimit(a.maxChargeCurrentDa, a.voltageDv)
      && s'.maxDischargePowerW == PowerLimit(a.maxDischargeCurrentDa, a.voltageDv)
  {
    var remaining := a.socPptt * totalCapacityWh / 10000;
    var charge := if a.voltageDv > 0 then PowerLimit(a.maxChargeCurrentDa, a.voltageDv) else s.maxChargePowerW;
    var discharge := if a.voltageDv > 0 then PowerLimit(a.maxDischargeCurrentDa, a.voltageDv) else s.maxDischargePowerW;
    Status(a.socPptt, a.socPptt, a.sohPptt, a.voltageDv, a.currentDa, a.currentDa,
           a.cellMaxMv, a.cellMinMv, a.temperatureMaxDc, a.temperatureMinDc,
           remaining, remaining, charge, discharge)
  }

  /** With a state of charge of at most 100.00 % the remaining capacity never
      exceeds the total, and a full pack reports all of it. */
  lemma RemainingWithinTotal(a: Adapter, s: Status, totalCapacityWh: nat)
    requires a.socPptt <= 10000
    ensures UpdateValues(a, s, totalCapacityWh).remainingCapacityWh <= totalCapacityWh
    ensures a.socPptt == 10000 ==> UpdateValues(a, s, totalCapacityWh).remainingCapacityWh == totalCapacityWh
  {
    var r := UpdateValues(a, s, totalCapacityWh).remainingCapacityWh;
    MulMono(a.socPptt, 10000, totalCapacityWh);
    assert r == a.socPptt * totalCapacityWh / 10000;
    assert (10000 * totalCapacityWh) / 10000 == totalCapacityWh;
  }

  /** Whatever frames arrive after construction, the voltage stays 0, so an
      update never writes the power limits; the status reports 50.00 % charge
      and 100.00 % health, with equal cell and temperature extremes. */
  lemma DefaultsNeverWritePower(frames: seq<CanFrame>, s: Status, totalCapacityWh: nat)
    ensures var s' := UpdateValues(HandleAll(Initial(), frames), s, totalCapacityWh);
      && s'.maxChargePowerW == s.maxChargePowerW && s'.maxDischargePowerW == s.maxDischargePowerW
      && s'.realSoc == 5000 && s'.sohPptt == 10000
      && s'.cellMinVoltageMv == s'.cellMaxVoltageMv && s'.temperatureMinDc == s'.temperatureMaxDc
      && s'.remainingCapacityWh * 2 <= totalCapacityWh
  {
    FramesChangeNothing(Initial(), frames);
  }

  /** An update is idempotent: it depends on the adapter and the previous
      power limits only, and rewrites the limits it wrote. */
  lemma UpdateIdempotent(a: Adapter, s: Status, totalCapacityWh: nat)
    ensures UpdateValues(a, UpdateValues(a, s, totalCapacityWh), totalCapacityWh) == UpdateValues(a, s, totalCapacityWh)
  {
  }
}

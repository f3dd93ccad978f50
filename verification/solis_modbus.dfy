/** The register-level logic of the Solis S6 Modbus TCP client: address
    translation, 16/32-bit register extraction, the storage (43110) and hybrid
    (43483) control-bit words, the read-modify-write bit toggles, the "use all
    solar" preset, and the integer fields `poll_solis` derives from the blocks
    it read. Every Modbus read and write is an input: a read is `None` when
    pymodbus reported an error or raised, a write is its success flag. */
module SolisModbus {
  import opened Base
  import opened Text

  const InputBase := 30001
  const HoldingBase := 40001
  const StorageControlReg := 43110
  const HybridControlReg := 43483

  /** `SOLIS_MODBUS_ZERO_BASED` read from the environment (absent reads as ""). */
  predicate ZeroBasedFromEnv(v: string)
  {
    Lower(Strip(v)) in {"1", "true", "yes"}
  }

  /** The zero-based switch accepts the usual flag words except "on". */
  lemma ZeroBasedWords(v: string)
    ensures ZeroBasedFromEnv(v) <==> IsFlagWord(v, TrueWords) && Lower(Strip(v)) != "on"
  {
    var w := Lower(Strip(v));
    assert "on" != "1" && "on" != "true" && "on" != "yes" by {
      assert "on"[0] == 'o';
    }
    assert ZeroBasedFromEnv(v) <==> w == "1" || w == "true" || w == "yes";
    assert IsFlagWord(v, TrueWords) <==> w == "1" || w == "true" || w == "yes" || w == "on";
  }

  /** An unset variable leaves register numbers as they are, and so does
      "on", although "on" is a flag word elsewhere. */
  lemma ZeroBasedLiterals()
    ensures !ZeroBasedFromEnv("") && !ZeroBasedFromEnv("on") && IsFlagWord("on", TrueWords)
  {
    NormalWord("on");
    assert Lower(Strip("")) == "";
  }

  /** The Modbus address sent for a Solis input register number. */
  function InputAddr(zeroBased: bool, reg: int): (a: int)
    ensures zeroBased ==> a + InputBase == reg
    ensures !zeroBased ==> a == reg
  {
    if zeroBased then reg - InputBase else reg
  }

  /** The Modbus address sent for a Solis holding register number. */
  function HoldingAddr(zeroBased: bool, reg: int): (a: int)
    ensures zeroBased ==> a + HoldingBase == reg
    ensures !zeroBased ==> a == reg
  {
    if zeroBased then reg - HoldingBase else reg
  }

  /** Distinct register numbers are sent as distinct addresses in either mode,
      and the zero-based control registers land at 3109 and 3482. */
  lemma AddressesInjective(zeroBased: bool, r1: int, r2: int)
    requires r1 != r2
    ensures InputAddr(zeroBased, r1) != InputAddr(zeroBased, r2)
    ensures HoldingAddr(zeroBased, r1) != HoldingAddr(zeroBased, r2)
    ensures HoldingAddr(true, StorageControlReg) == 3109 && HoldingAddr(true, HybridControlReg) == 3482
    ensures InputAddr(true, 33000) == 2999
  {
  }

  /** One input-register block read by `poll_solis`. */
  datatype Block = Block(start: nat, count: nat)

  /** The block table as written. The fourth block (33126, 24 registers) ends
      at 33149, one register short of the battery power pair 33149-33150. */
  const SourceBlocks: seq<Block> :=
    [Block(33000, 41), Block(33049, 36), Block(33091, 5), Block(33126, 24), Block(33161, 20)]

  /** The block table with the fourth block extended to 33150, so the
      battery power pair is read in full. */
  const Blocks: seq<Block> :=
    [Block(33000, 41), Block(33049, 36), Block(33091, 5), Block(33126, 25), Block(33161, 20)]

  /** `_reg`: register `offset` of a read, or `default` when the read failed,
      came back empty, or is too short. */
  function Reg(regs: Option<seq<u16>>, offset: nat, default: int): (r: int)
    ensures regs.Some? && offset < |regs.value| ==> r == regs.value[offset]
    ensures regs.None? || offset >= |regs.value| ==> r == default
  {
    if regs.None? || |regs.value| == 0 || offset >= |regs.value| then default else regs.value[offset]
  }

  /** `_reg_s32`: the unsigned 32-bit value of the big-endian register pair at
      `offset`, or 0 when the pair is not complete. */
  function RegS32(regs: Option<seq<u16>>, offset: nat): (r: nat)
    ensures r < 0x1_0000_0000
    ensures regs.Some? && offset + 1 < |regs.value| ==>
      r / 0x1_0000 == regs.value[offset] && r % 0x1_0000 == regs.value[offset + 1]
    ensures regs.None? || offset + 1 >= |regs.value| ==> r == 0
  {
    if regs.None? || |regs.value| == 0 || offset + 1 >= |regs.value| then 0
    else regs.value[offset] as int * 0x1_0000 + regs.value[offset + 1] as int % 0x1_0000
  }

  /** `_reg_s32_signed`: the two's-complement reading of `_reg_s32`. */
  function RegS32Signed(regs: Option<seq<u16>>, offset: nat): (r: int)
    ensures -0x8000_0000 <= r < 0x8000_0000
    ensures r % 0x1_0000_0000 == RegS32(regs, offset)
    ensures r >= 0 <==> RegS32(regs, offset) < 0x8000_0000
  {
    var u := RegS32(regs, offset);
    if u < 0x8000_0000 then u else u - 0x1_0000_0000
  }

  /** The two registers (high word first) that carry a signed 32-bit value. */
  function SplitS32(v: int): (r: seq<u16>)
    requires -0x8000_0000 <= v < 0x8000_0000
    ensures |r| == 2
  {
    var u := v % 0x1_0000_0000;
    [u / 0x1_0000, u % 0x1_0000]
  }

  /** Every signed 32-bit value survives being split into registers and read
      back, wherever the pair sits in the block. */
  lemma S32RoundTrip(v: int, before: seq<u16>, after: seq<u16>)
    requires -0x8000_0000 <= v < 0x8000_0000
    ensures RegS32Signed(Some(before + SplitS32(v) + after), |before|) == v
  {
    var regs := before + SplitS32(v) + after;
    var u := v % 0x1_0000_0000;
    assert regs[|before|] == u / 0x1_0000 && regs[|before| + 1] == u % 0x1_0000;
    assert RegS32(Some(regs), |before|) == u;
  }

  const StorageBitNames: seq<string> := [
    "self_use", "time_of_use", "off_grid", "battery_wakeup", "reserve_battery",
    "allow_grid_charge", "feed_in_priority", "batt_ovc", "forcecharge_peakshaving",
    "battery_current_correction", "battery_healing", "peak_shaving"]

  const HybridBitNames: seq<string> := [
    "dual_backup", "ac_coupling", "smart_load_forced", "allow_export",
    "backup2load_auto", "backup2load_manual", "smart_load_offgrid_stop", "grid_peakshaving"]

  /** Bit positions of the named flags used by the preset, the automation and the mode label. */
  const SelfUseBit := 0
  const TimeOfUseBit := 1
  const OffGridBit := 2
  const ReserveBatteryBit := 4
  const AllowGridChargeBit := 5
  const FeedInPriorityBit := 6
  const PeakShavingBit := 11
  const AllowExportBit := 3

  predicate Distinct(names: seq<string>)
  {
    forall i, j :: 0 <= i < j < |names| ==> names[i] != names[j]
  }

  /** `{names[i]: bool((val >> i) & 1) for i in range(len(names))}`. */
  function DecodeBits(names: seq<string>, val: nat): (m: map<string, bool>)
    ensures m.Keys == set i | 0 <= i < |names| :: names[i]
  {
    if |names| == 0 then map[]
    else
      var k := |names| - 1;
      var prev := DecodeBits(names[..k], val);
      assert forall i :: 0 <= i < k ==> names[..k][i] == names[i];
      prev[names[k] := Bit(val, k)]
  }

  /** With distinct names, flag `i` of the decoded map is bit `i` of the word. */
  lemma {:induction false} DecodeBitsCorrect(names: seq<string>, val: nat, i: nat)
    requires Distinct(names) && i < |names|
    ensures DecodeBits(names, val)[names[i]] == Bit(val, i)
  {
    var k := |names| - 1;
    if i < k {
      DecodeBitsCorrect(names[..k], val, i);
    }
  }

  /** Every name, flag off: the decode used when a control register could not be read. */
  function AllOff(names: seq<string>): (m: map<string, bool>)
    ensures m.Keys == set i | 0 <= i < |names| :: names[i]
    ensures forall n :: n in m ==> !m[n]
  {
    map n | n in names :: false
  }

  lemma NamesDistinct()
    ensures Distinct(StorageBitNames) && Distinct(HybridBitNames)
  {
  }

  /** `_decode_storage_bits`. */
  function DecodeStorageBits(val: u16): (m: map<string, bool>)
    ensures forall i :: 0 <= i < |StorageBitNames| ==> StorageBitNames[i] in m && m[StorageBitNames[i]] == Bit(val, i)
  {
    NamesDistinct();
    forall i | 0 <= i < |StorageBitNames| ensures DecodeBits(StorageBitNames, val)[StorageBitNames[i]] == Bit(val, i) {
      DecodeBitsCorrect(StorageBitNames, val, i);
    }
    DecodeBits(StorageBitNames, val)
  }

  /** `_decode_hybrid_bits`. */
  function DecodeHybridBits(val: u16): (m: map<string, bool>)
    ensures forall i :: 0 <= i < |HybridBitNames| ==> HybridBitNames[i] in m && m[HybridBitNames[i]] == Bit(val, i)
  {
    NamesDistinct();
    forall i | 0 <= i < |HybridBitNames| ensures DecodeBits(HybridBitNames, val)[HybridBitNames[i]] == Bit(val, i) {
      DecodeBitsCorrect(HybridBitNames, val, i);
    }
    DecodeBits(HybridBitNames, val)
  }

  /** `(val | (1 << k)) & 0xFFFF` or `(val & ~(1 << k)) & 0xFFFF`. */
  function UpdateBit(val: u16, k: nat, on: bool): (w: u16)
    ensures forall j :: 0 <= j < 16 ==> Bit(w, j) == (if j == k then on else Bit(val, j))
  {
    Pow2Of16();
    LowBound(WithBit(val, k, on), 16);
    forall j | 0 <= j < 16 ensures Bit(Low(WithBit(val, k, on), 16), j) == (if j == k then on else Bit(val, j)) {
      LowBits(WithBit(val, k, on), 16, j);
      WithBitBits(val, k, on, j);
    }
    Low(WithBit(val, k, on), 16)
  }

  /** Writing the same bit twice gives the word the first write gave. */
  lemma UpdateBitIdempotent(val: u16, k: nat, on: bool)
    ensures UpdateBit(UpdateBit(val, k, on), k, on) == UpdateBit(val, k, on)
  {
    var w := UpdateBit(val, k, on);
    Pow2Of16();
    LowOfSmall(val, 16);
    LowOfSmall(w, 16);
    if k < 16 {
      LowWithBit(val, k, on, 16);
      LowWithBit(w, k, on, 16);
      WithBitIdempotent(val, k, on);
    } else {
      LowIgnoresHighUpdate(val, k, on, 16);
      LowIgnoresHighUpdate(w, k, on, 16);
    }
  }

  /** What a read-modify-write of one control register did. */
  datatype WriteOutcome = WriteOutcome(ok: bool, written: Option<u16>)

  /** `set_storage_control_bit` / `set_hybrid_control_bit`. `read` is the
      holding-register read, `writeOk` the result of the write if it is issued.
      A negative `bitIndex` makes Python's shift raise, which the function
      reports as failure before writing anything. */
  function SetControlBit(connected: bool, read: Option<seq<u16>>, bitIndex: int, on: bool, writeOk: bool): (r: WriteOutcome)
    ensures r.written.Some? <==> connected && read.Some? && |read.value| > 0 && bitIndex >= 0
    ensures r.ok <==> r.written.Some? && writeOk
    ensures r.written.Some? ==>
      forall j :: 0 <= j < 16 ==> Bit(r.written.value, j) == (if j == bitIndex then on else Bit(read.value[0], j))
  {
    if !connected || read.None? || |read.value| == 0 || bitIndex < 0 then WriteOutcome(false, None)
    else WriteOutcome(writeOk, Some(UpdateBit(read.value[0], bitIndex, on)))
  }

  /** Toggling a bit to the value it already has (reading back what was
      written) writes the same word again. */
  lemma SetControlBitIdempotent(read: seq<u16>, bitIndex: nat, on: bool, ok1: bool, ok2: bool)
    requires |read| > 0
    ensures var first := SetControlBit(true, Some(read), bitIndex, on, ok1);
            SetControlBit(true, Some([first.written.value]), bitIndex, on, ok2).written == first.written
  {
    UpdateBitIdempotent(read[0], bitIndex, on);
  }

  /** What `apply_use_all_solar_preset` wrote and reported. */
  datatype PresetOutcome = PresetOutcome(ok: bool, storageWritten: Option<u16>, hybridWritten: Option<u16>)

  /** `apply_use_all_solar_preset`: self-use on and feed-in off in 43110, export
      off in 43483. A register that reads back empty is skipped without
      failing; both writes are attempted even after the first one fails. */
  function UseAllSolarPreset(connected: bool, storage: Option<seq<u16>>, storageOk: bool,
                             hybrid: Option<seq<u16>>, hybridOk: bool): (r: PresetOutcome)
    ensures r.storageWritten.Some? <==> connected && storage.Some? && |storage.value| > 0
    ensures r.hybridWritten.Some? <==> connected && hybrid.Some? && |hybrid.value| > 0
    ensures r.ok <==> connected && (r.storageWritten.Some? ==> storageOk) && (r.hybridWritten.Some? ==> hybridOk)
    ensures r.storageWritten.Some? ==>
      forall j :: 0 <= j < 16 ==> (Bit(r.storageWritten.value, j) ==
        (if j == SelfUseBit then true else if j == FeedInPriorityBit then false else Bit(storage.value[0], j)))
    ensures r.hybridWritten.Some? ==>
      forall j :: 0 <= j < 16 ==> (Bit(r.hybridWritten.value, j) ==
        (if j == AllowExportBit then false else Bit(hybrid.value[0], j)))
  {
    if !connected then PresetOutcome(false, None, None)
    else
      var sw := if storage.Some? && |storage.value| > 0
        then Some(UpdateBit(UpdateBit(storage.value[0], SelfUseBit, true), FeedInPriorityBit, false)) else None;
      var hw := if hybrid.Some? && |hybrid.value| > 0
        then Some(UpdateBit(hybrid.value[0], AllowExportBit, false)) else None;
      var ok1 := if sw.Some? then storageOk else true;
      var ok2 := if hw.Some? then hybridOk else true;
      PresetOutcome(ok1 && ok2, sw, hw)
  }

  /** The preset is a fixed point: applied again to the words it wrote, it
      writes the same words. */
  lemma PresetIdempotent(s: u16, h: u16, ok1: bool, ok2: bool, ok3: bool, ok4: bool)
    ensures var first := UseAllSolarPreset(true, Some([s]), ok1, Some([h]), ok2);
            var second := UseAllSolarPreset(true, Some([first.storageWritten.value]), ok3,
                                            Some([first.hybridWritten.value]), ok4);
            second.storageWritten == first.storageWritten && second.hybridWritten == first.hybridWritten
  {
    var first := UseAllSolarPreset(true, Some([s]), ok1, Some([h]), ok2);
    var second := UseAllSolarPreset(true, Some([first.storageWritten.value]), ok3,
                                    Some([first.hybridWritten.value]), ok4);
    Pow2Of16();
    BitsExtensional(second.storageWritten.value, first.storageWritten.value, 16);
    BitsExtensional(second.hybridWritten.value, first.hybridWritten.value, 16);
  }

  /** The successful reads of one poll, keyed by register number (`all_regs`). */
  function CollectReads(blocks: seq<Block>, results: seq<Option<seq<u16>>>,
                        storage: Option<seq<u16>>, hybrid: Option<seq<u16>>): (m: map<nat, seq<u16>>)
    requires |results| == |blocks|
    ensures storage.Some? ==> StorageControlReg in m && m[StorageControlReg] == storage.value
    ensures hybrid.Some? ==> HybridControlReg in m && m[HybridControlReg] == hybrid.value
    ensures |m| == 0 <==> storage.None? && hybrid.None? && forall i :: 0 <= i < |results| ==> results[i].None?
  {
    var m := CollectBlocks(blocks, results);
    var m1 := if storage.Some? then m[StorageControlReg := storage.value] else m;
    var m2 := if hybrid.Some? then m1[HybridControlReg := hybrid.value] else m1;
    assert storage.Some? ==> StorageControlReg in m1;
    assert m2.Keys >= m1.Keys >= m.Keys;
    m2
  }

  function CollectBlocks(blocks: seq<Block>, results: seq<Option<seq<u16>>>): (m: map<nat, seq<u16>>)
    requires |results| == |blocks|
    ensures |m| == 0 <==> forall i :: 0 <= i < |results| ==> results[i].None?
  {
    if |blocks| == 0 then map[]
    else
      var k := |blocks| - 1;
      var prev := CollectBlocks(blocks[..k], results[..k]);
      assert forall i :: 0 <= i < k ==> results[..k][i] == results[i];
      if results[k].Some? then
        var m := prev[blocks[k].start := results[k].value];
        assert blocks[k].start in m;
        m
      else prev
  }

  /** The integer part of the dictionary `poll_solis` returns. Optional fields
      are the keys that only appear when their block was read. */
  datatype PollResult = PollResult(
    ok: bool,
    gridPowerW: int,
    loadPowerW: int,
    pvPowerW: int,
    batteryPowerW: int,
    batterySocPct: int,
    meterPowerW: int,
    inverterState: int,
    storageControlRaw: int,
    hybridControlRaw: Option<int>,
    productModel: Option<int>,
    activePowerW: Option<int>,
    houseLoadW: Option<int>,
    batterySohPct: Option<int>,
    storageBits: Option<map<string, bool>>,
    hybridBits: Option<map<string, bool>>,
    rawBlocks: map<nat, seq<u16>>)

  /** The dictionary returned when the connection cannot be opened. */
  const Defaults := PollResult(false, 0, 0, 0, 0, 0, 0, 0, 0, None, None, None, None, None, None, None, map[])

  function Lookup(m: map<nat, seq<u16>>, a: nat): Option<seq<u16>>
  {
    if a in m then Some(m[a]) else None
  }

  /** `all_regs.get(a)` is truthy: present and non-empty. */
  predicate Present(m: map<nat, seq<u16>>, a: nat)
  {
    a in m && |m[a]| > 0
  }

  /** `b and len(b) >= n`. */
  predicate Long(m: map<nat, seq<u16>>, a: nat, n: nat)
  {
    a in m && |m[a]| >= n && |m[a]| > 0
  }

  /** The flags of a control register for the Control page: decoded when the
      register was read, all off otherwise. */
  function StorageBitsOf(regs: map<nat, seq<u16>>): (m: map<string, bool>)
    ensures forall i :: 0 <= i < |StorageBitNames| ==>
      StorageBitNames[i] in m && m[StorageBitNames[i]] == (Present(regs, StorageControlReg) && Bit(regs[StorageControlReg][0], i))
  {
    if Present(regs, StorageControlReg) then DecodeStorageBits(regs[StorageControlReg][0]) else AllOff(StorageBitNames)
  }

  function HybridBitsOf(regs: map<nat, seq<u16>>): (m: map<string, bool>)
    ensures forall i :: 0 <= i < |HybridBitNames| ==>
      HybridBitNames[i] in m && m[HybridBitNames[i]] == (Present(regs, HybridControlReg) && Bit(regs[HybridControlReg][0], i))
  {
    if Present(regs, HybridControlReg) then DecodeHybridBits(regs[HybridControlReg][0]) else AllOff(HybridBitNames)
  }

  /** The PV figure: the DC total, or the non-negative part of the AC active
      power when the DC total is 0. */
  function PvPower(dc: nat, active: Option<int>): (pv: nat)
    ensures dc != 0 ==> pv == dc
    ensures dc == 0 ==> pv == (if active.Some? then Max(0, active.value) else 0)
  {
    var ap := if active.Some? then active.value else 0;
    if dc == 0 && ap != 0 then Max(0, ap) else dc
  }

  /** The fields of block 33049 (DC and AC power), zero or absent unless
      the block holds at least 32 registers. */
  datatype PowerBlock = PowerBlock(dcPowerW: nat, activePowerW: Option<int>)

  function PowerFields(regs: map<nat, seq<u16>>): (f: PowerBlock)
    ensures Long(regs, 33049, 32) ==>
      f == PowerBlock(RegS32(Some(regs[33049]), 8), Some(RegS32Signed(Some(regs[33049]), 30)))
    ensures !Long(regs, 33049, 32) ==> f == PowerBlock(0, None)
  {
    if Long(regs, 33049, 32) then
      var b1 := Some(regs[33049]);
      PowerBlock(RegS32(b1, 8), Some(RegS32Signed(b1, 30)))
    else PowerBlock(0, None)
  }

  /** The fields of block 33126 (meter, battery, house load and the
      storage-control mirror), zero or absent unless it holds at least 24
      registers. */
  datatype MeterBlock = MeterBlock(meterW: int, socPct: int, sohPct: Option<int>,
                                   houseLoadW: Option<int>, batteryW: int, mirror: int)

  function MeterFields(regs: map<nat, seq<u16>>): (f: MeterBlock)
    ensures Long(regs, 33126, 24) ==>
      var b := regs[33126];
      f == MeterBlock(RegS32Signed(Some(b), 4), b[13], Some(b[14] as int), Some(b[21] as int),
                      RegS32Signed(Some(b), 23), b[6])
    ensures !Long(regs, 33126, 24) ==> f == MeterBlock(0, 0, None, None, 0, 0)
  {
    if Long(regs, 33126, 24) then
      var b3 := Some(regs[33126]);
      MeterBlock(RegS32Signed(b3, 4), Reg(b3, 13, 0), Some(Reg(b3, 14, 0)), Some(Reg(b3, 21, 0)),
                 RegS32Signed(b3, 23), Reg(b3, 6, 0))
    else MeterBlock(0, 0, None, None, 0, 0)
  }

  /** The fields `poll_solis` derives from the successful reads `regs`. */
  function PollSolis(connected: bool, regs: map<nat, seq<u16>>): (r: PollResult)
    ensures !connected ==> r == Defaults
    ensures connected ==> (r.ok <==> |regs| > 0) && r.rawBlocks == regs
    ensures connected ==> r.gridPowerW == r.meterPowerW
    ensures connected ==> r.loadPowerW == (if r.houseLoadW.Some? then r.houseLoadW.value else 0)
    ensures r.pvPowerW >= 0
    ensures connected ==> r.hybridControlRaw == Some(if Present(regs, HybridControlReg) then regs[HybridControlReg][0] as int else 0)
    ensures connected ==> r.storageBits == Some(StorageBitsOf(regs)) && r.hybridBits == Some(HybridBitsOf(regs))
  {
    if !connected then Defaults
    else
      var productModel := if Long(regs, 33000, 37) then Some(Reg(Lookup(regs, 33000), 0, 0)) else None;
      var p := PowerFields(regs);
      var inverterState := if Long(regs, 33091, 5) then Reg(Lookup(regs, 33091), 4, 0) else 0;
      var b := MeterFields(regs);
      var storageRaw := if Present(regs, StorageControlReg) then regs[StorageControlReg][0] else b.mirror;
      var hybridRaw := if Present(regs, HybridControlReg) then regs[HybridControlReg][0] else 0;
      PollResult(|regs| > 0, b.meterW, if b.houseLoadW.Some? then b.houseLoadW.value else 0,
                 PvPower(p.dcPowerW, p.activePowerW), b.batteryW, b.socPct, b.meterW,
                 inverterState, storageRaw, Some(hybridRaw), productModel, p.activePowerW, b.houseLoadW, b.sohPct,
                 Some(StorageBitsOf(regs)), Some(HybridBitsOf(regs)), regs)
  }

  /** The power figures of one poll: the AC active power from 33079-33080,
      and PV as the DC total from 33057-33058, or the non-negative part of the
      active power when the DC total is 0. */
  lemma PollPowerFields(regs: map<nat, seq<u16>>)
    requires Long(regs, 33049, 32)
    ensures var r := PollSolis(true, regs);
      && r.activePowerW == Some(RegS32Signed(Some(regs[33049]), 30))
      && (RegS32(Some(regs[33049]), 8) != 0 ==> r.pvPowerW == RegS32(Some(regs[33049]), 8))
      && (RegS32(Some(regs[33049]), 8) == 0 ==> r.pvPowerW == Max(0, r.activePowerW.value))
  {
  }

  /** The fields of one poll taken from block 33126: the signed meter power
      (33130-33131), the SOC (33139), the house load (33147) and the signed
      battery power (33149-33150). */
  lemma PollMeterFields(regs: map<nat, seq<u16>>)
    requires Long(regs, 33126, 24)
    ensures var r := PollSolis(true, regs);
      && r.meterPowerW == RegS32Signed(Some(regs[33126]), 4)
      && r.batterySocPct == regs[33126][13]
      && r.houseLoadW == Some(regs[33126][21] as int)
      && r.batteryPowerW == RegS32Signed(Some(regs[33126]), 23)
  {
  }

  /** `storage_control` prefers the holding register 43110 and falls back
      on its input-register mirror 33132 when 43110 was not read. */
  lemma PollStorageControl(regs: map<nat, seq<u16>>)
    ensures Present(regs, StorageControlReg) ==>
      PollSolis(true, regs).storageControlRaw == regs[StorageControlReg][0]
    ensures !Present(regs, StorageControlReg) && Long(regs, 33126, 24) ==>
      PollSolis(true, regs).storageControlRaw == regs[33126][6]
    ensures !Present(regs, StorageControlReg) && !Long(regs, 33126, 24) ==>
      PollSolis(true, regs).storageControlRaw == 0
  {
  }

  /** One poll end to end: the block reads (over the corrected table) and
      the two holding reads are collected, then the fields are derived. */
  function ReadAndPoll(connected: bool, results: seq<Option<seq<u16>>>,
                       storage: Option<seq<u16>>, hybrid: Option<seq<u16>>): (r: PollResult)
    requires |results| == |Blocks|
    ensures !connected ==> r == Defaults
    ensures connected ==>
      (r.ok <==> storage.Some? || hybrid.Some? || exists i :: 0 <= i < |results| && results[i].Some?)
    ensures connected && storage.Some? && |storage.value| > 0 ==> r.storageControlRaw == storage.value[0]
  {
    PollSolis(connected, CollectReads(Blocks, results, storage, hybrid))
  }

  /** As written, the battery power pair 33149-33150 is never complete: a
      successful read of the fourth block holds exactly 24 registers, so
      `_reg_s32(b3, 23)` sees no register 24 and the field is always 0. */
  lemma BatteryPowerLostAsWritten(regs: map<nat, seq<u16>>)
    requires 33126 in regs && |regs[33126]| == SourceBlocks[3].count
    ensures PollSolis(true, regs).batteryPowerW == 0
  {
  }

  /** With the fourth block read to 33150, the battery power is the signed
      32-bit value of registers 33149 (high) and 33150 (low). */
  lemma BatteryPowerReadWithFullBlock(regs: map<nat, seq<u16>>)
    requires Blocks[3].start == 33126
    requires 33126 in regs && |regs[33126]| == Blocks[3].count
    ensures PollSolis(true, regs).batteryPowerW % 0x1_0000_0000 ==
      regs[33126][23] as int * 0x1_0000 + regs[33126][24] as int
  {
  }
}

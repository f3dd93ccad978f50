/** The Solark inverter client on the second RS485 port: every 3 s it sends
    one Read Holding Registers request (slave 1, registers 167..191) and,
    when a response passes the frame checks, copies the registers into the
    Solark snapshot of the extended datalayer and derives the unit-scaled
    fields from fixed register offsets. */
module SolarkRs485 {
  import opened Base
  import opened ModbusRtu

  const SlaveId: byte := 1
  const StartRegister: u16 := 167
  const RegisterCount: u16 := 25
  const PollIntervalMs: nat := 3000
  /** Size of the receive buffer handed to the response reader. */
  const RxBufferSize: nat := 256

  /** The Solark part of the extended datalayer. `rawRegisters` is the fixed
      register array; its length is the array's capacity. */
  datatype Snapshot = Snapshot(
    available: bool,
    lastReadMillis: u32,
    rawRegisters: seq<u16>,
    rawRegisterCount: nat,
    gridPowerW: int,
    loadPowerW: int,
    batteryVoltageDv: int,
    batterySocPptt: int,
    pvPowerW: int,
    batteryPowerW: int,
    batteryCurrentDa: int)

  /** Client state: enabled means pins were configured and the UART is open. */
  datatype Client = Client(enabled: bool, lastPollMillis: u32, snapshot: Snapshot)

  /** The request the client sends on every poll. */
  function Request(): seq<byte>
  {
    ReadHoldingRequest(SlaveId, StartRegister, RegisterCount)
  }

  /** The running CRC after each byte of the request body. */
  lemma RequestCrcSteps()
    ensures CrcByte(0xFFFF, 0x01) == 0x807E
    ensures CrcByte(0x807E, 0x03) == 0x2140
    ensures CrcByte(0x2140, 0x00) == 0xF020
    ensures CrcByte(0xF020, 0xA7) == 0x62B0
    ensures CrcByte(0x62B0, 0x00) == 0xB463
    ensures CrcByte(0xB463, 0x19) == 0xE335
  {
  }

  /** The CRC of the request body 01 03 00 A7 00 19 is 0xE335. */
  lemma RequestCrc()
    ensures Crc16([0x01, 0x03, 0x00, 0xA7, 0x00, 0x19]) == 0xE335
  {
    RequestCrcSteps();
    var m0: seq<byte> := [];
    var m1 := m0 + [0x01];
    var m2 := m1 + [0x03];
    var m3 := m2 + [0x00];
    var m4 := m3 + [0xA7];
    var m5 := m4 + [0x00];
    var m6 := m5 + [0x19];
    Crc16Snoc(m0, 0x01);
    Crc16Snoc(m1, 0x03);
    Crc16Snoc(m2, 0x00);
    Crc16Snoc(m3, 0xA7);
    Crc16Snoc(m4, 0x00);
    Crc16Snoc(m5, 0x19);
    assert m6 == [0x01, 0x03, 0x00, 0xA7, 0x00, 0x19];
  }

  /** The request on the wire: 01 03 00 A7 00 19 and CRC 0xE335, low byte first. */
  lemma RequestBytes()
    ensures Request() == [0x01, 0x03, 0x00, 0xA7, 0x00, 0x19, 0x35, 0xE3]
  {
    var m: seq<byte> := [0x01, 0x03, 0x00, 0xA7, 0x00, 0x19];
    assert [SlaveId, ReadHoldingRegisters] + Word(StartRegister) + Word(RegisterCount) == m;
    RequestCrc();
  }

  /** The checks a response must pass before anything is stored: at least five
      bytes, slave 1, function 0x03, room for the declared byte count plus CRC,
      and a CRC that matches over the whole received length. */
  predicate Accepts(buf: seq<byte>)
  {
    && |buf| >= 5
    && buf[0] == SlaveId
    && buf[1] == ReadHoldingRegisters
    && |buf| >= 3 + buf[2] as int + 2
    && ValidCrc(buf)
  }

  /** Register `i` of a response, read big-endian from the data bytes. */
  function ResponseRegister(buf: seq<byte>, i: nat): u16
    requires 4 + 2 * i < |buf|
  {
    BigEndian(buf[3 + 2 * i], buf[4 + 2 * i])
  }

  /** The register array after a response: the first `n` registers come
      from the response, the rest keep their old values. */
  function StoreRegisters(prev: seq<u16>, buf: seq<byte>, n: nat): (regs: seq<u16>)
    requires n <= |prev| && 4 + 2 * n <= |buf| + 1
    ensures |regs| == |prev|
    ensures forall i :: 0 <= i < n ==> regs[i] == ResponseRegister(buf, i)
    ensures forall i :: n <= i < |prev| ==> regs[i] == prev[i]
  {
    seq(|prev|, i requires 0 <= i < |prev| => if i < n then ResponseRegister(buf, i) else prev[i])
  }

  /** `parse_and_update`: a rejected response changes nothing; an accepted one
      marks the snapshot available, stamps it, stores min(byte_count/2, capacity)
      registers, and rewrites each derived field only when enough registers
      arrived to contain its source register. */
  function ParseAndUpdate(s: Snapshot, buf: seq<byte>, now: u32): (t: Snapshot)
    ensures !Accepts(buf) ==> t == s
    ensures |t.rawRegisters| == |s.rawRegisters|
    ensures Accepts(buf) ==>
      var n := Min(buf[2] / 2, |s.rawRegisters|);
      && t.available && t.lastReadMillis == now
      && t.rawRegisterCount == n && n <= |s.rawRegisters| && 4 + 2 * n <= |buf| + 1
      && (forall i :: 0 <= i < n ==> t.rawRegisters[i] == ResponseRegister(buf, i))
      && (forall i :: n <= i < |s.rawRegisters| ==> t.rawRegisters[i] == s.rawRegisters[i])
      && t.gridPowerW == (if n >= 3 then AsInt16(ResponseRegister(buf, 2)) else s.gridPowerW)
      && t.loadPowerW == (if n >= 12 then AsInt16(ResponseRegister(buf, 11)) else s.loadPowerW)
      && t.batteryVoltageDv == (if n >= 18 then ResponseRegister(buf, 16) / 10 else s.batteryVoltageDv)
      && t.batterySocPptt == (if n < 18 then s.batterySocPptt
                              else if ResponseRegister(buf, 17) <= 100 then ResponseRegister(buf, 17) * 100
                              else ResponseRegister(buf, 17))
      && t.pvPowerW == (if n >= 21 then ResponseRegister(buf, 19) + ResponseRegister(buf, 20) else s.pvPowerW)
      && t.batteryPowerW == (if n >= 25 then AsInt16(ResponseRegister(buf, 23)) else s.batteryPowerW)
      && t.batteryCurrentDa == (if n >= 25 then TruncDiv(AsInt16(ResponseRegister(buf, 24)), 10) else s.batteryCurrentDa)
  {
    if !Accepts(buf) then s
    else
      var n := Min(buf[2] / 2, |s.rawRegisters|);
      var regs := StoreRegisters(s.rawRegisters, buf, n);
      s.(available := true,
         lastReadMillis := now,
         rawRegisters := regs,
         rawRegisterCount := n,
         gridPowerW := if n >= 3 then AsInt16(regs[2]) else s.gridPowerW,
         loadPowerW := if n >= 12 then AsInt16(regs[11]) else s.loadPowerW,
         batteryVoltageDv := if n >= 18 then regs[16] / 10 else s.batteryVoltageDv,
         batterySocPptt := if n < 18 then s.batterySocPptt else if regs[17] <= 100 then regs[17] * 100 else regs[17],
         pvPowerW := if n >= 21 then regs[19] + regs[20] else s.pvPowerW,
         batteryPowerW := if n >= 25 then AsInt16(regs[23]) else s.batteryPowerW,
         batteryCurrentDa := if n >= 25 then TruncDiv(AsInt16(regs[24]), 10) else s.batteryCurrentDa)
  }

  /** Snapshot fields stay within the widths of the datalayer fields they model
      (int32 powers, uint16 voltage and SOC, int16 current). */
  predicate FieldsInRange(s: Snapshot)
  {
    && -0x8000_0000 <= s.gridPowerW < 0x8000_0000
    && -0x8000_0000 <= s.loadPowerW < 0x8000_0000
    && 0 <= s.batteryVoltageDv < 0x1_0000
    && 0 <= s.batterySocPptt < 0x1_0000
    && -0x8000_0000 <= s.pvPowerW < 0x8000_0000
    && -0x8000_0000 <= s.batteryPowerW < 0x8000_0000
    && -0x8000 <= s.batteryCurrentDa < 0x8000
  }

  /** No derived field can leave its width: in particular PV1 + PV2 never
      overflows int32, `x * 100` for a percentage never overflows uint16, and
      the current divided by 10 still fits int16. */
  lemma ParsePreservesRanges(s: Snapshot, buf: seq<byte>, now: u32)
    requires FieldsInRange(s)
    ensures FieldsInRange(ParseAndUpdate(s, buf, now))
  {
  }

  /** Every well-formed response from slave 1 is accepted, and its registers
      land in the snapshot in order, as many as fit. */
  lemma ResponseRoundTrip(s: Snapshot, regs: seq<u16>, now: u32)
    requires |regs| <= 127
    ensures Accepts(ReadHoldingResponse(SlaveId, regs))
    ensures
      var t := ParseAndUpdate(s, ReadHoldingResponse(SlaveId, regs), now);
      var n := Min(|regs|, |s.rawRegisters|);
      t.rawRegisterCount == n && t.rawRegisters[..n] == regs[..n] && t.available
  {
    var buf := ReadHoldingResponse(SlaveId, regs);
    var t := ParseAndUpdate(s, buf, now);
    var n := Min(|regs|, |s.rawRegisters|);
    assert buf[2] / 2 == |regs|;
    forall i | 0 <= i < n
      ensures t.rawRegisters[i] == regs[i]
    {
      assert t.rawRegisters[i] == ResponseRegister(buf, i);
    }
  }

  /** A full 25-register answer, decoded into a snapshot that can hold it,
      fills every derived field from the register at its documented offset. */
  lemma FullResponseFields(s: Snapshot, regs: seq<u16>, now: u32)
    requires |regs| == 25 && |s.rawRegisters| >= 25
    ensures
      var t := ParseAndUpdate(s, ReadHoldingResponse(SlaveId, regs), now);
      && t.gridPowerW == AsInt16(regs[2])
      && t.loadPowerW == AsInt16(regs[11])
      && t.batteryVoltageDv == regs[16] / 10
      && t.batterySocPptt == (if regs[17] <= 100 then regs[17] * 100 else regs[17])
      && t.pvPowerW == regs[19] as int + regs[20] as int
      && t.batteryPowerW == AsInt16(regs[23])
      && t.batteryCurrentDa == TruncDiv(AsInt16(regs[24]), 10)
  {
    var buf := ReadHoldingResponse(SlaveId, regs);
    assert buf[2] / 2 == 25;
    assert forall i :: 0 <= i < 25 ==> ResponseRegister(buf, i) == regs[i];
  }

  /** A response whose trailing CRC byte was corrupted is dropped, and the
      previous snapshot, including `available` and the timestamp, is kept. */
  lemma CorruptedResponseKeepsSnapshot(s: Snapshot, buf: seq<byte>, b: byte, now: u32)
    requires Accepts(buf) && b != buf[|buf| - 1]
    ensures ParseAndUpdate(s, buf[|buf| - 1 := b], now) == s
  {
    CorruptedCrcRejected(buf, |buf| - 1, b);
  }

  /** A response from any slave other than 1 is dropped. */
  lemma ForeignSlaveIgnored(s: Snapshot, regs: seq<u16>, slave: byte, now: u32)
    requires |regs| <= 127 && slave != SlaveId
    ensures ParseAndUpdate(s, ReadHoldingResponse(slave, regs), now) == s
  {
  }

  /** `read_response`: the bytes that arrived before the timeout, cut at the buffer size. */
  function ReadResponse(arrived: seq<byte>, maxLen: nat): (r: seq<byte>)
    ensures |r| <= maxLen && |r| <= |arrived|
    ensures r == arrived[..|r|]
    ensures |arrived| <= maxLen ==> r == arrived
  {
    if |arrived| <= maxLen then arrived else arrived[..maxLen]
  }

  /** `now - last` on a 32-bit `unsigned long` millisecond clock. */
  function Elapsed(now: u32, last: u32): (e: u32)
    ensures now >= last ==> e == now - last
    ensures now < last ==> e == now + 0x1_0000_0000 - last
  {
    (now - last) % 0x1_0000_0000
  }

  datatype PollOutcome = PollOutcome(client: Client, sent: seq<byte>)

  /** `solark_rs485_poll` at time `now`: gated by the enable flag and the 3 s
      interval; when it fires it records the poll time, sends the request, reads
      what `arrived` (cut to the receive buffer) and parses it if non-empty,
      stamping an accepted response with `readDone`. */
  function Poll(c: Client, now: u32, arrived: seq<byte>, readDone: u32): (r: PollOutcome)
    ensures !c.enabled || Elapsed(now, c.lastPollMillis) < PollIntervalMs ==> r == PollOutcome(c, [])
    ensures c.enabled && Elapsed(now, c.lastPollMillis) >= PollIntervalMs ==>
      && r.sent == Request()
      && r.client.lastPollMillis == now
      && r.client.enabled
      && var rx := ReadResponse(arrived, RxBufferSize);
      && r.client.snapshot == (if |rx| > 0 then ParseAndUpdate(c.snapshot, rx, readDone) else c.snapshot)
  {
    if !c.enabled || Elapsed(now, c.lastPollMillis) < PollIntervalMs then PollOutcome(c, [])
    else
      var rx := ReadResponse(arrived, RxBufferSize);
      var snap := if |rx| > 0 then ParseAndUpdate(c.snapshot, rx, readDone) else c.snapshot;
      PollOutcome(c.(lastPollMillis := now, snapshot := snap), Request())
  }

  /** Two requests sent by successive polls are at least 3 s apart on the
      wrapping clock: a poll that fired at `t1` blocks every poll before `t1 + 3000`. */
  lemma PollsAreSpaced(c: Client, t1: u32, a1: seq<byte>, d1: u32, t2: u32, a2: seq<byte>, d2: u32)
    requires Poll(c, t1, a1, d1).sent != []
    requires Poll(Poll(c, t1, a1, d1).client, t2, a2, d2).sent != []
    ensures Elapsed(t2, t1) >= PollIntervalMs
  {
  }

  /** The clock wrapping does not stall polling: a poll shortly after the
      32-bit millisecond counter overflows still fires once 3 s have passed. */
  lemma PollAcrossWrap(c: Client, now: u32, arrived: seq<byte>, readDone: u32)
    requires c.enabled && c.lastPollMillis == 0xFFFF_F000 && now == 0x0000_0200
    ensures Poll(c, now, arrived, readDone).sent == Request()
  {
  }

  /** Silence from the inverter never clears `available` or the last values:
      a poll that receives nothing only records the poll time. */
  lemma SilenceKeepsSnapshot(c: Client, now: u32, readDone: u32)
    ensures Poll(c, now, [], readDone).client.snapshot == c.snapshot
  {
  }
}

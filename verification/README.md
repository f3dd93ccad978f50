# Battery-Emulator Solark/Solis integration — a Dafny model

This project models the pure logic of the Solark/Solis additions to the
Battery-Emulator firmware and of the companion Solis S6 web app:

- the Solark Modbus RTU client on the second RS485 port: the Read Holding
  Registers request (slave 1, registers 167–191), the response checks and
  register decoding into the Solark snapshot, and the 3 s poll gate on a
  wrapping millisecond clock;
- the Solark web endpoints: the sensor lookup by id, and the register list
  and return code of the JSON snapshot;
- the Solis Modbus helpers: register addressing, 16/32-bit register
  extraction, the decoding of the control-bit registers 43110 and 43483, the
  read-modify-write of one control bit, the "use all solar" preset, and the
  integer fields of `poll_solis`;
- the dashboard logic: merging cached flags, the storage mode label, the
  SOC hysteresis automation with its 300 s cooldown, and the validation of
  the toggle forms and APIs;
- settings: the environment → `settings.json` → default lookups and the
  `.env` loader;
- the bounded debug ring (300 entries);
- the Ruixu CAN battery adapter, whose protocol is not filled in yet;
- the pure helpers of the touch display: event log, brightness PWM, backup
  battery voltage, the contactor/precharge outputs, and the cell delta.

CRC-16 and the Modbus frame layout follow section 6.2.2 of "Modbus over Serial
Line V1.02" and section 6.3 of the "Modbus Application Protocol Specification
V1.1b3". Every file is one module: `Base` (integer widths, Option/Result,
bit arithmetic on naturals), `Text` (Python-like strip/lower/`int()`/`str()`),
`ModbusRtu`, `SolarkRs485`, `SolarkHtml`, `SolisModbus`, `Dashboard`,
`Config`, `DebugRing`, `RuixuBattery`, `Display`.

Three behaviours of the Solark client that the model keeps as written:

- The Solark snapshot never goes stale. `available` is set on every
  accepted response (solark_rs485.cpp:155) and nothing clears it; silence
  on the bus keeps the last values (`SolarkRs485.SilenceKeepsSnapshot`).
- The snapshot is updated field by field. Each field is rewritten only when
  enough registers arrived for it (solark_rs485.cpp:168-185), so a short
  response leaves the later fields as they were.
- The CRC is checked over the whole received length (solark_rs485.cpp:151),
  not only over the frame the byte count declares. Trailing bytes after a
  valid frame therefore make it fail.

## Model

| member | source | states |
|---|---|---|
| ModbusRtu.Crc16Snoc | Software/src/communication/solark_rs485/solark_rs485.cpp:118 | the CRC of a message extended by one byte is that byte folded into the message's CRC |
| ModbusRtu.AppendCrc | Software/src/communication/solark_rs485/solark_rs485.cpp:118 | appending the CRC keeps the message as a prefix and yields a frame whose trailing two bytes are its CRC, low byte first |
| ModbusRtu.CorruptedCrcRejected | Software/src/communication/solark_rs485/solark_rs485.cpp:151 | changing either CRC byte of a valid frame makes the CRC check fail |
| ModbusRtu.Word | Software/src/communication/solark_rs485/solark_rs485.cpp:115-117 | a 16-bit value is sent as two bytes, high first, that read back as the value |
| ModbusRtu.ReadHoldingRequest | Software/src/communication/solark_rs485/solark_rs485.cpp:115-118 | the request is 8 bytes: slave, 0x03, start and count big-endian, then a valid CRC |
| ModbusRtu.RegisterBytes | Software/src/communication/solark_rs485/solark_rs485.cpp:163-165 | register values laid out as big-endian byte pairs that decode back to each register |
| ModbusRtu.ReadHoldingResponse | Software/src/communication/solark_rs485/solark_rs485.cpp:144-151 | a well-formed response: slave, 0x03, byte count 2n, n big-endian registers, a valid CRC |
| SolarkRs485.RequestCrc | Software/src/communication/solark_rs485/solark_rs485.cpp:114-118 | the CRC of the request body 01 03 00 A7 00 19 is 0xE335 |
| SolarkRs485.RequestBytes | Software/src/communication/solark_rs485/solark_rs485.cpp:26-37 | the poll request is exactly 01 03 00 A7 00 19 35 E3 (slave 1, start 167, count 25, CRC 0xE335 low byte first) |
| SolarkRs485.StoreRegisters | Software/src/communication/solark_rs485/solark_rs485.cpp:158-165 | the first n registers come from the response big-endian, the rest keep their values |
| SolarkRs485.ParseAndUpdate | Software/src/communication/solark_rs485/solark_rs485.cpp:145-186 | a response failing any check (length < 5, slave, function, declared length, CRC) leaves the snapshot unchanged; an accepted one sets available and the timestamp, stores min(byte_count/2, capacity) registers big-endian and leaves the rest, and rewrites each field only when its register arrived (thresholds 3, 12, 18, 21, 25), with int16 powers, voltage/10, SOC ×100 for a percentage, PV1+PV2, and the current truncated toward zero |
| SolarkRs485.ParsePreservesRanges | Software/src/communication/solark_rs485/solark_rs485.cpp:168-185 | no derived field leaves the width of its datalayer field: PV1+PV2 fits int32, SOC×100 fits uint16, current/10 fits int16 |
| SolarkRs485.ResponseRoundTrip | Software/src/communication/solark_rs485/solark_rs485.cpp:146-165 | every well-formed response from slave 1 is accepted, and its registers land in the snapshot in order, as many as the array holds |
| SolarkRs485.FullResponseFields | Software/src/communication/solark_rs485/solark_rs485.cpp:168-185 | a 25-register response fills every derived field from its documented register offset |
| SolarkRs485.CorruptedResponseKeepsSnapshot | Software/src/communication/solark_rs485/solark_rs485.cpp:151 | a response with a corrupted CRC byte leaves the whole snapshot unchanged, including `available` and the timestamp |
| SolarkRs485.ForeignSlaveIgnored | Software/src/communication/solark_rs485/solark_rs485.cpp:147 | a response from any other slave changes nothing |
| SolarkRs485.ReadResponse | Software/src/communication/solark_rs485/solark_rs485.cpp:131-142 | the reader returns a prefix of the arrived bytes, never more than the buffer size |
| SolarkRs485.Elapsed | Software/src/communication/solark_rs485/solark_rs485.cpp:191 | `now - last` on the 32-bit clock: the plain difference, or the difference across the wrap |
| SolarkRs485.Poll | Software/src/communication/solark_rs485/solark_rs485.cpp:188-202 | a disabled client, or one polled less than 3000 ms ago, does nothing; otherwise the poll time is recorded, the request sent, and a non-empty reply (cut to 256 bytes) parsed |
| SolarkRs485.PollsAreSpaced | Software/src/communication/solark_rs485/solark_rs485.cpp:189-192 | two successive polls that both send are at least 3000 ms apart on the wrapping clock |
| SolarkRs485.PollAcrossWrap | Software/src/communication/solark_rs485/solark_rs485.cpp:191 | example: a poll just after the 32-bit millisecond wrap still sends (the general spacing is `PollsAreSpaced`) |
| SolarkRs485.SilenceKeepsSnapshot | Software/src/communication/solark_rs485/solark_rs485.cpp:199-201 | a poll that receives nothing leaves the snapshot as it was |
| SolarkHtml.SensorStateById | Software/src/devboard/webserver/solark_html.cpp:107-155 | a state is returned exactly when the output argument is present and the id is one of the thirteen known ids |
| SolarkHtml.AliasesAgree | Software/src/devboard/webserver/solark_html.cpp:123-135 | battery_power and total_battery_power answer alike, as do total_solar_power and pv_power |
| SolarkHtml.WattsReadBack | Software/src/devboard/webserver/solark_html.cpp:123-138 | a watt text, the integer followed by " W", reads back as exactly the integer it was printed from |
| SolarkHtml.PowerReadingsExact | Software/src/devboard/webserver/solark_html.cpp:107-155 | for every known id: the ten power ids (battery and its alias, grid, load, PV and its alias, PV1, PV2, the two slave strings) answer a watt text that reads back as the snapshot value the id reports, and only they do; SOC, voltage and current answer a scaled reading |
| SolarkHtml.PvChannels | Software/src/devboard/webserver/solark_html.cpp:139-153 | PV1 and PV2 show registers 19 and 20 once more than 20 registers arrived, else 0 W; the slave PV ids always show "0 W" |
| SolarkHtml.RawRegistersJson | Software/src/devboard/webserver/solark_html.cpp:99-102 | the JSON register list holds min(count, capacity) entries, equal to the stored registers in order |
| SolarkHtml.DataJsonResult | Software/src/devboard/webserver/solark_html.cpp:103-104 | the return code is the serialized length when it fits the buffer, and -1 otherwise |
| SolarkHtml.JsonShowsReceivedRegisters | Software/src/devboard/webserver/solark_html.cpp:99-102 | after a response carrying some registers is accepted, the JSON list is exactly those registers, as many as fit |
| SolisModbus.ZeroBasedWords | scripts/solis_s6_app/solis_modbus.py:54 | the zero-based switch holds exactly for the flag words other than "on", after strip and lower |
| SolisModbus.ZeroBasedLiterals | scripts/solis_s6_app/solis_modbus.py:54 | an unset variable ("") and "on" both leave zero-based mode off, although "on" is a flag word elsewhere |
| SolisModbus.InputAddr | scripts/solis_s6_app/solis_modbus.py:69-70 | in zero-based mode the address is the register number minus 30001; otherwise it is the number itself |
| SolisModbus.HoldingAddr | scripts/solis_s6_app/solis_modbus.py:73-74 | in zero-based mode the address is the register number minus 40001; otherwise it is the number itself |
| SolisModbus.AddressesInjective | scripts/solis_s6_app/solis_modbus.py:69-74 | examples: distinct register numbers give distinct addresses in either mode; 43110 and 43483 go to 3109 and 3482 in zero-based mode |
| SolisModbus.Reg | scripts/solis_s6_app/solis_modbus.py:137-140 | the register at the offset when the read has one, else the default |
| SolisModbus.RegS32 | scripts/solis_s6_app/solis_modbus.py:143-147 | hi·65536 + lo of the pair at the offset, and 0 when the pair is incomplete; always below 2^32 |
| SolisModbus.RegS32Signed | scripts/solis_s6_app/solis_modbus.py:150-153 | lies in [-2^31, 2^31), and is congruent to the unsigned value modulo 2^32 (the two's-complement reading) |
| SolisModbus.S32RoundTrip | scripts/solis_s6_app/solis_modbus.py:143-153 | every signed 32-bit value split into two registers reads back unchanged, wherever the pair sits |
| SolisModbus.DecodeBitsCorrect | scripts/solis_s6_app/solis_modbus.py:163-168 | with distinct names, the flag named i is bit i of the word |
| SolisModbus.DecodeStorageBits | scripts/solis_s6_app/solis_modbus.py:156-164 | each of the twelve storage flags is the matching bit of 43110 |
| SolisModbus.DecodeHybridBits | scripts/solis_s6_app/solis_modbus.py:338-341 | each of the eight hybrid flags is the matching bit of 43483 |
| SolisModbus.UpdateBit | scripts/solis_s6_app/solis_modbus.py:324-329 | setting or clearing one bit, masked to 16 bits: that bit takes the new value, every other bit is unchanged |
| SolisModbus.UpdateBitIdempotent | scripts/solis_s6_app/solis_modbus.py:324-329 | repeating the same bit update changes nothing more |
| SolisModbus.SetControlBit | scripts/solis_s6_app/solis_modbus.py:314-334 | a write happens exactly when connected, the register was read and the index is non-negative; success is that write succeeding; the written word is the read word with the one bit updated |
| SolisModbus.SetControlBitIdempotent | scripts/solis_s6_app/solis_modbus.py:360-380 | toggling again on the word that was written writes the same word |
| SolisModbus.UseAllSolarPreset | scripts/solis_s6_app/solis_modbus.py:383-410 | self-use on and feed-in off in 43110, allow-export off in 43483, every other bit preserved; each register written only when read; the result is false when a write fails or no connection |
| SolisModbus.PresetIdempotent | scripts/solis_s6_app/solis_modbus.py:394-405 | applying the preset to the words it wrote writes the same words again |
| SolisModbus.CollectReads | scripts/solis_s6_app/solis_modbus.py:198-209 | the read map holds 43110 and 43483 when they were read, and is empty exactly when no read succeeded |
| SolisModbus.PollSolis | scripts/solis_s6_app/solis_modbus.py:171-290 | without a connection the defaults; otherwise ok iff some block was read, grid = meter power, load = house load, PV never negative, hybrid_control from 43483 or 0, and the decoded flags cached for the Control page |
| SolisModbus.PollPowerFields | scripts/solis_s6_app/solis_modbus.py:221-274 | with block 33049 read, the active power is the signed pair at offset 30, and PV is the DC total at offset 8, or max(0, active power) when that total is 0 |
| SolisModbus.PollMeterFields | scripts/solis_s6_app/solis_modbus.py:240-248 | with block 33126 read, meter power is the signed pair at offset 4, SOC offset 13, house load offset 21, battery power the signed pair at offset 23 |
| SolisModbus.PollStorageControl | scripts/solis_s6_app/solis_modbus.py:249-253 | storage_control is 43110's word when it was read, else the 33132 mirror from block 33126, else 0 |
| SolisModbus.ReadAndPoll | scripts/solis_s6_app/solis_modbus.py:198-212 | one poll over the block table: ok exactly when at least one read succeeded, and 43110's word wins for storage_control |
| SolisModbus.BatteryPowerLostAsWritten | scripts/solis_s6_app/solis_modbus.py:62 | with the block table as written, the battery power is always 0 |
| SolisModbus.BatteryPowerReadWithFullBlock | scripts/solis_s6_app/solis_modbus.py:248 | with the fourth block read to 33150, the battery power is the signed 32-bit value of 33149 (high) and 33150 (low) |
| Dashboard.MergeBits | scripts/solis_s6_app/main.py:388-395 | exactly the default keys, each taking the cached value when present and the default otherwise |
| Dashboard.MergedFlagsFollowRegister | scripts/solis_s6_app/main.py:388-395 | after a poll, merged storage flag i is bit i of 43110 when it was read, and off otherwise |
| Dashboard.FirstOnChain | scripts/solis_s6_app/main.py:403-414 | the primary mode is the first set flag in the order off-grid, feed-in, self-use, time-of-use, reserve battery, else "Unknown" |
| Dashboard.StorageModeLabel | scripts/solis_s6_app/main.py:398-423 | "—" exactly for no flags; otherwise the primary mode, then " + grid charge" only for a known mode, and "peak-shaving" whenever its flag is set |
| Dashboard.LabelOfRegister | scripts/solis_s6_app/main.py:403-408 | example: with feed-in and self-use set and off-grid clear, the mode is "Feed-in" |
| Dashboard.WritePair | scripts/solis_s6_app/main.py:262-277 | the second write is issued exactly when the first succeeded |
| Dashboard.Automation | scripts/solis_s6_app/main.py:244-279 | does nothing when disabled, Modbus unavailable, threshold ≤ 0, within 300 s of the last switch, or SOC missing; the state changes only when both writes succeed, and then the switch time is now |
| Dashboard.EntersSelfUseExactly | scripts/solis_s6_app/main.py:262-267 | entering self-use happens exactly when the gate is open, SOC ≥ threshold·100, feed-in is set or self-use is clear, and both writes succeed |
| Dashboard.LeavesSelfUseExactly | scripts/solis_s6_app/main.py:271-277 | leaving self-use happens exactly when the gate is open, the entry condition fails, SOC < below·100, self-use is set, and both writes succeed |
| Dashboard.SwitchesAreSpaced | scripts/solis_s6_app/main.py:244-279 | consecutive completed switches of a run are at least 300 s apart |
| Dashboard.AllSwitchesSpaced | scripts/solis_s6_app/main.py:244-279 | any two completed switches are at least 300 s apart per switch between them |
| Dashboard.FormToggle | scripts/solis_s6_app/main.py:462-483 | missing bit and invalid bit are reported; a write happens exactly for an index Python's `int()` reads (ASCII digits, optionally signed, single underscores between digits) in range of the chosen register, "on" being true for an absent or empty field or a flag word |
| Dashboard.Redirect | scripts/solis_s6_app/main.py:808-836 | the browser goes back to the page it posted from, with "?saved=1" exactly when a write was issued and succeeded; a missing bit index reloads `/control` plainly but is an error on `/` (main.py:465-487) |
| Dashboard.ApiToggle | scripts/solis_s6_app/main.py:716-785 | a non-JSON body gives 400 "Invalid JSON"; a result is returned exactly for an index `int()` accepts (a bool, an integer, a float truncated toward zero, or a string as in `FormToggle`) in 0..11 (storage) or 0..7 (hybrid), with `on` from the flag words |
| Dashboard.UnderscoredIndexAccepted | scripts/solis_s6_app/main.py:466-469 | an index with an underscore between its digits ("1_1") decides exactly as the joined digits ("11"), never as an invalid bit |
| Dashboard.FloatIndexTruncated | scripts/solis_s6_app/main.py:738-745 | a JSON float index above -1 and below the register's bit count is accepted as its truncation toward zero (3.7 is bit 3, -0.5 is bit 0) |
| Dashboard.FloatOneMeansOff | scripts/solis_s6_app/main.py:720-747 | a JSON `on` of 1.0 is printed "1.0", which is no flag word, so the bit is switched off |
| Dashboard.EmptyOnInForm | scripts/solis_s6_app/main.py:463 | an empty `on` field means on in the dashboard forms |
| Dashboard.EmptyOnInApiForm | scripts/solis_s6_app/main.py:732-747 | an empty `on` field means off in the API's form body |
| Dashboard.JsonOnValues | scripts/solis_s6_app/main.py:720-747 | a JSON bool is taken as is, an integer means on exactly when it is 1, a missing or null value means on |
| Dashboard.ToggleStaysInRegister | scripts/solis_s6_app/main.py:474-483 | a valid toggle addresses a bit the register has, and the write changes only that bit |
| Config.Convert | scripts/solis_s6_app/config.py:55-63 | a string default gives the stripped text; an integer default gives the integer or a conversion error |
| Text.UnderscoreBetweenDigits | scripts/solis_s6_app/main.py:468 | `int()` reads digits with one underscore between two runs as the runs joined |
| Text.DoubledUnderscoreRejected | scripts/solis_s6_app/main.py:468 | two underscores in a row make the text no integer |
| Text.TruncReal | scripts/solis_s6_app/main.py:740 | `int()` of a float truncates toward zero: the result is within one of the float, on the side of zero |
| Config.Get | scripts/solis_s6_app/config.py:55-63 | the environment value when it is not blank, else the settings value when it is neither null nor blank, else the default |
| Config.BlankEnvFallsThrough | scripts/solis_s6_app/config.py:58 | a blank environment value behaves as if the variable were unset |
| Config.GetBool | scripts/solis_s6_app/config.py:66-76 | a non-blank environment value is a flag word; any non-null settings value decides (a bool as is); only a missing or null one leaves the default |
| Config.BlankSettingDiffers | scripts/solis_s6_app/config.py:55-76 | an empty settings string gives the default in `_get` and false in `_get_bool` |
| Config.IntSettingRoundTrip | scripts/solis_s6_app/config.py:55-76 | an integer setting reads back through `_get`, and reads as true exactly when it is 1 |
| Config.IndexOf | scripts/solis_s6_app/config.py:48 | the first occurrence of the character, or none exactly when it is absent |
| Config.ParseEnvLine | scripts/solis_s6_app/config.py:46-49 | a line yields a pair exactly when its stripped text is non-empty, not a comment and has an '='; the key never holds '=' |
| Config.EnvLineRoundTrip | scripts/solis_s6_app/config.py:46-49 | a `KEY=value` line with a clean key and value parses back to that pair |
| Config.LoadLine | scripts/solis_s6_app/config.py:45-51 | one line never removes or overwrites a variable already set |
| Config.LoadEnv | scripts/solis_s6_app/config.py:43-51 | loading never removes or overwrites a variable already set |
| Config.FirstDefinitionWins | scripts/solis_s6_app/config.py:50-51 | the first line that sets a key decides its value |
| Config.LoadSettings | scripts/solis_s6_app/config.py:129-131 | the file's object, or an empty map when it is missing or unreadable |
| Config.SaveThenLoad | scripts/solis_s6_app/config.py:129-140 | after saving a map, lookups see the saved values (the file abstraction returns the saved map by construction; the content is the `Get` lookup on it) |
| DebugRing.Stored | scripts/solis_s6_app/debug_ring.py:21 | level and message cut to 10 and 2000 characters as prefixes |
| DebugRing.Add | scripts/solis_s6_app/debug_ring.py:18-21 | the length grows by one up to 300; the new entry is last; on a full ring the oldest is dropped and the rest keep their order |
| DebugRing.GetLines | scripts/solis_s6_app/debug_ring.py:26-29 | the entries in insertion order, with the ring unchanged |
| DebugRing.Clear | scripts/solis_s6_app/debug_ring.py:34-37 | the ring is empty |
| DebugRing.RingIsHistoryTail | scripts/solis_s6_app/debug_ring.py:12-21 | after any run of adds the ring holds the last 300 stored entries of its history, oldest first |
| DebugRing.ClearThenAdd | scripts/solis_s6_app/debug_ring.py:26-37 | after clear, up to 300 adds are reported back exactly, in order |
| DebugRing.FullRingDropsOldest | scripts/solis_s6_app/debug_ring.py:18-21 | on a full ring the length stays 300, the new entry is last and the second-oldest becomes the oldest |
| RuixuBattery.Initial | Software/src/battery/RUIXU-BATTERY.h:30-39 | initial SOC and SOH lie in [0, 10000], cell and temperature minima do not exceed the maxima, and voltage and current limits are 0 |
| RuixuBattery.Setup | Software/src/battery/RUIXU-BATTERY.cpp:14-17 | the protocol name fits 63 characters and is "Ruixu (CAN)" |
| RuixuBattery.FramesChangeNothing | Software/src/battery/RUIXU-BATTERY.cpp:20-42 | no sequence of frames, of any identifier, changes the adapter |
| RuixuBattery.TransmitCan | Software/src/battery/RUIXU-BATTERY.cpp:68-73 | no frame is sent |
| RuixuBattery.PowerLimit | Software/src/battery/RUIXU-BATTERY.cpp:61-64 | for a non-negative limit the power is (limit/10)·(voltage/10); a negative limit wraps to a value near 2^32 unless the product is 0 |
| RuixuBattery.UpdateValues | Software/src/battery/RUIXU-BATTERY.cpp:44-66 | SOC into real and reported, current into both current fields, cells and temperatures one to one; reported remaining equals remaining, the share soc/10000 of the total; power written only when voltage > 0 |
| RuixuBattery.RemainingWithinTotal | Software/src/battery/RUIXU-BATTERY.cpp:56-58 | with SOC ≤ 10000 the remaining capacity is at most the total, and a full pack reports all of it |
| RuixuBattery.DefaultsNeverWritePower | Software/src/battery/RUIXU-BATTERY.h:30-39 | whatever frames arrive, an update from the initial state never writes the power limits, and reports 50 % charge and 100 % health |
| RuixuBattery.UpdateIdempotent | Software/src/battery/RUIXU-BATTERY.cpp:44-66 | updating twice gives what updating once gives |
| Display.InitialLog | Battery-Emulator/Software/src/devboard/display/display.cpp:123-125 | the log starts with ten empty entries and a count of 0 |
| Display.EventText | Battery-Emulator/Software/src/devboard/display/display.cpp:489-490 | "[seconds] message" cut to 62 characters |
| Display.AddEvent | Battery-Emulator/Software/src/devboard/display/display.cpp:483-492 | the new entry goes to index 0, the others move down one and the eleventh is dropped; the count saturates at 10 |
| Display.NewestFirst | Battery-Emulator/Software/src/devboard/display/display.cpp:483-492 | after a run of events, entry j is the j-th newest event for the last ten, and the count is min(old + events, 10) |
| Display.NewEntriesShift | Battery-Emulator/Software/src/devboard/display/display.cpp:485-487 | older entries move down one place per new event |
| Display.EventsText | Battery-Emulator/Software/src/devboard/display/display.cpp:1675-1683 | "(no events)" exactly when the count is 0, otherwise the counted entries one per line |
| Display.EventsTextFits | Battery-Emulator/Software/src/devboard/display/display.cpp:1675-1680 | the event list never overflows its 640-byte buffer |
| Display.Pwm | Battery-Emulator/Software/src/devboard/display/display.cpp:429-431 | the PWM value is always in [10, 97], and equals 97 − ((b − 10)·87)/90 on the slider range |
| Display.PwmNonIncreasing | Battery-Emulator/Software/src/devboard/display/display.cpp:429-431 | over the slider range 10..100 a brighter setting never gives a larger PWM value |
| Display.PwmEnds | Battery-Emulator/Software/src/devboard/display/display.cpp:428-431 | slider 100 gives PWM 10 and slider 10 gives PWM 97 |
| Display.PwmWrapsAboveSlider | Battery-Emulator/Software/src/devboard/display/display.cpp:429-431 | outside the slider range the uint8 wrap shows: level 200 gives PWM 97 |
| Display.BackupProductFits | Battery-Emulator/Software/src/devboard/display/display.cpp:270 | the 32-bit product does not overflow for any 16-bit ADC value |
| Display.BackupMv | Battery-Emulator/Software/src/devboard/display/display.cpp:267-271 | at most 36300 mV for a 12-bit reading, and 0 exactly when the ADC reads 0 |
| Display.BackupColour | Battery-Emulator/Software/src/devboard/display/display.cpp:1572-1581 | green from 3900 mV, orange from 3500 mV, red below, gray exactly for 0 |
| Display.BackupGrayIffNoReading | Battery-Emulator/Software/src/devboard/display/display.cpp:1566-1581 | the backup battery shows gray exactly when the ADC reads 0 |
| Display.Exio | Battery-Emulator/Software/src/devboard/display/display.cpp:1555-1562 | EXIO0 is on exactly when the contactors are engaged; EXIO7 is on exactly when precharging, precharge completed or contactors engaged |
| Display.ContactorImpliesPrechargeLine | Battery-Emulator/Software/src/devboard/display/display.cpp:1556-1559 | EXIO0 on implies EXIO7 on |
| Display.CellDelta | Battery-Emulator/Software/src/devboard/display/display.cpp:1459-1460 | max − min, wrapping modulo 65536 when the minimum exceeds the maximum |
| Display.DeltaColour | Battery-Emulator/Software/src/devboard/display/display.cpp:1465 | green below 50 mV, orange below 100 mV, red from 100 mV |
| Display.AlertAndColour | Battery-Emulator/Software/src/devboard/display/display.cpp:1634-1651 | every imbalance alert (> 100 mV) is red, a delta of exactly 100 mV is red with no alert, and a wrapped delta alerts |

## Left out

- Serial I/O and timing of the Solark client are not modelled: the DE line, the delays, the UART writes and the inter-byte timeout of `read_response`. The received bytes and the read time are inputs. Pin setup in `solark_rs485_init` is not modelled either.
- The eModbus `addCRC`/`validCRC` and ArduinoJson are library code. The CRC is specified from the Modbus standard. The JSON output is modelled only as its register list and return code, with the serialized length as an input.
- The capacity of the Solark register array is declared in a datalayer header that is not part of this model, so the capacity is the length of the snapshot's register array.
- SolarkHtml.SensorStateById: SOC, voltage and current are rendered with floating-point formatting, so the state is kept as raw value, divisor and decimals rather than text.
- SolarkHtml.PvString: also reads 0 when the register array has no index 19/20. This cannot happen while the count is above 20, since the count never exceeds the capacity.
- The `/10.0` and `/100.0` fields of `poll_solis` are floating-point and are not modelled: voltages, currents, frequency, temperature and energy totals. The pymodbus client, its patches and the exception path are not modelled either; reads are inputs.
- SolisModbus.PollSolis: the exception handler's partially filled result is not modelled.
- Dashboard: FastAPI routing, templates, timeouts and the asyncio executor are not modelled. Write results and request bodies are inputs. The `time.time()` clock is a `real` parameter.
- Dashboard.ApiToggle: a body the JSON parser rejects, or a JSON value that is not an object, is one case ("Invalid JSON").
- Text.ParseInt: only the ASCII digits 0–9 are digits. Python's `int()` also reads the other Unicode decimal digits ("٣", "１１"); the Unicode digit table is not modelled.
- Dashboard.FormToggle: an index written in non-ASCII Unicode digits is reported as an invalid bit, where the source reads it (see `Text.ParseInt`).
- Dashboard.ApiToggle: an index written in non-ASCII Unicode digits is rejected as "bit_index must be integer", where the source reads it (see `Text.ParseInt`). JSON lists and objects as `bit_index` or `on`, and the non-finite JSON numbers `NaN` and `Infinity`, are not represented.
- Text.PyValue: a float carries the text `str()` prints for it; Python's shortest round-trip float printing is not modelled, so that text is an input alongside the value.
- Config.LoadSettings: JSON lists and nested objects are not modelled; the settings file holds scalars. File I/O is reduced to Missing / Unreadable / Json.
- DebugRing: the lock, the swallowed exceptions and the logging handler are not modelled. The timestamp is a parameter.
- RuixuBattery.UpdateValues: the remaining capacity is the exact share `soc·total/10000`, rounded down. The double arithmetic it is computed with, and the undefined cast for results beyond 32 bits, are not modelled.
- The datalayer field widths of the Ruixu status are not part of this model, so those fields are unbounded integers.
- Display: the LVGL widgets, touch, WiFi, reboot and floating-point formatting are not modelled. The clock and the ADC reading are parameters.
- Display.Exio: the precharge states other than precharging and completed are one case, because the enumeration is declared outside this model.
- Display.EventText: C strings are modelled as strings without NUL characters, and the 62-place cut counts characters, where `snprintf` counts bytes: a message with multi-byte UTF-8 characters keeps fewer of them in the source. The one caller passes ASCII text.
- The board pin tables, the HAL glue, the MQTT client, the HTTP fetch script and the Velar PHEV header are not modelled. They have no logic of their own here, or their implementation is not part of this model.

## Findings

| source | as written | input that shows it | evidently intended | confidence | as-written member | corrected member |
|---|---|---|---|---|---|---|
| scripts/solis_s6_app/solis_modbus.py:62 | block (33126, 24) reads registers 33126–33149, but `battery_power_W` is `_reg_s32_signed(b3, 23)`, the pair 33149–33150 | any successful read of the fourth block: 24 registers, so `_reg_s32` finds no offset 24 and returns 0 | read 25 registers so 33150 is included and the battery power is the signed pair 33149–33150 | not executed | SolisModbus.BatteryPowerLostAsWritten | SolisModbus.BatteryPowerReadWithFullBlock |

/** The pure helpers of the touch display: the ten-entry event log, the
    brightness-to-PWM mapping, the backup battery voltage scaling and its
    colour, the contactor/precharge mirror on the IO expander, and the cell
    voltage delta with its colour and imbalance alert. Widgets, touch, WiFi
    and floating-point formatting are not modelled; clock and ADC readings
    are parameters. */
module Display {
  import opened Base
  import opened Text

  /** Colours the display uses for its status texts. */
  datatype Colour = Green | Orange | Red | Gray

  // ---------------------------------------------------------------------
  // Event log

  const MaxEvents: nat := 10
  /** An entry is written with `snprintf(..., 63, ...)`: at most 62 characters. */
  const EntryChars: nat := 62
  /** Size of the buffer the entries are concatenated into. */
  const EventsTextSize: nat := 640

  /** `event_log` and `event_count`; entry 0 is the newest. */
  datatype EventLog = EventLog(entries: seq<string>, count: nat)

  predicate ValidLog(log: EventLog)
  {
    && |log.entries| == MaxEvents
    && log.count <= MaxEvents
    && (forall i :: 0 <= i < |log.entries| ==> |log.entries[i]| <= EntryChars)
  }

  /** The zero-initialised static log. */
  function InitialLog(): (log: EventLog)
    ensures ValidLog(log) && log.count == 0
  {
    EventLog(seq(MaxEvents, _ => ""), 0)
  }

  /** `"[%lu] %s"` with the seconds since boot, cut to 62 characters. */
  function EventText(nowMillis: u32, msg: string): (t: string)
    ensures |t| == Min(|"[" + NatToString(nowMillis / 1000) + "] " + msg|, EntryChars)
    ensures t == ("[" + NatToString(nowMillis / 1000) + "] " + msg)[..|t|]
  {
    Prefix("[" + NatToString(nowMillis / 1000) + "] " + msg, EntryChars)
  }

  /** `add_event`: entries move down one place, the oldest falls off, the
      new one goes on top, and the count saturates at ten. */
  function AddEvent(log: EventLog, nowMillis: u32, msg: string): (log': EventLog)
    requires ValidLog(log)
    ensures ValidLog(log')
    ensures log'.entries[0] == EventText(nowMillis, msg)
    ensures forall i :: 1 <= i < MaxEvents ==> log'.entries[i] == log.entries[i - 1]
    ensures log'.count == Min(log.count + 1, MaxEvents)
  {
    EventLog([EventText(nowMillis, msg)] + log.entries[..MaxEvents - 1],
             if log.count < MaxEvents then log.count + 1 else log.count)
  }

  /** A run of events, each with its time, in order. */
  function AddEvents(log: EventLog, events: seq<(u32, string)>): (log': EventLog)
    requires ValidLog(log)
    ensures ValidLog(log')
    decreases |events|
  {
    if |events| == 0 then log
    else AddEvents(AddEvent(log, events[0].0, events[0].1), events[1..])
  }

  /** After a run of events the log shows the newest first: entry `j` is the
      text of the `j`-th event counted back from the last, for the last ten;
      the count has grown by the number of events, up to ten. */
  lemma {:induction false} NewestFirst(log: EventLog, events: seq<(u32, string)>)
    requires ValidLog(log)
    ensures var log' := AddEvents(log, events);
      && log'.count == Min(log.count + |events|, MaxEvents)
      && forall j :: 0 <= j < Min(|events|, MaxEvents) ==>
           log'.entries[j] == EventText(events[|events| - 1 - j].0, events[|events| - 1 - j].1)
    decreases |events|
  {
    if |events| > 0 {
      var log1 := AddEvent(log, events[0].0, events[0].1);
      var rest := events[1..];
      NewestFirst(log1, rest);
      var log' := AddEvents(log1, rest);
      assert AddEvents(log, events) == log';
      forall j | 0 <= j < Min(|events|, MaxEvents)
        ensures log'.entries[j] == EventText(events[|events| - 1 - j].0, events[|events| - 1 - j].1)
      {
        if j >= |rest| {
          assert j == |rest|;
          NewEntriesShift(log1, rest, j);
        }
      }
    }
  }

  /** Events already in the log move down one place per new event. */
  lemma {:induction false} NewEntriesShift(log: EventLog, events: seq<(u32, string)>, j: nat)
    requires ValidLog(log)
    requires |events| <= j < MaxEvents
    ensures AddEvents(log, events).entries[j] == log.entries[j - |events|]
    decreases |events|
  {
    if |events| > 0 {
      var log1 := AddEvent(log, events[0].0, events[0].1);
      NewEntriesShift(log1, events[1..], j);
    }
  }

  /** The first `n` entries, each followed by a newline. */
  function JoinLines(entries: seq<string>, n: nat): (r: string)
    requires n <= |entries|
    ensures (forall i :: 0 <= i < n ==> |entries[i]| <= EntryChars) ==> |r| <= n * (EntryChars + 1)
    ensures n > 0 ==> |r| > 0 && r[|r| - 1] == '\n'
  {
    if n == 0 then "" else JoinLines(entries, n - 1) + entries[n - 1] + "\n"
  }

  /** The event list as displayed: `(no events)` before the first event,
      otherwise the counted entries, newest first, one per line. */
  function EventsText(log: EventLog): (r: string)
    requires ValidLog(log)
    ensures log.count == 0 <==> r == "(no events)"
    ensures log.count > 0 ==> r == JoinLines(log.entries, log.count)
  {
    if log.count == 0 then "(no events)"
    else
      var r := JoinLines(log.entries, log.count);
      assert r[|r| - 1] != "(no events)"[10];
      r
  }

  /** The event list always fits its 640-byte buffer, terminator included. */
  lemma EventsTextFits(log: EventLog)
    requires ValidLog(log)
    ensures |EventsText(log)| < EventsTextSize
  {
    if log.count > 0 {
      MulMono(log.count, MaxEvents, EntryChars + 1);
    }
  }

  // ---------------------------------------------------------------------
  // Brightness

  const SliderMin: nat := 10
  const SliderMax: nat := 100
  const PwmMin: nat := 10
  const PwmMax: nat := 97

  /** `brightness_slider_cb`: `97 - ((b - 10) * 87) / 90` in `int` with C's
      truncating division, stored into a `uint8_t`, then clamped to [10, 97]. */
  function Pwm(b: byte): (p: byte)
    ensures PwmMin <= p <= PwmMax
    ensures SliderMin <= b <= SliderMax ==> p == PwmMax - ((b - SliderMin) * 87) / 90
  {
    var raw := 97 - TruncDiv((b - 10) * 87, 90);
    var w := raw % 0x100;
    if w < 10 then 10 else if w > 97 then 97 else w
  }

  /** Brighter slider settings give smaller (brighter) PWM values. */
  lemma PwmNonIncreasing(b1: byte, b2: byte)
    requires SliderMin <= b1 <= b2 <= SliderMax
    ensures Pwm(b2) <= Pwm(b1)
  {
    MulMono(b1 - 10, b2 - 10, 87);
  }

  /** The slider's ends map to the ends of the PWM range. */
  lemma PwmEnds()
    ensures Pwm(SliderMax) == PwmMin && Pwm(SliderMin) == PwmMax
  {
  }

  /** Outside the slider's range the byte wrap shows: a level of 200 gives
      the dimmest setting. */
  lemma PwmWrapsAboveSlider()
    ensures Pwm(200) == PwmMax
  {
    assert 97 - TruncDiv(190 * 87, 90) == -86;
  }

  // ---------------------------------------------------------------------
  // Backup battery

  /** The product `adc * 3300 * 11` never leaves 32 bits, for every 16-bit
      reading, and stays within `4095 * 36300` for a 12-bit one. */
  lemma BackupProductFits(adc: u16)
    ensures adc * 3300 * 11 < 0x1_0000_0000
    ensures adc <= 4095 ==> adc * 3300 * 11 <= 4095 * 36300
  {
    MulMono(adc, 0xFFFF, 3300 * 11);
    if adc <= 4095 {
      MulMono(adc, 4095, 3300 * 11);
    }
  }

  /** `read_backup_battery_mv`: `adc * 3300 * 11 / 4095` in 32 bits. */
  function BackupMv(adc: u16): (mv: u32)
    ensures adc <= 4095 ==> mv <= 36300
    ensures mv == 0 <==> adc == 0
  {
    BackupProductFits(adc);
    adc * 3300 * 11 / 4095
  }

  /** The backup battery's colour: green from 3.9 V, orange from 3.5 V, red
      below, gray for a reading of 0. */
  function BackupColour(mv: nat): (c: Colour)
    ensures c == Gray <==> mv == 0
    ensures c == Green <==> mv >= 3900
    ensures c == Orange <==> 3500 <= mv < 3900
  {
    if mv >= 3900 then Green
    else if mv >= 3500 then Orange
    else if mv > 0 then Red
    else Gray
  }

  /** The backup battery shows gray exactly when the ADC reads 0. */
  lemma BackupGrayIffNoReading(adc: u16)
    ensures BackupColour(BackupMv(adc)) == Gray <==> adc == 0
  {
  }

  // ---------------------------------------------------------------------
  // Contactor and precharge mirror

  /** The precharge states the mirror distinguishes; every other state of
      the precharge machine is `OtherPrecharge`. */
  datatype PrechargeStatus = Precharging | Completed | OtherPrecharge

  /** EXIO0 and EXIO7: contactors engaged, and precharge running, done or
      bypassed by engaged contactors. */
  function Exio(contactorsEngaged: bool, precharge: PrechargeStatus): (out: (byte, byte))
    ensures out.0 == 1 <==> contactorsEngaged
    ensures out.1 == 1 <==> precharge == Precharging || precharge == Completed || contactorsEngaged
    ensures out.0 <= 1 && out.1 <= 1
  {
    var ex0 := if contactorsEngaged then 1 else 0;
    var ex7 := if precharge == Precharging || precharge == Completed || contactorsEngaged then 1 else 0;
    (ex0, ex7)
  }

  /** EXIO0 on implies EXIO7 on. */
  lemma ContactorImpliesPrechargeLine(contactorsEngaged: bool, precharge: PrechargeStatus)
    ensures Exio(contactorsEngaged, precharge).0 <= Exio(contactorsEngaged, precharge).1
  {
  }

  // ---------------------------------------------------------------------
  // Cell delta

  /** `uint16_t cell_delta = max - min`: wraps when the minimum exceeds the maximum. */
  function CellDelta(maxMv: u16, minMv: u16): (d: u16)
    ensures minMv <= maxMv ==> d == maxMv - minMv
    ensures minMv > maxMv ==> d == 0x1_0000 + maxMv - minMv
  {
    (maxMv - minMv) % 0x1_0000
  }

  /** Green below 50 mV, orange below 100 mV, red from 100 mV. */
  function DeltaColour(d: u16): (c: Colour)
    ensures c == Green <==> d < 50
    ensures c == Orange <==> 50 <= d < 100
    ensures c == Red <==> d >= 100
  {
    if d < 50 then Green else if d < 100 then Orange else Red
  }

  /** The imbalance alert: strictly more than 100 mV. */
  predicate ImbalanceAlert(maxMv: u16, minMv: u16)
  {
    CellDelta(maxMv, minMv) > 100
  }

  /** Every alert is shown red, but a delta of exactly 100 mV is red with no
      alert; and a minimum above the maximum wraps into an alert unless it is
      more than 65435 mV above. */
  lemma AlertAndColour(maxMv: u16, minMv: u16)
    ensures ImbalanceAlert(maxMv, minMv) ==> DeltaColour(CellDelta(maxMv, minMv)) == Red
    ensures maxMv >= 100 && minMv == maxMv - 100 ==>
      DeltaColour(CellDelta(maxMv, minMv)) == Red && !ImbalanceAlert(maxMv, minMv)
    ensures minMv > maxMv ==> (ImbalanceAlert(maxMv, minMv) <==> minMv - maxMv < 0x1_0000 - 100)
  {
  }
}

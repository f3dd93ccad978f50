/** The pure logic of the Solis/Solark web dashboard: merging cached control
    flags with their defaults, the human-readable storage-mode label, the
    Solark-SOC-driven self-use automation, and the validation of bit toggles
    from HTML forms and the JSON API. Clock readings, Modbus write results and
    request bodies are inputs. */
module Dashboard {
  import opened Base
  import opened Text
  import opened SolisModbus

  /** `_merge_bits`: every default key, taking the cached value where the cache
      has one. A missing or empty cache leaves the defaults. */
  function MergeBits<K, V>(defaults: map<K, V>, fromData: Option<map<K, V>>): (r: map<K, V>)
    ensures r.Keys == defaults.Keys
    ensures forall k :: k in r ==>
      r[k] == (if fromData.Some? && k in fromData.value then fromData.value[k] else defaults[k])
  {
    if fromData.None? || |fromData.value| == 0 then defaults
    else map k | k in defaults :: if k in fromData.value then fromData.value[k] else defaults[k]
  }

  /** The dashboard's storage flags after a poll: flag `i` is bit `i` of
      register 43110 when it was read, and off otherwise. */
  lemma MergedFlagsFollowRegister(connected: bool, regs: map<nat, seq<u16>>, i: nat)
    requires i < |StorageBitNames|
    ensures var merged := MergeBits(AllOff(StorageBitNames), PollSolis(connected, regs).storageBits);
            StorageBitNames[i] in merged &&
            merged[StorageBitNames[i]] == (connected && Present(regs, StorageControlReg) && Bit(regs[StorageControlReg][0], i))
  {
    var defaults := AllOff(StorageBitNames);
    assert StorageBitNames[i] in defaults;
  }

  /** `storage_bits.get(name)` is truthy. */
  predicate On(bits: map<string, bool>, name: string)
  {
    name in bits && bits[name]
  }

  /** The primary modes in priority order, with their labels. */
  const ModePriority: seq<(string, string)> := [
    ("off_grid", "Off-grid"), ("feed_in_priority", "Feed-in"), ("self_use", "Self-use"),
    ("time_of_use", "Time of use (TOU)"), ("reserve_battery", "Reserve battery")]

  /** The label of the first flag of `priority` that is on, else "Unknown". */
  function FirstOn(priority: seq<(string, string)>, bits: map<string, bool>): string
  {
    if |priority| == 0 then "Unknown"
    else if On(bits, priority[0].0) then priority[0].1
    else FirstOn(priority[1..], bits)
  }

  /** The qualifier text for the two optional qualifiers. */
  function Qualifiers(gridCharge: bool, peakShaving: bool): string
  {
    if !gridCharge && !peakShaving then ""
    else
      " + " + (if gridCharge then "grid charge" else "")
      + (if gridCharge && peakShaving then ", " else "")
      + (if peakShaving then "peak-shaving" else "")
  }

  function JoinComma(items: seq<string>): string
  {
    if |items| == 0 then "" else if |items| == 1 then items[0] else items[0] + ", " + JoinComma(items[1..])
  }

  /** The priority list read as the chain of tests it stands for. */
  lemma FirstOnChain(bits: map<string, bool>)
    ensures FirstOn(ModePriority, bits) ==
      if On(bits, "off_grid") then "Off-grid"
      else if On(bits, "feed_in_priority") then "Feed-in"
      else if On(bits, "self_use") then "Self-use"
      else if On(bits, "time_of_use") then "Time of use (TOU)"
      else if On(bits, "reserve_battery") then "Reserve battery"
      else "Unknown"
  {
    var p0 := ModePriority;
    var p1 := [("feed_in_priority", "Feed-in"), ("self_use", "Self-use"),
               ("time_of_use", "Time of use (TOU)"), ("reserve_battery", "Reserve battery")];
    var p2 := [("self_use", "Self-use"), ("time_of_use", "Time of use (TOU)"), ("reserve_battery", "Reserve battery")];
    var p3 := [("time_of_use", "Time of use (TOU)"), ("reserve_battery", "Reserve battery")];
    var p4 := [("reserve_battery", "Reserve battery")];
    assert p0[1..] == p1 && p1[1..] == p2 && p2[1..] == p3 && p3[1..] == p4 && p4[1..] == [];
    assert FirstOn(p4, bits) == if On(bits, "reserve_battery") then "Reserve battery" else "Unknown";
    assert FirstOn(p3, bits) == if On(bits, "time_of_use") then "Time of use (TOU)" else FirstOn(p4, bits);
    assert FirstOn(p2, bits) == if On(bits, "self_use") then "Self-use" else FirstOn(p3, bits);
    assert FirstOn(p1, bits) == if On(bits, "feed_in_priority") then "Feed-in" else FirstOn(p2, bits);
    assert FirstOn(p0, bits) == if On(bits, "off_grid") then "Off-grid" else FirstOn(p1, bits);
  }

  /** The qualifier list joined as the label shows it. */
  lemma QualifierText(g: bool, p: bool)
    ensures var extras := (if g then ["grid charge"] else []) + (if p then ["peak-shaving"] else []);
            (if |extras| == 0 then "" else " + " + JoinComma(extras)) == Qualifiers(g, p)
  {
    var extras := (if g then ["grid charge"] else []) + (if p then ["peak-shaving"] else []);
    if g && p {
      assert extras == ["grid charge", "peak-shaving"];
      assert extras[1..] == ["peak-shaving"];
      assert JoinComma(extras) == "grid charge" + ", " + "peak-shaving";
    } else if g {
      assert extras == ["grid charge"];
    } else if p {
      assert extras == ["peak-shaving"];
    }
  }

  /** `_storage_mode_label`: "—" for no flags; otherwise the highest-priority
      mode, then " + " and the qualifiers that apply. Grid charge qualifies
      only a known mode; peak-shaving qualifies any. */
  function StorageModeLabel(bits: map<string, bool>): (r: string)
    ensures |bits| == 0 <==> r == "—"
    ensures |bits| > 0 ==>
      var mode := FirstOn(ModePriority, bits);
      r == mode + Qualifiers(On(bits, "allow_grid_charge") && mode != "Unknown", On(bits, "peak_shaving"))
  {
    if |bits| == 0 then "—"
    else
      var mode :=
        if On(bits, "off_grid") then "Off-grid"
        else if On(bits, "feed_in_priority") then "Feed-in"
        else if On(bits, "self_use") then "Self-use"
        else if On(bits, "time_of_use") then "Time of use (TOU)"
        else if On(bits, "reserve_battery") then "Reserve battery"
        else "Unknown";
      var gridCharge := On(bits, "allow_grid_charge") && mode != "—" && mode != "Unknown";
      var extras := (if gridCharge then ["grid charge"] else []) + (if On(bits, "peak_shaving") then ["peak-shaving"] else []);
      FirstOnChain(bits);
      QualifierText(gridCharge, On(bits, "peak_shaving"));
      mode + (if |extras| == 0 then "" else " + " + JoinComma(extras))
  }

  /** The label of a register word: off-grid wins over feed-in, which wins
      over self-use, whatever else is set. */
  lemma LabelOfRegister(val: u16)
    requires Bit(val, FeedInPriorityBit) && Bit(val, SelfUseBit) && !Bit(val, OffGridBit)
    ensures FirstOn(ModePriority, DecodeStorageBits(val)) == "Feed-in"
  {
    var m := DecodeStorageBits(val);
    assert StorageBitNames[OffGridBit] == "off_grid" && StorageBitNames[FeedInPriorityBit] == "feed_in_priority";
    assert !On(m, "off_grid") && On(m, "feed_in_priority");
  }

  /** How long the automation waits after a switch before it may switch again. */
  const CooldownSec: real := 300.0

  /** The automation's memory: whether it put the inverter into self-use, and
      when it last switched (seconds; 0 before the first switch). */
  datatype AutoState = AutoState(selfUseActive: bool, lastSwitch: real)

  const InitialAutoState := AutoState(false, 0.0)

  /** One invocation's inputs: whether automation is enabled, whether the
      Modbus library loaded, the two percentage settings, the clock, the
      Solark `battery_soc_pptt` value (None when absent or null), the cached
      storage flags, and the results of the first and second bit writes. */
  datatype AutoInput = AutoInput(
    enabled: bool,
    modbusAvailable: bool,
    thresholdPct: int,
    belowPct: int,
    now: real,
    rawSoc: Option<PyValue>,
    storageBits: map<string, bool>,
    firstWriteOk: bool,
    secondWriteOk: bool)

  /** One automation step: the new state, the bit writes issued in order
      (bit index, value), and whether `int(raw_soc)` raised. */
  datatype AutoStep = AutoStep(state: AutoState, writes: seq<(nat, bool)>, raised: bool)

  /** Whether the step is gated off before any SOC is looked at. */
  predicate Gated(st: AutoState, i: AutoInput)
  {
    !i.enabled || !i.modbusAvailable || i.thresholdPct <= 0 || i.now - st.lastSwitch < CooldownSec
  }

  /** The conditions under which the automation tries to enter self-use. */
  predicate WantsSelfUse(soc: int, i: AutoInput)
  {
    soc >= i.thresholdPct * 100 && (On(i.storageBits, "feed_in_priority") || !On(i.storageBits, "self_use"))
  }

  /** The conditions under which it tries to return to feed-in. */
  predicate WantsFeedIn(st: AutoState, soc: int, i: AutoInput)
  {
    st.selfUseActive && soc < i.belowPct * 100 && On(i.storageBits, "self_use")
  }

  /** Two writes joined by Python's `and`: the second is only issued when the first succeeded. */
  function WritePair(first: (nat, bool), second: (nat, bool), firstOk: bool): (w: seq<(nat, bool)>)
    ensures |w| >= 1 && w[0] == first
    ensures |w| == 2 <==> firstOk
    ensures |w| == 2 ==> w[1] == second
  {
    if firstOk then [first, second] else [first]
  }

  /** `_run_solark_solis_automation`. */
  function Automation(st: AutoState, i: AutoInput): (r: AutoStep)
    ensures Gated(st, i) || i.rawSoc.None? ==> r == AutoStep(st, [], false)
    ensures r.raised ==> r.state == st && r.writes == []
    ensures r.state.lastSwitch != st.lastSwitch ==> r.state.lastSwitch == i.now && i.now - st.lastSwitch >= CooldownSec
    ensures r.state != st ==> r.state.lastSwitch == i.now && |r.writes| == 2 && i.firstWriteOk && i.secondWriteOk
    ensures r.state.selfUseActive && !st.selfUseActive ==> r.writes == [(SelfUseBit, true), (FeedInPriorityBit, false)]
    ensures !r.state.selfUseActive && st.selfUseActive ==> r.writes == [(FeedInPriorityBit, true), (SelfUseBit, false)]
  {
    if Gated(st, i) || i.rawSoc.None? then AutoStep(st, [], false)
    else
      var soc := IntOf(i.rawSoc.value);
      if soc.None? then AutoStep(st, [], true)
      else if WantsSelfUse(soc.value, i) then
        var w := WritePair((SelfUseBit, true), (FeedInPriorityBit, false), i.firstWriteOk);
        if i.firstWriteOk && i.secondWriteOk then AutoStep(AutoState(true, i.now), w, false)
        else AutoStep(st, w, false)
      else if WantsFeedIn(st, soc.value, i) then
        var w := WritePair((FeedInPriorityBit, true), (SelfUseBit, false), i.firstWriteOk);
        if i.firstWriteOk && i.secondWriteOk then AutoStep(AutoState(false, i.now), w, false)
        else AutoStep(st, w, false)
      else AutoStep(st, [], false)
  }

  /** Entering self-use: exactly when the gate is open, the SOC reads as an
      integer at or above the threshold, feed-in is on or self-use is off,
      and both writes succeed. */
  lemma EntersSelfUseExactly(st: AutoState, i: AutoInput)
    ensures Automation(st, i).state == AutoState(true, i.now) && i.now != st.lastSwitch <==>
      && !Gated(st, i) && i.rawSoc.Some? && IntOf(i.rawSoc.value).Some?
      && WantsSelfUse(IntOf(i.rawSoc.value).value, i)
      && i.firstWriteOk && i.secondWriteOk
  {
  }

  /** Leaving self-use: only after this automation entered it, when the SOC is
      below the hysteresis level, self-use is still on, the entry condition
      does not hold, and both writes succeed. */
  lemma LeavesSelfUseExactly(st: AutoState, i: AutoInput)
    requires st.selfUseActive
    ensures !Automation(st, i).state.selfUseActive <==>
      && !Gated(st, i) && i.rawSoc.Some? && IntOf(i.rawSoc.value).Some?
      && !WantsSelfUse(IntOf(i.rawSoc.value).value, i)
      && WantsFeedIn(st, IntOf(i.rawSoc.value).value, i)
      && i.firstWriteOk && i.secondWriteOk
  {
  }

  /** The automation over a sequence of invocations: the final state and the
      times of the completed switches, in order. */
  function Run(st: AutoState, inputs: seq<AutoInput>): (r: (AutoState, seq<real>))
    decreases |inputs|
  {
    if |inputs| == 0 then (st, [])
    else
      var step := Automation(st, inputs[0]);
      var rest := Run(step.state, inputs[1..]);
      if step.state != st then (rest.0, [step.state.lastSwitch] + rest.1) else rest
  }

  /** The first switch of a run comes at least one cooldown after the starting
      state's last switch, and every later switch at least one cooldown after
      the one before it. */
  lemma {:induction false} SwitchesAreSpaced(st: AutoState, inputs: seq<AutoInput>)
    ensures var ts := Run(st, inputs).1;
            (|ts| > 0 ==> ts[0] - st.lastSwitch >= CooldownSec) &&
            forall k :: 0 < k < |ts| ==> ts[k] - ts[k - 1] >= CooldownSec
    decreases |inputs|
  {
    if |inputs| > 0 {
      var step := Automation(st, inputs[0]);
      SwitchesAreSpaced(step.state, inputs[1..]);
      if step.state != st {
        assert step.state.lastSwitch == inputs[0].now;
        assert inputs[0].now - st.lastSwitch >= CooldownSec;
      }
    }
  }

  /** Any two completed switches of a run, not only consecutive ones, are at
      least one cooldown apart per switch between them. */
  lemma {:induction false} AllSwitchesSpaced(st: AutoState, inputs: seq<AutoInput>, a: nat, b: nat)
    requires a < b < |Run(st, inputs).1|
    ensures Run(st, inputs).1[b] - Run(st, inputs).1[a] >= (b - a) as real * CooldownSec
    decreases b - a
  {
    var ts := Run(st, inputs).1;
    SwitchesAreSpaced(st, inputs);
    assert ts[b] - ts[b - 1] >= CooldownSec;
    if b - 1 > a {
      AllSwitchesSpaced(st, inputs, a, b - 1);
    }
  }

  /** `(...).strip().lower() in ("1", "true", "on", "yes")`. */
  predicate OnWord(s: string)
  {
    IsFlagWord(s, TrueWords)
  }

  /** The control register a toggle addresses. */
  datatype ControlRegister = Storage | Hybrid

  /** The highest bit index a toggle may address in each register. */
  function MaxBit(reg: ControlRegister): nat
  {
    match reg
    case Storage => 11
    case Hybrid => 7
  }

  /** What a form toggle on `/` or `/control` decided before any Modbus traffic. */
  datatype FormDecision =
    | MissingBit
    | InvalidBit
    | NoWrite
    | WriteBit(reg: ControlRegister, bit: nat, on: bool)

  /** The register-name field: "hybrid" or "storage" after strip/lower, absent
      or empty meaning "storage". */
  function FormRegister(register: Option<string>): Option<ControlRegister>
  {
    var name := if register.None? || register.value == "" then "storage" else Lower(Strip(register.value));
    if name == "hybrid" then Some(Hybrid) else if name == "storage" then Some(Storage) else None
  }

  /** The bit toggle of `POST /` and `POST /control` (the preset aside): the
      bit index must parse as an integer and lie in the register's range;
      an absent or empty `on` means on. */
  function FormToggle(bitIndex: Option<string>, on: Option<string>, register: Option<string>): (d: FormDecision)
    ensures d.WriteBit? <==>
      && bitIndex.Some? && ParseInt(bitIndex.value).Some?
      && FormRegister(register).Some?
      && 0 <= ParseInt(bitIndex.value).value <= MaxBit(FormRegister(register).value)
    ensures d.WriteBit? ==>
      && d.bit as int == ParseInt(bitIndex.value).value
      && d.reg == FormRegister(register).value
      && d.bit <= MaxBit(d.reg)
      && (d.on <==> on.None? || on.value == "" || OnWord(on.value))
    ensures d == MissingBit <==> bitIndex.None?
    ensures d == InvalidBit <==> bitIndex.Some? && ParseInt(bitIndex.value).None?
  {
    var onBool := OnWord(if on.None? || on.value == "" then "true" else on.value);
    FlagWordLiterals();
    if bitIndex.None? then MissingBit
    else
      var b := ParseInt(bitIndex.value);
      if b.None? then InvalidBit
      else
        var reg := FormRegister(register);
        if reg.Some? && 0 <= b.value <= MaxBit(reg.value) then WriteBit(reg.value, b.value, onBool)
        else NoWrite
  }

  /** The two pages whose forms toggle a control bit. */
  datatype Page = DashboardPage | ControlPage

  /** The path a page lives at. */
  function PagePath(page: Page): string
  {
    match page
    case DashboardPage => "/"
    case ControlPage => "/control"
  }

  /** Where a toggle form sends the browser, given the decision and, for a
      write, whether it succeeded: back to the same page, with `saved=1`
      exactly after a successful write. A missing bit index is an error on
      the dashboard but a plain reload of `/control`. */
  function Redirect(page: Page, d: FormDecision, writeOk: bool): (url: string)
    ensures PagePath(page) <= url
    ensures url == PagePath(page) + "?saved=1" <==> d.WriteBit? && writeOk
    ensures d.MissingBit? ==> (url == PagePath(page) <==> page == ControlPage)
  {
    var query :=
      match d
      case MissingBit => if page == ControlPage then "" else "?error=missing_bit"
      case InvalidBit => "?error=invalid_bit"
      case NoWrite => "?error=write_failed"
      case WriteBit(_, _, _) => if writeOk then "?saved=1" else "?error=write_failed";
    PagePath(page) + query
  }

  /** A request body of the JSON toggle API: `None` when it is not a JSON
      object (the handler answers "Invalid JSON"). */
  datatype ApiBody = JsonBody(fields: Option<map<string, PyValue>>) | FormBody(form: map<string, string>)

  datatype ApiResponse =
    | ApiError(status: nat, error: string)
    | ApiResult(ok: bool, bitIndex: int, on: bool)

  /** The `on` text of an API request: a JSON bool becomes "true"/"false", any
      other JSON value its `str()`, a missing or null value "true"; a form
      value is taken as is, a missing one "true". */
  function ApiOnText(body: ApiBody): string
    requires body.JsonBody? ==> body.fields.Some?
  {
    match body
    case JsonBody(fields) =>
      if "on" !in fields.value then "true"
      else
        (match fields.value["on"]
         case PyBool(b) => if b then "true" else "false"
         case PyNone => "true"
         case v => Str(v))
    case FormBody(form) => if "on" in form then form["on"] else "true"
  }

  /** The `bit_index` value of an API request (`None` when absent or null). */
  function ApiBitIndex(body: ApiBody): Option<PyValue>
    requires body.JsonBody? ==> body.fields.Some?
  {
    match body
    case JsonBody(fields) =>
      if "bit_index" in fields.value && fields.value["bit_index"] != PyNone then Some(fields.value["bit_index"]) else None
    case FormBody(form) => if "bit_index" in form then Some(PyStr(form["bit_index"])) else None
  }

  /** `POST /api/storage_toggle` and `POST /api/hybrid_toggle`; `writeOk` is
      the result of the bit write, issued only for a valid request. */
  function ApiToggle(reg: ControlRegister, body: ApiBody, writeOk: bool): (r: ApiResponse)
    ensures body.JsonBody? && body.fields.None? ==> r == ApiError(400, "Invalid JSON")
    ensures r.ApiResult? <==>
      && (body.JsonBody? ==> body.fields.Some?)
      && ApiBitIndex(body).Some? && IntOf(ApiBitIndex(body).value).Some?
      && 0 <= IntOf(ApiBitIndex(body).value).value <= MaxBit(reg)
    ensures r.ApiResult? ==>
      && r.ok == writeOk
      && r.bitIndex == IntOf(ApiBitIndex(body).value).value
      && (r.on <==> OnWord(ApiOnText(body)))
  {
    if body.JsonBody? && body.fields.None? then ApiError(400, "Invalid JSON")
    else
      var raw := ApiBitIndex(body);
      if raw.None? then ApiError(400, "bit_index required")
      else
        var b := IntOf(raw.value);
        if b.None? then ApiError(400, "bit_index must be integer")
        else if b.value < 0 || b.value > MaxBit(reg) then
          ApiError(400, if reg.Storage? then "bit_index 0..11" else "bit_index 0..7")
        else ApiResult(writeOk, b.value, OnWord(ApiOnText(body)))
  }

  /** An empty `on` field means on in the dashboard forms... */
  lemma EmptyOnInForm(bitIndex: Option<string>, register: Option<string>)
    requires FormToggle(bitIndex, Some(""), register).WriteBit?
    ensures FormToggle(bitIndex, Some(""), register).on
  {
  }

  /** ...but off in the API's form body. */
  lemma EmptyOnInApiForm(reg: ControlRegister, form: map<string, string>, ok: bool)
    requires "on" in form && form["on"] == ""
    requires ApiToggle(reg, FormBody(form), ok).ApiResult?
    ensures !ApiToggle(reg, FormBody(form), ok).on
  {
    FlagWordLiterals();
  }

  /** In a JSON body, a boolean `on` is taken as is, an integer `on` means on
      exactly when it is 1, and a missing or null `on` means on. */
  lemma JsonOnValues(reg: ControlRegister, fields: map<string, PyValue>, ok: bool)
    requires ApiToggle(reg, JsonBody(Some(fields)), ok).ApiResult?
    ensures "on" in fields && fields["on"].PyBool? ==> ApiToggle(reg, JsonBody(Some(fields)), ok).on == fields["on"].b
    ensures "on" in fields && fields["on"].PyInt? ==> (ApiToggle(reg, JsonBody(Some(fields)), ok).on <==> fields["on"].i == 1)
    ensures "on" !in fields || fields["on"].PyNone? ==> ApiToggle(reg, JsonBody(Some(fields)), ok).on
  {
    FlagWordLiterals();
    if "on" in fields && fields["on"].PyInt? {
      IntFlagWord(fields["on"].i);
    }
  }

  /** A bit index written with an underscore between its digits, such as
      "1_1", decides exactly as the digits joined: Python's `int()` reads both. */
  lemma UnderscoredIndexAccepted(a: string, b: string, on: Option<string>, register: Option<string>)
    requires |a| > 0 && AllDigits(a) && |b| > 0 && AllDigits(b)
    ensures FormToggle(Some(a + "_" + b), on, register) == FormToggle(Some(a + b), on, register)
    ensures FormToggle(Some(a + "_" + b), on, register) != InvalidBit
  {
    UnderscoreBetweenDigits(a, b);
  }

  /** A JSON float bit index is truncated toward zero, as `int()` does: 3.7
      addresses bit 3, and -0.5 addresses bit 0. */
  lemma FloatIndexTruncated(reg: ControlRegister, fields: map<string, PyValue>, x: real, t: string, ok: bool)
    requires "bit_index" in fields && fields["bit_index"] == PyFloat(x, t)
    requires -1.0 < x < (MaxBit(reg) + 1) as real
    ensures ApiToggle(reg, JsonBody(Some(fields)), ok).ApiResult?
    ensures x >= 0.0 ==> ApiToggle(reg, JsonBody(Some(fields)), ok).bitIndex == x.Floor
    ensures x < 0.0 ==> ApiToggle(reg, JsonBody(Some(fields)), ok).bitIndex == 0
  {
  }

  /** A JSON `on` of 1.0 prints as "1.0", which is no flag word, so it means off. */
  lemma FloatOneMeansOff(reg: ControlRegister, fields: map<string, PyValue>, ok: bool)
    requires "on" in fields && fields["on"] == PyFloat(1.0, "1.0")
    requires ApiToggle(reg, JsonBody(Some(fields)), ok).ApiResult?
    ensures !ApiToggle(reg, JsonBody(Some(fields)), ok).on
  {
    FloatTextIsNoFlagWord();
  }

  /** A valid toggle writes a bit the register has: never beyond bit 11 of
      43110 or bit 7 of 43483, so the read-modify-write touches only that flag. */
  lemma ToggleStaysInRegister(bitIndex: Option<string>, on: Option<string>, register: Option<string>,
                              read: seq<u16>, writeOk: bool)
    requires FormToggle(bitIndex, on, register).WriteBit?
    requires |read| > 0
    ensures var d := FormToggle(bitIndex, on, register);
            var w := SetControlBit(true, Some(read), d.bit, d.on, writeOk).written.value;
            d.bit < 12 && Bit(w, d.bit) == d.on &&
            forall j :: 0 <= j < 16 && j != d.bit ==> Bit(w, j) == Bit(read[0], j)
  {
  }
}

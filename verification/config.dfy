/** Settings of the Solis/Solark app: the `.env` file loader, the lookups that
    prefer the environment over `settings.json` over a default, and the
    settings file as a store. The environment is a map from names to strings,
    the settings file's content a map from keys to JSON scalars. */
module Config {
  import opened Base
  import opened Text

  /** A setting's value: the lookups return a stripped string, or an integer
      when the default is one. */
  datatype Setting = SStr(s: string) | SInt(i: int)

  /** `int(...)` raising `ValueError` on a value that is not an integer. */
  datatype ConfigError = NotAnInteger(text: string)

  type Env = map<string, string>
  type Settings = map<string, PyValue>

  /** `str(v).strip() != ""`. */
  predicate Filled(v: string)
  {
    !IsBlank(v)
  }

  /** The raw text the environment holds for `envKey`, when it holds a non-blank one. */
  function EnvText(env: Env, envKey: string): Option<string>
  {
    if envKey in env && Filled(env[envKey]) then Some(env[envKey]) else None
  }

  /** The settings value for `key`, when it is present, not null, and not blank. */
  function SettingsValue(settings: Settings, key: string): Option<PyValue>
  {
    if key in settings && settings[key] != PyNone && Filled(Str(settings[key])) then Some(settings[key]) else None
  }

  /** A value converted to the default's type. */
  function Convert(v: PyValue, default: Setting): (r: Result<Setting, ConfigError>)
    ensures r.Ok? ==> r.value.SInt? == default.SInt?
    ensures default.SStr? ==> r == Ok(SStr(Strip(Str(v))))
    ensures default.SInt? ==> (r.Ok? <==> IntOf(v).Some?)
  {
    if default.SInt? then
      match IntOf(v)
      case Some(i) => Ok(SInt(i))
      case None => Err(NotAnInteger(Str(v)))
    else Ok(SStr(Strip(Str(v))))
  }

  /** `_get`: the environment when it holds a non-blank value, else the
      settings file when it holds a non-blank value, else the default. */
  function Get(env: Env, settings: Settings, key: string, envKey: string, default: Setting): (r: Result<Setting, ConfigError>)
    ensures r.Ok? ==> r.value.SInt? == default.SInt?
    ensures EnvText(env, envKey).Some? ==> r == Convert(PyStr(EnvText(env, envKey).value), default)
    ensures EnvText(env, envKey).None? && SettingsValue(settings, key).Some? ==> r == Convert(SettingsValue(settings, key).value, default)
    ensures EnvText(env, envKey).None? && SettingsValue(settings, key).None? ==> r == Ok(default)
    ensures r.Err? ==> default.SInt?
  {
    match EnvText(env, envKey)
    case Some(t) => Convert(PyStr(t), default)
    case None =>
      match SettingsValue(settings, key)
      case Some(v) => Convert(v, default)
      case None => Ok(default)
  }

  /** A blank environment value is no value: the lookup behaves as if the
      variable were unset. */
  lemma BlankEnvFallsThrough(env: Env, settings: Settings, key: string, envKey: string, default: Setting)
    requires envKey in env && IsBlank(env[envKey])
    ensures Get(env, settings, key, envKey, default) == Get(env - {envKey}, settings, key, envKey, default)
  {
  }

  const BoolWords := TrueWords

  /** `_get_bool`: a non-blank environment value is a flag word; otherwise any
      non-null settings value decides (a bool as is, anything else as a flag
      word); only a missing or null settings value leaves the default. */
  function GetBool(env: Env, settings: Settings, key: string, envKey: string, default: bool): (r: bool)
    ensures EnvText(env, envKey).Some? ==> (r <==> IsFlagWord(env[envKey], BoolWords))
    ensures EnvText(env, envKey).None? && key in settings && settings[key].PyBool? ==> r == settings[key].b
    ensures EnvText(env, envKey).None? && key in settings && settings[key] != PyNone && !settings[key].PyBool? ==>
      (r <==> IsFlagWord(Str(settings[key]), BoolWords))
    ensures EnvText(env, envKey).None? && (key !in settings || settings[key] == PyNone) ==> r == default
  {
    var v := if envKey in env then Some(env[envKey]) else None;
    if v.Some? && Strip(v.value) != "" then Lower(Strip(v.value)) in BoolWords
    else
      var o := if key in settings then settings[key] else PyNone;
      if o != PyNone then
        if o.PyBool? then o.b else Lower(Strip(Str(o))) in BoolWords
      else default
  }

  /** The two lookups part ways on a blank settings value: `_get` falls back
      to its default, `_get_bool` answers false whatever its default. */
  lemma BlankSettingDiffers(settings: Settings, key: string, envKey: string, d: string, b: bool)
    requires key in settings && settings[key] == PyStr("")
    ensures Get(map[], settings, key, envKey, SStr(d)) == Ok(SStr(d))
    ensures !GetBool(map[], settings, key, envKey, b)
  {
    assert Strip("") == "" by { assert DropLeading("", Whitespace) == ""; }
    assert EnvText(map[], envKey).None? && SettingsValue(settings, key).None?;
    FlagWordLiterals();
    assert !IsFlagWord(Str(settings[key]), BoolWords);
  }

  /** An integer setting in the settings file round-trips through `_get` with
      an integer default, and a settings value of 1 reads as true. */
  lemma IntSettingRoundTrip(settings: Settings, key: string, envKey: string, i: int, d: int)
    requires key in settings && settings[key] == PyInt(i)
    ensures Get(map[], settings, key, envKey, SInt(d)) == Ok(SInt(i))
    ensures GetBool(map[], settings, key, envKey, false) <==> i == 1
  {
    IntFlagWord(i);
    assert Str(settings[key]) == IntToString(i);
    assert EnvText(map[], envKey).None?;
    assert SettingsValue(settings, key) == Some(PyInt(i));
    assert Convert(PyInt(i), SInt(d)) == Ok(SInt(i));
  }

  /** The index of the first `c` in `s`. */
  function IndexOf(s: string, c: char): (r: Option<nat>)
    ensures r.Some? ==> r.value < |s| && s[r.value] == c && c !in s[..r.value]
    ensures r.None? <==> c !in s
  {
    if |s| == 0 then None
    else if s[0] == c then Some(0)
    else
      match IndexOf(s[1..], c)
      case Some(i) =>
        assert s[..i + 1] == [s[0]] + s[1..][..i];
        Some(i + 1)
      case None => None
  }

  /** One line of `.env`: skipped when blank, a `#` comment, or without `=`;
      otherwise split at the first `=`, the key stripped, the value stripped
      and then stripped of surrounding double and then single quotes. */
  function ParseEnvLine(line: string): (r: Option<(string, string)>)
    ensures var t := Strip(line);
      r.Some? <==> |t| > 0 && t[0] != '#' && '=' in t
    ensures r.Some? ==> '=' !in r.value.0
  {
    var t := Strip(line);
    if |t| == 0 || t[0] == '#' then None
    else
      match IndexOf(t, '=')
      case None => None
      case Some(i) =>
        var k := Strip(t[..i]);
        var v := StripSet(StripSet(Strip(t[i + 1..]), DoubleQuote), SingleQuote);
        assert '=' !in k by {
          assert forall j :: 0 <= j < |k| ==> k[j] in t[..i];
        }
        Some((k, v))
  }

  /** A key the loader can write and read back: no `=`, nothing strippable at
      either end, and not a comment. */
  predicate CleanKey(k: string)
  {
    |k| > 0 && '=' !in k && k[0] != '#' && !IsSpace(k[0]) && !IsSpace(k[|k| - 1])
  }

  /** A value that survives the loader's stripping unchanged. */
  predicate CleanValue(v: string)
  {
    |v| > 0 && !IsSpace(v[0]) && !IsSpace(v[|v| - 1])
    && !InSet(v[0], DoubleQuote) && !InSet(v[|v| - 1], DoubleQuote)
    && !InSet(v[0], SingleQuote) && !InSet(v[|v| - 1], SingleQuote)
  }

  /** A line ending in a newline strips to its content when the content
      itself has nothing to strip. */
  lemma StripNewline(t: string)
    requires |t| > 0 && !IsSpace(t[0]) && !IsSpace(t[|t| - 1])
    ensures Strip(t + "\n") == t
  {
    var line := t + "\n";
    assert DropLeading(line, Whitespace) == line;
    assert line[..|line| - 1] == t;
    StripUnchanged(t, Whitespace);
  }

  /** `IndexOf` finds the first occurrence. */
  lemma {:induction false} IndexOfFirst(s: string, c: char, i: nat)
    requires i < |s| && s[i] == c && c !in s[..i]
    ensures IndexOf(s, c) == Some(i)
  {
    if i > 0 {
      assert s[0] in s[..i];
      assert s[1..][..i - 1] == s[..i][1..];
      IndexOfFirst(s[1..], c, i - 1);
    }
  }

  /** A line that is not skipped splits at the first `=` of its stripped text. */
  lemma ParseEnvLineSplit(line: string, t: string, i: nat)
    requires Strip(line) == t && |t| > 0 && t[0] != '#' && IndexOf(t, '=') == Some(i)
    ensures ParseEnvLine(line) == Some((Strip(t[..i]), StripSet(StripSet(Strip(t[i + 1..]), DoubleQuote), SingleQuote)))
  {
  }

  /** A `KEY=value` line with a trailing newline parses back to the pair. */
  lemma EnvLineRoundTrip(k: string, v: string)
    requires CleanKey(k) && CleanValue(v)
    ensures ParseEnvLine(k + "=" + v + "\n") == Some((k, v))
  {
    var t := k + "=" + v;
    assert k + "=" + v + "\n" == t + "\n";
    StripNewline(t);
    assert t[..|k|] == k && t[|k|] == '=' && t[|k| + 1..] == v;
    IndexOfFirst(t, '=', |k|);
    ParseEnvLineSplit(k + "=" + v + "\n", t, |k|);
    StripUnchanged(k, Whitespace);
    StripUnchanged(v, Whitespace);
    StripUnchanged(v, DoubleQuote);
    StripUnchanged(v, SingleQuote);
  }

  /** One line of the loader: a parsed pair with a non-empty key the
      environment does not hold yet is added; nothing is overwritten. */
  function LoadLine(env: Env, line: string): (r: Env)
    ensures env.Keys <= r.Keys
    ensures forall k :: k in env ==> r[k] == env[k]
  {
    match ParseEnvLine(line)
    case Some((k, v)) => if k != "" && k !in env then env[k := v] else env
    case None => env
  }

  /** The module-level `.env` loader, line by line. */
  function LoadEnv(env: Env, lines: seq<string>): (r: Env)
    ensures env.Keys <= r.Keys
    ensures forall k :: k in env ==> r[k] == env[k]
    decreases |lines|
  {
    if |lines| == 0 then env else LoadEnv(LoadLine(env, lines[0]), lines[1..])
  }

  /** The loader's step for a line that sets a new key. */
  lemma LoadEnvStep(env: Env, lines: seq<string>, k: string, v: string)
    requires |lines| > 0 && ParseEnvLine(lines[0]) == Some((k, v)) && k != "" && k !in env
    ensures LoadEnv(env, lines) == LoadEnv(env[k := v], lines[1..])
  {
  }

  /** The first line that sets a key wins. */
  lemma FirstDefinitionWins(env: Env, k: string, v: string, rest: seq<string>)
    requires CleanKey(k) && CleanValue(v) && k !in env
    ensures var r := LoadEnv(env, [k + "=" + v + "\n"] + rest); k in r && r[k] == v
  {
    var lines := [k + "=" + v + "\n"] + rest;
    EnvLineRoundTrip(k, v);
    assert lines[0] == k + "=" + v + "\n";
    LoadEnvStep(env, lines, k, v);
    var next := env[k := v];
    assert k in next && next[k] == v;
  }

  /** The settings file as the loader sees it. */
  datatype SettingsFile = Missing | Unreadable | Json(content: Settings)

  /** `_load_settings_overrides` and `load_settings`: the file's object, or
      an empty map when the file is missing or cannot be parsed. */
  function LoadSettings(f: SettingsFile): (r: Settings)
    ensures f.Json? ==> r == f.content
    ensures !f.Json? ==> r == map[]
  {
    match f
    case Json(m) => m
    case _ => map[]
  }

  /** `save_settings`: the file now holds `d`, and the in-memory overrides are
      reloaded from it. */
  function SaveSettings(d: Settings): (r: (SettingsFile, Settings))
    ensures r.0 == Json(d) && r.1 == d
  {
    var f := Json(d);
    (f, LoadSettings(f))
  }

  /** What was saved is what is loaded, and lookups see the saved values. */
  lemma SaveThenLoad(d: Settings, env: Env, key: string, envKey: string, default: Setting)
    requires EnvText(env, envKey).None?
    requires key in d && d[key].PyStr? && Filled(d[key].s)
    ensures LoadSettings(SaveSettings(d).0) == d
    ensures Get(env, SaveSettings(d).1, key, envKey, SStr("")) == Ok(SStr(Strip(d[key].s)))
  {
    var loaded := SaveSettings(d).1;
    assert loaded == d;
    assert Str(d[key]) == d[key].s;
    assert SettingsValue(loaded, key) == Some(d[key]);
  }
}

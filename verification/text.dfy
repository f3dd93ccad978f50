/** The handful of Python string operations the inverter scripts rely on:
    `str.strip()`, `str.strip(chars)`, `str.lower()` for the flag words,
    `int(x)`, `str(x)` and slicing `s[:n]`, plus a scalar value type for the
    values that come out of JSON documents, HTML forms and the environment. */
module Text {
  import opened Base

  /** The characters Python's `str.isspace()` accepts (and `str.strip()` removes). */
  predicate IsSpace(c: char)
  {
    || '\t' <= c <= '\r'
    || '\U{1C}' <= c <= ' '
    || c == '\U{85}' || c == '\U{A0}' || c == '\U{1680}'
    || '\U{2000}' <= c <= '\U{200A}'
    || c == '\U{2028}' || c == '\U{2029}' || c == '\U{202F}' || c == '\U{205F}' || c == '\U{3000}'
  }

  predicate IsDigit(c: char)
  {
    '0' <= c <= '9'
  }

  /** The character sets the code strips: whitespace (`str.strip()`) and
      the two quote characters (`str.strip('"')`, `str.strip("'")`). */
  datatype CharSet = Whitespace | DoubleQuote | SingleQuote

  predicate InSet(c: char, cs: CharSet)
  {
    match cs
    case Whitespace => IsSpace(c)
    case DoubleQuote => c == '"'
    case SingleQuote => c == '\''
  }

  /** Drops the longest prefix made only of characters of `cs`. */
  function DropLeading(s: string, cs: CharSet): (r: string)
    ensures |r| <= |s| && r == s[|s| - |r|..]
    ensures forall i :: 0 <= i < |s| - |r| ==> InSet(s[i], cs)
    ensures |r| > 0 ==> !InSet(r[0], cs)
  {
    if |s| > 0 && InSet(s[0], cs) then DropLeading(s[1..], cs) else s
  }

  /** Drops the longest suffix made only of characters of `cs`. */
  function DropTrailing(s: string, cs: CharSet): (r: string)
    ensures |r| <= |s| && r == s[..|r|]
    ensures forall i :: |r| <= i < |s| ==> InSet(s[i], cs)
    ensures |r| > 0 ==> !InSet(r[|r| - 1], cs)
  {
    if |s| > 0 && InSet(s[|s| - 1], cs) then DropTrailing(s[..|s| - 1], cs) else s
  }

  /** Python's `s.strip(chars)`. */
  function StripSet(s: string, cs: CharSet): string
  {
    DropTrailing(DropLeading(s, cs), cs)
  }

  /** Python's `s.strip()`. */
  function Strip(s: string): string
  {
    StripSet(s, Whitespace)
  }

  function LowerChar(c: char): char
  {
    if 'A' <= c <= 'Z' then (c as int + 32) as char else c
  }

  /** Python's `s.lower()` on ASCII letters. */
  function Lower(s: string): (r: string)
    ensures |r| == |s|
    ensures forall i :: 0 <= i < |s| ==> r[i] == LowerChar(s[i])
  {
    if |s| == 0 then [] else [LowerChar(s[0])] + Lower(s[1..])
  }

  /** Python's slice `s[:n]`, and C's bounded copy of at most `n` characters. */
  function Prefix<T>(s: seq<T>, n: nat): (r: seq<T>)
    ensures |r| == Min(|s|, n)
    ensures r == s[..|r|]
  {
    if |s| <= n then s else s[..n]
  }

  function DigitValue(c: char): nat
    requires IsDigit(c)
  {
    c as int - '0' as int
  }

  function DigitChar(d: nat): (c: char)
    requires d < 10
    ensures IsDigit(c) && DigitValue(c) == d
  {
    ('0' as int + d) as char
  }

  predicate AllDigits(s: string)
  {
    forall i :: 0 <= i < |s| ==> IsDigit(s[i])
  }

  /** The number a string of decimal digits denotes. */
  function DigitsValue(s: string): nat
    requires AllDigits(s)
  {
    if |s| == 0 then 0 else DigitsValue(s[..|s| - 1]) * 10 + DigitValue(s[|s| - 1])
  }

  /** Python's `str(n)` for a natural number: decimal, no leading zeros. */
  function NatToString(n: nat): (r: string)
    ensures |r| >= 1 && AllDigits(r)
    ensures r[0] == '0' ==> n == 0
  {
    if n < 10 then [DigitChar(n)] else NatToString(n / 10) + [DigitChar(n % 10)]
  }

  /** Python's `str(i)` for an integer. */
  function IntToString(i: int): (r: string)
    ensures |r| >= 1
  {
    if i < 0 then "-" + NatToString(-i) else NatToString(i)
  }

  /** The digits of a decimal literal as Python's `int()` reads them: one or
      more decimal digits, with single underscores allowed between two digits. */
  predicate DigitGroups(s: string)
  {
    && |s| > 0 && IsDigit(s[0]) && IsDigit(s[|s| - 1])
    && (forall i :: 0 <= i < |s| ==> IsDigit(s[i]) || s[i] == '_')
    && (forall i :: 0 <= i < |s| - 1 ==> s[i] == '_' ==> IsDigit(s[i + 1]))
  }

  /** `s` with its underscores removed. */
  function DropUnderscores(s: string): (r: string)
    ensures (forall i :: 0 <= i < |s| ==> IsDigit(s[i]) || s[i] == '_') ==> AllDigits(r)
    ensures AllDigits(s) ==> r == s
  {
    if |s| == 0 then ""
    else (if s[0] == '_' then "" else [s[0]]) + DropUnderscores(s[1..])
  }

  /** Python's `int(s)` for a string: surrounding whitespace, an optional sign,
      then decimal digits in groups separated by single underscores; anything
      else is a `ValueError` (`None`). */
  function ParseInt(s: string): (r: Option<int>)
    ensures r.Some? ==> |Strip(s)| > 0
  {
    var t := Strip(s);
    if |t| > 0 && (t[0] == '-' || t[0] == '+') then
      var ds := t[1..];
      if DigitGroups(ds) then
        var v: int := DigitsValue(DropUnderscores(ds));
        Some(if t[0] == '-' then -v else v)
      else None
    else if DigitGroups(t) then Some(DigitsValue(DropUnderscores(t)))
    else None
  }

  /** `str(n)` reads back as `n`. */
  lemma {:induction false} NatToStringValue(n: nat)
    ensures DigitsValue(NatToString(n)) == n
  {
    if n >= 10 {
      var s := NatToString(n);
      var p := NatToString(n / 10);
      assert s[..|s| - 1] == p;
      NatToStringValue(n / 10);
    }
  }

  /** A string with no stripped character at either end is its own strip. */
  lemma StripUnchanged(s: string, cs: CharSet)
    requires |s| > 0 && !InSet(s[0], cs) && !InSet(s[|s| - 1], cs)
    ensures StripSet(s, cs) == s
  {
  }

  /** A printed integer is an optional '-' and decimal digits, so nothing at
      either end is whitespace. */
  lemma PrintedChars(i: int)
    ensures var s := IntToString(i);
      && (i < 0 ==> s == "-" + NatToString(-i))
      && (i >= 0 ==> s == NatToString(i))
      && !IsSpace(s[0]) && !IsSpace(s[|s| - 1])
      && forall k :: 0 <= k < |s| ==> IsDigit(s[k]) || s[k] == '-'
  {
    var n := if i < 0 then -i else i;
    var ds := NatToString(n);
    assert IsDigit(ds[0]) && IsDigit(ds[|ds| - 1]);
  }

  /** `int` of a string of digits is the number the digits denote. */
  lemma ParseDigits(ds: string)
    requires |ds| > 0 && AllDigits(ds)
    ensures ParseInt(ds) == Some(DigitsValue(ds))
  {
    assert IsDigit(ds[0]) && IsDigit(ds[|ds| - 1]);
    StripUnchanged(ds, Whitespace);
    DigitsAreGroups(ds);
  }

  /** `int` of '-' and a string of digits is the negated number. */
  lemma ParseNegDigits(ds: string)
    requires |ds| > 0 && AllDigits(ds)
    ensures var v: int := DigitsValue(ds); ParseInt("-" + ds) == Some(-v)
  {
    var neg := "-" + ds;
    NegUnpadded(ds);
    assert neg[1..] == ds;
    ParseNegative(neg);
  }

  /** '-' and digits have no whitespace to strip. */
  lemma NegUnpadded(ds: string)
    requires |ds| > 0 && AllDigits(ds)
    ensures Strip("-" + ds) == "-" + ds
  {
    var neg := "-" + ds;
    assert IsDigit(neg[|neg| - 1]);
    StripUnchanged(neg, Whitespace);
  }

  /** `int` of an unpadded '-' and digits is the negated number. */
  lemma ParseNegative(t: string)
    requires Strip(t) == t && |t| > 1 && t[0] == '-' && AllDigits(t[1..])
    ensures var v: int := DigitsValue(t[1..]); ParseInt(t) == Some(-v)
  {
    DigitsAreGroups(t[1..]);
  }

  /** A run of digits is a digit group with no underscore to drop. */
  lemma DigitsAreGroups(ds: string)
    requires |ds| > 0 && AllDigits(ds)
    ensures DigitGroups(ds) && DropUnderscores(ds) == ds
  {
  }

  /** Removing underscores distributes over concatenation. */
  lemma {:induction false} DropUnderscoresAppend(a: string, b: string)
    ensures DropUnderscores(a + b) == DropUnderscores(a) + DropUnderscores(b)
    decreases |a|
  {
    if |a| > 0 {
      assert (a + b)[1..] == a[1..] + b;
      DropUnderscoresAppend(a[1..], b);
    } else {
      assert a + b == b;
    }
  }

  /** One underscore between two runs of digits is a valid digit group. */
  lemma UnderscoreGroups(a: string, b: string)
    requires |a| > 0 && AllDigits(a) && |b| > 0 && AllDigits(b)
    ensures DigitGroups(a + "_" + b)
  {
    var u := a + "_" + b;
    forall i | 0 <= i < |u|
      ensures IsDigit(u[i]) || u[i] == '_'
      ensures i < |u| - 1 && u[i] == '_' ==> IsDigit(u[i + 1])
    {
      if i < |a| {
        assert u[i] == a[i];
      } else if i == |a| {
        assert u[i + 1] == b[0];
      } else {
        assert u[i] == b[i - |a| - 1];
      }
    }
  }

  /** Removing the underscore between two runs of digits joins the runs. */
  lemma UnderscoreDropped(a: string, b: string)
    requires AllDigits(a) && AllDigits(b)
    ensures DropUnderscores(a + "_" + b) == a + b
  {
    var x := a + "_";
    DropUnderscoresAppend(x, b);
    DropUnderscoresAppend(a, "_");
    LoneUnderscore();
    assert DropUnderscores(x) == a;
  }

  lemma LoneUnderscore()
    ensures DropUnderscores("_") == ""
  {
    assert "_"[1..] == "";
  }

  /** An underscore between two runs of digits does not change the number
      `int()` reads. */
  lemma UnderscoreBetweenDigits(a: string, b: string)
    requires |a| > 0 && AllDigits(a) && |b| > 0 && AllDigits(b)
    ensures ParseInt(a + "_" + b) == ParseInt(a + b) == Some(DigitsValue(a + b))
  {
    var u := a + "_" + b;
    assert IsDigit(u[0]) && IsDigit(u[|u| - 1]);
    StripUnchanged(u, Whitespace);
    UnderscoreGroups(a, b);
    UnderscoreDropped(a, b);
    assert AllDigits(a + b);
    ParseDigits(a + b);
  }

  /** A doubled underscore makes the text no integer. */
  lemma DoubledUnderscoreRejected(a: string, b: string)
    requires |a| > 0 && AllDigits(a) && |b| > 0 && AllDigits(b)
    ensures ParseInt(a + "__" + b).None?
  {
    var w := a + "__" + b;
    assert IsDigit(w[0]) && IsDigit(w[|w| - 1]);
    StripUnchanged(w, Whitespace);
    assert w[|a|] == '_' && w[|a| + 1] == '_';
  }

  /** `int(str(i)) == i` for every integer. */
  lemma {:induction false} IntToStringRoundTrip(i: int)
    ensures ParseInt(IntToString(i)) == Some(i)
  {
    var n := if i < 0 then -i else i;
    NatToStringValue(n);
    if i < 0 {
      ParseNegDigits(NatToString(n));
    } else {
      ParseDigits(NatToString(n));
    }
  }

  /** Different integers print differently. */
  lemma IntToStringInjective(a: int, b: int)
    requires IntToString(a) == IntToString(b)
    ensures a == b
  {
    IntToStringRoundTrip(a);
    IntToStringRoundTrip(b);
  }

  /** A Python scalar as it comes out of `json.load`, a form field or `os.environ`.
      A float carries the text `str()` prints for it (`1.0` for one), which the
      JSON decoder's float determines; Python's float printing itself is not
      modelled. */
  datatype PyValue = PyNone | PyBool(b: bool) | PyInt(i: int) | PyFloat(x: real, repr: string) | PyStr(s: string)

  /** Python's `int(x)` for a float: truncation toward zero. */
  function TruncReal(x: real): (n: int)
    ensures x >= 0.0 ==> n as real <= x < n as real + 1.0
    ensures x < 0.0 ==> n as real - 1.0 < x <= n as real
  {
    if x >= 0.0 then x.Floor else -((-x).Floor)
  }

  /** Python's `str(v)`. */
  function Str(v: PyValue): string
  {
    match v
    case PyNone => "None"
    case PyBool(b) => if b then "True" else "False"
    case PyInt(i) => IntToString(i)
    case PyFloat(_, t) => t
    case PyStr(s) => s
  }

  /** Python's `int(v)`; `None` stands for the `TypeError`/`ValueError` it raises. */
  function IntOf(v: PyValue): (r: Option<int>)
    ensures v.PyInt? ==> r == Some(v.i)
    ensures v.PyBool? ==> r == Some(if v.b then 1 else 0)
    ensures v.PyFloat? ==> r == Some(TruncReal(v.x))
    ensures v.PyNone? ==> r.None?
  {
    match v
    case PyNone => None
    case PyBool(b) => Some(if b then 1 else 0)
    case PyInt(i) => Some(i)
    case PyFloat(x, _) => Some(TruncReal(x))
    case PyStr(s) => ParseInt(s)
  }

  /** `str(v).strip().lower() in (...)`: the flag test used for booleans in
      settings, toggles and the environment. */
  predicate IsFlagWord(v: string, words: set<string>)
  {
    Lower(Strip(v)) in words
  }

  /** Whitespace-only (or empty): `str(v).strip() == ""`. */
  predicate IsBlank(s: string)
  {
    Strip(s) == ""
  }

  /** The words Python code here accepts as "true" for a boolean setting or flag. */
  const TrueWords: set<string> := {"1", "true", "yes", "on"}

  /** Digits and '-' are unchanged by lower-casing. */
  lemma LowerOfNumeral(s: string)
    requires forall k :: 0 <= k < |s| ==> IsDigit(s[k]) || s[k] == '-'
    ensures Lower(s) == s
  {
    assert forall k :: 0 <= k < |s| ==> Lower(s)[k] == s[k];
  }

  /** A printed integer is its own stripped, lower-cased form. */
  lemma IntToStringNormal(i: int)
    ensures Lower(Strip(IntToString(i))) == IntToString(i)
    ensures IsDigit(IntToString(i)[0]) || IntToString(i)[0] == '-'
  {
    var s := IntToString(i);
    PrintedChars(i);
    StripUnchanged(s, Whitespace);
    LowerOfNumeral(s);
  }

  /** A word of lower-case letters and digits is its own stripped,
      lower-cased form. */
  lemma NormalWord(w: string)
    requires |w| > 0 && forall i :: 0 <= i < |w| ==> 'a' <= w[i] <= 'z' || IsDigit(w[i])
    ensures Lower(Strip(w)) == w
  {
    StripUnchanged(w, Whitespace);
    assert Lower(w) == w;
  }

  /** A printed integer is never blank, and it reads as "true" exactly when it is 1. */
  lemma IntFlagWord(i: int)
    ensures !IsBlank(IntToString(i))
    ensures IsFlagWord(IntToString(i), TrueWords) <==> i == 1
  {
    var s := IntToString(i);
    IntToStringNormal(i);
    assert Lower(Strip(s)) == s;
    assert s !in {"true", "yes", "on"} by {
      assert s[0] != 't' && s[0] != 'y' && s[0] != 'o';
    }
    assert s == "1" <==> i == 1 by {
      if s == "1" {
        IntToStringInjective(i, 1);
      }
    }
  }

  lemma TrueIsFlagWord()
    ensures IsFlagWord("true", TrueWords)
  {
    NormalWord("true");
  }

  lemma FalseIsNoFlagWord()
    ensures !IsFlagWord("false", TrueWords)
  {
    NormalWord("false");
  }

  lemma EmptyIsNoFlagWord()
    ensures !IsFlagWord("", TrueWords)
  {
    assert Lower(Strip("")) == "";
  }

  /** The printed float "1.0" is not a word for "true". */
  lemma FloatTextIsNoFlagWord()
    ensures !IsFlagWord("1.0", TrueWords)
  {
    var t := "1.0";
    StripUnchanged(t, Whitespace);
    var w := Lower(t);
    assert |w| == 3 && w[1] == '.';
    assert w != "yes" by {
      assert "yes"[1] == 'e';
    }
  }

  /** The literal words the handlers substitute: "true" is on, "false" and "" are not. */
  lemma FlagWordLiterals()
    ensures IsFlagWord("true", TrueWords)
    ensures !IsFlagWord("false", TrueWords)
    ensures !IsFlagWord("", TrueWords)
  {
    TrueIsFlagWord();
    FalseIsNoFlagWord();
    EmptyIsNoFlagWord();
  }
}

/** The debug stream of the Solis Modbus logger: a ring of at most 300
    `(timestamp, level, message)` entries that drops its oldest entry when a
    new one arrives on a full ring. The lock and the swallowed exceptions of
    the Python module do not change what the ring holds and are not modelled;
    the wall-clock timestamp is a parameter. */
module DebugRing {
  import opened Base
  import opened Text

  const MaxLines: nat := 300
  const MaxLevelChars: nat := 10
  const MaxMessageChars: nat := 2000

  datatype Entry = Entry(ts: real, level: string, message: string)

  /** The deque's contents, oldest first. */
  datatype Ring = Ring(lines: seq<Entry>)

  predicate Valid(r: Ring)
  {
    |r.lines| <= MaxLines
  }

  const Empty := Ring([])

  /** The last `n` elements of `s` (all of them when there are fewer). */
  function Last<T>(s: seq<T>, n: nat): (r: seq<T>)
    ensures |r| == Min(|s|, n)
  {
    if |s| <= n then s else s[|s| - n..]
  }

  /** What `add` stores for a call: level and message cut to their limits. */
  function Stored(ts: real, level: string, message: string): (e: Entry)
    ensures |e.level| == Min(|level|, MaxLevelChars) && e.level == level[..|e.level|]
    ensures |e.message| == Min(|message|, MaxMessageChars) && e.message == message[..|e.message|]
    ensures |level| <= MaxLevelChars ==> e.level == level
    ensures |message| <= MaxMessageChars ==> e.message == message
  {
    Entry(ts, Prefix(level, MaxLevelChars), Prefix(message, MaxMessageChars))
  }

  /** `add`: append the new entry at the end; a full ring drops its oldest. */
  function Add(r: Ring, ts: real, level: string, message: string): (r': Ring)
    requires Valid(r)
    ensures Valid(r')
    ensures |r'.lines| == Min(|r.lines| + 1, MaxLines)
    ensures r'.lines[|r'.lines| - 1] == Stored(ts, level, message)
    ensures |r.lines| < MaxLines ==> r'.lines[..|r.lines|] == r.lines
    ensures |r.lines| == MaxLines ==> r'.lines[..MaxLines - 1] == r.lines[1..]
  {
    var all := r.lines + [Stored(ts, level, message)];
    if |all| > MaxLines then Ring(all[1..]) else Ring(all)
  }

  /** `get_lines`: the entries in insertion order, oldest first; the ring
      itself is returned unchanged alongside. */
  function GetLines(r: Ring): (result: (seq<Entry>, Ring))
    ensures result.1 == r
    ensures |result.0| == |r.lines|
    ensures forall i :: 0 <= i < |result.0| ==> result.0[i] == r.lines[i]
  {
    (r.lines, r)
  }

  /** `clear`. */
  function Clear(r: Ring): (r': Ring)
    ensures Valid(r') && |r'.lines| == 0
  {
    Empty
  }

  /** A sequence of `add` calls, one per entry, in order. */
  function AddAll(r: Ring, calls: seq<Entry>): (r': Ring)
    requires Valid(r)
    ensures Valid(r')
    decreases |calls|
  {
    if |calls| == 0 then r
    else
      var e := calls[0];
      AddAll(Add(r, e.ts, e.level, e.message), calls[1..])
  }

  /** The entries the calls store, before any are dropped. */
  function StoredAll(calls: seq<Entry>): (r: seq<Entry>)
    ensures |r| == |calls|
    ensures forall i :: 0 <= i < |calls| ==> r[i] == Stored(calls[i].ts, calls[i].level, calls[i].message)
  {
    if |calls| == 0 then []
    else [Stored(calls[0].ts, calls[0].level, calls[0].message)] + StoredAll(calls[1..])
  }

  /** Keeping the last `n` twice is keeping the last `n` once. */
  lemma LastOfLast<T>(x: seq<T>, y: seq<T>, n: nat)
    ensures Last(Last(x, n) + y, n) == Last(x + y, n)
  {
    if |x| > n && |y| > 0 {
      var a := Last(x, n) + y;
      var b := x + y;
      assert a[|a| - n..] == b[|b| - n..] by {
        var d := |x| - n;
        forall j | |a| - n <= j < |a|
          ensures a[j] == b[j + d]
        {
          if j < n {
            assert a[j] == x[d + j];
          }
        }
      }
    }
  }

  lemma AppendAssoc<T>(a: seq<T>, b: seq<T>, c: seq<T>)
    ensures (a + b) + c == a + (b + c)
  {
  }

  /** `add` is keeping the last 300 of the old lines and the new entry. */
  lemma AddIsLast(r: Ring, ts: real, level: string, message: string)
    requires Valid(r)
    ensures Add(r, ts, level, message).lines == Last(r.lines + [Stored(ts, level, message)], MaxLines)
  {
  }

  /** Any run of calls leaves the ring holding the last 300 stored entries,
      oldest first: the ring is the tail of the insertion history. */
  lemma {:induction false} RingIsHistoryTail(r: Ring, calls: seq<Entry>)
    requires Valid(r)
    ensures AddAll(r, calls).lines == Last(r.lines + StoredAll(calls), MaxLines)
    decreases |calls|
  {
    if |calls| == 0 {
      assert r.lines + StoredAll(calls) == r.lines;
    } else {
      var e := calls[0];
      var s := Stored(e.ts, e.level, e.message);
      var rest := calls[1..];
      var r1 := Add(r, e.ts, e.level, e.message);
      var tail := StoredAll(rest);
      assert AddAll(r, calls) == AddAll(r1, rest);
      RingIsHistoryTail(r1, rest);
      assert AddAll(r1, rest).lines == Last(r1.lines + tail, MaxLines);
      AddIsLast(r, e.ts, e.level, e.message);
      assert r1.lines == Last(r.lines + [s], MaxLines);
      LastOfLast(r.lines + [s], tail, MaxLines);
      assert StoredAll(calls) == [s] + tail;
      AppendAssoc(r.lines, [s], tail);
    }
  }

  /** After `clear`, `get_lines` reports exactly the entries added since. */
  lemma ClearThenAdd(r: Ring, calls: seq<Entry>)
    requires |calls| <= MaxLines
    ensures GetLines(AddAll(Clear(r), calls)).0 == StoredAll(calls)
  {
    RingIsHistoryTail(Clear(r), calls);
    assert [] + StoredAll(calls) == StoredAll(calls);
  }

  /** On a full ring, `add` keeps the length at 300, drops the oldest entry
      and ends with the new one. */
  lemma FullRingDropsOldest(r: Ring, ts: real, level: string, message: string)
    requires |r.lines| == MaxLines
    ensures var r' := Add(r, ts, level, message);
      |r'.lines| == MaxLines && r'.lines[MaxLines - 1] == Stored(ts, level, message)
      && r'.lines[0] == r.lines[1]
  {
  }
}

// The parts of the heads-up display code that compute rather than draw
// (src/hud.cpp): the elapsed-time string and the choice of the current HUD
// layout.
module Hud {
  import opened Wrappers
  import opened CText
  import Format

  /** The number of HUD options; hud.h is not part of this model, the value is
      the length of the default tables. */
  const HUD_OPTIONS: nat := 53

  const DefaultNormalHud: seq<int> :=
    [0,0,1,0,0,0,0,0,1,0,1,0,0,0,0,1,0,0,2,0,0,0,0,2,0,2,1,2,0,0,0,2,0,2,0,2,0,1,0,0,0,0,2,0,2,1,0,0,1,1,0,0,0]
  const DefaultDebugHud: seq<int> :=
    [0,0,1,2,1,0,0,0,1,0,1,1,1,0,1,1,0,0,4,1,1,1,0,4,0,4,1,4,1,1,1,4,0,4,0,4,0,1,0,0,0,0,4,0,4,1,0,0,1,1,1,0,0]

  /** The HUD tables: the layouts for normal and debug mode and the one in use. */
  class HudTables {
    const normalHud: array<int>
    const debugHud: array<int>
    const currentHud: array<int>

    ghost predicate Valid()
    {
      normalHud.Length == HUD_OPTIONS && debugHud.Length == HUD_OPTIONS && currentHud.Length == HUD_OPTIONS &&
      normalHud != currentHud && debugHud != currentHud && normalHud != debugHud
    }

    constructor ()
      ensures Valid() && fresh(normalHud) && fresh(debugHud) && fresh(currentHud)
    {
      normalHud := new int[HUD_OPTIONS];
      debugHud := new int[HUD_OPTIONS];
      currentHud := new int[HUD_OPTIONS];
    }

    /** HudDefaults: both layouts are set to their default tables. */
    method HudDefaults()
      requires Valid()
      modifies normalHud, debugHud
      ensures normalHud[..] == DefaultNormalHud && debugHud[..] == DefaultDebugHud
    {
      Copy(normalHud, DefaultNormalHud);
      Copy(debugHud, DefaultDebugHud);
    }

    /** SetCurrentHud: the current layout becomes a copy of the debug layout in
        debug mode and of the normal layout otherwise; neither source changes. */
    method SetCurrentHud(debugMode: bool)
      requires Valid()
      modifies currentHud
      ensures currentHud[..] == if debugMode then debugHud[..] else normalHud[..]
    {
      if !debugMode {
        Copy(currentHud, normalHud[..]);
      } else {
        Copy(currentHud, debugHud[..]);
      }
    }
  }

  /** memcpy of a whole table. */
  method Copy(dst: array<int>, src: seq<int>)
    requires dst.Length == |src|
    modifies dst
    ensures dst[..] == src
  {
    var i := 0;
    while i < dst.Length
      invariant i <= dst.Length && dst[..i] == src[..i]
    {
      dst[i] := src[i];
      i := i + 1;
    }
  }

  // GetTimeString

  const YEAR_MS: nat := 31557600000
  const DAY_MS: nat := 86400000
  const HOUR_MS: nat := 3600000
  const MINUTE_MS: nat := 60000
  const SECOND_MS: nat := 1000

  /** C's a / b on ints: the quotient truncated toward zero. */
  function CDiv(a: int, b: int): int
    requires b > 0
  {
    if a >= 0 then a / b else -((-a) / b)
  }

  /** Truncating division and C's remainder put the number back together, and
      the remainder has the dividend's sign and is smaller than the divisor. */
  lemma CDivRem(a: int, b: int)
    requires b > 0
    ensures CDiv(a, b) * b + Format.CRem(a, b) == a
    ensures a >= 0 ==> 0 <= Format.CRem(a, b) < b && CDiv(a, b) >= 0
    ensures a < 0 ==> -b < Format.CRem(a, b) <= 0
  {
  }

  /** The conversion of an unsigned value to a 32-bit int: wrap-around modulo 2^32. */
  function Int32(x: nat): (r: int)
    ensures -0x8000_0000 <= r < 0x8000_0000
    ensures x < 0x8000_0000 ==> r == x
  {
    var m := x % 0x1_0000_0000;
    if m < 0x8000_0000 then m else m - 0x1_0000_0000
  }

  datatype TimeParts = TimeParts(years: int, days: int, hours: int, minutes: int, seconds: int, milliseconds: int)

  /** The number of milliseconds the parts stand for. */
  function Total(p: TimeParts): int
  {
    p.years * YEAR_MS + p.days * DAY_MS + p.hours * HOUR_MS + p.minutes * MINUTE_MS +
    p.seconds * SECOND_MS + p.milliseconds
  }

  /** "%i <unit>%s": the value and its unit, plural unless the value is 1. */
  function Unit(n: int, name: string): (r: string)
    requires |name| > 0 && name[|name| - 1] != 's'
    ensures |r| > |IntString(n)| + 1 && r[..|IntString(n)| + 1] == IntString(n) + " "
    ensures r[|r| - 1] == 's' <==> n != 1
  {
    var r := IntString(n) + " " + name + (if n == 1 then "" else "s");
    assert r[..|IntString(n)| + 1] == IntString(n) + " ";
    r
  }

  /** GetTimeString: splits currtime milliseconds into units, the coarsest
      being years for length 0, hours for length 1 and minutes for length 2,
      and writes them out; any other length writes nothing (None). For
      length 0 the time goes through unsigned 64-bit arithmetic and back. */
  method GetTimeString(currtime: int, length: int) returns (p: TimeParts, text: Option<string>)
    requires -0x8000_0000 <= currtime < 0x8000_0000
    ensures length != 0 ==> p.years == 0 && p.days == 0
    ensures length > 1 ==> p.hours == 0
    ensures length != 0 || currtime >= 0 ==> Total(p) == currtime
    ensures currtime >= 0 ==>
      0 <= p.milliseconds < 1000 && 0 <= p.seconds < 60 && p.minutes >= 0 &&
      (length <= 1 ==> p.minutes < 60 && p.hours >= 0) &&
      (length == 0 ==> p.hours < 24 && p.days >= 0 && p.years == 0)
    ensures -1000 < p.milliseconds < 1000 && -60 < p.seconds < 60
    ensures length == 1 ==> -60 < p.minutes < 60
    ensures text == (
      if length == 0 then
        Some(Unit(p.years, "year") + ", " + Unit(p.days, "day") + ", " + Unit(p.hours, "hour") + ", " +
             Unit(p.minutes, "minute") + ", " + Unit(p.seconds, "second") + ", " + Unit(p.milliseconds, "millisecond"))
      else if length == 1 then
        Some(Unit(p.hours, "hour") + ", " + Unit(p.minutes, "minute") + ", " + Unit(p.seconds, "second"))
      else if length == 2 then
        Some(Unit(p.minutes, "minute") + ", " + Unit(p.seconds, "second"))
      else None)
  {
    var t := currtime;
    var years, days, hours := 0, 0, 0;
    if length == 0 {
      var u: nat := if t < 0 then t + 0x1_0000_0000_0000_0000 else t;
      years := u / YEAR_MS;
      t := Int32(u % YEAR_MS);
      CDivRem(t, DAY_MS);
      days := CDiv(t, DAY_MS);
      t := Format.CRem(t, DAY_MS);
    }
    ghost var t1 := t;
    if length <= 1 {
      CDivRem(t, HOUR_MS);
      hours := CDiv(t, HOUR_MS);
      t := Format.CRem(t, HOUR_MS);
    }
    ghost var t2 := t;
    CDivRem(t, MINUTE_MS);
    var minutes := CDiv(t, MINUTE_MS);
    t := Format.CRem(t, MINUTE_MS);
    CDivRem(t, SECOND_MS);
    var seconds := CDiv(t, SECOND_MS);
    t := Format.CRem(t, SECOND_MS);
    var milliseconds := t;
    p := TimeParts(years, days, hours, minutes, seconds, milliseconds);
    assert t2 == minutes * MINUTE_MS + seconds * SECOND_MS + milliseconds;
    assert t1 == hours * HOUR_MS + t2;

    if length == 0 {
      text := Some(Unit(years, "year") + ", " + Unit(days, "day") + ", " + Unit(hours, "hour") + ", " +
                   Unit(minutes, "minute") + ", " + Unit(seconds, "second") + ", " + Unit(milliseconds, "millisecond"));
    } else if length == 1 {
      text := Some(Unit(hours, "hour") + ", " + Unit(minutes, "minute") + ", " + Unit(seconds, "second"));
    } else if length == 2 {
      text := Some(Unit(minutes, "minute") + ", " + Unit(seconds, "second"));
    } else {
      text := None;
    }
  }

  /** The string starts with the coarsest unit's value, which reads back with
      atoi (for a non-negative time, where every value is non-negative). */
  lemma UnitReadsBack(n: nat, name: string, rest: string)
    requires |name| > 0 && name[|name| - 1] != 's'
    ensures ScanInt(Unit(n, name) + rest, 0) == Some((n as int, |DecimalString(n)|))
  {
    var s := Unit(n, name) + rest;
    var d := DecimalString(n);
    assert s[..|d| + 1] == d + " ";
    assert s[0..|d|] == d;
    assert s[|d|] == ' ';
    ScanPrinted(s, 0, n);
  }
}

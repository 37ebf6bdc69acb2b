// The argument parsers of the old text console (src/legacy_console.cpp): numbers
// in decimal or hexadecimal, "x,y" coordinates and element names. C strings are
// modelled as the characters before their terminating NUL.
module LegacyConsole {
  import opened Wrappers
  import opened Defines
  import Format
  import opened CText

  /** sscanf(txt, "%d,%d", &nx, &ny) == 2: the two numbers, or None. */
  function ScanCoords(s: string): Option<(int, int)>
  {
    match ScanInt(s, 0)
    case None => None
    case Some(p) =>
      if p.1 < |s| && s[p.1] == ',' then
        match ScanInt(s, p.1 + 1)
        case None => None
        case Some(q) => Some((p.0, q.0))
      else None
  }

  /** Coordinates printed as "x,y" are read back. */
  lemma CoordsRoundTrip(x: nat, y: nat)
    ensures ScanCoords(DecimalString(x) + "," + DecimalString(y)) == Some((x as int, y as int))
  {
    var dx, dy := DecimalString(x), DecimalString(y);
    var s := dx + "," + dy;
    ScanBeforeComma(x, dy);
    ScanAfterComma(dx, y);
    CoordsAfterComma(s, x, |dx|, y);
  }

  /** The first number, up to the comma. */
  lemma ScanBeforeComma(x: nat, dy: string)
    ensures ScanInt(DecimalString(x) + "," + dy, 0) == Some((x as int, |DecimalString(x)|))
    ensures (DecimalString(x) + "," + dy)[|DecimalString(x)|] == ','
  {
    var dx := DecimalString(x);
    var s := dx + "," + dy;
    assert s[0..|dx|] == dx;
    assert s[|dx|] == ',';
    ScanPrinted(s, 0, x);
  }

  /** The second number, after the comma, up to the end. */
  lemma ScanAfterComma(dx: string, y: nat)
    ensures var s := dx + "," + DecimalString(y);
      ScanInt(s, |dx| + 1).Some? && ScanInt(s, |dx| + 1).value.0 == y
  {
    var dy := DecimalString(y);
    var s := dx + "," + dy;
    var k := |dx| + 1;
    assert s[k..k + |dy|] == dy;
    ScanPrinted(s, k, y);
  }

  /** The two scans ScanCoords combines. */
  lemma CoordsAfterComma(s: string, x: int, e: nat, y: int)
    requires e < |s| && ScanInt(s, 0) == Some((x, e)) && s[e] == ','
    requires ScanInt(s, e + 1).Some? && ScanInt(s, e + 1).value.0 == y
    ensures ScanCoords(s) == Some((x, y))
  {
  }

  /** console_parse_coords: "x,y" with x in [0, XRES) and y in [0, YRES) is
      written to the outputs; anything else leaves them as they were and
      reports "Invalid coordinates". */
  method ParseCoords(txt: string, x0: int, y0: int, err0: string) returns (ok: bool, x: int, y: int, err: string)
    ensures ok <==> ScanCoords(txt).Some? && InArea(ScanCoords(txt).value)
    ensures ok ==> (x, y) == ScanCoords(txt).value && err == err0
    ensures !ok ==> x == x0 && y == y0 && err == "Invalid coordinates"
  {
    var c := ScanCoords(txt);
    if c.None? || c.value.0 < 0 || c.value.0 >= XRES || c.value.1 < 0 || c.value.1 >= YRES {
      return false, x0, y0, "Invalid coordinates";
    }
    ok, x, y, err := true, c.value.0, c.value.1, err0;
  }

  predicate InArea(p: (int, int))
  {
    0 <= p.0 < XRES && 0 <= p.1 < YRES
  }

  /** Every point of the simulation area, printed as "x,y", is accepted. */
  method ParsePrintedCoords(x: nat, y: nat) returns (ok: bool, rx: int, ry: int)
    requires x < XRES && y < YRES
    ensures ok && rx == x && ry == y
  {
    CoordsRoundTrip(x, y);
    var err;
    ok, rx, ry, err := ParseCoords(DecimalString(x) + "," + DecimalString(y), -1, -1, "");
  }

  // console_parse_hex

  /** The base and the first digit's index: '#' and then "0x" each select
      base 16. */
  function HexPrefix(txt: string): (p: (nat, nat))
    ensures p.0 == 10 || p.0 == 16
    ensures p.1 <= |txt|
  {
    var (b, s) := if |txt| > 0 && txt[0] == '#' then (16, 1) else (10, 0);
    if s + 1 < |txt| && txt[s] == '0' && txt[s + 1] == 'x' then (16, s + 2) else (b, s)
  }

  /** The value of c as a digit in base b, or -1. Decimal digits are digits in
      either base; letters only in base 16, in either case. */
  function DigitOf(b: nat, c: char): int
  {
    if '0' <= c <= '9' then c as int - '0' as int
    else if b == 16 && 'a' <= c <= 'f' then c as int - 'a' as int + 10
    else if b == 16 && 'A' <= c <= 'F' then c as int - 'A' as int + 10
    else -1
  }

  /** The loop of console_parse_hex: each character first multiplies the value
      by the base, then adds its digit; a character that is no digit stops it
      with false. */
  function Accumulate(v: int, b: nat, s: string): (bool, int)
    decreases |s|
  {
    if s == [] then (true, v)
    else if DigitOf(b, s[0]) < 0 then (false, v * b)
    else Accumulate(v * b + DigitOf(b, s[0]), b, s[1..])
  }

  /** console_parse_hex: parses txt onto the caller's value val; on an invalid
      digit it returns false and reports "Invalid number" (base 10) or "Invalid
      hexadecimal number" (base 16). */
  method ParseHex(txt: string, val: int, err0: string) returns (ok: bool, v: int, err: string)
    ensures var (b, s) := HexPrefix(txt);
      (ok, v) == Accumulate(val, b, txt[s..]) &&
      err == if ok then err0 else if b == 10 then "Invalid number" else "Invalid hexadecimal number"
  {
    var base := 10;
    var i := 0;
    if |txt| > 0 && txt[0] == '#' {
      i := 1;
      base := 16;
    }
    if i + 1 < |txt| && txt[i] == '0' && txt[i + 1] == 'x' {
      i := i + 2;
      base := 16;
    }
    v := val;
    while i < |txt|
      invariant (base, 0) == (HexPrefix(txt).0, 0) && HexPrefix(txt).1 <= i <= |txt|
      invariant Accumulate(v, base, txt[i..]) == Accumulate(val, base, txt[HexPrefix(txt).1..])
    {
      var c := txt[i];
      v := v * base;
      var d := DigitOf(base, c);
      if d < 0 {
        err := if base == 10 then "Invalid number" else "Invalid hexadecimal number";
        return false, v, err;
      }
      v := v + d;
      assert txt[i..][1..] == txt[i + 1..];
      i := i + 1;
    }
    ok, err := true, err0;
  }

  function Power(b: nat, n: nat): nat
  {
    if n == 0 then 1 else b * Power(b, n - 1)
  }

  /** The positional value of a string of digits, most significant first. */
  function Value(b: nat, s: string): int
  {
    if s == [] then 0 else DigitOf(b, s[0]) * Power(b, |s| - 1) + Value(b, s[1..])
  }

  /** The parse succeeds exactly when every character is a digit of the base, and
      then the digits are added to val shifted left by their number: the result
      accumulates onto val rather than replacing it. */
  lemma {:induction false} AccumulateIsPositional(v: int, b: nat, s: string)
    decreases |s|
    ensures Accumulate(v, b, s).0 <==> forall i :: 0 <= i < |s| ==> DigitOf(b, s[i]) >= 0
    ensures Accumulate(v, b, s).0 ==> Accumulate(v, b, s).1 == v * Power(b, |s|) + Value(b, s)
  {
    if s != [] && DigitOf(b, s[0]) >= 0 {
      var d := DigitOf(b, s[0]);
      var n := |s| - 1;
      AccumulateIsPositional(v * b + d, b, s[1..]);
      assert forall i :: 1 <= i < |s| ==> s[i] == s[1..][i - 1];
      assert Accumulate(v, b, s) == Accumulate(v * b + d, b, s[1..]);
      assert Value(b, s) == d * Power(b, n) + Value(b, s[1..]);
      ShiftDigit(v, b, d, n);
    }
  }

  lemma ShiftDigit(v: int, b: nat, d: int, n: nat)
    ensures (v * b + d) * Power(b, n) == v * Power(b, n + 1) + d * Power(b, n)
  {
    calc {
      (v * b + d) * Power(b, n);
      v * (b * Power(b, n)) + d * Power(b, n);
    }
  }

  /** Hexadecimal digits are read the same in either case. */
  lemma {:induction false} HexCaseInsensitive(v: int, s: string)
    ensures Accumulate(v, 16, s) == Accumulate(v, 16, Format.ToLower(s))
    decreases |s|
  {
    if s != [] {
      assert DigitOf(16, s[0]) == DigitOf(16, Format.LowerChar(s[0]));
      assert Format.ToLower(s)[1..] == Format.ToLower(s[1..]);
      HexCaseInsensitive(v * 16 + DigitOf(16, s[0]), s[1..]);
    }
  }

  // console_parse_type

  /** An entry of the element table: its name and whether it is enabled. */
  datatype Element = Element(name: string, enabled: bool)

  /** The ids of the elements with alternative names. */
  datatype AliasIds = AliasIds(plex: int, c5: int)

  /** strcasecmp(a, b) == 0. */
  predicate SameName(a: string, b: string)
  {
    Format.ToLower(a) == Format.ToLower(b)
  }

  /** The first enabled element from j on whose name matches txt, or -1. */
  function FirstNamed(elements: seq<Element>, txt: string, j: nat): (k: int)
    requires |elements| == PT_NUM && j <= PT_NUM
    ensures k == -1 || j <= k < PT_NUM
    decreases PT_NUM - j
  {
    if j == PT_NUM then -1
    else if SameName(txt, elements[j].name) && elements[j].enabled then j
    else FirstNamed(elements, txt, j + 1)
  }

  /** FirstNamed finds a match exactly when there is one, and it is the first. */
  lemma {:induction false} FirstNamedIsFirst(elements: seq<Element>, txt: string, j: nat)
    requires |elements| == PT_NUM && j <= PT_NUM
    ensures var k := FirstNamed(elements, txt, j);
      k == -1 <==> forall m :: j <= m < PT_NUM ==> !(SameName(txt, elements[m].name) && elements[m].enabled)
    ensures var k := FirstNamed(elements, txt, j);
      k >= 0 ==> (SameName(txt, elements[k].name) && elements[k].enabled &&
        forall m :: j <= m < k ==> !(SameName(txt, elements[m].name) && elements[m].enabled))
    decreases PT_NUM - j
  {
    if j < PT_NUM && !(SameName(txt, elements[j].name) && elements[j].enabled) {
      FirstNamedIsFirst(elements, txt, j + 1);
    }
  }

  /** The names console_parse_type treats specially. */
  const C4_NAME := "C4"
  const C5_NAME := "C5"
  const NONE_NAME := "NONE"
  const EXPL_NAME := "EXPL"
  const ZERO_NAME := "0"

  /** The element console_parse_type picks for txt, or None. */
  /** The number console_parse_type reads from txt before looking at the
      names: an alias's element, the empty element for "NONE", or atoi. */
  function Reading(txt: string, alias: AliasIds): int
  {
    if SameName(txt, C4_NAME) then alias.plex
    else if SameName(txt, C5_NAME) then alias.c5
    else if SameName(txt, NONE_NAME) then PT_NONE
    else Atoi(txt)
  }

  function TypeOf(txt: string, elements: seq<Element>, alias: AliasIds, explUnlocked: bool): Option<int>
    requires |elements| == PT_NUM
  {
    var i := Reading(txt, alias);
    if SameName(txt, EXPL_NAME) && !explUnlocked then None
    else if FirstNamed(elements, txt, 1) >= 0 then Some(FirstNamed(elements, txt, 1))
    else if (0 < i < PT_NUM && elements[i].enabled) || SameName(txt, NONE_NAME) || SameName(txt, ZERO_NAME) then Some(i)
    else None
  }

  /** The name loop of console_parse_type: the first enabled element from 1 on
      whose name matches, or -1. */
  method FindNamed(txt: string, elements: seq<Element>) returns (k: int)
    requires |elements| == PT_NUM
    ensures k == FirstNamed(elements, txt, 1)
  {
    var j := 1;
    while j < PT_NUM
      invariant 1 <= j <= PT_NUM && FirstNamed(elements, txt, 1) == FirstNamed(elements, txt, j)
    {
      if SameName(txt, elements[j].name) && elements[j].enabled {
        return j;
      }
      j := j + 1;
    }
    return -1;
  }

  /** The alias chain at the start of console_parse_type: atoi's value,
      replaced for an alias or "NONE"; "EXPL" while locked is refused. */
  method ReadAlias(txt: string, alias: AliasIds, explUnlocked: bool) returns (i: int, refused: bool)
    ensures refused == (SameName(txt, EXPL_NAME) && !explUnlocked)
    ensures !refused ==> i == Reading(txt, alias)
  {
    i := Atoi(txt);
    refused := false;
    if SameName(txt, C4_NAME) {
      i := alias.plex;
    } else if SameName(txt, C5_NAME) {
      i := alias.c5;
    } else if SameName(txt, NONE_NAME) {
      i := PT_NONE;
    } else if SameName(txt, EXPL_NAME) && !explUnlocked {
      refused := true;
    }
  }

  /** console_parse_type: the element is written only on success; the error is
      cleared on success and set to "Particle type not recognized" otherwise. */
  method ParseType(txt: string, elements: seq<Element>, alias: AliasIds, explUnlocked: bool, element0: int)
    returns (ok: bool, element: int, err: string)
    requires |elements| == PT_NUM
    ensures ok <==> TypeOf(txt, elements, alias, explUnlocked).Some?
    ensures ok ==> element == TypeOf(txt, elements, alias, explUnlocked).value && err == ""
    ensures !ok ==> element == element0 && err == "Particle type not recognized"
  {
    var i, refused := ReadAlias(txt, alias, explUnlocked);
    if refused {
      return false, element0, "Particle type not recognized";
    }
    var j := FindNamed(txt, elements);
    if j >= 0 {
      return true, j, "";
    }
    if (i > 0 && i < PT_NUM && elements[i].enabled) || SameName(txt, NONE_NAME) || SameName(txt, ZERO_NAME) {
      return true, i, "";
    }
    return false, element0, "Particle type not recognized";
  }

  /** What console_parse_type accepts is an enabled element, one of the
      aliases, or the empty element; a name matching an enabled element wins
      over every other reading, and "EXPL" is refused while it is locked. */
  lemma TypeOfValid(txt: string, elements: seq<Element>, alias: AliasIds, explUnlocked: bool)
    requires |elements| == PT_NUM
    ensures var r := TypeOf(txt, elements, alias, explUnlocked);
      r.Some? ==> r.value == PT_NONE || (0 < r.value < PT_NUM && elements[r.value].enabled)
    ensures var r := TypeOf(txt, elements, alias, explUnlocked);
      !(SameName(txt, EXPL_NAME) && !explUnlocked) && (exists m :: 1 <= m < PT_NUM && SameName(txt, elements[m].name) && elements[m].enabled) ==>
        r.Some? && SameName(txt, elements[r.value].name) && elements[r.value].enabled &&
        forall m :: 1 <= m < r.value ==> !(SameName(txt, elements[m].name) && elements[m].enabled)
    ensures SameName(txt, EXPL_NAME) && !explUnlocked ==> TypeOf(txt, elements, alias, explUnlocked).None?
  {
    FirstNamedIsFirst(elements, txt, 1);
    if SameName(txt, ZERO_NAME) {
      assert Format.ToLower(txt) == "0";
      assert txt == "0" by {
        assert |txt| == 1 && Format.LowerChar(txt[0]) == '0';
      }
      SkipAt(txt, 0, 0);
      DigitsEndAt(txt, 0, 1);
      assert txt[0..1] == "0";
      assert Decimal("0") == 10 * Decimal([]) + 0;
    }
  }
}

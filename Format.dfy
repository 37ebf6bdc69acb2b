// String and byte helpers of src/common/Format.cpp: ASCII case mapping, URL
// percent-encoding, CleanString, the row padding of a BMP image and the CRC-32
// of section 5.5 / Annex D of the PNG specification (ISO/IEC 15948).
module Format {
  import opened Bits

  /** A string whose characters are all bytes, as a std::string holds them. */
  predicate Bytes(s: string) { forall i :: 0 <= i < |s| ==> s[i] as int < 256 }

  predicate IsDigit(c: char) { '0' <= c <= '9' }
  predicate IsUpper(c: char) { 'A' <= c <= 'Z' }
  predicate IsLower(c: char) { 'a' <= c <= 'z' }
  predicate IsAlnum(c: char) { IsDigit(c) || IsUpper(c) || IsLower(c) }

  // ----- ToLower / ToUpper -----

  /** ::tolower in the "C" locale. */
  function LowerChar(c: char): char
  {
    if IsUpper(c) then (c as int + 32) as char else c
  }

  /** ::toupper in the "C" locale. */
  function UpperChar(c: char): char
  {
    if IsLower(c) then (c as int - 32) as char else c
  }

  /** Format::ToLower: every character mapped through tolower. */
  function ToLower(t: string): (r: string)
    ensures |r| == |t|
    ensures forall i :: 0 <= i < |t| ==> !IsUpper(r[i]) && (IsUpper(t[i]) || r[i] == t[i])
    ensures forall i :: 0 <= i < |t| && IsUpper(t[i]) ==> IsLower(r[i]) && r[i] as int == t[i] as int + 32
  {
    seq(|t|, i requires 0 <= i < |t| => LowerChar(t[i]))
  }

  /** Format::ToUpper: every character mapped through toupper. */
  function ToUpper(t: string): (r: string)
    ensures |r| == |t|
    ensures forall i :: 0 <= i < |t| ==> !IsLower(r[i]) && (IsLower(t[i]) || r[i] == t[i])
    ensures forall i :: 0 <= i < |t| && IsLower(t[i]) ==> IsUpper(r[i]) && r[i] as int == t[i] as int - 32
  {
    seq(|t|, i requires 0 <= i < |t| => UpperChar(t[i]))
  }

  lemma ToLowerIdempotent(t: string)
    ensures ToLower(ToLower(t)) == ToLower(t)
  {
  }

  lemma ToUpperIdempotent(t: string)
    ensures ToUpper(ToUpper(t)) == ToUpper(t)
  {
  }

  /** Case mapping forgets only the case: upper-casing the lower-cased text is
      upper-casing the text. */
  lemma UpperOfLower(t: string)
    ensures ToUpper(ToLower(t)) == ToUpper(t)
  {
  }

  // ----- URLEncode -----

  /** The upper-case hexadecimal digit of v. */
  function HexDigit(v: int): char
    requires 0 <= v < 16
  {
    "0123456789ABCDEF"[v]
  }

  predicate IsHexDigit(c: char) { IsDigit(c) || 'A' <= c <= 'F' }

  function HexValue(c: char): int
  {
    if IsDigit(c) then c as int - '0' as int
    else if 'A' <= c <= 'F' then c as int - 'A' as int + 10
    else 0
  }

  /** How URLEncode writes one byte: an ASCII letter or digit as itself, any
      other byte as '%' and its two upper-case hexadecimal digits. */
  function EncodeByte(c: char): string
    requires c as int < 256
  {
    if IsAlnum(c) then [c] else ['%', HexDigit(c as int / 16), HexDigit(c as int % 16)]
  }

  /** The URL encoding of a C string: the bytes up to the first NUL (or the end),
      each encoded. */
  function Encoded(s: string): string
    requires Bytes(s)
  {
    if |s| == 0 || s[0] == '\0' then [] else EncodeByte(s[0]) + Encoded(s[1..])
  }

  /** Format::URLEncode. */
  method URLEncode(source: string) returns (r: string)
    requires Bytes(source)
    ensures r == Encoded(source)
  {
    r := [];
    var i := 0;
    while i < |source| && source[i] != '\0'
      invariant 0 <= i <= |source| && Bytes(source[i..])
      invariant Encoded(source) == r + Encoded(source[i..])
    {
      assert source[i..][1..] == source[i + 1..];
      r := r + EncodeByte(source[i]);
      i := i + 1;
    }
  }

  /** Percent-decoding, the inverse URLEncode is written against. */
  function Decoded(e: string): string
  {
    if |e| >= 3 && e[0] == '%' then
      [(HexValue(e[1]) * 16 + HexValue(e[2])) as char] + Decoded(e[3..])
    else if |e| > 0 then [e[0]] + Decoded(e[1..])
    else []
  }

  /** Decoding undoes the encoding of one byte. */
  lemma DecodeByte(c: char, rest: string)
    requires c as int < 256
    ensures Decoded(EncodeByte(c) + rest) == [c] + Decoded(rest)
  {
    var e := EncodeByte(c) + rest;
    if IsAlnum(c) {
      assert e[1..] == rest;
    } else {
      var hi, lo := c as int / 16, c as int % 16;
      assert e == ['%', HexDigit(hi), HexDigit(lo)] + rest;
      HexRoundTrip(hi);
      HexRoundTrip(lo);
      DecodeEscape(HexDigit(hi), HexDigit(lo), rest);
      assert (hi * 16 + lo) as char == c;
    }
  }

  /** Reading a digit back gives its value. */
  lemma HexRoundTrip(v: int)
    requires 0 <= v < 16
    ensures HexValue(HexDigit(v)) == v
  {
  }

  /** Decoding an escape and what follows. */
  lemma DecodeEscape(h: char, l: char, rest: string)
    ensures Decoded(['%', h, l] + rest) == [(HexValue(h) * 16 + HexValue(l)) as char] + Decoded(rest)
  {
    assert (['%', h, l] + rest)[3..] == rest;
  }

  /** The encoding of a byte string without NUL decodes back to it. */
  lemma {:induction false} URLRoundTrip(s: string)
    requires Bytes(s) && forall i :: 0 <= i < |s| ==> s[i] != '\0'
    ensures Decoded(Encoded(s)) == s
  {
    if |s| > 0 {
      URLRoundTrip(s[1..]);
      DecodeByte(s[0], Encoded(s[1..]));
      assert s == [s[0]] + s[1..];
    }
  }

  /** The encoding uses only letters, digits and '%'. */
  lemma {:induction false} EncodedIsSafe(s: string)
    requires Bytes(s)
    ensures forall i :: 0 <= i < |Encoded(s)| ==> IsAlnum(Encoded(s)[i]) || Encoded(s)[i] == '%'
  {
    if |s| > 0 && s[0] != '\0' {
      EncodedIsSafe(s[1..]);
    }
  }

  /** Each byte takes at most three characters. */
  lemma {:induction false} EncodedLength(s: string)
    requires Bytes(s)
    ensures |Encoded(s)| <= 3 * |s|
  {
    if |s| > 0 && s[0] != '\0' {
      EncodedLength(s[1..]);
    }
  }

  /** The encoding ends at the first NUL byte. */
  lemma {:induction false} EncodedStopsAtNul(s: string, t: string)
    requires Bytes(s) && Bytes(t) && forall i :: 0 <= i < |s| ==> s[i] != '\0'
    ensures Encoded(s + ['\0'] + t) == Encoded(s)
  {
    if |s| > 0 {
      assert (s + ['\0'] + t)[1..] == s[1..] + ['\0'] + t;
      EncodedStopsAtNul(s[1..], t);
    }
  }

  // ----- CleanString -----

  // The control characters CleanString knows: backspace (0x08) and 0x0F start
  // colour codes, 0x0E ends one, 0x01 and 0x02 mark the cursor.
  const Backspace: char := 8 as char
  const ShiftOut: char := 14 as char
  const ShiftIn: char := 15 as char
  const Cursor1: char := 1 as char
  const Cursor2: char := 2 as char

  datatype CleanFlags = CleanFlags(ascii: bool, color: bool, newlines: bool, numeric: bool)

  /** s without its first n characters (empty when n runs past the end). */
  function Drop(s: string, n: nat): string
  {
    if n <= |s| then s[n..] else []
  }

  /** s's first n characters (all of s when n runs past the end). */
  function Take(s: string, n: nat): string
  {
    if n <= |s| then s[..n] else s
  }

  /** What CleanString makes of a string, read from the front. Backspace starts a
      two-character colour code and ShiftIn a four-character one: both are
      erased with color, and otherwise skipped over unread. ShiftOut is erased with
      color. Cursor1, Cursor2 and '\r' are always erased; '\n' becomes a space with
      newlines. Any other character is erased with numeric unless it is a digit,
      and with ascii unless it lies in ' '..'~'. */
  function Clean(s: string, f: CleanFlags): string
    decreases |s|
  {
    if |s| == 0 then []
    else
      var c := s[0];
      if c == Backspace then
        (if f.color then [] else Take(s, 2)) + Clean(Drop(s, 2), f)
      else if c == ShiftOut then
        (if f.color then [] else [c]) + Clean(s[1..], f)
      else if c == ShiftIn then
        (if f.color then [] else Take(s, 4)) + Clean(Drop(s, 4), f)
      else if c == Cursor1 || c == Cursor2 || c == '\r' then
        Clean(s[1..], f)
      else if c == '\n' then
        [if f.newlines then ' ' else '\n'] + Clean(s[1..], f)
      else if f.numeric && !IsDigit(c) then Clean(s[1..], f)
      else if f.ascii && !(' ' <= c <= '~') then Clean(s[1..], f)
      else [c] + Clean(s[1..], f)
  }

  /** The cleaned prefix r[..i] followed by the clean of what is left. */
  function Progress(r: string, i: nat, f: CleanFlags): string
  {
    Take(r, i) + Clean(Drop(r, i), f)
  }

  predicate Other(c: char)
  {
    c !in {Backspace, ShiftOut, ShiftIn, Cursor1, Cursor2, '\r', '\n'}
  }

  /** c heads n characters that CleanString erases. */
  predicate Erases(c: char, n: nat, f: CleanFlags)
  {
    (c == Backspace && f.color && n == 2) || (c == ShiftOut && f.color && n == 1) ||
    (c == ShiftIn && f.color && n == 4) || ((c == Cursor1 || c == Cursor2 || c == '\r') && n == 1) ||
    (Other(c) && f.numeric && !IsDigit(c) && n == 1) ||
    (Other(c) && f.ascii && !(' ' <= c <= '~') && n == 1)
  }

  /** c heads n characters that CleanString steps over unchanged. */
  predicate Skips(c: char, n: nat, f: CleanFlags)
  {
    (c == Backspace && !f.color && n == 2) || (c == ShiftOut && !f.color && n == 1) ||
    (c == ShiftIn && !f.color && n == 4) ||
    (Other(c) && !(f.numeric && !IsDigit(c)) && !(f.ascii && !(' ' <= c <= '~')) && n == 1)
  }

  /** A string headed by n characters that CleanString erases cleans to what
      follows them. */
  lemma CleanErases(s: string, n: nat, f: CleanFlags)
    requires |s| > 0 && Erases(s[0], n, f)
    ensures Clean(s, f) == Clean(Drop(s, n), f)
  {
    if n == 1 {
      assert Drop(s, 1) == s[1..];
    }
  }

  /** A string headed by n characters that CleanString steps over cleans to
      them followed by the clean of the rest. */
  lemma CleanSkips(s: string, n: nat, f: CleanFlags)
    requires |s| > 0 && Skips(s[0], n, f)
    ensures Clean(s, f) == Take(s, n) + Clean(Drop(s, n), f)
  {
    if n == 1 {
      assert Drop(s, 1) == s[1..];
      assert Take(s, 1) == [s[0]];
    }
  }

  /** Erasing the n characters at i that Clean drops keeps the progress. */
  lemma EraseStep(r: string, i: nat, n: nat, f: CleanFlags)
    requires i < |r| && Erases(r[i], n, f)
    ensures Progress(r[..i] + Drop(r, i + n), i, f) == Progress(r, i, f)
  {
    var r' := r[..i] + Drop(r, i + n);
    var s := Drop(r, i);
    assert s[0] == r[i];
    CleanErases(s, n, f);
    assert Drop(s, n) == Drop(r, i + n);
    assert Take(r', i) == r[..i] == Take(r, i);
    assert Drop(r', i) == Drop(r, i + n);
  }

  /** Taking i + n characters is taking i and then n of the rest; dropping
      i + n is dropping i and then n. */
  lemma TakeDropSplit(r: string, i: nat, n: nat)
    requires i <= |r|
    ensures Take(r, i + n) == Take(r, i) + Take(Drop(r, i), n)
    ensures Drop(r, i + n) == Drop(Drop(r, i), n)
  {
    if i + n <= |r| {
      assert r[..i + n] == r[..i] + r[i..][..n];
      assert r[i + n..] == r[i..][n..];
    }
  }

  /** Stepping over the n characters at i that Clean keeps as they are keeps the
      progress. */
  lemma KeepStep(r: string, i: nat, n: nat, f: CleanFlags)
    requires i < |r| && Skips(r[i], n, f)
    ensures Progress(r, i + n, f) == Progress(r, i, f)
  {
    var s := Drop(r, i);
    assert s[0] == r[i];
    CleanSkips(s, n, f);
    TakeDropSplit(r, i, n);
  }

  /** Stepping over a newline, turned into a space with newlines, keeps the
      progress. */
  lemma NewlineStep(r: string, i: nat, f: CleanFlags)
    requires i < |r| && r[i] == '\n'
    ensures Progress(if f.newlines then r[i := ' '] else r, i + 1, f) == Progress(r, i, f)
  {
    var r' := if f.newlines then r[i := ' '] else r;
    assert Drop(r, i)[1..] == Drop(r, i + 1) == Drop(r', i + 1);
    assert Take(r', i + 1) == Take(r, i) + [if f.newlines then ' ' else '\n'];
  }

  /** Erase the n characters at i. */
  method EraseAt(r: string, i: nat, n: nat, f: CleanFlags) returns (r': string, i': nat)
    requires i < |r| && Erases(r[i], n, f)
    ensures Progress(r', i', f) == Progress(r, i, f)
    ensures |r'| - i' < |r| - i
  {
    EraseStep(r, i, n, f);
    r', i' := r[..i] + Drop(r, i + n), i;
  }

  /** Step over the n characters at i. */
  method SkipAt(r: string, i: nat, n: nat, f: CleanFlags) returns (r': string, i': nat)
    requires i < |r| && Skips(r[i], n, f)
    ensures Progress(r', i', f) == Progress(r, i, f)
    ensures |r'| - i' < |r| - i
  {
    KeepStep(r, i, n, f);
    r', i' := r, i + n;
  }

  /** One pass of CleanString's loop at index i: the switch decides how many
      characters to erase at i, or to step over. */
  method CleanStep(r: string, i: nat, f: CleanFlags) returns (r': string, i': nat)
    requires i < |r|
    ensures Progress(r', i', f) == Progress(r, i, f)
    ensures |r'| - i' < |r| - i
  {
    var c := r[i];
    if c == Backspace {
      if f.color { r', i' := EraseAt(r, i, 2, f); } else { r', i' := SkipAt(r, i, 2, f); }
    } else if c == ShiftOut {
      if f.color { r', i' := EraseAt(r, i, 1, f); } else { r', i' := SkipAt(r, i, 1, f); }
    } else if c == ShiftIn {
      if f.color { r', i' := EraseAt(r, i, 4, f); } else { r', i' := SkipAt(r, i, 4, f); }
    } else if c == Cursor1 || c == Cursor2 || c == '\r' {
      r', i' := EraseAt(r, i, 1, f);
    } else if c == '\n' {
      NewlineStep(r, i, f);
      r', i' := if f.newlines then r[i := ' '] else r, i + 1;
    } else if f.numeric && !IsDigit(c) {
      r', i' := EraseAt(r, i, 1, f);
    } else if f.ascii && !(' ' <= c <= '~') {
      r', i' := EraseAt(r, i, 1, f);
    } else {
      r', i' := SkipAt(r, i, 1, f);
    }
  }

  /** Format::CleanString: erases and rewrites characters in place, scanning from
      the front; an erase leaves the index on the character that moved into its
      place. */
  method CleanString(dirty: string, f: CleanFlags) returns (r: string)
    ensures r == Clean(dirty, f)
  {
    r := dirty;
    var i: nat := 0;
    assert Progress(r, 0, f) == Clean(dirty, f);
    while i < |r|
      invariant Progress(r, i, f) == Clean(dirty, f)
      decreases |r| - i
    {
      r, i := CleanStep(r, i, f);
    }
    assert Take(r, i) == r && Drop(r, i) == [];
  }

  /** CleanString never lengthens a string. */
  lemma {:induction false} CleanShortens(s: string, f: CleanFlags)
    ensures |Clean(s, f)| <= |s|
    decreases |s|
  {
    if |s| > 0 {
      CleanShortens(s[1..], f);
      CleanShortens(Drop(s, 2), f);
      CleanShortens(Drop(s, 4), f);
    }
  }

  /** With color, every character left is one the flags accept: no control code
      of the cursor or of colour markup, no '\r', no '\n' with newlines, only
      digits (or the '\n' / space a newline became) with numeric, and only
      ' '..'~' (or '\n') with ascii. */
  lemma {:induction false} CleanWithColor(s: string, f: CleanFlags)
    requires f.color
    ensures forall i :: 0 <= i < |Clean(s, f)| ==> Accepted(Clean(s, f)[i], f)
    decreases |s|
  {
    if |s| > 0 {
      CleanWithColor(s[1..], f);
      CleanWithColor(Drop(s, 2), f);
      CleanWithColor(Drop(s, 4), f);
    }
  }

  /** A character CleanString with color leaves in place. */
  predicate Accepted(c: char, f: CleanFlags)
  {
    c !in {Cursor1, Cursor2, '\r', Backspace, ShiftOut, ShiftIn} &&
    (if c == '\n' || (f.newlines && c == ' ') then c == (if f.newlines then ' ' else '\n')
     else (!f.numeric || IsDigit(c)) && (!f.ascii || ' ' <= c <= '~'))
  }

  /** A string of printable characters (of digits, with numeric) and no control
      codes comes out of CleanString unchanged, whatever the other flags. */
  lemma {:induction false} CleanKeepsPlain(s: string, f: CleanFlags)
    requires forall i :: 0 <= i < |s| ==> ' ' <= s[i] <= '~' && (!f.numeric || IsDigit(s[i]))
    ensures Clean(s, f) == s
    decreases |s|
  {
    if |s| > 0 {
      CleanKeepsPlain(s[1..], f);
    }
  }

  // ----- VideoBufferToBMP -----

  /** C's % on int: the remainder takes the sign of the dividend. */
  function CRem(a: int, b: int): int
    requires b > 0
  {
    if a >= 0 then a % b else -((-a) % b)
  }

  /** The padding VideoBufferToBMP puts after each row of width pixels of three
      bytes each. */
  function BmpPadding(width: int): int
  {
    3 - CRem(width * 3 + 3, 4)
  }

  /** For an image of any size, the padding is 0..3 bytes and pads each row to a
      multiple of four bytes, as the BMP format requires. */
  lemma BmpPaddingAligns(width: nat)
    ensures 0 <= BmpPadding(width) <= 3 && (width * 3 + BmpPadding(width)) % 4 == 0
  {
    var row := width * 3 + 3;
    var q, r := row / 4, row % 4;
    assert BmpPadding(width) == 3 - r;
    assert width * 3 + (3 - r) == 4 * q;
  }

  // ----- CRC-32 -----

  /** The reflected CRC-32 polynomial. */
  const Poly: nat := 0xEDB88320

  /** One step of the bit-at-a-time CRC: shift right, and xor in the polynomial
      when the bit shifted out was set. */
  function CrcStep(c: nat): nat
  {
    if c % 2 == 1 then Xor(Poly, c / 2) else c / 2
  }

  /** k steps of the bit-at-a-time CRC. */
  function CrcSteps(c: nat, k: nat): nat
  {
    if k == 0 then c else CrcStep(CrcSteps(c, k - 1))
  }

  /** Entry n of the table make_crc_table computes: eight steps from n. */
  function TableEntry(n: byte): nat
  {
    CrcSteps(n, 8)
  }

  /** The running CRC update_crc computes, byte by byte through the table. */
  function UpdateCrc(c: nat, buf: seq<byte>): nat
    decreases |buf|
  {
    if |buf| == 0 then c
    else UpdateCrc(Xor(TableEntry(Xor(c, buf[0]) % 256), c / 256), buf[1..])
  }

  /** CalculateCRC: the running CRC from all ones, complemented. */
  function Crc(data: seq<byte>): nat
  {
    Xor(UpdateCrc(0xFFFFFFFF, data), 0xFFFFFFFF)
  }

  /** The reference CRC of the PNG specification, bit at a time: each byte is
      xored into the low end of the register, then eight steps. */
  function BitwiseCrc(c: nat, buf: seq<byte>): nat
    decreases |buf|
  {
    if |buf| == 0 then c else BitwiseCrc(CrcSteps(Xor(c, buf[0]), 8), buf[1..])
  }

  lemma CrcStepLinear(a: nat, b: nat)
    ensures CrcStep(Xor(a, b)) == Xor(CrcStep(a), CrcStep(b))
  {
    XorHalf(a, b);
    var x := Xor(a, b);
    if a % 2 == 1 && b % 2 == 1 {
      assert CrcStep(x) == Xor(a / 2, b / 2);
      XorCancel(Poly, a / 2, b / 2);
    } else if a % 2 == 1 {
      assert CrcStep(x) == Xor(Poly, Xor(a / 2, b / 2));
      XorAssoc(Poly, a / 2, b / 2);
    } else if b % 2 == 1 {
      assert CrcStep(x) == Xor(Poly, Xor(a / 2, b / 2));
      XorSwap(Poly, a / 2, b / 2);
    } else {
      assert CrcStep(x) == Xor(a / 2, b / 2);
    }
  }

  /** The CRC steps are linear over exclusive or. */
  lemma {:induction false} CrcStepsLinear(a: nat, b: nat, k: nat)
    ensures CrcSteps(Xor(a, b), k) == Xor(CrcSteps(a, k), CrcSteps(b, k))
  {
    if k > 0 {
      CrcStepsLinear(a, b, k - 1);
      CrcStepLinear(CrcSteps(a, k - 1), CrcSteps(b, k - 1));
    }
  }

  /** One step shifts a register whose low bit is clear. */
  lemma DoubleShift(m: nat, q: nat)
    ensures CrcStep(Pow2(m + 1) * q) == Pow2(m) * q
  {
    var r := Pow2(m) * q;
    assert Pow2(m + 1) * q == 2 * r;
  }

  /** A register whose low n bits are clear only shifts in the first n steps. */
  lemma {:induction false} CrcStepsHigh(q: nat, n: nat, k: nat)
    requires k <= n
    ensures CrcSteps(Pow2(n) * q, k) == Pow2(n - k) * q
  {
    if k > 0 {
      CrcStepsHigh(q, n, k - 1);
      DoubleShift(n - k, q);
    }
  }

  /** Split of a register into its low byte and the rest. */
  lemma ByteSplit(x: nat)
    ensures x == Xor(x % 256, Pow2(8) * (x / 256))
  {
    assert Pow2(8) == 256;
    XorDisjoint(x % 256, x / 256, 8);
  }

  /** n steps from a register x are n steps from its low n bits (lo), with
      the bits above (hi) shifted down into place. */
  lemma StepsOfSplit(x: nat, lo: nat, hi: nat, n: nat)
    requires lo < Pow2(n) && x == lo + Pow2(n) * hi
    ensures Xor(CrcSteps(lo, n), hi) == CrcSteps(x, n)
  {
    var m := Pow2(n) * hi;
    XorDisjoint(lo, hi, n);
    assert Xor(lo, m) == x;
    CrcStepsLinear(lo, m, n);
    CrcStepsHigh(hi, n, n);
    assert Pow2(n - n) * hi == hi;
  }

  /** The table lookup does the eight steps of a byte at once. */
  lemma TableIsEightSteps(x: nat)
    ensures Xor(TableEntry(x % 256), x / 256) == CrcSteps(x, 8)
  {
    var lo, hi := x % 256, x / 256;
    assert Pow2(8) == 256;
    StepsOfSplit(x, lo, hi, 8);
  }

  /** Exclusive or with a byte changes only the low byte. */
  lemma XorLowByte(c: nat, b: byte)
    ensures Xor(c, b) / 256 == c / 256 && Xor(c, b) % 256 == Xor(c % 256, b)
  {
    var lo, q := c % 256, c / 256;
    ByteSplit(c);
    assert Pow2(8) == 256;
    XorAssoc(lo, 256 * q, b);
    XorComm(256 * q, b);
    XorAssoc(lo, b, 256 * q);
    XorBound(lo, b, 8);
    XorDisjoint(Xor(lo, b), q, 8);
  }

  /** The table-driven CRC equals the bit-at-a-time reference. */
  lemma {:induction false} UpdateIsBitwise(c: nat, buf: seq<byte>)
    ensures UpdateCrc(c, buf) == BitwiseCrc(c, buf)
    decreases |buf|
  {
    if |buf| > 0 {
      var x := Xor(c, buf[0]);
      TableIsEightSteps(x);
      XorLowByte(c, buf[0]);
      UpdateIsBitwise(CrcSteps(x, 8), buf[1..]);
    }
  }

  /** The CRC of no bytes is 0. */
  lemma CrcOfEmpty()
    ensures Crc([]) == 0
  {
    XorSelf(0xFFFFFFFF);
  }

  /** A step keeps a 32-bit register within 32 bits. */
  lemma CrcStepFits(c: nat)
    requires c < Pow2(32)
    ensures CrcStep(c) < Pow2(32)
  {
    Pow2Values();
    XorBound(Poly, c / 2, 32);
  }

  lemma {:induction false} CrcStepsFit(c: nat, k: nat)
    requires c < Pow2(32)
    ensures CrcSteps(c, k) < Pow2(32)
  {
    if k > 0 {
      CrcStepsFit(c, k - 1);
      CrcStepFits(CrcSteps(c, k - 1));
    }
  }

  lemma {:induction false} UpdateFits(c: nat, buf: seq<byte>)
    requires c < Pow2(32)
    ensures UpdateCrc(c, buf) < Pow2(32)
    decreases |buf|
  {
    if |buf| > 0 {
      Pow2Values();
      CrcStepsFit(Xor(c, buf[0]) % 256, 8);
      XorBound(TableEntry(Xor(c, buf[0]) % 256), c / 256, 32);
      UpdateFits(Xor(TableEntry(Xor(c, buf[0]) % 256), c / 256), buf[1..]);
    }
  }

  /** The CRC is a 32-bit value. */
  lemma CrcFits(data: seq<byte>)
    ensures Crc(data) < 0x1_0000_0000
  {
    Pow2Values();
    UpdateFits(0xFFFFFFFF, data);
    XorBound(UpdateCrc(0xFFFFFFFF, data), 0xFFFFFFFF, 32);
  }

  /** The global table of update_crc and the flag saying it has been computed. */
  class CrcTable {
    const table: array<nat>
    var computed: bool

    ghost predicate Valid() reads this, table
    {
      table.Length == 256 &&
      (computed ==> forall n :: 0 <= n < 256 ==> table[n] == TableEntry(n))
    }

    constructor ()
      ensures Valid() && !computed && fresh(table)
    {
      table := new nat[256];
      computed := false;
    }

    /** make_crc_table. */
    method MakeCrcTable()
      requires Valid()
      modifies this`computed, table
      ensures Valid() && computed
    {
      var n := 0;
      while n < 256
        invariant 0 <= n <= 256
        invariant forall j :: 0 <= j < n ==> table[j] == TableEntry(j)
      {
        var c: nat := n;
        var k := 0;
        while k < 8
          invariant 0 <= k <= 8 && c == CrcSteps(n, k)
        {
          if c % 2 == 1 {
            c := Xor(Poly, c / 2);
          } else {
            c := c / 2;
          }
          k := k + 1;
        }
        table[n] := c;
        n := n + 1;
      }
      computed := true;
    }

    /** update_crc: computes the table on first use, then runs the bytes through
        it. */
    method Update(crc: nat, buf: seq<byte>) returns (c: nat)
      requires Valid()
      modifies this`computed, table
      ensures Valid() && computed
      ensures c == UpdateCrc(crc, buf)
    {
      if !computed {
        MakeCrcTable();
      }
      c := crc;
      var n := 0;
      while n < |buf|
        invariant 0 <= n <= |buf|
        invariant UpdateCrc(crc, buf) == UpdateCrc(c, buf[n..])
      {
        assert buf[n..][1..] == buf[n + 1..];
        c := Xor(table[Xor(c, buf[n]) % 256], c / 256);
        n := n + 1;
      }
    }

    /** Format::CalculateCRC. */
    method CalculateCRC(data: seq<byte>) returns (r: nat)
      requires Valid()
      modifies this`computed, table
      ensures Valid() && computed
      ensures r == Crc(data)
    {
      var c := Update(0xFFFFFFFF, data);
      r := Xor(c, 0xFFFFFFFF);
    }
  }
}

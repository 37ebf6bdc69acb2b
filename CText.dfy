// The C library's text conversions as the code uses them: isspace, atoi, the
// %d conversions of sscanf and printf, strchr and strncmp prefixes.
module CText {
  import opened Wrappers
  import Format

  /** isspace in the "C" locale. */
  predicate IsSpace(c: char)
  {
    c == ' ' || c == '\t' || c == '\n' || c == 11 as char || c == 12 as char || c == '\r'
  }

  function DigitValue(c: char): nat
  {
    if Format.IsDigit(c) then c as int - '0' as int else 0
  }

  /** The first index from k on that is not white space. */
  function SkipSpaces(s: string, k: nat): (e: nat)
    requires k <= |s|
    ensures k <= e <= |s| && (e < |s| ==> !IsSpace(s[e]))
    ensures forall m :: k <= m < e ==> IsSpace(s[m])
    decreases |s| - k
  {
    if k < |s| && IsSpace(s[k]) then SkipSpaces(s, k + 1) else k
  }

  /** The end of the run of decimal digits starting at k. */
  function DigitsEnd(s: string, k: nat): (e: nat)
    requires k <= |s|
    ensures k <= e <= |s| && (e < |s| ==> !Format.IsDigit(s[e]))
    ensures forall m :: k <= m < e ==> Format.IsDigit(s[m])
    decreases |s| - k
  {
    if k < |s| && Format.IsDigit(s[k]) then DigitsEnd(s, k + 1) else k
  }

  /** The value of a string of decimal digits, most significant first. */
  function Decimal(d: string): nat
  {
    if d == [] then 0 else 10 * Decimal(d[..|d| - 1]) + DigitValue(d[|d| - 1])
  }

  /** The conversion %d of sscanf and the prefix atoi reads: white space, an
      optional sign, then at least one digit. The number and the index after it,
      or None when there is no digit. */
  function ScanInt(s: string, k: nat): Option<(int, nat)>
    requires k <= |s|
  {
    var j := SkipSpaces(s, k);
    var neg := j < |s| && s[j] == '-';
    var start := if j < |s| && (s[j] == '-' || s[j] == '+') then j + 1 else j;
    var e := DigitsEnd(s, start);
    if e == start then None
    else
      var v: int := Decimal(s[start..e]);
      Some((if neg then -v else v, e))
  }

  /** atoi: the number at the front of s, 0 when there is none. */
  function Atoi(s: string): int
  {
    match ScanInt(s, 0)
    case None => 0
    case Some(p) => p.0
  }

  /** A natural number written in decimal, as printf's %d writes it. */
  function DecimalString(n: nat): (r: string)
    ensures |r| > 0 && forall i :: 0 <= i < |r| ==> Format.IsDigit(r[i])
  {
    if n < 10 then ['0' + n as char] else DecimalString(n / 10) + ['0' + (n % 10) as char]
  }

  /** Reading back what %d wrote gives the number. */
  lemma {:induction false} DecimalRoundTrip(n: nat)
    ensures Decimal(DecimalString(n)) == n
  {
    var r := DecimalString(n);
    if n >= 10 {
      DecimalRoundTrip(n / 10);
      assert r[..|r| - 1] == DecimalString(n / 10);
    }
  }

  /** A run of digits followed by a non-digit ends where the non-digit starts. */
  lemma {:induction false} DigitsEndAt(s: string, k: nat, e: nat)
    requires k <= e <= |s| && (e < |s| ==> !Format.IsDigit(s[e]))
    requires forall m :: k <= m < e ==> Format.IsDigit(s[m])
    ensures DigitsEnd(s, k) == e
    decreases e - k
  {
    if k < e {
      DigitsEndAt(s, k + 1, e);
    }
  }

  /** %d reads back a number printed with %d, up to the first non-digit. */
  lemma ScanPrinted(s: string, k: nat, n: nat)
    requires var d := DecimalString(n);
      k + |d| <= |s| && s[k..k + |d|] == d && (k + |d| < |s| ==> !Format.IsDigit(s[k + |d|]))
    ensures ScanInt(s, k) == Some((n as int, k + |DecimalString(n)|))
  {
    var d := DecimalString(n);
    assert s[k] == d[0];
    SkipAt(s, k, k);
    DigitsEndAt(s, k, k + |d|);
    DecimalRoundTrip(n);
  }

  /** A run of white space followed by something else ends where that starts. */
  lemma {:induction false} SkipAt(s: string, k: nat, e: nat)
    requires k <= e <= |s| && (e < |s| ==> !IsSpace(s[e]))
    requires forall m :: k <= m < e ==> IsSpace(s[m])
    ensures SkipSpaces(s, k) == e
    decreases e - k
  {
    if k < e {
      SkipAt(s, k + 1, e);
    }
  }

  /** An int written by printf's %d or %i. */
  function IntString(n: int): (r: string)
    ensures |r| > 0
  {
    if n < 0 then "-" + DecimalString(-n) else DecimalString(n)
  }

  /** strncmp(s, p, |p|) == 0: s starts with p. */
  predicate StartsWith(s: string, p: string)
  {
    |p| <= |s| && s[..|p|] == p
  }

  /** strchr(s + k, c): the index of the first c at or after k, or None. */
  function FindChar(s: string, k: nat, c: char): (r: Option<nat>)
    requires k <= |s|
    ensures r.Some? ==> k <= r.value < |s| && s[r.value] == c
    ensures r.Some? ==> forall m :: k <= m < r.value ==> s[m] != c
    ensures r.None? ==> forall m :: k <= m < |s| ==> s[m] != c
    decreases |s| - k
  {
    if k == |s| then None
    else if s[k] == c then Some(k)
    else FindChar(s, k + 1, c)
  }
}

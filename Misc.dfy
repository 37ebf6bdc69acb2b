// C string and buffer helpers of src/misc.cpp. A char buffer is an array whose
// C string is everything before its first NUL.
module Misc {
  import opened Bits
  import Format

  /** The index of the first NUL in a (its length when there is none). */
  function NulIndex(a: seq<char>): (k: nat)
    ensures k <= |a| && (k < |a| ==> a[k] == '\0')
    ensures forall j :: 0 <= j < k ==> a[j] != '\0'
  {
    if |a| == 0 || a[0] == '\0' then 0 else 1 + NulIndex(a[1..])
  }

  /** The C string a buffer holds. */
  function CStr(a: seq<char>): string
  {
    a[..NulIndex(a)]
  }

  /** The first NUL is where the text before it has none. */
  lemma {:induction false} NulIndexIs(a: seq<char>, k: nat)
    requires k < |a| && a[k] == '\0' && forall j :: 0 <= j < k ==> a[j] != '\0'
    ensures NulIndex(a) == k
  {
    if k > 0 {
      NulIndexIs(a[1..], k - 1);
    }
  }

  /** mystrdup: NULL for NULL, otherwise a fresh buffer holding the string and its
      terminator. */
  method MyStrdup(s: array?<char>) returns (x: array?<char>)
    requires s != null ==> NulIndex(s[..]) < s.Length
    ensures s == null <==> x == null
    ensures s != null ==> fresh(x) && x[..] == CStr(s[..]) + ['\0'] && CStr(x[..]) == CStr(s[..])
  {
    if s == null {
      return null;
    }
    var len := NulIndex(s[..]);
    x := new char[len + 1];
    var i := 0;
    while i <= len
      invariant 0 <= i <= len + 1
      invariant forall j :: 0 <= j < i ==> x[j] == s[j]
    {
      x[i] := s[i];
      i := i + 1;
    }
    assert x[..] == CStr(s[..]) + ['\0'];
    NulIndexIs(x[..], len);
  }

  /** The list of strings a strlist chain holds, from its head. */
  class StrList {
    var items: seq<string>

    constructor ()
      ensures items == []
    {
      items := [];
    }

    /** strlist_add: a copy of str becomes the new head. */
    method Add(str: string)
      modifies this
      ensures items == [str] + old(items)
    {
      items := [str] + items;
    }

    /** strlist_find: walks the chain comparing each string. */
    method Find(str: string) returns (found: bool)
      ensures found <==> str in items
    {
      var k := 0;
      while k < |items|
        invariant 0 <= k <= |items|
        invariant str !in items[..k]
      {
        if items[k] == str {
          return true;
        }
        k := k + 1;
      }
      return false;
    }
  }

  /** After Add, the string is found. */
  method AddThenFind(l: StrList, str: string) returns (found: bool)
    modifies l
    ensures found && l.items == [str] + old(l.items)
  {
    l.Add(str);
    found := l.Find(str);
  }

  /** The loop that walks a buffer to its terminator. */
  method FindNul(dst: array<char>) returns (d: nat)
    requires NulIndex(dst[..]) < dst.Length
    ensures d == NulIndex(dst[..])
  {
    d := 0;
    while dst[d] != '\0'
      invariant 0 <= d <= NulIndex(dst[..])
      decreases NulIndex(dst[..]) - d
    {
      d := d + 1;
    }
  }

  /** One round of the copying loop of strappend keeps its invariant. */
  lemma CopyStep(a0: seq<char>, a: seq<char>, b: seq<char>, src: seq<char>, d0: nat, s: nat)
    requires s < |src| && d0 + s < |a| == |a0|
    requires a[..d0] == a0[..d0] && a[d0..d0 + s] == src[..s] && a[d0 + s..] == a0[d0 + s..]
    requires b == a[d0 + s := src[s]]
    ensures b[..d0] == a0[..d0] && b[d0..d0 + s + 1] == src[..s + 1] && b[d0 + s + 1..] == a0[d0 + s + 1..]
  {
    var d := d0 + s;
    assert b[..d0] == a[..d0];
    assert b[d0..d + 1] == a[d0..d] + [src[s]];
    assert src[..s + 1] == src[..s] + [src[s]];
    assert b[d + 1..] == a[d + 1..] == a0[d..][1..];
  }

  /** A buffer whose C string (ending at k) was followed by t and a new
      terminator at d holds the old C string followed by t, and nothing after
      the terminator changed. */
  lemma Appended(a0: seq<char>, a: seq<char>, b: seq<char>, k: nat, d: nat, t: string)
    requires k == NulIndex(a0) && d == k + |t| < |a| == |a0|
    requires a[..k] == a0[..k] && a[k..d] == t && a[d..] == a0[d..]
    requires b == a[d := '\0']
    requires forall j :: 0 <= j < |t| ==> t[j] != '\0'
    ensures CStr(b) == CStr(a0) + t
    ensures b[|CStr(b)| + 1..] == a0[|CStr(b)| + 1..]
  {
    assert b[..d] == a[..d] == a0[..k] + t;
    Terminated(b, a0[..k], t);
    assert b[d + 1..] == a[d + 1..] == a0[d..][1..];
  }

  /** A buffer holding p then t then a NUL holds the C string p + t. */
  lemma Terminated(a: seq<char>, p: string, t: string)
    requires |p| + |t| < |a| && a[..|p| + |t|] == p + t && a[|p| + |t|] == '\0'
    requires forall j :: 0 <= j < |p| ==> p[j] != '\0'
    requires forall j :: 0 <= j < |t| ==> t[j] != '\0'
    ensures CStr(a) == p + t
  {
    forall j | 0 <= j < |p| + |t| ensures a[j] != '\0' {
      assert a[j] == a[..|p| + |t|][j];
    }
    NulIndexIs(a, |p| + |t|);
  }

  /** strappend: copies src's C string over dst's terminator and terminates the
      result. dst must have room for both strings and the terminator. */
  method StrAppend(dst: array<char>, src: seq<char>)
    requires NulIndex(dst[..]) + NulIndex(src) < dst.Length
    modifies dst
    ensures CStr(dst[..]) == old(CStr(dst[..])) + CStr(src)
    ensures dst[|CStr(dst[..])| + 1..] == old(dst[..])[|CStr(dst[..])| + 1..]
  {
    ghost var old0 := dst[..];
    var k := FindNul(dst);
    var d := CopyCStr(dst, k, src);
    ghost var mid := dst[..];
    dst[d] := '\0';
    Appended(old0, mid, dst[..], k, d, CStr(src));
  }

  /** The copying loop of strappend: writes src's C string at d0 and returns the
      index after it. */
  method CopyCStr(dst: array<char>, d0: nat, src: seq<char>) returns (d: nat)
    requires d0 + NulIndex(src) <= dst.Length
    modifies dst
    ensures d == d0 + NulIndex(src) && dst[d0..d] == CStr(src)
    ensures dst[..d0] == old(dst[..d0]) && dst[d..] == old(dst[d..])
  {
    ghost var a0 := dst[..];
    d := d0;
    var s := 0;
    while s < |src| && src[s] != '\0'
      invariant 0 <= s <= NulIndex(src) && d == d0 + s
      invariant dst[..d0] == a0[..d0] && dst[d0..d] == src[..s] && dst[d..] == a0[d..]
    {
      ghost var before := dst[..];
      dst[d] := src[s];
      CopyStep(a0, before, dst[..], src, d0, s);
      d := d + 1;
      s := s + 1;
    }
  }

  /** The loop of strcaturl: writes the encoding of src at d, up to its first
      NUL, and returns the index after it. */
  method WriteEncoded(dst: array<char>, d0: nat, src: seq<char>) returns (d: nat)
    requires Format.Bytes(src) && d0 + |Format.Encoded(src)| <= dst.Length
    modifies dst
    ensures d == d0 + |Format.Encoded(src)| && dst[d0..d] == Format.Encoded(src)
    ensures dst[..d0] == old(dst[..d0]) && dst[d..] == old(dst[d..])
  {
    ghost var e, a0 := Format.Encoded(src), dst[..];
    d := d0;
    var s := 0;
    while s < |src| && src[s] != '\0'
      invariant 0 <= s <= |src| && Format.Bytes(src[s..])
      invariant d0 <= d && d + |Format.Encoded(src[s..])| == d0 + |e|
      invariant e == dst[d0..d] + Format.Encoded(src[s..])
      invariant dst[..d0] == a0[..d0] && dst[d..] == a0[d..]
      decreases |src| - s
    {
      ghost var before := dst[..];
      var d' := PutEncoded(dst, d, src[s]);
      EncodeStep(a0, before, dst[..], src, s, d0, d, d');
      d, s := d', s + 1;
    }
  }

  /** The invariant of the loop of strcaturl holds again after one round. */
  lemma EncodeStep(a0: seq<char>, a: seq<char>, b: seq<char>, src: seq<char>, s: nat, d0: nat, d: nat, d': nat)
    requires Format.Bytes(src) && s < |src| && src[s] != '\0'
    requires d0 <= d <= d' <= |a| == |b| == |a0|
    requires Format.Encoded(src) == a[d0..d] + Format.Encoded(src[s..])
    requires a[..d0] == a0[..d0] && a[d..] == a0[d..]
    requires d' == d + |Format.EncodeByte(src[s])| && b[d..d'] == Format.EncodeByte(src[s])
    requires b[..d] == a[..d] && b[d'..] == a[d'..]
    ensures Format.Bytes(src[s + 1..])
    ensures Format.Encoded(src) == b[d0..d'] + Format.Encoded(src[s + 1..])
    ensures b[..d0] == a0[..d0] && b[d'..] == a0[d'..]
  {
    EncodedFrom(src, s);
    Spliced(a, b, d0, d, d');
    Regrouped(a[d0..d], b[d..d'], Format.Encoded(src[s + 1..]));
    Tail(a, a0, d, d');
  }

  /** Concatenation regrouped. */
  lemma Regrouped(x: string, y: string, z: string)
    ensures x + (y + z) == (x + y) + z
  {
  }

  /** A suffix kept from d on is kept from any later d' on. */
  lemma Tail(a: seq<char>, a0: seq<char>, d: nat, d': nat)
    requires d <= d' <= |a| == |a0| && a[d..] == a0[d..]
    ensures a[d'..] == a0[d'..]
  {
    assert a[d'..] == a[d..][d' - d..];
  }

  /** A buffer written at d..d' keeps what lay before d and after d'. */
  lemma Spliced(a: seq<char>, b: seq<char>, d0: nat, d: nat, d': nat)
    requires d0 <= d <= d' <= |a| == |b| && b[..d] == a[..d] && b[d'..] == a[d'..]
    ensures b[..d0] == a[..d0] && b[d0..d'] == a[d0..d] + b[d..d'] && b[d'..] == a[d'..]
  {
    assert b[..d0] == b[..d][..d0];
    assert b[d0..d'] == b[..d][d0..] + b[d..d'];
  }

  /** The encoding from index s on starts with the encoding of byte s. */
  lemma EncodedFrom(src: seq<char>, s: nat)
    requires Format.Bytes(src) && s < |src| && src[s] != '\0'
    ensures Format.Bytes(src[s + 1..])
    ensures Format.Encoded(src[s..]) == Format.EncodeByte(src[s]) + Format.Encoded(src[s + 1..])
  {
    assert src[s..][1..] == src[s + 1..] && src[s..][0] == src[s];
  }

  /** One round of the loop of strcaturl: writes the encoding of c at d. */
  method PutEncoded(dst: array<char>, d: nat, c: char) returns (d': nat)
    requires c as int < 256 && d + |Format.EncodeByte(c)| <= dst.Length
    modifies dst
    ensures d' == d + |Format.EncodeByte(c)| && dst[d..d'] == Format.EncodeByte(c)
    ensures dst[..d] == old(dst[..d]) && dst[d'..] == old(dst[d'..])
  {
    if Format.IsAlnum(c) {
      dst[d] := c;
      d' := d + 1;
    } else {
      dst[d] := '%';
      dst[d + 1] := Format.HexDigit(c as int / 16);
      dst[d + 2] := Format.HexDigit(c as int % 16);
      d' := d + 3;
    }
  }

  /** strcaturl: appends the URL encoding of src to dst's C string and terminates
      the result. dst must have room for both and the terminator. */
  method StrCatUrl(dst: array<char>, src: seq<char>)
    requires Format.Bytes(src)
    requires NulIndex(dst[..]) + |Format.Encoded(src)| < dst.Length
    modifies dst
    ensures CStr(dst[..]) == old(CStr(dst[..])) + Format.Encoded(src)
    ensures dst[|CStr(dst[..])| + 1..] == old(dst[..])[|CStr(dst[..])| + 1..]
  {
    ghost var old0 := dst[..];
    var k := FindNul(dst);
    var d := WriteEncoded(dst, k, src);
    ghost var mid := dst[..];
    dst[d] := '\0';
    EncodedHasNoNul(src);
    Appended(old0, mid, dst[..], k, d, Format.Encoded(src));
  }

  /** The C string of a buffer holds no NUL. */
  lemma CStrHasNoNul(a: seq<char>)
    ensures forall j :: 0 <= j < |CStr(a)| ==> CStr(a)[j] != '\0'
  {
  }

  /** The URL encoding holds no NUL. */
  lemma EncodedHasNoNul(src: seq<char>)
    requires Format.Bytes(src)
    ensures forall j :: 0 <= j < |Format.Encoded(src)| ==> Format.Encoded(src)[j] != '\0'
  {
    Format.EncodedIsSafe(src);
  }

  /** URLEncode: strcaturl into a zeroed buffer of three characters per byte plus
      two. */
  method URLEncode(source: string) returns (r: string)
    requires Format.Bytes(source)
    ensures r == Format.Encoded(source)
  {
    var dst := new char[|source| * 3 + 2](_ => '\0');
    Format.EncodedLength(source);
    assert NulIndex(dst[..]) == 0;
    StrCatUrl(dst, source);
    r := CStr(dst[..]);
  }

  /** membwand: ands every byte of dest with the byte of src at the same index
      modulo srcsize. The source has a separate loop for equal sizes, where the
      index modulo srcsize is the index itself; one loop covers both. */
  method Membwand(dest: array<byte>, src: array<byte>, destsize: nat, srcsize: nat)
    requires dest != src && destsize <= dest.Length && srcsize <= src.Length
    requires srcsize > 0 || destsize == 0
    modifies dest
    ensures dest[..destsize] == Masked(old(dest[..destsize]), src[..srcsize])
    ensures dest[destsize..] == old(dest[destsize..])
  {
    var i := 0;
    while i < destsize
      invariant 0 <= i <= destsize
      invariant dest[..i] == Masked(old(dest[..i]), src[..srcsize])
      invariant dest[i..] == old(dest[i..])
    {
      dest[i] := And(dest[i], src[i % srcsize]);
      i := i + 1;
    }
  }

  /** The byte-wise and of two buffers, as membwand leaves dest. */
  function Masked(dest: seq<byte>, src: seq<byte>): (r: seq<byte>)
    requires |src| > 0 || |dest| == 0
    ensures |r| == |dest|
  {
    seq(|dest|, i requires 0 <= i < |dest| => And(dest[i], src[i % |src|]) as byte)
  }

  /** membwand is idempotent: masking again with the same source changes nothing. */
  lemma MaskedIdempotent(dest: seq<byte>, src: seq<byte>)
    requires |src| > 0 || |dest| == 0
    ensures Masked(Masked(dest, src), src) == Masked(dest, src)
  {
    forall i | 0 <= i < |dest| ensures Masked(Masked(dest, src), src)[i] == Masked(dest, src)[i] {
      AndIdempotent(dest[i], src[i % |src|]);
    }
  }

  /** A source of all 0xFF bytes leaves dest unchanged. */
  lemma MaskedByOnes(dest: seq<byte>, src: seq<byte>)
    requires |src| > 0 && forall j :: 0 <= j < |src| ==> src[j] == 0xFF
    ensures Masked(dest, src) == dest
  {
    forall i | 0 <= i < |dest| ensures Masked(dest, src)[i] == dest[i] {
      Pow2Values();
      AndOnes(dest[i], 8);
    }
  }
}

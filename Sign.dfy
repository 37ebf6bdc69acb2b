// Signs placed on the simulation (src/game/Sign.h, src/game/Sign.cpp): the text a
// user typed, and the link markup it may carry ("{c:123|Save}", "{t:456|Thread}",
// "{b|Spark}", "{s:query|Search}"), split into a link and a display text.
module Sign {
  datatype Justification = Left | Middle | Right | NoJustification

  datatype SignType = Normal | SaveLink | ThreadLink | Spark | SearchLink

  /** A sign. displayText, linkText and kind are derived from text by SetText;
      x and y are its anchor position in the simulation. */
  datatype Sign = Sign(text: string, displayText: string, linkText: string,
                       x: int, y: int, ju: Justification, kind: SignType)

  /** Maximum number of signs in a save. */
  const MAXSIGNS: nat := 16

  /** What SetText derives from a text. */
  datatype LinkParts = LinkParts(kind: SignType, displayText: string, linkText: string)

  /** text[i] as std::string reads it: the terminating NUL at and past the end. */
  function CharAt(t: string, i: int): char
  {
    if 0 <= i < |t| then t[i] else '\0'
  }

  predicate IsDigit(c: char) { '0' <= c <= '9' }

  predicate AllDigits(s: string) { forall i :: 0 <= i < |s| ==> IsDigit(s[i]) }

  /** The first index from i on that is not a digit (or i when i is past the end). */
  function ScanDigits(t: string, i: nat): (e: nat)
    ensures i <= e && (i <= |t| ==> e <= |t|)
    decreases |t| - i
  {
    if i < |t| && IsDigit(t[i]) then ScanDigits(t, i + 1) else i
  }

  /** The first index from i on that holds c (or the end, or i when i is past it). */
  function ScanTo(t: string, i: nat, c: char): (e: nat)
    ensures i <= e && (i <= |t| ==> e <= |t|)
    decreases |t| - i
  {
    if i < |t| && t[i] != c then ScanTo(t, i + 1, c) else i
  }

  /** std::string::substr(pos, count): at most count characters from pos. */
  function Substr(t: string, pos: nat, count: nat): string
    requires pos <= |t|
  {
    if pos + count <= |t| then t[pos..pos + count] else t[pos..]
  }

  /** The closing step of link parsing: the link stands only when a '|' sits at the
      split point and the text ends in '}'; otherwise the sign falls back to a
      normal one whose link text is the whole text. */
  function SplitLink(t: string, splitStart: nat, link: string, kind: SignType): LinkParts
    requires |t| > 2
  {
    if CharAt(t, splitStart) == '|' && t[|t| - 1] == '}' then
      LinkParts(kind, t[splitStart + 1..|t| - 1], link)
    else
      LinkParts(Normal, t, t)
  }

  /** The link markup of a sign text, as SetText reads it. The "{s" form does not
      check the ':' and starts its search for '|' one character after it. */
  function ParseLink(t: string): LinkParts
  {
    if !(|t| > 2 && t[0] == '{') then LinkParts(Normal, t, "")
    else if t[1] == 'c' || t[1] == 't' then
      if t[2] == ':' && IsDigit(CharAt(t, 3)) then
        var e := ScanDigits(t, 4);
        SplitLink(t, e, t[3..e], if t[1] == 'c' then SaveLink else ThreadLink)
      else LinkParts(Normal, t, "")
    else if t[1] == 'b' then SplitLink(t, 2, "", Spark)
    else if t[1] == 's' then
      var e := ScanTo(t, 4, '|');
      SplitLink(t, e, Substr(t, 3, e - 3), SearchLink)
    else LinkParts(Normal, t, "")
  }

  /** Sign::SetText: stores the text and splits link markup into its parts;
      position and justification are kept. */
  method SetText(sign: Sign, newText: string) returns (r: Sign)
    ensures r.text == newText && r.x == sign.x && r.y == sign.y && r.ju == sign.ju
    ensures LinkParts(r.kind, r.displayText, r.linkText) == ParseLink(newText)
  {
    r := sign.(kind := Normal, text := newText, displayText := newText, linkText := "");
    var text := newText;
    var len := |text|;
    if len > 2 && text[0] == '{' {
      var splitStart: nat;
      if text[1] == 'c' || text[1] == 't' {
        if text[2] == ':' && IsDigit(CharAt(text, 3)) {
          splitStart := 4;
          while splitStart < len && '0' <= text[splitStart] <= '9'
            invariant 4 <= splitStart <= len
            invariant ScanDigits(text, splitStart) == ScanDigits(text, 4)
            decreases len - splitStart
          {
            splitStart := splitStart + 1;
          }
          r := r.(linkText := text[3..splitStart], kind := if text[1] == 'c' then SaveLink else ThreadLink);
        } else {
          return;
        }
      } else if text[1] == 'b' {
        splitStart := 2;
        r := r.(kind := Spark);
      } else if text[1] == 's' {
        splitStart := 4;
        while splitStart < len && text[splitStart] != '|'
          invariant 4 <= splitStart
          invariant ScanTo(text, splitStart, '|') == ScanTo(text, 4, '|')
          decreases len - splitStart
        {
          splitStart := splitStart + 1;
        }
        r := r.(linkText := Substr(text, 3, splitStart - 3), kind := SearchLink);
      } else {
        return;
      }
      if CharAt(text, splitStart) == '|' && text[len - 1] == '}' {
        r := r.(displayText := text[splitStart + 1..len - 1]);
      } else {
        r := r.(linkText := text, kind := Normal);
        return;
      }
    }
  }

  lemma {:induction false} ScanDigitsSpec(t: string, i: nat)
    ensures var e := ScanDigits(t, i);
      i <= e && (i <= |t| ==> e <= |t|) && (forall j :: i <= j < e ==> IsDigit(t[j])) && !IsDigit(CharAt(t, e))
    decreases |t| - i
  {
    if i < |t| && IsDigit(t[i]) { ScanDigitsSpec(t, i + 1); }
  }

  lemma {:induction false} ScanToSpec(t: string, i: nat, c: char)
    ensures var e := ScanTo(t, i, c);
      i <= e && (i <= |t| ==> e <= |t|) && (forall j :: i <= j < e ==> t[j] != c) && (e < |t| ==> t[e] == c)
    decreases |t| - i
  {
    if i < |t| && t[i] != c { ScanToSpec(t, i + 1, c); }
  }

  /** Whatever the markup, a sign whose parsed kind is a link can be rebuilt from
      its parts: "{c:" or "{t:" with a run of digits, "{b|", or the first three
      characters of a search link, then the link text, '|', the display text
      and '}'. A normal sign displays its whole text. */
  lemma LinkShape(t: string)
    ensures var p := ParseLink(t);
      (p.kind == Normal ==> p.displayText == t && (p.linkText == "" || p.linkText == t)) &&
      (p.kind == SaveLink ==> p.linkText != [] && AllDigits(p.linkText) && t == "{c:" + p.linkText + "|" + p.displayText + "}") &&
      (p.kind == ThreadLink ==> p.linkText != [] && AllDigits(p.linkText) && t == "{t:" + p.linkText + "|" + p.displayText + "}") &&
      (p.kind == Spark ==> p.linkText == "" && t == "{b|" + p.displayText + "}") &&
      (p.kind == SearchLink ==> |t| >= 3 && t == t[..3] + p.linkText + "|" + p.displayText + "}")
  {
    var p := ParseLink(t);
    if |t| > 2 && t[0] == '{' {
      if t[1] == 'c' || t[1] == 't' {
        if t[2] == ':' && IsDigit(CharAt(t, 3)) {
          var e := ScanDigits(t, 4);
          assert p == SplitLink(t, e, t[3..e], if t[1] == 'c' then SaveLink else ThreadLink);
          DigitLinkShape(t);
          assert t[..3] == [t[0], t[1], t[2]];
        } else {
          assert p == LinkParts(Normal, t, "");
        }
      } else if t[1] == 'b' {
        assert p == SplitLink(t, 2, "", Spark);
        if CharAt(t, 2) == '|' && t[|t| - 1] == '}' {
          assert t == "{b|" + t[3..|t| - 1] + "}";
        }
      } else if t[1] == 's' {
        var e := ScanTo(t, 4, '|');
        assert p == SplitLink(t, e, Substr(t, 3, e - 3), SearchLink);
        SearchLinkShape(t);
      } else {
        assert p == LinkParts(Normal, t, "");
      }
    } else {
      assert p == LinkParts(Normal, t, "");
    }
  }

  lemma DigitLinkShape(t: string)
    requires |t| > 3 && t[0] == '{' && (t[1] == 'c' || t[1] == 't') && t[2] == ':' && IsDigit(t[3])
    ensures var e := ScanDigits(t, 4); var p := SplitLink(t, e, t[3..e], if t[1] == 'c' then SaveLink else ThreadLink);
      p.kind != Normal ==> p.linkText != [] && AllDigits(p.linkText) && t == t[..3] + p.linkText + "|" + p.displayText + "}"
  {
    ScanDigitsSpec(t, 4);
    var e := ScanDigits(t, 4);
    var kind := if t[1] == 'c' then SaveLink else ThreadLink;
    var p := SplitLink(t, e, t[3..e], kind);
    DigitRun(t, e);
    if CharAt(t, e) == '|' && t[|t| - 1] == '}' {
      assert e < |t| - 1;
      assert p == LinkParts(kind, t[e + 1..|t| - 1], t[3..e]);
      Rebuild(t, 3, e);
      assert [t[e]] == "|" && [t[|t| - 1]] == "}";
    }
  }

  /** The digits ScanDigits passes over from 4, with the digit at 3, are a
      non-empty run of digits. */
  lemma DigitRun(t: string, e: nat)
    requires 3 < e <= |t| && IsDigit(t[3]) && forall j :: 4 <= j < e ==> IsDigit(t[j])
    ensures t[3..e] != [] && AllDigits(t[3..e])
  {
    var link := t[3..e];
    forall j | 0 <= j < |link| ensures IsDigit(link[j]) {
      assert link[j] == t[3 + j];
    }
  }

  lemma SearchLinkShape(t: string)
    requires |t| > 2 && t[0] == '{' && t[1] == 's'
    ensures var e := ScanTo(t, 4, '|'); var p := SplitLink(t, e, Substr(t, 3, e - 3), SearchLink);
      p.kind != Normal ==> t == t[..3] + p.linkText + "|" + p.displayText + "}"
  {
    var e := ScanTo(t, 4, '|');
    var p := SplitLink(t, e, Substr(t, 3, e - 3), SearchLink);
    if CharAt(t, e) == '|' && t[|t| - 1] == '}' {
      assert 0 <= e < |t| && t[e] == '|';
      assert e != |t| - 1;
      SubstrInside(t, 3, e - 3);
      Rebuild(t, 3, e);
      assert [t[e]] == "|" && [t[|t| - 1]] == "}";
      assert t == t[..3] + t[3..e] + "|" + t[e + 1..|t| - 1] + "}";
      assert p == LinkParts(SearchLink, t[e + 1..|t| - 1], t[3..e]);
    } else {
      assert p.kind == Normal;
    }
  }

  lemma SubstrInside(t: string, pos: nat, count: nat)
    requires pos + count <= |t|
    ensures Substr(t, pos, count) == t[pos..pos + count]
  {
  }

  /** A text cut at a, at a separator e and before its last character. */
  lemma Rebuild(t: string, a: nat, e: nat)
    requires a <= e < |t| - 1
    ensures t == t[..a] + t[a..e] + [t[e]] + t[e + 1..|t| - 1] + [t[|t| - 1]]
  {
  }

  lemma {:induction false} ScanDigitsStops(t: string, i: nat, n: nat)
    requires i <= n < |t| && (forall j :: i <= j < n ==> IsDigit(t[j])) && !IsDigit(t[n])
    ensures ScanDigits(t, i) == n
    decreases n - i
  {
    if i < n { ScanDigitsStops(t, i + 1, n); }
  }

  lemma {:induction false} ScanToStops(t: string, i: nat, n: nat, c: char)
    requires i <= n < |t| && (forall j :: i <= j < n ==> t[j] != c) && t[n] == c
    ensures ScanTo(t, i, c) == n
    decreases n - i
  {
    if i < n { ScanToStops(t, i + 1, n, c); }
  }

  /** A save link written out as "{c:<digits>|<display>}" parses back into the
      same id and display text (and likewise for "{t:"). */
  lemma SaveLinkRoundTrip(id: string, display: string, thread: bool)
    requires id != [] && AllDigits(id)
    ensures ParseLink((if thread then "{t:" else "{c:") + id + "|" + display + "}")
      == LinkParts(if thread then ThreadLink else SaveLink, display, id)
  {
    var head: string := if thread then "{t:" else "{c:";
    var t := head + id + "|" + display + "}";
    var n := 3 + |id|;
    assert t[3..n] == id && t[n] == '|';
    assert t[n + 1..|t| - 1] == display;
    forall j | 4 <= j < n ensures IsDigit(t[j]) {
      assert t[j] == id[j - 3];
    }
    ScanDigitsStops(t, 4, n);
    assert t[..3] == head && IsDigit(CharAt(t, 3));
  }

  /** "{b|<display>}" is a spark sign showing display. */
  lemma SparkRoundTrip(display: string)
    ensures ParseLink("{b|" + display + "}") == LinkParts(Spark, display, "")
  {
    var t := "{b|" + display + "}";
    assert t[3..|t| - 1] == display;
  }

  /** "{s:<query>|<display>}" parses back into query and display when the query is
      non-empty and holds no '|' after its first character: the search for the
      '|' starts at the query's second character. */
  lemma SearchLinkRoundTrip(query: string, display: string)
    requires query != [] && forall i :: 1 <= i < |query| ==> query[i] != '|'
    ensures ParseLink("{s:" + query + "|" + display + "}") == LinkParts(SearchLink, display, query)
  {
    var t := "{s:" + query + "|" + display + "}";
    var n := 3 + |query|;
    assert t[3..n] == query && t[n] == '|';
    assert t[n + 1..|t| - 1] == display;
    ScanToStops(t, 4, n, '|');
  }

  /** Sign::IsSignInArea: the anchor lies in the half-open rectangle
      [left, right) x [top, bottom). */
  predicate IsSignInArea(s: Sign, left: int, top: int, right: int, bottom: int)
  {
    s.x >= left && s.y >= top && s.x < right && s.y < bottom
  }

  /** The screen box of a sign as Sign::GetPos computes it. */
  datatype Box = Box(x0: int, y0: int, w: int, h: int)

  /** Sign::GetPos. textWidth is the rendered width of the sign's display text,
      which the renderer measures (it is not part of this model). The box is 14
      high, 4 wider than the text, and sits above the anchor unless that is
      within 18 pixels of the top, in which case it sits below it. */
  function GetPos(s: Sign, textWidth: nat): (b: Box)
    ensures b.h == 14 && b.w == textWidth + 4
    ensures b.x0 <= s.x <= b.x0 + b.w
    ensures s.ju == Left ==> b.x0 == s.x
    ensures s.ju == Right ==> b.x0 + b.w == s.x
    ensures s.y > 18 ==> b.y0 + b.h == s.y - 4
    ensures s.y <= 18 ==> b.y0 == s.y + 4
  {
    var w := textWidth + 4;
    var x0 := if s.ju == Right then s.x - w else if s.ju == Left then s.x else s.x - w / 2;
    var y0 := if s.y > 18 then s.y - 18 else s.y + 4;
    Box(x0, y0, w, 14)
  }

  /** A point is inside a box when it lies in the closed rectangle. */
  predicate InBox(b: Box, mx: int, my: int)
  {
    mx >= b.x0 && mx <= b.x0 + b.w && my >= b.y0 && my <= b.y0 + b.h
  }

  /** The signs placed on the simulation (the global vector of signs). */
  class SignList {
    var signs: seq<Sign>

    constructor ()
      ensures signs == []
    {
      signs := [];
    }

    /** DeleteSignsInArea: removes every sign whose anchor is in the area and keeps
        the rest in order. */
    method DeleteSignsInArea(left: int, top: int, right: int, bottom: int)
      modifies this
      ensures signs == Outside(old(signs), left, top, right, bottom)
    ensures forall s :: s in signs <==> s in old(signs) && !IsSignInArea(s, left, top, right, bottom)
    {
      var i := |signs| - 1;
      ghost var orig := signs;
      while i >= 0
        invariant -1 <= i < |orig|
        invariant signs == orig[..i + 1] + Outside(orig[i + 1..], left, top, right, bottom)
      {
        DeleteStep(orig, i, signs, left, top, right, bottom);
        if IsSignInArea(signs[i], left, top, right, bottom) {
          signs := signs[..i] + signs[i + 1..];
        }
        i := i - 1;
      }
      assert orig[0..] == orig;
      OutsideMembers(orig, left, top, right, bottom);
    }

    /** InsideSign: the highest index whose sign box holds the mouse and that is a
        link sign (any sign with allsigns), or -1 if none. widths[i] is the rendered
        width of sign i's display text. */
    method InsideSign(widths: seq<nat>, mx: int, my: int, allsigns: bool) returns (r: int)
      requires |widths| == |signs|
      ensures -1 <= r < |signs|
      ensures r >= 0 ==> Hit(signs[r], widths[r], mx, my, allsigns)
      ensures forall j :: r < j < |signs| ==> !Hit(signs[j], widths[j], mx, my, allsigns)
    {
      var i := |signs| - 1;
      while i >= 0
        invariant -1 <= i < |signs|
        invariant forall j :: i < j < |signs| ==> !Hit(signs[j], widths[j], mx, my, allsigns)
      {
        var b := GetPos(signs[i], widths[i]);
        if mx >= b.x0 && mx <= b.x0 + b.w && my >= b.y0 && my <= b.y0 + b.h {
          if allsigns || signs[i].kind != Normal {
            return i;
          }
        }
        i := i - 1;
      }
      return -1;
    }
  }

  /** A sign counts for InsideSign: the mouse is in its box and it is a link sign,
      or any sign is wanted. */
  predicate Hit(s: Sign, textWidth: nat, mx: int, my: int, allsigns: bool)
  {
    InBox(GetPos(s, textWidth), mx, my) && (allsigns || s.kind != Normal)
  }

  /** The signs outside the area, in their original order. */
  function Outside(signs: seq<Sign>, left: int, top: int, right: int, bottom: int): (r: seq<Sign>)
    ensures |r| <= |signs|
  {
    if signs == [] then []
    else (if IsSignInArea(signs[0], left, top, right, bottom) then [] else [signs[0]])
         + Outside(signs[1..], left, top, right, bottom)
  }

  /** One step of DeleteSignsInArea's backward scan: dropping sign i when it is in
      the area extends the filtered suffix by one. */
  lemma DeleteStep(orig: seq<Sign>, i: nat, signs: seq<Sign>, left: int, top: int, right: int, bottom: int)
    requires i < |orig| && signs == orig[..i + 1] + Outside(orig[i + 1..], left, top, right, bottom)
    ensures i < |signs| && signs[i] == orig[i]
    ensures (if IsSignInArea(orig[i], left, top, right, bottom) then signs[..i] + signs[i + 1..] else signs)
      == orig[..i] + Outside(orig[i..], left, top, right, bottom)
  {
    var rest := Outside(orig[i + 1..], left, top, right, bottom);
    OutsideCons(orig[i], orig[i + 1..], left, top, right, bottom);
    assert orig[i..] == [orig[i]] + orig[i + 1..];
    assert orig[..i + 1] == orig[..i] + [orig[i]];
    assert signs == orig[..i] + ([orig[i]] + rest);
    if IsSignInArea(orig[i], left, top, right, bottom) {
      assert signs[..i] == orig[..i];
      assert signs[i + 1..] == rest;
    }
  }

  /** The signs kept are exactly those of the list outside the area. */
  lemma {:induction false} OutsideMembers(signs: seq<Sign>, left: int, top: int, right: int, bottom: int)
    ensures forall s :: s in Outside(signs, left, top, right, bottom) <==> s in signs && !IsSignInArea(s, left, top, right, bottom)
  {
    if signs != [] {
      OutsideMembers(signs[1..], left, top, right, bottom);
      assert signs == [signs[0]] + signs[1..];
    }
  }

  lemma OutsideCons(s: Sign, rest: seq<Sign>, left: int, top: int, right: int, bottom: int)
    ensures Outside([s] + rest, left, top, right, bottom)
      == (if IsSignInArea(s, left, top, right, bottom) then [] else [s]) + Outside(rest, left, top, right, bottom)
  {
    assert ([s] + rest)[1..] == rest;
  }
}

// ui::ScrollWindow (src/interface/ScrollWindow.cpp): a window whose
// components slide vertically. scrollSize is the height of the content,
// scrolled how far it is scrolled, and the components are moved up by every
// change of scrolled. Dafny classes do not inherit, so the parts of
// ui::Window a scroll window uses (its position, size and components) are
// fields of ScrollWindow here.
module ScrollWindow {
  import opened Geometry
  import opened Window

  /** The scalar scroll state: whether scrolling is on, the content height
      and the scroll offset. */
  datatype Scroll = Scroll(scrollable: bool, scrollSize: int, scrolled: int)

  /** The offsets a window of the given height may show: from the top of
      the content down to its last screenful. */
  predicate InRange(s: Scroll, height: int)
  {
    if s.scrollable then height < s.scrollSize && 0 <= s.scrolled <= s.scrollSize - height
    else s.scrolled == 0
  }

  /** SetScrollPosition on the scalar state: ignored unless scrollable; the
      requested position is raised to 0, then lowered to the last screenful. */
  function ScrollTo(s: Scroll, height: int, pos: int): Scroll
  {
    if !s.scrollable then s
    else
      var p := if pos < 0 then 0 else pos;
      s.(scrolled := if p > s.scrollSize - height then s.scrollSize - height else p)
  }

  /** Scrolling keeps the offset in range, lands exactly where asked when
      that is in range, and otherwise at the nearer end. */
  lemma ScrollToRange(s: Scroll, height: int, pos: int)
    requires InRange(s, height)
    ensures var t := ScrollTo(s, height, pos);
      InRange(t, height) && t.scrollable == s.scrollable && t.scrollSize == s.scrollSize &&
      (s.scrollable ==>
        (0 <= pos <= s.scrollSize - height ==> t.scrolled == pos) &&
        (pos < 0 ==> t.scrolled == 0) &&
        (pos > s.scrollSize - height ==> t.scrolled == s.scrollSize - height))
  {
  }

  /** DoMouseWheel on the scalar state: four pixels per notch, wheel up
      (d > 0) towards the top, wheel down towards the bottom. */
  function Wheel(s: Scroll, height: int, d: int): Scroll
  {
    if !s.scrollable then s
    else if d > 0 then ScrollTo(s, height, Max(s.scrolled - d * 4, 0))
    else if d < 0 then ScrollTo(s, height, Min(s.scrolled - d * 4, s.scrollSize - height))
    else s
  }

  function Max(a: int, b: int): int { if a >= b then a else b }
  function Min(a: int, b: int): int { if a <= b then a else b }

  /** Wheel up never scrolls down and wheel down never scrolls up; each moves
      by at most four pixels a notch and stays in range. */
  lemma WheelMoves(s: Scroll, height: int, d: int)
    requires InRange(s, height)
    ensures var t := Wheel(s, height, d);
      InRange(t, height) && t.scrollable == s.scrollable && t.scrollSize == s.scrollSize &&
      (d > 0 ==> s.scrolled - 4 * d <= t.scrolled <= s.scrolled) &&
      (d < 0 ==> s.scrolled <= t.scrolled <= s.scrolled - 4 * d) &&
      (d == 0 ==> t == s)
  {
    if s.scrollable && d != 0 {
      var pos := if d > 0 then Max(s.scrolled - d * 4, 0) else Min(s.scrolled - d * 4, s.scrollSize - height);
      ScrollToRange(s, height, pos);
    }
  }

  /** Whether the content should stay scrolled to the bottom as it grows:
      it was not scrollable before, or it showed its last screenful. */
  function Follows(s: Scroll, height: int, canScrollFollow: bool): bool
  {
    canScrollFollow && (!s.scrollable || s.scrolled + height == s.scrollSize)
  }

  /** SetScrollSize as written: after a resize the offset is re-clamped only
      when it lies past the whole content, scrollSize, rather than past the
      last screenful, scrollSize - height. */
  function ResizedAsWritten(s: Scroll, height: int, maxScroll: int, canScrollFollow: bool): Scroll
  {
    if maxScroll - height <= 0 then Scroll(false, maxScroll, 0)
    else
      var s1 := Scroll(true, maxScroll, s.scrolled);
      var s2 := if Follows(s, height, canScrollFollow) then ScrollTo(s1, height, maxScroll - height) else s1;
      if !s2.scrollable then ScrollTo(s2, height, 0)
      else if s2.scrolled > s2.scrollSize then ScrollTo(s2, height, s2.scrollSize)
      else s2
  }

  /** Shrinking the content of a window scrolled near its end leaves it
      scrolled past the new last screenful: with a window 200 high over
      500 of content scrolled to 250, content of 300 keeps the offset 250
      although the last screenful starts at 100. */
  lemma ResizedAsWrittenOverscrolls()
    ensures InRange(Scroll(true, 500, 250), 200)
    ensures var t := ResizedAsWritten(Scroll(true, 500, 250), 200, 300, true);
      t == Scroll(true, 300, 250) && !InRange(t, 200)
  {
  }

  /** SetScrollSize with the check the comment above it intends: an offset
      past the last screenful is brought back to it. */
  function Resized(s: Scroll, height: int, maxScroll: int, canScrollFollow: bool): Scroll
  {
    if maxScroll - height <= 0 then Scroll(false, maxScroll, 0)
    else
      var s1 := Scroll(true, maxScroll, s.scrolled);
      var s2 := if Follows(s, height, canScrollFollow) then ScrollTo(s1, height, maxScroll - height) else s1;
      if s2.scrolled > s2.scrollSize - height then ScrollTo(s2, height, s2.scrollSize - height)
      else s2
  }

  /** After a resize the offset is in range for the new content; content
      that fits turns scrolling off; content that grows under a view kept at
      the bottom (or that just became scrollable) shows its last screenful;
      otherwise the offset stays where it was if it still fits, and moves to
      the last screenful if not. */
  lemma ResizedInRange(s: Scroll, height: int, maxScroll: int, canScrollFollow: bool)
    requires InRange(s, height)
    ensures var t := Resized(s, height, maxScroll, canScrollFollow);
      InRange(t, height) && t.scrollSize == maxScroll &&
      (t.scrollable <==> maxScroll > height) &&
      (maxScroll > height && Follows(s, height, canScrollFollow) ==> t.scrolled == maxScroll - height) &&
      (maxScroll > height && !Follows(s, height, canScrollFollow) ==>
        t.scrolled == Min(s.scrolled, maxScroll - height))
  {
  }

  /** Whether the mouse, at (mx, my) in the parent's coordinates, lies over a
      component at cpos of size csize inside a window at wpos. */
  predicate Hit(mx: int, my: int, wpos: Point, cpos: Point, csize: Point)
  {
    var posX := mx - wpos.X - cpos.X;
    var posY := my - wpos.Y - cpos.Y;
    0 <= posX < csize.X && 0 <= posY < csize.Y
  }

  /** The index of the first true entry of hits, or |hits| if none is. */
  function FirstTrue(hits: seq<bool>): (r: nat)
    ensures r <= |hits| && (r < |hits| ==> hits[r])
    ensures forall j :: 0 <= j < r ==> !hits[j]
  {
    if hits == [] then 0 else if hits[0] then 0 else 1 + FirstTrue(hits[1..])
  }

  /** Appending an entry moves the first true one only if there was none. */
  lemma FirstTrueAppend(hits: seq<bool>, h: bool)
    ensures FirstTrue(hits + [h]) ==
      if FirstTrue(hits) < |hits| then FirstTrue(hits) else if h then |hits| else |hits| + 1
  {
    var r := FirstTrue(hits + [h]);
    if FirstTrue(hits) < |hits| {
      assert (hits + [h])[FirstTrue(hits)];
    } else if h {
      assert (hits + [h])[|hits|];
    }
  }

  /** One pass of SetScrollPosition's loop over a component: move it up by
      dy and, if no earlier component has claimed the mouse and this one lies
      under it, mark the mouse inside (unless a subwindow covers it);
      otherwise mark the mouse outside. */
  method ScrollComponent(c: Component, dy: int, mx: int, my: int, wpos: Point,
                         alreadyInside: bool, insideSubwindow: bool) returns (hit: bool)
    modifies c
    ensures c.position == old(c.position).Minus(Point(0, dy)) && c.size == old(c.size)
    ensures hit == Hit(mx, my, wpos, c.position, c.size)
    ensures c.mouseInside ==
      if !alreadyInside && hit then (if insideSubwindow then old(c.mouseInside) else true) else false
    ensures c.parent == old(c.parent) && c.visible == old(c.visible) && c.toAdd == old(c.toAdd) && c.toDelete == old(c.toDelete)
  {
    c.position := Point(c.position.X, c.position.Y - dy);
    var posX := mx - wpos.X - c.position.X;
    var posY := my - wpos.Y - c.position.Y;
    hit := posX >= 0 && posX < c.size.X && posY >= 0 && posY < c.size.Y;
    if !alreadyInside && hit {
      if !insideSubwindow {
        c.mouseInside := true;
      }
    } else {
      c.mouseInside := false;
    }
  }

  /** SetScrollPosition's loop over the components: each moves up by dy;
      the first under the mouse gets it (unless insideSubwindow, when it keeps
      its flag) and all others lose it. hits records which lie under the
      mouse. */
  method ScrollComponents(cs: seq<Component>, dy: int, mx: int, my: int, wpos: Point, insideSubwindow: bool)
    returns (ghost hits: seq<bool>)
    requires NoRepeats(cs)
    modifies set c | c in cs
    ensures |hits| == |cs|
    ensures forall k :: 0 <= k < |cs| ==>
      var c := cs[k];
      c.position == old(c.position).Minus(Point(0, dy)) && c.size == old(c.size) &&
      hits[k] == Hit(mx, my, wpos, c.position, c.size) &&
      c.mouseInside == if k == FirstTrue(hits) && insideSubwindow then old(c.mouseInside) else k == FirstTrue(hits)
  {
    var alreadyInside := false;
    hits := [];
    var i := 0;
    while i < |cs|
      invariant 0 <= i <= |cs| && |hits| == i
      invariant alreadyInside == (FirstTrue(hits) < i)
      invariant forall k :: 0 <= k < |cs| ==>
        var c := cs[k];
        if k < i then
          c.position == old(c.position).Minus(Point(0, dy)) && c.size == old(c.size) &&
          hits[k] == Hit(mx, my, wpos, c.position, c.size) &&
          c.mouseInside == if k == FirstTrue(hits) && insideSubwindow then old(c.mouseInside) else k == FirstTrue(hits)
        else
          c.position == old(c.position) && c.size == old(c.size) && c.mouseInside == old(c.mouseInside)
    {
      var h := ScrollComponent(cs[i], dy, mx, my, wpos, alreadyInside, insideSubwindow);
      FirstTrueAppend(hits, h);
      hits := hits + [h];
      alreadyInside := alreadyInside || h;
      i := i + 1;
    }
  }

  class ScrollWindow {
    var position: Point
    var size: Point
    var components: seq<Component>
    var scrollable: bool
    var scrollSize: int
    var scrolled: int
    var lastMouseX: int
    var lastMouseY: int

    function State(): Scroll
      reads this
    {
      Scroll(scrollable, scrollSize, scrolled)
    }

    /** The offset is always one the window may show, and no component is
        listed twice. */
    predicate Valid()
      reads this
    {
      InRange(State(), size.Y) && NoRepeats(components)
    }

    constructor (position: Point, size: Point)
      ensures this.position == position && this.size == size && components == []
      ensures State() == Scroll(false, 0, 0) && lastMouseX == 0 && lastMouseY == 0
      ensures Valid()
    {
      this.position := position;
      this.size := size;
      components := [];
      scrollable := false;
      scrollSize := 0;
      scrolled := 0;
      lastMouseX := 0;
      lastMouseY := 0;
    }

    /** SetScrollPosition: the offset becomes ScrollTo of the request. When
        it changes, every component moves up by the change; the first one
        under the last mouse position gets the mouse (unless a subwindow
        covers that point, insideSubwindow, when it keeps its flag) and all
        others lose it. hits records which components lie under the mouse. */
    method SetScrollPosition(pos: int, insideSubwindow: bool) returns (ghost hits: seq<bool>)
      requires NoRepeats(components)
      modifies this, set c | c in components
      ensures State() == ScrollTo(old(State()), size.Y, pos)
      ensures components == old(components) && size == old(size) && position == old(position)
      ensures lastMouseX == old(lastMouseX) && lastMouseY == old(lastMouseY)
      ensures scrolled == old(scrolled) ==> forall c :: c in components ==>
        c.position == old(c.position) && c.mouseInside == old(c.mouseInside) && c.size == old(c.size)
      ensures |hits| == |components|
      ensures scrolled != old(scrolled) ==> forall k :: 0 <= k < |components| ==>
        var c := components[k];
        c.position == old(c.position).Minus(Point(0, scrolled - old(scrolled))) && c.size == old(c.size) &&
        hits[k] == Hit(lastMouseX, lastMouseY, position, c.position, c.size) &&
        c.mouseInside == if k == FirstTrue(hits) && insideSubwindow then old(c.mouseInside) else k == FirstTrue(hits)
    {
      var oldScrolled := scrolled;
      hits := seq(|components|, k => false);
      if !scrollable {
        return;
      }
      var p := pos;
      if p < 0 {
        p := 0;
      }
      if p > scrollSize - size.Y {
        p := scrollSize - size.Y;
      }
      if scrolled == p {
        return;
      }
      scrolled := p;
      hits := ScrollComponents(components, scrolled - oldScrolled, lastMouseX, lastMouseY, position, insideSubwindow);
    }

    /** DoMouseWheel: when scrollable, remember the mouse and scroll four
        pixels a notch (Wheel); the OnMouseWheel hook it then calls is not
        part of this model. The components move as SetScrollPosition moves
        them, with the wheel's position as the mouse. */
    method DoMouseWheel(x: int, y: int, d: int, insideSubwindow: bool) returns (ghost hits: seq<bool>)
      requires Valid()
      modifies this, set c | c in components
      ensures Valid() && State() == Wheel(old(State()), size.Y, d)
      ensures components == old(components) && size == old(size) && position == old(position)
      ensures scrollable ==> lastMouseX == x && lastMouseY == y
      ensures !scrollable ==> lastMouseX == old(lastMouseX) && lastMouseY == old(lastMouseY)
      ensures scrolled == old(scrolled) ==> forall c :: c in components ==>
        c.position == old(c.position) && c.mouseInside == old(c.mouseInside) && c.size == old(c.size)
      ensures |hits| == |components|
      ensures scrolled != old(scrolled) ==> forall k :: 0 <= k < |components| ==>
        var c := components[k];
        c.position == old(c.position).Minus(Point(0, scrolled - old(scrolled))) && c.size == old(c.size) &&
        hits[k] == Hit(lastMouseX, lastMouseY, position, c.position, c.size) &&
        c.mouseInside == if k == FirstTrue(hits) && insideSubwindow then old(c.mouseInside) else k == FirstTrue(hits)
    {
      hits := seq(|components|, k => false);
      if scrollable {
        lastMouseX := x;
        lastMouseY := y;
        if d > 0 {
          hits := SetScrollPosition(Max(scrolled - d * 4, 0), insideSubwindow);
        } else if d < 0 {
          hits := SetScrollPosition(Min(scrolled - d * 4, scrollSize - size.Y), insideSubwindow);
        }
      }
      WheelMoves(old(State()), size.Y, d);
    }

    /** SetScrollSize, with the corrected re-clamp (Resized): the offset
        stays in range for the new content. Content that fits resets the
        offset without moving the components back, as the source does.
        Otherwise at most one of the two scrolls moves the offset, and the
        components move as SetScrollPosition moves them. */
    method SetScrollSize(maxScroll: int, canScrollFollow: bool, insideSubwindow: bool) returns (ghost hits: seq<bool>)
      requires Valid()
      modifies this, set c | c in components
      ensures Valid() && State() == Resized(old(State()), size.Y, maxScroll, canScrollFollow)
      ensures components == old(components) && size == old(size) && position == old(position)
      ensures lastMouseX == old(lastMouseX) && lastMouseY == old(lastMouseY)
      ensures maxScroll - size.Y <= 0 || scrolled == old(scrolled) ==> forall c :: c in components ==>
        c.position == old(c.position) && c.mouseInside == old(c.mouseInside) && c.size == old(c.size)
      ensures |hits| == |components|
      ensures maxScroll - size.Y > 0 && scrolled != old(scrolled) ==> forall k :: 0 <= k < |components| ==>
        var c := components[k];
        c.position == old(c.position).Minus(Point(0, scrolled - old(scrolled))) && c.size == old(c.size) &&
        hits[k] == Hit(lastMouseX, lastMouseY, position, c.position, c.size) &&
        c.mouseInside == if k == FirstTrue(hits) && insideSubwindow then old(c.mouseInside) else k == FirstTrue(hits)
    {
      hits := seq(|components|, k => false);
      if maxScroll - size.Y <= 0 {
        scrollable := false;
        scrolled := 0;
        scrollSize := maxScroll;
        return;
      }
      var scrollFollow := canScrollFollow && (!scrollable || scrolled + size.Y == scrollSize);
      scrollable := true;
      scrollSize := maxScroll;
      if scrollFollow {
        hits := SetScrollPosition(scrollSize - size.Y, insideSubwindow);
      }
      if scrolled > scrollSize - size.Y {
        hits := SetScrollPosition(scrollSize - size.Y, insideSubwindow);
      }
      ResizedInRange(old(State()), size.Y, maxScroll, canScrollFollow);
    }
  }
}

// The component bookkeeping of ui::Window (src/interface/Window.cpp): adding
// and removing components, moving the keyboard focus, and the deferred
// update that erases removed components and shows added ones. Components are
// objects shared by reference, as the C++ pointers are; the parts of
// Component (src/interface/Component.cpp) that Window relies on are here too.
module Window {
  import opened Geometry

  class Component {
    var parent: Window?
    var position: Point
    var size: Point
    var mouseInside: bool
    var visible: bool
    var toDelete: bool
    var toAdd: bool

    /** A new component has no parent, is visible, and is neither pending
        addition nor removal. */
    constructor (position: Point, size: Point)
      ensures this.position == position && this.size == size
      ensures parent == null && !mouseInside && visible && !toDelete && !toAdd
    {
      parent := null;
      this.position := position;
      this.size := size;
      mouseInside := false;
      visible := true;
      toDelete := false;
      toAdd := false;
    }

    /** One step of Window::UpdateComponents for this component: one marked
        for deletion is detached from its window; otherwise one marked toAdd
        is shown (SetVisible(true)), which clears the mark. */
    method Settle()
      modifies this
      ensures toDelete == old(toDelete) && position == old(position)
      ensures toDelete ==> parent == null && visible == old(visible) && toAdd == old(toAdd)
      ensures !toDelete ==> parent == old(parent) && !toAdd && visible == (old(visible) || old(toAdd))
    {
      if toDelete {
        parent := null;
      } else if toAdd {
        visible := true;
        toAdd := false;
      }
    }
  }

  /** A call of a component's OnFocus or OnDefocus. */
  datatype FocusEvent = Focus(c: Component) | Defocus(c: Component)

  /** No component is listed twice. */
  predicate NoRepeats(cs: seq<Component>)
  {
    forall i, j :: 0 <= i < j < |cs| ==> cs[i] != cs[j]
  }

  /** The components of cs not marked toDelete, in order. */
  function Kept(cs: seq<Component>): seq<Component>
    reads (set c | c in cs)`toDelete
  {
    if cs == [] then [] else (if cs[0].toDelete then [] else [cs[0]]) + Kept(cs[1..])
  }

  /** Kept keeps exactly the components not marked for deletion. */
  lemma {:induction false} KeptMembers(cs: seq<Component>, c: Component)
    ensures c in Kept(cs) <==> c in cs && !c.toDelete
  {
    if cs != [] {
      KeptMembers(cs[1..], c);
      assert cs == [cs[0]] + cs[1..];
    }
  }

  /** Kept never reorders: it is the old order with the deleted ones left out,
      so a list without repeats stays without repeats. */
  lemma {:induction false} KeptDistinct(cs: seq<Component>)
    requires NoRepeats(cs)
    ensures NoRepeats(Kept(cs))
  {
    if cs != [] {
      KeptDistinct(cs[1..]);
      KeptMembers(cs[1..], cs[0]);
      assert cs[0] !in cs[1..];
    }
  }

  /** Kept with the marks given as values rather than read from the heap. */
  function Filter(cs: seq<Component>, del: seq<bool>): seq<Component>
    requires |del| == |cs|
  {
    if cs == [] then [] else (if del[0] then [] else [cs[0]]) + Filter(cs[1..], del[1..])
  }

  /** Filter keeps the old order, so a list without repeats stays without
      repeats. */
  lemma {:induction false} FilterDistinct(cs: seq<Component>, del: seq<bool>)
    requires |del| == |cs| && NoRepeats(cs)
    ensures NoRepeats(Filter(cs, del))
  {
    if cs != [] {
      FilterDistinct(cs[1..], del[1..]);
      FilterMembers(cs[1..], del[1..], cs[0]);
      assert cs[0] !in cs[1..];
      assert Filter(cs, del) == (if del[0] then [] else [cs[0]]) + Filter(cs[1..], del[1..]);
    }
  }

  lemma {:induction false} FilterMembers(cs: seq<Component>, del: seq<bool>, c: Component)
    requires |del| == |cs|
    ensures c in Filter(cs, del) ==> c in cs
  {
    if cs != [] {
      FilterMembers(cs[1..], del[1..], c);
    }
  }

  lemma {:induction false} KeptIsFilter(cs: seq<Component>, del: seq<bool>)
    requires |del| == |cs| && forall k :: 0 <= k < |cs| ==> del[k] == cs[k].toDelete
    ensures Kept(cs) == Filter(cs, del)
  {
    if cs != [] {
      KeptIsFilter(cs[1..], del[1..]);
    }
  }

  /** One step of the backwards erasing loop, on values: with the suffix
      from i + 1 already filtered, erasing or keeping position i filters the
      suffix from i. */
  lemma EraseStep(cs: seq<Component>, del: seq<bool>, i: int, comps: seq<Component>)
    requires |del| == |cs| && 0 <= i < |cs|
    requires comps == cs[..i + 1] + Filter(cs[i + 1..], del[i + 1..])
    ensures i < |comps| && comps[i] == cs[i]
    ensures del[i] ==> comps[..i] + comps[i + 1..] == cs[..i] + Filter(cs[i..], del[i..])
    ensures !del[i] ==> comps == cs[..i] + Filter(cs[i..], del[i..])
  {
    assert cs[i..][1..] == cs[i + 1..] && del[i..][1..] == del[i + 1..];
    assert cs[..i + 1] == cs[..i] + [cs[i]];
    if del[i] {
      assert comps[..i] == cs[..i];
    }
  }

  class Window {
    var components: seq<Component>
    var focused: Component?
    var clicked: Component?
    /** The OnFocus/OnDefocus calls made so far, oldest first. */
    var events: seq<FocusEvent>

    /** AddComponent refuses duplicates, so no component is listed twice. */
    predicate Distinct()
      reads this
    {
      NoRepeats(components)
    }

    constructor ()
      ensures components == [] && focused == null && clicked == null && events == []
      ensures Distinct()
    {
      components := [];
      focused := null;
      clicked := null;
      events := [];
    }

    /** FocusComponent: when the focus moves, the old holder hears OnDefocus
        and the new one OnFocus; focusing the holder again does nothing. */
    method FocusComponent(toFocus: Component?)
      modifies this
      ensures focused == toFocus
      ensures events == old(events) +
        (if old(focused) == toFocus then []
         else (if old(focused) != null then [Defocus(old(focused))] else []) +
              (if toFocus != null then [Focus(toFocus)] else []))
      ensures components == old(components) && clicked == old(clicked)
    {
      if focused != toFocus {
        if focused != null {
          events := events + [Defocus(focused)];
        }
        focused := toFocus;
        if focused != null {
          events := events + [Focus(focused)];
        }
      }
    }

    /** DefocusComponent: drop the focus if c holds it. */
    method DefocusComponent(c: Component)
      modifies this
      ensures old(focused) == c ==> focused == null && events == old(events) + [Defocus(c)]
      ensures old(focused) != c ==> focused == old(focused) && events == old(events)
      ensures components == old(components) && clicked == old(clicked)
    {
      if focused != null && focused == c {
        events := events + [Defocus(focused)];
        focused := null;
      }
    }

    /** AddComponent: a component already in the window is left alone;
        otherwise it is appended, adopted, hidden (which drops any focus it
        had) and marked toAdd, to be shown by the next UpdateComponents. */
    method AddComponent(other: Component)
      requires Distinct()
      modifies this, other
      ensures Distinct() && other in components
      ensures other in old(components) ==> components == old(components) && unchanged(this) && unchanged(other)
      ensures other !in old(components) ==>
        components == old(components) + [other] &&
        other.parent == this && !other.visible && other.toAdd &&
        other.toDelete == old(other.toDelete) && other.position == old(other.position)
      ensures other !in old(components) ==> focused == (if old(focused) == other then null else old(focused))
      ensures other !in old(components) ==>
        events == old(events) + (if old(focused) == other then [Defocus(other)] else [])
      ensures clicked == old(clicked)
    {
      var i := 0;
      while i < |components|
        invariant 0 <= i <= |components|
        invariant other !in components[..i]
      {
        if components[i] == other {
          return;
        }
        i := i + 1;
      }
      assert components[..i] == components;
      components := components + [other];
      other.parent := this;
      other.visible := false;
      other.toAdd := false;
      DefocusComponent(other);
      other.toAdd := true;
    }

    /** RemoveComponent: mark the component toDelete (it is erased by the next
        UpdateComponents) and let go of the focus and the click if it holds
        them. */
    method RemoveComponent(other: Component)
      modifies this, set c | c in components
      ensures components == old(components)
      ensures forall c :: c in components ==> c.toDelete == (old(c.toDelete) || c == other)
      ensures forall c :: c in components ==>
        c.visible == old(c.visible) && c.toAdd == old(c.toAdd) && c.position == old(c.position) && c.parent == old(c.parent)
      ensures focused == (if old(focused) == other then null else old(focused))
      ensures clicked == (if old(clicked) == other then null else old(clicked))
      ensures events == old(events) + (if old(focused) == other then [Defocus(other)] else [])
    {
      var i := 0;
      while i < |components|
        invariant 0 <= i <= |components|
        invariant components == old(components) && focused == old(focused) && clicked == old(clicked)
        invariant events == old(events)
        invariant forall c :: c in components ==>
          c.toDelete == (old(c.toDelete) || (c == other && other in components[..i]))
        invariant forall c :: c in components ==>
          c.visible == old(c.visible) && c.toAdd == old(c.toAdd) && c.position == old(c.position) && c.parent == old(c.parent)
      {
        if components[i] == other {
          components[i].toDelete := true;
        }
        assert components[..i + 1] == components[..i] + [components[i]];
        i := i + 1;
      }
      assert components[..i] == components;
      if other == focused {
        FocusComponent(null);
      }
      if other == clicked {
        clicked := null;
      }
    }

    /** UpdateComponents, for the window's own components: walking from the
        last to the first, erase those marked toDelete (detached from the
        window; freeing them is not modelled) and show those marked toAdd. */
    method UpdateComponents()
      requires Distinct()
      modifies this, set c | c in components
      ensures components == old(Kept(components)) && Distinct()
      ensures focused == old(focused) && clicked == old(clicked) && events == old(events)
      ensures forall c :: c in old(components) ==> c.toDelete == old(c.toDelete) && c.position == old(c.position)
      ensures forall c :: c in old(components) && c.toDelete ==> c.parent == null
      ensures forall c :: c in old(components) && !c.toDelete ==>
        c.parent == old(c.parent) && !c.toAdd && c.visible == (old(c.visible) || old(c.toAdd))
    {
      ghost var del := seq(|components|, k requires 0 <= k < |components| reads this, components => components[k].toDelete);
      KeptIsFilter(components, del);
      EraseMarked(del);
    }

    /** The loop of UpdateComponents, with the marks it meets given
        beforehand as del. */
    method EraseMarked(ghost del: seq<bool>)
      requires Distinct() && |del| == |components|
      requires forall k :: 0 <= k < |components| ==> del[k] == components[k].toDelete
      modifies this, set c | c in components
      ensures components == Filter(old(components), del) && Distinct()
      ensures focused == old(focused) && clicked == old(clicked) && events == old(events)
      ensures forall c :: c in old(components) ==> c.toDelete == old(c.toDelete) && c.position == old(c.position)
      ensures forall c :: c in old(components) && c.toDelete ==> c.parent == null
      ensures forall c :: c in old(components) && !c.toDelete ==>
        c.parent == old(c.parent) && !c.toAdd && c.visible == (old(c.visible) || old(c.toAdd))
    {
      ghost var cs := components;
      var i := |components|;
      while i > 0
        invariant 0 <= i <= |cs|
        invariant components == cs[..i] + Filter(cs[i..], del[i..])
        invariant focused == old(focused) && clicked == old(clicked) && events == old(events)
        invariant forall k :: 0 <= k < |cs| ==> cs[k].toDelete == del[k] && cs[k].position == old(cs[k].position)
        invariant forall k :: 0 <= k < |cs| ==>
          if k < i then
            cs[k].visible == old(cs[k].visible) && cs[k].toAdd == old(cs[k].toAdd) && cs[k].parent == old(cs[k].parent)
          else if del[k] then cs[k].parent == null
          else cs[k].parent == old(cs[k].parent) && !cs[k].toAdd && cs[k].visible == (old(cs[k].visible) || old(cs[k].toAdd))
      {
        i := i - 1;
        SettleAt(cs, del, i);
      }
      FilterDistinct(cs, del);
    }

    /** One pass of UpdateComponents' loop: settle component i and, if it is
        marked for deletion, take it out of the list. */
    method SettleAt(ghost cs: seq<Component>, ghost del: seq<bool>, i: int)
      requires |del| == |cs| && 0 <= i < |cs| && cs[i].toDelete == del[i]
      requires components == cs[..i + 1] + Filter(cs[i + 1..], del[i + 1..])
      modifies this`components, cs[i]
      ensures components == cs[..i] + Filter(cs[i..], del[i..])
      ensures cs[i].toDelete == old(cs[i].toDelete) && cs[i].position == old(cs[i].position)
      ensures del[i] ==> cs[i].parent == null
      ensures !del[i] ==>
        cs[i].parent == old(cs[i].parent) && !cs[i].toAdd && cs[i].visible == (old(cs[i].visible) || old(cs[i].toAdd))
    {
      EraseStep(cs, del, i, components);
      var c := components[i];
      c.Settle();
      if c.toDelete {
        components := components[..i] + components[i + 1..];
      }
    }
  }
}

// The per-particle animation frames of ANIM
// (src/simulation/elements/ANIM.h, class ANIM_ElementDataContainer): reading
// and writing one frame, loading and reading a whole animation, and the
// frame stepping of the animation tools. Each particle's frame buffer is a
// sequence of maxFrames colours, or None when the particle has none.
module Anim {
  import opened Defines
  import opened Parts
  import opened Wrappers

  /** The conversion of a C int to unsigned int. */
  function U32(x: int): (r: int)
    ensures 0 <= r < 0x1_0000_0000
    ensures 0 <= x < 0x1_0000_0000 ==> r == x
    ensures -0x1_0000_0000 <= x < 0 ==> r == x + 0x1_0000_0000
  {
    x % 0x1_0000_0000
  }

  predicate IsInt32(x: int)
  {
    -0x8000_0000 <= x < 0x8000_0000
  }

  function Min(a: int, b: int): int { if a < b then a else b }

  /** A frame buffer has exactly maxFrames colours. */
  predicate Sized(a: Option<seq<int>>, m: int)
  {
    a.Some? ==> |a.value| == m
  }

  /** GetColor: frame tmp2 of a buffer, or 0 when there is no buffer or the
      frame number is outside 0..maxFrames-1. */
  function ColorAt(a: Option<seq<int>>, tmp2: int, m: int): (r: int)
    requires Sized(a, m)
    ensures r != 0 ==> a.Some? && 0 <= tmp2 < m && r == a.value[tmp2]
  {
    if a.None? || tmp2 < 0 || tmp2 >= m then 0 else a.value[tmp2]
  }

  /** SetColor: frame tmp2 takes the colour; an invalid frame is ignored. Every
      other frame reads as before, and a valid one reads back the colour. */
  function SetColorIn(a: Option<seq<int>>, tmp2: int, color: int, m: int): (r: Option<seq<int>>)
    requires Sized(a, m)
    ensures Sized(r, m) && r.Some? == a.Some?
    ensures forall t :: ColorAt(r, t, m) == (if t == tmp2 && a.Some? && 0 <= t < m then color else ColorAt(a, t, m))
  {
    if a.None? || tmp2 < 0 || tmp2 >= m then a else Some(a.value[tmp2 := color])
  }

  /** The buffer SetAllColors builds: the first colours, as many as maxLength
      (taken as unsigned) and the list allow, then zeroes. */
  function Loaded(colors: seq<int>, maxLength: int, m: nat): (r: seq<int>)
  {
    seq(m, j requires 0 <= j < m => if j < U32(maxLength) && j < |colors| then colors[j] else 0)
  }

  /** A loaded buffer holds the given colours up to the shorter of maxLength
      and the list, and zeroes after them. */
  lemma LoadedFrames(colors: seq<int>, maxLength: int, m: nat)
    requires 0 <= maxLength < 0x8000_0000
    ensures var n := Min(Min(maxLength, m), |colors|);
      Loaded(colors, maxLength, m)[..n] == colors[..n] &&
      forall j :: n <= j < m ==> Loaded(colors, maxLength, m)[j] == 0
  {
    assert U32(maxLength) == maxLength;
  }

  /** Reading back a loaded animation with the same length bound gives the
      colours that were loaded, when the list is long enough. */
  lemma AllColorsRoundTrip(colors: seq<int>, maxLength: int, m: nat)
    requires 0 <= maxLength < 0x8000_0000 && Min(maxLength, m) <= |colors|
    ensures Loaded(colors, maxLength, m)[..Min(U32(maxLength), m)] == colors[..Min(maxLength, m)]
  {
    LoadedFrames(colors, maxLength, m);
  }

  /** The frame the animation tools move to, and whether the previous frame
      may be copied into it. */
  datatype FrameStep = FrameStep(framenum: int, canCopy: bool)

  /** NewFrame's choice of frame, as written: tmp2 + 1 taken as unsigned, or
      the last frame (without copying) when that is past the end. */
  function NextFrameAsWritten(tmp2: int, m: int): FrameStep
  {
    var f := U32(tmp2 + 1);
    if f >= m then FrameStep(m - 1, false) else FrameStep(f, true)
  }

  /** The frame NewFrame copies from, animations[i][framenum - 1], taken as
      unsigned. */
  function CopySource(s: FrameStep): int
  {
    U32(s.framenum - 1)
  }

  /** With tmp2 == -1 the new frame is 0, copying is allowed, and the frame
      copied from is 0xFFFFFFFF, past the end of every buffer. */
  lemma CopyReadsPastEnd(m: int)
    requires 0 < m < 0x8000_0000
    ensures NextFrameAsWritten(-1, m).canCopy && CopySource(NextFrameAsWritten(-1, m)) >= m
  {
  }

  /** NewFrame's choice of frame, with copying allowed only when there is a
      frame before the new one. The new frame is always a valid frame; it is
      tmp2 + 1 when copying, which happens exactly when tmp2 and tmp2 + 1
      are both frames. */
  function NextFrame(tmp2: int, m: int): (r: FrameStep)
    requires 0 < m < 0x8000_0000
    ensures 0 <= r.framenum < m
    ensures r.canCopy ==> 0 <= CopySource(r) < m && CopySource(r) == r.framenum - 1
    ensures IsInt32(tmp2) ==> (r.canCopy <==> 0 <= tmp2 && tmp2 + 1 < m)
    ensures IsInt32(tmp2) && r.canCopy ==> r.framenum == tmp2 + 1
  {
    var f := U32(tmp2 + 1);
    if f >= m then FrameStep(m - 1, false) else FrameStep(f, f >= 1)
  }

  /** The two choices agree except for tmp2 == -1. */
  lemma NextFrameAgrees(tmp2: int, m: int)
    requires 0 < m < 0x8000_0000 && IsInt32(tmp2) && tmp2 != -1
    ensures NextFrame(tmp2, m) == NextFrameAsWritten(tmp2, m)
  {
  }

  /** PreviousFrame's frame: one back, never below 0. */
  function PreviousFrameNumber(tmp2: int): (r: int)
    ensures 0 <= r && (tmp2 > 0 ==> r == tmp2 - 1) && (tmp2 <= 0 ==> r == 0)
  {
    if tmp2 <= 0 then 0 else tmp2 - 1
  }

  /** DeleteFrame's frame: tmp2, or 0 when it is negative. */
  function DeleteFrameNumber(tmp2: int): int
  {
    if tmp2 < 0 then 0 else tmp2
  }

  /** The buffer after frame f is deleted: the frames after f move down by one
      and the last frame stays as it was. */
  function ShiftDown(a: seq<int>, f: int): (r: seq<int>)
  {
    seq(|a|, j requires 0 <= j < |a| => if f <= j < |a| - 1 then a[j + 1] else a[j])
  }

  /** The first particle of type t among the first n. */
  function FirstOfType(s: seq<Particle>, n: int, t: int): (r: Option<int>)
    requires n <= |s|
    ensures r.Some? ==> 0 <= r.value < n && s[r.value].ptype == t && forall k :: 0 <= k < r.value ==> s[k].ptype != t
    ensures r.None? ==> forall k :: 0 <= k < n ==> s[k].ptype != t
  {
    if n <= 0 then None
    else
      var f := FirstOfType(s, n - 1, t);
      if f.Some? then f else if s[n - 1].ptype == t then Some(n - 1) else None
  }

  /** The first particle of type t found at i is the first among any longer
      prefix. */
  lemma FirstAt(s: seq<Particle>, i: int, n: int, t: int)
    requires 0 <= i < n <= |s| && FirstOfType(s, i, t).None? && s[i].ptype == t
    ensures FirstOfType(s, n, t) == Some(i)
  {
    assert FirstOfType(s, n, t).Some?;
  }

  /** One ANIM particle moved to a new frame by NewFrame: its timer is
      reset, it shows the new frame, its frame count is raised to cover it
      (a negative count, read as unsigned, is never raised), and with
      copying the previous frame's colour is copied into the new frame. */
  function NewFrameOne(p: Particle, a: Option<seq<int>>, s: FrameStep, doCopy: bool, m: int): (r: (Particle, Option<seq<int>>))
    requires Sized(a, m) && 0 <= s.framenum < m
    requires doCopy && s.canCopy ==> a.Some? && 1 <= s.framenum
    ensures Sized(r.1, m)
  {
    var a' := if doCopy && s.canCopy then Some(a.value[s.framenum := a.value[s.framenum - 1]]) else a;
    var ctype := if s.framenum > U32(p.ctype) then s.framenum else p.ctype;
    (p.(tmp := 0, tmp2 := s.framenum, ctype := ctype, dcolour := ColorAt(a', s.framenum, m)), a')
  }

  /** After NewFrame an ANIM particle shows a valid frame, its frame count
      covers that frame unless the count was negative, and it displays that
      frame's colour. */
  lemma NewFrameShowsFrame(p: Particle, a: Option<seq<int>>, s: FrameStep, doCopy: bool, m: int)
    requires Sized(a, m) && 0 <= s.framenum < m && m < 0x8000_0000
    requires doCopy && s.canCopy ==> a.Some? && 1 <= s.framenum
    ensures var (q, b) := NewFrameOne(p, a, s, doCopy, m);
      0 <= q.tmp2 < m && q.tmp == 0 &&
      (0 <= p.ctype < 0x1_0000_0000 ==> q.ctype >= q.tmp2) &&
      q.dcolour == ColorAt(b, q.tmp2, m) &&
      (doCopy && s.canCopy ==> b.value[s.framenum] == a.value[s.framenum - 1])
  {
  }

  /** One ANIM particle moved back by PreviousFrame. */
  function PreviousFrameOne(p: Particle, a: Option<seq<int>>, f: int, m: int): Particle
    requires Sized(a, m)
  {
    p.(tmp := 0, tmp2 := f, dcolour := ColorAt(a, f, m))
  }

  /** One ANIM particle after DeleteFrame removed frame f: the frames after f
      move down, a nonzero frame count at or past f drops by one, and the
      shown frame is clamped to the count. */
  function DeleteFrameOne(p: Particle, a: seq<int>, f: int, m: int): (r: (Particle, seq<int>))
    requires |a| == m
    ensures |r.1| == m
  {
    var a' := ShiftDown(a, f);
    var ctype := if p.ctype >= f && p.ctype != 0 then p.ctype - 1 else p.ctype;
    var tmp2 := if p.tmp2 > ctype then ctype else p.tmp2;
    (p.(ctype := ctype, tmp2 := tmp2, dcolour := ColorAt(Some(a'), tmp2, m)), a')
  }

  /** After DeleteFrame the shown frame is at most the frame count, and the
      frames past the deleted one have moved down by one. */
  lemma DeleteFrameClamps(p: Particle, a: seq<int>, f: int, m: int)
    requires |a| == m && 0 <= f
    ensures var (q, b) := DeleteFrameOne(p, a, f, m);
      q.tmp2 <= q.ctype && q.tmp2 <= p.tmp2 &&
      (p.ctype != 0 && p.ctype >= f ==> q.ctype == p.ctype - 1) &&
      (forall j :: 0 <= j < f && j < m ==> b[j] == a[j]) &&
      (forall j :: f <= j < m - 1 ==> b[j] == a[j + 1]) &&
      (m > 0 ==> b[m - 1] == a[m - 1])
  {
  }

  /** The three animation tools, which step every ANIM particle together. */
  datatype FrameTool = NewFrameTool(doCopy: bool) | PreviousFrameTool | DeleteFrameTool

  /** The tool needs the particle's buffer: NewFrame when copying, and
      DeleteFrame. */
  predicate NeedsBuffer(tool: FrameTool)
  {
    (tool.NewFrameTool? && tool.doCopy) || tool.DeleteFrameTool?
  }

  /** One ANIM particle and its buffer after a tool, where first is the tmp2
      of the first ANIM particle, from which the frame number is taken. */
  function ToolOne(tool: FrameTool, p: Particle, a: Option<seq<int>>, first: int, m: int): (r: (Particle, Option<seq<int>>))
    requires Sized(a, m) && 0 < m < 0x8000_0000
    requires NeedsBuffer(tool) ==> a.Some?
    ensures Sized(r.1, m)
  {
    match tool
    case NewFrameTool(doCopy) => NewFrameOne(p, a, NextFrame(first, m), doCopy, m)
    case PreviousFrameTool => (PreviousFrameOne(p, a, PreviousFrameNumber(first), m), a)
    case DeleteFrameTool =>
      var (q, b) := DeleteFrameOne(p, a.value, DeleteFrameNumber(first), m);
      (q, Some(b))
  }

  /** The table and buffers a tool works on: one buffer slot per particle,
      each of maxFrames colours, and a buffer for each ANIM particle up to
      lastActive when the tool needs one. */
  ghost predicate ToolReady(tool: FrameTool, s: seq<Particle>, bufs: seq<Option<seq<int>>>, lastActive: int, t: int, m: int)
  {
    |s| == |bufs| && 0 <= lastActive < |s| && 0 < m < 0x8000_0000 &&
    (forall i :: 0 <= i < |bufs| ==> Sized(bufs[i], m)) &&
    (NeedsBuffer(tool) ==> forall i :: 0 <= i <= lastActive && s[i].ptype == t ==> bufs[i].Some?)
  }

  /** Slot k after a tool: the ANIM particles up to lastActive are stepped,
      all with the frame number taken from the first of them; every other
      slot is left alone. */
  ghost function ToolAt(tool: FrameTool, s: seq<Particle>, bufs: seq<Option<seq<int>>>, k: int, lastActive: int, t: int, m: int): (Particle, Option<seq<int>>)
    requires ToolReady(tool, s, bufs, lastActive, t, m) && 0 <= k < |s|
  {
    if k <= lastActive && s[k].ptype == t then
      ToolOne(tool, s[k], bufs[k], s[FirstOfType(s, lastActive + 1, t).value].tmp2, m)
    else (s[k], bufs[k])
  }

  /** The table and buffers once a tool has been through the first n
      slots: ToolAt in each ANIM slot before n, the rest as they were. */
  ghost function Applied(tool: FrameTool, s: seq<Particle>, bufs: seq<Option<seq<int>>>, n: int, lastActive: int, t: int, m: int): (r: (seq<Particle>, seq<Option<seq<int>>>))
    requires ToolReady(tool, s, bufs, lastActive, t, m) && 0 <= n <= |s|
    ensures |r.0| == |s| && |r.1| == |s|
  {
    if n == 0 then (s, bufs)
    else
      var r := Applied(tool, s, bufs, n - 1, lastActive, t, m);
      if n - 1 <= lastActive && s[n - 1].ptype == t then
        var (q, b) := ToolAt(tool, s, bufs, n - 1, lastActive, t, m);
        (r.0[n - 1 := q], r.1[n - 1 := b])
      else r
  }

  /** Slot k of Applied: ToolAt's result once the tool has passed it, and
      the original slot before. */
  lemma {:induction false} AppliedAt(tool: FrameTool, s: seq<Particle>, bufs: seq<Option<seq<int>>>, n: int, lastActive: int, t: int, m: int, k: int)
    requires ToolReady(tool, s, bufs, lastActive, t, m) && 0 <= n <= |s| && 0 <= k < |s|
    ensures var r := Applied(tool, s, bufs, n, lastActive, t, m);
      (r.0[k], r.1[k]) == if k < n then ToolAt(tool, s, bufs, k, lastActive, t, m) else (s[k], bufs[k])
  {
    if n > 0 {
      AppliedAt(tool, s, bufs, n - 1, lastActive, t, m, k);
    }
  }

  /** After NewFrame every ANIM particle up to lastActive shows the same
      valid frame, one past the first one's frame when that was a frame
      before the last. */
  lemma NewFrameSynchronises(doCopy: bool, s: seq<Particle>, bufs: seq<Option<seq<int>>>, lastActive: int, t: int, m: int, i: int, k: int)
    requires ToolReady(NewFrameTool(doCopy), s, bufs, lastActive, t, m)
    requires 0 <= i <= lastActive && 0 <= k <= lastActive && s[i].ptype == t && s[k].ptype == t
    ensures var q := ToolAt(NewFrameTool(doCopy), s, bufs, i, lastActive, t, m).0;
      q.tmp2 == ToolAt(NewFrameTool(doCopy), s, bufs, k, lastActive, t, m).0.tmp2 && 0 <= q.tmp2 < m &&
      var first := s[FirstOfType(s, lastActive + 1, t).value].tmp2;
      (IsInt32(first) && 0 <= first < m - 1 ==> q.tmp2 == first + 1)
  {
  }

  /** After PreviousFrame every ANIM particle up to lastActive shows the same
      frame, one before the first one's, and never below frame 0. */
  lemma PreviousFrameSynchronises(s: seq<Particle>, bufs: seq<Option<seq<int>>>, lastActive: int, t: int, m: int, i: int)
    requires ToolReady(PreviousFrameTool, s, bufs, lastActive, t, m)
    requires 0 <= i <= lastActive && s[i].ptype == t
    ensures var q := ToolAt(PreviousFrameTool, s, bufs, i, lastActive, t, m).0;
      var first := s[FirstOfType(s, lastActive + 1, t).value].tmp2;
      q.tmp2 >= 0 && q.tmp2 == (if first > 0 then first - 1 else 0)
  {
  }

  /** The animation data of every particle slot, beside the particle table. */
  class Animations {
    const parts: array<Particle>
    var animations: seq<Option<seq<int>>>
    var maxFrames: int

    /** One buffer slot per particle, each buffer maxFrames long. */
    ghost predicate Valid()
      reads this, parts
    {
      parts.Length == NPART && |animations| == NPART && 0 < maxFrames < 0x8000_0000 &&
      forall i :: 0 <= i < NPART ==> Sized(animations[i], maxFrames)
    }

    /** No particle has a buffer, and there are 25 frames. */
    constructor (parts: array<Particle>)
      requires parts.Length == NPART
      ensures Valid() && this.parts == parts && maxFrames == 25
      ensures forall i :: 0 <= i < NPART ==> animations[i].None?
    {
      this.parts := parts;
      animations := seq(NPART, _ => None);
      maxFrames := 25;
    }

    /** InitlializePart: particle i gets a buffer of maxFrames zeroes. */
    method InitializePart(i: int)
      requires Valid() && 0 <= i < NPART
      modifies this`animations
      ensures Valid()
      ensures animations == old(animations)[i := Some(seq(maxFrames, _ => 0))]
    {
      animations := animations[i := Some(seq(maxFrames, _ => 0))];
    }

    /** FreePart: particle i's buffer is released. */
    method FreePart(i: int)
      requires Valid() && 0 <= i < NPART
      modifies this`animations
      ensures Valid()
      ensures animations == old(animations)[i := None]
    {
      animations := animations[i := None];
    }

    /** SetColor. */
    method SetColor(i: int, tmp2: int, color: int)
      requires Valid() && 0 <= i < NPART
      modifies this`animations
      ensures Valid()
      ensures animations == old(animations)[i := SetColorIn(old(animations[i]), tmp2, color, maxFrames)]
    {
      if animations[i].None? || tmp2 < 0 || tmp2 >= maxFrames {
        return;
      }
      animations := animations[i := Some(animations[i].value[tmp2 := color])];
    }

    /** GetAllColors: the first frames of particle i's buffer, as many as
        maxLength (taken as unsigned) allows. */
    method GetAllColors(i: int, maxLength: int) returns (colors: seq<int>)
      requires Valid() && 0 <= i < NPART && animations[i].Some?
      ensures colors == animations[i].value[..Min(U32(maxLength), maxFrames)]
    {
      var a := animations[i].value;
      colors := [];
      var j := 0;
      while j < U32(maxLength) && j < maxFrames
        invariant 0 <= j <= Min(U32(maxLength), maxFrames)
        invariant colors == a[..j]
      {
        colors := colors + [a[j]];
        j := j + 1;
      }
    }

    /** SetAllColors: particle i's frame count becomes min(maxLength,
        maxFrames) - 1 and it gets a fresh buffer loaded from the colours. */
    method SetAllColors(i: int, colors: seq<int>, maxLength: int)
      requires Valid() && 0 <= i < NPART
      modifies this`animations, parts
      ensures Valid()
      ensures parts[..] == old(parts[..])[i := old(parts[i]).(ctype := Min(maxLength, maxFrames) - 1)]
      ensures animations == old(animations)[i := Some(Loaded(colors, maxLength, maxFrames))]
    {
      var buf := new int[maxFrames];
      for j := 0 to maxFrames
        invariant animations == old(animations) && parts[..] == old(parts[..])
        invariant forall k :: 0 <= k < j ==> buf[k] == Loaded(colors, maxLength, maxFrames)[k]
      {
        if j < U32(maxLength) && j < |colors| {
          buf[j] := colors[j];
        } else {
          buf[j] := 0;
        }
      }
      assert buf[..] == Loaded(colors, maxLength, maxFrames);
      var animLen := Min(maxLength, maxFrames);
      parts[i] := parts[i].(ctype := animLen - 1);
      animations := animations[i := Some(buf[..])];
    }

    /** The body of NewFrame's loop for one ANIM particle. */
    method NewFrameParticle(i: int, framenum: int, canCopy: bool, doCopy: bool)
      requires Valid() && 0 <= i < NPART && 0 <= framenum < maxFrames
      requires doCopy && canCopy ==> animations[i].Some? && 1 <= framenum
      modifies this`animations, parts
      ensures Valid()
      ensures var (p, a) := NewFrameOne(old(parts[i]), old(animations[i]), FrameStep(framenum, canCopy), doCopy, maxFrames);
        parts[..] == old(parts[..])[i := p] && animations == old(animations)[i := a]
    {
      var p := parts[i].(tmp := 0, tmp2 := framenum);
      if framenum > U32(p.ctype) {
        p := p.(ctype := framenum);
      }
      if doCopy && canCopy {
        var a := animations[i].value;
        animations := animations[i := Some(a[framenum := a[framenum - 1]])];
      }
      parts[i] := p.(dcolour := ColorAt(animations[i], framenum, maxFrames));
    }

    /** The body of DeleteFrame's loop for one ANIM particle. */
    method DeleteFrameParticle(i: int, framenum: int)
      requires Valid() && 0 <= i < NPART && 0 <= framenum && animations[i].Some?
      modifies this`animations, parts
      ensures Valid()
      ensures var (p, a) := DeleteFrameOne(old(parts[i]), old(animations[i].value), framenum, maxFrames);
        parts[..] == old(parts[..])[i := p] && animations == old(animations)[i := Some(a)]
    {
      var a := ShiftBuffer(i, framenum);
      var ctype, tmp2 := parts[i].ctype, parts[i].tmp2;
      if ctype >= framenum && ctype != 0 {
        ctype := ctype - 1;
      }
      if tmp2 > ctype {
        tmp2 := ctype;
      }
      parts[i] := parts[i].(ctype := ctype, tmp2 := tmp2, dcolour := ColorAt(Some(a), tmp2, maxFrames));
    }

    /** DeleteFrame's frame shift in the buffer of slot i. */
    method ShiftBuffer(i: int, framenum: int) returns (a: seq<int>)
      requires Valid() && 0 <= i < NPART && 0 <= framenum && animations[i].Some?
      modifies this`animations
      ensures Valid() && a == ShiftDown(old(animations[i].value), framenum)
      ensures animations == old(animations)[i := Some(a)]
    {
      a := ShiftFrames(animations[i].value, framenum);
      animations := animations[i := Some(a)];
    }

    /** The frame-shifting loop of DeleteFrame, on one buffer. */
    static method ShiftFrames(a: seq<int>, f: int) returns (r: seq<int>)
      requires 0 <= f
      ensures r == ShiftDown(a, f)
    {
      r := a;
      var j := f;
      while j < |a| - 1
        invariant |r| == |a| && f <= j && (j <= |a| - 1 || j == f)
        invariant forall k :: 0 <= k < |a| && !(f <= k < j) ==> r[k] == a[k]
        invariant forall k :: f <= k < j ==> r[k] == a[k + 1]
      {
        r := r[j := r[j + 1]];
        j := j + 1;
      }
      assert forall k :: 0 <= k < |a| ==> r[k] == ShiftDown(a, f)[k];
    }

    /** NewFrame: every ANIM particle up to lastActive moves to the frame
        after the first one's (see NextFrame), copying the previous frame's
        colour when doCopy is set; nothing else changes. */
    method NewFrame(anim: int, lastActive: int, doCopy: bool)
      requires Valid() && ToolReady(NewFrameTool(doCopy), parts[..], animations, lastActive, anim, maxFrames)
      modifies this`animations, parts
      ensures Valid()
      ensures forall k :: 0 <= k < NPART ==>
        (parts[k], animations[k]) == ToolAt(NewFrameTool(doCopy), old(parts[..]), old(animations), k, lastActive, anim, maxFrames)
    {
      ghost var s0, a0, m := parts[..], animations, maxFrames;
      ghost var fo := FirstOfType(s0, lastActive + 1, anim);
      var framenum := 0;
      var canCopy := true;
      var got := false;
      for i := 0 to lastActive + 1
        invariant Valid() && |animations| == NPART
        invariant got == FirstOfType(s0, i, anim).Some?
        invariant got ==> fo.Some? && FrameStep(framenum, canCopy) == NextFrame(s0[fo.value].tmp2, m)
        invariant (parts[..], animations) == Applied(NewFrameTool(doCopy), s0, a0, i, lastActive, anim, m)
      {
        AppliedAt(NewFrameTool(doCopy), s0, a0, i, lastActive, anim, m, i);
        if parts[i].ptype == anim {
          if !got {
            FirstAt(s0, i, lastActive + 1, anim);
            var st := NextFrame(parts[i].tmp2, maxFrames);
            framenum, canCopy := st.framenum, st.canCopy;
            got := true;
          }
          NewFrameParticle(i, framenum, canCopy, doCopy);
        }
      }
      forall k | 0 <= k < NPART
        ensures (parts[k], animations[k]) == ToolAt(NewFrameTool(doCopy), s0, a0, k, lastActive, anim, m)
      {
        AppliedAt(NewFrameTool(doCopy), s0, a0, lastActive + 1, lastActive, anim, m, k);
      }
    }

    /** PreviousFrame: every ANIM particle up to lastActive moves to the frame
        before the first one's, never below 0; nothing else changes. */
    method PreviousFrame(anim: int, lastActive: int)
      requires Valid() && ToolReady(PreviousFrameTool, parts[..], animations, lastActive, anim, maxFrames)
      modifies parts
      ensures Valid()
      ensures forall k :: 0 <= k < NPART ==>
        (parts[k], animations[k]) == ToolAt(PreviousFrameTool, old(parts[..]), animations, k, lastActive, anim, maxFrames)
    {
      ghost var s0, a0, m := parts[..], animations, maxFrames;
      ghost var fo := FirstOfType(s0, lastActive + 1, anim);
      var framenum := 0;
      var got := false;
      for i := 0 to lastActive + 1
        invariant got == FirstOfType(s0, i, anim).Some?
        invariant got ==> fo.Some? && framenum == PreviousFrameNumber(s0[fo.value].tmp2)
        invariant parts[..] == Applied(PreviousFrameTool, s0, a0, i, lastActive, anim, m).0
      {
        ghost var pre := parts[..];
        AppliedAt(PreviousFrameTool, s0, a0, i, lastActive, anim, m, i);
        if parts[i].ptype == anim {
          if !got {
            FirstAt(s0, i, lastActive + 1, anim);
            framenum := PreviousFrameNumber(parts[i].tmp2);
            got := true;
          }
          parts[i] := parts[i].(tmp := 0, tmp2 := framenum, dcolour := ColorAt(animations[i], framenum, maxFrames));
          assert parts[..] == pre[i := parts[i]];
          assert parts[i] == ToolAt(PreviousFrameTool, s0, a0, i, lastActive, anim, m).0;
        }
      }
      forall k | 0 <= k < NPART
        ensures parts[k] == ToolAt(PreviousFrameTool, s0, a0, k, lastActive, anim, m).0
      {
        AppliedAt(PreviousFrameTool, s0, a0, lastActive + 1, lastActive, anim, m, k);
      }
    }

    /** DeleteFrame: for every ANIM particle up to lastActive, the frame the
        first one shows is deleted (see DeleteFrameOne); nothing else
        changes. */
    method DeleteFrame(anim: int, lastActive: int)
      requires Valid() && ToolReady(DeleteFrameTool, parts[..], animations, lastActive, anim, maxFrames)
      modifies this`animations, parts
      ensures Valid()
      ensures forall k :: 0 <= k < NPART ==>
        (parts[k], animations[k]) == ToolAt(DeleteFrameTool, old(parts[..]), old(animations), k, lastActive, anim, maxFrames)
    {
      ghost var s0, a0, m := parts[..], animations, maxFrames;
      ghost var fo := FirstOfType(s0, lastActive + 1, anim);
      var framenum := 0;
      var got := false;
      for i := 0 to lastActive + 1
        invariant Valid() && |animations| == NPART
        invariant got == FirstOfType(s0, i, anim).Some?
        invariant got ==> fo.Some? && framenum == DeleteFrameNumber(s0[fo.value].tmp2)
        invariant (parts[..], animations) == Applied(DeleteFrameTool, s0, a0, i, lastActive, anim, m)
      {
        AppliedAt(DeleteFrameTool, s0, a0, i, lastActive, anim, m, i);
        if parts[i].ptype == anim {
          if !got {
            FirstAt(s0, i, lastActive + 1, anim);
            framenum := DeleteFrameNumber(parts[i].tmp2);
            got := true;
          }
          DeleteFrameParticle(i, framenum);
        }
      }
      forall k | 0 <= k < NPART
        ensures (parts[k], animations[k]) == ToolAt(DeleteFrameTool, s0, a0, k, lastActive, anim, m)
      {
        AppliedAt(DeleteFrameTool, s0, a0, lastActive + 1, lastActive, anim, m, k);
      }
    }
  }
}

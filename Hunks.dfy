// The generic difference types of src/simulation/SnapshotDelta.h: a hunk
// vector records, for two streams of items, every maximal run of positions
// where they differ, with the old and the new value at each position; a single
// diff records one value that changed as a whole.
module Hunks {
  datatype Diff<T> = Diff(oldItem: T, newItem: T)

  datatype Hunk<T> = Hunk(offset: nat, diffs: seq<Diff<T>>)

  datatype SingleDiff<T> = SingleDiff(valid: bool, diff: Diff<T>)

  /** One past the last position a hunk covers. */
  function End<T>(h: Hunk<T>): nat { h.offset + |h.diffs| }

  predicate Covers<T>(h: Hunk<T>, p: int) { h.offset <= p < End(h) }

  /** Position p lies in some hunk of hs. */
  predicate Covered<T>(hs: seq<Hunk<T>>, p: int)
  {
    exists k :: 0 <= k < |hs| && Covers(hs[k], p)
  }

  /** The value a diff supplies when applied towards the old or the new stream. */
  function Pick<T>(d: Diff<T>, useOld: bool): T
  {
    if useOld then d.oldItem else d.newItem
  }

  /** Hunks appear in increasing offset order and no two overlap or touch. */
  predicate Separated<T>(hs: seq<Hunk<T>>)
  {
    forall k, l :: 0 <= k < l < |hs| ==> End(hs[k]) < hs[l].offset
  }

  /** Every hunk fits in a stream of length n. */
  predicate InBounds<T>(hs: seq<Hunk<T>>, n: int)
  {
    forall k :: 0 <= k < |hs| ==> End(hs[k]) <= n
  }

  /** Hunk h is a non-empty run of differing positions below size whose diffs
      record the old and the new item at each of them. */
  predicate HunkOf<T(==)>(h: Hunk<T>, oldItems: seq<T>, newItems: seq<T>, size: nat)
    requires size <= |oldItems| && size <= |newItems|
  {
    0 < |h.diffs| && End(h) <= size &&
    forall j :: 0 <= j < |h.diffs| ==>
      h.diffs[j] == Diff(oldItems[h.offset + j], newItems[h.offset + j]) &&
      oldItems[h.offset + j] != newItems[h.offset + j]
  }

  /** hs describes exactly the differences of the first size items: its hunks are
      separated runs of differing positions, and every differing position below
      size is covered. Since hunks do not touch, each one is a maximal run. */
  predicate IsHunkVector<T(==)>(hs: seq<Hunk<T>>, oldItems: seq<T>, newItems: seq<T>, size: nat)
    requires size <= |oldItems| && size <= |newItems|
  {
    (forall k :: 0 <= k < |hs| ==> HunkOf(hs[k], oldItems, newItems, size)) &&
    Separated(hs) &&
    (forall p :: 0 <= p < size && oldItems[p] != newItems[p] ==> Covered(hs, p))
  }

  /** The stream s after one hunk is written into it. */
  function ApplyHunk<T>(h: Hunk<T>, s: seq<T>, useOld: bool): (r: seq<T>)
    requires End(h) <= |s|
    ensures |r| == |s|
  {
    seq(|s|, p requires 0 <= p < |s| => if Covers(h, p) then Pick(h.diffs[p - h.offset], useOld) else s[p])
  }

  /** The stream s after the hunks are written into it in order. */
  function ApplyAll<T>(hs: seq<Hunk<T>>, s: seq<T>, useOld: bool): (r: seq<T>)
    requires InBounds(hs, |s|)
    ensures |r| == |s|
  {
    if hs == [] then s
    else ApplyHunk(hs[|hs| - 1], ApplyAll(hs[..|hs| - 1], s, useOld), useOld)
  }

  /** Builds one hunk from the positions [offset, i) of the two streams
      (the closing branch of markDifferent). */
  method MakeHunk<T>(oldItems: seq<T>, newItems: seq<T>, offset: nat, i: nat) returns (h: Hunk<T>)
    requires offset <= i <= |oldItems| && i <= |newItems|
    ensures h.offset == offset && End(h) == i
    ensures forall j :: 0 <= j < |h.diffs| ==> h.diffs[j] == Diff(oldItems[offset + j], newItems[offset + j])
  {
    var diffs: seq<Diff<T>> := [];
    var j := 0;
    while j < i - offset
      invariant 0 <= j <= i - offset && |diffs| == j
      invariant forall m :: 0 <= m < j ==> diffs[m] == Diff(oldItems[offset + m], newItems[offset + m])
    {
      diffs := diffs + [Diff(oldItems[offset + j], newItems[offset + j])];
      j := j + 1;
    }
    h := Hunk(offset, diffs);
  }

  /** FillHunkVectorPtr: appends to out the hunks of the first size items. */
  method FillHunkVectorPtr<T(==)>(oldItems: seq<T>, newItems: seq<T>, out0: seq<Hunk<T>>, size: nat)
    returns (out: seq<Hunk<T>>)
    requires size <= |oldItems| && size <= |newItems|
    ensures |out0| <= |out| && out[..|out0|] == out0
    ensures IsHunkVector(out[|out0|..], oldItems, newItems, size)
  {
    var added: seq<Hunk<T>> := [];
    var i := 0;
    var different := false;
    var offset := 0;
    while i < size
      invariant 0 <= i <= size
      invariant different ==> offset < i && forall p :: offset <= p < i ==> oldItems[p] != newItems[p]
      invariant HunksBefore(added, oldItems, newItems, size, if different then offset else i)
    {
      var mark := oldItems[i] != newItems[i];
      if mark && !different {
        different := true;
        offset := i;
      } else if !mark && different {
        different := false;
        var h := MakeHunk(oldItems, newItems, offset, i);
        HunksBeforeAppend(added, h, oldItems, newItems, size, offset, i);
        added := added + [h];
      }
      i := i + 1;
    }
    if different {
      var h := MakeHunk(oldItems, newItems, offset, i);
      HunksBeforeAppend(added, h, oldItems, newItems, size, offset, i);
      added := added + [h];
    }
    out := out0 + added;
    assert out[|out0|..] == added;
  }

  /** The loop invariant of FillHunkVectorPtr: hs holds the hunks of the positions
      below bound, and its last hunk ends on a position where the streams agree. */
  ghost predicate HunksBefore<T>(hs: seq<Hunk<T>>, oldItems: seq<T>, newItems: seq<T>, size: nat, bound: nat)
  {
    size <= |oldItems| && size <= |newItems| && bound <= size &&
    (forall k :: 0 <= k < |hs| ==> HunkOf(hs[k], oldItems, newItems, size) && End(hs[k]) <= bound) &&
    Separated(hs) &&
    (hs != [] ==> (End(hs[|hs| - 1]) < size ==> oldItems[End(hs[|hs| - 1])] == newItems[End(hs[|hs| - 1])])) &&
    (forall p :: 0 <= p < bound && oldItems[p] != newItems[p] ==> Covered(hs, p))
  }

  lemma HunksBeforeAppend<T>(hs: seq<Hunk<T>>, h: Hunk<T>, oldItems: seq<T>, newItems: seq<T>, size: nat, offset: nat, i: nat)
    requires HunksBefore(hs, oldItems, newItems, size, offset)
    requires offset < i <= size && forall p :: offset <= p < i ==> oldItems[p] != newItems[p]
    requires i < size ==> oldItems[i] == newItems[i]
    requires h.offset == offset && End(h) == i
    requires forall j :: 0 <= j < |h.diffs| ==> h.diffs[j] == Diff(oldItems[offset + j], newItems[offset + j])
    ensures HunksBefore(hs + [h], oldItems, newItems, size, i)
  {
    var hs' := hs + [h];
    assert HunkOf(h, oldItems, newItems, size);
    if hs != [] {
      var last := End(hs[|hs| - 1]);
      assert last <= offset;
      assert last < offset;
    }
    forall k, l | 0 <= k < l < |hs'| ensures End(hs'[k]) < hs'[l].offset {
      if l < |hs| {
        assert hs'[k] == hs[k] && hs'[l] == hs[l];
      } else {
        assert End(hs[k]) <= End(hs[|hs| - 1]);
      }
    }
    forall p | 0 <= p < i && oldItems[p] != newItems[p] ensures Covered(hs', p) {
      if p < offset {
        var k :| 0 <= k < |hs| && Covers(hs[k], p);
        assert hs'[k] == hs[k];
      } else {
        assert Covers(hs'[|hs|], p);
      }
    }
  }

  /** FillHunkVector: the hunks of the common prefix of two streams; items past
      the shorter stream are never compared. */
  method FillHunkVector<T(==)>(oldItems: seq<T>, newItems: seq<T>, out0: seq<Hunk<T>>) returns (out: seq<Hunk<T>>)
    ensures |out0| <= |out| && out[..|out0|] == out0
    ensures var size := if |oldItems| < |newItems| then |oldItems| else |newItems|;
      IsHunkVector(out[|out0|..], oldItems, newItems, size)
  {
    var size := if |oldItems| < |newItems| then |oldItems| else |newItems|;
    out := FillHunkVectorPtr(oldItems, newItems, out0, size);
  }

  /** ApplyHunkVectorPtr: writes every hunk of in into items, taking the old
      values when useOld is set and the new values otherwise. */
  method ApplyHunkVectorPtr<T>(hunks: seq<Hunk<T>>, items: array<T>, useOld: bool)
    requires InBounds(hunks, items.Length)
    modifies items
    ensures items[..] == ApplyAll(hunks, old(items[..]), useOld)
  {
    var k := 0;
    while k < |hunks|
      invariant 0 <= k <= |hunks|
      invariant InBounds(hunks[..k], items.Length)
      invariant items[..] == ApplyAll(hunks[..k], old(items[..]), useOld)
    {
      var offset := hunks[k].offset;
      var diffs := hunks[k].diffs;
      ghost var before := items[..];
      var j := 0;
      while j < |diffs|
        invariant 0 <= j <= |diffs|
        invariant forall p :: 0 <= p < items.Length ==>
          items[p] == if offset <= p < offset + j then Pick(diffs[p - offset], useOld) else before[p]
      {
        items[offset + j] := if useOld then diffs[j].oldItem else diffs[j].newItem;
        j := j + 1;
      }
      assert hunks[..k + 1][..k] == hunks[..k];
      assert items[..] == ApplyHunk(hunks[k], before, useOld);
      k := k + 1;
    }
    assert hunks[..k] == hunks;
  }

  lemma {:induction false} ApplyOutside<T>(hs: seq<Hunk<T>>, s: seq<T>, useOld: bool, p: nat)
    requires InBounds(hs, |s|) && p < |s| && !Covered(hs, p)
    ensures ApplyAll(hs, s, useOld)[p] == s[p]
  {
    if hs != [] {
      var init := hs[..|hs| - 1];
      assert !Covers(hs[|hs| - 1], p);
      forall k | 0 <= k < |init| ensures !Covers(init[k], p) {
        assert init[k] == hs[k];
      }
      ApplyOutside(init, s, useOld, p);
    }
  }

  lemma {:induction false} ApplyInside<T>(hs: seq<Hunk<T>>, s: seq<T>, useOld: bool, k: nat, p: nat)
    requires InBounds(hs, |s|) && Separated(hs) && k < |hs| && Covers(hs[k], p)
    ensures p < |s| && ApplyAll(hs, s, useOld)[p] == Pick(hs[k].diffs[p - hs[k].offset], useOld)
  {
    var init := hs[..|hs| - 1];
    if k < |hs| - 1 {
      assert init[k] == hs[k];
      ApplyInside(init, s, useOld, k, p);
      assert End(hs[k]) < hs[|hs| - 1].offset;
    }
  }

  /** Applying a hunk vector changes exactly the covered positions: each takes the
      value its hunk records, every other position keeps its value. */
  lemma ApplyAt<T>(hs: seq<Hunk<T>>, s: seq<T>, useOld: bool, p: nat)
    requires InBounds(hs, |s|) && Separated(hs) && p < |s|
    ensures !Covered(hs, p) ==> ApplyAll(hs, s, useOld)[p] == s[p]
    ensures forall k :: 0 <= k < |hs| && Covers(hs[k], p) ==>
      ApplyAll(hs, s, useOld)[p] == Pick(hs[k].diffs[p - hs[k].offset], useOld)
  {
    if !Covered(hs, p) { ApplyOutside(hs, s, useOld, p); }
    forall k | 0 <= k < |hs| && Covers(hs[k], p)
      ensures ApplyAll(hs, s, useOld)[p] == Pick(hs[k].diffs[p - hs[k].offset], useOld)
    {
      ApplyInside(hs, s, useOld, k, p);
    }
  }

  /** B = A + d and A = B - d for one stream: applying the hunks of (oldItems,
      newItems) towards the new values turns the first size old items into the
      new ones, applying them towards the old values turns the new items back,
      and positions from size on are untouched either way. */
  lemma HunkVectorRoundTrip<T>(hs: seq<Hunk<T>>, oldItems: seq<T>, newItems: seq<T>, size: nat)
    requires size <= |oldItems| && size <= |newItems| && IsHunkVector(hs, oldItems, newItems, size)
    ensures InBounds(hs, |oldItems|) && InBounds(hs, |newItems|)
    ensures forall p :: 0 <= p < size ==> ApplyAll(hs, oldItems, false)[p] == newItems[p]
    ensures forall p :: 0 <= p < size ==> ApplyAll(hs, newItems, true)[p] == oldItems[p]
    ensures forall p :: size <= p < |oldItems| ==> ApplyAll(hs, oldItems, false)[p] == oldItems[p]
    ensures forall p :: size <= p < |newItems| ==> ApplyAll(hs, newItems, true)[p] == newItems[p]
  {
    forall p | 0 <= p < |oldItems|
      ensures ApplyAll(hs, oldItems, false)[p] == if p < size then newItems[p] else oldItems[p]
    {
      ApplyAt(hs, oldItems, false, p);
      if Covered(hs, p) {
        var k :| 0 <= k < |hs| && Covers(hs[k], p);
        assert HunkOf(hs[k], oldItems, newItems, size);
      }
    }
    forall p | 0 <= p < |newItems|
      ensures ApplyAll(hs, newItems, true)[p] == if p < size then oldItems[p] else newItems[p]
    {
      ApplyAt(hs, newItems, true, p);
      if Covered(hs, p) {
        var k :| 0 <= k < |hs| && Covers(hs[k], p);
        assert HunkOf(hs[k], oldItems, newItems, size);
      }
    }
  }

  /** For two streams of the same size (the fields of static size) the round trip
      is exact. */
  lemma HunkVectorRoundTripEqualSize<T>(hs: seq<Hunk<T>>, oldItems: seq<T>, newItems: seq<T>)
    requires |oldItems| == |newItems| && IsHunkVector(hs, oldItems, newItems, |oldItems|)
    ensures InBounds(hs, |oldItems|)
    ensures ApplyAll(hs, oldItems, false) == newItems
    ensures ApplyAll(hs, newItems, true) == oldItems
  {
    HunkVectorRoundTrip(hs, oldItems, newItems, |oldItems|);
  }

  /** FillSingleDiff: records the pair when the item type's operator== (whose
      verdict is same) says the values differ; otherwise out is left as it was. */
  function FillSingleDiff<T>(oldItem: T, newItem: T, same: bool, out: SingleDiff<T>): (r: SingleDiff<T>)
    ensures r.valid <==> !same || out.valid
    ensures !same ==> r.diff == Diff(oldItem, newItem)
    ensures same ==> r == out
  {
    if !same then SingleDiff(true, Diff(oldItem, newItem)) else out
  }

  /** ApplySingleDiff: the recorded value when the diff is valid, else item itself. */
  function ApplySingleDiff<T>(d: SingleDiff<T>, item: T, useOld: bool): (r: T)
    ensures !d.valid ==> r == item
    ensures d.valid ==> r == Pick(d.diff, useOld)
  {
    if d.valid then Pick(d.diff, useOld) else item
  }

  /** A single diff filled from a fresh (invalid) one turns the old value into the
      new one and back, provided the item type's operator== agrees with equality of
      values on these two. */
  lemma SingleDiffRoundTrip<T>(oldItem: T, newItem: T, same: bool, start: SingleDiff<T>)
    requires !start.valid && same == (oldItem == newItem)
    ensures ApplySingleDiff(FillSingleDiff(oldItem, newItem, same, start), oldItem, false) == newItem
    ensures ApplySingleDiff(FillSingleDiff(oldItem, newItem, same, start), newItem, true) == oldItem
  {
  }

  /** ApplyHunkVector: a copy of the stream with the hunks applied. */
  method ApplyHunkVector<T>(hunks: seq<Hunk<T>>, items: seq<T>, useOld: bool) returns (r: seq<T>)
    requires InBounds(hunks, |items|)
    ensures r == ApplyAll(hunks, items, useOld)
  {
    var a := new T[|items|](i requires 0 <= i < |items| => items[i]);
    assert a[..] == items;
    ApplyHunkVectorPtr(hunks, a, useOld);
    r := a[..];
  }
}

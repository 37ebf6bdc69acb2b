// The undo/redo history of the simulation (src/simulation/SnapshotHistory.cpp).
// Every entry stands for a snapshot; only the newest holds it in full, each older
// one holds the delta from its snapshot to the next one. Snapshots are compared
// without ANIM's element data container, which a delta taken while the
// simulation holds no ANIM particle does not keep.
module SnapshotHistory {
  import opened Wrappers
  import opened SnapshotDelta

  datatype HistoryEntry = Full(snap: Snapshot) | Delta(delta: SnapshotDelta)

  /** d links A to B: B = A + d (Forward) and A = B - d (Restore), up to the
      container at the ANIM slot anim. */
  predicate Links(d: SnapshotDelta, a: Snapshot, b: Snapshot, anim: int)
  {
    Fits(d, a, d.extraPartsOld) && Fits(d, b, d.extraPartsNew) &&
    Strip(Applied(d, a, false), anim) == Strip(b, anim) && Strip(Applied(d, b, true), anim) == Strip(a, anim)
  }

  /** Applying a delta reads no element data container of the snapshot it is
      applied to. */
  lemma AppliedIgnoresData(d: SnapshotDelta, x: Snapshot, y: Snapshot, useOld: bool, anim: int)
    requires Strip(x, anim) == Strip(y, anim)
    requires Fits(d, x, if useOld then d.extraPartsNew else d.extraPartsOld)
    ensures Fits(d, y, if useOld then d.extraPartsNew else d.extraPartsOld)
    ensures Applied(d, x, useOld) == Applied(d, y, useOld)
  {
    assert |x.elementData| == |Strip(x, anim).elementData| == |Strip(y, anim).elementData| == |y.elementData|;
  }

  /** A link only sees its snapshots up to the ANIM container. */
  lemma LinksStrip(d: SnapshotDelta, a: Snapshot, a': Snapshot, b: Snapshot, anim: int)
    requires Links(d, a, b, anim) && Strip(a, anim) == Strip(a', anim)
    ensures Links(d, a', b, anim)
  {
    AppliedIgnoresData(d, a, a', false, anim);
  }

  /** Stripping a slot skipped, or none, and then the ANIM slot is stripping
      the ANIM slot. */
  lemma StripTwice(s: Snapshot, skip: int, anim: int)
    requires skip == anim || skip == -1
    ensures Strip(Strip(s, skip), anim) == Strip(s, anim)
  {
    assert Kept(Kept(s.elementData, skip), anim) == Kept(s.elementData, anim);
  }

  /** The layout of the history: entry i stands for logical[i]; the newest entry
      holds its snapshot, every other one the delta linking its snapshot to the
      next. */
  ghost predicate Chain(history: seq<HistoryEntry>, logical: seq<Snapshot>, anim: int)
  {
    |logical| == |history| &&
    (forall i :: 0 <= i < |history| - 1 ==> history[i].Delta? && Links(history[i].delta, logical[i], logical[i + 1], anim)) &&
    (|history| > 0 ==> history[|history| - 1] == Full(logical[|history| - 1]))
  }

  /** Pushing s after the first n entries, with the n-th entry turned into the
      delta d to s, keeps the layout. */
  lemma ChainPush(history: seq<HistoryEntry>, logical: seq<Snapshot>, n: nat, d: SnapshotDelta, s: Snapshot, anim: int)
    requires Chain(history, logical, anim) && 0 < n <= |history| && Links(d, logical[n - 1], s, anim)
    ensures Chain(history[..n - 1] + [Delta(d), Full(s)], logical[..n] + [s], anim)
  {
    var h := history[..n - 1] + [Delta(d), Full(s)];
    var l := logical[..n] + [s];
    forall i | 0 <= i < |h| - 1 ensures h[i].Delta? && Links(h[i].delta, l[i], l[i + 1], anim) {
      if i < n - 1 {
        assert h[i] == history[i] && l[i] == logical[i] && l[i + 1] == logical[i + 1];
      }
    }
  }

  /** Dropping the oldest entry keeps the layout. */
  lemma ChainDropFront(history: seq<HistoryEntry>, logical: seq<Snapshot>, anim: int)
    requires Chain(history, logical, anim) && |history| > 0
    ensures Chain(history[1..], logical[1..], anim)
  {
    forall i | 0 <= i < |history| - 2
      ensures history[1..][i].Delta? && Links(history[1..][i].delta, logical[1..][i], logical[1..][i + 1], anim)
    {
      assert history[1..][i] == history[i + 1];
    }
  }

  /** SnapshotDelta::FromSnapshots as the history uses it, with animCount the
      simulation's number of ANIM particles: the delta it builds links the two
      snapshots both ways. */
  method MakeDelta(a: Snapshot, b: Snapshot, wordsPerParticle: nat, anim: int, animCount: int) returns (d: SnapshotDelta)
    requires wordsPerParticle > 0 && Compatible(a, b)
    ensures Links(d, a, b, anim)
  {
    var skip := SkippedSlot(anim, animCount);
    d := FromSnapshots(a, b, wordsPerParticle, skip);
    DeltaRoundTrip(d, a, b, wordsPerParticle, skip);
    StripTwice(a, skip, anim);
    StripTwice(b, skip, anim);
  }

  /** The snapshot TakeSnapshot rebases onto: none at position 0, the newest
      one at the top, and otherwise the one before the current state,
      restored from the current state through the delta before it. */
  method RebaseOnto(h0: seq<HistoryEntry>, ghost l0: seq<Snapshot>, p0: nat, current: Option<Snapshot>, ghost anim: int)
    returns (rebaseOnto: Option<Snapshot>)
    requires Chain(h0, l0, anim) && p0 <= |h0| && (p0 < |h0| ==> current.Some? && Strip(current.value, anim) == Strip(l0[p0], anim))
    ensures rebaseOnto.Some? <==> p0 > 0
    ensures p0 > 0 ==> Strip(rebaseOnto.value, anim) == Strip(l0[p0 - 1], anim)
  {
    rebaseOnto := None;
    if p0 != 0 {
      rebaseOnto := Some(h0[|h0| - 1].snap);
      if p0 < |h0| {
        AppliedIgnoresData(h0[p0 - 1].delta, l0[p0], current.value, true, anim);
        var c := Restore(h0[p0 - 1].delta, current.value);
        rebaseOnto := Some(c);
      }
    }
  }

  /** The first steps of TakeSnapshot: the entries from position p0 on are
      dropped, the entry before them (when there is one) becomes the delta from
      its snapshot to snap, and snap is pushed. The snapshot to rebase onto is the
      newest one, or, below the top, the one before the current state (restored
      through its delta). */
  method PushSnapshot(h0: seq<HistoryEntry>, ghost l0: seq<Snapshot>, p0: nat, current: Option<Snapshot>,
                      snap: Snapshot, wordsPerParticle: nat, anim: int, animCount: int) returns (hist: seq<HistoryEntry>)
    requires Chain(h0, l0, anim) && p0 <= |h0| && (p0 < |h0| ==> current.Some? && Strip(current.value, anim) == Strip(l0[p0], anim))
    requires wordsPerParticle > 0 && forall i :: 0 <= i < |l0| ==> Compatible(l0[i], snap)
    ensures Chain(hist, l0[..p0] + [snap], anim)
  {
    var rebaseOnto := RebaseOnto(h0, l0, p0, current, anim);
    if rebaseOnto.Some? {
      hist := PushOnto(h0, l0, p0, rebaseOnto.value, snap, wordsPerParticle, anim, animCount);
    } else {
      hist := [Full(snap)];
    }
  }

  /** PushSnapshot below a newest kept entry: that entry, whose snapshot is
      base, becomes the delta from base to snap, and snap is pushed. */
  method PushOnto(h0: seq<HistoryEntry>, ghost l0: seq<Snapshot>, p0: nat, base: Snapshot,
                  snap: Snapshot, wordsPerParticle: nat, anim: int, animCount: int) returns (hist: seq<HistoryEntry>)
    requires Chain(h0, l0, anim) && 0 < p0 <= |h0| && Strip(base, anim) == Strip(l0[p0 - 1], anim)
    requires wordsPerParticle > 0 && forall i :: 0 <= i < |l0| ==> Compatible(l0[i], snap)
    ensures Chain(hist, l0[..p0] + [snap], anim)
  {
    assert |base.elementData| == |Strip(l0[p0 - 1], anim).elementData|;
    assert Compatible(l0[p0 - 1], snap);
    var d := MakeDelta(base, snap, wordsPerParticle, anim, animCount);
    LinksStrip(d, base, l0[p0 - 1], snap, anim);
    ChainPush(h0, l0, p0, d, snap, anim);
    hist := h0[..p0 - 1] + [Delta(d), Full(snap)];
  }

  /** Forward through the delta from a to b, applied to a snapshot equal to a
      up to ANIM's container, gives b up to that container. */
  method ForwardFrom(d: SnapshotDelta, ghost a: Snapshot, ghost b: Snapshot, cur: Snapshot, ghost anim: int)
    returns (c: Snapshot)
    requires Links(d, a, b, anim) && Strip(cur, anim) == Strip(a, anim)
    ensures Strip(c, anim) == Strip(b, anim)
  {
    AppliedIgnoresData(d, a, cur, false, anim);
    c := Forward(d, cur);
  }

  class SnapshotHistory {
    var undoHistoryLimit: nat
    var historyPosition: nat
    var history: seq<HistoryEntry>
    var beforeRestore: Option<Snapshot>
    var historyCurrent: Option<Snapshot>
    /** The snapshot each entry stands for. */
    ghost var logical: seq<Snapshot>
    /** Any snapshot of the simulation: all of them have its field sizes. */
    ghost const shape: Snapshot
    /** ParticleUint32Count, the number of 32-bit words in a particle. */
    const wordsPerParticle: nat
    /** PT_ANIM, ANIM's element id and data slot. */
    const anim: int

    /** A snapshot this history can hold. */
    ghost predicate Fresh(s: Snapshot)
    {
      SameShape(shape, s) && SignsWellFormed(s)
    }

    ghost predicate Valid() reads this
    {
      wordsPerParticle > 0 &&
      Chain(history, logical, anim) && historyPosition <= |history| &&
      (forall i :: 0 <= i < |logical| ==> Fresh(logical[i])) &&
      (historyPosition < |history| ==>
        historyCurrent.Some? && Strip(historyCurrent.value, anim) == Strip(logical[historyPosition], anim) &&
        beforeRestore.Some?)
    }

    constructor (wordsPerParticle: nat, ghost shape: Snapshot, anim: int)
      requires wordsPerParticle > 0
      ensures Valid() && this.shape == shape && this.wordsPerParticle == wordsPerParticle && this.anim == anim
      ensures history == [] && historyPosition == 0 && undoHistoryLimit == 5
      ensures beforeRestore == None && historyCurrent == None
    {
      undoHistoryLimit := 5;
      historyPosition := 0;
      history := [];
      logical := [];
      beforeRestore := None;
      historyCurrent := None;
      this.shape := shape;
      this.wordsPerParticle := wordsPerParticle;
      this.anim := anim;
    }

    /** SetUndoHistoryLimit: the limit is capped at 200. */
    method SetUndoHistoryLimit(newLimit: nat)
      modifies this`undoHistoryLimit
      ensures undoHistoryLimit == if newLimit < 200 then newLimit else 200
    {
      undoHistoryLimit := if newLimit < 200 then newLimit else 200;
    }

    /** TakeSnapshot: records current (the snapshot Snapshot::Create takes of the
        simulation) at the history position. The entries from the position on
        are dropped, the previous newest entry becomes the delta to the new
        snapshot, and when the history has reached the limit its oldest entry
        is dropped. animCount is the simulation's number of ANIM particles. */
    method TakeSnapshot(current: Snapshot, animCount: int)
      requires Valid() && Fresh(current)
      modifies this
      ensures Valid()
      ensures var kept := old(logical)[..old(historyPosition)] + [current];
        logical == if |kept| >= old(undoHistoryLimit) then kept[1..] else kept
      ensures historyPosition == |history| && historyCurrent == None
      ensures history != [] ==> history[|history| - 1] == Full(current)
      ensures beforeRestore == old(beforeRestore) && undoHistoryLimit == old(undoHistoryLimit)
    {
      ghost var l0 := logical;
      var hist := PushSnapshot(history, l0, historyPosition, historyCurrent, current, wordsPerParticle, anim, animCount);
      ghost var logi := l0[..historyPosition] + [current];
      var pos := historyPosition + 1;
      FreshAppend(l0, historyPosition, current);

      if |hist| >= undoHistoryLimit {
        ChainDropFront(hist, logi, anim);
        hist := hist[1..];
        logi := logi[1..];
        pos := pos - 1;
      }
      history, logical, historyPosition, historyCurrent := hist, logi, pos, None;
    }

    lemma FreshAppend(l: seq<Snapshot>, n: nat, s: Snapshot)
      requires n <= |l| && Fresh(s) && forall i :: 0 <= i < |l| ==> Fresh(l[i])
      ensures forall i :: 0 <= i < |l[..n] + [s]| ==> Fresh((l[..n] + [s])[i])
      ensures forall i :: 0 <= i < |(l[..n] + [s])[1..]| ==> Fresh((l[..n] + [s])[1..][i])
    {
    }

    /** HistoryRestore (undo): nothing happens on an empty history or at position
        0. Otherwise the current state (current, as Snapshot::Create takes it) is
        kept as the final redo when undoing from the top, the position moves one
        step back, and the simulation is restored to that entry's snapshot, up
        to ANIM's container, which is returned. */
    method HistoryRestore(current: Snapshot) returns (restored: Option<Snapshot>)
      requires Valid()
      modifies this`historyPosition, this`historyCurrent, this`beforeRestore
      ensures Valid()
      ensures old(|history| == 0 || historyPosition == 0) ==>
        restored == None && historyPosition == old(historyPosition) &&
        historyCurrent == old(historyCurrent) && beforeRestore == old(beforeRestore)
      ensures old(|history| > 0 && historyPosition > 0) ==>
        historyPosition == old(historyPosition) - 1 &&
        restored.Some? && Strip(restored.value, anim) == Strip(logical[historyPosition], anim) && historyCurrent == restored &&
        beforeRestore == (if old(historyPosition) == |history| then Some(current) else old(beforeRestore))
    {
      if |history| == 0 || historyPosition <= 0 {
        return None;
      }
      if historyPosition == |history| {
        beforeRestore := Some(current);
      }
      historyPosition := historyPosition - 1;
      if history[historyPosition].Full? {
        historyCurrent := Some(history[historyPosition].snap);
      } else {
        var d := history[historyPosition].delta;
        AppliedIgnoresData(d, logical[historyPosition + 1], historyCurrent.value, true, anim);
        var c := Restore(d, historyCurrent.value);
        historyCurrent := Some(c);
      }
      restored := historyCurrent;
    }

    /** HistoryForward (redo): nothing happens at the top. Otherwise the position
        moves one step forward and the simulation is restored to that entry's
        snapshot, up to ANIM's container, or, on reaching the top, to the state
        kept by the first undo. */
    method HistoryForward() returns (restored: Option<Snapshot>)
      requires Valid()
      modifies this`historyPosition, this`historyCurrent, this`beforeRestore
      ensures Valid()
      ensures old(historyPosition) >= |history| ==>
        restored == None && historyPosition == old(historyPosition) &&
        historyCurrent == old(historyCurrent) && beforeRestore == old(beforeRestore)
      ensures old(historyPosition) < |history| ==> historyPosition == old(historyPosition) + 1
      ensures old(historyPosition) < |history| && historyPosition == |history| ==>
        restored == old(beforeRestore) && historyCurrent == old(beforeRestore) && beforeRestore == None
      ensures old(historyPosition) < |history| && historyPosition < |history| ==>
        restored.Some? && Strip(restored.value, anim) == Strip(logical[historyPosition], anim) && historyCurrent == restored &&
        beforeRestore == old(beforeRestore)
    {
      if historyPosition >= |history| {
        return None;
      }
      historyPosition := historyPosition + 1;
      if historyPosition == |history| {
        historyCurrent, beforeRestore := beforeRestore, historyCurrent;
        beforeRestore := None;
      } else if history[historyPosition].Full? {
        historyCurrent := Some(history[historyPosition].snap);
      } else {
        var d := history[historyPosition - 1].delta;
        assert Links(d, logical[historyPosition - 1], logical[historyPosition], anim);
        var c := ForwardFrom(d, logical[historyPosition - 1], logical[historyPosition], historyCurrent.value, anim);
        historyCurrent := Some(c);
      }
      restored := historyCurrent;
    }
  }

  /** Undoing from the top and redoing brings the simulation back to the state it
      was in just before the undo; the undo gives the newest snapshot, up to
      ANIM's container. */
  method UndoRedo(h: SnapshotHistory, current: Snapshot) returns (undone: Option<Snapshot>, redone: Option<Snapshot>)
    requires h.Valid() && |h.history| > 0 && h.historyPosition == |h.history|
    modifies h
    ensures h.Valid()
    ensures |h.logical| > 0 && undone.Some? && Strip(undone.value, h.anim) == Strip(h.logical[|h.logical| - 1], h.anim)
    ensures redone == Some(current)
    ensures h.historyPosition == |h.history| && h.logical == old(h.logical)
  {
    undone := h.HistoryRestore(current);
    redone := h.HistoryForward();
  }
}

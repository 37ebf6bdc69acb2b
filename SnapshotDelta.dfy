// Snapshots of the simulation and the deltas between two of them
// (src/simulation/Snapshot.h, src/simulation/SnapshotDelta.cpp). A delta d built
// from snapshots A and B gives back B from A (d.Forward) and A from B (d.Restore).
module SnapshotDelta {
  import opened Hunks
  import opened Sign
  import opened Wrappers

  /** The state of one element's data container (STKM, PPIP, ANIM, ...), held as
      a value: Clone copies it whole. */
  datatype Container = Container(words: seq<int>)

  /** A snapshot. The twelve grid fields have the same size in every snapshot of a
      simulation; floating-point fields are carried as values. particles holds the
      particle array reinterpreted as 32-bit words, as the delta code sees it.
      elementData holds one container, or none, per element id. */
  datatype Snapshot = Snapshot(
    airPressure: seq<int>, airVelocityX: seq<int>, airVelocityY: seq<int>, ambientHeat: seq<int>,
    particles: seq<int>,
    gravVelocityX: seq<int>, gravVelocityY: seq<int>, gravValue: seq<int>, gravMap: seq<int>,
    blockMap: seq<int>, elecMap: seq<int>,
    fanVelocityX: seq<int>, fanVelocityY: seq<int>,
    signs: seq<Sign>,
    authors: string,
    elementData: seq<Option<Container>>)

  datatype SnapshotDelta = SnapshotDelta(
    airPressure: seq<Hunk<int>>, airVelocityX: seq<Hunk<int>>, airVelocityY: seq<Hunk<int>>, ambientHeat: seq<Hunk<int>>,
    commonParticles: seq<Hunk<int>>, extraPartsOld: seq<int>, extraPartsNew: seq<int>,
    gravVelocityX: seq<Hunk<int>>, gravVelocityY: seq<Hunk<int>>, gravValue: seq<Hunk<int>>, gravMap: seq<Hunk<int>>,
    blockMap: seq<Hunk<int>>, elecMap: seq<Hunk<int>>,
    fanVelocityX: seq<Hunk<int>>, fanVelocityY: seq<Hunk<int>>,
    signs: SingleDiff<seq<Sign>>,
    authors: SingleDiff<string>,
    elementDataOld: seq<Option<Container>>, elementDataNew: seq<Option<Container>>)

  function Min(a: int, b: int): int { if a < b then a else b }

  /** What operator== on two sign lists compares: length, and position,
      justification and text of each sign. */
  predicate SameSigns(lhs: seq<Sign>, rhs: seq<Sign>)
  {
    |lhs| == |rhs| &&
    forall i :: 0 <= i < |lhs| ==>
      lhs[i].x == rhs[i].x && lhs[i].y == rhs[i].y && lhs[i].ju == rhs[i].ju && lhs[i].text == rhs[i].text
  }

  /** operator== on sign lists. */
  method SignsEqual(lhs: seq<Sign>, rhs: seq<Sign>) returns (eq: bool)
    ensures eq <==> SameSigns(lhs, rhs)
  {
    if |lhs| != |rhs| {
      return false;
    }
    var i := 0;
    while i < |lhs|
      invariant 0 <= i <= |lhs|
      invariant forall j :: 0 <= j < i ==>
        lhs[j].x == rhs[j].x && lhs[j].y == rhs[j].y && lhs[j].ju == rhs[j].ju && lhs[j].text == rhs[j].text
    {
      if !(lhs[i].x == rhs[i].x && lhs[i].y == rhs[i].y && lhs[i].ju == rhs[i].ju && lhs[i].text == rhs[i].text) {
        return false;
      }
      i := i + 1;
    }
    return true;
  }

  /** A sign whose derived fields are the ones SetText gives its text. */
  predicate WellFormedSign(s: Sign)
  {
    LinkParts(s.kind, s.displayText, s.linkText) == ParseLink(s.text)
  }

  /** On signs built by SetText, operator== is equality of values: the fields it
      skips are determined by the text. */
  lemma SameSignsIsEquality(lhs: seq<Sign>, rhs: seq<Sign>)
    requires forall i :: 0 <= i < |lhs| ==> WellFormedSign(lhs[i])
    requires forall i :: 0 <= i < |rhs| ==> WellFormedSign(rhs[i])
    ensures SameSigns(lhs, rhs) <==> lhs == rhs
  {
    if SameSigns(lhs, rhs) {
      forall i | 0 <= i < |lhs| ensures lhs[i] == rhs[i] {
        assert WellFormedSign(lhs[i]) && WellFormedSign(rhs[i]);
      }
    }
  }

  /** The empty single diff a new delta starts with. */
  function NoDiff<T>(empty: T): SingleDiff<T> { SingleDiff(false, Diff(empty, empty)) }

  /** The hunk vector of one grid field, as FillHunkVector builds it. */
  predicate FieldDelta(hs: seq<Hunk<int>>, o: seq<int>, n: seq<int>)
  {
    IsHunkVector(hs, o, n, Min(|o|, |n|))
  }

  /** The number of particles both snapshots have; the delta diffs that many
      particles word by word. wordsPerParticle is ParticleUint32Count. */
  function CommonSize(oldSnap: Snapshot, newSnap: Snapshot, wordsPerParticle: nat): nat
    requires wordsPerParticle > 0
  {
    Min(|oldSnap.particles| / wordsPerParticle, |newSnap.particles| / wordsPerParticle)
  }

  lemma CommonWordsFit(oldSnap: Snapshot, newSnap: Snapshot, wordsPerParticle: nat)
    requires wordsPerParticle > 0
    ensures CommonSize(oldSnap, newSnap, wordsPerParticle) * wordsPerParticle <= |oldSnap.particles|
    ensures CommonSize(oldSnap, newSnap, wordsPerParticle) * wordsPerParticle <= |newSnap.particles|
  {
    var c := CommonSize(oldSnap, newSnap, wordsPerParticle);
    assert c <= |oldSnap.particles| / wordsPerParticle && c <= |newSnap.particles| / wordsPerParticle;
    assert (|oldSnap.particles| / wordsPerParticle) * wordsPerParticle <= |oldSnap.particles|;
    assert (|newSnap.particles| / wordsPerParticle) * wordsPerParticle <= |newSnap.particles|;
  }

  /** d is the delta of A and B: every grid field holds the hunks of the two
      fields, the sign and author diffs are filled from fresh ones, and the
      particles common to both are diffed while the rest is copied. The element
      data containers of both sides are copied whole, except at the slot skipped. */
  predicate IsDeltaOf(d: SnapshotDelta, a: Snapshot, b: Snapshot, wordsPerParticle: nat, skip: int)
    requires wordsPerParticle > 0
  {
    d.elementDataOld == Kept(a.elementData, skip) && d.elementDataNew == Kept(b.elementData, skip) &&
    FieldDelta(d.airPressure, a.airPressure, b.airPressure) &&
    FieldDelta(d.airVelocityX, a.airVelocityX, b.airVelocityX) &&
    FieldDelta(d.airVelocityY, a.airVelocityY, b.airVelocityY) &&
    FieldDelta(d.ambientHeat, a.ambientHeat, b.ambientHeat) &&
    FieldDelta(d.gravVelocityX, a.gravVelocityX, b.gravVelocityX) &&
    FieldDelta(d.gravVelocityY, a.gravVelocityY, b.gravVelocityY) &&
    FieldDelta(d.gravValue, a.gravValue, b.gravValue) &&
    FieldDelta(d.gravMap, a.gravMap, b.gravMap) &&
    FieldDelta(d.blockMap, a.blockMap, b.blockMap) &&
    FieldDelta(d.elecMap, a.elecMap, b.elecMap) &&
    FieldDelta(d.fanVelocityX, a.fanVelocityX, b.fanVelocityX) &&
    FieldDelta(d.fanVelocityY, a.fanVelocityY, b.fanVelocityY) &&
    d.signs == FillSingleDiff(a.signs, b.signs, SameSigns(a.signs, b.signs), NoDiff([])) &&
    d.authors == FillSingleDiff(a.authors, b.authors, a.authors == b.authors, NoDiff("")) &&
    var common := CommonSize(a, b, wordsPerParticle) * wordsPerParticle;
    common <= |a.particles| && common <= |b.particles| &&
    IsHunkVector(d.commonParticles, a.particles, b.particles, common) &&
    d.extraPartsOld == a.particles[common..] &&
    d.extraPartsNew == b.particles[common..]
  }

  /** The element data slots a delta copies: every one but the slot skipped,
      which is left without a container. */
  function Kept(data: seq<Option<Container>>, skip: int): (r: seq<Option<Container>>)
    ensures |r| == |data|
    ensures forall i :: 0 <= i < |data| && i != skip ==> r[i] == data[i]
    ensures 0 <= skip < |data| ==> r[skip] == None
  {
    seq(|data|, i requires 0 <= i < |data| => if i == skip then None else data[i])
  }

  /** The slot FromSnapshots skips: ANIM's while the simulation holds no ANIM
      particle (animCount is the simulation's elementCount[PT_ANIM]), none
      otherwise. */
  function SkippedSlot(anim: int, animCount: int): int
  {
    if animCount == 0 then anim else -1
  }

  /** The element data loop of FromSnapshots. No container of the game
      overrides Compare, which returns no delta by default, so each slot gets
      clones of the two sides' containers (or none where a side has none); the
      slot skipped gets none. */
  method CopyElementData(oldData: seq<Option<Container>>, newData: seq<Option<Container>>, skip: int)
    returns (dOld: seq<Option<Container>>, dNew: seq<Option<Container>>)
    requires |oldData| == |newData|
    ensures dOld == Kept(oldData, skip) && dNew == Kept(newData, skip)
  {
    dOld := seq(|oldData|, _ => None);
    dNew := seq(|newData|, _ => None);
    var i := 0;
    while i < |newData|
      invariant 0 <= i <= |newData| && |dOld| == |dNew| == |newData|
      invariant forall j :: 0 <= j < i ==> dOld[j] == Kept(oldData, skip)[j] && dNew[j] == Kept(newData, skip)[j]
      invariant forall j :: i <= j < |newData| ==> dOld[j] == None && dNew[j] == None
    {
      if i != skip {
        dNew := dNew[i := newData[i]];
        dOld := dOld[i := oldData[i]];
      }
      i := i + 1;
    }
  }

  /** SnapshotDelta::FromSnapshots. skip is the slot whose element data is not
      taken, SkippedSlot of the simulation's ANIM count. */
  method FromSnapshots(oldSnap: Snapshot, newSnap: Snapshot, wordsPerParticle: nat, skip: int) returns (d: SnapshotDelta)
    requires wordsPerParticle > 0 && |oldSnap.elementData| == |newSnap.elementData|
    ensures IsDeltaOf(d, oldSnap, newSnap, wordsPerParticle, skip)
  {
    var airPressure := FillHunkVector(oldSnap.airPressure, newSnap.airPressure, []);
    var airVelocityX := FillHunkVector(oldSnap.airVelocityX, newSnap.airVelocityX, []);
    var airVelocityY := FillHunkVector(oldSnap.airVelocityY, newSnap.airVelocityY, []);
    var ambientHeat := FillHunkVector(oldSnap.ambientHeat, newSnap.ambientHeat, []);
    var gravVelocityX := FillHunkVector(oldSnap.gravVelocityX, newSnap.gravVelocityX, []);
    var gravVelocityY := FillHunkVector(oldSnap.gravVelocityY, newSnap.gravVelocityY, []);
    var gravValue := FillHunkVector(oldSnap.gravValue, newSnap.gravValue, []);
    var gravMap := FillHunkVector(oldSnap.gravMap, newSnap.gravMap, []);
    var blockMap := FillHunkVector(oldSnap.blockMap, newSnap.blockMap, []);
    var elecMap := FillHunkVector(oldSnap.elecMap, newSnap.elecMap, []);
    var fanVelocityX := FillHunkVector(oldSnap.fanVelocityX, newSnap.fanVelocityX, []);
    var fanVelocityY := FillHunkVector(oldSnap.fanVelocityY, newSnap.fanVelocityY, []);
    var sameSigns := SignsEqual(oldSnap.signs, newSnap.signs);
    var signs := FillSingleDiff(oldSnap.signs, newSnap.signs, sameSigns, NoDiff([]));
    var authors := FillSingleDiff(oldSnap.authors, newSnap.authors, oldSnap.authors == newSnap.authors, NoDiff(""));

    var commonSize := Min(|oldSnap.particles| / wordsPerParticle, |newSnap.particles| / wordsPerParticle);
    CommonWordsFit(oldSnap, newSnap, wordsPerParticle);
    var common := commonSize * wordsPerParticle;
    var commonParticles := FillHunkVectorPtr(oldSnap.particles, newSnap.particles, [], common);
    var extraPartsOld := oldSnap.particles[common..];
    var extraPartsNew := newSnap.particles[common..];
    var elementDataOld, elementDataNew := CopyElementData(oldSnap.elementData, newSnap.elementData, skip);
    d := SnapshotDelta(airPressure[0..], airVelocityX[0..], airVelocityY[0..], ambientHeat[0..],
      commonParticles[0..], extraPartsOld, extraPartsNew,
      gravVelocityX[0..], gravVelocityY[0..], gravValue[0..], gravMap[0..],
      blockMap[0..], elecMap[0..], fanVelocityX[0..], fanVelocityY[0..],
      signs, authors, elementDataOld, elementDataNew);
  }

  /** The hunks of d fit the grid fields of s and its particle words. */
  predicate Fits(d: SnapshotDelta, s: Snapshot, extra: seq<int>)
  {
    InBounds(d.airPressure, |s.airPressure|) && InBounds(d.airVelocityX, |s.airVelocityX|) &&
    InBounds(d.airVelocityY, |s.airVelocityY|) && InBounds(d.ambientHeat, |s.ambientHeat|) &&
    InBounds(d.gravVelocityX, |s.gravVelocityX|) && InBounds(d.gravVelocityY, |s.gravVelocityY|) &&
    InBounds(d.gravValue, |s.gravValue|) && InBounds(d.gravMap, |s.gravMap|) &&
    InBounds(d.blockMap, |s.blockMap|) && InBounds(d.elecMap, |s.elecMap|) &&
    InBounds(d.fanVelocityX, |s.fanVelocityX|) && InBounds(d.fanVelocityY, |s.fanVelocityY|) &&
    InBounds(d.commonParticles, |s.particles|) && |extra| <= |s.particles| &&
    |d.elementDataOld| == |s.elementData| && |d.elementDataNew| == |s.elementData|
  }

  /** The snapshot d produces from s, towards the old side (useOld) or the new one:
      every field with its hunks applied, and the particle words past the common
      part replaced by the other side's extra particles, and the element data
      containers those of the side wanted. */
  function Applied(d: SnapshotDelta, s: Snapshot, useOld: bool): Snapshot
    requires Fits(d, s, if useOld then d.extraPartsNew else d.extraPartsOld)
  {
    var mine := if useOld then d.extraPartsNew else d.extraPartsOld;
    var theirs := if useOld then d.extraPartsOld else d.extraPartsNew;
    var common := |s.particles| - |mine|;
    Snapshot(
      ApplyAll(d.airPressure, s.airPressure, useOld), ApplyAll(d.airVelocityX, s.airVelocityX, useOld),
      ApplyAll(d.airVelocityY, s.airVelocityY, useOld), ApplyAll(d.ambientHeat, s.ambientHeat, useOld),
      ApplyAll(d.commonParticles, s.particles, useOld)[..common] + theirs,
      ApplyAll(d.gravVelocityX, s.gravVelocityX, useOld), ApplyAll(d.gravVelocityY, s.gravVelocityY, useOld),
      ApplyAll(d.gravValue, s.gravValue, useOld), ApplyAll(d.gravMap, s.gravMap, useOld),
      ApplyAll(d.blockMap, s.blockMap, useOld), ApplyAll(d.elecMap, s.elecMap, useOld),
      ApplyAll(d.fanVelocityX, s.fanVelocityX, useOld), ApplyAll(d.fanVelocityY, s.fanVelocityY, useOld),
      ApplySingleDiff(d.signs, s.signs, useOld),
      ApplySingleDiff(d.authors, s.authors, useOld),
      if useOld then d.elementDataOld else d.elementDataNew)
  }

  /** The element data loop of Forward and Restore: with no container delta,
      each slot gets a clone of the stored container, or loses its own where
      none is stored. */
  method SetElementData(data: seq<Option<Container>>, stored: seq<Option<Container>>) returns (r: seq<Option<Container>>)
    requires |data| == |stored|
    ensures r == stored
  {
    r := data;
    var i := 0;
    while i < |r|
      invariant 0 <= i <= |r| && |r| == |stored|
      invariant r[..i] == stored[..i]
    {
      if stored[i].Some? {
        r := r[i := stored[i]];
      } else if r[i].Some? {
        r := r[i := None];
      }
      assert r[i] == stored[i];
      i := i + 1;
    }
  }

  /** SnapshotDelta::Forward and SnapshotDelta::Restore: copy s, apply every
      hunk vector and single diff to the copy, then resize the particles to the
      common part plus the other side's extra particles. */
  method Apply(d: SnapshotDelta, s: Snapshot, useOld: bool) returns (r: Snapshot)
    requires Fits(d, s, if useOld then d.extraPartsNew else d.extraPartsOld)
    ensures r == Applied(d, s, useOld)
  {
    var airPressure := ApplyHunkVector(d.airPressure, s.airPressure, useOld);
    var airVelocityX := ApplyHunkVector(d.airVelocityX, s.airVelocityX, useOld);
    var airVelocityY := ApplyHunkVector(d.airVelocityY, s.airVelocityY, useOld);
    var ambientHeat := ApplyHunkVector(d.ambientHeat, s.ambientHeat, useOld);
    var gravVelocityX := ApplyHunkVector(d.gravVelocityX, s.gravVelocityX, useOld);
    var gravVelocityY := ApplyHunkVector(d.gravVelocityY, s.gravVelocityY, useOld);
    var gravValue := ApplyHunkVector(d.gravValue, s.gravValue, useOld);
    var gravMap := ApplyHunkVector(d.gravMap, s.gravMap, useOld);
    var blockMap := ApplyHunkVector(d.blockMap, s.blockMap, useOld);
    var elecMap := ApplyHunkVector(d.elecMap, s.elecMap, useOld);
    var fanVelocityX := ApplyHunkVector(d.fanVelocityX, s.fanVelocityX, useOld);
    var fanVelocityY := ApplyHunkVector(d.fanVelocityY, s.fanVelocityY, useOld);
    var signs := ApplySingleDiff(d.signs, s.signs, useOld);
    var authors := ApplySingleDiff(d.authors, s.authors, useOld);

    var particles := ApplyHunkVector(d.commonParticles, s.particles, useOld);
    var mine := if useOld then d.extraPartsNew else d.extraPartsOld;
    var theirs := if useOld then d.extraPartsOld else d.extraPartsNew;
    var commonSize := |s.particles| - |mine|;
    particles := particles[..commonSize] + theirs;
    var elementData := SetElementData(s.elementData, if useOld then d.elementDataOld else d.elementDataNew);
    r := Snapshot(airPressure, airVelocityX, airVelocityY, ambientHeat, particles,
      gravVelocityX, gravVelocityY, gravValue, gravMap, blockMap, elecMap,
      fanVelocityX, fanVelocityY, signs, authors, elementData);
  }

  /** SnapshotDelta::Forward. */
  method Forward(d: SnapshotDelta, oldSnap: Snapshot) returns (r: Snapshot)
    requires Fits(d, oldSnap, d.extraPartsOld)
    ensures r == Applied(d, oldSnap, false)
  {
    r := Apply(d, oldSnap, false);
  }

  /** SnapshotDelta::Restore. */
  method Restore(d: SnapshotDelta, newSnap: Snapshot) returns (r: Snapshot)
    requires Fits(d, newSnap, d.extraPartsNew)
    ensures r == Applied(d, newSnap, true)
  {
    r := Apply(d, newSnap, true);
  }

  /** The grid fields of A and B have the same sizes: they come from the same
      simulation. */
  predicate SameShape(a: Snapshot, b: Snapshot)
  {
    |a.airPressure| == |b.airPressure| && |a.airVelocityX| == |b.airVelocityX| &&
    |a.airVelocityY| == |b.airVelocityY| && |a.ambientHeat| == |b.ambientHeat| &&
    |a.gravVelocityX| == |b.gravVelocityX| && |a.gravVelocityY| == |b.gravVelocityY| &&
    |a.gravValue| == |b.gravValue| && |a.gravMap| == |b.gravMap| &&
    |a.blockMap| == |b.blockMap| && |a.elecMap| == |b.elecMap| &&
    |a.fanVelocityX| == |b.fanVelocityX| && |a.fanVelocityY| == |b.fanVelocityY| &&
    |a.elementData| == |b.elementData|
  }

  /** s without the container at the slot skipped. */
  function Strip(s: Snapshot, skip: int): Snapshot
  {
    s.(elementData := Kept(s.elementData, skip))
  }

  /** The signs of s were built by SetText. */
  predicate SignsWellFormed(s: Snapshot)
  {
    forall i :: 0 <= i < |s.signs| ==> WellFormedSign(s.signs[i])
  }

  predicate Compatible(a: Snapshot, b: Snapshot)
  {
    SameShape(a, b) && SignsWellFormed(a) && SignsWellFormed(b)
  }

  /** The particle words of both sides come back: the common words through the
      hunks, the tails through the extra particle copies. */
  lemma ParticlesRoundTrip(d: SnapshotDelta, a: Snapshot, b: Snapshot, wordsPerParticle: nat, skip: int)
    requires wordsPerParticle > 0 && IsDeltaOf(d, a, b, wordsPerParticle, skip)
    ensures InBounds(d.commonParticles, |a.particles|) && InBounds(d.commonParticles, |b.particles|)
    ensures |d.extraPartsOld| <= |a.particles| && |d.extraPartsNew| <= |b.particles|
    ensures ApplyAll(d.commonParticles, a.particles, false)[..|a.particles| - |d.extraPartsOld|] + d.extraPartsNew == b.particles
    ensures ApplyAll(d.commonParticles, b.particles, true)[..|b.particles| - |d.extraPartsNew|] + d.extraPartsOld == a.particles
  {
    var common := CommonSize(a, b, wordsPerParticle) * wordsPerParticle;
    HunkVectorRoundTrip(d.commonParticles, a.particles, b.particles, common);
    var fwd := ApplyAll(d.commonParticles, a.particles, false);
    var back := ApplyAll(d.commonParticles, b.particles, true);
    assert fwd[..common] == b.particles[..common];
    assert back[..common] == a.particles[..common];
    assert b.particles[..common] + b.particles[common..] == b.particles;
    assert a.particles[..common] + a.particles[common..] == a.particles;
  }

  lemma FieldRoundTrip(hs: seq<Hunk<int>>, o: seq<int>, n: seq<int>)
    requires |o| == |n| && FieldDelta(hs, o, n)
    ensures InBounds(hs, |o|) && ApplyAll(hs, o, false) == n && ApplyAll(hs, n, true) == o
  {
    HunkVectorRoundTripEqualSize(hs, o, n);
  }

  /** d = B - A gives B = A + d and A = B - d: for compatible snapshots,
      Forward(A) of FromSnapshots(A, B) is B, with B's particle count and tail,
      and Restore(B) is A, except that the slot skipped comes back without its
      element data container. */
  lemma DeltaRoundTrip(d: SnapshotDelta, a: Snapshot, b: Snapshot, wordsPerParticle: nat, skip: int)
    requires wordsPerParticle > 0 && IsDeltaOf(d, a, b, wordsPerParticle, skip) && Compatible(a, b)
    ensures Fits(d, a, d.extraPartsOld) && Applied(d, a, false) == Strip(b, skip)
    ensures Fits(d, b, d.extraPartsNew) && Applied(d, b, true) == Strip(a, skip)
  {
    FieldRoundTrip(d.airPressure, a.airPressure, b.airPressure);
    FieldRoundTrip(d.airVelocityX, a.airVelocityX, b.airVelocityX);
    FieldRoundTrip(d.airVelocityY, a.airVelocityY, b.airVelocityY);
    FieldRoundTrip(d.ambientHeat, a.ambientHeat, b.ambientHeat);
    FieldRoundTrip(d.gravVelocityX, a.gravVelocityX, b.gravVelocityX);
    FieldRoundTrip(d.gravVelocityY, a.gravVelocityY, b.gravVelocityY);
    FieldRoundTrip(d.gravValue, a.gravValue, b.gravValue);
    FieldRoundTrip(d.gravMap, a.gravMap, b.gravMap);
    FieldRoundTrip(d.blockMap, a.blockMap, b.blockMap);
    FieldRoundTrip(d.elecMap, a.elecMap, b.elecMap);
    FieldRoundTrip(d.fanVelocityX, a.fanVelocityX, b.fanVelocityX);
    FieldRoundTrip(d.fanVelocityY, a.fanVelocityY, b.fanVelocityY);
    ParticlesRoundTrip(d, a, b, wordsPerParticle, skip);
    SameSignsIsEquality(a.signs, b.signs);
    SingleDiffRoundTrip(a.signs, b.signs, SameSigns(a.signs, b.signs), NoDiff([]));
    SingleDiffRoundTrip(a.authors, b.authors, a.authors == b.authors, NoDiff(""));
  }

  /** Stripping a slot that holds no container changes nothing. */
  lemma StripNothing(s: Snapshot, skip: int)
    requires 0 <= skip < |s.elementData| ==> s.elementData[skip] == None
    ensures Strip(s, skip) == s
  {
    assert Kept(s.elementData, skip) == s.elementData;
  }

  /** A slot that is skipped but holds no container on either side, or no slot
      skipped, gives the round trip exactly. */
  lemma DeltaRoundTripExact(d: SnapshotDelta, a: Snapshot, b: Snapshot, wordsPerParticle: nat, skip: int)
    requires wordsPerParticle > 0 && IsDeltaOf(d, a, b, wordsPerParticle, skip) && Compatible(a, b)
    requires 0 <= skip < |a.elementData| ==> a.elementData[skip] == None && b.elementData[skip] == None
    ensures Fits(d, a, d.extraPartsOld) && Applied(d, a, false) == b
    ensures Fits(d, b, d.extraPartsNew) && Applied(d, b, true) == a
  {
    DeltaRoundTrip(d, a, b, wordsPerParticle, skip);
    StripNothing(a, skip);
    StripNothing(b, skip);
  }

  /** A delta taken while the simulation holds no ANIM particle loses ANIM's
      container: Forward gives B without it. */
  lemma AnimDataDropped(d: SnapshotDelta, a: Snapshot, b: Snapshot, wordsPerParticle: nat, anim: int)
    requires wordsPerParticle > 0 && IsDeltaOf(d, a, b, wordsPerParticle, SkippedSlot(anim, 0)) && Compatible(a, b)
    requires 0 <= anim < |b.elementData| && b.elementData[anim].Some?
    ensures Fits(d, a, d.extraPartsOld) && Applied(d, a, false) != b
  {
    DeltaRoundTrip(d, a, b, wordsPerParticle, anim);
    assert Applied(d, a, false).elementData[anim] == None;
  }
}

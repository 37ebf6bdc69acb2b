// The particle-table and wall-map bookkeeping of src/simulation/Simulation.cpp:
// per-element counts, type changes and kills, the free-list rebuild, element
// names, and wall placement and flood fill on the block grid.
// simulation/Simulation.h is not part of this model: part_free is taken as
// clearing the slot's type and pushing the slot onto the free list through its
// life field, the way the free list is read everywhere else in the file.
module Simulation {
  import opened Defines
  import opened Walls
  import opened Parts
  import opened Powder
  import opened Wrappers
  import LegacyConsole
  import Format

  /** What the modelled code reads from the element table: whether the element
      is enabled, and its PROP_INDESTRUCTIBLE flag. */
  datatype ElementProps = ElementProps(enabled: bool, indestructible: bool)

  // ----- element counts -----

  /** The number of particles of type t in s. */
  function Count(s: seq<Particle>, t: int): nat
  {
    if |s| == 0 then 0 else Count(s[..|s| - 1], t) + (if s[|s| - 1].ptype == t then 1 else 0)
  }

  /** Overwriting one particle moves one unit of count from its old type to
      its new one. */
  lemma {:induction false} CountUpdate(s: seq<Particle>, i: int, p: Particle, t: int)
    requires 0 <= i < |s|
    ensures Count(s[i := p], t) ==
      Count(s, t) - (if s[i].ptype == t then 1 else 0) + (if p.ptype == t then 1 else 0)
  {
    var n := |s| - 1;
    if i < n {
      assert s[i := p][..n] == s[..n][i := p];
      CountUpdate(s[..n], i, p, t);
    } else {
      assert s[i := p][..n] == s[..n];
    }
  }

  /** The count over a longer prefix adds the next particle. */
  lemma CountStep(s: seq<Particle>, i: int)
    requires 0 <= i < |s|
    ensures forall t :: Count(s[..i + 1], t) == Count(s[..i], t) + (if s[i].ptype == t then 1 else 0)
  {
    assert s[..i + 1][..i] == s[..i];
  }

  /** ElementResolve: the name of a Game of Life rule for LIFE with a built-in
      rule as ctype, the element's name for any other type in range, "NONE"
      for 0 and "Empty" for a type out of range. */
  function ElementResolve(ptype: int, ctype: int, ids: ElementIds, golNames: seq<string>,
                          elements: seq<LegacyConsole.Element>): (r: string)
    requires |golNames| == ids.NGOL && |elements| == PT_NUM
    ensures (ptype < 0 || ptype >= PT_NUM) && ptype != ids.LIFE ==> r == "Empty"
  {
    if ptype == ids.LIFE && 0 <= ctype < ids.NGOL then golNames[ctype]
    else if 0 < ptype < PT_NUM then elements[ptype].name
    else if ptype == 0 then "NONE"
    else "Empty"
  }

  /** The console reads the name of an element back as that element, as long
      as no enabled element before it has the same name (case aside) and it is
      not a locked EXPL; "NONE" reads back as the empty element unless an
      enabled element is called so. */
  lemma ResolveThenParse(ptype: int, ctype: int, ids: ElementIds, golNames: seq<string>,
                         elements: seq<LegacyConsole.Element>, alias: LegacyConsole.AliasIds, explUnlocked: bool)
    requires |golNames| == ids.NGOL && |elements| == PT_NUM
    requires 0 <= ptype < PT_NUM && !(ptype == ids.LIFE && 0 <= ctype < ids.NGOL)
    requires ptype > 0 ==> elements[ptype].enabled
    requires ptype > 0 ==> !(LegacyConsole.SameName(elements[ptype].name, LegacyConsole.EXPL_NAME) && !explUnlocked)
    requires forall m :: 1 <= m < PT_NUM && elements[m].enabled && (ptype == 0 || m < ptype) ==>
      !LegacyConsole.SameName(ElementResolve(ptype, ctype, ids, golNames, elements), elements[m].name)
    ensures LegacyConsole.TypeOf(ElementResolve(ptype, ctype, ids, golNames, elements), elements, alias, explUnlocked) == Some(ptype)
  {
    var r := ElementResolve(ptype, ctype, ids, golNames, elements);
    LegacyConsole.FirstNamedIsFirst(elements, r, 1);
    if ptype > 0 {
      assert LegacyConsole.SameName(r, elements[ptype].name);
      assert LegacyConsole.FirstNamed(elements, r, 1) == ptype;
      TypeOfNamed(r, elements, alias, explUnlocked);
    } else {
      assert r == LegacyConsole.NONE_NAME;
      NoneIsNotExpl();
      TypeOfNone(r, elements, alias, explUnlocked);
    }
  }

  /** A name an enabled element answers to reads as the first such element. */
  lemma TypeOfNamed(txt: string, elements: seq<LegacyConsole.Element>, alias: LegacyConsole.AliasIds, explUnlocked: bool)
    requires |elements| == PT_NUM && LegacyConsole.FirstNamed(elements, txt, 1) >= 0
    requires !(LegacyConsole.SameName(txt, LegacyConsole.EXPL_NAME) && !explUnlocked)
    ensures LegacyConsole.TypeOf(txt, elements, alias, explUnlocked) == Some(LegacyConsole.FirstNamed(elements, txt, 1))
  {
  }

  /** "NONE" reads as the empty element when no enabled element is so called. */
  lemma TypeOfNone(txt: string, elements: seq<LegacyConsole.Element>, alias: LegacyConsole.AliasIds, explUnlocked: bool)
    requires |elements| == PT_NUM && LegacyConsole.FirstNamed(elements, txt, 1) == -1
    requires LegacyConsole.SameName(txt, LegacyConsole.NONE_NAME) && !LegacyConsole.SameName(txt, LegacyConsole.EXPL_NAME)
    ensures LegacyConsole.TypeOf(txt, elements, alias, explUnlocked) == Some(PT_NONE)
  {
  }

  /** "NONE" is not a spelling of "EXPL". */
  lemma NoneIsNotExpl()
    ensures LegacyConsole.SameName(LegacyConsole.NONE_NAME, LegacyConsole.NONE_NAME)
    ensures !LegacyConsole.SameName(LegacyConsole.NONE_NAME, LegacyConsole.EXPL_NAME)
  {
    assert Format.ToLower(LegacyConsole.NONE_NAME)[0] == 'n';
  }

  // ----- the free-list rebuild -----

  /** The number of slots below n holding a particle. */
  function Live(s: seq<Particle>, n: int): nat
    requires 0 <= n <= |s|
  {
    if n == 0 then 0 else Live(s, n - 1) + (if s[n - 1].ptype != PT_NONE then 1 else 0)
  }

  /** The highest slot below n holding a particle, or 0 when there is none. */
  function LastLive(s: seq<Particle>, n: int): (r: int)
    requires 0 <= n <= |s|
    ensures 0 <= r && (n > 0 ==> r < n)
  {
    if n == 0 then 0 else if s[n - 1].ptype != PT_NONE then n - 1 else LastLive(s, n - 1)
  }

  /** The first empty slot from `from` up to `last`, or `end` when there is none. */
  function NextEmpty(s: seq<Particle>, from: int, last: int, end: int): int
    requires 0 <= from && last < |s|
    decreases last - from + 1
  {
    if from > last then end
    else if s[from].ptype == PT_NONE then from
    else NextEmpty(s, from + 1, last, end)
  }

  /** Where the rebuilt free list goes on after the last active index: the
      next slot, or -1 past the end of the table. */
  function FreeEnd(last: int): int
  {
    if last >= NPART - 1 then -1 else last + 1
  }

  /** flags & ~FLAG_SKIPMOVE (bit 0x2), on the two's-complement value. */
  function ClearSkipMove(f: int): int
  {
    if f % 4 >= 2 then f - 2 else f
  }

  /** A slot after the rebuild of slots 0..last: a particle loses its
      skip-move flag, an empty slot links to the next empty one, and slots past
      last are untouched. */
  function Rebuilt(s: seq<Particle>, i: int, last: int): Particle
    requires 0 <= i < |s| && last < |s|
  {
    if i > last then s[i]
    else if s[i].ptype != PT_NONE then s[i].(flags := ClearSkipMove(s[i].flags))
    else s[i].(life := NextEmpty(s, i + 1, last, FreeEnd(last)))
  }

  /** Every slot from a up to b holds a particle. */
  ghost predicate AllLive(s: seq<Particle>, a: int, b: int)
  {
    forall k :: a <= k < b && 0 <= k < |s| ==> s[k].ptype != PT_NONE
  }

  lemma AllLiveStep(s: seq<Particle>, a: int, i: int)
    requires AllLive(s, a, i) && 0 <= i < |s| && s[i].ptype != PT_NONE
    ensures AllLive(s, a, i + 1)
  {
  }

  /** NextEmpty is the first empty slot of the range, and gives `end` exactly
      when the range has none. */
  lemma {:induction false} NextEmptyIsFirst(s: seq<Particle>, from: int, last: int, end: int)
    requires 0 <= from && last < |s| && (end < from || end > last)
    ensures var r := NextEmpty(s, from, last, end);
      (r == end <==> forall k :: from <= k <= last ==> s[k].ptype != PT_NONE) &&
      (r != end ==> (from <= r <= last && s[r].ptype == PT_NONE &&
                     forall k :: from <= k < r ==> s[k].ptype != PT_NONE))
    decreases last - from + 1
  {
    if from <= last && s[from].ptype != PT_NONE {
      NextEmptyIsFirst(s, from + 1, last, end);
    }
  }

  /** The empty slot after a run of particles is the next empty one. */
  lemma {:induction false} NextEmptyAt(s: seq<Particle>, from: int, i: int, last: int, end: int)
    requires 0 <= from <= i <= last < |s| && s[i].ptype == PT_NONE && AllLive(s, from, i)
    ensures NextEmpty(s, from, last, end) == i
    decreases i - from
  {
    if from < i {
      NextEmptyAt(s, from + 1, i, last, end);
    }
  }

  /** A range of particles has no next empty slot. */
  lemma {:induction false} NextEmptyNone(s: seq<Particle>, from: int, last: int, end: int)
    requires 0 <= from && last < |s| && AllLive(s, from, last + 1)
    ensures NextEmpty(s, from, last, end) == end
    decreases last - from + 1
  {
    if from <= last {
      NextEmptyNone(s, from + 1, last, end);
    }
  }

  /** LastLive is the highest slot holding a particle, every slot above it is
      empty, and there are at most LastLive + 1 particles. */
  lemma {:induction false} LastLiveIsLast(s: seq<Particle>, n: int)
    requires 0 <= n <= |s|
    ensures Live(s, n) <= LastLive(s, n) + 1
    ensures Live(s, n) > 0 ==> s[LastLive(s, n)].ptype != PT_NONE
    ensures Live(s, n) == 0 ==> LastLive(s, n) == 0
    ensures forall k :: LastLive(s, n) < k < n ==> s[k].ptype == PT_NONE
  {
    if n > 0 {
      LastLiveIsLast(s, n - 1);
      LiveBound(s, n - 1);
    }
  }

  /** There are at most n particles below n. */
  lemma {:induction false} LiveBound(s: seq<Particle>, n: int)
    requires 0 <= n <= |s|
    ensures Live(s, n) <= n
  {
    if n > 0 {
      LiveBound(s, n - 1);
    }
  }

  /** The table during the rebuild: slots below i are rebuilt, except the
      last empty one seen, whose link is not known yet; the rest are as before. */
  ghost predicate Partial(p: seq<Particle>, s: seq<Particle>, i: int, lastUnused: int, last: int)
  {
    |p| == |s| && 0 <= i <= |s| && -1 <= lastUnused < i && last < |s| &&
    (forall k :: 0 <= k < i && k != lastUnused ==> p[k] == Rebuilt(s, k, last)) &&
    (lastUnused >= 0 ==> p[lastUnused] == s[lastUnused]) &&
    (forall k :: i <= k < |p| ==> p[k] == s[k])
  }

  lemma PartialLive(p: seq<Particle>, s: seq<Particle>, i: int, lastUnused: int, last: int)
    requires Partial(p, s, i, lastUnused, last) && i <= last && i < |s| && s[i].ptype != PT_NONE
    ensures Partial(p[i := p[i].(flags := ClearSkipMove(p[i].flags))], s, i + 1, lastUnused, last)
  {
  }

  lemma PartialFirstEmpty(p: seq<Particle>, s: seq<Particle>, i: int, last: int)
    requires Partial(p, s, i, -1, last) && i <= last && i < |s| && s[i].ptype == PT_NONE
    ensures Partial(p, s, i + 1, i, last)
  {
  }

  lemma PartialLink(p: seq<Particle>, s: seq<Particle>, i: int, lastUnused: int, last: int)
    requires Partial(p, s, i, lastUnused, last) && i <= last && i < |s| && s[i].ptype == PT_NONE
    requires lastUnused >= 0 && s[lastUnused].ptype == PT_NONE
    requires NextEmpty(s, lastUnused + 1, last, FreeEnd(last)) == i
    ensures Partial(p[lastUnused := p[lastUnused].(life := i)], s, i + 1, i, last)
  {
  }

  lemma PartialNoEmpty(p: seq<Particle>, s: seq<Particle>, last: int)
    requires 0 <= last && Partial(p, s, last + 1, -1, last)
    ensures forall k :: 0 <= k < |p| ==> p[k] == Rebuilt(s, k, last)
  {
  }

  lemma PartialClose(p: seq<Particle>, s: seq<Particle>, lastUnused: int, last: int)
    requires Partial(p, s, last + 1, lastUnused, last) && lastUnused >= 0 && s[lastUnused].ptype == PT_NONE
    requires NextEmpty(s, lastUnused + 1, last, FreeEnd(last)) == FreeEnd(last)
    ensures forall k :: 0 <= k < |p| ==>
      p[lastUnused := p[lastUnused].(life := FreeEnd(last))][k] == Rebuilt(s, k, last)
  {
  }

  lemma LiveStep(s: seq<Particle>, i: int)
    requires 0 <= i < |s|
    ensures Live(s, i + 1) == Live(s, i) + (if s[i].ptype != PT_NONE then 1 else 0)
    ensures LastLive(s, i + 1) == if s[i].ptype != PT_NONE then i else LastLive(s, i)
  {
  }

  /** The rebuild changes no particle's type. */
  lemma RebuiltKeepsTypes(s: seq<Particle>, p: seq<Particle>, last: int)
    requires |p| == |s| && last < |s|
    requires forall k :: 0 <= k < |p| ==> p[k] == Rebuilt(s, k, last)
    ensures forall k :: 0 <= k < |p| ==> p[k].ptype == s[k].ptype
  {
  }

  // ----- walls -----

  /** The cell (x, y) lies on the wall map. */
  predicate InMap(x: int, y: int)
  {
    0 <= x < CW && 0 <= y < CH
  }

  /** Distinct cells of the map have distinct indices. */
  lemma CellInjective(x1: int, y1: int, x2: int, y2: int)
    requires InMap(x1, y1) && InMap(x2, y2) && Cell(x1, y1) == Cell(x2, y2)
    ensures x1 == x2 && y1 == y2
  {
    CellRow(x1, y1);
    CellRow(x2, y2);
  }

  /** The cells of row y occupy the indices y * CW up to (y + 1) * CW. */
  lemma CellRow(x: int, y: int)
    requires InMap(x, y)
    ensures y * CW <= Cell(x, y) < (y + 1) * CW
  {
  }

  /** The byte CreateWall stores: WL_ERASEALL clears the cell, and the id is
      cast to unsigned char. */
  function WallValue(wall: int): int
  {
    (if wall == WL_ERASEALL then 0 else wall) % 256
  }

  /** A streamline lies in the 3 x 3 block around (x, y). */
  ghost predicate StreamNear(b: seq<int>, x: int, y: int)
    requires |b| == CELLS
  {
    exists tx, ty :: x - 1 <= tx <= x + 1 && y - 1 <= ty <= y + 1 && InMap(tx, ty) && b[Cell(tx, ty)] == WL_STREAM
  }

  /** The wall map after CreateWall(x, y, wall): nothing off the map or for a
      streamline next to another one; otherwise the cell takes the wall. */
  ghost function PutWall(b: seq<int>, x: int, y: int, wall: int): (r: seq<int>)
    requires |b| == CELLS
    ensures |r| == CELLS
    ensures forall c :: 0 <= c < CELLS && (!InMap(x, y) || c != Cell(x, y)) ==> r[c] == b[c]
    ensures InMap(x, y) && !(wall == WL_STREAM && StreamNear(b, x, y)) ==> r[Cell(x, y)] == WallValue(wall)
  {
    if !InMap(x, y) then b
    else if wall == WL_STREAM && StreamNear(b, x, y) then b
    else b[Cell(x, y) := WallValue(wall)]
  }

  /** CreateWall marks the gravity field for recomputation when it puts a
      gravity wall or overwrites one. */
  ghost predicate GravTouched(b: seq<int>, x: int, y: int, wall: int)
    requires |b| == CELLS
  {
    InMap(x, y) && !(wall == WL_STREAM && StreamNear(b, x, y)) &&
    ((if wall == WL_ERASEALL then 0 else wall) == WL_GRAV || b[Cell(x, y)] == WL_GRAV)
  }

  /** No two streamlines touch, sideways or diagonally. */
  ghost predicate StreamsApart(b: seq<int>)
    requires |b| == CELLS
  {
    forall x1, y1, x2, y2 ::
      InMap(x1, y1) && InMap(x2, y2) && (x1 != x2 || y1 != y2) &&
      -1 <= x1 - x2 <= 1 && -1 <= y1 - y2 <= 1 && b[Cell(x1, y1)] == WL_STREAM ==>
        b[Cell(x2, y2)] != WL_STREAM
  }

  /** CreateWall keeps streamlines apart, for any wall id that fits a byte. */
  lemma PutWallKeepsStreamsApart(b: seq<int>, x: int, y: int, wall: int)
    requires |b| == CELLS && StreamsApart(b) && 0 <= wall < 256
    ensures StreamsApart(PutWall(b, x, y, wall))
  {
    var r := PutWall(b, x, y, wall);
    forall x1, y1, x2, y2 |
      InMap(x1, y1) && InMap(x2, y2) && (x1 != x2 || y1 != y2) &&
      -1 <= x1 - x2 <= 1 && -1 <= y1 - y2 <= 1 && r[Cell(x1, y1)] == WL_STREAM
      ensures r[Cell(x2, y2)] != WL_STREAM
    {
      if InMap(x, y) && r != b {
        var c := Cell(x, y);
        if Cell(x1, y1) == c {
          CellInjective(x1, y1, x, y);
          assert Cell(x2, y2) != c by {
            if Cell(x2, y2) == c {
              CellInjective(x2, y2, x, y);
            }
          }
          assert !StreamNear(b, x, y);
        } else if Cell(x2, y2) == c {
          CellInjective(x2, y2, x, y);
        }
      }
    }
  }

  /** The cells of rows j..y2, from column i on in row j and from x1 on
      below it, each put in turn, row by row, left to right: the loops of
      CreateWallBox. */
  ghost function Box(b: seq<int>, x1: int, x2: int, j: int, i: int, y2: int, wall: int): (r: seq<int>)
    requires |b| == CELLS && x1 <= x2
    ensures |r| == CELLS
    decreases y2 - j + 1, x2 - i + 1
  {
    if j > y2 then b
    else if i > x2 then Box(b, x1, x2, j + 1, x1, y2, wall)
    else Box(PutWall(b, i, j, wall), x1, x2, j, i + 1, y2, wall)
  }

  /** The cell (cx, cy) is among those Box has still to put. */
  predicate Pending(x1: int, x2: int, j: int, i: int, y2: int, cx: int, cy: int)
  {
    cy <= y2 && ((cy == j && i <= cx <= x2) || (j < cy && x1 <= cx <= x2))
  }

  /** Box leaves alone every cell that is not one of those it puts. */
  lemma {:induction false} BoxOutside(b: seq<int>, x1: int, x2: int, j: int, i: int, y2: int, wall: int, c: int)
    requires |b| == CELLS && x1 <= x2 && 0 <= c < CELLS
    requires forall cx, cy :: InMap(cx, cy) && Pending(x1, x2, j, i, y2, cx, cy) ==> c != Cell(cx, cy)
    ensures Box(b, x1, x2, j, i, y2, wall)[c] == b[c]
    decreases y2 - j + 1, x2 - i + 1
  {
    if j <= y2 {
      if i > x2 {
        BoxOutside(b, x1, x2, j + 1, x1, y2, wall, c);
      } else {
        assert Pending(x1, x2, j, i, y2, i, j);
        BoxOutside(PutWall(b, i, j, wall), x1, x2, j, i + 1, y2, wall, c);
      }
    }
  }

  /** Box puts the wall in every cell of the map it visits, unless the wall is
      a streamline (whose placement depends on the order of the cells). */
  lemma {:induction false} BoxInside(b: seq<int>, x1: int, x2: int, j: int, i: int, y2: int, wall: int, cx: int, cy: int)
    requires |b| == CELLS && x1 <= x2 && wall != WL_STREAM
    requires InMap(cx, cy) && Pending(x1, x2, j, i, y2, cx, cy)
    ensures Box(b, x1, x2, j, i, y2, wall)[Cell(cx, cy)] == WallValue(wall)
    decreases y2 - j + 1, x2 - i + 1
  {
    if i > x2 {
      BoxInside(b, x1, x2, j + 1, x1, y2, wall, cx, cy);
    } else if cx == i && cy == j {
      var b' := PutWall(b, i, j, wall);
      forall ox, oy | InMap(ox, oy) && Pending(x1, x2, j, i + 1, y2, ox, oy)
        ensures Cell(cx, cy) != Cell(ox, oy)
      {
        if Cell(cx, cy) == Cell(ox, oy) {
          CellInjective(cx, cy, ox, oy);
        }
      }
      BoxOutside(b', x1, x2, j, i + 1, y2, wall, Cell(cx, cy));
    } else {
      BoxInside(PutWall(b, i, j, wall), x1, x2, j, i + 1, y2, wall, cx, cy);
    }
  }

  /** The box of CreateWallBox: the corners sorted, every cell of the
      inclusive rectangle that lies on the map takes the wall, and no other
      cell changes. */
  lemma WallBoxFills(b: seq<int>, x1: int, y1: int, x2: int, y2: int, wall: int, c: int)
    requires |b| == CELLS && 0 <= c < CELLS && wall != WL_STREAM
    ensures var r := Box(b, Min(x1, x2), Max(x1, x2), Min(y1, y2), Min(x1, x2), Max(y1, y2), wall);
      (exists cx, cy :: InMap(cx, cy) && InRect(x1, y1, x2, y2, cx, cy) && c == Cell(cx, cy)) ==> r[c] == WallValue(wall)
    ensures var r := Box(b, Min(x1, x2), Max(x1, x2), Min(y1, y2), Min(x1, x2), Max(y1, y2), wall);
      (forall cx, cy :: InMap(cx, cy) && InRect(x1, y1, x2, y2, cx, cy) ==> c != Cell(cx, cy)) ==> r[c] == b[c]
  {
    var lx, hx, ly, hy := Min(x1, x2), Max(x1, x2), Min(y1, y2), Max(y1, y2);
    if exists cx, cy :: InMap(cx, cy) && InRect(x1, y1, x2, y2, cx, cy) && c == Cell(cx, cy) {
      var cx, cy :| InMap(cx, cy) && InRect(x1, y1, x2, y2, cx, cy) && c == Cell(cx, cy);
      BoxInside(b, lx, hx, ly, lx, hy, wall, cx, cy);
    } else {
      BoxOutside(b, lx, hx, ly, lx, hy, wall, c);
    }
  }

  function Min(a: int, b: int): int { if a < b then a else b }
  function Max(a: int, b: int): int { if a < b then b else a }

  /** (cx, cy) lies in the inclusive rectangle with corners (x1, y1), (x2, y2). */
  predicate InRect(x1: int, y1: int, x2: int, y2: int, cx: int, cy: int)
  {
    Min(x1, x2) <= cx <= Max(x1, x2) && Min(y1, y2) <= cy <= Max(y1, y2)
  }

  /** The wall id FloodWalls replaces: the one given, or for replace == -1
      the wall under an eraser's start cell, and empty cells for any other
      wall. */
  ghost function FloodTarget(b: seq<int>, x: int, y: int, wall: int, replace: int): int
    requires |b| == CELLS && InMap(x, y)
  {
    if replace != -1 then replace
    else if wall == WL_ERASE || wall == WL_ERASEALL then b[Cell(x, y)]
    else 0
  }

  /** The cells holding the wall id rep. */
  ghost function RepCells(b: seq<int>, rep: int): set<int>
  {
    set c | 0 <= c < |b| && b[c] == rep
  }

  /** From b0 to b1 only cells holding rep changed, each to v. */
  ghost predicate OnlyFilled(b0: seq<int>, b1: seq<int>, rep: int, v: int)
  {
    |b0| == |b1| == CELLS &&
    forall c :: 0 <= c < CELLS ==> b1[c] == b0[c] || (b0[c] == rep && b1[c] == v)
  }

  /** Filling composes, and never adds a cell holding rep. */
  lemma OnlyFilledTrans(b0: seq<int>, b1: seq<int>, b2: seq<int>, rep: int, v: int)
    requires OnlyFilled(b0, b1, rep, v) && OnlyFilled(b1, b2, rep, v) && v != rep
    ensures OnlyFilled(b0, b2, rep, v) && RepCells(b2, rep) <= RepCells(b1, rep) <= RepCells(b0, rep)
  {
  }

  /** Once the cell c has been filled, fewer cells hold rep. */
  lemma FilledShrinks(b0: seq<int>, b1: seq<int>, rep: int, v: int, c: int)
    requires OnlyFilled(b0, b1, rep, v) && v != rep && 0 <= c < CELLS && b0[c] == rep && b1[c] == v
    ensures RepCells(b1, rep) < RepCells(b0, rep)
  {
    assert c in RepCells(b0, rep) - RepCells(b1, rep);
  }

  /** Every cell of row y from x to x2, either way, holds rep. */
  ghost predicate RepRun(b: seq<int>, rep: int, y: int, x: int, x2: int)
    requires |b| == CELLS
  {
    InMap(x, y) && InMap(x2, y) &&
    forall k :: Min(x, x2) <= k <= Max(x, x2) ==> b[Cell(k, y)] == rep
  }

  /** A run of rep through x lies inside the maximal run x1..x2. */
  lemma RunInSpan(b: seq<int>, rep: int, x: int, y: int, x1: int, x2: int)
    requires |b| == CELLS && 0 <= x1 <= x <= x2 < CW && 0 <= y < CH
    requires x1 > 0 ==> b[Cell(x1 - 1, y)] != rep
    requires x2 < CW - 1 ==> b[Cell(x2 + 1, y)] != rep
    ensures forall x' :: RepRun(b, rep, y, x, x') ==> x1 <= x' <= x2
  {
  }

  /** None of the up to four neighbours of (cx, cy) on the map holds rep. */
  ghost predicate Sealed(b: seq<int>, rep: int, cx: int, cy: int)
    requires |b| == CELLS && InMap(cx, cy)
  {
    (cx >= 1 ==> b[Cell(cx - 1, cy)] != rep) && (cx < CW - 1 ==> b[Cell(cx + 1, cy)] != rep) &&
    (cy >= 1 ==> b[Cell(cx, cy - 1)] != rep) && (cy < CH - 1 ==> b[Cell(cx, cy + 1)] != rep)
  }

  /** Every cell filled from b0 to b1 (rep before, v after) has no
      neighbour left holding rep in b1: the fill cannot be extended. */
  ghost predicate Closed(b0: seq<int>, b1: seq<int>, rep: int, v: int)
    requires |b0| == |b1| == CELLS
  {
    forall cx, cy :: InMap(cx, cy) && b0[Cell(cx, cy)] == rep && b1[Cell(cx, cy)] == v ==>
      Sealed(b1, rep, cx, cy)
  }

  /** Filling never brings rep back, so a sealed cell stays sealed. */
  lemma SealedStays(b1: seq<int>, b2: seq<int>, rep: int, v: int, cx: int, cy: int)
    requires OnlyFilled(b1, b2, rep, v) && InMap(cx, cy) && Sealed(b1, rep, cx, cy)
    ensures Sealed(b2, rep, cx, cy)
  {
  }

  /** Two closed fills in a row make one closed fill. */
  lemma ClosedTrans(b0: seq<int>, b1: seq<int>, b2: seq<int>, rep: int, v: int)
    requires OnlyFilled(b0, b1, rep, v) && OnlyFilled(b1, b2, rep, v) && v != rep
    requires Closed(b0, b1, rep, v) && Closed(b1, b2, rep, v)
    ensures Closed(b0, b2, rep, v)
  {
    forall cx, cy | InMap(cx, cy) && b0[Cell(cx, cy)] == rep && b2[Cell(cx, cy)] == v
      ensures Sealed(b2, rep, cx, cy)
    {
      if b1[Cell(cx, cy)] == v {
        SealedStays(b1, b2, rep, v, cx, cy);
      }
    }
  }

  /** No cell x1..x2 of row ny holds rep. */
  ghost predicate RowClear(b: seq<int>, rep: int, x1: int, x2: int, ny: int)
    requires |b| == CELLS && 0 <= x1 && x2 < CW && 0 <= ny < CH
  {
    forall k :: x1 <= k <= x2 ==> b[Cell(k, ny)] != rep
  }

  /** The fill of one call of FloodWalls is closed: its span x1..x2 of row y
      (b0 to b1) is bounded by cells not holding rep at both ends, the rows
      above (b1 to b2) and below (b2 to b3) no longer hold rep beside the span,
      and the fills of those rows are closed. */
  lemma SpanClosed(b0: seq<int>, b1: seq<int>, b2: seq<int>, b3: seq<int>, rep: int, v: int,
                   x1: int, x2: int, y: int)
    requires OnlyFilled(b0, b1, rep, v) && OnlyFilled(b1, b2, rep, v) && OnlyFilled(b2, b3, rep, v) && v != rep
    requires 0 <= x1 <= x2 < CW && 0 <= y < CH
    requires forall c :: 0 <= c < CELLS && (c < Cell(x1, y) || Cell(x2, y) < c) ==> b1[c] == b0[c]
    requires forall k :: x1 <= k <= x2 ==> b1[Cell(k, y)] == v
    requires x1 > 0 ==> b0[Cell(x1 - 1, y)] != rep
    requires x2 < CW - 1 ==> b0[Cell(x2 + 1, y)] != rep
    requires y >= 1 ==> RowClear(b2, rep, x1, x2, y - 1)
    requires y < CH - 1 ==> RowClear(b3, rep, x1, x2, y + 1)
    requires Closed(b1, b2, rep, v) && Closed(b2, b3, rep, v)
    ensures Closed(b0, b3, rep, v)
  {
    ClosedTrans(b1, b2, b3, rep, v);
    forall cx, cy | InMap(cx, cy) && b0[Cell(cx, cy)] == rep && b3[Cell(cx, cy)] == v
      ensures Sealed(b3, rep, cx, cy)
    {
      if b1[Cell(cx, cy)] == v {
        CellRow(cx, cy);
        CellRow(x1, y);
        CellRow(x2, y);
        assert cy == y && x1 <= cx <= x2;
      }
    }
  }

  /** Two cells of the map that share a side. */
  predicate Adjacent(p: (int, int), q: (int, int))
  {
    (p.0 == q.0 && (p.1 - q.1 == 1 || q.1 - p.1 == 1)) ||
    (p.1 == q.1 && (p.0 - q.0 == 1 || q.0 - p.0 == 1))
  }

  /** A path through the map from cell to neighbouring cell, each holding rep. */
  ghost predicate RepPath(b: seq<int>, rep: int, path: seq<(int, int)>)
    requires |b| == CELLS
  {
    (forall i :: 0 <= i < |path| ==> InMap(path[i].0, path[i].1) && b[Cell(path[i].0, path[i].1)] == rep) &&
    (forall i :: 0 <= i < |path| - 1 ==> Adjacent(path[i], path[i + 1]))
  }

  /** A closed fill that covers the first cell of a path of rep covers the
      whole path: every cell connected to the start through rows and columns
      of rep is filled. */
  lemma {:induction false} ClosedFillsPath(b0: seq<int>, b1: seq<int>, rep: int, v: int, path: seq<(int, int)>)
    requires OnlyFilled(b0, b1, rep, v) && Closed(b0, b1, rep, v) && v != rep
    requires |path| >= 1 && RepPath(b0, rep, path) && b1[Cell(path[0].0, path[0].1)] == v
    ensures forall i :: 0 <= i < |path| ==> b1[Cell(path[i].0, path[i].1)] == v
  {
    if |path| > 1 {
      var n := |path| - 1;
      ClosedFillsPath(b0, b1, rep, v, path[..n]);
      var p, q := path[n - 1], path[n];
      assert Adjacent(p, q) && b1[Cell(p.0, p.1)] == v;
      assert Sealed(b1, rep, p.0, p.1);
      assert b0[Cell(q.0, q.1)] == rep;
    }
  }

  /** The particle table, the per-element counts, the wall map and the free list. */
  class Sim {
    const parts: array<Particle>
    const elementCount: array<int>
    const bmap: array<int>
    /** pfree: the first free slot, or -1. */
    var pfree: int
    /** parts_lastActiveIndex, and NUM_PARTS as the last rebuild left it. */
    var lastActive: int
    var numParts: int
    /** grav->gravWallChanged. */
    var gravWallChanged: bool

    /** The sizes of the arrays, and every particle's type is an element id. */
    ghost predicate Valid()
      reads this, parts
    {
      parts.Length == NPART && elementCount.Length == PT_NUM && bmap.Length == CELLS &&
      elementCount != bmap &&
      forall i :: 0 <= i < NPART ==> 0 <= parts[i].ptype < PT_NUM
    }

    /** bmap holds unsigned chars. */
    ghost predicate WallBytes()
      reads this, bmap
    {
      bmap.Length == CELLS && forall c :: 0 <= c < CELLS ==> 0 <= bmap[c] < 256
    }

    /** elementCount holds, for every element, the number of its particles. */
    ghost predicate Counted()
      reads this, parts, elementCount
      requires Valid()
    {
      forall t :: 0 < t < PT_NUM ==> elementCount[t] == Count(parts[..], t)
    }

    /** The constructor and Clear: an empty particle table, every count 0,
        an empty wall map, pfree at slot 0 and the last active index at the
        end of the table. */
    constructor ()
      ensures Valid() && WallBytes() && fresh(parts) && fresh(elementCount) && fresh(bmap)
      ensures forall i :: 0 <= i < NPART ==> parts[i] == Empty
      ensures forall t :: 0 <= t < PT_NUM ==> elementCount[t] == 0
      ensures forall c :: 0 <= c < CELLS ==> bmap[c] == 0
      ensures pfree == 0 && lastActive == NPART - 1 && numParts == 0
    {
      parts := new Particle[NPART](_ => Empty);
      elementCount := new int[PT_NUM](_ => 0);
      bmap := new int[CELLS](_ => 0);
      pfree := 0;
      lastActive := NPART - 1;
      numParts := 0;
    }

    /** RecountElements: every count is cleared, then each particle with a type
        counts once for it. */
    method RecountElements()
      requires Valid()
      modifies elementCount
      ensures Counted() && elementCount[PT_NONE] == 0
    {
      var t := 0;
      while t < PT_NUM
        invariant 0 <= t <= PT_NUM && forall u :: 0 <= u < t ==> elementCount[u] == 0
      {
        elementCount[t] := 0;
        t := t + 1;
      }
      var i := 0;
      while i < NPART
        invariant 0 <= i <= NPART && elementCount[PT_NONE] == 0
        invariant forall u :: 0 < u < PT_NUM ==> elementCount[u] == Count(parts[..i], u)
      {
        CountStep(parts[..], i);
        assert parts[..][..i + 1] == parts[..i + 1] && parts[..][..i] == parts[..i];
        if parts[i].ptype != 0 {
          elementCount[parts[i].ptype] := elementCount[parts[i].ptype] + 1;
        }
        i := i + 1;
      }
      assert parts[..NPART] == parts[..];
    }

    /** part_kill: nothing for an empty slot; otherwise the element loses one
        particle and the slot is freed. */
    method Kill(i: int)
      requires Valid() && 0 <= i < NPART
      modifies parts, elementCount, this`pfree
      ensures Valid()
      ensures old(parts[i].ptype) == PT_NONE ==>
        parts[..] == old(parts[..]) && elementCount[..] == old(elementCount[..]) && pfree == old(pfree)
      ensures old(parts[i].ptype) != PT_NONE ==>
        parts[..] == old(parts[..])[i := old(parts[i]).(ptype := PT_NONE, life := old(pfree))] &&
        elementCount[..] == old(elementCount[..])[old(parts[i].ptype) := old(elementCount[parts[i].ptype]) - 1] &&
        pfree == i
      ensures old(Counted()) ==> Counted()
    {
      var t := parts[i].ptype;
      if t == PT_NONE {
        return;
      }
      ghost var s := parts[..];
      elementCount[t] := elementCount[t] - 1;
      Free(i);
      forall u | 0 < u < PT_NUM ensures Count(parts[..], u) == Count(s, u) - (if t == u then 1 else 0) {
        CountUpdate(s, i, s[i].(ptype := PT_NONE, life := old(pfree)), u);
      }
    }

    /** part_free: the slot's type is cleared and it becomes the head of the
        free list. */
    method Free(i: int)
      requires Valid() && 0 <= i < NPART
      modifies parts, this`pfree
      ensures Valid()
      ensures parts[..] == old(parts[..])[i := old(parts[i]).(ptype := PT_NONE, life := old(pfree))]
      ensures pfree == i
    {
      parts[i] := parts[i].(ptype := PT_NONE, life := pfree);
      pfree := i;
    }

    /** part_change_type: false for a position off the map, an index past the
        table or a type out of range; true with no change for the same type; a
        disabled new type kills the particle; an indestructible particle, or a
        new element whose creation test refuses, gives false. Otherwise the
        particle takes the new type and the counts follow. createAllowed is the
        answer of the new element's creation test (true when it has none). */
    method ChangeType(i: int, x: int, y: int, t: int, elements: seq<ElementProps>, createAllowed: bool)
      returns (ok: bool)
      requires Valid() && |elements| == PT_NUM && 0 <= i
      modifies parts, elementCount, this`pfree
      ensures Valid() && (old(Counted()) ==> Counted())
      ensures var inRange := 0 <= x < XRES && 0 <= y < YRES && i < NPART && 0 <= t < PT_NUM;
        ok <==> inRange && (t == old(parts[i].ptype) || !elements[t].enabled ||
                            (!elements[old(parts[i].ptype)].indestructible && createAllowed))
      ensures var inRange := 0 <= x < XRES && 0 <= y < YRES && i < NPART && 0 <= t < PT_NUM;
        !inRange || t == old(parts[i].ptype) || (elements[t].enabled && !ok) || (!elements[t].enabled && old(parts[i].ptype) == PT_NONE) ==>
          parts[..] == old(parts[..]) && elementCount[..] == old(elementCount[..]) && pfree == old(pfree)
      ensures var inRange := 0 <= x < XRES && 0 <= y < YRES && i < NPART && 0 <= t < PT_NUM;
        inRange && t != old(parts[i].ptype) && elements[t].enabled && ok ==>
          var o := old(parts[i].ptype);
          parts[..] == old(parts[..])[i := old(parts[i]).(ptype := t)] && pfree == old(pfree) &&
          (forall u :: 0 < u < PT_NUM ==>
            elementCount[u] == old(elementCount[u]) - (if u == o then 1 else 0) + (if u == t then 1 else 0)) &&
          elementCount[PT_NONE] == old(elementCount[PT_NONE])
      ensures var inRange := 0 <= x < XRES && 0 <= y < YRES && i < NPART && 0 <= t < PT_NUM;
        inRange && t != old(parts[i].ptype) && !elements[t].enabled && old(parts[i].ptype) != PT_NONE ==>
          parts[..] == old(parts[..])[i := old(parts[i]).(ptype := PT_NONE, life := old(pfree))] && pfree == i &&
          elementCount[..] == old(elementCount[..])[old(parts[i].ptype) := old(elementCount[parts[i].ptype]) - 1]
    {
      if x < 0 || y < 0 || x >= XRES || y >= YRES || i >= NPART || t < 0 || t >= PT_NUM {
        return false;
      }
      if t == parts[i].ptype {
        return true;
      }
      if !elements[t].enabled {
        Kill(i);
        return true;
      }
      if elements[parts[i].ptype].indestructible {
        return false;
      }
      if !createAllowed {
        return false;
      }
      ghost var s := parts[..];
      var o := parts[i].ptype;
      if o != PT_NONE {
        elementCount[o] := elementCount[o] - 1;
      }
      parts[i] := parts[i].(ptype := t);
      if t != PT_NONE {
        elementCount[t] := elementCount[t] + 1;
      }
      forall u | 0 < u < PT_NUM
        ensures Count(parts[..], u) == Count(s, u) - (if o == u then 1 else 0) + (if t == u then 1 else 0)
      {
        CountUpdate(s, i, s[i].(ptype := t), u);
      }
      return true;
    }

    /** RecalcFreeParticles, without the life decrement: over slots
        0..parts_lastActiveIndex, NUM_PARTS becomes the number of particles,
        each particle loses its skip-move flag, the empty slots are linked in
        ascending order from pfree through their life fields, the list ends at
        the slot after the old last active index (or -1 at the end of the table),
        and the last active index drops to the highest slot holding a particle. */
    method RecalcFreeParticles()
      requires Valid() && 0 <= lastActive < NPART
      modifies parts, this`pfree, this`lastActive, this`numParts
      ensures Valid()
      ensures var s, last := old(parts[..]), old(lastActive);
        numParts == Live(s, last + 1) && lastActive == LastLive(s, last + 1) &&
        pfree == NextEmpty(s, 0, last, FreeEnd(last)) &&
        forall i :: 0 <= i < NPART ==> parts[i] == Rebuilt(s, i, last)
    {
      ghost var s := parts[..];
      var last := lastActive;
      ghost var end := FreeEnd(last);
      var lastUsed, lastUnused := 0, -1;
      numParts := 0;
      var i := 0;
      while i <= last
        invariant 0 <= i <= last + 1 && parts.Length == NPART
        invariant numParts == Live(s, i) && lastUsed == LastLive(s, i)
        invariant -1 <= lastUnused < i && (lastUnused >= 0 ==> s[lastUnused].ptype == PT_NONE)
        invariant AllLive(s, lastUnused + 1, i)
        invariant lastUnused >= 0 ==> pfree == NextEmpty(s, 0, last, end)
        invariant Partial(parts[..], s, i, lastUnused, last)
      {
        lastUnused, lastUsed := RecalcSlot(s, i, last, end, lastUnused, lastUsed);
        i := i + 1;
      }
      EndFreeList(s, lastUnused, last);
      lastActive := lastUsed;
      RebuiltKeepsTypes(s, parts[..], last);
    }

    /** One pass of RecalcFreeParticles' loop, over slot i: the count and
        the last slot in use take it into account, and Visit links or clears
        it. */
    method RecalcSlot(ghost s: seq<Particle>, i: int, last: int, ghost end: int, lastUnused: int, lastUsed: int)
      returns (unused: int, used: int)
      requires parts.Length == NPART && |s| == NPART && 0 <= i <= last < NPART && end == FreeEnd(last)
      requires numParts == Live(s, i) && lastUsed == LastLive(s, i)
      requires -1 <= lastUnused < i && (lastUnused >= 0 ==> s[lastUnused].ptype == PT_NONE)
      requires AllLive(s, lastUnused + 1, i)
      requires lastUnused >= 0 ==> pfree == NextEmpty(s, 0, last, end)
      requires Partial(parts[..], s, i, lastUnused, last)
      modifies parts, this`pfree, this`numParts
      ensures numParts == Live(s, i + 1) && used == LastLive(s, i + 1)
      ensures -1 <= unused < i + 1 && (unused >= 0 ==> s[unused].ptype == PT_NONE)
      ensures AllLive(s, unused + 1, i + 1)
      ensures unused >= 0 ==> pfree == NextEmpty(s, 0, last, end)
      ensures Partial(parts[..], s, i + 1, unused, last)
    {
      LiveStep(s, i);
      if lastUnused < 0 && s[i].ptype == PT_NONE {
        NextEmptyAt(s, 0, i, last, end);
      }
      assert parts[..][i] == s[i];
      var live := parts[i].ptype != PT_NONE;
      unused := Visit(s, i, last, lastUnused);
      used := lastUsed;
      if live {
        AllLiveStep(s, unused + 1, i);
        used := i;
        numParts := numParts + 1;
      }
    }

    /** One slot of the loop of RecalcFreeParticles: a particle loses its
        skip-move flag; an empty slot becomes pfree when it is the first one,
        or the link of the empty slot before it. Returns the last empty slot. */
    method Visit(ghost s: seq<Particle>, i: int, last: int, lastUnused: int) returns (unused: int)
      requires parts.Length == NPART && 0 <= i <= last < NPART && Partial(parts[..], s, i, lastUnused, last)
      requires lastUnused >= 0 ==> s[lastUnused].ptype == PT_NONE
      requires AllLive(s, lastUnused + 1, i)
      modifies parts, this`pfree
      ensures Partial(parts[..], s, i + 1, unused, last)
      ensures unused == if s[i].ptype != PT_NONE then lastUnused else i
      ensures pfree == if lastUnused < 0 && s[i].ptype == PT_NONE then i else old(pfree)
    {
      ghost var p := parts[..];
      assert parts[i] == s[i];
      unused := lastUnused;
      if parts[i].ptype != PT_NONE {
        parts[i] := parts[i].(flags := ClearSkipMove(parts[i].flags));
        assert parts[..] == p[i := p[i].(flags := ClearSkipMove(p[i].flags))];
        PartialLive(p, s, i, lastUnused, last);
      } else {
        if lastUnused < 0 {
          pfree := i;
          PartialFirstEmpty(p, s, i, last);
        } else {
          NextEmptyAt(s, lastUnused + 1, i, last, FreeEnd(last));
          parts[lastUnused] := parts[lastUnused].(life := i);
          assert parts[..] == p[lastUnused := p[lastUnused].(life := i)];
          PartialLink(p, s, i, lastUnused, last);
        }
        unused := i;
      }
    }

    /** The end of RecalcFreeParticles: the last empty slot seen, or pfree when
        there was none, points past the last active index. */
    method EndFreeList(ghost s: seq<Particle>, lastUnused: int, last: int)
      requires parts.Length == NPART && 0 <= last < NPART && Partial(parts[..], s, last + 1, lastUnused, last)
      requires lastUnused >= 0 ==> s[lastUnused].ptype == PT_NONE
      requires AllLive(s, lastUnused + 1, last + 1)
      modifies parts, this`pfree
      ensures lastUnused >= 0 ==> pfree == old(pfree)
      ensures lastUnused < 0 ==> pfree == NextEmpty(s, 0, last, FreeEnd(last))
      ensures forall k :: 0 <= k < NPART ==> parts[k] == Rebuilt(s, k, last)
    {
      ghost var p := parts[..];
      ghost var end := FreeEnd(last);
      if lastUnused == -1 {
        NextEmptyNone(s, 0, last, end);
        if last >= NPART - 1 {
          pfree := -1;
        } else {
          pfree := last + 1;
        }
        PartialNoEmpty(p, s, last);
      } else {
        NextEmptyNone(s, lastUnused + 1, last, end);
        if last >= NPART - 1 {
          parts[lastUnused] := parts[lastUnused].(life := -1);
        } else {
          parts[lastUnused] := parts[lastUnused].(life := last + 1);
        }
        assert parts[..] == p[lastUnused := p[lastUnused].(life := end)];
        PartialClose(p, s, lastUnused, last);
      }
    }

    /** CreateWall: nothing happens off the map, or for a streamline next to
        another one; otherwise the cell takes the wall (WL_ERASEALL clears
        it), and the gravity field is marked when a gravity wall is put or
        overwritten. */
    method CreateWall(x: int, y: int, wall: int)
      requires Valid() && WallBytes()
      modifies bmap, this`gravWallChanged
      ensures WallBytes()
      ensures bmap[..] == PutWall(old(bmap[..]), x, y, wall)
      ensures gravWallChanged == (old(gravWallChanged) || GravTouched(old(bmap[..]), x, y, wall))
    {
      if x < 0 || y < 0 || x >= CW || y >= CH {
        return;
      }
      var w := wall;
      if wall == WL_FAN {
        // the fan velocity of the cell is reset: the air grid is not modelled
      } else if wall == WL_STREAM {
        for ty := y - 1 to y + 2
          invariant forall tx, ty' :: x - 1 <= tx <= x + 1 && y - 1 <= ty' < ty && InMap(tx, ty') ==> bmap[..][Cell(tx, ty')] != WL_STREAM
        {
          for tx := x - 1 to x + 2
            invariant forall tx', ty' :: x - 1 <= tx' <= x + 1 && y - 1 <= ty' < ty && InMap(tx', ty') ==> bmap[..][Cell(tx', ty')] != WL_STREAM
            invariant forall tx' :: x - 1 <= tx' < tx && InMap(tx', ty) ==> bmap[..][Cell(tx', ty)] != WL_STREAM
          {
            if tx >= 0 && tx < CW && ty >= 0 && ty < CH && bmap[Cell(tx, ty)] == WL_STREAM {
              assert bmap[..][Cell(tx, ty)] == WL_STREAM;
              return;
            }
          }
        }
      } else if wall == WL_ERASEALL {
        // the particles and signs in the cell are deleted: not modelled
        w := 0;
      }
      if w == WL_GRAV || bmap[Cell(x, y)] == WL_GRAV {
        gravWallChanged := true;
      }
      bmap[Cell(x, y)] := w % 256;
    }

    /** CreateWallBox: the corners are sorted and CreateWall runs over the
        inclusive rectangle, row by row; WallBoxFills says what that does. */
    method CreateWallBox(x1: int, y1: int, x2: int, y2: int, wall: int)
      requires Valid() && WallBytes()
      modifies bmap, this`gravWallChanged
      ensures WallBytes()
      ensures bmap[..] == Box(old(bmap[..]), Min(x1, x2), Max(x1, x2), Min(y1, y2), Min(x1, x2), Max(y1, y2), wall)
      ensures old(gravWallChanged) ==> gravWallChanged
    {
      var x1, y1, x2, y2 := x1, y1, x2, y2;
      if x1 > x2 {
        x1, x2 := x2, x1;
      }
      if y1 > y2 {
        y1, y2 := y2, y1;
      }
      ghost var goal := Box(bmap[..], x1, x2, y1, x1, y2, wall);
      var j := y1;
      while j <= y2
        invariant WallBytes() && j <= y2 + 1
        invariant Box(bmap[..], x1, x2, j, x1, y2, wall) == goal
        invariant old(gravWallChanged) ==> gravWallChanged
      {
        var i := x1;
        while i <= x2
          invariant WallBytes() && i <= x2 + 1
          invariant Box(bmap[..], x1, x2, j, i, y2, wall) == goal
          invariant old(gravWallChanged) ==> gravWallChanged
        {
          CreateWall(i, j, wall);
          i := i + 1;
        }
        j := j + 1;
      }
    }

    /** FloodWalls: from (x, y), the connected cells (through rows and
        columns) holding the target wall id are filled with the wall, a run of
        a row at a time. A call returns 0 only when an eraser starts on an
        empty cell, and then nothing changes. Otherwise the fill is closed: no
        filled cell keeps a neighbour holding the target, which by
        ClosedFillsPath means every cell connected to the start is filled. */
    method FloodWalls(x: int, y: int, wall: int, replace: int) returns (r: int)
      requires Valid() && WallBytes() && InMap(x, y)
      requires wall != WL_STREAM && 0 <= wall < 256
      requires replace != -1 ==> WallValue(wall) != replace
      modifies bmap, this`gravWallChanged
      ensures WallBytes()
      ensures r == 0 <==> replace == -1 && (wall == WL_ERASE || wall == WL_ERASEALL) && old(bmap[Cell(x, y)]) == 0
      ensures OnlyFilled(old(bmap[..]), bmap[..], FloodTarget(old(bmap[..]), x, y, wall, replace), WallValue(wall))
      ensures r != 0 ==> forall x2 :: RepRun(old(bmap[..]), FloodTarget(old(bmap[..]), x, y, wall, replace), y, x, x2) ==>
        bmap[Cell(x2, y)] == WallValue(wall)
      ensures r != 0 ==> Closed(old(bmap[..]), bmap[..], FloodTarget(old(bmap[..]), x, y, wall, replace), WallValue(wall))
      ensures old(gravWallChanged) ==> gravWallChanged
      decreases RepCells(bmap[..], FloodTarget(bmap[..], x, y, wall, replace)), 3
    {
      var rep := replace;
      if replace == -1 {
        if wall == WL_ERASE || wall == WL_ERASEALL {
          rep := bmap[Cell(x, y)];
          if rep == 0 {
            return 0;
          }
        } else {
          rep := 0;
        }
      }
      r := 1;
      assert WallValue(wall) != rep;
      if bmap[Cell(x, y)] != rep {
        return;
      }
      FloodFrom(x, y, wall, rep);
    }

    /** The body of FloodWalls once (x, y) is known to hold rep: the run of rep
        through (x, y) is filled, then the rows above and below are flooded
        from. */
    method FloodFrom(x: int, y: int, wall: int, rep: int)
      requires Valid() && WallBytes() && InMap(x, y)
      requires wall != WL_STREAM && 0 <= wall < 256 && 0 <= rep < 256 && WallValue(wall) != rep
      requires bmap[Cell(x, y)] == rep
      modifies bmap, this`gravWallChanged
      ensures WallBytes()
      ensures OnlyFilled(old(bmap[..]), bmap[..], rep, WallValue(wall))
      ensures forall x2 :: RepRun(old(bmap[..]), rep, y, x, x2) ==> bmap[Cell(x2, y)] == WallValue(wall)
      ensures Closed(old(bmap[..]), bmap[..], rep, WallValue(wall))
      ensures old(gravWallChanged) ==> gravWallChanged
      decreases RepCells(bmap[..], rep), 2
    {
      ghost var b0 := bmap[..];
      var x1, x2 := SpanAround(x, y, rep);
      FillSpan(x1, x2, y, wall, rep);
      ghost var b1 := bmap[..];
      RunInSpan(b0, rep, x, y, x1, x2);
      FilledShrinks(b0, b1, rep, WallValue(wall), Cell(x, y));
      if y >= 1 {
        FloodRow(x1, x2, y, y - 1, wall, rep);
      }
      ghost var b2 := bmap[..];
      OnlyFilledTrans(b0, b1, b2, rep, WallValue(wall));
      if y < CH - 1 {
        FloodRow(x1, x2, y, y + 1, wall, rep);
      }
      OnlyFilledTrans(b0, b2, bmap[..], rep, WallValue(wall));
      SpanClosed(b0, b1, b2, bmap[..], rep, WallValue(wall), x1, x2, y);
    }

    /** The first two loops of FloodWalls: the run of cells holding rep in
        row y around x. */
    method SpanAround(x: int, y: int, rep: int) returns (x1: int, x2: int)
      requires WallBytes() && InMap(x, y) && bmap[Cell(x, y)] == rep
      ensures 0 <= x1 <= x <= x2 < CW
      ensures forall k :: x1 <= k <= x2 ==> bmap[Cell(k, y)] == rep
      ensures x1 > 0 ==> bmap[Cell(x1 - 1, y)] != rep
      ensures x2 < CW - 1 ==> bmap[Cell(x2 + 1, y)] != rep
    {
      x1, x2 := x, x;
      while x1 >= 1
        invariant 0 <= x1 <= x && forall k :: x1 <= k <= x ==> bmap[Cell(k, y)] == rep
      {
        if bmap[Cell(x1 - 1, y)] != rep {
          break;
        }
        x1 := x1 - 1;
      }
      while x2 < CW - 1
        invariant x <= x2 < CW && forall k :: x1 <= k <= x2 ==> bmap[Cell(k, y)] == rep
      {
        if bmap[Cell(x2 + 1, y)] != rep {
          break;
        }
        x2 := x2 + 1;
      }
    }

    /** The span loop of FloodWalls: CreateWall over x1..x2 of row y, whose
        cells all hold rep. */
    method FillSpan(x1: int, x2: int, y: int, wall: int, rep: int)
      requires Valid() && WallBytes() && 0 <= x1 <= x2 < CW && 0 <= y < CH && wall != WL_STREAM
      requires forall k :: x1 <= k <= x2 ==> bmap[Cell(k, y)] == rep
      modifies bmap, this`gravWallChanged
      ensures WallBytes()
      ensures OnlyFilled(old(bmap[..]), bmap[..], rep, WallValue(wall))
      ensures forall k :: x1 <= k <= x2 ==> bmap[Cell(k, y)] == WallValue(wall)
      ensures forall c :: 0 <= c < CELLS && (c < Cell(x1, y) || Cell(x2, y) < c) ==> bmap[c] == old(bmap[c])
      ensures old(gravWallChanged) ==> gravWallChanged
    {
      ghost var b0 := bmap[..];
      for k := x1 to x2 + 1
        invariant WallBytes() && OnlyFilled(b0, bmap[..], rep, WallValue(wall))
        invariant forall c :: 0 <= c < CELLS && (c < Cell(x1, y) || Cell(x2, y) < c) ==> bmap[c] == b0[c]
        invariant forall m :: x1 <= m < k ==> bmap[Cell(m, y)] == WallValue(wall)
        invariant forall m :: k <= m <= x2 ==> bmap[Cell(m, y)] == rep
        invariant old(gravWallChanged) ==> gravWallChanged
      {
        CreateWall(k, y, wall);
      }
    }

    /** One of the two child loops of FloodWalls: each cell of row ny beside
        the filled run x1..x2 of row y that still holds rep is flooded from.
        A call with a given replace value never returns 0, so the early
        return after a child call never happens here. */
    method FloodRow(x1: int, x2: int, y: int, ny: int, wall: int, rep: int)
      requires Valid() && WallBytes() && 0 <= x1 <= x2 < CW && 0 <= y < CH && 0 <= ny < CH
      requires wall != WL_STREAM && 0 <= wall < 256 && 0 <= rep < 256 && WallValue(wall) != rep
      modifies bmap, this`gravWallChanged
      ensures WallBytes()
      ensures OnlyFilled(old(bmap[..]), bmap[..], rep, WallValue(wall))
      ensures Closed(old(bmap[..]), bmap[..], rep, WallValue(wall)) && RowClear(bmap[..], rep, x1, x2, ny)
      ensures old(gravWallChanged) ==> gravWallChanged
      decreases RepCells(bmap[..], rep), 4
    {
      ghost var b0 := bmap[..];
      for k := x1 to x2 + 1
        invariant WallBytes() && OnlyFilled(b0, bmap[..], rep, WallValue(wall))
        invariant RepCells(bmap[..], rep) <= RepCells(b0, rep)
        invariant Closed(b0, bmap[..], rep, WallValue(wall))
        invariant forall m :: x1 <= m < k ==> bmap[Cell(m, ny)] != rep
        invariant old(gravWallChanged) ==> gravWallChanged
      {
        if bmap[Cell(k, ny)] == rep {
          ghost var b1 := bmap[..];
          assert RepRun(b1, rep, ny, k, k);
          var _ := FloodWalls(k, ny, wall, rep);
          OnlyFilledTrans(b0, b1, bmap[..], rep, WallValue(wall));
          ClosedTrans(b0, b1, bmap[..], rep, WallValue(wall));
        }
      }
    }
  }
}

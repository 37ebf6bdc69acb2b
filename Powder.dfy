// The wall and electricity maps of src/powder.cpp and the small helpers kept
// beside them: wire detection, the electrified-wire flood (set_emap), the map
// frame, the brush flags and the packing of orbital particles' data.
module Powder {
  import opened Defines
  import opened Walls

  /** The wall map is CW x CH cells: XRES / CELL by YRES / CELL. */
  const CW: int := 153
  const CH: int := 96
  const CELLS: int := 14688

  /** The map sizes are those of the simulation area divided into cells. */
  lemma MapSize()
    ensures CW == XRES / CELL && CH == YRES / CELL && CELLS == CW * CH
  {
  }

  /** bmap[y][x] and emap[y][x] in the row-major layout C gives the arrays:
      an x one past either end of a row reaches into the neighbouring row. */
  function Cell(x: int, y: int): int
  {
    y * CW + x
  }

  /** The walls that conduct electricity. */
  predicate IsConductor(w: int)
  {
    w == WL_DETECT || w == WL_EWALL || w == WL_ALLOWLIQUID || w == WL_WALLELEC ||
    w == WL_ALLOWALLELEC || w == WL_EHOLE || w == WL_STASIS
  }

  /** is_wire: the cell holds a conducting wall. Reads that fall outside the
      map are taken as no wall. */
  predicate IsWire(bmap: seq<int>, x: int, y: int)
  {
    0 <= Cell(x, y) < |bmap| && IsConductor(bmap[Cell(x, y)])
  }

  /** is_wire_off: a conducting wall whose electricity level is below 8. */
  predicate IsWireOff(bmap: seq<int>, emap: seq<int>, x: int, y: int)
  {
    IsWire(bmap, x, y) && Cell(x, y) < |emap| && emap[Cell(x, y)] < 8
  }

  /** The cells set_emap may still light. */
  ghost function OffCells(bmap: seq<int>, emap: seq<int>): set<int>
  {
    set i | 0 <= i < |bmap| && i < |emap| && IsConductor(bmap[i]) && emap[i] < 8
  }

  /** emap1 differs from emap0 only in cells that were wires off and are now 16. */
  ghost predicate OnlyLit(bmap: seq<int>, emap0: seq<int>, emap1: seq<int>)
  {
    |emap1| == |emap0| &&
    forall i :: 0 <= i < |emap0| ==> emap1[i] == emap0[i] || (i in OffCells(bmap, emap0) && emap1[i] == 16)
  }

  /** Lighting cells only ever removes cells from the set still to light, and
      lighting twice is lighting once. */
  lemma OnlyLitShrinks(bmap: seq<int>, e0: seq<int>, e1: seq<int>, e2: seq<int>)
    requires OnlyLit(bmap, e0, e1) && OnlyLit(bmap, e1, e2)
    ensures OffCells(bmap, e1) <= OffCells(bmap, e0) && OnlyLit(bmap, e0, e2)
  {
  }

  /** Lighting one more cell that was off keeps OnlyLit. */
  lemma LightOne(bmap: seq<int>, e0: seq<int>, e: seq<int>, i: int)
    requires OnlyLit(bmap, e0, e) && 0 <= i < |bmap| && i < |e0| && IsConductor(bmap[i]) && e0[i] < 8
    ensures OnlyLit(bmap, e0, e[i := 16])
  {
    assert i in OffCells(bmap, e0);
  }

  /** All cells of row y from x to x' (either way) are wires off. */
  ghost predicate OffRun(bmap: seq<int>, emap: seq<int>, x: int, x': int, y: int)
  {
    forall k :: (x <= k <= x' || x' <= k <= x) ==> IsWireOff(bmap, emap, k, y)
  }

  /** The tests set_emap makes before going on to the cell two rows up or down
      (a lone vertical wire) and before spreading to the row above or below. */
  predicate JumpUp(b: seq<int>, x1: int, x2: int, y: int)
  {
    y > 1 && x1 == x2 &&
    IsWire(b, x1 - 1, y - 1) && IsWire(b, x1, y - 1) && IsWire(b, x1 + 1, y - 1) &&
    !IsWire(b, x1 - 1, y - 2) && IsWire(b, x1, y - 2) && !IsWire(b, x1 + 1, y - 2)
  }

  predicate SpreadUp(b: seq<int>, x: int, x1: int, x2: int, y: int)
  {
    x == x1 || x == x2 || y >= CH - 1 ||
    IsWire(b, x - 1, y - 1) || IsWire(b, x + 1, y - 1) ||
    IsWire(b, x - 1, y + 1) || !IsWire(b, x, y + 1) || IsWire(b, x + 1, y + 1)
  }

  predicate JumpDown(b: seq<int>, x1: int, x2: int, y: int)
  {
    y < CH - 2 && x1 == x2 &&
    IsWire(b, x1 - 1, y + 1) && IsWire(b, x1, y + 1) && IsWire(b, x1 + 1, y + 1) &&
    !IsWire(b, x1 - 1, y + 2) && IsWire(b, x1, y + 2) && !IsWire(b, x1 + 1, y + 2)
  }

  predicate SpreadDown(b: seq<int>, x: int, x1: int, x2: int, y: int)
  {
    x == x1 || x == x2 || y < 0 ||
    IsWire(b, x - 1, y + 1) || IsWire(b, x + 1, y + 1) ||
    IsWire(b, x - 1, y - 1) || !IsWire(b, x, y - 1) || IsWire(b, x + 1, y - 1)
  }

  /** The wall map (bmap) and the electricity map (emap) of the simulation. */
  class WallMaps {
    const bmap: array<int>
    const emap: array<int>

    ghost predicate Valid()
    {
      bmap.Length == CELLS && emap.Length == CELLS && bmap != emap
    }

    constructor ()
      ensures Valid() && fresh(bmap) && fresh(emap)
    {
      bmap := new int[CELLS];
      emap := new int[CELLS];
    }

    /** set_emap: lights a wire. Nothing happens unless (x, y) is a wire that is
        off. Otherwise the whole run of wires off in its row is set to 16, and
        the flood goes on up and down: two rows on across a lone vertical wire,
        else to each wire off in the next row that the spreading test lets
        through. Only wires that were off change, and only to 16. */
    method SetEmap(x: int, y: int)
      requires Valid() && 0 <= x < CW && 0 <= y < CH
      modifies emap
      ensures OnlyLit(bmap[..], old(emap[..]), emap[..])
      ensures !old(IsWireOff(bmap[..], emap[..], x, y)) ==> emap[..] == old(emap[..])
      ensures old(IsWireOff(bmap[..], emap[..], x, y)) ==>
        forall x' :: 0 <= x' < CW && old(OffRun(bmap[..], emap[..], x, x', y)) ==> emap[Cell(x', y)] == 16
      decreases OffCells(bmap[..], emap[..]), 0
    {
      ghost var b, e0 := bmap[..], emap[..];
      if !IsWireOff(bmap[..], emap[..], x, y) {
        return;
      }
      var x1, x2 := RunAround(x, y);
      LightRun(x1, x2, y);
      assert Cell(x, y) in OffCells(b, e0) - OffCells(b, emap[..]);
      ghost var e1 := emap[..];

      SpreadFrom(x1, x2, y, true);
      ghost var e2 := emap[..];
      OnlyLitShrinks(b, e0, e1, e2);
      OnlyLitShrinks(b, e1, e2, e2);
      SpreadFrom(x1, x2, y, false);
      OnlyLitShrinks(b, e1, e2, emap[..]);
      OnlyLitShrinks(b, e0, e1, emap[..]);
      forall j | x1 <= j <= x2 ensures emap[Cell(j, y)] == 16 {
        assert Cell(j, y) !in OffCells(b, e1);
      }
    }

    /** The flood from the lit run x1..x2 of row y into the row above (up)
        or below: across a lone vertical wire two rows on, else along the
        next row. */
    method SpreadFrom(x1: int, x2: int, y: int, up: bool)
      requires Valid() && 0 <= x1 <= x2 < CW && 0 <= y < CH
      modifies emap
      ensures OnlyLit(bmap[..], old(emap[..]), emap[..])
      decreases OffCells(bmap[..], emap[..]), 2
    {
      if up {
        if JumpUp(bmap[..], x1, x2, y) {
          SetEmap(x1, y - 2);
        } else if y > 0 {
          SpreadRow(x1, x2, y, y - 1);
        }
      } else {
        if JumpDown(bmap[..], x1, x2, y) {
          SetEmap(x1, y + 2);
        } else if y < CH - 1 {
          SpreadRow(x1, x2, y, y + 1);
        }
      }
    }

    /** The first two loops of set_emap: the run of wires off in row y around x. */
    method RunAround(x: int, y: int) returns (x1: int, x2: int)
      requires Valid() && 0 <= x < CW && 0 <= y < CH && IsWireOff(bmap[..], emap[..], x, y)
      ensures 0 <= x1 <= x <= x2 < CW
      ensures forall k :: x1 <= k <= x2 ==> IsWireOff(bmap[..], emap[..], k, y)
      ensures x1 > 0 ==> !IsWireOff(bmap[..], emap[..], x1 - 1, y)
      ensures x2 < CW - 1 ==> !IsWireOff(bmap[..], emap[..], x2 + 1, y)
    {
      x1, x2 := x, x;
      while x1 > 0
        invariant 0 <= x1 <= x && forall k :: x1 <= k <= x ==> IsWireOff(bmap[..], emap[..], k, y)
      {
        if !IsWireOff(bmap[..], emap[..], x1 - 1, y) {
          break;
        }
        x1 := x1 - 1;
      }
      while x2 < CW - 1
        invariant x <= x2 < CW && forall k :: x1 <= k <= x2 ==> IsWireOff(bmap[..], emap[..], k, y)
      {
        if !IsWireOff(bmap[..], emap[..], x2 + 1, y) {
          break;
        }
        x2 := x2 + 1;
      }
    }

    /** The third loop of set_emap: the run x1..x2 of row y is set to 16. */
    method LightRun(x1: int, x2: int, y: int)
      requires Valid() && 0 <= x1 <= x2 < CW && 0 <= y < CH
      requires forall k :: x1 <= k <= x2 ==> IsWireOff(bmap[..], emap[..], k, y)
      modifies emap
      ensures forall j :: x1 <= j <= x2 ==> emap[Cell(j, y)] == 16
      ensures OnlyLit(bmap[..], old(emap[..]), emap[..])
    {
      ghost var b, e0 := bmap[..], emap[..];
      var k := x1;
      while k <= x2
        invariant x1 <= k <= x2 + 1
        invariant forall j :: x1 <= j < k ==> emap[Cell(j, y)] == 16
        invariant OnlyLit(b, e0, emap[..])
      {
        ghost var e := emap[..];
        assert IsWireOff(b, e0, k, y);
        emap[Cell(k, y)] := 16;
        assert emap[..] == e[Cell(k, y) := 16];
        LightOne(b, e0, e, Cell(k, y));
        k := k + 1;
      }
    }

    /** The loops of set_emap over the span x1..x2 of row y: each wire off in
        row y' (the row above or below) that the spreading test lets through
        is lit in turn. */
    method SpreadRow(x1: int, x2: int, y: int, y': int)
      requires Valid() && 0 <= x1 <= x2 < CW && 0 <= y' < CH && (y' == y - 1 || y' == y + 1)
      modifies emap
      ensures OnlyLit(bmap[..], old(emap[..]), emap[..])
      decreases OffCells(bmap[..], emap[..]), 1
    {
      ghost var b, e0 := bmap[..], emap[..];
      var k := x1;
      while k <= x2
        invariant x1 <= k <= x2 + 1
        invariant OnlyLit(b, e0, emap[..])
      {
        if IsWireOff(bmap[..], emap[..], k, y') &&
           (if y' < y then SpreadUp(bmap[..], k, x1, x2, y) else SpreadDown(bmap[..], k, x1, x2, y)) {
          ghost var e1 := emap[..];
          SetEmap(k, y');
          OnlyLitShrinks(b, e0, e1, emap[..]);
        }
        k := k + 1;
      }
    }

    /** draw_bframe: every border cell of the wall map becomes a solid wall. */
    method DrawBframe()
      requires Valid()
      modifies bmap
      ensures forall i :: 0 <= i < CELLS ==> bmap[i] == if OnBorder(i) then WL_WALL else old(bmap[i])
    {
      FillFrame(WL_WALL);
    }

    /** erase_bframe: every border cell of the wall map is cleared. */
    method EraseBframe()
      requires Valid()
      modifies bmap
      ensures forall i :: 0 <= i < CELLS ==> bmap[i] == if OnBorder(i) then 0 else old(bmap[i])
    {
      FillFrame(0);
    }

    /** The loops of draw_bframe and erase_bframe: the first and last rows, then
        the first and last columns of the rows between them. */
    method FillFrame(v: int)
      requires Valid()
      modifies bmap
      ensures forall i :: 0 <= i < CELLS ==> bmap[i] == if OnBorder(i) then v else old(bmap[i])
    {
      var i := 0;
      while i < CW
        invariant 0 <= i <= CW
        invariant forall y, x :: 0 <= y < CH && 0 <= x < CW ==>
          bmap[Cell(x, y)] == if (y == 0 || y == CH - 1) && x < i then v else old(bmap[Cell(x, y)])
      {
        bmap[Cell(i, 0)] := v;
        bmap[Cell(i, CH - 1)] := v;
        i := i + 1;
      }
      i := 1;
      while i < CH - 1
        invariant 1 <= i <= CH - 1
        invariant forall y, x :: 0 <= y < CH && 0 <= x < CW ==>
          bmap[Cell(x, y)] ==
            if y == 0 || y == CH - 1 || ((x == 0 || x == CW - 1) && y < i) then v else old(bmap[Cell(x, y)])
      {
        bmap[Cell(0, i)] := v;
        bmap[Cell(CW - 1, i)] := v;
        i := i + 1;
      }
      forall i | 0 <= i < CELLS
        ensures bmap[i] == if OnBorder(i) then v else old(bmap[i])
      {
        assert i == Cell(i % CW, i / CW);
      }
    }
  }

  /** A cell in the first or last row or column of the map. */
  predicate OnBorder(i: int)
  {
    var x, y := i % CW, i / CW;
    x == 0 || x == CW - 1 || y == 0 || y == CH - 1
  }

  // Brush flags

  const BRUSH_REPLACEMODE: int := 0x1
  const BRUSH_SPECIFIC_DELETE: int := 0x2

  /** get_brush_flags: bit 0x1 stands for replace mode, bit 0x2 for specific
      delete, and no other bit is set. */
  function GetBrushFlags(replaceMode: bool, specificDelete: bool): (flags: int)
    ensures 0 <= flags < 4
    ensures flags % 2 == 1 <==> replaceMode
    ensures flags / 2 == 1 <==> specificDelete
  {
    var flags := 0;
    var flags := if replaceMode then flags + BRUSH_REPLACEMODE else flags;
    if specificDelete then flags + BRUSH_SPECIFIC_DELETE else flags
  }

  // Orbital particles' data

  const TWO32: int := 0x1_0000_0000

  predicate IsInt32(n: int)
  {
    -0x8000_0000 <= n < 0x8000_0000
  }

  /** The four bytes of an int, least significant first: (block & 0xFF<<8k) >> 8k. */
  function Bytes(block: int): (r: seq<int>)
    requires IsInt32(block)
    ensures |r| == 4 && forall k :: 0 <= k < 4 ==> 0 <= r[k] < 256
    ensures r[0] + 0x100 * (r[1] + 0x100 * (r[2] + 0x100 * r[3])) == block % TWO32
  {
    var u := block % TWO32;
    var r := [u % 0x100, u / 0x100 % 0x100, u / 0x100 / 0x100 % 0x100, u / 0x100 / 0x100 / 0x100];
    assert r[3] < 0x100;
    r
  }

  /** An int put together from the low byte (x & 0xFF) of each of four values,
      the last one the most significant, wrapping into the int range. */
  function Word(res: seq<int>): (r: int)
    requires |res| == 4
    ensures IsInt32(r)
    ensures r % TWO32 == res[0] % 0x100 + 0x100 * (res[1] % 0x100 + 0x100 * (res[2] % 0x100 + 0x100 * (res[3] % 0x100)))
  {
    var u := res[0] % 0x100 + 0x100 * (res[1] % 0x100 + 0x100 * (res[2] % 0x100 + 0x100 * (res[3] % 0x100)));
    if u < 0x8000_0000 then u else u - TWO32
  }

  /** orbitalparts_get: the bytes of both blocks. */
  function OrbitalpartsGet(block1: int, block2: int): (seq<int>, seq<int>)
    requires IsInt32(block1) && IsInt32(block2)
  {
    (Bytes(block1), Bytes(block2))
  }

  /** orbitalparts_set: both blocks put back together from their bytes. */
  function OrbitalpartsSet(res1: seq<int>, res2: seq<int>): (int, int)
    requires |res1| == 4 && |res2| == 4
  {
    (Word(res1), Word(res2))
  }

  /** Putting back the bytes taken apart restores both blocks. */
  lemma OrbitalRoundTrip(block1: int, block2: int)
    requires IsInt32(block1) && IsInt32(block2)
    ensures var (r1, r2) := OrbitalpartsGet(block1, block2); OrbitalpartsSet(r1, r2) == (block1, block2)
  {
    WordBytes(block1);
    WordBytes(block2);
  }

  lemma WordBytes(block: int)
    requires IsInt32(block)
    ensures Word(Bytes(block)) == block
  {
    var r := Bytes(block);
    assert forall k :: 0 <= k < 4 ==> r[k] % 0x100 == r[k];
    var w := Word(r);
    assert w % TWO32 == block % TWO32;
  }

  /** Taking apart the blocks put together gives back the low byte of each value. */
  lemma OrbitalBytesRoundTrip(res1: seq<int>, res2: seq<int>)
    requires |res1| == 4 && |res2| == 4
    ensures var (b1, b2) := OrbitalpartsSet(res1, res2);
      var (r1, r2) := OrbitalpartsGet(b1, b2);
      (forall k :: 0 <= k < 4 ==> r1[k] == res1[k] % 0x100 && r2[k] == res2[k] % 0x100)
  {
    BytesWord(res1);
    BytesWord(res2);
  }

  /** (a + 256 q) / 256 == q and (a + 256 q) % 256 == a for a byte a. */
  lemma ByteShift(a: int, q: int)
    requires 0 <= a < 0x100
    ensures (a + 0x100 * q) / 0x100 == q && (a + 0x100 * q) % 0x100 == a
  {
  }

  lemma BytesWord(res: seq<int>)
    requires |res| == 4
    ensures forall k :: 0 <= k < 4 ==> Bytes(Word(res))[k] == res[k] % 0x100
  {
    var w := Word(res);
    var a, b, c, d := res[0] % 0x100, res[1] % 0x100, res[2] % 0x100, res[3] % 0x100;
    var u := w % TWO32;
    assert u == a + 0x100 * (b + 0x100 * (c + 0x100 * d));
    ByteShift(a, b + 0x100 * (c + 0x100 * d));
    ByteShift(b, c + 0x100 * d);
    ByteShift(c, d);
    ByteShift(d, 0);
  }
}

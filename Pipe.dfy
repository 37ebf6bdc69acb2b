// PIPE and PPIP (src/simulation/elements/PIPE.cpp): moving a particle into,
// along and out of a pipe, the flag a spark sets on a powered pipe, and the
// trigger processing of a powered pipe. A pipe keeps the particle it carries
// in its own fields: the type in ctype (tmp for STOR), the temperature, the
// life in tmp2 and the particle's tmp and ctype in pavg[0] and pavg[1].
module Pipe {
  import opened Parts
  import opened PipeFlags

  import opened Bits

  /** A pipe particle with the two pavg values the game keeps as floats. Every
      value stored there is an int converted to float, so it is an integer
      and is held as one. */
  datatype Carrier = Carrier(p: Particle, pavg0: int, pavg1: int)

  /** TYP: the element id held in the low PMAPBITS = 9 bits. */
  function Typ(x: int): (r: int)
    ensures 0 <= r < 0x200
    ensures 0 <= x < 0x200 ==> r == x
  {
    x % 0x200
  }

  // ----- (float) of an int -----

  /** How many low bits a single-precision float, with its 24-bit
      significand, cannot keep of the magnitude a. */
  function DroppedBits(a: nat): nat
  {
    if a < 0x100_0000 then 0 else 1 + DroppedBits(a / 2)
  }

  /** The magnitude a rounded to a 24-bit significand, to nearest with ties
      to even, as an IEEE 754 conversion rounds by default. */
  function RoundSignificand(a: nat): nat
  {
    var p := Pow2(DroppedBits(a));
    var q, r := a / p, a % p;
    if 2 * r > p || (2 * r == p && q % 2 == 1) then (q + 1) * p else q * p
  }

  /** (float)x for an int x, read back as the integer the float holds. */
  function Float(x: int): int
  {
    if x < 0 then -(RoundSignificand(-x) as int) else RoundSignificand(x)
  }

  function Abs(x: int): nat { if x < 0 then -x else x }

  /** a / (2 * m) is (a / 2) / m. */
  lemma DivHalf(a: nat, m: nat)
    requires m > 0
    ensures a / (2 * m) == (a / 2) / m
  {
    var q, r := (a / 2) / m, (a / 2) % m;
    assert a == (2 * m) * q + (2 * r + a % 2);
    DivUnique(a, 2 * m, q, 2 * r + a % 2);
  }

  /** The bits dropped leave a significand of at most 24 bits, and of
      exactly 24 bits whenever any is dropped. */
  lemma {:induction false} DroppedBitsFit(a: nat)
    ensures a / Pow2(DroppedBits(a)) < 0x100_0000
    ensures DroppedBits(a) > 0 ==> 0x80_0000 <= a / Pow2(DroppedBits(a))
  {
    if a >= 0x100_0000 {
      var k := DroppedBits(a / 2);
      DroppedBitsFit(a / 2);
      DivHalf(a, Pow2(k));
      if k == 0 {
        assert a / 2 >= 0x80_0000;
      }
    }
  }

  /** Rounding a = q * p + r to a multiple of p, with q of 24 bits, moves it
      by at most a 2^24-th of a. */
  lemma RoundStepNear(a: nat, p: nat, q: nat, r: nat, res: nat)
    requires p > 0 && 0 <= r < p && a == q * p + r && q >= 0x80_0000
    requires (res == q * p && 2 * r <= p) || (res == (q + 1) * p && 2 * r >= p)
    ensures Abs(res - a) * 0x100_0000 <= a
  {
    var e := Abs(res - a);
    assert 2 * e <= p;
    assert e * 0x100_0000 <= 0x80_0000 * p;
    assert 0x80_0000 * p <= q * p;
  }

  /** Rounding moves a magnitude by at most half a unit of the last kept
      bit, so by at most a 2^24-th of itself. */
  lemma RoundNear(a: nat)
    ensures Abs(RoundSignificand(a) - a) * 0x100_0000 <= a
  {
    var k := DroppedBits(a);
    var p := Pow2(k);
    var q, r := a / p, a % p;
    if k > 0 {
      DroppedBitsFit(a);
      RoundStepNear(a, p, q, r, RoundSignificand(a));
    }
  }

  /** An int of magnitude at most 2^24 converts to float exactly. */
  lemma FloatExact(x: int)
    requires -0x100_0000 <= x <= 0x100_0000
    ensures Float(x) == x
  {
    var a := Abs(x);
    if a == 0x100_0000 {
      assert DroppedBits(a) == 1;
    }
  }

  /** The conversion is off by at most a 2^24-th of the magnitude, and is
      exact up to 2^24. */
  lemma FloatNear(x: int)
    ensures Abs(Float(x) - x) * 0x100_0000 <= Abs(x)
    ensures -0x100_0000 <= x <= 0x100_0000 ==> Float(x) == x
  {
    RoundNear(Abs(x));
    if -0x100_0000 <= x <= 0x100_0000 {
      FloatExact(x);
    }
  }

  /** PIPE_transfer_part_to_pipe: the pipe takes the particle's type,
      temperature and life exactly, and its tmp and ctype as floats: exact up
      to 2^24 in magnitude, rounded to within a 2^24-th beyond. */
  function PartToPipe(part: Particle, pipe: Carrier): (r: Carrier)
    ensures r.p.ctype == part.ptype && r.p.temp == part.temp && r.p.tmp2 == part.life
    ensures r.pavg0 == Float(part.tmp) && r.pavg1 == Float(part.ctype)
    ensures Abs(r.pavg0 - part.tmp) * 0x100_0000 <= Abs(part.tmp)
    ensures Abs(r.pavg1 - part.ctype) * 0x100_0000 <= Abs(part.ctype)
    ensures -0x100_0000 <= part.tmp <= 0x100_0000 ==> r.pavg0 == part.tmp
    ensures -0x100_0000 <= part.ctype <= 0x100_0000 ==> r.pavg1 == part.ctype
  {
    FloatNear(part.tmp);
    FloatNear(part.ctype);
    Carrier(pipe.p.(ctype := part.ptype, temp := part.temp, tmp2 := part.life), Float(part.tmp), Float(part.ctype))
  }

  /** PIPE_transfer_pipe_to_part: the particle is rebuilt from the pipe's
      contents (from tmp for STOR), tmp and ctype read back from the floats,
      and the pipe or STOR is emptied. A particle of a type without
      TYPE_ENERGY stops; a photon whose ctype reads back as 2^30, the float
      that the full wavelength mask 0x3FFFFFFF rounds to, gets that mask. */
  function PipeToPart(pipe: Carrier, part: Particle, stor: bool, energy: set<int>, ids: ElementIds): (r: (Carrier, Particle))
  {
    var t := if stor then Typ(pipe.p.tmp) else Typ(pipe.p.ctype);
    var pipe' := if stor then pipe.(p := pipe.p.(tmp := 0)) else pipe.(p := pipe.p.(ctype := 0));
    var q := part.(ptype := t, temp := pipe.p.temp, life := pipe.p.tmp2, tmp := pipe.pavg0, ctype := pipe.pavg1);
    var q' :=
      if t !in energy then q.(vx := 0, vy := 0)
      else if t == ids.PHOT && q.ctype == 0x4000_0000 then q.(ctype := 0x3FFF_FFFF)
      else q;
    (pipe', q'.(tmp2 := 0, flags := 0, dcolour := 0))
  }

  /** PIPE_transfer_pipe_to_pipe: the destination takes the source's contents
      (from tmp for STOR) and the source is emptied. */
  function PipeToPipe(src: Carrier, dest: Carrier, stor: bool): (r: (Carrier, Carrier))
  {
    var dest' := dest.(p := dest.p.(ctype := if stor then src.p.tmp else src.p.ctype, temp := src.p.temp, tmp2 := src.p.tmp2),
                       pavg0 := src.pavg0, pavg1 := src.pavg1);
    var src' := if stor then src.(p := src.p.(tmp := 0)) else src.(p := src.p.(ctype := 0));
    (src', dest')
  }

  /** Taking a particle out of a pipe empties the pipe (or STOR), clears the
      particle's tmp2, flags and decoration, stops it unless it is energy,
      and gives it the carried type, temperature, life and tmp. */
  lemma PipeToPartEmpties(pipe: Carrier, part: Particle, stor: bool, energy: set<int>, ids: ElementIds)
    ensures var (pipe', q) := PipeToPart(pipe, part, stor, energy, ids);
      (if stor then pipe'.p.tmp == 0 && pipe'.p.ctype == pipe.p.ctype else pipe'.p.ctype == 0 && pipe'.p.tmp == pipe.p.tmp) &&
      q.tmp2 == 0 && q.flags == 0 && q.dcolour == 0 &&
      (q.ptype !in energy ==> q.vx == 0 && q.vy == 0) &&
      (q.ptype in energy ==> q.vx == part.vx && q.vy == part.vy) &&
      q.ptype == (if stor then Typ(pipe.p.tmp) else Typ(pipe.p.ctype)) &&
      q.temp == pipe.p.temp && q.life == pipe.p.tmp2 && q.tmp == pipe.pavg0
  {
  }

  /** A particle put into a pipe comes back out with its own type (an
      element id), temperature and life, and with tmp and ctype as the float
      kept them, a photon's 2^30 repaired to the full mask; the pipe is left
      empty. */
  lemma PipeRoundTrip(part: Particle, pipe: Carrier, out: Particle, energy: set<int>, ids: ElementIds)
    requires 0 <= part.ptype < 0x200
    ensures var (pipe', q) := PipeToPart(PartToPipe(part, pipe), out, false, energy, ids);
      pipe'.p.ctype == 0 &&
      q.ptype == part.ptype && q.temp == part.temp && q.life == part.life && q.tmp == Float(part.tmp) &&
      q.ctype == (if part.ptype in energy && part.ptype == ids.PHOT && Float(part.ctype) == 0x4000_0000 then 0x3FFF_FFFF else Float(part.ctype))
  {
  }

  /** With tmp and ctype of magnitude at most 2^24, the round trip is exact. */
  lemma PipeRoundTripExact(part: Particle, pipe: Carrier, out: Particle, energy: set<int>, ids: ElementIds)
    requires 0 <= part.ptype < 0x200
    requires -0x100_0000 <= part.tmp <= 0x100_0000 && -0x100_0000 <= part.ctype <= 0x100_0000
    ensures var q := PipeToPart(PartToPipe(part, pipe), out, false, energy, ids).1;
      q.ptype == part.ptype && q.temp == part.temp && q.life == part.life && q.tmp == part.tmp && q.ctype == part.ctype
  {
    PipeRoundTrip(part, pipe, out, energy, ids);
    FloatExact(part.tmp);
    FloatExact(part.ctype);
  }

  /** Past 2^24 the float loses low bits: tmp 0x1000001 comes back as
      0x1000000, and a photon with ctype 0x3FFFFFF0 comes back with the full
      mask 0x3FFFFFFF, which itself survives through the repair. */
  lemma PipeRounds(part: Particle, pipe: Carrier, out: Particle, energy: set<int>, ids: ElementIds)
    requires part.ptype == ids.PHOT && 0 <= ids.PHOT < 0x200 && ids.PHOT in energy
    requires part.tmp == 0x100_0001 && (part.ctype == 0x3FFF_FFF0 || part.ctype == 0x3FFF_FFFF)
    ensures var q := PipeToPart(PartToPipe(part, pipe), out, false, energy, ids).1;
      q.tmp == 0x100_0000 && q.ctype == 0x3FFF_FFFF
  {
    PipeRoundTrip(part, pipe, out, energy, ids);
    assert DroppedBits(0x100_0001) == 1;
    assert DroppedBits(0x3FFF_FFF0) == 6 && DroppedBits(0x3FFF_FFFF) == 6;
    assert Pow2(6) == 64;
  }

  /** Passing the contents along a pipe keeps them: taking the particle out
      of the next pipe gives what taking it out of the first would have,
      and the first pipe is left empty. */
  lemma PipeToPipeKeepsContents(src: Carrier, dest: Carrier, part: Particle, energy: set<int>, ids: ElementIds)
    ensures var (src', dest') := PipeToPipe(src, dest, false);
      src'.p.ctype == 0 &&
      PipeToPart(dest', part, false, energy, ids).1 == PipeToPart(src, part, false, energy, ids).1
  {
  }

  /** The flag PPIP_flood_trigger sets for a spark from PSCN, NSCN or INST:
      the matching trigger flag shifted left by 3, or none. */
  function TriggerFlag(sparkedBy: int, ids: ElementIds): bv32
  {
    if sparkedBy == ids.PSCN then PPIP_TMPFLAG_TRIGGER_ON << 3
    else if sparkedBy == ids.NSCN then PPIP_TMPFLAG_TRIGGER_OFF << 3
    else if sparkedBy == ids.INST then PPIP_TMPFLAG_TRIGGER_REVERSE << 3
    else 0
  }

  /** Whether PPIP_flood_trigger spreads at all from a cell holding an
      element of type typ whose particle has the given tmp: there must be a
      flag for the spark, the cell must hold PPIP, and the flag must not be
      set yet. */
  function FloodStarts(sparkedBy: int, typ: int, tmp: bv32, ids: ElementIds): (r: bool)
    ensures r ==> TriggerFlag(sparkedBy, ids) != 0 && typ == ids.PPIP && tmp & TriggerFlag(sparkedBy, ids) == 0
  {
    var prop := TriggerFlag(sparkedBy, ids);
    !(prop == 0 || typ != ids.PPIP || tmp & prop != 0)
  }

  /** The three sparks set three distinct single bits, none of them a flag
      PIPE_update reads, so each spark source is told apart. */
  lemma TriggerFlagsDistinct(ids: ElementIds)
    requires ids.PSCN != ids.NSCN && ids.PSCN != ids.INST && ids.NSCN != ids.INST
    ensures TriggerFlag(ids.PSCN, ids) == 0x8000_0000
    ensures TriggerFlag(ids.NSCN, ids) == 0x4000_0000
    ensures TriggerFlag(ids.INST, ids) == 0x2000_0000
  {
  }

}

// The PPIP flag word of PIPE_update (src/simulation/elements/PIPE.cpp), read
// as the 32-bit two's complement pattern of the particle's tmp.
module PipeFlags {
  const PFLAG_COLORS: bv32 := 0x000C_0000
  const PFLAG_COLOR_RED: bv32 := 0x0004_0000
  const PFLAG_COLOR_GREEN: bv32 := 0x0008_0000
  const PFLAG_COLOR_BLUE: bv32 := 0x000C_0000
  const PPIP_TMPFLAG_REVERSED: bv32 := 0x0100_0000
  const PPIP_TMPFLAG_PAUSED: bv32 := 0x0200_0000
  const PPIP_TMPFLAG_TRIGGER_REVERSE: bv32 := 0x0400_0000
  const PPIP_TMPFLAG_TRIGGER_OFF: bv32 := 0x0800_0000
  const PPIP_TMPFLAG_TRIGGER_ON: bv32 := 0x1000_0000
  const PPIP_TMPFLAG_TRIGGERS: bv32 := 0x1C00_0000

  /** The one-pixel pipe directions: the 4-bit fields at bits 9 and 13 are
      exchanged and every other bit is kept. */
  function SwapDirections(tmp: bv32): bv32
  {
    var coords := (tmp >> 13) & 0xF;
    var coords2 := (tmp >> 9) & 0xF;
    ((tmp & !0x1FE00) | (coords << 9)) | (coords2 << 13)
  }

  /** The field at bit 9 receives the one from bit 13 ... */
  lemma SwapDirectionsLow(tmp: bv32)
    ensures (SwapDirections(tmp) >> 9) & 0xF == (tmp >> 13) & 0xF
  {
  }

  /** ... the field at bit 13 the one from bit 9 ... */
  lemma SwapDirectionsHigh(tmp: bv32)
    ensures (SwapDirections(tmp) >> 13) & 0xF == (tmp >> 9) & 0xF
  {
  }

  /** ... and every bit outside the two fields stays. */
  lemma SwapDirectionsRest(tmp: bv32)
    ensures SwapDirections(tmp) & !0x1FE00 == tmp & !0x1FE00
  {
  }

  /** The swap undoes itself. */
  lemma SwapDirectionsInvolution(tmp: bv32)
    ensures SwapDirections(SwapDirections(tmp)) == tmp
  {
  }

  lemma SwapDirectionsKeepsLow(tmp: bv32)
    ensures SwapDirections(tmp) & 0x1FF == tmp & 0x1FF
  {
  }

  lemma SwapDirectionsKeepsHigh(tmp: bv32)
    ensures SwapDirections(tmp) & 0xFFFE_0000 == tmp & 0xFFFE_0000
  {
  }

  /** Toggling bits outside the two fields commutes with the swap. */
  lemma SwapDirectionsXor(tmp: bv32, m: bv32)
    requires m & 0x1FE00 == 0
    ensures SwapDirections(tmp) ^ m == SwapDirections(tmp ^ m)
  {
  }

  /** The colour switch of the reverse trigger: any colour but green has the
      green bit toggled. */
  function SwitchColor(tmp: bv32): bv32
  {
    if tmp & PFLAG_COLORS != PFLAG_COLOR_GREEN then tmp ^ PFLAG_COLOR_GREEN else tmp
  }

  /** The direction switch of the reverse trigger, for one-pixel pipes. */
  function SwitchDirections(tmp: bv32): bv32
  {
    if tmp & 0x100 != 0 then SwapDirections(tmp) else tmp
  }

  /** The reverse trigger: REVERSED is toggled, the colour is switched unless
      it is green, and a one-pixel pipe swaps its two directions. */
  function Reverse(tmp: bv32): bv32
  {
    SwitchDirections(SwitchColor(tmp ^ PPIP_TMPFLAG_REVERSED))
  }

  /** The colour a reversal gives: red and blue are exchanged, green stays
      and a pipe without a colour yet becomes green. */
  function ReversedColour(c: bv32): bv32
  {
    if c == PFLAG_COLOR_RED then PFLAG_COLOR_BLUE
    else if c == PFLAG_COLOR_BLUE then PFLAG_COLOR_RED
    else PFLAG_COLOR_GREEN
  }

  lemma SwitchColorGreen(tmp: bv32)
    requires tmp & PFLAG_COLORS == PFLAG_COLOR_GREEN
    ensures SwitchColor(tmp) == tmp
  {
  }

  lemma SwitchColorOther(tmp: bv32)
    requires tmp & PFLAG_COLORS != PFLAG_COLOR_GREEN
    ensures SwitchColor(tmp) == tmp ^ PFLAG_COLOR_GREEN
  {
  }

  /** The colour switch exchanges red and blue, keeps green and makes no
      colour green. */
  lemma SwitchColorSwaps(tmp: bv32)
    ensures SwitchColor(tmp) & PFLAG_COLORS == ReversedColour(tmp & PFLAG_COLORS)
  {
  }

  /** The colour switch keeps the element byte, the one-pixel flag,
      REVERSED, PAUSED and the trigger flags. */
  lemma SwitchColorKeeps(tmp: bv32)
    ensures SwitchColor(tmp) & 0x1F00_01FF == tmp & 0x1F00_01FF
  {
    if tmp & PFLAG_COLORS == PFLAG_COLOR_GREEN {
      SwitchColorGreen(tmp);
    } else {
      SwitchColorOther(tmp);
    }
  }

  /** Switching the colour twice restores any colour; it is only from no
      colour that the switch does not come back. */
  lemma SwitchColorTwice(tmp: bv32)
    requires tmp & PFLAG_COLORS != 0
    ensures SwitchColor(SwitchColor(tmp)) == tmp
  {
  }

  lemma SwitchDirectionsOff(tmp: bv32)
    requires tmp & 0x100 == 0
    ensures SwitchDirections(tmp) == tmp
  {
  }

  lemma SwitchDirectionsOn(tmp: bv32)
    requires tmp & 0x100 != 0
    ensures SwitchDirections(tmp) == SwapDirections(tmp)
  {
  }

  lemma SwitchDirectionsKeepsHigh(tmp: bv32)
    ensures SwitchDirections(tmp) & 0xFFFE_0000 == tmp & 0xFFFE_0000
  {
    SwapDirectionsKeepsHigh(tmp);
  }

  lemma SwitchDirectionsKeepsLow(tmp: bv32)
    ensures SwitchDirections(tmp) & 0x1FF == tmp & 0x1FF
  {
    if tmp & 0x100 != 0 {
      SwapDirectionsKeepsLow(tmp);
    }
  }

  /** Switching the directions twice restores them. */
  lemma SwitchDirectionsTwice(tmp: bv32)
    ensures SwitchDirections(SwitchDirections(tmp)) == tmp
  {
    if tmp & 0x100 != 0 {
      SwapDirectionsKeepsLow(tmp);
      SwapDirectionsInvolution(tmp);
    }
  }

  lemma XorKeepsColour(tmp: bv32)
    ensures (tmp ^ PPIP_TMPFLAG_REVERSED) & PFLAG_COLORS == tmp & PFLAG_COLORS
  {
  }

  lemma XorKeepsOnePixel(tmp: bv32, m: bv32)
    requires m & 0x1FF == 0
    ensures (tmp ^ m) & 0x100 == tmp & 0x100
  {
  }

  /** Reversing exchanges red and blue and keeps green; a pipe without a
      colour yet becomes green. */
  lemma ReverseColors(tmp: bv32)
    ensures Reverse(tmp) & PFLAG_COLORS == ReversedColour(tmp & PFLAG_COLORS)
  {
    XorKeepsColour(tmp);
    SwitchColorSwaps(tmp ^ PPIP_TMPFLAG_REVERSED);
    SwitchDirectionsKeepsHigh(SwitchColor(tmp ^ PPIP_TMPFLAG_REVERSED));
  }

  /** Reversing always flips REVERSED. */
  lemma ReverseFlipsReversed(tmp: bv32)
    ensures Reverse(tmp) & PPIP_TMPFLAG_REVERSED == (tmp & PPIP_TMPFLAG_REVERSED) ^ PPIP_TMPFLAG_REVERSED
  {
    SwitchColorKeeps(tmp ^ PPIP_TMPFLAG_REVERSED);
    SwitchDirectionsKeepsHigh(SwitchColor(tmp ^ PPIP_TMPFLAG_REVERSED));
  }

  /** A reversal keeps the element byte, the one-pixel flag, PAUSED and the
      trigger flags. */
  lemma ReverseKeeps(tmp: bv32)
    ensures Reverse(tmp) & 0x1E00_01FF == tmp & 0x1E00_01FF
  {
    SwitchColorKeeps(tmp ^ PPIP_TMPFLAG_REVERSED);
    SwitchDirectionsKeepsHigh(SwitchColor(tmp ^ PPIP_TMPFLAG_REVERSED));
    SwitchDirectionsKeepsLow(SwitchColor(tmp ^ PPIP_TMPFLAG_REVERSED));
  }

  // Reverse in closed form, one lemma per colour case and pipe shape.

  lemma ReverseGreenSwapped(tmp: bv32)
    requires tmp & PFLAG_COLORS == PFLAG_COLOR_GREEN && tmp & 0x100 != 0
    ensures Reverse(tmp) == SwapDirections(tmp ^ PPIP_TMPFLAG_REVERSED)
  {
    XorKeepsColour(tmp);
    SwitchColorGreen(tmp ^ PPIP_TMPFLAG_REVERSED);
    XorKeepsOnePixel(tmp, PPIP_TMPFLAG_REVERSED);
    SwitchDirectionsOn(tmp ^ PPIP_TMPFLAG_REVERSED);
  }

  lemma ReverseOtherSwapped(tmp: bv32)
    requires tmp & PFLAG_COLORS != PFLAG_COLOR_GREEN && tmp & 0x100 != 0
    ensures Reverse(tmp) == SwapDirections(tmp ^ PPIP_TMPFLAG_REVERSED ^ PFLAG_COLOR_GREEN)
  {
    var a := tmp ^ PPIP_TMPFLAG_REVERSED;
    XorKeepsColour(tmp);
    SwitchColorOther(a);
    XorKeepsOnePixel(tmp, PPIP_TMPFLAG_REVERSED);
    XorKeepsOnePixel(a, PFLAG_COLOR_GREEN);
    SwitchDirectionsOn(a ^ PFLAG_COLOR_GREEN);
  }

  lemma ReverseGreenPlain(tmp: bv32)
    requires tmp & PFLAG_COLORS == PFLAG_COLOR_GREEN && tmp & 0x100 == 0
    ensures Reverse(tmp) == tmp ^ PPIP_TMPFLAG_REVERSED
  {
    XorKeepsColour(tmp);
    SwitchColorGreen(tmp ^ PPIP_TMPFLAG_REVERSED);
    XorKeepsOnePixel(tmp, PPIP_TMPFLAG_REVERSED);
    SwitchDirectionsOff(tmp ^ PPIP_TMPFLAG_REVERSED);
  }

  lemma ReverseOtherPlain(tmp: bv32)
    requires tmp & PFLAG_COLORS != PFLAG_COLOR_GREEN && tmp & 0x100 == 0
    ensures Reverse(tmp) == tmp ^ PPIP_TMPFLAG_REVERSED ^ PFLAG_COLOR_GREEN
  {
    var a := tmp ^ PPIP_TMPFLAG_REVERSED;
    XorKeepsColour(tmp);
    SwitchColorOther(a);
    XorKeepsOnePixel(tmp, PPIP_TMPFLAG_REVERSED);
    XorKeepsOnePixel(a, PFLAG_COLOR_GREEN);
    SwitchDirectionsOff(a ^ PFLAG_COLOR_GREEN);
  }

  lemma GreenAfterToggle(tmp: bv32)
    requires tmp & PFLAG_COLORS == PFLAG_COLOR_GREEN
    ensures (tmp ^ PPIP_TMPFLAG_REVERSED) & PFLAG_COLORS == PFLAG_COLOR_GREEN
  {
  }

  lemma OtherAfterToggle(tmp: bv32)
    requires tmp & PFLAG_COLORS != PFLAG_COLOR_GREEN && tmp & PFLAG_COLORS != 0
    ensures (tmp ^ PPIP_TMPFLAG_REVERSED ^ PFLAG_COLOR_GREEN) & PFLAG_COLORS != PFLAG_COLOR_GREEN
  {
  }

  lemma ToggleBack(tmp: bv32)
    ensures tmp ^ PPIP_TMPFLAG_REVERSED ^ PFLAG_COLOR_GREEN ^ PPIP_TMPFLAG_REVERSED ^ PFLAG_COLOR_GREEN == tmp
  {
  }

  lemma TwiceSwappedGreen(tmp: bv32)
    requires tmp & 0x100 != 0 && tmp & PFLAG_COLORS == PFLAG_COLOR_GREEN
    ensures Reverse(Reverse(tmp)) == tmp
  {
    var a := tmp ^ PPIP_TMPFLAG_REVERSED;
    ReverseGreenSwapped(tmp);
    SwapDirectionsKeepsHigh(a);
    SwapDirectionsKeepsLow(a);
    XorKeepsOnePixel(tmp, PPIP_TMPFLAG_REVERSED);
    GreenAfterToggle(tmp);
    ReverseGreenSwapped(SwapDirections(a));
    SwapDirectionsXor(a, PPIP_TMPFLAG_REVERSED);
    SwapDirectionsInvolution(tmp);
  }

  lemma SwappedOtherStays(tmp: bv32)
    requires tmp & 0x100 != 0 && tmp & PFLAG_COLORS != PFLAG_COLOR_GREEN && tmp & PFLAG_COLORS != 0
    ensures SwapDirections(tmp ^ PPIP_TMPFLAG_REVERSED ^ PFLAG_COLOR_GREEN) & 0x100 != 0
    ensures SwapDirections(tmp ^ PPIP_TMPFLAG_REVERSED ^ PFLAG_COLOR_GREEN) & PFLAG_COLORS != PFLAG_COLOR_GREEN
  {
    var a := tmp ^ PPIP_TMPFLAG_REVERSED ^ PFLAG_COLOR_GREEN;
    SwapDirectionsKeepsHigh(a);
    SwapDirectionsKeepsLow(a);
    XorKeepsOnePixel(tmp, PPIP_TMPFLAG_REVERSED);
    XorKeepsOnePixel(tmp ^ PPIP_TMPFLAG_REVERSED, PFLAG_COLOR_GREEN);
    OtherAfterToggle(tmp);
  }

  lemma SwapBackOther(tmp: bv32)
    ensures SwapDirections(SwapDirections(tmp ^ PPIP_TMPFLAG_REVERSED ^ PFLAG_COLOR_GREEN) ^ PPIP_TMPFLAG_REVERSED ^ PFLAG_COLOR_GREEN) == tmp
  {
    var a := tmp ^ PPIP_TMPFLAG_REVERSED ^ PFLAG_COLOR_GREEN;
    SwapDirectionsXor(a, PPIP_TMPFLAG_REVERSED);
    SwapDirectionsXor(a ^ PPIP_TMPFLAG_REVERSED, PFLAG_COLOR_GREEN);
    ToggleBack(tmp);
    SwapDirectionsInvolution(tmp);
  }

  lemma TwiceSwappedOther(tmp: bv32)
    requires tmp & 0x100 != 0 && tmp & PFLAG_COLORS != PFLAG_COLOR_GREEN && tmp & PFLAG_COLORS != 0
    ensures Reverse(Reverse(tmp)) == tmp
  {
    ReverseOtherSwapped(tmp);
    SwappedOtherStays(tmp);
    ReverseOtherSwapped(SwapDirections(tmp ^ PPIP_TMPFLAG_REVERSED ^ PFLAG_COLOR_GREEN));
    SwapBackOther(tmp);
  }

  lemma TwicePlainGreen(tmp: bv32)
    requires tmp & 0x100 == 0 && tmp & PFLAG_COLORS == PFLAG_COLOR_GREEN
    ensures Reverse(Reverse(tmp)) == tmp
  {
    XorKeepsOnePixel(tmp, PPIP_TMPFLAG_REVERSED);
    GreenAfterToggle(tmp);
    ReverseGreenPlain(tmp);
    ReverseGreenPlain(tmp ^ PPIP_TMPFLAG_REVERSED);
  }

  lemma TwicePlainOther(tmp: bv32)
    requires tmp & 0x100 == 0 && tmp & PFLAG_COLORS != PFLAG_COLOR_GREEN && tmp & PFLAG_COLORS != 0
    ensures Reverse(Reverse(tmp)) == tmp
  {
    XorKeepsOnePixel(tmp, 0x0108_0000);
    OtherAfterToggle(tmp);
    ReverseOtherPlain(tmp);
    ReverseOtherPlain(tmp ^ PPIP_TMPFLAG_REVERSED ^ PFLAG_COLOR_GREEN);
  }

  /** Reversing twice restores a coloured pipe: flags, colour and, for a
      one-pixel pipe, both directions. */
  lemma {:induction false} ReverseTwice(tmp: bv32)
    requires tmp & PFLAG_COLORS != 0
    ensures Reverse(Reverse(tmp)) == tmp
  {
    if tmp & 0x100 != 0 {
      if tmp & PFLAG_COLORS == PFLAG_COLOR_GREEN { TwiceSwappedGreen(tmp); } else { TwiceSwappedOther(tmp); }
    } else {
      if tmp & PFLAG_COLORS == PFLAG_COLOR_GREEN { TwicePlainGreen(tmp); } else { TwicePlainOther(tmp); }
    }
  }
}

/** The trigger flags BUTN writes into PIPE and PIPE_update consumes. */
module PipeTriggers {
  import opened PipeFlags

  /** What PIPE_update's trigger block leaves in tmp, and whether the pause
      state changed (which makes the surrounding BRCK glow or stop). */
  datatype Triggered = Triggered(tmp: bv32, pauseChanged: bool)

  /** TRIGGER_ON unpauses, otherwise TRIGGER_OFF pauses; pauseChanged says
      whether PAUSED was different before. */
  function PauseStep(tmp: bv32): Triggered
  {
    var paused := tmp & PPIP_TMPFLAG_PAUSED != 0;
    if tmp & PPIP_TMPFLAG_TRIGGER_ON != 0 then Triggered(tmp & !PPIP_TMPFLAG_PAUSED, paused)
    else if tmp & PPIP_TMPFLAG_TRIGGER_OFF != 0 then Triggered(tmp | PPIP_TMPFLAG_PAUSED, !paused)
    else Triggered(tmp, false)
  }

  /** A set TRIGGER_REVERSE reverses the pipe. */
  function ReverseStep(tmp: bv32): bv32
  {
    if tmp & PPIP_TMPFLAG_TRIGGER_REVERSE != 0 then Reverse(tmp) else tmp
  }

  /** PIPE_update's trigger block: the pause step, the reverse step, then
      every trigger flag is cleared. */
  function ProcessTriggers(tmp: bv32): Triggered
  {
    if tmp & PPIP_TMPFLAG_TRIGGERS == 0 then Triggered(tmp, false)
    else
      var p := PauseStep(tmp);
      Triggered(ReverseStep(p.tmp) & !PPIP_TMPFLAG_TRIGGERS, p.pauseChanged)
  }

  lemma PauseStepOn(tmp: bv32)
    requires tmp & PPIP_TMPFLAG_TRIGGER_ON != 0
    ensures PauseStep(tmp).tmp == tmp & !PPIP_TMPFLAG_PAUSED
  {
  }

  lemma PauseStepOff(tmp: bv32)
    requires tmp & PPIP_TMPFLAG_TRIGGER_ON == 0 && tmp & PPIP_TMPFLAG_TRIGGER_OFF != 0
    ensures PauseStep(tmp).tmp == tmp | PPIP_TMPFLAG_PAUSED
  {
  }

  lemma PauseStepNone(tmp: bv32)
    requires tmp & PPIP_TMPFLAG_TRIGGER_ON == 0 && tmp & PPIP_TMPFLAG_TRIGGER_OFF == 0
    ensures PauseStep(tmp).tmp == tmp
  {
  }

  lemma ClearPausedKeeps(t: bv32, tmp: bv32)
    requires t == tmp & !PPIP_TMPFLAG_PAUSED
    ensures t & !PPIP_TMPFLAG_PAUSED == tmp & !PPIP_TMPFLAG_PAUSED
  {
  }

  lemma SetPausedKeeps(t: bv32, tmp: bv32)
    requires t == tmp | PPIP_TMPFLAG_PAUSED
    ensures t & !PPIP_TMPFLAG_PAUSED == tmp & !PPIP_TMPFLAG_PAUSED
  {
  }

  lemma PauseStepOnKeeps(tmp: bv32)
    requires tmp & PPIP_TMPFLAG_TRIGGER_ON != 0
    ensures PauseStep(tmp).tmp & !PPIP_TMPFLAG_PAUSED == tmp & !PPIP_TMPFLAG_PAUSED
  {
    PauseStepOn(tmp);
    ClearPausedKeeps(PauseStep(tmp).tmp, tmp);
  }

  lemma PauseStepOffKeeps(tmp: bv32)
    requires tmp & PPIP_TMPFLAG_TRIGGER_ON == 0 && tmp & PPIP_TMPFLAG_TRIGGER_OFF != 0
    ensures PauseStep(tmp).tmp & !PPIP_TMPFLAG_PAUSED == tmp & !PPIP_TMPFLAG_PAUSED
  {
    PauseStepOff(tmp);
    SetPausedKeeps(PauseStep(tmp).tmp, tmp);
  }

  /** The pause step changes nothing but PAUSED. */
  lemma PauseStepKeeps(tmp: bv32)
    ensures PauseStep(tmp).tmp & !PPIP_TMPFLAG_PAUSED == tmp & !PPIP_TMPFLAG_PAUSED
  {
    if tmp & PPIP_TMPFLAG_TRIGGER_ON != 0 {
      PauseStepOnKeeps(tmp);
    } else if tmp & PPIP_TMPFLAG_TRIGGER_OFF != 0 {
      PauseStepOffKeeps(tmp);
    } else {
      PauseStepNone(tmp);
    }
  }

  /** The reverse step keeps the element byte, the one-pixel flag, PAUSED
      and the trigger flags. */
  lemma ReverseStepKeeps(tmp: bv32)
    ensures ReverseStep(tmp) & 0x1E00_01FF == tmp & 0x1E00_01FF
  {
    if tmp & PPIP_TMPFLAG_TRIGGER_REVERSE != 0 {
      ReverseKeeps(tmp);
    }
  }

  lemma ProcessTriggersSome(tmp: bv32)
    requires tmp & PPIP_TMPFLAG_TRIGGERS != 0
    ensures ProcessTriggers(tmp).tmp == ReverseStep(PauseStep(tmp).tmp) & !PPIP_TMPFLAG_TRIGGERS
  {
  }

  lemma ElementAfterSteps(r: bv32, p: bv32, tmp: bv32)
    requires p & !PPIP_TMPFLAG_PAUSED == tmp & !PPIP_TMPFLAG_PAUSED
    requires r & 0x1E00_01FF == p & 0x1E00_01FF
    ensures (r & !PPIP_TMPFLAG_TRIGGERS) & 0x1FF == tmp & 0x1FF
  {
  }

  /** After the trigger block no trigger flag is left. */
  lemma TriggersCleared(tmp: bv32)
    ensures ProcessTriggers(tmp).tmp & PPIP_TMPFLAG_TRIGGERS == 0
  {
  }

  lemma TriggeredKeepsElement(tmp: bv32)
    requires tmp & PPIP_TMPFLAG_TRIGGERS != 0
    ensures ProcessTriggers(tmp).tmp & 0x1FF == tmp & 0x1FF
  {
    var p := PauseStep(tmp).tmp;
    PauseStepKeeps(tmp);
    ReverseStepKeeps(p);
    ElementAfterSteps(ReverseStep(p), p, tmp);
    ProcessTriggersSome(tmp);
  }

  /** The trigger block never touches the element byte or the one-pixel
      flag. */
  lemma TriggersKeepElement(tmp: bv32)
    ensures ProcessTriggers(tmp).tmp & 0x1FF == tmp & 0x1FF
  {
    if tmp & PPIP_TMPFLAG_TRIGGERS != 0 {
      TriggeredKeepsElement(tmp);
    } else {
      NoTriggerNoChange(tmp);
    }
  }

  /** TRIGGER_ON unpauses, and wins over TRIGGER_OFF. */
  lemma TriggerOnUnpauses(tmp: bv32)
    requires tmp & PPIP_TMPFLAG_TRIGGER_ON != 0
    ensures ProcessTriggers(tmp).tmp & PPIP_TMPFLAG_PAUSED == 0
  {
    ReverseStepKeeps(tmp & !PPIP_TMPFLAG_PAUSED);
  }

  /** TRIGGER_OFF alone pauses. */
  lemma TriggerOffPauses(tmp: bv32)
    requires tmp & PPIP_TMPFLAG_TRIGGER_ON == 0 && tmp & PPIP_TMPFLAG_TRIGGER_OFF != 0
    ensures ProcessTriggers(tmp).tmp & PPIP_TMPFLAG_PAUSED != 0
  {
    ReverseStepKeeps(tmp | PPIP_TMPFLAG_PAUSED);
  }

  /** The pause state is reported changed exactly when PAUSED changed. */
  lemma PauseChangedReported(tmp: bv32)
    ensures ProcessTriggers(tmp).pauseChanged <==> ProcessTriggers(tmp).tmp & PPIP_TMPFLAG_PAUSED != tmp & PPIP_TMPFLAG_PAUSED
  {
    ReverseStepKeeps(PauseStep(tmp).tmp);
  }

  /** Without a trigger flag nothing happens. */
  lemma NoTriggerNoChange(tmp: bv32)
    requires tmp & PPIP_TMPFLAG_TRIGGERS == 0
    ensures ProcessTriggers(tmp) == Triggered(tmp, false)
  {
  }
}

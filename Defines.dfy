// The build-time constants of includes/defines.h and simulation/SimulationData.h
// that the modelled code depends on.
module Defines {
  /** The simulation area in pixels. */
  const XRES: nat := 612
  const YRES: nat := 384
  /** The width of the side bar in the desktop game (neither the renderer
      nor the touch build), and the window width it adds up to. */
  const BARSIZE: nat := 17
  const VIDXRES: nat := XRES + BARSIZE
  /** The side of a wall/air cell in pixels. */
  const CELL: nat := 4
  /** The particle table holds one particle per pixel. */
  const NPART: nat := XRES * YRES
  /** Element ids are stored in the low PMAPBITS bits of a pmap entry. */
  const PMAPBITS: nat := 9
  const PT_NUM: nat := 512
  /** PT_NONE: the empty element. */
  const PT_NONE: int := 0
  /** The save browser grid and the tag list. */
  const GRID_X: nat := 5
  const GRID_Y: nat := 4
  const TAG_MAX: nat := 256
}

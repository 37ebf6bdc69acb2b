// Wall ids. simulation/WallNumbers.h is not part of this model; the ids are those
// of the game's wall table (WL_*) and of the pre-table save format (O_WL_*).
module Walls {
  const WL_ERASE: int := 0
  const WL_WALLELEC: int := 1
  const WL_EWALL: int := 2
  const WL_DETECT: int := 3
  const WL_STREAM: int := 4
  const WL_FAN: int := 5
  const WL_ALLOWLIQUID: int := 6
  const WL_DESTROYALL: int := 7
  const WL_WALL: int := 8
  const WL_ALLOWAIR: int := 9
  const WL_ALLOWPOWDER: int := 10
  const WL_ALLOWALLELEC: int := 11
  const WL_EHOLE: int := 12
  const WL_ALLOWGAS: int := 13
  const WL_GRAV: int := 14
  const WL_ALLOWENERGY: int := 15
  const WL_BLOCKAIR: int := 16
  const WL_ERASEALL: int := 17
  const WL_STASIS: int := 18
  /** The number of wall types. */
  const UI_WALLCOUNT: int := 19

  const O_WL_WALLELEC: int := 122
  const O_WL_EWALL: int := 123
  const O_WL_DETECT: int := 124
  const O_WL_STREAM: int := 125
  const O_WL_SIGN: int := 126
  const O_WL_FAN: int := 127
  const O_WL_ALLOWLIQUID: int := 128
  const O_WL_DESTROYALL: int := 129
  const O_WL_ERASE: int := 130
  const O_WL_WALL: int := 131
  const O_WL_ALLOWAIR: int := 132
  const O_WL_ALLOWSOLID: int := 133
  const O_WL_ALLOWALLELEC: int := 134
  const O_WL_EHOLE: int := 135
  const O_WL_ALLOWGAS: int := 140
  const O_WL_GRAV: int := 142
  const O_WL_ALLOWENERGY: int := 145
  const O_WL_FANHELPER: int := 255
}

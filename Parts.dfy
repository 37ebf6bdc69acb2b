// The particle record and the element ids the modelled code refers to.
// simulation/Particle.h, simulation/ElementNumbers.h and simulation/GolNumbers.h
// are not part of this model: the record carries the integer fields of a
// particle, and the element ids are a parameter of the operations that use them.
module Parts {
  /** A particle. The position, velocity and temperature are floats in the
      game; the model keeps the position as whole pixels and the rest as
      integers where an operation only copies or clears them. */
  datatype Particle = Particle(
    ptype: int, life: int, ctype: int,
    x: int, y: int, vx: int, vy: int, temp: int,
    tmp: int, tmp2: int, flags: int, dcolour: int)

  /** The empty particle (a cleared slot). */
  const Empty := Particle(0, 0, 0, 0, 0, 0, 0, 0, 0, 0, 0, 0)

  /** The ids of the elements named in the modelled code, and the number of
      built-in Game of Life rules (NGOL). */
  datatype ElementIds = ElementIds(
    LOLZ: int, NORMAL_NUM: int, VIRS: int, VRSG: int, VRSS: int, SOAP: int, METL: int,
    LIFE: int, NGOL: int,
    RPEL: int, NWHL: int, HEAC: int, SAWD: int, POLO: int, RFRG: int, RFGL: int, LSNS: int,
    FRAY: int, INVIS: int, PIPE: int, PPIP: int, TSNS: int, PSNS: int, HSWC: int, PUMP: int,
    LDTC: int, CLNE: int, PCLN: int, BCLN: int, PBCN: int, STOR: int, CONV: int,
    STKM: int, STKM2: int, FIGH: int, LAVA: int, SPRK: int, PSTN: int, CRAY: int,
    DTEC: int, DRAY: int, ANIM: int, NSCN: int, PSCN: int, INST: int, INWR: int, PHOT: int)
}

// The save format code of src/game/Save.cpp that does not go through the
// compression and BSON libraries: element and wall id conversions for old
// saves, the format check of ParseSave, the byte layout of a particle's
// leading fields in OPS saves (BuildSave writes it, ParseSaveOPS reads it),
// the minimum-version rules and the appending operators.
module Save {
  import opened Wrappers
  import opened Defines
  import opened Walls
  import opened Parts
  import opened Bits
  import Sign

  // Element and wall ids of old saves

  /** FixType: ids of elements of an old version of the mod moved to where the
      elements are now. Types out of range, and saves not made by the mod
      (modCreatedVersion 0), keep their id. */
  function FixType(ptype: int, createdVersion: int, modCreatedVersion: int, ids: ElementIds): (r: int)
    ensures ptype < 0 || ptype > PT_NUM || modCreatedVersion == 0 ==> r == ptype
    ensures 0 <= ptype <= PT_NUM && modCreatedVersion == 18 && 190 <= ptype <= 204 ==> r == ids.LOLZ
  {
    if ptype < 0 || ptype > PT_NUM then ptype
    else if modCreatedVersion == 0 then ptype
    else if modCreatedVersion == 18 && 190 <= ptype <= 204 then ids.LOLZ
    else
      var max :=
        if createdVersion >= 90 then 179
        else if createdVersion >= 89 || modCreatedVersion >= 16 then 177
        else if createdVersion >= 87 then 173
        else if createdVersion >= 86 || modCreatedVersion == 14 then 170
        else if createdVersion >= 84 || modCreatedVersion == 13 then 167
        else if modCreatedVersion == 12 then 165
        else if createdVersion >= 83 then 163
        else if createdVersion >= 82 then 162
        else 161;
      var N := ids.NORMAL_NUM;
      var t := if ptype >= max then ptype + (N - max) else ptype;
      var t :=
        if modCreatedVersion <= 15 then
          (if N + 6 <= t <= N + 8 then ids.VIRS + t - (N + 6)
           else if t == N + 9 then ids.SOAP
           else if t > N + 9 then t - 4
           else t)
        else t;
      var t := if modCreatedVersion <= 19 && N + 12 <= t <= N + 13 then t - 14 else t;
      if modCreatedVersion <= 20 then
        (if t == N + 3 || t == N + 9 then ids.METL
         else if N + 3 < t < N + 9 then t - 1
         else if t > N + 9 then t - 2
         else t)
      else t
  }

  /** ChangeWall: the wall ids 1..13 of the oldest saves mapped to wall ids. */
  function ChangeWall(wt: int): (r: int)
    ensures (wt < 1 || wt > 13) ==> r == wt
    ensures 1 <= wt <= 13 ==> 1 <= r <= 13
  {
    if wt == 1 then WL_WALL
    else if wt == 2 then WL_DESTROYALL
    else if wt == 3 then WL_ALLOWLIQUID
    else if wt == 4 then WL_FAN
    else if wt == 5 then WL_STREAM
    else if wt == 6 then WL_DETECT
    else if wt == 7 then WL_EWALL
    else if wt == 8 then WL_WALLELEC
    else if wt == 9 then WL_ALLOWAIR
    else if wt == 10 then WL_ALLOWPOWDER
    else if wt == 11 then WL_ALLOWALLELEC
    else if wt == 12 then WL_EHOLE
    else if wt == 13 then WL_ALLOWGAS
    else wt
  }

  /** With the wall table's numbering the old ids and the new ones are the
      same thirteen numbers in another order: converting twice gives the id
      back, so no two ids are converted to the same wall. */
  lemma ChangeWallInvolution(wt: int)
    ensures ChangeWall(ChangeWall(wt)) == wt
  {
  }

  lemma ChangeWallInjective(a: int, b: int)
    ensures ChangeWall(a) == ChangeWall(b) ==> a == b
  {
    ChangeWallInvolution(a);
    ChangeWallInvolution(b);
  }

  /** The O_WL_* ids ChangeWallpp converts. */
  predicate OldWallId(wt: int)
  {
    wt == O_WL_WALLELEC || wt == O_WL_EWALL || wt == O_WL_DETECT || wt == O_WL_STREAM ||
    wt == O_WL_FAN || wt == O_WL_ALLOWLIQUID || wt == O_WL_DESTROYALL || wt == O_WL_WALL ||
    wt == O_WL_ALLOWAIR || wt == O_WL_ALLOWSOLID || wt == O_WL_ALLOWALLELEC || wt == O_WL_EHOLE ||
    wt == O_WL_ALLOWGAS || wt == O_WL_GRAV || wt == O_WL_ALLOWENERGY
  }

  /** ChangeWallpp: the O_WL_* ids of saves from before the wall table mapped
      to wall ids; any other value is kept. */
  function ChangeWallpp(wt: int): (r: int)
    ensures !OldWallId(wt) ==> r == wt
    ensures OldWallId(wt) ==> 0 < r < UI_WALLCOUNT
  {
    if wt == O_WL_WALLELEC then WL_WALLELEC
    else if wt == O_WL_EWALL then WL_EWALL
    else if wt == O_WL_DETECT then WL_DETECT
    else if wt == O_WL_STREAM then WL_STREAM
    else if wt == O_WL_FAN then WL_FAN
    else if wt == O_WL_ALLOWLIQUID then WL_ALLOWLIQUID
    else if wt == O_WL_DESTROYALL then WL_DESTROYALL
    else if wt == O_WL_WALL then WL_WALL
    else if wt == O_WL_ALLOWAIR then WL_ALLOWAIR
    else if wt == O_WL_ALLOWSOLID then WL_ALLOWPOWDER
    else if wt == O_WL_ALLOWALLELEC then WL_ALLOWALLELEC
    else if wt == O_WL_EHOLE then WL_EHOLE
    else if wt == O_WL_ALLOWGAS then WL_ALLOWGAS
    else if wt == O_WL_GRAV then WL_GRAV
    else if wt == O_WL_ALLOWENERGY then WL_ALLOWENERGY
    else wt
  }

  /** Distinct old ids become distinct walls. */
  lemma ChangeWallppInjective(a: int, b: int)
    requires OldWallId(a) && OldWallId(b) && a != b
    ensures ChangeWallpp(a) != ChangeWallpp(b)
  {
  }

  // ParseSave

  datatype SaveFormat = PSv | OPS

  predicate PSvMagic(d: seq<byte>)
    requires |d| >= 3
  {
    (d[0] == 0x66 && d[1] == 0x75 && d[2] == 0x43) || (d[0] == 0x50 && d[1] == 0x53 && d[2] == 0x76)
  }

  predicate OPSMagic(d: seq<byte>)
    requires |d| >= 3
  {
    d[0] == 'O' as int && d[1] == 'P' as int && d[2] == 'S' as int
  }

  /** ParseSave's checks before it hands the data to the parser of its format:
      an already expanded save is left alone (None); missing data, fewer than
      12 bytes, an OPS save of a version other than '1' and an unknown magic
      number are errors. */
  function ParseSave(expanded: bool, saveData: Option<seq<byte>>): (r: Result<Option<SaveFormat>>)
    ensures expanded <==> r == Ok(None)
    ensures !expanded && saveData.Some? && |saveData.value| >= 12 ==>
      (r == Ok(Some(PSv)) <==> PSvMagic(saveData.value)) &&
      (r == Ok(Some(OPS)) <==> !PSvMagic(saveData.value) && OPSMagic(saveData.value) && saveData.value[3] == '1' as int)
    ensures !expanded && (saveData == None || |saveData.value| < 12) ==> r.Err?
  {
    if expanded then Ok(None)
    else if saveData == None then Err("Save data doesn't exist")
    else if |saveData.value| < 12 then Err("Save too small")
    else
      var d := saveData.value;
      if PSvMagic(d) then Ok(Some(PSv))
      else if OPSMagic(d) then
        (if d[3] != '1' as int then Err("Save format from newer version") else Ok(Some(OPS)))
      else Err("Invalid save format")
  }

  // Minimum version

  /** (a, b) comes no later than (c, d) as versions. */
  predicate VersionLe(a: int, b: int, c: int, d: int)
  {
    a < c || (a == c && b <= d)
  }

  /** RESTRICTVERSION: the minimum version rises to (major, minor) when that is
      later; the result is the later of the two. */
  function RestrictVersion(major: int, minor: int, v: (int, int)): (r: (int, int))
    ensures VersionLe(major, minor, r.0, r.1) && VersionLe(v.0, v.1, r.0, r.1)
    ensures r == (major, minor) || r == v
  {
    if major > v.0 || (major == v.0 && minor > v.1) then (major, minor) else v
  }

  /** TypeInCtype: elements whose ctype holds an element id. */
  function TypeInCtype(t: int, ctype: int, ids: ElementIds): (r: bool)
    ensures r ==> 0 <= ctype < PT_NUM
  {
    if ctype < 0 || ctype >= PT_NUM then false
    else
      t == ids.CLNE || t == ids.PCLN || t == ids.BCLN || t == ids.PBCN || t == ids.STOR || t == ids.CONV ||
      t == ids.STKM || t == ids.STKM2 || t == ids.FIGH || t == ids.LAVA || t == ids.SPRK ||
      t == ids.PSTN || t == ids.CRAY || t == ids.DTEC || t == ids.DRAY || t == ids.LDTC
  }

  /** TypeInTmp: elements whose tmp holds an element id. */
  function TypeInTmp(t: int, ids: ElementIds): (r: bool)
    ensures r <==> t == ids.STOR
  {
    t == ids.STOR
  }

  /** TypeInTmp2: elements whose tmp2 holds an element id. */
  function TypeInTmp2(t: int, tmp2: int, ids: ElementIds): (r: bool)
    ensures r ==> 0 <= tmp2 < PT_NUM && (t == ids.VIRS || t == ids.VRSG || t == ids.VRSS)
  {
    (t == ids.VIRS || t == ids.VRSG || t == ids.VRSS) && 0 <= tmp2 < PT_NUM
  }

  /** The LSNS rule as written: tmp >= 1 || tmp <= 3, which every tmp meets. */
  predicate LsnsRuleAsWritten(tmp: int)
  {
    tmp >= 1 || tmp <= 3
  }

  /** The LSNS rule as meant: the modes 1..3 that appeared in version 95.0. */
  predicate LsnsRule(tmp: int)
  {
    1 <= tmp <= 3
  }

  /** The minimum version BuildSave requires for one particle, from the
      version required so far: the rules are applied in the order of the
      source, each raising the version to a later one when it applies. */
  function ParticleVersion(p: Particle, ids: ElementIds, v: (int, int)): (r: (int, int))
    ensures VersionLe(v.0, v.1, r.0, r.1)
    ensures p.ptype == ids.LSNS && LsnsRule(p.tmp) ==> VersionLe(95, 0, r.0, r.1)
    ensures p.ptype == ids.LIFE && (p.ctype < 0 || p.ctype >= ids.NGOL) ==> VersionLe(96, 0, r.0, r.1)
  {
    var v1 := TypeRules(p, ids, v);
    var v2 := IdFieldRules(p, ids, v1);
    var v3 := LsnsStep(p, ids, v2);
    LifeStep(p, ids, v3)
  }

  /** The rules on the type: a second type byte, and the elements and modes
      that appeared in 91.4 up to 94.0. */
  function TypeRules(p: Particle, ids: ElementIds, v: (int, int)): (r: (int, int))
    ensures VersionLe(v.0, v.1, r.0, r.1)
  {
    var t := p.ptype;
    var v := if (t % 0x10000) / 0x100 != 0 then RestrictVersion(93, 0, v) else v;
    var v :=
      if t == ids.RPEL && p.ctype != 0 then RestrictVersion(91, 4, v)
      else if t == ids.NWHL && p.tmp != 0 then RestrictVersion(91, 5, v)
      else v;
    if t == ids.HEAC || t == ids.SAWD || t == ids.POLO || t == ids.RFRG || t == ids.RFGL || t == ids.LSNS then
      RestrictVersion(92, 0, v)
    else if (t == ids.FRAY || t == ids.INVIS) && p.tmp != 0 then RestrictVersion(92, 0, v)
    else if t == ids.PIPE || t == ids.PPIP then RestrictVersion(93, 0, v)
    else if t == ids.TSNS || t == ids.PSNS || t == ids.HSWC || t == ids.PUMP then
      (if p.tmp == 1 then RestrictVersion(93, 0, v) else v)
    else v
  }

  /** The rules on element ids above 0xFF kept in ctype, tmp or tmp2 (only
      possible with more than 8 PMAPBITS), then LDTC and the sensors' mode 2. */
  function IdFieldRules(p: Particle, ids: ElementIds, v: (int, int)): (r: (int, int))
    ensures VersionLe(v.0, v.1, r.0, r.1)
  {
    var t := p.ptype;
    var v :=
      if PMAPBITS > 8 then
        (if TypeInCtype(t, p.ctype, ids) && p.ctype > 0xFF then RestrictVersion(93, 0, v)
         else if TypeInTmp(t, ids) && p.tmp > 0xFF then RestrictVersion(93, 0, v)
         else if TypeInTmp2(t, p.tmp2, ids) && p.tmp2 > 0xFF then RestrictVersion(93, 0, v)
         else v)
      else v;
    var v := if t == ids.LDTC then RestrictVersion(94, 0, v) else v;
    if (t == ids.TSNS || t == ids.PSNS) && p.tmp == 2 then RestrictVersion(94, 0, v) else v
  }

  /** Custom Game of Life rules need 96.0. */
  function LifeStep(p: Particle, ids: ElementIds, v: (int, int)): (r: (int, int))
    ensures VersionLe(v.0, v.1, r.0, r.1)
    ensures p.ptype == ids.LIFE && (p.ctype < 0 || p.ctype >= ids.NGOL) ==> VersionLe(96, 0, r.0, r.1)
  {
    if p.ptype == ids.LIFE && (p.ctype < 0 || p.ctype >= ids.NGOL) then RestrictVersion(96, 0, v) else v
  }

  /** The LSNS step of the version rules, as meant. */
  function LsnsStep(p: Particle, ids: ElementIds, v: (int, int)): (r: (int, int))
    ensures VersionLe(v.0, v.1, r.0, r.1)
    ensures p.ptype == ids.LSNS && LsnsRule(p.tmp) ==> VersionLe(95, 0, r.0, r.1)
  {
    if p.ptype == ids.LSNS && LsnsRule(p.tmp) then RestrictVersion(95, 0, v) else v
  }

  /** The LSNS step of the version rules, as written. */
  function LsnsStepAsWritten(p: Particle, ids: ElementIds, v: (int, int)): (int, int)
  {
    if p.ptype == ids.LSNS && LsnsRuleAsWritten(p.tmp) then RestrictVersion(95, 0, v) else v
  }

  /** As written, every LSNS particle requires version 95.0, even one in the
      mode 0 that version 92.0 already reads. */
  lemma LsnsAlwaysRestricts(p: Particle, ids: ElementIds)
    requires p.ptype == ids.LSNS
    ensures LsnsStepAsWritten(p, ids, (92, 0)) == (95, 0)
    ensures p.tmp == 0 ==> LsnsStep(p, ids, (92, 0)) == (92, 0)
  {
  }

  /** As meant, an LSNS particle requires 95.0 exactly in modes 1 to 3. */
  lemma LsnsRestrictsModes(p: Particle, ids: ElementIds)
    requires p.ptype == ids.LSNS
    ensures LsnsStep(p, ids, (92, 0)) == (95, 0) <==> 1 <= p.tmp <= 3
  {
  }

  // The field descriptor

  /** The position of the descriptor's lowest bit; the whole descriptor of a
      set of positions s is Word16(s, LOW_BIT). */
  const LOW_BIT: nat := 0

  /** The 16-bit word of a descriptor given as the set of its bit positions:
      bit k of Word16(s, j) is set when j + k is in s. */
  function Word16(s: set<int>, j: nat): (w: nat)
    ensures j <= 16 ==> w < Pow2(16 - j)
    decreases 16 - j
  {
    if j >= 16 then 0 else (if j in s then 1 else 0) + 2 * Word16(s, j + 1)
  }

  /** fieldDescriptor & (1 << k). */
  predicate HasBit(w: nat, k: nat)
  {
    if k == 0 then w % 2 == 1 else HasBit(w / 2, k - 1)
  }

  lemma {:induction false} WordBits(s: set<int>, j: nat, k: nat)
    requires j <= k < 16
    ensures HasBit(Word16(s, j), k - j) <==> k in s
    decreases k - j
  {
    WordHalf(s, j);
    if k > j {
      WordBits(s, j + 1, k);
    }
  }

  /** The lowest bit of Word16(s, j) says whether j is in s; the rest is
      Word16(s, j + 1). */
  lemma WordHalf(s: set<int>, j: nat)
    requires j < 16
    ensures Word16(s, j) % 2 == (if j in s then 1 else 0) && Word16(s, j) / 2 == Word16(s, j + 1)
  {
    Halves(if j in s then 1 else 0, Word16(s, j + 1));
  }

  lemma Halves(b: nat, x: nat)
    requires b < 2
    ensures (b + 2 * x) % 2 == b && (b + 2 * x) / 2 == x
  {
  }

  // The leading fields of a particle

  /** How BuildSave stores a temperature: as an offset from 294.15 K in one
      signed byte, or (descriptor bit 0) as a 16-bit number of kelvins. The
      choice and the rounding are made on floats and are not modelled. */
  datatype Temp = Offset(delta: int) | Kelvin(k: int)

  predicate TempOk(t: Temp)
  {
    match t
    case Offset(d) => -128 <= d < 128
    case Kelvin(k) => 0 <= k < 0x10000
  }

  /** What ParseSaveOPS reads of a particle's leading fields. */
  datatype Loaded = Loaded(ptype: int, temp: Temp, life: int, tmp: int, ctype: int)

  /** A field as written: the descriptor bits it sets and its bytes. */
  datatype Field = Field(bits: set<int>, bytes: seq<byte>)

  function Low(n: int): byte
  {
    n % 0x100
  }

  function TypeField(t: int): Field
  {
    if (t % 0x10000) / 0x100 != 0 then Field({14}, [Low(t / 0x100)]) else Field({}, [])
  }

  function TempField(t: Temp): (f: Field)
    ensures |f.bytes| > 0
  {
    match t
    case Offset(d) => Field({}, [Low(d)])
    case Kelvin(k) => Field({0}, [Low(k), Low(k / 0x100)])
  }

  /** life clamped into 0..0xFFFF. */
  function ClampLife(life: int): (r: int)
    ensures 0 <= r <= 0xFFFF && (0 <= life <= 0xFFFF ==> r == life)
  {
    if life > 0xFFFF then 0xFFFF else if life < 0 then 0 else life
  }

  /** Life: nothing when 0, else bit 1 and the low byte of the clamped value,
      and bit 2 with the high byte when it is not zero. */
  function LifeField(life: int): (f: Field)
    ensures 1 in f.bits <==> life != 0
  {
    if life == 0 then Field({}, [])
    else
      var l := ClampLife(life);
      if l / 0x100 != 0 then Field({1, 2}, [Low(l), Low(l / 0x100)]) else Field({1}, [Low(l)])
  }

  /** The built-in Game of Life rules keep their rule in tmp2; version 95.0
      wants its low byte where tmp goes. */
  predicate BuiltInLife(p: Particle, ids: ElementIds)
  {
    p.ptype == ids.LIFE && 0 <= p.ctype < ids.NGOL
  }

  const TWO32: int := 0x1_0000_0000

  /** Tmp: nothing when 0; else bit 3 and the low byte, bit 4 and the second
      byte when a higher byte is set, bit 12 and bytes 3 and 2 (in that order)
      when one of the upper two is. */
  function TmpField(p: Particle, ids: ElementIds): Field
  {
    if p.tmp == 0 then Field({}, [])
    else if BuiltInLife(p, ids) then Field({3}, [Low(p.tmp2)])
    else
      var u := p.tmp % TWO32;
      if u < 0x100 then Field({3}, [Low(u)])
      else if u < 0x1_0000 then Field({3, 4}, [Low(u), Low(u / 0x100)])
      else Field({3, 4, 12}, [Low(u), Low(u / 0x100), u / 0x100_0000, Low(u / 0x1_0000)])
  }

  /** Ctype: nothing when 0; else bit 5 and the low byte, and bit 9 and bytes
      3, 2 and 1 when a higher byte is set. */
  function CtypeField(c: int): Field
  {
    if c == 0 then Field({}, [])
    else
      var u := c % TWO32;
      if u < 0x100 then Field({5}, [Low(u)])
      else Field({5, 9}, [Low(u), u / 0x100_0000, Low(u / 0x1_0000), Low(u / 0x100)])
  }

  /** BuildSave's bytes for a particle's leading fields: the type's low byte,
      the two bytes of the descriptor, then the type's high byte, the
      temperature, life, tmp and ctype, each when present. */
  function EncodeParticle(p: Particle, temp: Temp, ids: ElementIds): seq<byte>
  {
    Head(p, temp, ids) + LifeField(p.life).bytes + TmpField(p, ids).bytes + CtypeField(p.ctype).bytes
  }

  /** The descriptor bits a particle's fields set. */
  function ParticleBits(p: Particle, temp: Temp, ids: ElementIds): set<int>
  {
    TypeField(p.ptype).bits + TempField(temp).bits + LifeField(p.life).bits + TmpField(p, ids).bits + CtypeField(p.ctype).bits
  }

  /** The bytes up to the temperature: the type's low byte, the descriptor,
      the type's high byte and the temperature. */
  function Head(p: Particle, temp: Temp, ids: ElementIds): seq<byte>
  {
    [Low(p.ptype)] + DescBytes(ParticleBits(p, temp, ids)) + TypeField(p.ptype).bytes + TempField(temp).bytes
  }

  /** The descriptor's two bytes, low byte first. */
  function DescBytes(s: set<int>): (r: seq<byte>)
    ensures |r| == 2 && r[0] as int + 0x100 * r[1] as int == Word16(s, LOW_BIT)
  {
    var w := Word16(s, LOW_BIT);
    Pow2Values();
    [Low(w), w / 0x100]
  }

  /** A byte read as a signed char. */
  function Signed(b: byte): int
  {
    if b < 0x80 then b else b - 0x100
  }

  /** An unsigned value stored in an int: wrap-around into the int range. */
  function Int32(u: nat): (r: int)
    ensures -0x8000_0000 <= r < 0x8000_0000 && r % TWO32 == u % TWO32
  {
    var m := u % TWO32;
    if m < 0x8000_0000 then m else m - TWO32
  }

  /** The head of ParseSaveOPS's particle loop as written: one check that four
      bytes remain (type, descriptor, temperature), then the reads of the
      type, the descriptor, the optional second type byte and the one or two
      temperature bytes. None when the check fails; otherwise the indices read. */
  function HeadReadsAsWritten(data: seq<byte>, i: nat): Option<seq<nat>>
  {
    if i + 3 >= |data| then None
    else
      var desc := data[i + 1] as int + 0x100 * data[i + 2] as int;
      var j := if HasBit(desc, 14) then i + 4 else i + 3;
      Some([i, i + 1, i + 2] + (if HasBit(desc, 14) then [i + 3] else []) +
           (if HasBit(desc, 0) then [j, j + 1] else [j]))
  }

  /** A truncated particle with the second type byte and a 16-bit temperature
      passes the check and is read two bytes past the end of the buffer. */
  lemma HeadReadsPastEnd()
    ensures var r := HeadReadsAsWritten([1, 0x01, 0x40, 0], 0);
      r == Some([0, 1, 2, 3, 4, 5]) && r.value[4] >= 4 && r.value[5] >= 4
  {
    var d: seq<byte> := [1, 0x01, 0x40, 0];
    assert d[1] as int + 0x100 * d[2] as int == 0x4001;
    assert HasBit(0x4001, 0);
    SecondTypeBit();
    var r := HeadReadsAsWritten(d, 0);
    assert r == Some([0, 1, 2] + [3] + [4, 5]);
    assert [0, 1, 2] + [3] + [4, 5] == [0, 1, 2, 3, 4, 5];
  }

  /** Bit 14 (the second type byte) is set in 0x4001. */
  lemma SecondTypeBit()
    ensures HasBit(0x4001, 14)
  {
    assert HasBit(0x10, 4);
  }

  /** ParseSaveOPS's reads of a particle's leading fields from index i, with
      every read checked against the end of the buffer. Returns the fields
      and the index after them. */
  function DecodeParticle(data: seq<byte>, i: nat): Result<(Loaded, int)>
  {
    if i + 3 >= |data| then Err("Ran past particle data buffer")
    else
      var desc := data[i + 1] as int + 0x100 * data[i + 2] as int;
      match DecodeHead(desc, data, i)
      case Err(e) => Err(e)
      case Ok((t, temp, j)) =>
        match DecodeLife(desc, data, j)
        case Err(e) => Err(e)
        case Ok((life, j)) =>
          match DecodeTmp(desc, data, j)
          case Err(e) => Err(e)
          case Ok((tmp, j)) =>
            match DecodeCtype(desc, data, j)
            case Err(e) => Err(e)
            case Ok((ctype, j)) => Ok((Loaded(t, temp, life, tmp, ctype), j))
  }

  /** The type (with its optional second byte) and the temperature. */
  function DecodeHead(desc: nat, data: seq<byte>, i: nat): (r: Result<(int, Temp, int)>)
    requires i + 3 < |data|
    ensures r.Ok? ==> i < r.value.2 <= |data|
  {
    var (t, j) := if HasBit(desc, 14) then (data[i] as int + 0x100 * data[i + 3] as int, i + 4) else (data[i] as int, i + 3);
    if HasBit(desc, 0) then
      (if j + 1 >= |data| then Err("Ran past particle data buffer")
       else Ok((t, Kelvin(data[j] as int + 0x100 * data[j + 1] as int), j + 2)))
    else if j >= |data| then Err("Ran past particle data buffer")
    else Ok((t, Offset(Signed(data[j])), j + 1))
  }

  function DecodeLife(desc: nat, data: seq<byte>, i: nat): (r: Result<(int, int)>)
    ensures r.Ok? ==> i <= r.value.1
  {
    if !HasBit(desc, 1) then Ok((0, i))
    else if i >= |data| then Err("Ran past particle data buffer while loading life")
    else if !HasBit(desc, 2) then Ok((data[i] as int, i + 1))
    else if i + 1 >= |data| then Err("Ran past particle data buffer while loading life")
    else Ok((data[i] as int + 0x100 * data[i + 1] as int, i + 2))
  }

  function DecodeTmp(desc: nat, data: seq<byte>, i: nat): (r: Result<(int, int)>)
    ensures r.Ok? ==> i <= r.value.1
  {
    if !HasBit(desc, 3) then Ok((0, i))
    else if i >= |data| then Err("Ran past particle data buffer while loading tmp")
    else if !HasBit(desc, 4) then Ok((data[i] as int, i + 1))
    else if i + 1 >= |data| then Err("Ran past particle data buffer while loading tmp")
    else if !HasBit(desc, 12) then Ok((data[i] as int + 0x100 * data[i + 1] as int, i + 2))
    else if i + 3 >= |data| then Err("Ran past particle data buffer while loading tmp")
    else Ok((Int32(data[i] as int + 0x100 * data[i + 1] as int + 0x100_0000 * data[i + 2] as int + 0x1_0000 * data[i + 3] as int), i + 4))
  }

  function DecodeCtype(desc: nat, data: seq<byte>, i: nat): (r: Result<(int, int)>)
    ensures r.Ok? ==> i <= r.value.1
  {
    if !HasBit(desc, 5) then Ok((0, i))
    else if i >= |data| then Err("Ran past particle data buffer while loading ctype")
    else if !HasBit(desc, 9) then Ok((data[i] as int, i + 1))
    else if i + 3 >= |data| then Err("Ran past particle data buffer while loading ctype")
    else Ok((Int32(data[i] as int + 0x100_0000 * data[i + 1] as int + 0x1_0000 * data[i + 2] as int + 0x100 * data[i + 3] as int), i + 4))
  }

  /** What a particle's leading fields load back as: life clamped into
      0..0xFFFF, and, for the built-in Game of Life rules, the low byte of tmp2
      in place of tmp. */
  function Expected(p: Particle, temp: Temp, ids: ElementIds): Loaded
  {
    Loaded(p.ptype, temp, ClampLife(p.life),
           if p.tmp != 0 && BuiltInLife(p, ids) then p.tmp2 % 0x100 else p.tmp, p.ctype)
  }

  /** Reading back what BuildSave writes, whatever follows it, gives the
      fields back and stops right after them. */
  lemma ParticleRoundTrip(p: Particle, temp: Temp, ids: ElementIds, rest: seq<byte>)
    requires 0 <= p.ptype < 0x10000 && TempOk(temp)
    requires -0x8000_0000 <= p.tmp < 0x8000_0000 && -0x8000_0000 <= p.ctype < 0x8000_0000
    ensures var e := EncodeParticle(p, temp, ids);
      DecodeParticle(e + rest, 0) == Ok((Expected(p, temp, ids), |e|))
  {
    var s := ParticleBits(p, temp, ids);
    ParticleDesc(p, temp, ids);
    LayoutRoundTrip(p, temp, ids, Word16(s, LOW_BIT), DescBytes(s), rest);
  }

  /** The descriptor read back holds each field's bits. */
  lemma ParticleDesc(p: Particle, temp: Temp, ids: ElementIds)
    ensures var w := Word16(ParticleBits(p, temp, ids), LOW_BIT);
      (HasBit(w, 14) <==> 14 in TypeField(p.ptype).bits) && (HasBit(w, 0) <==> 0 in TempField(temp).bits) &&
      (HasBit(w, 1) <==> 1 in LifeField(p.life).bits) && (HasBit(w, 2) <==> 2 in LifeField(p.life).bits) &&
      (HasBit(w, 3) <==> 3 in TmpField(p, ids).bits) && (HasBit(w, 4) <==> 4 in TmpField(p, ids).bits) &&
      (HasBit(w, 12) <==> 12 in TmpField(p, ids).bits) &&
      (HasBit(w, 5) <==> 5 in CtypeField(p.ctype).bits) && (HasBit(w, 9) <==> 9 in CtypeField(p.ctype).bits)
  {
    var ty, te, li, tm, ct := TypeField(p.ptype), TempField(temp), LifeField(p.life), TmpField(p, ids), CtypeField(p.ctype);
    FieldsWithin(p, temp, ids);
    UnionBits(ty.bits, te.bits, li.bits, tm.bits, ct.bits);
    DescriptorBits(ParticleBits(p, temp, ids), Word16(ParticleBits(p, temp, ids), LOW_BIT), ty.bits, te.bits, li.bits, tm.bits, ct.bits);
  }

  /** Each field sets only the descriptor bits that belong to it. */
  lemma FieldsWithin(p: Particle, temp: Temp, ids: ElementIds)
    ensures TypeField(p.ptype).bits <= {14} && TempField(temp).bits <= {0} && LifeField(p.life).bits <= {1, 2}
    ensures TmpField(p, ids).bits <= {3, 4, 12} && CtypeField(p.ctype).bits <= {5, 9}
  {
  }

  /** The round trip for any descriptor word w written as the two bytes db
      that holds each field's bits. */
  lemma LayoutRoundTrip(p: Particle, temp: Temp, ids: ElementIds, w: nat, db: seq<byte>, rest: seq<byte>)
    requires 0 <= p.ptype < 0x10000 && TempOk(temp)
    requires -0x8000_0000 <= p.tmp < 0x8000_0000 && -0x8000_0000 <= p.ctype < 0x8000_0000
    requires |db| == 2 && db[0] as int + 0x100 * db[1] as int == w
    requires (HasBit(w, 14) <==> 14 in TypeField(p.ptype).bits) && (HasBit(w, 0) <==> 0 in TempField(temp).bits) &&
      (HasBit(w, 1) <==> 1 in LifeField(p.life).bits) && (HasBit(w, 2) <==> 2 in LifeField(p.life).bits) &&
      (HasBit(w, 3) <==> 3 in TmpField(p, ids).bits) && (HasBit(w, 4) <==> 4 in TmpField(p, ids).bits) &&
      (HasBit(w, 12) <==> 12 in TmpField(p, ids).bits) &&
      (HasBit(w, 5) <==> 5 in CtypeField(p.ctype).bits) && (HasBit(w, 9) <==> 9 in CtypeField(p.ctype).bits)
    ensures var e := [Low(p.ptype)] + db + TypeField(p.ptype).bytes + TempField(temp).bytes +
        LifeField(p.life).bytes + TmpField(p, ids).bytes + CtypeField(p.ctype).bytes;
      DecodeParticle(e + rest, 0) == Ok((Expected(p, temp, ids), |e|))
  {
    var hd := [Low(p.ptype)] + db + TypeField(p.ptype).bytes + TempField(temp).bytes;
    var lb, tb, cb := LifeField(p.life).bytes, TmpField(p, ids).bytes, CtypeField(p.ctype).bytes;
    var data := hd + lb + tb + cb + rest;
    var n0, n1, n2, n3 := |hd|, |hd| + |lb|, |hd| + |lb| + |tb|, |hd + lb + tb + cb|;
    var tmp := Expected(p, temp, ids).tmp;
    Regroup(hd, lb, tb, cb, rest);
    assert 3 < |data| && data[1] as int + 0x100 * data[2] as int == w && DecodeHead(w, data, 0) == Ok((p.ptype, temp, n0)) by {
      HeadRoundTrip(p.ptype, temp, w, db, data, lb + tb + cb + rest);
      assert data[1] == db[0] && data[2] == db[1];
    }
    assert DecodeLife(w, data, n0) == Ok((ClampLife(p.life), n1)) by {
      LifeRoundTrip(p.life, w, data, hd, tb + cb + rest, n0, n1);
    }
    assert DecodeTmp(w, data, n1) == Ok((tmp, n2)) by {
      TmpRoundTrip(p, ids, w, data, hd + lb, cb + rest, n1, n2, tmp);
    }
    assert DecodeCtype(w, data, n2) == Ok((p.ctype, n3)) by {
      CtypeRoundTrip(p.ctype, w, data, hd + lb + tb, rest, n2, n3);
    }
    DecodeSteps(data, w, p.ptype, temp, ClampLife(p.life), tmp, p.ctype, n0, n1, n2, n3, Expected(p, temp, ids));
  }

  /** A five-part sequence grouped around each of its middle parts. */
  lemma Regroup<T>(a: seq<T>, b: seq<T>, c: seq<T>, d: seq<T>, e: seq<T>)
    ensures a + b + c + d + e == a + (b + c + d + e)
    ensures a + b + c + d + e == a + b + (c + d + e)
    ensures a + b + c + d + e == (a + b) + c + (d + e)
  {
  }

  /** Where the fields' bit positions do not overlap, the descriptor word of
      their union has, at each field's positions, exactly that field's bits. */
  lemma DescriptorBits(s: set<int>, w: nat, ty: set<int>, te: set<int>, li: set<int>, tm: set<int>, ct: set<int>)
    requires w == Word16(s, LOW_BIT)
    requires (14 in s <==> 14 in ty) && (0 in s <==> 0 in te) && (1 in s <==> 1 in li) && (2 in s <==> 2 in li) &&
      (3 in s <==> 3 in tm) && (4 in s <==> 4 in tm) && (12 in s <==> 12 in tm) &&
      (5 in s <==> 5 in ct) && (9 in s <==> 9 in ct)
    ensures (HasBit(w, 14) <==> 14 in ty) && (HasBit(w, 0) <==> 0 in te) &&
      (HasBit(w, 1) <==> 1 in li) && (HasBit(w, 2) <==> 2 in li) &&
      (HasBit(w, 3) <==> 3 in tm) && (HasBit(w, 4) <==> 4 in tm) && (HasBit(w, 12) <==> 12 in tm) &&
      (HasBit(w, 5) <==> 5 in ct) && (HasBit(w, 9) <==> 9 in ct)
  {
    FieldBit(s, te, 0, w); FieldBit(s, li, 1, w); FieldBit(s, li, 2, w); FieldBit(s, tm, 3, w); FieldBit(s, tm, 4, w);
    FieldBit(s, ct, 5, w); FieldBit(s, ct, 9, w); FieldBit(s, tm, 12, w); FieldBit(s, ty, 14, w);
  }

  /** The fields' bit positions do not overlap. */
  lemma UnionBits(ty: set<int>, te: set<int>, li: set<int>, tm: set<int>, ct: set<int>)
    requires ty <= {14} && te <= {0} && li <= {1, 2} && tm <= {3, 4, 12} && ct <= {5, 9}
    ensures var s := ty + te + li + tm + ct;
      (14 in s <==> 14 in ty) && (0 in s <==> 0 in te) && (1 in s <==> 1 in li) && (2 in s <==> 2 in li) &&
      (3 in s <==> 3 in tm) && (4 in s <==> 4 in tm) && (12 in s <==> 12 in tm) &&
      (5 in s <==> 5 in ct) && (9 in s <==> 9 in ct)
  {
  }

  lemma FieldBit(s: set<int>, f: set<int>, k: int, w: nat)
    requires 0 <= k < 16 && (k in s <==> k in f) && w == Word16(s, LOW_BIT)
    ensures HasBit(w, k) <==> k in f
  {
    WordBits(s, LOW_BIT, k);
  }

  /** DecodeParticle puts together the results of its four steps. */
  lemma DecodeSteps(data: seq<byte>, w: nat, t: int, temp: Temp, life: int, tmp: int, ctype: int,
                    n0: int, n1: int, n2: int, n3: int, l: Loaded)
    requires 3 < |data| && data[1] as int + 0x100 * data[2] as int == w
    requires DecodeHead(w, data, 0) == Ok((t, temp, n0))
    requires n0 >= 0 && DecodeLife(w, data, n0) == Ok((life, n1))
    requires n1 >= 0 && DecodeTmp(w, data, n1) == Ok((tmp, n2))
    requires n2 >= 0 && DecodeCtype(w, data, n2) == Ok((ctype, n3))
    requires l == Loaded(t, temp, life, tmp, ctype)
    ensures DecodeParticle(data, 0) == Ok((l, n3))
  {
  }

  lemma HeadRoundTrip(t: int, temp: Temp, w: nat, db: seq<byte>, data: seq<byte>, tail: seq<byte>)
    requires 0 <= t < 0x10000 && TempOk(temp)
    requires (HasBit(w, 14) <==> 14 in TypeField(t).bits) && (HasBit(w, 0) <==> 0 in TempField(temp).bits)
    requires |db| == 2 && data == [Low(t)] + db + TypeField(t).bytes + TempField(temp).bytes + tail
    ensures 3 < |data| && DecodeHead(w, data, 0) == Ok((t, temp, 3 + |TypeField(t).bytes| + |TempField(temp).bytes|))
  {
    var ty, te := TypeField(t), TempField(temp);
    var j := 3 + |ty.bytes|;
    if ty.bits != {} {
      assert data[3] == ty.bytes[0] == Low(t / 0x100);
    }
    match temp
    case Offset(d) =>
      assert data[j] == te.bytes[0] == Low(d);
    case Kelvin(k) =>
      assert data[j] == te.bytes[0] == Low(k) && data[j + 1] == te.bytes[1] == Low(k / 0x100);
  }

  lemma LifeRoundTrip(life: int, w: nat, data: seq<byte>, a: seq<byte>, tail: seq<byte>, i: nat, j: nat)
    requires (HasBit(w, 1) <==> 1 in LifeField(life).bits) && (HasBit(w, 2) <==> 2 in LifeField(life).bits)
    requires data == a + LifeField(life).bytes + tail && i == |a| && j == i + |LifeField(life).bytes|
    ensures DecodeLife(w, data, i) == Ok((ClampLife(life), j))
  {
    var f := LifeField(life);
    if life != 0 {
      assert data[i] == f.bytes[0];
      if 2 in f.bits {
        assert data[i + 1] == f.bytes[1];
      }
    }
  }

  lemma TmpRoundTrip(p: Particle, ids: ElementIds, w: nat, data: seq<byte>, a: seq<byte>, tail: seq<byte>,
                      i: nat, j: nat, v: int)
    requires -0x8000_0000 <= p.tmp < 0x8000_0000
    requires var f := TmpField(p, ids);
      (HasBit(w, 3) <==> 3 in f.bits) && (HasBit(w, 4) <==> 4 in f.bits) && (HasBit(w, 12) <==> 12 in f.bits)
    requires data == a + TmpField(p, ids).bytes + tail && i == |a| && j == i + |TmpField(p, ids).bytes|
    requires v == if p.tmp != 0 && BuiltInLife(p, ids) then p.tmp2 % 0x100 else p.tmp
    ensures DecodeTmp(w, data, i) == Ok((v, j))
  {
    var f := TmpField(p, ids);
    if p.tmp != 0 {
      assert data[i] == f.bytes[0];
      if !BuiltInLife(p, ids) {
        var u := p.tmp % TWO32;
        if u >= 0x100 {
          assert data[i + 1] == f.bytes[1];
        }
        Int32Wraps(p.tmp);
        if u >= 0x1_0000 {
          assert data[i + 2] == f.bytes[2] && data[i + 3] == f.bytes[3];
          WordOfBytes(u);
          assert data[i] as int + 0x100 * data[i + 1] as int + 0x100_0000 * data[i + 2] as int + 0x1_0000 * data[i + 3] as int == u;
        } else if u >= 0x100 {
          assert Low(u) + 0x100 * Low(u / 0x100) == u;
        }
      }
    }
  }

  /** The four bytes of an unsigned 32-bit value put back together. */
  lemma WordOfBytes(u: nat)
    requires u < TWO32
    ensures Low(u) + 0x100 * Low(u / 0x100) + 0x100_0000 * (u / 0x100_0000) + 0x1_0000 * Low(u / 0x1_0000) == u
  {
    var a, q := u % 0x100, u / 0x100;
    var b, q' := q % 0x100, q / 0x100;
    var c, d := q' % 0x100, q' / 0x100;
    assert u == a + 0x100 * (b + 0x100 * (c + 0x100 * d));
    assert u / 0x1_0000 == q';
    assert u / 0x100_0000 == d;
  }

  lemma CtypeRoundTrip(c: int, w: nat, data: seq<byte>, a: seq<byte>, tail: seq<byte>, i: nat, j: nat)
    requires -0x8000_0000 <= c < 0x8000_0000
    requires var f := CtypeField(c); (HasBit(w, 5) <==> 5 in f.bits) && (HasBit(w, 9) <==> 9 in f.bits)
    requires data == a + CtypeField(c).bytes + tail && i == |a| && j == i + |CtypeField(c).bytes|
    ensures DecodeCtype(w, data, i) == Ok((c, j))
  {
    var f := CtypeField(c);
    if c != 0 {
      assert data[i] == f.bytes[0];
      var u := c % TWO32;
      Int32Wraps(c);
      if u >= 0x100 {
        assert data[i + 1] == f.bytes[1] && data[i + 2] == f.bytes[2] && data[i + 3] == f.bytes[3];
        WordOfBytes(u);
        assert data[i] as int + 0x100_0000 * data[i + 1] as int + 0x1_0000 * data[i + 2] as int + 0x100 * data[i + 3] as int == u;
      } else {
        assert u == c;
      }
    }
  }

  /** A 32-bit value taken modulo 2^32 and read back as an int is itself. */
  lemma Int32Wraps(c: int)
    requires -0x8000_0000 <= c < 0x8000_0000
    ensures Int32(c % TWO32) == c
  {
  }

  // Appending particles and signs

  /** The number of signs a save holds. */
  const MAXSIGNS: nat := 16

  /** The particles and signs of a Save. */
  class SaveContents {
    const particles: array<Particle>
    var particlesCount: nat
    var signs: seq<Sign.Sign>

    ghost predicate Valid()
      reads this
    {
      particles.Length == NPART && particlesCount <= NPART
    }

    constructor ()
      ensures Valid() && fresh(particles) && particlesCount == 0 && signs == []
    {
      particles := new Particle[NPART](_ => Empty);
      particlesCount := 0;
      signs := [];
    }

    /** operator<<(particle): the particle is appended when there is room and
        it is not empty; otherwise nothing changes. */
    method AddParticle(v: Particle)
      requires Valid()
      modifies this`particlesCount, particles
      ensures Valid()
      ensures old(particlesCount) < NPART && v.ptype != 0 ==>
        particlesCount == old(particlesCount) + 1 && particles[..] == old(particles[..])[old(particlesCount) := v]
      ensures !(old(particlesCount) < NPART && v.ptype != 0) ==>
        particlesCount == old(particlesCount) && particles[..] == old(particles[..])
    {
      if particlesCount < NPART && v.ptype != 0 {
        particles[particlesCount] := v;
        particlesCount := particlesCount + 1;
      }
    }

    /** operator<<(Sign): the sign is appended when there is room and its text
        is not empty; otherwise nothing changes. */
    method AddSign(v: Sign.Sign)
      requires Valid()
      modifies this`signs
      ensures Valid()
      ensures signs == if |old(signs)| < MAXSIGNS && |v.text| > 0 then old(signs) + [v] else old(signs)
    {
      if |signs| < MAXSIGNS && |v.text| > 0 {
        signs := signs + [v];
      }
    }
  }
}

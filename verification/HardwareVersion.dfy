/** Which console this is (bsp_hwrev.c): from two revision registers and the board configuration. */
module HardwareVersion {
  import opened Machine
  import opened Seeprom
  import opened EepromEdges
  import opened EepromDriver
  import opened BoardConfig
  import opened EeEntity
  import Bsp

  type Version = uint32

  const UNKNOWN: Version := 0
  const HOLLYWOOD_ENG_SAMPLE_1: Version := 0x0000_0001
  const HOLLYWOOD_ENG_SAMPLE_2: Version := 0x1000_0001
  const HOLLYWOOD_PROD_FOR_WII: Version := 0x1010_0001
  const HOLLYWOOD_CORTADO: Version := 0x1010_0008
  const HOLLYWOOD_CORTADO_ESPRESSO: Version := 0x1010_000C
  const BOLLYWOOD: Version := 0x2000_0001
  const BOLLYWOOD_PROD_FOR_WII: Version := 0x2010_0001

  const VARIANT_EV: Version := 0x0010
  const VARIANT_EV_Y: Version := 0x0011
  const VARIANT_CAT: Version := 0x0020
  const VARIANT_ID: Version := 0x0021
  const VARIANT_CAFE: Version := 0x0028
  const VARIANT_IH: Version := 0x0029

  const CF: uint16 := 0x4346
  const CT: uint16 := 0x4354
  const EV: uint16 := 0x4556
  const ID: uint16 := 0x4944
  const IH: uint16 := 0x4948

  predicate IsLatte(v: Version) { v / 0x100_0000 % 0x10 != 0 }
  predicate IsBollywood(v: Version) { v / 0x100_0000 == 0x20 }
  predicate IsHollywood(v: Version) { v / 0x100_0000 == 0x10 }
  predicate IsHollywoodEs1(v: Version) { v / 0x100_0000 == 0x00 }

  function VariantOf(v: Version): Version { v % 0x1_0000 }

  /** v & 0xFFFF0000 */
  function RevisionPart(v: Version): Version { v - v % 0x1_0000 }

  /** What the code can read of the hardware besides the EEPROM. */
  datatype Board = Board(
    chipRev: uint32,          // HW_CHIPREVID
    latteRev: uint32,         // LT_CHIPREVID
    cortadoProbe: int,        // result code of BSPCheckCortado
    isCortado: bool,          // what it reports
    pvrVersion: uint16)       // processor version

  // The masks of the code cut words at bit boundaries and its ors never meet a set bit, so here they are quotients,
  // remainders and sums.

  /** determineWoodBasedHardwareVersion */
  function WoodVersion(b: Board, fullCheck: bool): (Bsp.Rval, Version) {
    var rev := b.chipRev % 0x100;
    if rev == 0x00 then (Bsp.OK, HOLLYWOOD_ENG_SAMPLE_1)
    else if rev == 0x10 then (Bsp.OK, HOLLYWOOD_ENG_SAMPLE_2)
    else if rev == 0x11 then
      if !fullCheck || b.cortadoProbe != 0 then (Bsp.OK, HOLLYWOOD_CORTADO)
      else if !b.isCortado then (Bsp.OK, HOLLYWOOD_PROD_FOR_WII)
      else if b.pvrVersion == 0x7001 then (Bsp.OK, HOLLYWOOD_CORTADO_ESPRESSO)
      else (Bsp.OK, HOLLYWOOD_CORTADO)
    else if rev == 0x20 then (Bsp.OK, BOLLYWOOD)
    else if rev == 0x21 then (Bsp.OK, BOLLYWOOD_PROD_FOR_WII)
    else (Bsp.UNKNOWN_HARDWARE_VERSION, UNKNOWN)
  }

  predicate HasLatte(b: Board) {
    b.latteRev / 0x1_0000 == 0xCAFE
  }

  /** determineLatteBasedHardwareVersion */
  function LatteVersion(b: Board, v: Version): (Bsp.Rval, Version) {
    if !HasLatte(b) then (Bsp.UNKNOWN_HARDWARE_VERSION, v)
    else
      var low := v % 0x10_0000;
      var rev := b.latteRev % 0x100;
      (Bsp.OK,
       low + (if rev == 0x10 then 0x2110_0000      // A11
              else if rev == 0x18 then 0x2120_0000 // A12
              else if rev == 0x21 then 0x2210_0000 // A2x
              else if rev == 0x30 then 0x2310_0000 // A3x
              else if rev == 0x40 then 0x2410_0000 // A4x
              else if rev == 0x50 then 0x2510_0000 // A5x
              else 0x2610_0000))                   // B1x
  }

  function BoardVariant(boardType: uint16): (variant: Version)
    ensures variant < 0x100 && variant != VARIANT_EV_Y
  {
    if boardType == CF then VARIANT_CAFE
    else if boardType == CT then VARIANT_CAT
    else if boardType == EV then VARIANT_EV
    else if boardType == ID then VARIANT_ID
    else if boardType == IH then VARIANT_IH
    else 0
  }

  function VariantFor(boardType: Option<uint16>): (variant: Version)
    ensures variant < 0x100
  {
    if boardType.None? then VARIANT_EV_Y else BoardVariant(boardType.value)
  }

  /** The board goes by its Latte revision and its board configuration. */
  predicate UsesBoardConfig(b: Board) {
    WoodVersion(b, true) == (Bsp.OK, BOLLYWOOD_PROD_FOR_WII) && HasLatte(b)
  }

  /** The version of a board, given the board type from its configuration if that could be loaded. */
  function Resolved(b: Board, boardType: Option<uint16>): (Bsp.Rval, Version) {
    if UsesBoardConfig(b) then
      (Bsp.OK,
       RevisionPart(LatteVersion(b, BOLLYWOOD_PROD_FOR_WII).1) + VariantFor(boardType))
    else WoodVersion(b, true)
  }

  function ConsoleMask(c: Config): (Bsp.Rval, int) {
    if c.size == 0 then (Bsp.BOARD_CONFIG_INVALID, -1)
    else if c.version < 4 then (Bsp.OK, if c.boardType == CT || c.boardType == EV then 0x1300_0048 else 0x0300_0050)
    else if c.consoleType == 3 || c.consoleType == 4 then (Bsp.OK, 0x1300_0048)
    else if c.consoleType == 6 then (Bsp.OK, 0x2300_0050)
    else (Bsp.OK, 0x0300_0050)
  }

  function ConsoleType(c: Config): (Bsp.Rval, int) {
    if c.size == 0 then (Bsp.BOARD_CONFIG_INVALID, -1)
    else if c.version > 3 then (Bsp.OK, c.consoleType as int)
    else if c.boardType == CT then (Bsp.OK, 3)
    else if c.boardType == EV then (Bsp.OK, 4)
    else if c.boardType == CF then (Bsp.OK, 2)
    else (Bsp.OK, -1)
  }

  // ---- what versions and console types must be, in the numerals of the registers, the EEPROM and the header

  ghost predicate IsRevision(latteRev: nat, top: nat) {
    && (top == 0x2110 <==> latteRev == 0x10)
    && (top == 0x2120 <==> latteRev == 0x18)
    && (top == 0x2210 <==> latteRev == 0x21)
    && (top == 0x2310 <==> latteRev == 0x30)
    && (top == 0x2410 <==> latteRev == 0x40)
    && (top == 0x2510 <==> latteRev == 0x50)
    && (top == 0x2610 <==> latteRev !in {0x10, 0x18, 0x21, 0x30, 0x40, 0x50})
  }

  ghost predicate IsVariant(boardType: Option<uint16>, variant: nat) {
    && (variant == 0x10 <==> boardType == Some(0x4556))
    && (variant == 0x11 <==> boardType == None)
    && (variant == 0x20 <==> boardType == Some(0x4354))
    && (variant == 0x21 <==> boardType == Some(0x4944))
    && (variant == 0x28 <==> boardType == Some(0x4346))
    && (variant == 0x29 <==> boardType == Some(0x4948))
    && (variant == 0 <==> boardType.Some? && boardType.value !in {0x4556, 0x4354, 0x4944, 0x4346, 0x4948})
  }

  lemma VariantForIs(boardType: Option<uint16>)
    ensures IsVariant(boardType, VariantFor(boardType))
  {
  }

  ghost predicate IsWood(b: Board, ret: Bsp.Rval, v: Version) {
    var rev := b.chipRev % 0x100;
    && (v == 0x0000_0001 <==> rev == 0x00)
    && (v == 0x1000_0001 <==> rev == 0x10)
    && (v == 0x1010_0001 <==> rev == 0x11 && b.cortadoProbe == 0 && !b.isCortado)
    && (v == 0x1010_000C <==> rev == 0x11 && b.cortadoProbe == 0 && b.isCortado && b.pvrVersion == 0x7001)
    && (v == 0x1010_0008 <==> rev == 0x11 && (b.cortadoProbe != 0 || (b.isCortado && b.pvrVersion != 0x7001)))
    && (v == 0x2000_0001 <==> rev == 0x20)
    && (v == 0x2010_0001 <==> rev == 0x21)
    && (v == 0 <==> rev !in {0x00, 0x10, 0x11, 0x20, 0x21})
    && ret == if v == 0 then 2048 else 0
  }

  /** ret and v are the answer for the board, given the board type from its configuration if that could be loaded. */
  ghost predicate IsVersion(b: Board, boardType: Option<uint16>, ret: Bsp.Rval, v: Version) {
    if b.chipRev % 0x100 == 0x21 && b.latteRev / 0x1_0000 == 0xCAFE then
      ret == 0 && IsRevision(b.latteRev % 0x100, v / 0x1_0000) && IsVariant(boardType, v % 0x1_0000)
    else IsWood(b, ret, v)
  }

  lemma ResolvedIsVersion(b: Board, boardType: Option<uint16>)
    ensures IsVersion(b, boardType, Resolved(b, boardType).0, Resolved(b, boardType).1)
  {
    if UsesBoardConfig(b) {
      LatteParts(LatteVersion(b, BOLLYWOOD_PROD_FOR_WII).1, VariantFor(boardType));
    }
  }

  lemma LatteParts(v: Version, variant: Version)
    requires variant < 0x1_0000 && RevisionPart(v) + variant < 0x1_0000_0000
    ensures (RevisionPart(v) + variant) / 0x1_0000 == v / 0x1_0000 && (RevisionPart(v) + variant) % 0x1_0000 == variant
  {
  }

  /** What the two console queries return, both with the same code. */
  ghost predicate IsConsole(size: nat, version: nat, boardType: nat, consoleType: nat, code: Bsp.Rval, mask: int,
                            kind: int) {
    if size == 0 then code == 262144 && mask == -1 && kind == -1
    else if version < 4 then
      && code == 0
      && (kind == 2 <==> boardType == 0x4346)
      && (kind == 3 <==> boardType == 0x4354)
      && (kind == 4 <==> boardType == 0x4556)
      && (kind == -1 <==> boardType !in {0x4346, 0x4354, 0x4556})
      && (mask == 0x1300_0048 <==> boardType in {0x4354, 0x4556})
      && (mask == 0x0300_0050 <==> boardType !in {0x4354, 0x4556})
    else
      && code == 0 && kind == consoleType
      && (mask == 0x1300_0048 <==> consoleType in {3, 4})
      && (mask == 0x2300_0050 <==> consoleType == 6)
      && (mask == 0x0300_0050 <==> consoleType !in {3, 4, 6})
  }

  lemma ConsoleIs(c: Config)
    ensures ConsoleMask(c).0 == ConsoleType(c).0
    ensures IsConsole(c.size, c.version, c.boardType, c.consoleType, ConsoleMask(c).0, ConsoleMask(c).1,
                      ConsoleType(c).1)
  {
  }

  // ---- loading the configuration

  /** The driver can be reached for a load: either it will be brought up now, or it is open from before. */
  ghost predicate Reachable(bc: Bc)
    reads bc, bc.drv
  {
    if bc.initialised then bc.drv.status == Open else bc.drv.line.present
  }

  /** The chip as a load finds it: bringing the driver up lowers the outputs first. */
  ghost function LoadChip(bc: Bc): Chip
    reads bc, bc.drv, bc.drv.line
  {
    if bc.initialised then bc.drv.line.chip else bc.drv.line.chip.Deselect()
  }

  /** The configuration that a load would deliver now, if any. */
  ghost function LoadResult(bc: Bc, beyond: nat -> uint8): Option<Config>
    reads bc, bc.drv, bc.drv.line
  {
    if !Reachable(bc) then None
    else
      var f := FetchEdges(LoadChip(bc)).1;
      if Good(f, beyond) then Some(ConfigOf(f)) else None
  }

  /** What a load would do to the chip now. */
  ghost function LoadEdges(bc: Bc): Chip
    reads bc, bc.drv, bc.drv.line
  {
    if Reachable(bc) then FetchEdges(LoadChip(bc)).0 else bc.drv.line.chip
  }

  function BoardTypeIn(config: Option<Config>): Option<uint16> {
    if config.Some? then Some(config.value.boardType) else None
  }

  /** On a chip at rest a load delivers what the EEPROM holds and changes nothing. */
  lemma LoadAtRest(bc: Bc, beyond: nat -> uint8)
    requires bc.drv.line.chip.AtRest()
    ensures LoadResult(bc, beyond)
         == if Reachable(bc) && Accepted(bc.drv.line.chip.mem, beyond) then Some(Loaded(bc.drv.line.chip.mem)) else None
    ensures var chip := bc.drv.line.chip;
      LoadEdges(bc) == if Reachable(bc) then chip.(log := chip.log + LoadOps(chip.mem)) else chip
  {
    FetchAtRest(bc.drv.line.chip);
    assert LoadChip(bc) == bc.drv.line.chip;
  }

  class Revision {
    const board: Board
    const bc: Bc
    const boardConfig: ConfigCell
    var hardwareVersion: Version

    constructor (board: Board, bc: Bc, boardConfig: ConfigCell)
      requires bc.drv.Valid()
      ensures this.board == board && this.bc == bc && this.boardConfig == boardConfig && hardwareVersion == UNKNOWN
    {
      this.board, this.bc, this.boardConfig, hardwareVersion := board, bc, boardConfig, UNKNOWN;
    }

    /** bspReadBoardConfig: on any failure the configuration is all zero, never a half-checked one. */
    method ReadBoardConfig(beyond: nat -> uint8) returns (ret: Bsp.Rval)
      requires bc.drv.Valid()
      modifies bc`initialised, bc.drv`status, bc.drv.line, bc.sum, boardConfig
      ensures bc.drv.Valid() && bc.drv.line.chip == old(LoadEdges(bc))
      ensures ret == Bsp.OK <==> old(LoadResult(bc, beyond)).Some?
      ensures boardConfig.config == if ret == Bsp.OK then old(LoadResult(bc, beyond)).value else ZERO_CONFIG
      ensures ret != Bsp.OK ==> ret == if !old(bc.initialised) && !bc.drv.line.present then Bsp.DEVICE_ERROR
                                       else Bsp.BOARD_CONFIG_INVALID
    {
      var err := bc.Init();
      if err != Ok {
        boardConfig.config := ZERO_CONFIG;
        return Bsp.DEVICE_ERROR;
      }
      err := bc.Get(boardConfig, beyond);
      if err != Ok {
        boardConfig.config := ZERO_CONFIG;
        return Bsp.BOARD_CONFIG_INVALID;
      }
      return Bsp.OK;
    }

    /** The variant is the board's own, or EV_Y if the configuration cannot be loaded. */
    method AddVariant(base: Version, beyond: nat -> uint8) returns (version: Version)
      requires bc.drv.Valid() && base < 0x8000_0000
      modifies bc`initialised, bc.drv`status, bc.drv.line, bc.sum, boardConfig
      ensures bc.drv.Valid() && bc.drv.line.chip == old(LoadEdges(bc))
      ensures version == base + VariantFor(BoardTypeIn(old(LoadResult(bc, beyond))))
      ensures IsVariant(BoardTypeIn(old(LoadResult(bc, beyond))), version - base)
      ensures boardConfig.config == ConfigAfter(old(LoadResult(bc, beyond)))
    {
      VariantForIs(BoardTypeIn(LoadResult(bc, beyond)));
      var ret := ReadBoardConfig(beyond);
      if ret != Bsp.OK {
        version := base + VARIANT_EV_Y;
      } else {
        var boardType := boardConfig.config.boardType;
        version := base + BoardVariant(boardType);
      }
    }

    /**
     bspMethodGetHardwareVersion: a cached version is returned as it is; otherwise the version is resolved from the
     registers and from what a load delivers at this moment, and cached if it is known.
     */
    method GetHardwareVersion(beyond: nat -> uint8) returns (ret: Bsp.Rval, version: Version)
      requires bc.drv.Valid()
      modifies this`hardwareVersion, bc`initialised, bc.drv`status, bc.drv.line, bc.sum, boardConfig
      ensures bc.drv.Valid()
      ensures old(hardwareVersion) != UNKNOWN ==>
        && (ret, version) == (Bsp.OK, old(hardwareVersion))
        && unchanged(this) && unchanged(boardConfig) && unchanged(bc.drv.line)
      ensures old(hardwareVersion) == UNKNOWN ==>
        && (ret, version) == Resolved(board, BoardTypeIn(old(LoadResult(bc, beyond))))
        && IsVersion(board, BoardTypeIn(old(LoadResult(bc, beyond))), ret, version)
      ensures old(hardwareVersion) == UNKNOWN && UsesBoardConfig(board) ==>
        boardConfig.config == ConfigAfter(old(LoadResult(bc, beyond))) && bc.drv.line.chip == old(LoadEdges(bc))
      ensures hardwareVersion == if ret == Bsp.OK then version else old(hardwareVersion)
    {
      version := hardwareVersion;
      if hardwareVersion != 0 {
        return Bsp.OK, version;
      }
      ResolvedIsVersion(board, BoardTypeIn(LoadResult(bc, beyond)));
      ret, version := Determine(beyond);
      if ret == Bsp.OK {
        hardwareVersion := version;
      }
    }

    /** The part of bspMethodGetHardwareVersion that an uncached call goes through. */
    method Determine(beyond: nat -> uint8) returns (ret: Bsp.Rval, version: Version)
      requires bc.drv.Valid()
      modifies bc`initialised, bc.drv`status, bc.drv.line, bc.sum, boardConfig
      ensures bc.drv.Valid()
      ensures (ret, version) == Resolved(board, BoardTypeIn(old(LoadResult(bc, beyond))))
      ensures UsesBoardConfig(board) ==>
        boardConfig.config == ConfigAfter(old(LoadResult(bc, beyond))) && bc.drv.line.chip == old(LoadEdges(bc))
    {
      ghost var boardType := BoardTypeIn(LoadResult(bc, beyond));
      ret, version := WoodVersion(board, true).0, WoodVersion(board, true).1;
      if ret != Bsp.OK {
        return;
      }
      if version == BOLLYWOOD_PROD_FOR_WII {
        ret, version := LatteVersion(board, version).0, LatteVersion(board, version).1;
        if ret != Bsp.OK {
          return Bsp.OK, version;
        }
        version := AddVariant(RevisionPart(version), beyond);
        assert (Bsp.OK, version) == Resolved(board, boardType);
      }
      return Bsp.OK, version;
    }
  }

  /** The configuration that is left behind. */
  function ConfigAfter(result: Option<Config>): Config {
    if result.Some? then result.value else ZERO_CONFIG
  }

  /**
   An uncached call on a board that goes by its configuration, and the two console queries after it, from any chip
   state. The version is the EV_Y variant exactly when no configuration was loaded, and then both queries report that.
   */
  method Identify(rev: Revision, beyond: nat -> uint8)
      returns (version: Version, maskCode: Bsp.Rval, mask: int, typeCode: Bsp.Rval, kind: int)
    requires rev.bc.drv.Valid() && rev.hardwareVersion == UNKNOWN
    requires rev.board.chipRev % 0x100 == 0x21 && rev.board.latteRev / 0x1_0000 == 0xCAFE
    modifies rev`hardwareVersion, rev.bc`initialised, rev.bc.drv`status, rev.bc.drv.line, rev.bc.sum, rev.boardConfig
    ensures rev.bc.drv.Valid() && rev.hardwareVersion == version && maskCode == typeCode
    ensures var loaded := old(LoadResult(rev.bc, beyond));
      && IsVersion(rev.board, BoardTypeIn(loaded), Bsp.OK, version)
      && (version % 0x1_0000 == 0x11 <==> loaded.None?)
      && (loaded.None? ==> IsConsole(0, 0, 0, 0, maskCode, mask, kind))
      && (loaded.Some? ==>
            var c := loaded.value;
            IsConsole(c.size, c.version, c.boardType, c.consoleType, maskCode, mask, kind))
  {
    assert UsesBoardConfig(rev.board);
    var ret;
    ret, version := rev.GetHardwareVersion(beyond);
    maskCode, mask := ConsoleMask(rev.boardConfig.config).0, ConsoleMask(rev.boardConfig.config).1;
    typeCode, kind := ConsoleType(rev.boardConfig.config).0, ConsoleType(rev.boardConfig.config).1;
    ConsoleIs(rev.boardConfig.config);
  }

  /** A load finds a configuration in a chip at rest. */
  ghost predicate Found(bc: Bc, beyond: nat -> uint8)
    reads bc, bc.drv, bc.drv.line
  {
    Reachable(bc) && Accepted(bc.drv.line.chip.mem, beyond)
  }

  /** The board type there. */
  ghost function TypeFound(bc: Bc, beyond: nat -> uint8): Option<uint16>
    reads bc, bc.drv, bc.drv.line
  {
    if Found(bc, beyond) then Some(ImageWord(bc.drv.line.chip.mem, 5)) else None
  }

  /**
   The same on a chip at rest, in the words of the EEPROM: words 2, 3, 5 and 17 of the image decide, and the queries
   fail on a configuration that was loaded exactly for a size below 6.
   */
  method IdentifyAtRest(rev: Revision, beyond: nat -> uint8)
      returns (version: Version, maskCode: Bsp.Rval, mask: int, typeCode: Bsp.Rval, kind: int)
    requires rev.bc.drv.Valid() && rev.hardwareVersion == UNKNOWN && rev.bc.drv.line.chip.AtRest()
    requires rev.board.chipRev % 0x100 == 0x21 && rev.board.latteRev / 0x1_0000 == 0xCAFE
    modifies rev`hardwareVersion, rev.bc`initialised, rev.bc.drv`status, rev.bc.drv.line, rev.bc.sum, rev.boardConfig
    ensures rev.bc.drv.Valid() && rev.hardwareVersion == version && maskCode == typeCode
    ensures IsVersion(rev.board, old(TypeFound(rev.bc, beyond)), Bsp.OK, version)
    ensures !old(Found(rev.bc, beyond)) ==> IsConsole(0, 0, 0, 0, maskCode, mask, kind)
    ensures old(Found(rev.bc, beyond)) ==>
      var mem := old(rev.bc.drv.line.chip.mem);
      && IsConsole(ImageWord(mem, 2), ImageWord(mem, 3), ImageWord(mem, 5), ImageWord(mem, 17), maskCode, mask, kind)
      && (maskCode == Bsp.OK <==> mem[0x1e] >= 6)
  {
    LoadedAtRest(rev.bc, beyond);
    version, maskCode, mask, typeCode, kind := Identify(rev, beyond);
  }

  lemma LoadedAtRest(bc: Bc, beyond: nat -> uint8)
    requires bc.drv.line.chip.AtRest()
    ensures BoardTypeIn(LoadResult(bc, beyond)) == TypeFound(bc, beyond)
    ensures LoadResult(bc, beyond).Some? <==> Found(bc, beyond)
    ensures Found(bc, beyond) ==>
      var c, mem := LoadResult(bc, beyond).value, bc.drv.line.chip.mem;
      && c.size == ImageWord(mem, 2) && c.version == ImageWord(mem, 3)
      && c.boardType == ImageWord(mem, 5) && c.consoleType == ImageWord(mem, 17)
  {
    LoadAtRest(bc, beyond);
    if Found(bc, beyond) {
      LoadedFields(bc.drv.line.chip.mem);
    }
  }

  // ---- the cache

  /** A call on a cached version, as its callers see it. */
  method AskCached(rev: Revision, beyond: nat -> uint8) returns (version: Version)
    requires rev.bc.drv.Valid() && rev.hardwareVersion != UNKNOWN
    modifies rev`hardwareVersion, rev.bc`initialised, rev.bc.drv`status, rev.bc.drv.line, rev.bc.sum, rev.boardConfig
    ensures rev.bc.drv.Valid() && version == rev.hardwareVersion == old(rev.hardwareVersion)
  {
    var ret;
    ret, version := rev.GetHardwareVersion(beyond);
  }

  /**
   Every later call returns what the first successful one returned, whatever is done to the EEPROM and its driver
   through the EE entity in between.
   */
  method AskAgain(rev: Revision, ee: Ee, events: seq<EeOp>, cell: ConfigCell, beyond: nat -> uint8)
      returns (first: Version, later: seq<Version>)
    requires ee.Valid() && ee.bc == rev.bc && WoodVersion(rev.board, true).0 == Bsp.OK
    modifies rev`hardwareVersion, rev.bc`initialised, rev.bc.drv`status, rev.bc.drv.line, rev.bc.sum
    modifies rev.boardConfig, cell
    ensures |later| == |events| && forall i :: 0 <= i < |later| ==> later[i] == first
    ensures first != UNKNOWN && rev.hardwareVersion == first
  {
    first := AskFirst(rev, beyond);
    later := [];
    var i := 0;
    while i < |events|
      invariant 0 <= i <= |events| && |later| == i && forall k :: 0 <= k < i ==> later[k] == first
      invariant ee.Valid() && rev.hardwareVersion == first != UNKNOWN
    {
      PerformOp(ee, events[i], cell, beyond);
      var version := AskCached(rev, beyond);
      later := later + [version];
      i := i + 1;
    }
  }

  method AskFirst(rev: Revision, beyond: nat -> uint8) returns (version: Version)
    requires rev.bc.drv.Valid() && WoodVersion(rev.board, true).0 == Bsp.OK
    modifies rev`hardwareVersion, rev.bc`initialised, rev.bc.drv`status, rev.bc.drv.line, rev.bc.sum, rev.boardConfig
    ensures rev.bc.drv.Valid() && rev.hardwareVersion == version != UNKNOWN
  {
    KnownStaysKnown(rev.board, BoardTypeIn(LoadResult(rev.bc, beyond)));
    var ret;
    ret, version := rev.GetHardwareVersion(beyond);
  }

  lemma KnownStaysKnown(b: Board, boardType: Option<uint16>)
    requires WoodVersion(b, true).0 == Bsp.OK
    ensures Resolved(b, boardType).0 == Bsp.OK && Resolved(b, boardType).1 != UNKNOWN
  {
  }

  // ---- what the versions mean

  predicate InOneFamily(v: Version) {
    && (IsLatte(v) || IsBollywood(v) || IsHollywood(v) || IsHollywoodEs1(v))
    && !(IsLatte(v) && (IsBollywood(v) || IsHollywood(v) || IsHollywoodEs1(v)))
    && !(IsBollywood(v) && (IsHollywood(v) || IsHollywoodEs1(v)))
    && !(IsHollywood(v) && IsHollywoodEs1(v))
  }

  /** A version is resolved exactly when the chip revision is known, and it lies in exactly one of the families. */
  lemma ExactlyOneFamily(b: Board, boardType: Option<uint16>)
    ensures var (ret, v) := Resolved(b, boardType);
      && (ret == Bsp.OK <==> b.chipRev % 0x100 in {0x00, 0x10, 0x11, 0x20, 0x21})
      && (ret == Bsp.OK ==> v != UNKNOWN && InOneFamily(v))
      && (ret == Bsp.OK ==> (IsLatte(v) <==> UsesBoardConfig(b)))
      && (ret == Bsp.OK ==> (IsHollywoodEs1(v) <==> b.chipRev % 0x100 == 0x00))
      && (ret == Bsp.OK ==> (IsHollywood(v) <==> b.chipRev % 0x100 in {0x10, 0x11}))
      && (ret != Bsp.OK ==> v == UNKNOWN)
  {
  }

  /** The top half is the Latte revision, the bottom half the variant; EV_Y stands for a missing configuration. */
  lemma LatteFamily(b: Board, boardType: Option<uint16>)
    requires UsesBoardConfig(b)
    ensures var (ret, v) := Resolved(b, boardType);
      && ret == Bsp.OK && 0x21 <= v / 0x100_0000 <= 0x26
      && VariantOf(v) == VariantFor(boardType)
      && (VariantOf(v) == VARIANT_EV_Y <==> boardType.None?)
  {
  }

  /** The Latte members of BSP_HARDWARE_VERSION. */
  const NAMED_LATTE: set<Version> := {
    0x2110_0020, 0x2110_0010, 0x2120_0020, 0x2120_0010, 0x2210_0020, 0x2210_0010,
    0x2310_0028, 0x2310_0020, 0x2310_0010, 0x2410_0028, 0x2410_0020, 0x2410_0010,
    0x2510_0028, 0x2510_0020, 0x2510_0010, 0x2510_0011, 0x2610_0028, 0x2610_0020, 0x2610_0010, 0x2610_0011}

  /**
   Which resolved Latte versions the header has a name for: all those of development and evaluation boards, retail
   boards from A3x on, and boards without a configuration from A5x on.
   */
  lemma NamedLatteVersions(b: Board, boardType: Option<uint16>)
    requires UsesBoardConfig(b)
    ensures var rev := b.latteRev % 0x100;
      Resolved(b, boardType).1 in NAMED_LATTE
      <==> || boardType == Some(CT) || boardType == Some(EV)
           || (boardType == Some(CF) && rev !in {0x10, 0x18, 0x21})
           || (boardType == None && rev !in {0x10, 0x18, 0x21, 0x30, 0x40})
  {
  }

  /** Mask and type are computed apart, but agree on which consoles are development kits and which are type 6. */
  lemma MaskMatchesType(c: Config)
    ensures ConsoleMask(c).0 == ConsoleType(c).0
    ensures ConsoleMask(c).1 == 0x1300_0048 <==> ConsoleType(c).1 in {3, 4}
    ensures ConsoleMask(c).1 == 0x2300_0050 <==> ConsoleType(c).1 == 6
  {
  }

  /**
   A configuration that could not be loaded makes both console queries report it; one that was loaded does so exactly
   when its image is too short to hold its own size word.
   */
  lemma ConsoleKnown(mem: Memory, beyond: nat -> uint8)
    ensures ConsoleMask(ZERO_CONFIG).0 == Bsp.BOARD_CONFIG_INVALID == ConsoleType(ZERO_CONFIG).0
    ensures Accepted(mem, beyond) ==>
      && (ConsoleMask(Loaded(mem)).0 == Bsp.OK <==> mem[SIZE_WORD] >= 6)
      && (ConsoleType(Loaded(mem)).0 == Bsp.OK <==> mem[SIZE_WORD] >= 6)
  {
  }

  /** The board type in an EEPROM image that would be accepted. */
  function StoredBoardType(mem: Memory, beyond: nat -> uint8): Option<uint16> {
    if Accepted(mem, beyond) then Some(Loaded(mem).boardType) else None
  }

  /**
   From EEPROM bits to console identity: on a board that goes by its configuration, changing one word, the number of
   image words staying as it is, turns the version into the EV_Y variant of the same Latte revision exactly if the
   word lies in the image, and changes nothing otherwise.
   */
  lemma CorruptionShowsInVersion(b: Board, mem: Memory, beyond: nat -> uint8, a: uint8, w: uint16)
    requires UsesBoardConfig(b) && Accepted(mem, beyond)
    requires w != mem[a] && (a == SIZE_WORD ==> w / 2 == mem[a] / 2)
    ensures Shows(VersionFor(b, mem, beyond), VersionFor(b, mem[a := w], beyond), BASE <= a < BASE + ImageWords(mem))
  {
    SingleWordCorruption(mem, beyond, a, w);
    LatteFamily(b, StoredBoardType(mem, beyond));
    LatteFamily(b, None);
  }

  function VersionFor(b: Board, mem: Memory, beyond: nat -> uint8): Version {
    Resolved(b, StoredBoardType(mem, beyond)).1
  }

  /** The versions before and after a change: EV_Y of the same revision if it hits, the same version if not. */
  predicate Shows(before: Version, after: Version, hit: bool) {
    && VariantOf(before) != VARIANT_EV_Y && RevisionPart(after) == RevisionPart(before)
    && (VariantOf(after) == VARIANT_EV_Y <==> hit)
    && (!hit ==> after == before)
  }

  /**
   The same from attribute writes to the answer, down to the pins: an enable and an access write that changes one word,
   and an uncached call afterwards, if the write's cycle ends within the polling.
   */
  method CorruptAndAsk(rev: Revision, ee: Ee, a: uint8, w: uint16, beyond: nat -> uint8) returns (version: Version)
    requires ee.Valid() && ee.bc == rev.bc && ee.drv.status == Open && ee.drv.line.chip.AtRest()
    requires ee.drv.line.chip.delay(ee.drv.line.chip.cycles) <= POLLS
    requires UsesBoardConfig(rev.board) && rev.hardwareVersion == UNKNOWN
    requires var mem := ee.drv.line.chip.mem;
      Accepted(mem, beyond) && w != mem[a] && (a == SIZE_WORD ==> w / 2 == mem[a] / 2)
    modifies rev`hardwareVersion, rev.bc`initialised, rev.bc.drv`status, rev.bc.drv.line, rev.bc.sum, rev.boardConfig
    ensures var mem := old(ee.drv.line.chip.mem);
      Shows(VersionFor(rev.board, mem, beyond), version, BASE <= a < BASE + ImageWords(mem))
  {
    CorruptionShowsInVersion(rev.board, ee.drv.line.chip.mem, beyond, a, w);
    EnableAndWrite(ee, a, w);
    var ret;
    ret, version := AskAtRest(rev, beyond);
  }

  method EnableAndWrite(ee: Ee, a: uint8, w: uint16)
    requires ee.Valid() && ee.drv.status == Open && ee.drv.line.chip.AtRest()
    requires ee.drv.line.chip.delay(ee.drv.line.chip.cycles) <= POLLS
    modifies ee.drv.line
    ensures ee.Valid() && ee.drv.line.chip.AtRest() && ee.drv.line.chip.mem == old(ee.drv.line.chip.mem)[a := w]
  {
    var ret := ee.ControlWrite(1);
    ret := ee.AccessWrite(a, w);
  }

  /** An uncached call on any board with its chip at rest: registers and EEPROM words decide. */
  method AskAtRest(rev: Revision, beyond: nat -> uint8) returns (ret: Bsp.Rval, version: Version)
    requires rev.bc.drv.Valid() && rev.bc.drv.line.chip.AtRest() && rev.hardwareVersion == UNKNOWN
    modifies rev`hardwareVersion, rev.bc`initialised, rev.bc.drv`status, rev.bc.drv.line, rev.bc.sum, rev.boardConfig
    ensures IsVersion(rev.board, old(TypeFound(rev.bc, beyond)), ret, version)
    ensures old(Reachable(rev.bc)) ==> version == VersionFor(rev.board, old(rev.bc.drv.line.chip.mem), beyond)
  {
    LoadAtRest(rev.bc, beyond);
    LoadedAtRest(rev.bc, beyond);
    ret, version := rev.GetHardwareVersion(beyond);
  }
}

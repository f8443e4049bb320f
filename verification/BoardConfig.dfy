/** The board configuration (bc.c): a checksummed image of variable size that starts at word 0x1c of the EEPROM. */
module BoardConfig {
  import opened Machine
  import opened Bits
  import opened Seeprom
  import opened EepromEdges
  import opened EepromDriver
  import opened Crc32

  const BASE := 0x1c        // address of the first image word
  const SIZE_WORD := 0x1e   // address of the image's size in bytes
  const DATA_WORDS := 0x24  // words in the local buffer
  const CONFIG_WORDS := 0x14

  /** struct BC_CONFIG */
  datatype Config = Config(
    crc: uint32, size: uint16, version: uint16, author: uint16, boardType: uint16, boardRevision: uint16,
    bootSource: uint16, ddr3Size: uint16, ddr3Speed: uint16, ppcClockMultiplier: uint16, iopClockMultiplier: uint16,
    video1080p: uint16, ddr3Vendor: uint16, movPassiveReset: uint16, sysPllSpeed: uint16, sataDevice: uint16,
    consoleType: uint16, devicePresence: uint32)

  const ZERO_CONFIG := Config(0, 0, 0, 0, 0, 0, 0, 0, 0, 0, 0, 0, 0, 0, 0, 0, 0, 0)

  /** The struct as it lies in big-endian memory, 16 bits at a time. */
  function ConfigWords(c: Config): (ws: seq<uint16>)
    ensures |ws| == CONFIG_WORDS
  {
    [c.crc / 0x1_0000, c.crc % 0x1_0000, c.size, c.version, c.author, c.boardType, c.boardRevision, c.bootSource,
     c.ddr3Size, c.ddr3Speed, c.ppcClockMultiplier, c.iopClockMultiplier, c.video1080p, c.ddr3Vendor,
     c.movPassiveReset, c.sysPllSpeed, c.sataDevice, c.consoleType,
     c.devicePresence / 0x1_0000, c.devicePresence % 0x1_0000]
  }

  /** memcpy(config, data, 0x28): the one struct that lies in memory as the first 0x14 words. */
  function ConfigFrom(ws: seq<uint16>): (c: Config)
    requires |ws| >= CONFIG_WORDS
  {
    Config((ws[0] as nat) * 0x1_0000 + ws[1], ws[2], ws[3], ws[4], ws[5], ws[6], ws[7], ws[8], ws[9], ws[10], ws[11],
           ws[12], ws[13], ws[14], ws[15], ws[16], ws[17], (ws[18] as nat) * 0x1_0000 + ws[19])
  }

  /** The local buffer. */
  type Buffer = ws: seq<uint16> | |ws| == DATA_WORDS witness seq(DATA_WORDS, _ => 0)

  function Padded(ws: seq<uint16>): (b: Buffer)
    requires |ws| <= DATA_WORDS
    ensures forall i :: 0 <= i < DATA_WORDS ==> b[i] == if i < |ws| then ws[i] else 0
  {
    ws + seq(DATA_WORDS - |ws|, _ => 0)
  }

  lemma PaddedOneMore(ws: seq<uint16>, w: uint16)
    requires |ws| < DATA_WORDS
    ensures Padded(ws)[|ws| := w] == Padded(ws + [w])
  {
  }

  /** The first n image words of an EEPROM, zero-padded to the size of the buffer. */
  function Image(mem: Memory, n: nat): (img: Buffer)
    requires n <= DATA_WORDS
    ensures forall i :: 0 <= i < DATA_WORDS ==> img[i] == if i < n then mem[BASE + i] else 0
  {
    Padded(mem[BASE..BASE + n])
  }

  /** Byte j of the big-endian buffer; past its end lies whatever memory holds there. */
  function ByteAt(img: Buffer, beyond: nat -> uint8, j: nat): uint8 {
    if j >= 2 * DATA_WORDS then beyond(j - 2 * DATA_WORDS)
    else if j % 2 == 0 then img[j / 2] / 0x100
    else img[j / 2] % 0x100
  }

  /** 2n - 2 as a size_t: an empty image wraps around. */
  function CoveredSize(n: nat): nat {
    if n == 0 then 0xFFFF_FFFE else 2 * n - 2
  }

  /** The bytes that the checksum covers: they start after the stored checksum and end two bytes past the image. */
  function Covered(img: Buffer, n: nat, beyond: nat -> uint8): (msg: seq<uint8>)
    ensures |msg| == CoveredSize(n)
    ensures forall k :: 0 <= k < |msg| ==> msg[k] == ByteAt(img, beyond, 4 + k)
  {
    seq(CoveredSize(n), k requires 0 <= k < CoveredSize(n) => ByteAt(img, beyond, 4 + k))
  }

  /** (data[0] << 16) | data[1], as bits */
  function StoredCrc(img: Buffer): Register {
    LowBits(img[1], 16) + LowBits(img[0], 16)
  }

  function ImageWords(mem: Memory): nat {
    mem[SIZE_WORD] / 2
  }

  /** What a load has read: the size in words, and the buffer, which stays zero if that is too large. */
  datatype Fetch = Fetch(n: nat, img: Buffer)

  /** The buffer carries the checksum of its covered bytes. */
  predicate Good(f: Fetch, beyond: nat -> uint8) {
    f.n <= DATA_WORDS && Crc(Covered(f.img, f.n, beyond)) == StoredCrc(f.img)
  }

  function Defaulted(c: Config): Config {
    if c.version == 0 then c.(ddr3Vendor := 0x5521) else c
  }

  /** The configuration that a load leaves behind, accepted or not. */
  function ConfigOf(f: Fetch): Config {
    Defaulted(ConfigFrom(f.img))
  }

  /** What a load reads from an EEPROM that answers properly. */
  function FetchOf(mem: Memory): Fetch {
    var n := ImageWords(mem);
    Fetch(n, if n <= DATA_WORDS then Image(mem, n) else Padded([]))
  }

  predicate Accepted(mem: Memory, beyond: nat -> uint8) {
    Good(FetchOf(mem), beyond)
  }

  function Loaded(mem: Memory): Config
    requires ImageWords(mem) <= DATA_WORDS
  {
    ConfigOf(FetchOf(mem))
  }

  // ---- the edges of a load, from any chip state

  /** n words read one after the other, from address a on. */
  function ReadWords(c: Chip, a: nat, n: nat): (r: (Chip, seq<uint16>))
    requires a + n <= 0x100
    ensures |r.1| == n
    decreases n, c
  {
    if n == 0 then (c, [])
    else
      var (c', ws) := ReadWords(c, a, n - 1);
      var (c'', w) := ReadEdges(c', a + n - 1);
      (c'', ws + [w])
  }

  function FetchEdges(c: Chip): (Chip, Fetch) {
    var (c', size) := ReadEdges(c, SIZE_WORD);
    if size / 2 > DATA_WORDS then (c', Fetch(size / 2, Padded([])))
    else
      var (c'', ws) := ReadWords(c', BASE, size / 2);
      (c'', Fetch(size / 2, Padded(ws)))
  }

  /** READ commands for n words, from address a on. */
  function ReadOps(a: nat, n: nat): (ops: seq<Op>)
    requires a + n <= 0x100
    ensures |ops| == n && forall i :: 0 <= i < n ==> ops[i].ReadOp?
  {
    if n == 0 then [] else ReadOps(a, n - 1) + [ReadOp(a + n - 1)]
  }

  /** The commands of a load: the size in bytes, then the image unless it is too large. */
  function LoadOps(mem: Memory): (ops: seq<Op>)
    ensures forall i :: 0 <= i < |ops| ==> ops[i].ReadOp?
  {
    [ReadOp(0x1e)] + if mem[0x1e] / 2 <= 0x24 then ReadOps(0x1c, mem[0x1e] / 2) else []
  }

  lemma ReadWordsOneMore(c: Chip, a: nat, n: nat, c': Chip, ws: seq<uint16>, c'': Chip, w: uint16)
    requires a + n < 0x100 && ReadWords(c, a, n) == (c', ws) && ReadEdges(c', a + n) == (c'', w)
    ensures ReadWords(c, a, n + 1) == (c'', ws + [w])
  {
  }

  lemma FetchParts(c: Chip, c': Chip, size: uint16, c'': Chip, ws: seq<uint16>)
    requires ReadEdges(c, SIZE_WORD) == (c', size)
    requires size / 2 <= DATA_WORDS ==> ReadWords(c', BASE, size / 2) == (c'', ws)
    ensures size / 2 <= DATA_WORDS ==> FetchEdges(c) == (c'', Fetch(size / 2, Padded(ws)))
    ensures size / 2 > DATA_WORDS ==> FetchEdges(c) == (c', Fetch(size / 2, Padded([])))
  {
  }

  lemma {:induction false} ReadWordsAtRest(c: Chip, a: nat, n: nat)
    requires c.AtRest() && a + n <= 0x100
    ensures ReadWords(c, a, n) == (c.(log := c.log + ReadOps(a, n)), c.mem[a..a + n])
    decreases n
  {
    if n == 0 {
      assert c.mem[a..a] == [] && c.log + [] == c.log;
    } else {
      ReadWordsAtRest(c, a, n - 1);
      OneMoreAtRest(c, a, n - 1, c.(log := c.log + ReadOps(a, n - 1)));
    }
  }

  lemma OneMoreAtRest(c: Chip, a: nat, n: nat, c': Chip)
    requires c.AtRest() && a + n < 0x100 && c' == c.(log := c.log + ReadOps(a, n))
    requires ReadWords(c, a, n) == (c', c.mem[a..a + n])
    ensures ReadWords(c, a, n + 1) == (c.(log := c.log + ReadOps(a, n + 1)), c.mem[a..a + n + 1])
  {
    var addr: uint8 := a + n;
    ReadEdgesRead(c', addr);
    var last := c'.(log := c'.log + [ReadOp(addr)]);
    ReadWordsOneMore(c, a, n, c', c.mem[a..a + n], last, c.mem[addr]);
    assert c.log + ReadOps(a, n) + [ReadOp(addr)] == c.log + ReadOps(a, n + 1);
    assert c.mem[a..a + n + 1] == c.mem[a..a + n] + [c.mem[addr]];
  }

  /** On a chip at rest a load reads the image, word by word, and changes nothing. */
  lemma FetchAtRest(c: Chip)
    requires c.AtRest()
    ensures FetchEdges(c) == (c.(log := c.log + LoadOps(c.mem)), FetchOf(c.mem))
  {
    var size := c.mem[SIZE_WORD];
    var c' := c.(log := c.log + [ReadOp(SIZE_WORD)]);
    ReadEdgesRead(c, SIZE_WORD);
    if size / 2 <= DATA_WORDS {
      var last := ImageAtRest(c, c', SIZE_WORD, size / 2);
      FetchParts(c, c', size, last, c.mem[BASE..BASE + size / 2]);
    } else {
      FetchParts(c, c', size, c', []);
      assert [ReadOp(SIZE_WORD)] + [] == [ReadOp(SIZE_WORD)];
    }
  }

  lemma ImageAtRest(c: Chip, c': Chip, a: uint8, n: nat) returns (last: Chip)
    requires c.AtRest() && n <= DATA_WORDS && c' == c.(log := c.log + [ReadOp(a)])
    ensures last == c.(log := c.log + ([ReadOp(a)] + ReadOps(BASE, n)))
    ensures ReadWords(c', BASE, n) == (last, c.mem[BASE..BASE + n])
  {
    var ops := ReadOps(BASE, n);
    ReadWordsAtRest(c', BASE, n);
    assert c'.log + ops == c.log + ([ReadOp(a)] + ops);
    last := c'.(log := c'.log + ops);
  }

  class ConfigCell {
    var config: Config

    constructor (config: Config)
      ensures this.config == config
    {
      this.config := config;
    }
  }

  class Bc {
    const drv: Driver
    const sum: Checksum
    var initialised: bool

    constructor (drv: Driver, sum: Checksum)
      ensures this.drv == drv && this.sum == sum && !initialised
    {
      this.drv, this.sum, initialised := drv, sum, false;
    }

    /** Initialises and opens the driver once; from then on it claims success without looking at the driver. */
    method Init() returns (err: IosError)
      requires drv.Valid()
      modifies this`initialised, drv`status, drv.line
      ensures drv.Valid()
      ensures old(initialised) ==> err == Ok && initialised && unchanged(drv) && unchanged(drv.line)
      ensures !old(initialised) ==> err == (if drv.line.present then Ok else Exists) && initialised == drv.line.present
      ensures !old(initialised) && err == Ok ==> drv.status == Open && drv.line.chip == old(drv.line.chip).Deselect()
      ensures err != Ok ==> drv.line.chip == old(drv.line.chip)
    {
      if !initialised {
        err := drv.Init(0);
        if err == Ok {
          err := drv.OpenDevice(0);
          if err == Ok {
            initialised := true;
          }
        }
        return;
      }
      return Ok;
    }

    /**
     Loads the image. The configuration is written before the checksum is looked at, so a rejected image leaves its
     mark; only an image that is too large, a null destination or a closed driver leave the destination alone.
     */
    method Get(cell: ConfigCell?, beyond: nat -> uint8) returns (err: IosError)
      requires drv.Valid()
      modifies drv.line, sum, if cell == null then {} else {cell}
      ensures drv.Valid()
      ensures cell == null ==> err == Invalid && unchanged(drv.line)
      ensures cell != null && drv.status != Open ==> err == NotReady && unchanged(drv.line) && unchanged(cell)
      ensures cell != null && drv.status == Open ==>
        var (chip, f) := FetchEdges(old(drv.line.chip));
        && drv.line.chip == chip
        && err == (if Good(f, beyond) then Ok else Invalid)
        && cell.config == if f.n <= DATA_WORDS then ConfigOf(f) else old(cell.config)
    {
      if cell == null {
        return Invalid;
      }
      var f;
      err, f := FetchImage();
      if err != Ok {
        return;
      }
      if f.n > DATA_WORDS {
        return Invalid;
      }
      err := StoreAndCheck(cell, f.img, f.n, beyond);
    }

    /** The reads of a load: the size word, then the image unless it is too large for the buffer. */
    method FetchImage() returns (err: IosError, f: Fetch)
      requires drv.Valid()
      modifies drv.line
      ensures drv.Valid() && err == if drv.status == Open then Ok else NotReady
      ensures err != Ok ==> unchanged(drv.line)
      ensures err == Ok ==> (drv.line.chip, f) == FetchEdges(old(drv.line.chip))
    {
      ghost var chip := drv.line.chip;
      f := Fetch(0, Padded([]));
      var word;
      err, word := drv.ReadWord(0, SIZE_WORD);
      if err != Ok {
        return;
      }
      ghost var chip' := drv.line.chip;
      var n := word.value / 2;
      if n > DATA_WORDS {
        FetchParts(chip, chip', word.value, chip', []);
        return Ok, Fetch(n, Padded([]));
      }
      var data;
      ghost var ws;
      err, data, ws := ReadImage(n);
      FetchParts(chip, chip', word.value, drv.line.chip, ws);
      return err, Fetch(n, data[..]);
    }

    /** The rest of the load: copy, default the memory vendor of a version 0 image, compare the checksum. */
    method StoreAndCheck(cell: ConfigCell, data: Buffer, n: nat, beyond: nat -> uint8) returns (err: IosError)
      requires n <= DATA_WORDS
      modifies cell, sum
      ensures cell.config == ConfigOf(Fetch(n, data))
      ensures err == if Good(Fetch(n, data), beyond) then Ok else Invalid
    {
      cell.config := ConfigFrom(data);
      if cell.config.version == 0 {
        cell.config := cell.config.(ddr3Vendor := 0x5521);
      }
      sum.Reset();
      var crc := sum.Input(Covered(data, n, beyond));
      if crc != StoredCrc(data) {
        return Invalid;
      }
      return Ok;
    }

    /** The loop that fills the zeroed buffer with n words. */
    method ReadImage(n: nat) returns (err: IosError, data: array<uint16>, ghost ws: seq<uint16>)
      requires drv.Valid() && drv.status == Open && n <= DATA_WORDS
      modifies drv.line
      ensures drv.Valid() && err == Ok && fresh(data) && data.Length == DATA_WORDS
      ensures ReadWords(old(drv.line.chip), BASE, n) == (drv.line.chip, ws) && data[..] == Padded(ws)
    {
      ghost var chip := drv.line.chip;
      ws := [];
      data := new uint16[DATA_WORDS](_ => 0);
      var i := 0;
      while i < n
        invariant 0 <= i <= n && drv.Valid() && |ws| == i
        invariant ReadWords(chip, BASE, i) == (drv.line.chip, ws)
        invariant data[..] == Padded(ws)
      {
        var word;
        err, word := ReadNext(chip, i, ws);
        if err != Ok {
          assert false;
          return;
        }
        PaddedOneMore(ws, word);
        data[i] := word;
        ws := ws + [word];
        i := i + 1;
      }
      return Ok, data, ws;
    }

    method ReadNext(ghost chip: Chip, i: nat, ghost ws: seq<uint16>) returns (err: IosError, word: uint16)
      requires drv.Valid() && drv.status == Open && i < DATA_WORDS && ReadWords(chip, BASE, i) == (drv.line.chip, ws)
      modifies drv.line
      ensures drv.Valid() && err == Ok && ReadWords(chip, BASE, i + 1) == (drv.line.chip, ws + [word])
    {
      var data;
      err, data := drv.ReadWord(0, i + BASE);
      word := data.value;
      ReadWordsOneMore(chip, BASE, i, old(drv.line.chip), ws, drv.line.chip, word);
    }
  }

  // ---- what a loaded configuration is

  /** Word i of the image in an EEPROM; past the end of the image the buffer is zero. */
  ghost function ImageWord(mem: Memory, i: nat): uint16
    requires i < 0x24
  {
    if i < mem[0x1e] / 2 then mem[0x1c + i] else 0
  }

  /** Where each field comes from. */
  lemma FieldsOf(f: Fetch)
    ensures var c, w := ConfigOf(f), f.img;
      && c.crc == w[0] as nat * 0x1_0000 + w[1] && c.size == w[2] && c.version == w[3] && c.author == w[4]
      && c.boardType == w[5] && c.boardRevision == w[6] && c.bootSource == w[7] && c.ddr3Size == w[8]
      && c.ddr3Speed == w[9] && c.ppcClockMultiplier == w[10] && c.iopClockMultiplier == w[11]
      && c.video1080p == w[12] && c.ddr3Vendor == (if w[3] == 0 then 0x5521 else w[13])
      && c.movPassiveReset == w[14] && c.sysPllSpeed == w[15] && c.sataDevice == w[16] && c.consoleType == w[17]
      && c.devicePresence == w[18] as nat * 0x1_0000 + w[19]
  {
  }

  /** The fields that tell which console this is, in the words of the EEPROM. */
  lemma LoadedFields(mem: Memory)
    requires mem[0x1e] / 2 <= 0x24
    ensures ImageWords(mem) == mem[0x1e] / 2 <= DATA_WORDS
    ensures var c := Loaded(mem);
      && c.size == ImageWord(mem, 2) && c.version == ImageWord(mem, 3)
      && c.boardType == ImageWord(mem, 5) && c.consoleType == ImageWord(mem, 17)
      && forall i :: 0 <= i < 0x24 ==> FetchOf(mem).img[i] == ImageWord(mem, i)
  {
    FieldsOf(FetchOf(mem));
  }

  lemma ConfigRoundTrip(c: Config, ws: seq<uint16>)
    requires |ws| >= CONFIG_WORDS
    ensures ConfigFrom(ConfigWords(c)) == c && ConfigWords(ConfigFrom(ws)) == ws[..CONFIG_WORDS]
  {
  }

  /** In memory, the loaded configuration is the head of the zero-padded image, but for the default vendor. */
  lemma LoadedWords(mem: Memory)
    requires ImageWords(mem) <= DATA_WORDS
    ensures var img := Image(mem, ImageWords(mem));
      ConfigWords(Loaded(mem)) == (if img[3] == 0 then img[13 := 0x5521] else img)[..CONFIG_WORDS]
  {
    var img := Image(mem, ImageWords(mem));
    var img' := if img[3] == 0 then img[13 := 0x5521] else img;
    assert Loaded(mem) == ConfigFrom(img');
    ConfigRoundTrip(Loaded(mem), img');
  }

  /** Big-endian bytes of words. */
  function BytesOf(ws: seq<uint16>): (bs: seq<uint8>)
    ensures |bs| == 2 * |ws|
    ensures forall k :: 0 <= k < |bs| ==> bs[k] == if k % 2 == 0 then ws[k / 2] / 0x100 else ws[k / 2] % 0x100
  {
    if ws == [] then [] else [ws[0] / 0x100, ws[0] % 0x100] + BytesOf(ws[1..])
  }

  /** The two bytes that the checksum covers past the image: padding, or what follows the buffer of a full one. */
  function Overrun(n: nat, beyond: nat -> uint8): seq<uint8> {
    if n < DATA_WORDS then [0, 0] else [beyond(0), beyond(1)]
  }

  /**
   The checksum runs over the words from the size word to the end of the image, and then over two bytes more. An image
   of one word has nothing checked.
   */
  lemma CoveredBytes(mem: Memory, beyond: nat -> uint8)
    requires 1 <= ImageWords(mem) <= DATA_WORDS
    ensures var n := ImageWords(mem);
      Covered(Image(mem, n), n, beyond)
      == if n == 1 then [] else BytesOf(mem[SIZE_WORD..BASE + n]) + Overrun(n, beyond)
  {
  }

  /** Two words that hold a checksum, the high half first. */
  ghost predicate Holds(high: uint16, low: uint16, crc: Register) {
    LowBits((high as nat) * 0x1_0000 + low, 32) == crc
  }

  lemma TwoWords(high: uint16, low: uint16)
    ensures LowBits((high as nat) * 0x1_0000 + low, 32) == LowBits(low, 16) + LowBits(high, 16)
  {
    Pow2Values();
    LowBitsConcat(low, high, 16, 16);
    assert (high as nat) * 0x1_0000 + low == low + Pow2(16) * high;
  }

  /**
   Acceptance, in the words of the EEPROM alone: the words at 0x1c and 0x1d are the checksum of the words from 0x1e to
   the end of the image, and of two bytes more, if there are two words at least. An empty image has the checksum of
   almost all of memory compared with zero, one word is accepted if it is zero, and more than 0x24 words never are.
   */
  lemma AcceptedExactly(mem: Memory, beyond: nat -> uint8)
    ensures var n := mem[0x1e] / 2;
      && (n > 0x24 ==> !Accepted(mem, beyond))
      && (2 <= n <= 0x24 ==>
            var stray := if n == 0x24 then [beyond(0), beyond(1)] else [0, 0];
            Accepted(mem, beyond) <==> Holds(mem[0x1c], mem[0x1d], Crc(BytesOf(mem[0x1e..0x1c + n]) + stray)))
      && (n == 1 ==> (Accepted(mem, beyond) <==> mem[0x1c] == 0))
      && (n == 0 ==>
            (Accepted(mem, beyond) <==>
               Holds(0, 0, Crc(seq(0xFFFF_FFFE, k requires 0 <= k => if k < 68 then 0 else beyond(k - 68))))))
  {
    var n := mem[0x1e] / 2;
    if n == 1 {
      OneWordImage(mem, beyond);
    } else if n == 0 {
      TwoWords(0, 0);
      EmptyCovered(Image(mem, 0), beyond);
    } else if n <= 0x24 {
      ManyAccepted(mem, beyond, n);
    }
  }

  lemma ManyAccepted(mem: Memory, beyond: nat -> uint8, n: nat)
    requires n == mem[0x1e] / 2 && 2 <= n <= 0x24
    ensures Accepted(mem, beyond)
       <==> Holds(mem[0x1c], mem[0x1d],
                  Crc(BytesOf(mem[0x1e..0x1c + n]) + if n == 0x24 then [beyond(0), beyond(1)] else [0, 0]))
  {
    CoveredBytes(mem, beyond);
    GoodIff(FetchOf(mem), beyond, Covered(Image(mem, n), n, beyond));
  }

  lemma GoodIff(f: Fetch, beyond: nat -> uint8, msg: seq<uint8>)
    requires f.n <= DATA_WORDS && Covered(f.img, f.n, beyond) == msg
    ensures Good(f, beyond) <==> Holds(f.img[0], f.img[1], Crc(msg))
  {
    TwoWords(f.img[0], f.img[1]);
  }

  lemma EmptyCovered(img: Buffer, beyond: nat -> uint8)
    requires forall i :: 0 <= i < DATA_WORDS ==> img[i] == 0
    ensures Covered(img, 0, beyond) == seq(0xFFFF_FFFE, k requires 0 <= k => if k < 68 then 0 else beyond(k - 68))
  {
  }

  /** For images of 1 up to 0x23 words acceptance depends on the EEPROM alone. */
  lemma AcceptedRegardless(mem: Memory, b1: nat -> uint8, b2: nat -> uint8)
    requires 1 <= ImageWords(mem) < DATA_WORDS
    ensures Accepted(mem, b1) == Accepted(mem, b2)
  {
    var n := ImageWords(mem);
    assert Covered(Image(mem, n), n, b1) == Covered(Image(mem, n), n, b2);
  }

  /**
   For an empty and for a full image the memory past the buffer has its say: if it makes the image acceptable, changing
   some of it inside a window of four covered bytes makes the image unacceptable.
   */
  lemma StrayBytesDecide(mem: Memory, b1: nat -> uint8, b2: nat -> uint8, k: nat, j: nat)
    requires ImageWords(mem) in {0, DATA_WORDS} && Accepted(mem, b1)
    requires k <= j < k + 4 && j < CoveredSize(ImageWords(mem)) - 68 && b1(j) != b2(j)
    requires forall i: nat :: !(k <= i < k + 4) ==> b1(i) == b2(i)
    ensures !Accepted(mem, b2)
  {
    var n := ImageWords(mem);
    var m1, m2 := Covered(Image(mem, n), n, b1), Covered(Image(mem, n), n, b2);
    assert m1[68 + j] == b1(j) && m2[68 + j] == b2(j);
    BurstDetected(m1, m2, 68 + k);
  }

  /** A full image that is accepted stays so exactly as long as the two bytes after the buffer stay as they are. */
  lemma FullImageOverread(mem: Memory, b1: nat -> uint8, b2: nat -> uint8)
    requires ImageWords(mem) == DATA_WORDS && Accepted(mem, b1)
    ensures Accepted(mem, b2) <==> b1(0) == b2(0) && b1(1) == b2(1)
  {
    var n := ImageWords(mem);
    var m1, m2 := Covered(Image(mem, n), n, b1), Covered(Image(mem, n), n, b2);
    assert m1[68] == b1(0) && m1[69] == b1(1) && m2[68] == b2(0) && m2[69] == b2(1);
    if b1(0) == b2(0) && b1(1) == b2(1) {
      assert m1 == m2;
    } else {
      BurstDetected(m1, m2, 66);
    }
  }

  /** An image of one word is accepted exactly if that word is zero: the checksum of nothing is zero. */
  lemma OneWordImage(mem: Memory, beyond: nat -> uint8)
    requires ImageWords(mem) == 1
    ensures Accepted(mem, beyond) <==> mem[BASE] == 0
  {
    var img := Image(mem, 1);
    CoveredBytes(mem, beyond);
    assert Crc([]) == Zeros(32);
    ZeroBits16();
    assert StoredCrc(img)[..16] == LowBits(0, 16) && StoredCrc(img)[16..] == LowBits(mem[BASE], 16);
    assert Zeros(32)[..16] == Zeros(16) && Zeros(32)[16..] == Zeros(16) && Zeros(16) + Zeros(16) == Zeros(32);
    if StoredCrc(img) == Zeros(32) {
      Pow2Values();
      LowBitsInjective(mem[BASE], 0, 16);
    }
  }

  lemma ZeroBits16()
    ensures LowBits(0, 16) == Zeros(16)
  {
    LowBitsZero(0, 16);
  }

  lemma {:induction false} LowBitsZero(x: nat, n: nat)
    requires x == 0
    ensures LowBits(x, n) == Zeros(n)
    decreases n
  {
    if n != 0 {
      LowBitsZero(x / 2, n - 1);
    }
  }

  /** The stored checksum is the configuration's own crc field; acceptance says that it is the checksum computed. */
  lemma AcceptedCrcField(f: Fetch, beyond: nat -> uint8)
    requires f.n <= DATA_WORDS
    ensures Good(f, beyond) <==> LowBits(ConfigOf(f).crc, 32) == Crc(Covered(f.img, f.n, beyond))
  {
    GoodIff(f, beyond, Covered(f.img, f.n, beyond));
    FieldsOf(f);
  }

  // ---- corruption

  lemma StoredCrcDiffers(img: Buffer, j: nat, w: uint16)
    requires j < 2 && img[j] != w
    ensures StoredCrc(img[j := w]) != StoredCrc(img)
  {
    Pow2Values();
    if StoredCrc(img[j := w]) == StoredCrc(img) {
      var a, b := StoredCrc(img[j := w]), StoredCrc(img);
      assert a[..16] == LowBits(img[j := w][1], 16) && b[..16] == LowBits(img[1], 16);
      assert a[16..] == LowBits(img[j := w][0], 16) && b[16..] == LowBits(img[0], 16);
      LowBitsInjective(w, img[j], 16);
    }
  }

  lemma CoveredDiffers(img: Buffer, n: nat, beyond: nat -> uint8, j: nat, w: uint16)
    requires 2 <= j < n <= DATA_WORDS && img[j] != w
    ensures Crc(Covered(img[j := w], n, beyond)) != Crc(Covered(img, n, beyond))
  {
    var m, m' := Covered(img, n, beyond), Covered(img[j := w], n, beyond);
    var k := 2 * j - 4;
    assert m[k] == img[j] / 0x100 && m[k + 1] == img[j] % 0x100;
    assert m'[k] == w / 0x100 && m'[k + 1] == w % 0x100;
    BurstDetected(m', m, k);
  }

  lemma WordCorruption(f: Fetch, beyond: nat -> uint8, j: nat, w: uint16)
    requires Good(f, beyond) && j < f.n && w != f.img[j]
    ensures !Good(f.(img := f.img[j := w]), beyond)
  {
    if j < 2 {
      StoredCrcDiffers(f.img, j, w);
      assert Covered(f.img[j := w], f.n, beyond) == Covered(f.img, f.n, beyond);
    } else {
      CoveredDiffers(f.img, f.n, beyond, j, w);
    }
  }

  /**
   Whatever one word of an accepted image is changed to, the result is rejected, as long as a changed size word still
   gives the same number of words; a word outside the image changes neither the verdict nor the configuration.
   */
  lemma SingleWordCorruption(mem: Memory, beyond: nat -> uint8, a: uint8, w: uint16)
    requires Accepted(mem, beyond) && w != mem[a] && (a == SIZE_WORD ==> w / 2 == mem[a] / 2)
    ensures !Accepted(mem[a := w], beyond) <==> BASE <= a < BASE + ImageWords(mem)
    ensures Accepted(mem[a := w], beyond) ==> Loaded(mem[a := w]) == Loaded(mem)
  {
    var n := ImageWords(mem);
    ChangedImage(mem, a, w);
    if BASE <= a < BASE + n {
      WordCorruption(FetchOf(mem), beyond, a - BASE, w);
    }
  }

  lemma ChangedImage(mem: Memory, a: uint8, w: uint16)
    requires ImageWords(mem) <= DATA_WORDS && (a == SIZE_WORD ==> w / 2 == mem[a] / 2)
    ensures var f := FetchOf(mem);
      FetchOf(mem[a := w]) == if BASE <= a < BASE + f.n then f.(img := f.img[a - BASE := w]) else f
  {
    var n := ImageWords(mem);
    var img, img' := Image(mem, n), Image(mem[a := w], n);
    if BASE <= a < BASE + n {
      assert img' == img[a - BASE := w];
    } else {
      assert img' == img;
    }
  }

  /**
   A size word changed to another number of words changes what is checksummed, so it can go unnoticed: a larger number
   than the buffer has is always rejected, but one word is accepted whenever the stored checksum begins with zero, and
   any other number exactly if the words then covered happen to have the stored checksum.
   */
  lemma SizeWordCorruption(mem: Memory, beyond: nat -> uint8, w: uint16)
    ensures var mem' := mem[SIZE_WORD := w];
      && (w / 2 > DATA_WORDS ==> !Accepted(mem', beyond))
      && (w / 2 == 1 ==> (Accepted(mem', beyond) <==> mem[BASE] == 0))
      && (2 <= w / 2 <= DATA_WORDS ==>
            (Accepted(mem', beyond) <==>
               Crc(BytesOf(mem'[SIZE_WORD..BASE + w / 2]) + Overrun(w / 2, beyond))
               == LowBits(mem[BASE + 1], 16) + LowBits(mem[BASE], 16)))
  {
    var mem' := mem[SIZE_WORD := w];
    if 1 <= w / 2 <= DATA_WORDS {
      CoveredBytes(mem', beyond);
    }
    if w / 2 == 1 {
      OneWordImage(mem', beyond);
    }
  }
}

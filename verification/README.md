# Board-support EEPROM stack, modelled in Dafny

The board-support process of this repository talks to a serial EEPROM by toggling three GPIO pins, reads a
checksummed board configuration through it, and decides from that which console it is running on. This project models
that stack from the wire up and proves what it does. Beside it stand the entity registry through which all of it is
called, and the small string, delay and print routines underneath.

`dafny verify dfyconfig.toml` checks the whole project.

## How it is built

- **Seeprom**: the chip, a step machine of its own with 256 words, a shift register, a write-enable latch and a busy
  countdown. It knows nothing of the driver; it sees SK rise while CS is high, and CS fall.
- **EepromBits**, **EepromDriver**: the driver, pin write by pin write, as classes and loops. Its methods are proved to
  produce exactly the edges of **EepromEdges**, from any chip state.
- **FlatEeprom**: the plain array that users have in mind, and the proof that the edges refine it over every run.
  Between calls, refinement holds from there on if and only if no program cycle is still running and each to come ends
  within the 1000 polls that the driver allows.
- **SlowCycles**: what lies beyond that bound. A chip that is still programming hears later frames from the middle on;
  for every excess there is a run of enables and writes whose last frame it takes for an erase-all.
- **Crc32**: the byte-wise checksum against the bit-serial register; what it detects. **CrcDivision**: that it is the
  remainder of polynomial division by the generator of CRC-32, by a definition that knows neither register nor table.
- **BoardConfig**, **EeEntity**, **HardwareVersion**: the image, the attribute interface with its write protection, and
  the console identity, down to the statement that one corrupted EEPROM word changes the reported version. Their
  methods, too, are specified edge by edge from any chip state, and separate lemmas say what that comes to at rest.
  A control init does not check that the chip heard it: from any chip state, a run after it is free of erase-alls if and
  only if the chip has at most 11 clocks of a program cycle left and is prompt from then on, and it is write-protected
  if and only if moreover no cycle was running at the init or the chip was disabled anyway.
- **CString**, **EntityRegistry**, **Delay**, **PrintSink**: names and permissions, and the small cores. Where the
  registry follows a null pointer or never returns, that is an outcome of the model, with its exact condition.

Words and addresses are natural numbers with their C range written into the type. Where the code masks, shifts or ors
fields that do not overlap, the model uses quotients, remainders and sums. The checksum register and the permission
words, where bits are mixed, are bit vectors (`seq<bool>`) and sets of bit numbers.

Assumptions: the GPIO entity is present or absent as a whole and does not change, so pin accesses succeed once
`eepromDrvInit` has. The chip's program cycles take arbitrary times, given by a function of their number. The output
pin reads high when the chip neither sends data nor programs. Memory past the buffer of `bcGet` is an arbitrary
function, so no header size is excluded. `strncmp` compares unsigned characters, which is what `char` is on the target.

Behaviour of the code that may surprise, and that the model keeps: `bspEE_control_init` succeeds although a busy chip
misses its write-disable (`ios_bsp/entities/ee/bsp_ee.c:98`); `bcGet` checksums two bytes more than it read
(`ios_bsp/libraries/bc/bc.c:63`), so that stray memory decides on a full image; `crc32Input` cannot be called in
pieces (`libraries/crc32/crc32.c:11`); `strlcpy` returns the copied length, which is the length of the source only if
that fits (`libraries/libc/lib/string.c:91`); `bspFindEntity` reports success without an entity for a name past the
end of the list (`ios_bsp/libraries/bsp_entity/entity.c:30`), on which its caller reads through a null pointer; and
`bspMethodInit` without an attribute name never gets past an attribute without global init
(`ios_bsp/libraries/bsp_entity/entity.c:288`), which in the EE entity is the first one. Not kept by the model: the
attribute search stops at an entry without a name (`ios_bsp/libraries/bsp_entity/entity.c:63`), but the table of the
EE entity, like others, has no such entry (`ios_bsp/entities/ee/bsp_ee.c:4-27`), so that the search for an unknown
attribute runs off the array; the model ends each table where its terminator should be.

What a caller sees is stated with the numbers of the headers, registers and EEPROM addresses (`IsVersion`, `IsConsole`,
`AcceptedExactly`, `CommandBitsIff`, `RunsIff`), independently of the constants and functions that the code is written
with.

## Model

| member | source | states |
|---|---|---|
| Bits.ShiftInMsbFirst | ios_bsp/libraries/eeprom_drv/eeprom_bits.c:110-117 | Shifting in the n bits that the send loop puts out, most significant first, recovers the low n bits of the word. |
| Bits.MsbFirstSplit | ios_bsp/libraries/eeprom_drv/eeprom.c:50-51 | Sending a long frame is sending its high part, then its low part. |
| Seeprom.FrameDecoded | ios_bsp/libraries/eeprom_drv/eeprom.c:19-20 | Any 11-bit frame with its start bit set reaches the chip as exactly its low ten bits. |
| Seeprom.ReadFrame | ios_bsp/libraries/eeprom_drv/eeprom.c:19-20 | The frame 0x600 plus address is recognised as READ of that address. |
| Seeprom.WriteFrame | ios_bsp/libraries/eeprom_drv/eeprom.c:50-51 | The 27-bit frame arms exactly WRITE of that address and data, nothing is written yet. |
| Seeprom.ControlFrame | ios_bsp/libraries/eeprom_drv/eeprom.c:70-88 | 0x400, 0x480 and 0x4c0 are recognised as EWDS, ERAL and EWEN. |
| EepromEdges.ReadsBack | ios_bsp/libraries/eeprom_drv/eeprom.c:23-29 | The 16-bit receive loop is the inverse of the chip's output shift register, whatever the data line is held at. |
| EepromEdges.ReadEdgesRead | ios_bsp/libraries/eeprom_drv/eeprom.c:7-36 | A read of a chip at rest yields the addressed word and changes nothing. |
| EepromEdges.PolledExactly | ios_bsp/libraries/eeprom_drv/eeprom_bits.c:88-95 | For every busy time, polling sees ready exactly when the cycle ends within the polls, and never feeds a start bit. |
| EepromEdges.WaitEdgesExactly | ios_bsp/libraries/eeprom_drv/eeprom_bits.c:85-100 | Ready polling succeeds exactly for busy times up to 1000 and touches only the countdown. |
| EepromEdges.WriteEdgesProgram | ios_bsp/libraries/eeprom_drv/eeprom.c:38-56 | A write sets exactly one word if programming is enabled and none otherwise; the result tells whether the cycle ended in time. |
| EepromEdges.ControlEdgesControl | ios_bsp/libraries/eeprom_drv/eeprom.c:58-91 | Disable and enable set the latch; erase sets all words to 0xFFFF if programming is enabled and none otherwise. |
| EepromEdges.EndsInStandby | ios_bsp/libraries/eeprom_drv/eeprom_bits.c:64-81 | Framing: from any chip state, every command ends with no command under way in the chip. |
| EepromEdges.FrameLost | ios_bsp/libraries/eeprom_drv/eeprom_bits.c:102-120 | No 11-bit frame is heard by a chip that is busy when it begins, whatever its bits; it only takes 11 clocks off the cycle. |
| EepromEdges.ControlLost | ios_bsp/libraries/eeprom_drv/eeprom.c:70-90 | An enable or disable sent to a busy chip is lost, and reported as done. |
| FlatEeprom.CallRefines | ios_bsp/libraries/eeprom_drv/eeprom.c:7-91 | One call on a chip at rest does to it what the flat array says, with the same reply, as exactly one recognised command. |
| FlatEeprom.RunRefines | ios_bsp/libraries/eeprom_drv/eeprom.c:7-91 | Every run of calls gives the replies and the memory of the flat array, and the chip recognises exactly the commands meant. |
| FlatEeprom.WriteThenRead | ios_bsp/libraries/eeprom_drv/eeprom.c:19-55 | Wire round trip: after a write reported good, a read returns the written word at that address and the old word elsewhere. |
| FlatEeprom.PromptIsExact | ios_bsp/libraries/eeprom_drv/eeprom_bits.c:83-100 | Between any two calls: the replies of all further runs agree with the flat array if and only if no program cycle is running and every one to come takes at most 1000 polls. |
| FlatEeprom.SlowCycleShows | ios_bsp/libraries/eeprom_drv/eeprom_bits.c:96-98 | The first cycle that outlasts the polling makes some reply differ from the flat array's. |
| FlatEeprom.LeftoverShows | ios_bsp/libraries/eeprom_drv/eeprom.c:79-90 | For every leftover of a program cycle some run makes a reply differ: lost controls, then a write and a read. |
| SlowCycles.LeftoverArmsErase | ios_bsp/libraries/eeprom_drv/eeprom.c:50-51 | For every leftover of 1 to 16 clocks of a program cycle, the frame of some write is taken for erase-all. |
| SlowCycles.LeftoverErases | ios_bsp/libraries/eeprom_drv/eeprom.c:38-56 | On an enabled chip that write, driven to its end, erases every word. |
| SlowCycles.Drains | ios_bsp/libraries/eeprom_drv/eeprom.c:79-90 | Any larger leftover comes down to such a one by enables that the chip does not hear. |
| SlowCycles.SlowRunErases | ios_bsp/libraries/eeprom_drv/eeprom_bits.c:83-100 | From every chip at rest with a cycle of more than 1000 polls to come, some run of enables and writes ends with all words erased, unlike the flat array. |
| SlowCycles.MemoryIsExact | ios_bsp/libraries/eeprom_drv/eeprom_bits.c:83-100 | Between any two calls: over all further runs that never ask for an erase, memory and latch are those of the flat array if and only if no cycle is running and every one to come takes at most 1000 polls. |
| SlowCycles.NoEraseIsExact | ios_bsp/libraries/eeprom_drv/eeprom_bits.c:83-100 | Likewise the chip hears no erase-all in any of those runs if and only if the same. |
| SlowCycles.EraseRun | ios_bsp/libraries/eeprom_drv/eeprom.c:38-90 | For every running cycle and every slow one to come, the run of enables and writes in which the chip hears an erase-all, and that erases it unless it stays disabled. |
| EepromBits.Line.SetSK | ios_bsp/libraries/eeprom_drv/eeprom_bits.c:5-16 | Sets the level, clocks the chip on a rising edge while selected, and fails without effect if GPIO is missing. |
| EepromBits.Line.SetCS | ios_bsp/libraries/eeprom_drv/eeprom_bits.c:18-29 | Sets the level; lowering it ends the command in the chip. |
| EepromBits.Line.SetDO | ios_bsp/libraries/eeprom_drv/eeprom_bits.c:32-43 | Sets the data level; the chip sees it only at the next clock. |
| EepromBits.ReadBit | ios_bsp/libraries/eeprom_drv/eeprom_bits.c:45-62 | Exactly one clock, then the chip's output level. |
| EepromBits.FinishCommand | ios_bsp/libraries/eeprom_drv/eeprom_bits.c:66-81 | Deselects the chip once and leaves the line idle; the trailing clocks do not reach the chip. |
| EepromBits.WaitForReady | ios_bsp/libraries/eeprom_drv/eeprom_bits.c:85-100 | Success exactly for busy times up to 1000 polls; only the countdown changes; the line ends idle. |
| EepromBits.SendBits | ios_bsp/libraries/eeprom_drv/eeprom_bits.c:102-120 | The chip is clocked once per bit, most significant first; more than 32 bits are refused without a clock. |
| EepromDriver.ReceiveWord | ios_bsp/libraries/eeprom_drv/eeprom.c:23-29 | The loop accumulates the 16 sampled levels, the first as the top bit. |
| EepromDriver.Driver.ReadWord | ios_bsp/libraries/eeprom_drv/eeprom.c:7-36 | Bad index or closed driver: an error and no pin write at all. Otherwise the edges of a read, and the line idle. |
| EepromDriver.Driver.WriteWord | ios_bsp/libraries/eeprom_drv/eeprom.c:38-56 | Likewise for a write with its ready polling. |
| EepromDriver.Driver.SetWriteControl | ios_bsp/libraries/eeprom_drv/eeprom.c:58-91 | Likewise for the three controls; any other value is refused without a pin write. |
| EepromDriver.Driver.Init | ios_bsp/libraries/eeprom_drv/eeprom.c:93-109 | From any status and pin levels: idle line and Initialised if the pins work, Uninitialised if not. |
| EepromDriver.Driver.OpenDevice | ios_bsp/libraries/eeprom_drv/eeprom.c:112-129 | Opens from Initialised or Closed only; the chip sees nothing. |
| EepromDriver.Driver.Shutdown | ios_bsp/libraries/eeprom_drv/eeprom.c:131-147 | Closes an open driver only; the chip sees nothing. |
| EepromDriver.PerformCalls | ios_bsp/libraries/eeprom_drv/eeprom.c:7-91 | Any run of data calls on an open driver, down to the pins and from any chip state, is that run of edges and leaves the line idle; on a prompt chip at rest it is a run of the flat array. |
| EepromDriver.PerformClosed | ios_bsp/libraries/eeprom_drv/eeprom.c:15-17 | On a driver that is not open every data call returns NOTREADY and writes no pin. |
| EepromDriver.PerformRun | ios_bsp/libraries/eeprom_drv/eeprom.c:7-147 | Any data and life-cycle calls in any order, down to the pins, from any status and chip state: their edges, and the status that the life-cycle calls alone give; on a prompt chip at rest the replies, memory and latch of the abstract device. |
| EepromDriver.PerformAny | ios_bsp/libraries/eeprom_drv/eeprom.c:7-147 | One call of any kind: NOTREADY and no pin write for a data call on a driver that is not open, its edges otherwise. |
| EepromDriver.DeviceRefined | ios_bsp/libraries/eeprom_drv/eeprom.c:7-147 | On a prompt chip at rest, the edges of every run are the steps of the abstract device. |
| EepromDriver.StatusAfterRun | ios_bsp/libraries/eeprom_drv/eeprom.c:93-147 | Over every run the status depends on the life-cycle calls alone, whatever the chip does. |
| EepromDriver.OpenAfterRun | ios_bsp/libraries/eeprom_drv/eeprom.c:93-147 | Over any run from power-on, whatever the chip does, the driver is open exactly when the pins work, an init has happened and the last life-cycle call is an open. |
| EepromDriver.OpenIff | ios_bsp/libraries/eeprom_drv/eeprom.c:93-147 | The same of the life-cycle calls alone. |
| EepromDriver.InitialisedIff | ios_bsp/libraries/eeprom_drv/eeprom.c:93-109 | The status leaves Uninitialised exactly by an init with working pins, and never returns there. |
| EepromDriver.LifeReplies | ios_bsp/libraries/eeprom_drv/eeprom.c:93-147 | What an init, an open and a shutdown answer after any life-cycle calls from power-on, and for any index. |
| Crc32.Checksum.Reset | libraries/crc32/crc32.c:6-8 | Clears the register. |
| Crc32.Checksum.Input | libraries/crc32/crc32.c:10-31 | After a reset the result is the CRC of the message (CrcIsRemainder says which CRC); in general it continues from the complemented register. |
| Crc32.ShiftedByte | libraries/crc32/crc32.c:17-25 | The inner loop is eight shifts of the register. |
| Crc32.ByteUpdate | libraries/crc32/crc32.c:15-27 | Shifting the low byte alone and xoring the rest back is feeding the byte's eight bits one by one. |
| CrcDivision.CrcIsRemainder | libraries/crc32/crc32.c:10-31 | A result is returned for a message exactly if its complement is the remainder, over GF(2), of the message times x^32, its first 32 coefficients complemented, by the CRC-32 generator x^32 + x^26 + ... + x + 1. |
| CrcDivision.RemainderUnique | libraries/crc32/crc32.c:10-31 | There is one remainder only: a quotient and a remainder of lower degree than the generator are unique. |
| CrcDivision.RegisterDivides | libraries/crc32/crc32.c:14-28 | From any start, the register after any bits is the remainder, and the bits shifted out are the quotient. |
| CrcDivision.PolynomialIsGenerator | libraries/crc32/crc32.c:21 | 0xedb88320 is the generator without its highest power, reflected. |
| CrcDivision.MessageBitsAt | libraries/crc32/crc32.c:14-17 | The bytes are taken in order, the least significant bit of each first. |
| Crc32.BitsAtOnce | libraries/crc32/crc32.c:14-28 | Up to 32 message bits can be xored into the register ahead of the shifts: the update is linear. |
| Crc32.StepInjective | libraries/crc32/crc32.c:19-24 | A shift can be undone. |
| Crc32.BurstBits | libraries/crc32/crc32.c:14-28 | Bit strings that differ only inside one window of 32 bits never leave the same register. |
| Crc32.BurstDetected | libraries/crc32/crc32.c:10-31 | Messages that differ only inside one window of four bytes have different checksums. |
| Crc32.ChunkingAlwaysDiffers | libraries/crc32/crc32.c:10-31 | Feeding a message in two calls gives a wrong result for every message and every cut. |
| Crc32.InputTwice | libraries/crc32/crc32.c:10-31 | What the second of two calls without a reset returns. |
| BoardConfig.Bc.Init | ios_bsp/libraries/bc/bc.c:13-32 | Brings the driver up once; afterwards it reports success whatever the driver's status. |
| BoardConfig.Bc.Get | ios_bsp/libraries/bc/bc.c:35-70 | From any chip state: null and closed are refused without a pin write; otherwise the edges of a load, OK exactly if what was read carries its checksum, and the configuration stored before that check. |
| BoardConfig.Bc.FetchImage | ios_bsp/libraries/bc/bc.c:40-54 | The size word, then the image unless it is too large for the buffer, edge by edge. |
| BoardConfig.FetchAtRest | ios_bsp/libraries/bc/bc.c:40-54 | On a chip at rest a load reads exactly the EEPROM image and changes nothing; the chip hears one READ of word 0x1e and one of each image word from 0x1c on, in order. |
| BoardConfig.Bc.ReadImage | ios_bsp/libraries/bc/bc.c:49-54 | From any chip state, the edges of n reads, and the words read, zero-padded, in the buffer. |
| BoardConfig.Bc.StoreAndCheck | ios_bsp/libraries/bc/bc.c:56-69 | The head of the buffer is stored with the vendor defaulted for version 0; the result compares the checksum of the covered bytes. |
| BoardConfig.ConfigRoundTrip | ios_bsp/libraries/bc/include/bc.h:6-25 | The struct and its 0x14 big-endian words determine each other. |
| BoardConfig.LoadedWords | ios_bsp/libraries/bc/bc.c:56-59 | A loaded configuration is the head of the zero-padded image, but for the vendor of a version 0 image. |
| BoardConfig.FieldsOf | ios_bsp/libraries/bc/include/bc.h:6-25 | Which word of what was read each field of the configuration is, the vendor being 0x5521 for version 0. |
| BoardConfig.LoadedFields | ios_bsp/libraries/bc/bc.c:41-59 | Size, version, board type and console type are words 2, 3, 5 and 17 from EEPROM word 0x1c on, zero past the end of the image. |
| BoardConfig.CoveredBytes | ios_bsp/libraries/bc/bc.c:61-63 | The checksum covers the size word to the last image word and then two bytes more: zeros, or what lies past the buffer of a full image; nothing at all for one word. |
| BoardConfig.AcceptedExactly | ios_bsp/libraries/bc/bc.c:41-69 | The verdict for every EEPROM content, by address: words 0x1c and 0x1d are the checksum of the words from 0x1e to the end of the image and two bytes more; one word must be zero; more than 0x24 are refused; an empty image has almost all of memory checksummed. |
| BoardConfig.AcceptedRegardless | ios_bsp/libraries/bc/bc.c:61-67 | For images of 1 to 0x23 words the verdict does not depend on memory outside the buffer. |
| BoardConfig.FullImageOverread | ios_bsp/libraries/bc/bc.c:61-67 | An accepted image of 0x24 words stays accepted exactly as long as the two bytes past the buffer stay as they are. |
| BoardConfig.StrayBytesDecide | ios_bsp/libraries/bc/bc.c:61-67 | For a full and for an empty image, changing covered memory past the buffer inside a window of four bytes turns acceptance into rejection. |
| BoardConfig.OneWordImage | ios_bsp/libraries/bc/bc.c:61-67 | An image of one word is accepted exactly if that word is zero. |
| BoardConfig.AcceptedCrcField | ios_bsp/libraries/bc/bc.c:62-67 | What was read is accepted exactly when the crc field of its configuration is the checksum of its covered bytes. |
| BoardConfig.WordCorruption | ios_bsp/libraries/bc/bc.c:61-69 | Changing any one word of what was read, within its size, turns acceptance into rejection. |
| BoardConfig.SingleWordCorruption | ios_bsp/libraries/bc/bc.c:41-69 | Changing one word of an accepted EEPROM, the number of words staying as it is, makes it rejected exactly when the word lies in the image; otherwise the same configuration is loaded. |
| BoardConfig.SizeWordCorruption | ios_bsp/libraries/bc/bc.c:41-69 | When a changed size word passes: never for more than 0x24 words, for one word exactly if the first image word is zero, and from two words on exactly if the words then covered have the stored checksum. |
| EeEntity.Ee.AccessRead | ios_bsp/entities/ee/bsp_ee.c:40-52 | From any chip state the edges of a read at the low eight bits of the instance, at rest the stored word; a device error without a pin write if closed. |
| EeEntity.Ee.AccessWrite | ios_bsp/entities/ee/bsp_ee.c:55-66 | From any chip state the edges of a write and the result of its polling; at rest exactly that word programmed if enabled. |
| EeEntity.Ee.ControlWrite | ios_bsp/entities/ee/bsp_ee.c:69-86 | 1 enables, 2 disables, edge by edge from any chip state; at rest the latch alone changes; anything else is refused without a pin write. |
| EeEntity.Ee.ControlInit | ios_bsp/entities/ee/bsp_ee.c:89-102 | From any status and chip state: driver open and a write-disable sent, or a device error, status Uninitialised and no edge if the pins do not work. |
| EeEntity.InitExactly | ios_bsp/entities/ee/bsp_ee.c:89-102 | What the init does from any chip state: the latch is cleared if no cycle is running, and only 11 clocks pass if one is. |
| EeEntity.InitUnheard | ios_bsp/entities/ee/bsp_ee.c:89-102 | For every enabled chip with 1 to 11 clocks of a cycle left: the init succeeds, the chip stays enabled, and the next access write is carried out. |
| EeEntity.ReinitUnheard | ios_bsp/entities/ee/bsp_ee.c:55-102 | Such chips are reached: after an enable and a write whose cycle takes 1001 to 1011 polls, an init does not keep the next write out. |
| EeEntity.Ee.ControlShutdown | ios_bsp/entities/ee/bsp_ee.c:105-114 | Closes an open driver; the chip sees nothing. |
| EeEntity.Ee.BcRead | ios_bsp/entities/ee/bsp_ee.c:116-126 | The edges of a load from any chip state; OK exactly if what was read carries its checksum; the destination holds it also when rejected, unless too large. |
| EeEntity.PerformOps | ios_bsp/entities/ee/bsp_ee.c:40-126 | A control init and any run of operations, inits and shutdowns included, down to the pins and from any chip state; if at most 11 clocks of a cycle are left and the chip is prompt, it follows the array that the init leaves and no erase-all is heard. |
| EeEntity.PerformOp | ios_bsp/entities/ee/bsp_ee.c:40-126 | One operation on an open driver is its edges; on a driver that is not open the chip sees nothing but an init; and the status it leaves. |
| EeEntity.IsOpenIff | ios_bsp/entities/ee/bsp_ee.c:89-114 | The driver is open exactly when every shutdown has been followed by an init. |
| EeEntity.OpsRefine | ios_bsp/entities/ee/bsp_ee.c:40-126 | From any prompt chip at rest, every run of operations leaves memory and latch of the array, the chip at rest, and no erase-all in the log. |
| EeEntity.WriteProtectIff | ios_bsp/entities/ee/bsp_ee.c:40-126 | Exact from any chip state: memory and latch follow an array that starts write-protected, over all runs after a control init, if and only if at most 11 clocks of a cycle are left, all to come take at most 1000 polls, and the chip was free or disabled at the init. |
| EeEntity.EraseFreeIff | ios_bsp/entities/ee/bsp_ee.c:40-126 | Exact from any chip state: no erase-all is heard over any run after a control init if and only if at most 11 clocks of a cycle are left and all to come take at most 1000 polls. |
| EeEntity.NothingWithoutEnable | ios_bsp/entities/ee/bsp_ee.c:55-102 | After an init that protects, no run without an enable changes any word of the chip. |
| EeEntity.UnprotectedRun | ios_bsp/entities/ee/bsp_ee.c:55-86 | For every chip that EraseFreeIff excludes, the run of operations in which it hears an erase-all, and that erases it if it is free or enabled after the init. |
| EeEntity.WriteProtected | ios_bsp/entities/ee/bsp_ee.c:55-114 | Over every run, inits and shutdowns included, a word holds what the last write to it made on an open driver under an enable wrote, and its old value if there was none. |
| EeEntity.EnabledIff | ios_bsp/entities/ee/bsp_ee.c:69-102 | Programming is enabled exactly when the latest init or valid control write to an open driver is an enable. |
| HardwareVersion.Revision.ReadBoardConfig | ios_bsp/bsp_hwrev.c:218-234 | From any chip state: OK exactly if a load delivers a checked configuration; otherwise the configuration is all zero and the code tells which step failed. |
| HardwareVersion.Revision.AddVariant | ios_bsp/bsp_hwrev.c:37-58 | The variant is 0x10, 0x20, 0x21, 0x28 or 0x29 exactly for EV, CT, ID, CF and IH in the board type that a load delivers, 0x11 exactly if it delivers none, and 0 for any other type. |
| HardwareVersion.Revision.GetHardwareVersion | ios_bsp/bsp_hwrev.c:19-63 | A cached version comes back untouched; otherwise the version that IsVersion gives, number by number, for the registers and the board type that a load delivers, cached if known. |
| HardwareVersion.ResolvedIsVersion | ios_bsp/bsp_hwrev.c:72-150 | Every resolved version, as iffs on the chip revision, the Cortado inputs, the Latte revision and the board type, in the numbers of the header. |
| HardwareVersion.ConsoleIs | ios_bsp/bsp_hwrev.c:154-215 | Both console queries, with mask and type value, as iffs on size, version, board type and console type. |
| HardwareVersion.LoadAtRest | ios_bsp/bsp_hwrev.c:218-234 | On a chip at rest a load delivers what the EEPROM holds, if the driver can be reached and the image is accepted, and only reads. |
| HardwareVersion.Identify | ios_bsp/bsp_hwrev.c:19-215 | After an uncached call on a Latte board, from any chip state: version, console mask and console type with their codes, from the configuration that the load delivers; EV_Y exactly if none, and then both queries fail with -1. |
| HardwareVersion.IdentifyAtRest | ios_bsp/bsp_hwrev.c:19-215 | The same on a chip at rest, in the words of the EEPROM; the queries fail on a loaded configuration exactly for a size below 6. |
| HardwareVersion.AskAtRest | ios_bsp/bsp_hwrev.c:19-63 | On any board with its chip at rest, version and code from registers and EEPROM words. |
| HardwareVersion.AskAgain | ios_bsp/bsp_hwrev.c:22-23 | Every later call returns what the first returned, whatever EE operations, inits and shutdowns come in between. |
| HardwareVersion.ExactlyOneFamily | libraries/bsp/include/bsp_hwrevs.h:43-59 | A version is resolved exactly for known chip revisions, is nonzero, and lies in exactly one of the four families. |
| HardwareVersion.LatteFamily | ios_bsp/bsp_hwrev.c:35-58 | On a Latte board the top half is the Latte revision and the variant is EV_Y exactly when no configuration was loaded. |
| HardwareVersion.NamedLatteVersions | libraries/bsp/include/bsp_hwrevs.h:11-30 | For which Latte revisions and board types the resolved version is one that the header names, and for which it is not. |
| HardwareVersion.MaskMatchesType | ios_bsp/bsp_hwrev.c:154-215 | The two console queries fail together, and agree on development kits and on type 6. |
| HardwareVersion.ConsoleKnown | ios_bsp/bsp_hwrev.c:154-192 | Both queries report a configuration that was not loaded; for one that was, exactly when its image is shorter than 6 bytes. |
| HardwareVersion.CorruptionShowsInVersion | ios_bsp/bsp_hwrev.c:35-58 | Changing one word, the number of image words staying as it is, turns the version into the EV_Y variant of the same Latte revision exactly if the word lies in the image, and leaves it alone otherwise. |
| HardwareVersion.CorruptAndAsk | ios_bsp/bsp_hwrev.c:19-63 | The same end to end, down to the pins: an enable and an access write through the EE entity, then an uncached call. |
| CString.StrNCmp | libraries/libc/lib/string.c:77-85 | The difference at the first place where the texts, cut to n characters, differ, an ended text counting as NUL. |
| CString.CompareReverses | libraries/libc/lib/string.c:77-85 | Swapping the arguments negates the result. |
| CString.CompareValue | libraries/libc/lib/string.c:77-85 | The result is the difference at the first place where the texts differ, an ended text counting as NUL. |
| CString.CompareEqual | libraries/libc/lib/string.c:77-85 | The result is zero exactly for equal texts. |
| CString.CompareTransitive | libraries/libc/lib/string.c:77-85 | The order is transitive. |
| CString.CompareIsLexicographic | libraries/libc/lib/string.c:77-85 | Negative means a proper prefix, or smaller at the first difference. |
| CString.StrNLen | libraries/libc/lib/string.c:25-33 | The length of the text cut to count characters. |
| CString.MemCpy | libraries/libc/lib/string.c:45-53 | Copies len bytes and nothing else. |
| CString.StrLCpy | libraries/libc/lib/string.c:87-99 | The text cut to maxlen - 1 and terminated; nothing at or past maxlen is touched; the result is the copied length. |
| CString.CopiedAllIff | libraries/libc/lib/string.c:87-99 | The copied length is the length of the source exactly when the source fits with its terminator. |
| CString.StrLCat | libraries/libc/lib/string.c:101-107 | The old text followed by src, cut to maxlen - 1 and terminated; its length is the result; nothing at or past maxlen is touched. |
| EntityRegistry.FindEntity | ios_bsp/libraries/bsp_entity/entity.c:10-31 | The loop matches, gives up early or runs off the end as the search function says. |
| EntityRegistry.SearchFindsTheOne | ios_bsp/libraries/bsp_entity/entity.c:10-31 | On a sorted list an entity is found exactly when a full scan finds one, and it is unique; a name that is not there is unknown, or gets OK if past the end. |
| EntityRegistry.FoundNothingIff | ios_bsp/libraries/bsp_entity/entity.c:18-30 | On any list, OK without an entity exactly for a name that sorts after all entries of a nonempty list. |
| EntityRegistry.FirstNamedIsFirst | ios_bsp/libraries/bsp_entity/entity.c:62-73 | An attribute is found exactly when the table has one of that name, and it is the first. |
| EntityRegistry.FindInTable | ios_bsp/libraries/bsp_entity/entity.c:62-73 | The loop returns the first attribute of that name. |
| EntityRegistry.FindAttribute | ios_bsp/libraries/bsp_entity/entity.c:33-150 | The code of the first failing check among entity, instance, attribute and permission; an attribute is the first of its name in the table of the instance, or in the only one of a flat entity; a null pointer is followed exactly for an entity name past the end. |
| EntityRegistry.CheckPermissions | ios_bsp/libraries/bsp_entity/entity.c:82-149 | The decision for a client that is not internal. |
| EntityRegistry.CredentialsMonotone | ios_bsp/libraries/bsp_entity/entity.c:76-172 | More credentials change the outcome of no request but a denied one; in particular what is granted stays granted. |
| EntityRegistry.PermittedIff | ios_bsp/libraries/bsp_entity/entity.c:76-149 | A client passes if it is internal, or if the attribute is not and they share, in some group of four bits below 16, the bit of the command: 0 for queries and reads, 1 writes, 2 inits, 3 shutdowns; other commands are denied. |
| EntityRegistry.CommandBitsIff | ios_bsp/libraries/bsp_entity/entity.c:82-139 | The bits that each command is masked with, by number. |
| EntityRegistry.SupervisorOnly | ios_bsp/entities/ee/bsp_ee.c:4-27 | The EE attributes are open to internal clients and to IOS supervisors holding the bit of the command, for each command, and to no one else. |
| EntityRegistry.MethodRead | ios_bsp/libraries/bsp_entity/entity.c:152-172 | The outcome of every request, from any names: null dereference, refusal by the first failing check, or the read handler, with the right size only. |
| EntityRegistry.MethodWrite | ios_bsp/libraries/bsp_entity/entity.c:229-249 | Likewise for writes. |
| EntityRegistry.MethodInit | ios_bsp/libraries/bsp_entity/entity.c:257-296 | Likewise for inits; without an attribute name, the walk over the table. |
| EntityRegistry.WalkTable | ios_bsp/libraries/bsp_entity/entity.c:284-295 | The handlers called are those in front of the first attribute without global init, and the walk ends exactly if there is none. |
| EntityRegistry.WalkEndsIff | ios_bsp/libraries/bsp_entity/entity.c:288-294 | The walk ends if and only if every attribute has global init. |
| EntityRegistry.MethodShutdown | ios_bsp/libraries/bsp_entity/entity.c:304-320 | Likewise for shutdowns, whatever the size. |
| EntityRegistry.MethodQuery | ios_bsp/libraries/bsp_entity/entity.c:180-221 | Exactly when a query is left to the handler, answered with at most four direct bytes, answered by a copy from the address, refused, or follows a null pointer. |
| EntityRegistry.RunsIff | ios_bsp/libraries/bsp_entity/entity.c:10-172 | From names to handlers: on a sorted list an attribute is used exactly when it is the first of its name for that instance of the entity of that name, the client may, the size is right (but for inits and shutdowns), and it has the handler of the command. |
| EntityRegistry.NullIff | ios_bsp/libraries/bsp_entity/entity.c:44-164 | Every way in which a request follows a null pointer: an entity name past the end, or no attribute name (other than for init) for an entity and instance that exist. |
| EntityRegistry.UnknownEntityIff | ios_bsp/libraries/bsp_entity/entity.c:10-31 | When a request is refused for its entity. |
| EntityRegistry.InstanceIff | ios_bsp/libraries/bsp_entity/entity.c:45-49 | When a request is refused for its instance. |
| EntityRegistry.MissingIff | ios_bsp/libraries/bsp_entity/entity.c:54-70 | When a request is refused for an attribute that is not in the table of the instance, or in the only one of a flat entity. |
| EntityRegistry.RefusedIff | ios_bsp/libraries/bsp_entity/entity.c:76-172 | When a request is denied, of the wrong size or not supported: each code exactly for its own reason. |
| EntityRegistry.UseIff | ios_bsp/libraries/bsp_entity/entity.c:76-172 | Of an attribute that is found: used, or denied, of the wrong size or without the handler of the command, each exactly if it is the first reason that applies. |
| EntityRegistry.UnnamedInit | ios_bsp/libraries/bsp_entity/entity.c:277-295 | An init without an attribute name walks over the table of the instance, or over the only one of a flat entity. |
| EntityRegistry.DirectValue | ios_bsp/libraries/bsp_entity/entity.c:202-212 | The bytes of a direct query are the big-endian bytes of the low-order part of the data word. |
| EntityRegistry.RefusalIsAnError | ios_bsp/libraries/bsp_entity/entity.c:152-172 | No request is refused with a success code. |
| Bsp.CodesAreBits | ios_bsp/libraries/bsp_entity/include/bsp_entity_enum.h:6-27 | The result codes are the bits that the header gives them, no two the same. |
| Delay.ProductFits | libraries/libc/lib/delay.c:6 | The tick product never overflows 64 bits. |
| Delay.TicksMonotone | libraries/libc/lib/delay.c:5-17 | Longer delays and faster timers never take fewer ticks. |
| Delay.TicksAccurate | libraries/libc/lib/delay.c:5-17 | At least one tick for a nonzero delay, and the true tick count rounded down unless saturated. |
| Delay.Udelay | libraries/libc/lib/delay.c:19-26 | Never ends before the ticks have truly elapsed; ends at the first sample past the target exactly if the wrapped difference shows it, which frequent samples guarantee. |
| Delay.GapIsExact | libraries/libc/lib/delay.c:19-26 | The wait ends at the first sample that could do, for all sample times up to gap apart, if and only if gap is at most 2 to the 32 minus the ticks. |
| PrintSink.ConsoleSink.Add | libraries/libc/lib/sprintf.c:86-95 | Emitted chunks and pending buffer together are exactly the characters added, no chunk longer than 15. |
| PrintSink.ConsoleSink.Flush | libraries/libc/lib/sprintf.c:103-116 | After a flush the emitted chunks alone are exactly the characters added. |
| PrintSink.BoundedSink.Add | libraries/libc/lib/sprintf.c:20-27 | The offset counts every character, the buffer keeps those that fit, nothing past the size is touched. |
| PrintSink.BoundedSink.Flush | libraries/libc/lib/sprintf.c:31-39 | The text is what was added, cut to size - 1 and terminated. |
| PrintSink.PrintText | libraries/libc/lib/sprintf.c:86-116 | A text without NUL comes out of the console sink as chunks of exactly 15 characters and a rest that join to exactly that text. |
| PrintSink.FormatText | libraries/libc/lib/sprintf.c:20-39 | A text without NUL ends up in the buffer cut to size - 1 and terminated, the count is its full length, and nothing past the size is touched. |

## Left out

- The 4 microsecond delays between pin writes: the chip model has no clock but SK.
- Failures of single pins, or of the data input pin alone: GPIO is present or absent as a whole.
- Chip opcodes that the driver never sends (erase one word, write all): the model chip ignores them.
- BoardConfig.Bc.Get: a size word of 0 or 1 makes the code checksum almost all of memory, which the model treats as readable.
- BoardConfig.SingleWordCorruption: leaves a size word changed to another number of words to SizeWordCorruption, since such a change can go unnoticed.
- EntityRegistry.MethodRead: says which handler is called and not what it returns; likewise MethodWrite, MethodShutdown, MethodInit and MethodQuery.
- EntityRegistry.FindInTable: the table ends where its terminator should be; tables such as that of EE lack theirs, and what a search finds past the end of such an array is not modelled.
- EntityRegistry.Request: nothing is said about what happens after a null pointer is followed.
- Delay.Udelay: the clock is a finite list of sample times, so that nothing is said about a clock that stands still.
- `bspMethodGetHardwareVersion` with the cache itself as its destination, as `bspInitEssential` calls it.
- `bspGetEntityVersion`, `InitASICVersion`, the `/dev/bsp` message loop, and the PPC, CCRH, DI, SI, SDIO, Reset, GPIO and Sys entities: register sequences and kernel messages with little to prove.
- `_sprintf_cb` and with it all format strings: empty in the source.
- The remaining string routines (`strlen`, `memcmp`, `strcmp`, `strchr`, `strspn`, `strcspn`, `memset`) and `delay_ticks`.

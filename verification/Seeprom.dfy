/**
 The serial EEPROM at the far end of the GPIO pins: 256 words of 16 bits behind a three-wire port.
 The chip is a step machine of its own. It sees nothing of the driver but two kinds of edge: a rising SK
 while CS is high (Clock) and a falling CS (Deselect).
 */
module Seeprom {
  import opened Machine
  import opened Bits

  type Memory = m: seq<uint16> | |m| == 0x100 witness seq(0x100, _ => 0xFFFF)

  function Erased(): (m: Memory)
    ensures forall a :: 0 <= a < 0x100 ==> m[a] == 0xFFFF
  {
    seq(0x100, _ => 0xFFFF)
  }

  /** The commands that the chip can recognise. */
  datatype Op = ReadOp(addr: uint8) | WriteOp(addr: uint8, data: uint16) | EraseAllOp | EnableOp | DisableOp

  datatype Mode =
    | Standby                                               // waiting for a start bit
    | Opcode(count: nat, reg: nat)                          // count of the 10 command bits shifted in
    | Data(addr: uint8, count: nat, reg: nat)               // count of the 16 data bits of a WRITE shifted in
    | ShiftOut(word: uint16, left: nat, out: bool)          // READ: left bits to go, out is on the pin
    | Armed(op: Op)                                         // a complete WRITE or ERAL, carried out when CS falls
    | Spent                                                 // nothing more to do until CS falls

  /** What memory becomes once op has been carried out. */
  function Programmed(m: Memory, op: Op): Memory {
    match op
    case WriteOp(a, d) => m[a := d]
    case EraseAllOp => Erased()
    case _ => m
  }

  /**
   busy counts the clocks for which the self-timed program cycle goes on; delay(k) is how long the k-th cycle takes,
   cycles is how many there have been, and log lists the commands recognised so far.
   */
  datatype Chip = Chip(
    mem: Memory, enabled: bool, mode: Mode, busy: nat, cycles: nat, log: seq<Op>, delay: nat -> nat)
  {
    /** SK rises while CS is high and the data line is at d. A chip in a program cycle is deaf. */
    function Clock(d: bool): Chip {
      if busy > 0 then
        this.(busy := busy - 1)
      else
        match mode
        case Standby => if d then this.(mode := Opcode(0, 0)) else this
        case Opcode(n, r) =>
          var r' := 2 * r + BitValue(d);
          if n < 9 then this.(mode := Opcode(n + 1, r')) else Decode(r')
        case Data(a, n, r) =>
          var r' := 2 * r + BitValue(d);
          if n < 15 then this.(mode := Data(a, n + 1, r')) else Recognise(WriteOp(a, r' % 0x1_0000))
        case ShiftOut(r, left, _) =>
          if left == 0 then this.(mode := Spent)
          else this.(mode := ShiftOut(2 * r % 0x1_0000, left - 1, r >= 0x8000))
        case Armed(_) => this
        case Spent => this
    }

    /** The command in the low ten bits of r: two opcode bits, then eight address bits. */
    function Decode(r: nat): Chip {
      var opcode, addr := r / 0x100 % 4, r % 0x100;
      if opcode == 2 then Recognise(ReadOp(addr))
      else if opcode == 1 then this.(mode := Data(addr, 0, 0))
      else if opcode == 0 && addr / 0x40 == 3 then Recognise(EnableOp)
      else if opcode == 0 && addr / 0x40 == 2 then Recognise(EraseAllOp)
      else if opcode == 0 && addr / 0x40 == 0 then Recognise(DisableOp)
      else this.(mode := Spent)
    }

    function Recognise(op: Op): Chip {
      var noted := this.(log := log + [op]);
      match op
      case ReadOp(a) => noted.(mode := ShiftOut(mem[a], 16, false))
      case WriteOp(_, _) => noted.(mode := Armed(op))
      case EraseAllOp => noted.(mode := Armed(op))
      case EnableOp => noted.(mode := Spent, enabled := true)
      case DisableOp => noted.(mode := Spent, enabled := false)
    }

    /** CS falls: any partial command is dropped, an armed one is carried out if programming is enabled. */
    function Deselect(): Chip {
      if mode.Armed? && enabled then
        this.(mem := Programmed(mem, mode.op), mode := Standby, busy := delay(cycles), cycles := cycles + 1)
      else
        this.(mode := Standby)
    }

    /** The level of the chip's output: read data, or else the ready signal, which is low during a program cycle. */
    function DataOut(): bool {
      if mode.ShiftOut? then mode.out else busy == 0
    }

    /** No command under way and no program cycle running. */
    predicate AtRest() {
      mode == Standby && busy == 0
    }

    /** Every program cycle still to come is over within the 1000 polls that the driver allows. */
    ghost predicate Prompt() {
      forall k :: k >= cycles ==> delay(k) <= 1000
    }
  }

  /** The chip after one clock per bit of s. */
  function Clocked(c: Chip, s: seq<bool>): Chip
    decreases |s|
  {
    if s == [] then c else Clocked(c.Clock(s[0]), s[1..])
  }

  lemma {:induction false} ClockedConcat(c: Chip, s: seq<bool>, t: seq<bool>)
    ensures Clocked(c, s + t) == Clocked(Clocked(c, s), t)
    decreases |s|
  {
    if s == [] {
      assert s + t == t;
    } else {
      assert (s + t)[1..] == s[1..] + t;
      ClockedConcat(c.Clock(s[0]), s[1..], t);
    }
  }

  /** A chip in a program cycle only lets the time pass. */
  lemma {:induction false} DeafClocks(c: Chip, s: seq<bool>)
    requires |s| <= c.busy
    ensures Clocked(c, s) == c.(busy := c.busy - |s|)
    decreases |s|
  {
    if s != [] {
      DeafClocks(c.Clock(s[0]), s[1..]);
    }
  }

  /** A start bit and ten more make a command; fewer bits leave no trace but a command begun. */
  lemma {:induction false} TooShort(c: Chip, s: seq<bool>)
    requires c.busy == 0
    requires (c.mode == Standby && |s| <= 10) || (c.mode.Opcode? && c.mode.count + |s| <= 9)
    ensures var c' := Clocked(c, s);
      c' == c.(mode := c'.mode) && (c'.mode == Standby || c'.mode.Opcode?)
    decreases |s|
  {
    if s != [] {
      TooShort(c.Clock(s[0]), s[1..]);
    }
  }

  /** The last 10 - n command bits complete the shift register, whatever the bits are. */
  lemma {:induction false} CollectOpcode(c: Chip, r: nat, s: seq<bool>)
    requires 0 < |s| <= 10 && c.busy == 0 && c.mode == Opcode(10 - |s|, r)
    ensures Clocked(c, s) == c.Decode(ShiftIn(r, s))
    decreases |s|
  {
    var c' := c.Clock(s[0]);
    var r' := 2 * r + BitValue(s[0]);
    if |s| == 1 {
      assert s[1..] == [];
    } else {
      CollectOpcode(c', r', s[1..]);
      DecodeForgetsMode(c, c', ShiftIn(r', s[1..]));
    }
  }

  lemma DecodeForgetsMode(c: Chip, c': Chip, r: nat)
    requires c' == c.(mode := c'.mode)
    ensures c'.Decode(r) == c.Decode(r)
  {
  }

  /** Likewise for the 16 data bits of a WRITE. */
  lemma {:induction false} CollectData(c: Chip, a: uint8, r: nat, s: seq<bool>)
    requires 0 < |s| <= 16 && c.busy == 0 && c.mode == Data(a, 16 - |s|, r)
    ensures Clocked(c, s) == c.Recognise(WriteOp(a, ShiftIn(r, s) % 0x1_0000))
    decreases |s|
  {
    var c' := c.Clock(s[0]);
    if |s| == 1 {
      assert s[1..] == [];
    } else {
      CollectData(c', a, 2 * r + BitValue(s[0]), s[1..]);
    }
  }

  lemma StartBit(cmd: nat)
    requires 0x400 <= cmd < 0x800
    ensures MsbFirst(cmd, 11) == [true] + MsbFirst(cmd, 10)
  {
    Pow2Values();
    ShiftedIsQuotient(cmd, 10);
    assert Bit(cmd, 10);
  }

  lemma FrameValue(cmd: nat)
    requires 0x400 <= cmd < 0x800
    ensures ShiftIn(0, MsbFirst(cmd, 10)) == cmd - 0x400
  {
    Pow2Values();
    ShiftInMsbFirst(0, cmd, 10);
    ShiftedIsQuotient(cmd, 10);
  }

  lemma Started(c: Chip, s: seq<bool>)
    requires c.AtRest()
    ensures Clocked(c, [true] + s) == Clocked(c.(mode := Opcode(0, 0)), s)
  {
  }

  /** An 11-bit frame with its start bit set is decoded to exactly its low ten bits. */
  lemma FrameDecoded(c: Chip, cmd: nat)
    requires c.AtRest() && 0x400 <= cmd < 0x800
    ensures Clocked(c, MsbFirst(cmd, 11)) == c.Decode(cmd - 0x400)
  {
    var started := c.(mode := Opcode(0, 0));
    StartBit(cmd);
    Started(c, MsbFirst(cmd, 10));
    CollectOpcode(started, 0, MsbFirst(cmd, 10));
    FrameValue(cmd);
    DecodeForgetsMode(c, started, cmd - 0x400);
  }

  /** The 11 bits of a READ leave the addressed word in the output register. */
  lemma ReadFrame(c: Chip, a: uint8)
    requires c.AtRest()
    ensures Clocked(c, MsbFirst(0x600 + a, 11)) == c.Recognise(ReadOp(a))
  {
    FrameDecoded(c, 0x600 + a);
  }

  lemma WriteOpcode(c: Chip, a: uint8)
    requires c.AtRest()
    ensures Clocked(c, MsbFirst(0x500 + a, 11)) == c.(mode := Data(a, 0, 0))
  {
    FrameDecoded(c, 0x500 + a);
  }

  lemma WriteBits(a: uint8, d: uint16, x: nat)
    requires x == (0x500 + a) * 0x1_0000 + d
    ensures MsbFirst(x, 27) == MsbFirst(0x500 + a, 11) + MsbFirst(x, 16)
  {
    Pow2Values();
    ShiftedIsQuotient(x, 16);
    MsbFirstSplit(x, 11, 16);
  }

  /** The 27 bits of a WRITE arm exactly that write. */
  lemma WriteFrame(c: Chip, a: uint8, d: uint16, x: nat)
    requires c.AtRest() && x == (0x500 + a) * 0x1_0000 + d
    ensures Clocked(c, MsbFirst(x, 27)) == c.Recognise(WriteOp(a, d))
  {
    var head, tail := MsbFirst(0x500 + a, 11), MsbFirst(x, 16);
    WriteBits(a, d, x);
    ClockedConcat(c, head, tail);
    WriteOpcode(c, a);
    WriteData(c, a, d, x);
  }

  lemma WriteData(c: Chip, a: uint8, d: uint16, x: nat)
    requires c.AtRest() && x % 0x1_0000 == d
    ensures Clocked(c.(mode := Data(a, 0, 0)), MsbFirst(x, 16)) == c.Recognise(WriteOp(a, d))
  {
    CollectData(c.(mode := Data(a, 0, 0)), a, 0, MsbFirst(x, 16));
    Pow2Values();
    ShiftInMsbFirst(0, x, 16);
    ShiftedIsQuotient(x, 16);
  }

  /** The control frames: the top two address bits tell them apart. */
  lemma ControlFrame(c: Chip, k: nat)
    requires c.AtRest() && k in {0, 2, 3}
    ensures Clocked(c, MsbFirst(0x400 + 0x40 * k, 11))
         == c.Recognise(if k == 0 then DisableOp else if k == 2 then EraseAllOp else EnableOp)
  {
    FrameDecoded(c, 0x400 + 0x40 * k);
    ControlDecoded(c, k);
  }

  lemma ControlDecoded(c: Chip, k: nat)
    requires k in {0, 2, 3}
    ensures c.Decode(0x40 * k) == c.Recognise(if k == 0 then DisableOp else if k == 2 then EraseAllOp else EnableOp)
  {
  }
}

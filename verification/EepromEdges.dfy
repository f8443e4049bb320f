/**
 What each driver call does to the chip, edge by edge, from any chip state at all: the frame is clocked in, bits are
 clocked out or the ready signal is polled, and CS falls. The methods of EepromDriver are proved to produce exactly
 these edges; the lemmas here say what the edges amount to.
 */
module EepromEdges {
  import opened Machine
  import opened Bits
  import opened Seeprom

  const POLLS := 1000

  datatype Call = Read(addr: uint8) | Write(addr: uint8, data: uint16) | Control(value: int)

  datatype Reply = Word(word: uint16) | Done(err: IosError)

  /** n clocks with the data line held at d. */
  function AfterReading(c: Chip, d: bool, n: nat): Chip
    decreases n, c
  {
    if n == 0 then c else AfterReading(c.Clock(d), d, n - 1)
  }

  /** The value of the output levels sampled after each of those n clocks, the first being the most significant. */
  function BitsRead(c: Chip, d: bool, n: nat): (v: nat)
    ensures v < Pow2(n)
    decreases n, c
  {
    if n == 0 then 0
    else BitValue(c.Clock(d).DataOut()) * Pow2(n - 1) + BitsRead(c.Clock(d), d, n - 1)
  }

  /** At most n clocks with the data line low, ending with the first after which the output is high. */
  function Polled(c: Chip, n: nat): (Chip, bool)
    decreases n, c
  {
    if n == 0 then (c, false)
    else if c.Clock(false).DataOut() then (c.Clock(false), true)
    else Polled(c.Clock(false), n - 1)
  }

  function ReadEdges(c: Chip, a: uint8): (r: (Chip, uint16)) {
    var sent := Clocked(c, MsbFirst(0x600 + a, 11));
    Pow2Values();
    (AfterReading(sent, a % 2 == 1, 16).Deselect(), BitsRead(sent, a % 2 == 1, 16))
  }

  function WaitEdges(c: Chip): (Chip, IosError) {
    var (polled, ready) := Polled(c, POLLS);
    (polled.Deselect(), if ready then Ok else FailInternal)
  }

  function FrameEdges(c: Chip, cmd: nat, n: nat): Chip {
    Clocked(c, MsbFirst(cmd, n)).Deselect()
  }

  function WriteEdges(c: Chip, a: uint8, d: uint16): (Chip, IosError) {
    WaitEdges(FrameEdges(c, (0x500 + a) * 0x1_0000 + d, 27))
  }

  /** EWDS, EWEN and ERAL, for EEPROM_WRITE_DISABLE, EEPROM_WRITE_ENABLE and EEPROM_WRITE_ERASE. */
  function ControlCommand(value: int): nat {
    if value == 1 then 0x400 else if value == 2 then 0x4c0 else 0x480
  }

  function ControlEdges(c: Chip, value: int): (Chip, IosError) {
    if value < 1 || value > 3 then (c, Invalid)
    else if value == 3 then WaitEdges(FrameEdges(c, ControlCommand(value), 11))
    else (FrameEdges(c, ControlCommand(value), 11), Ok)
  }

  function CallEdges(c: Chip, call: Call): (Chip, Reply) {
    match call
    case Read(a) => var (c', w) := ReadEdges(c, a); (c', Word(w))
    case Write(a, d) => var (c', e) := WriteEdges(c, a, d); (c', Done(e))
    case Control(v) => var (c', e) := ControlEdges(c, v); (c', Done(e))
  }

  /** A whole run of calls. */
  function RunEdges(c: Chip, calls: seq<Call>): (Chip, seq<Reply>)
    decreases |calls|
  {
    if calls == [] then (c, [])
    else
      var (c', reply) := CallEdges(c, calls[0]);
      var (c'', replies) := RunEdges(c', calls[1..]);
      (c'', [reply] + replies)
  }

  lemma RunEdgesCons(c: Chip, calls: seq<Call>, c': Chip, reply: Reply, last: Chip, replies: seq<Reply>)
    requires calls != [] && CallEdges(c, calls[0]) == (c', reply) && RunEdges(c', calls[1..]) == (last, replies)
    ensures RunEdges(c, calls) == (last, [reply] + replies)
  {
  }

  /** Every call leaves the chip with no command under way, whatever it found. */
  lemma EndsInStandby(c: Chip, call: Call)
    requires call.Control? ==> 1 <= call.value <= 3
    ensures CallEdges(c, call).0.mode == Standby
  {
  }

  // ---- reading

  /** n bits of rem are still to come, lined up at the top of the chip's output register. */
  lemma ShiftOutStep(rem: nat, n: nat, reg: uint16)
    requires 0 < n <= 16 && rem < Pow2(n) && reg == rem * Pow2(16 - n)
    ensures reg >= 0x8000 <==> rem >= Pow2(n - 1)
    ensures 2 * reg % 0x1_0000 == (if reg >= 0x8000 then rem - Pow2(n - 1) else rem) * Pow2(17 - n)
  {
    var p, h := Pow2(n - 1), Pow2(16 - n);
    assert p * h == 0x8000 by {
      Pow2Sum(n - 1, 16 - n);
      Pow2Values();
    }
    assert Pow2(n) == 2 * p && Pow2(17 - n) == 2 * h;
    ShiftOutArithmetic(rem, p, h, reg);
  }

  lemma ShiftOutArithmetic(rem: nat, p: nat, h: nat, reg: nat)
    requires h > 0 && p * h == 0x8000 && rem < 2 * p && reg == rem * h < 0x1_0000
    ensures reg >= 0x8000 <==> rem >= p
    ensures 2 * reg % 0x1_0000 == (if reg >= 0x8000 then rem - p else rem) * (2 * h)
  {
    Ordered(rem, p, h);
    if reg >= 0x8000 {
      assert (rem - p) * (2 * h) == 2 * (rem * h - p * h);
    } else {
      assert rem * (2 * h) == 2 * (rem * h);
    }
  }

  lemma Ordered(x: nat, y: nat, h: nat)
    requires h > 0
    ensures x >= y <==> x * h >= y * h
  {
  }

  /** What is left of rem once the highest of its n bits has gone. */
  function Below(rem: nat, n: nat): nat
    requires n > 0
  {
    if rem >= Pow2(n - 1) then rem - Pow2(n - 1) else rem
  }

  lemma ReadStep(c: Chip, d: bool, rem: nat, n: nat)
    requires 0 < n <= 16 && rem < Pow2(n)
    requires c.busy == 0 && c.mode.ShiftOut? && c.mode.left == n && c.mode.word == rem * Pow2(16 - n)
    ensures c.Clock(d).mode.ShiftOut? && c.Clock(d) == c.(mode := c.Clock(d).mode)
    ensures c.Clock(d).mode.left == n - 1 && c.Clock(d).mode.word == Below(rem, n) * Pow2(17 - n)
    ensures BitValue(c.Clock(d).DataOut()) * Pow2(n - 1) + Below(rem, n) == rem
  {
    ShiftOutStep(rem, n, c.mode.word);
  }

  /** The receive loop is the inverse of the chip's output register. */
  lemma {:induction false} ReadsBack(c: Chip, d: bool, rem: nat, n: nat)
    requires n <= 16 && rem < Pow2(n)
    requires c.busy == 0 && c.mode.ShiftOut? && c.mode.left == n && c.mode.word == rem * Pow2(16 - n)
    ensures BitsRead(c, d, n) == rem
    ensures AfterReading(c, d, n).mode.ShiftOut?
    ensures AfterReading(c, d, n) == c.(mode := AfterReading(c, d, n).mode)
    decreases n
  {
    if n != 0 {
      ReadStep(c, d, rem, n);
      ReadsBack(c.Clock(d), d, Below(rem, n), n - 1);
    }
  }

  lemma ReadEdgesRead(c: Chip, a: uint8)
    requires c.AtRest()
    ensures ReadEdges(c, a) == (c.(log := c.log + [ReadOp(a)]), c.mem[a])
  {
    Pow2Values();
    ReadFrame(c, a);
    ReadsBack(c.Recognise(ReadOp(a)), a % 2 == 1, c.mem[a], 16);
  }

  // ---- polling

  /** For every busy time: ready is seen exactly when the cycle is over within n polls, and no start bit is ever fed. */
  lemma {:induction false} PolledExactly(c: Chip, n: nat)
    requires c.mode == Standby && n > 0
    ensures Polled(c, n) == (c.(busy := if c.busy <= n then 0 else c.busy - n), c.busy <= n)
    decreases n
  {
    var c' := c.Clock(false);
    if c.busy > 1 {
      if n > 1 {
        PolledExactly(c', n - 1);
      } else {
        assert Polled(c', 0) == (c', false);
      }
    }
  }

  lemma WaitEdgesExactly(c: Chip)
    requires c.mode == Standby
    ensures WaitEdges(c) == (c.(busy := if c.busy <= POLLS then 0 else c.busy - POLLS),
                             if c.busy <= POLLS then Ok else FailInternal)
  {
    PolledExactly(c, POLLS);
  }

  // ---- programming

  /** The chip after programming op: the cycle has run for up to POLLS polls. */
  function AfterProgramming(c: Chip, op: Op): (Chip, IosError) {
    var noted := c.(log := c.log + [op]);
    if !c.enabled then (noted, Ok)
    else
      var t := c.delay(c.cycles);
      (noted.(mem := Programmed(c.mem, op), cycles := c.cycles + 1, busy := if t <= POLLS then 0 else t - POLLS),
       if t <= POLLS then Ok else FailInternal)
  }

  lemma WriteEdgesProgram(c: Chip, a: uint8, d: uint16)
    requires c.AtRest()
    ensures WriteEdges(c, a, d) == AfterProgramming(c, WriteOp(a, d))
  {
    var x := (0x500 + a) * 0x1_0000 + d;
    WriteFrame(c, a, d, x);
    WaitEdgesExactly(FrameEdges(c, x, 27));
  }

  lemma ControlEdgesControl(c: Chip, value: int)
    requires c.AtRest()
    ensures value == 1 ==> ControlEdges(c, value) == (c.(log := c.log + [DisableOp], enabled := false), Ok)
    ensures value == 2 ==> ControlEdges(c, value) == (c.(log := c.log + [EnableOp], enabled := true), Ok)
    ensures value == 3 ==> ControlEdges(c, value) == AfterProgramming(c, EraseAllOp)
  {
    if 1 <= value <= 3 {
      var k := if value == 1 then 0 else if value == 2 then 3 else 2;
      assert ControlCommand(value) == 0x400 + 0x40 * k;
      ControlFrame(c, k);
      var op := if value == 1 then DisableOp else if value == 2 then EnableOp else EraseAllOp;
      var sent := FrameEdges(c, ControlCommand(value), 11);
      assert sent == c.Recognise(op).Deselect();
      if value == 3 {
        WaitEdgesExactly(sent);
      }
    }
  }

  // ---- frames that go unheard

  /** What an 11-bit frame takes off a program cycle. */
  function Later(c: Chip): Chip {
    c.(busy := if c.busy <= 11 then 0 else c.busy - 11)
  }

  /** No frame of 11 bits is heard by a chip that is busy when it begins: too few bits are left to make a command. */
  lemma FrameLost(c: Chip, cmd: nat)
    requires c.mode == Standby && c.busy >= 1
    ensures FrameEdges(c, cmd, 11) == Later(c)
  {
    var s := MsbFirst(cmd, 11);
    if c.busy >= 11 {
      DeafClocks(c, s);
    } else {
      var deaf, heard := s[..c.busy], s[c.busy..];
      assert s == deaf + heard;
      ClockedConcat(c, deaf, heard);
      DeafClocks(c, deaf);
      TooShort(c.(busy := 0), heard);
    }
  }

  /** The driver reports such a control as done. */
  lemma ControlLost(c: Chip, control: Call)
    requires c.mode == Standby && c.busy >= 1 && control.Control? && 1 <= control.value <= 2
    ensures CallEdges(c, control) == (Later(c), Done(Ok))
  {
    FrameLost(c, ControlCommand(control.value));
  }
}

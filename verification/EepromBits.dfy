/** The GPIO pins that lead to the chip, and the bit-level routines of the driver that drive them (eeprom_bits.c). */
module EepromBits {
  import opened Machine
  import opened Bits
  import opened Seeprom
  import opened EepromEdges

  /**
   The three outputs and the chip behind them. If the GPIO entity is missing, every pin write fails and changes
   nothing. The microsecond delays between writes carry no information for the chip and are not modelled.
   */
  class Line {
    const present: bool
    var cs: bool
    var sk: bool
    var dout: bool
    var chip: Chip
    ghost var writes: nat  // pin writes so far

    constructor (present: bool, cs: bool, sk: bool, dout: bool, chip: Chip)
      requires !cs ==> chip.mode == Standby
      ensures Valid() && this.present == present && this.chip == chip
      ensures this.cs == cs && this.sk == sk && this.dout == dout
    {
      writes := 0;
      this.present, this.cs, this.sk, this.dout, this.chip := present, cs, sk, dout, chip;
    }

    /** A chip that is not selected has no command under way. */
    ghost predicate Valid()
      reads this
    {
      !cs ==> chip.mode == Standby
    }

    /** The framing invariant between commands: all outputs low and no partial command in the chip. */
    ghost predicate Idle()
      reads this
    {
      !cs && !sk && !dout && chip.mode == Standby
    }

    method SetSK(state: int) returns (err: IosError)
      requires Valid()
      modifies this`sk, this`chip, this`writes
      ensures Valid() && err == if present then Ok else Exists
      ensures sk == (if present then state != 0 else old(sk)) && writes == old(writes) + 1
      ensures chip == if present && cs && state != 0 && !old(sk) then old(chip).Clock(dout) else old(chip)
    {
      writes := writes + 1;
      if !present {
        return Exists;
      }
      if cs && state != 0 && !sk {
        chip := chip.Clock(dout);
      }
      sk := state != 0;
      return Ok;
    }

    method SetCS(state: int) returns (err: IosError)
      requires Valid()
      modifies this`cs, this`chip, this`writes
      ensures Valid() && err == if present then Ok else Exists
      ensures cs == (if present then state != 0 else old(cs)) && writes == old(writes) + 1
      ensures chip == if present && state == 0 then old(chip).Deselect() else old(chip)
    {
      writes := writes + 1;
      if !present {
        return Exists;
      }
      if cs && state == 0 {
        chip := chip.Deselect();
      }
      cs := state != 0;
      return Ok;
    }

    method SetDO(state: int) returns (err: IosError)
      requires Valid()
      modifies this`dout, this`writes
      ensures err == if present then Ok else Exists
      ensures dout == (if present then state != 0 else old(dout)) && writes == old(writes) + 1
    {
      writes := writes + 1;
      if !present {
        return Exists;
      }
      dout := state != 0;
      return Ok;
    }
  }

  /** Clocks one bit out of the chip. */
  method ReadBit(line: Line) returns (bit: int)
    requires line.Valid() && line.present
    modifies line
    ensures line.Valid() && line.cs && line.sk && line.dout == old(line.dout)
    ensures line.chip == old(line.chip).Clock(line.dout)
    ensures bit == BitValue(line.chip.DataOut())
  {
    var err := line.SetSK(0);
    err := line.SetCS(1);
    err := line.SetSK(1);
    bit := BitValue(line.chip.DataOut());
  }

  /** Lowers CS, then lets the given number of clocks pass; the chip does not see them. */
  method FinishCommand(line: Line, clocks: int)
    requires line.Valid() && line.present
    modifies line
    ensures line.Valid() && line.Idle()
    ensures line.chip == old(line.chip).Deselect()
  {
    var err := line.SetSK(0);
    err := line.SetCS(0);
    err := line.SetDO(0);
    if clocks != 0 {
      var i := 0;
      while i < clocks
        invariant line.Valid() && !line.cs && !line.dout
        invariant line.chip == old(line.chip).Deselect()
      {
        err := line.SetSK(0);
        err := line.SetSK(1);
        i := i + 1;
      }
    }
    err := line.SetSK(0);
  }

  /**
   Waits for the ready signal. Between commands, and for every busy time, it reports success exactly when the program
   cycle ends within 1000 polls, and leaves memory, the write latch and the list of recognised commands as they are.
   */
  method WaitForReady(line: Line) returns (err: IosError)
    requires line.Valid() && line.present
    modifies line
    ensures line.Valid() && line.Idle()
    ensures (line.chip, err) == WaitEdges(old(line.chip))
    ensures old(line.chip).mode == Standby ==>
      && err == (if old(line.chip).busy <= 1000 then Ok else FailInternal)
      && line.chip == old(line.chip).(busy := line.chip.busy)
  {
    err := line.SetDO(0);
    var timeout := true;
    var i := 0;
    while i < 1000
      invariant 0 <= i <= 1000 && line.Valid() && !line.dout
      invariant timeout ==> Polled(old(line.chip), POLLS) == Polled(line.chip, 1000 - i)
      invariant !timeout ==> Polled(old(line.chip), POLLS) == (line.chip, true)
    {
      var bit := ReadBit(line);
      if bit != 0 {
        timeout := false;
        break;
      }
      i := i + 1;
    }
    FinishCommand(line, 2);
    if old(line.chip).mode == Standby {
      WaitEdgesExactly(old(line.chip));
    }
    return if timeout then FailInternal else Ok;
  }

  /** Sends the low size bits of data, most significant first, one clock each. */
  method SendBits(line: Line, size: nat, data: nat) returns (err: IosError)
    requires line.Valid() && line.present
    modifies line
    ensures line.Valid() && (err == if size > 32 then Invalid else Ok)
    ensures size > 32 ==> line.chip == old(line.chip)
    ensures size <= 32 ==> line.chip == Clocked(old(line.chip), MsbFirst(data, size))
    ensures 0 < size <= 32 ==> line.dout == Bit(data, 0)
  {
    if size > 32 {
      return Invalid;
    }
    var i := size - 1;
    while i >= 0
      invariant -1 <= i < size && line.Valid()
      invariant Clocked(line.chip, MsbFirst(data, i + 1)) == Clocked(old(line.chip), MsbFirst(data, size))
      invariant i < size - 1 ==> line.dout == Bit(data, i + 1)
    {
      err := line.SetSK(0);
      err := line.SetCS(1);
      err := line.SetDO(Shifted(data, i) % 2);
      ghost var before := line.chip;
      err := line.SetSK(1);
      assert line.chip == before.Clock(Bit(data, i));
      assert MsbFirst(data, i + 1)[1..] == MsbFirst(data, i);
      i := i - 1;
    }
    return Ok;
  }
}

/** The "EE" entity (bsp_ee.c): the EEPROM and the board configuration as attributes, and its write protection. */
module EeEntity {
  import opened Machine
  import opened Seeprom
  import opened EepromEdges
  import opened EepromDriver
  import opened FlatEeprom
  import opened BoardConfig
  import opened SlowCycles
  import Bsp

  class Ee {
    const drv: Driver
    const bc: Bc

    constructor (drv: Driver, bc: Bc)
      requires bc.drv == drv && drv.Valid()
      ensures this.drv == drv && this.bc == bc && Valid()
    {
      this.drv, this.bc := drv, bc;
    }

    ghost predicate Valid()
      reads this, drv, drv.line
    {
      drv.Valid() && bc.drv == drv
    }

    /** From any chip state, the edges of a read; from a chip at rest, the word. */
    method AccessRead(instance: nat) returns (ret: Bsp.Rval, data: Option<uint16>)
      requires Valid()
      modifies drv.line
      ensures Valid() && ret == if drv.status == Open then Bsp.OK else Bsp.DEVICE_ERROR
      ensures ret != Bsp.OK ==> data == None && unchanged(drv.line)
      ensures ret == Bsp.OK ==>
        data.Some? && (drv.line.chip, data.value) == ReadEdges(old(drv.line.chip), instance % 0x100)
      ensures ret == Bsp.OK && old(drv.line.chip.AtRest()) ==> data == Some(old(drv.line.chip.mem)[instance % 0x100])
    {
      ghost var chip := drv.line.chip;
      var err, word := drv.ReadWord(0, instance % 0x100);
      if err != Ok {
        return Bsp.DEVICE_ERROR, None;
      }
      if chip.AtRest() {
        ReadEdgesRead(chip, instance % 0x100);
      }
      return Bsp.OK, word;
    }

    /** From any chip state, the edges of a write; from a chip at rest, the word programmed. */
    method AccessWrite(instance: nat, data: uint16) returns (ret: Bsp.Rval)
      requires Valid()
      modifies drv.line
      ensures Valid()
      ensures drv.status != Open ==> ret == Bsp.DEVICE_ERROR && unchanged(drv.line)
      ensures drv.status == Open ==>
        var (chip, err) := WriteEdges(old(drv.line.chip), instance % 0x100, data);
        drv.line.chip == chip && ret == if err == Ok then Bsp.OK else Bsp.DEVICE_ERROR
      ensures drv.status == Open && old(drv.line.chip.AtRest()) ==>
        drv.line.chip == AfterProgramming(old(drv.line.chip), WriteOp(instance % 0x100, data)).0
    {
      ghost var chip := drv.line.chip;
      var err := drv.WriteWord(0, instance % 0x100, data);
      if chip.AtRest() {
        WriteEdgesProgram(chip, instance % 0x100, data);
      }
      if err != Ok {
        return Bsp.DEVICE_ERROR;
      }
      return Bsp.OK;
    }

    /** 1 enables and 2 disables, the reverse of the driver's own numbering; erasing cannot be asked for. */
    method ControlWrite(cmd: int) returns (ret: Bsp.Rval)
      requires Valid()
      modifies drv.line
      ensures Valid()
      ensures !(1 <= cmd <= 2) ==> ret == Bsp.INVALID_PARAMETER && unchanged(drv.line)
      ensures 1 <= cmd <= 2 && drv.status != Open ==> ret == Bsp.DEVICE_ERROR && unchanged(drv.line)
      ensures 1 <= cmd <= 2 && drv.status == Open ==>
        ret == Bsp.OK && drv.line.chip == ControlEdges(old(drv.line.chip), 3 - cmd).0
      ensures 1 <= cmd <= 2 && drv.status == Open && old(drv.line.chip.AtRest()) ==>
        drv.line.chip == old(drv.line.chip).(
          enabled := cmd == 1, log := old(drv.line.chip.log) + [if cmd == 1 then EnableOp else DisableOp])
    {
      ghost var chip := drv.line.chip;
      var control: int;
      if cmd == 1 {
        control := 2;
      } else if cmd == 2 {
        control := 1;
      } else {
        return Bsp.INVALID_PARAMETER;
      }
      var err := drv.SetWriteControl(0, control);
      if chip.AtRest() {
        ControlEdgesControl(chip, control);
      }
      if err != Ok {
        return Bsp.DEVICE_ERROR;
      }
      return Bsp.OK;
    }

    /**
     Brings the driver up from any status and sends the chip a write-disable. That the chip hears it is not checked;
     see InitExactly.
     */
    method ControlInit() returns (ret: Bsp.Rval)
      requires Valid()
      modifies drv`status, drv.line
      ensures Valid() && ret == if drv.line.present then Bsp.OK else Bsp.DEVICE_ERROR
      ensures ret == Bsp.OK ==> drv.status == Open && drv.line.chip == InitEdges(old(drv.line.chip))
      ensures ret != Bsp.OK ==> drv.status == Uninitialised && drv.line.chip == old(drv.line.chip)
    {
      var err := drv.Init(0);
      if err != Ok {
        return Bsp.DEVICE_ERROR;
      }
      err := drv.OpenDevice(0);
      if err != Ok {
        return Bsp.DEVICE_ERROR;
      }
      err := drv.SetWriteControl(0, 1);
      if err != Ok {
        return Bsp.DEVICE_ERROR;
      }
      return Bsp.OK;
    }

    method ControlShutdown() returns (ret: Bsp.Rval)
      requires Valid()
      modifies drv`status, drv.line
      ensures Valid() && drv.line.chip == old(drv.line.chip)
      ensures ret == if old(drv.status) == Open then Bsp.OK else Bsp.DEVICE_ERROR
      ensures drv.status == if old(drv.status) == Open then Closed else old(drv.status)
      ensures ret != Bsp.OK ==> unchanged(drv.line)
    {
      var err := drv.Shutdown(0);
      if err != Ok {
        return Bsp.DEVICE_ERROR;
      }
      return Bsp.OK;
    }

    /** The destination is written unless the driver is closed or the image too large, also if the image is rejected. */
    method BcRead(cell: ConfigCell, beyond: nat -> uint8) returns (ret: Bsp.Rval)
      requires Valid()
      modifies drv.line, bc.sum, cell
      ensures Valid()
      ensures drv.status != Open ==> ret == Bsp.CFG_CORRUPTED && unchanged(drv.line) && unchanged(cell)
      ensures drv.status == Open ==>
        var (chip, f) := FetchEdges(old(drv.line.chip));
        && drv.line.chip == chip
        && ret == (if Good(f, beyond) then Bsp.OK else Bsp.CFG_CORRUPTED)
        && cell.config == if f.n <= DATA_WORDS then ConfigOf(f) else old(cell.config)
    {
      var err := bc.Get(cell, beyond);
      if err != Ok {
        return Bsp.CFG_CORRUPTED;
      }
      return Bsp.OK;
    }
  }

  // ---- runs

  datatype EeOp =
    | AccessRead(instance: nat)
    | AccessWrite(instance: nat, data: uint16)
    | ControlWrite(cmd: int)
    | ControlInit
    | ControlShutdown
    | BcRead

  /** After a control init and the given operations the driver is open. */
  predicate IsOpen(ops: seq<EeOp>) {
    if ops == [] then true
    else
      match ops[|ops| - 1]
      case ControlInit => true
      case ControlShutdown => false
      case _ => IsOpen(ops[..|ops| - 1])
  }

  /** It is open exactly when every shutdown has been made up for by a later init. */
  lemma {:induction false} IsOpenIff(ops: seq<EeOp>)
    ensures IsOpen(ops) <==> forall i :: 0 <= i < |ops| && ops[i] == ControlShutdown ==> InitAfter(ops, i)
    decreases |ops|
  {
    if ops != [] {
      var n := |ops| - 1;
      IsOpenIff(ops[..n]);
      forall i | 0 <= i < n ensures InitAfter(ops, i) <==> InitAfter(ops[..n], i) || ops[n] == ControlInit {
        assert InitAfter(ops[..n], i) ==> InitAfter(ops, i);
      }
    }
  }

  ghost predicate InitAfter(ops: seq<EeOp>, i: nat) {
    exists j :: i < j < |ops| && ops[j] == ControlInit
  }

  /** What a control init does to the chip: the outputs go low, then a write-disable is sent. */
  function InitEdges(c: Chip): Chip {
    ControlEdges(c.Deselect(), 1).0
  }

  /** What an operation on an open driver does to the chip. */
  function OpEdges(c: Chip, op: EeOp): Chip {
    match op
    case AccessRead(i) => ReadEdges(c, i % 0x100).0
    case AccessWrite(i, d) => WriteEdges(c, i % 0x100, d).0
    case ControlWrite(cmd) => if 1 <= cmd <= 2 then ControlEdges(c, 3 - cmd).0 else c
    case ControlInit => InitEdges(c)
    case ControlShutdown => c
    case BcRead => FetchEdges(c).0
  }

  /** The last operation has an effect: on a closed driver none has but an init. */
  predicate Counts(ops: seq<EeOp>)
    requires ops != []
  {
    ops[|ops| - 1] == ControlInit || IsOpen(ops[..|ops| - 1])
  }

  function OpsEdges(c: Chip, ops: seq<EeOp>): Chip {
    if ops == [] then c
    else
      var c' := OpsEdges(c, ops[..|ops| - 1]);
      if Counts(ops) then OpEdges(c', ops[|ops| - 1]) else c'
  }

  /** The same on the flat array. */
  function EeStep(f: Flat, op: EeOp): Flat {
    match op
    case AccessWrite(i, d) => if f.enabled then f.(mem := f.mem[i % 0x100 := d]) else f
    case ControlWrite(c) => if c == 1 then f.(enabled := true) else if c == 2 then f.(enabled := false) else f
    case ControlInit => f.(enabled := false)
    case _ => f
  }

  function EeRun(f: Flat, ops: seq<EeOp>): Flat {
    if ops == [] then f
    else
      var f' := EeRun(f, ops[..|ops| - 1]);
      if Counts(ops) then EeStep(f', ops[|ops| - 1]) else f'
  }

  method PerformOp(ee: Ee, op: EeOp, cell: ConfigCell, beyond: nat -> uint8)
    requires ee.Valid()
    modifies ee.drv`status, ee.drv.line, ee.bc.sum, cell
    ensures ee.Valid()
    ensures var effective := old(ee.drv.status) == Open || (op == ControlInit && ee.drv.line.present);
      ee.drv.line.chip == if effective then OpEdges(old(ee.drv.line.chip), op) else old(ee.drv.line.chip)
    ensures old(ee.drv.status) != Open && op != ControlInit ==> unchanged(ee.drv) && unchanged(ee.drv.line)
    ensures old(ee.drv.status) == Open && op != ControlInit ==>
      ee.drv.status == if op == ControlShutdown then Closed else Open
    ensures op == ControlInit ==> ee.drv.status == if ee.drv.line.present then Open else Uninitialised
  {
    var ret;
    match op
    case AccessRead(i) =>
      var data;
      ret, data := ee.AccessRead(i);
    case AccessWrite(i, d) => ret := ee.AccessWrite(i, d);
    case ControlWrite(c) => ret := ee.ControlWrite(c);
    case ControlInit => ret := ee.ControlInit();
    case ControlShutdown => ret := ee.ControlShutdown();
    case BcRead => ret := ee.BcRead(cell, beyond);
  }

  /**
   A control init and any run of entity operations, down to the pins and from any chip state. If the chip has at most 11
   clocks of a program cycle left and is prompt from then on, it follows the write-protected array, but starting with
   the latch as it was if the chip was too busy to hear the init. EraseFreeIff and WriteProtectIff say that no more
   can be promised.
   */
  method PerformOps(ee: Ee, ops: seq<EeOp>, cell: ConfigCell, beyond: nat -> uint8) returns (ret: Bsp.Rval)
    requires ee.Valid()
    modifies ee.drv`status, ee.drv.line, ee.bc.sum, cell
    ensures ee.Valid() && ret == if ee.drv.line.present then Bsp.OK else Bsp.DEVICE_ERROR
    ensures ret == Bsp.OK ==> ee.drv.line.chip == OpsEdges(InitEdges(old(ee.drv.line.chip)), ops)
    ensures ret == Bsp.OK ==> (ee.drv.status == Open <==> IsOpen(ops))
    ensures ret == Bsp.OK && Settling(old(ee.drv.line.chip)) ==>
      InOrder(ee.drv.line.chip, EeRun(FlatAfterInit(old(ee.drv.line.chip)), ops), old(ee.drv.line.chip.log))
  {
    ghost var start := ee.drv.line.chip;
    ret := ee.ControlInit();
    if ret == Bsp.OK {
      OneByOne(ee, ops, cell, beyond);
      if Settling(start) {
        InitRefines(start);
        OpsRefine(InitEdges(start), FlatAfterInit(start), start.log, ops);
      }
    }
  }

  method OneByOne(ee: Ee, ops: seq<EeOp>, cell: ConfigCell, beyond: nat -> uint8)
    requires ee.Valid() && ee.drv.status == Open
    modifies ee.drv`status, ee.drv.line, ee.bc.sum, cell
    ensures ee.Valid() && ee.drv.line.chip == OpsEdges(old(ee.drv.line.chip), ops)
    ensures ee.drv.status == Open <==> IsOpen(ops)
  {
    ghost var start := ee.drv.line.chip;
    var i := 0;
    while i < |ops|
      invariant 0 <= i <= |ops| && ee.Valid() && (ee.drv.status == Open <==> IsOpen(ops[..i]))
      invariant ee.drv.line.chip == OpsEdges(start, ops[..i])
    {
      PerformOp(ee, ops[i], cell, beyond);
      assert ops[..i + 1][..i] == ops[..i];
      i := i + 1;
    }
    assert ops[..i] == ops;
  }

  // ---- what a control init achieves

  /** The latch is cleared if the chip is free when the frame begins; if not, the frame only passes the time. */
  lemma InitExactly(c: Chip)
    ensures var d := c.Deselect();
      InitEdges(c) == if d.busy == 0 then d.(enabled := false, log := d.log + [DisableOp]) else Later(d)
  {
    var d := c.Deselect();
    if d.busy == 0 {
      ControlEdgesControl(d, 1);
    } else {
      FrameLost(d, ControlCommand(1));
    }
  }

  /** Once the outputs are low, the chip is free at the latest after one frame, and prompt from then on. */
  ghost predicate Settling(c: Chip) {
    c.Deselect().Prompt() && c.Deselect().busy <= 11
  }

  /** The array that a control init leaves behind. */
  function FlatAfterInit(c: Chip): Flat {
    var d := c.Deselect();
    FlatOf(d).(enabled := d.enabled && d.busy > 0)
  }

  /**
   The init that fails to protect: it succeeds, but the enabled chip was finishing a program cycle and stays enabled,
   so that the next write is carried out although none was ever allowed.
   */
  lemma InitUnheard(c: Chip, i: nat, w: uint16)
    requires c.Deselect().enabled && 1 <= c.Deselect().busy <= 11
    ensures InitEdges(c).AtRest() && InitEdges(c).enabled
    ensures OpsEdges(InitEdges(c), [AccessWrite(i, w)]).mem == c.Deselect().mem[i % 0x100 := w]
  {
    InitExactly(c);
    OpsEdgesSnoc(InitEdges(c), [], AccessWrite(i, w));
    assert [] + [AccessWrite(i, w)] == [AccessWrite(i, w)];
    WriteEdgesProgram(InitEdges(c), i % 0x100, w);
  }

  /** Such a chip is what a write leaves behind whose cycle takes a little more than the polling. */
  lemma ReinitUnheard(c: Chip, i: nat, v: uint16, j: nat, w: uint16)
    requires c.AtRest() && POLLS < c.delay(c.cycles) <= POLLS + 11
    ensures OpsEdges(InitEdges(c), [ControlWrite(1), AccessWrite(i, v)] + [ControlInit] + [AccessWrite(j, w)]).mem
         == c.mem[i % 0x100 := v][j % 0x100 := w]
  {
    var late := TimedOut(c, i, v);
    InitExactly(late);
    var front := [ControlWrite(1), AccessWrite(i, v)];
    OpsEdgesSnoc(InitEdges(c), front, ControlInit);
    OpsEdgesSnoc(InitEdges(c), front + [ControlInit], AccessWrite(j, w));
    WriteEdgesProgram(Later(late), j % 0x100, w);
  }

  lemma TimedOut(c: Chip, i: nat, v: uint16) returns (late: Chip)
    requires c.AtRest() && POLLS < c.delay(c.cycles)
    ensures OpsEdges(InitEdges(c), [ControlWrite(1), AccessWrite(i, v)]) == late
    ensures late.mode == Standby && late.enabled && late.mem == c.mem[i % 0x100 := v]
    ensures late.busy == c.delay(c.cycles) - POLLS
  {
    var enable, write := ControlWrite(1), AccessWrite(i, v);
    var init := c.(enabled := false, log := c.log + [DisableOp]);
    var on := init.(enabled := true, log := init.log + [EnableOp]);
    InitExactly(c);
    OpsEdgesSnoc(init, [], enable);
    assert [] + [enable] == [enable];
    ControlEdgesControl(init, 2);
    OpsEdgesSnoc(init, [enable], write);
    assert [enable] + [write] == [enable, write];
    WriteEdgesProgram(on, i % 0x100, v);
    late := AfterProgramming(on, WriteOp(i % 0x100, v)).0;
  }

  lemma OpsEdgesSnoc(c: Chip, ops: seq<EeOp>, op: EeOp)
    requires op == ControlInit || IsOpen(ops)
    ensures OpsEdges(c, ops + [op]) == OpEdges(OpsEdges(c, ops), op)
    ensures op != ControlShutdown ==> IsOpen(ops + [op])
  {
    assert (ops + [op])[..|ops + [op]| - 1] == ops;
  }

  // ---- runs on a prompt chip are runs of the flat array

  ghost predicate InOrder(c: Chip, f: Flat, log: seq<Op>) {
    FlatOf(c) == f && c.AtRest() && c.Prompt() && NoErase(log, c.log)
  }

  lemma OpRefines(c: Chip, f: Flat, log: seq<Op>, op: EeOp)
    requires InOrder(c, f, log)
    ensures InOrder(OpEdges(c, op), EeStep(f, op), log)
  {
    match op
    case AccessRead(i) => ReadEdgesRead(c, i % 0x100);
    case AccessWrite(i, d) => WriteEdgesProgram(c, i % 0x100, d);
    case ControlWrite(cmd) => ControlEdgesControl(c, 3 - cmd);
    case ControlInit => InitExactly(c);
    case ControlShutdown =>
    case BcRead => LoadRefines(c, f, log);
  }

  lemma LoadRefines(c: Chip, f: Flat, log: seq<Op>)
    requires InOrder(c, f, log)
    ensures InOrder(FetchEdges(c).0, f, log)
  {
    FetchAtRest(c);
  }

  lemma InitRefines(c: Chip)
    requires Settling(c)
    ensures InOrder(InitEdges(c), FlatAfterInit(c), c.log)
  {
    InitExactly(c);
  }

  /** From then on memory and latch are those of the write-protected flat array, and no erase-all is heard. */
  lemma {:induction false} OpsRefine(c: Chip, f: Flat, log: seq<Op>, ops: seq<EeOp>)
    requires InOrder(c, f, log)
    ensures InOrder(OpsEdges(c, ops), EeRun(f, ops), log)
    decreases |ops|
  {
    if ops != [] {
      var front := ops[..|ops| - 1];
      OpsRefine(c, f, log, front);
      if Counts(ops) {
        OpRefines(OpsEdges(c, front), EeRun(f, front), log, ops[|ops| - 1]);
      }
    }
  }

  // ---- and only those

  function OpOf(call: Call): EeOp
    requires EnableOrWrite(call)
  {
    if call.Write? then AccessWrite(call.addr, call.data) else ControlWrite(1)
  }

  function OpsOf(calls: seq<Call>): (ops: seq<EeOp>)
    requires forall i :: 0 <= i < |calls| ==> EnableOrWrite(calls[i])
    ensures |ops| == |calls| && IsOpen(ops)
  {
    if calls == [] then []
    else
      var ops := OpsOf(calls[..|calls| - 1]) + [OpOf(calls[|calls| - 1])];
      assert ops[..|ops| - 1] == OpsOf(calls[..|calls| - 1]);
      ops
  }

  /** Enables and writes are the same at the entity as at the driver. */
  lemma {:induction false} OpsOfCalls(c: Chip, f: Flat, calls: seq<Call>)
    requires forall i :: 0 <= i < |calls| ==> EnableOrWrite(calls[i])
    ensures OpsEdges(c, OpsOf(calls)) == RunEdges(c, calls).0 && EeRun(f, OpsOf(calls)) == FlatRun(f, calls).0
    decreases |calls|
  {
    if calls != [] {
      var front, call := calls[..|calls| - 1], calls[|calls| - 1];
      OpsOfCalls(c, f, front);
      assert calls == front + [call] && OpsOf(calls)[..|calls| - 1] == OpsOf(front);
      RunEdgesSnoc(c, front, call);
      FlatRunConcat(f, front, [call]);
      OpOfCall(RunEdges(c, front).0, FlatRun(f, front).0, call);
    }
  }

  lemma OpOfCall(c: Chip, f: Flat, call: Call)
    requires EnableOrWrite(call)
    ensures OpEdges(c, OpOf(call)) == CallEdges(c, call).0 && EeStep(f, OpOf(call)) == FlatRun(f, [call]).0
  {
    assert [call][1..] == [];
  }

  /**
   Exact from any chip state: no run of entity operations after a control init makes the chip hear an erase-all, which
   none of them asks for, if and only if the chip is free after the init and prompt from then on.
   */
  lemma EraseFreeIff(c: Chip)
    ensures Settling(c) <==> forall ops :: NoErase(c.log, OpsEdges(InitEdges(c), ops).log)
  {
    if Settling(c) {
      InitRefines(c);
      forall ops ensures NoErase(c.log, OpsEdges(InitEdges(c), ops).log) {
        OpsRefine(InitEdges(c), FlatAfterInit(c), c.log, ops);
      }
    } else {
      var ops := UnprotectedRun(c);
      assert !NoErase(c.log, OpsEdges(InitEdges(c), ops).log);
    }
  }

  /** The run that shows it; unless a chip that is still busy is disabled, it ends with every word erased. */
  lemma UnprotectedRun(c: Chip) returns (ops: seq<EeOp>)
    requires !Settling(c)
    ensures var log := OpsEdges(InitEdges(c), ops).log;
      |log| > |c.log| && log[|log| - 1] == EraseAllOp
    ensures var init := InitEdges(c);
      init.AtRest() || init.enabled ==>
        OpsEdges(init, ops).mem == Erased() && EeRun(FlatOf(init), ops).mem != Erased()
  {
    var init := InitEdges(c);
    InitUnsettled(c, init);
    var last, flat;
    ops, last, flat := ErasingOps(init);
  }

  lemma ErasingOps(c: Chip) returns (ops: seq<EeOp>, last: Chip, flat: Flat)
    requires c.mode == Standby && !(c.busy == 0 && c.Prompt())
    ensures OpsEdges(c, ops) == last && EeRun(FlatOf(c), ops) == flat
    ensures EndsErased(c, last, flat, c.busy == 0 || c.enabled)
  {
    var calls;
    calls, last, flat := EraseRun(c);
    ops := OpsOf(calls);
    OpsOfCalls(c, FlatOf(c), calls);
  }

  lemma InitUnsettled(c: Chip, init: Chip)
    requires !Settling(c) && init == InitEdges(c)
    ensures init.mode == Standby && !(init.busy == 0 && init.Prompt()) && |init.log| >= |c.log|
  {
    InitExactly(c);
  }

  /** The control init is heard, or has nothing to do. */
  ghost predicate Protectable(c: Chip) {
    Settling(c) && (c.Deselect().busy == 0 || !c.Deselect().enabled)
  }

  /**
   Write protection is exact, too: every run after a control init leaves the memory and the latch of an array that
   starts out protected, if and only if moreover the chip was free to hear the init, or was disabled anyway.
   */
  lemma WriteProtectIff(c: Chip)
    ensures Protectable(c) <==>
      forall ops :: FlatOf(OpsEdges(InitEdges(c), ops)) == EeRun(FlatOf(c.Deselect()).(enabled := false), ops)
  {
    if Protectable(c) {
      InitRefines(c);
      forall ops ensures FlatOf(OpsEdges(InitEdges(c), ops)) == EeRun(FlatOf(c.Deselect()).(enabled := false), ops) {
        OpsRefine(InitEdges(c), FlatAfterInit(c), c.log, ops);
      }
    } else {
      var ops := ProtectionFails(c);
      assert FlatOf(OpsEdges(InitEdges(c), ops)) != EeRun(FlatOf(c.Deselect()).(enabled := false), ops);
    }
  }

  lemma ProtectionFails(c: Chip) returns (ops: seq<EeOp>)
    requires !Protectable(c)
    ensures FlatOf(OpsEdges(InitEdges(c), ops)) != EeRun(FlatOf(c.Deselect()).(enabled := false), ops)
  {
    var d, init := c.Deselect(), InitEdges(c);
    InitExactly(c);
    if d.busy > 0 && d.enabled {
      return [];
    }
    var calls;
    if d.busy > 11 {
      calls := [Control(2)];
      LeftoverLosesControl(init, Control(2));
    } else {
      var slow :| slow >= d.cycles && d.delay(slow) > 1000;
      calls := SlowRunErases(init, slow);
    }
    ops := OpsOf(calls);
    OpsOfCalls(init, FlatOf(init), calls);
  }

  // ---- write protection

  /** Operation k sets the latch: it is an init, or a valid control write to an open driver. */
  predicate SetsLatch(ops: seq<EeOp>, k: nat)
    requires k < |ops|
  {
    ops[k] == ControlInit || (ops[k].ControlWrite? && 1 <= ops[k].cmd <= 2 && IsOpen(ops[..k]))
  }

  /** The latest operation before position i that sets the latch is an enable. */
  ghost predicate EnabledAt(ops: seq<EeOp>, i: nat)
    requires i <= |ops|
  {
    exists j :: 0 <= j < i && Enables(ops, j) && forall k :: j < k < i ==> !SetsLatch(ops, k)
  }

  predicate Enables(ops: seq<EeOp>, j: nat)
    requires j < |ops|
  {
    SetsLatch(ops, j) && ops[j] == ControlWrite(1)
  }

  ghost predicate EffectiveWrite(ops: seq<EeOp>, i: nat, a: uint8)
    requires i < |ops|
  {
    ops[i].AccessWrite? && ops[i].instance % 0x100 == a && IsOpen(ops[..i]) && EnabledAt(ops, i)
  }

  ghost predicate UntouchedFrom(ops: seq<EeOp>, from: nat, a: uint8) {
    forall k :: from <= k < |ops| ==> !EffectiveWrite(ops, k, a)
  }

  lemma {:induction false} EnabledIff(f: Flat, ops: seq<EeOp>)
    requires !f.enabled
    ensures EeRun(f, ops).enabled <==> EnabledAt(ops, |ops|)
    decreases |ops|
  {
    if ops != [] {
      var n := |ops| - 1;
      EnabledIff(f, ops[..n]);
      EnabledPrefix(ops, n, n);
      EnabledStep(ops, n);
    }
  }

  lemma EnabledStep(ops: seq<EeOp>, n: nat)
    requires n < |ops|
    ensures EnabledAt(ops, n + 1) <==> if SetsLatch(ops, n) then Enables(ops, n) else EnabledAt(ops, n)
  {
  }

  lemma EnabledPrefix(ops: seq<EeOp>, n: nat, i: nat)
    requires i <= n <= |ops|
    ensures EnabledAt(ops[..n], i) <==> EnabledAt(ops, i)
  {
    forall k | 0 <= k < i
      ensures SetsLatch(ops[..n], k) <==> SetsLatch(ops, k)
      ensures Enables(ops[..n], k) <==> Enables(ops, k)
    {
      assert ops[..n][..k] == ops[..k];
    }
  }

  lemma EffectivePrefix(ops: seq<EeOp>, n: nat, i: nat, a: uint8)
    requires i < n <= |ops|
    ensures EffectiveWrite(ops[..n], i, a) <==> EffectiveWrite(ops, i, a)
  {
    assert ops[..n][..i] == ops[..i];
    EnabledPrefix(ops, n, i);
  }

  lemma LastEffect(f: Flat, ops: seq<EeOp>, n: nat, a: uint8)
    requires !f.enabled && |ops| == n + 1
    ensures EeRun(f, ops).mem[a] == if EffectiveWrite(ops, n, a) then ops[n].data else EeRun(f, ops[..n]).mem[a]
  {
    EnabledIff(f, ops[..n]);
    EnabledPrefix(ops, n, n);
  }

  /**
   Write-protect safety and its converse, over every run from a write-protected chip: a word keeps its value unless an
   access write to its address was made, on an open driver, while the latest valid control write or init was an
   enable, and it then holds what the last such write wrote.
   */
  lemma WriteProtected(f: Flat, ops: seq<EeOp>, a: uint8)
    requires !f.enabled
    ensures UntouchedFrom(ops, 0, a) ==> EeRun(f, ops).mem[a] == f.mem[a]
    ensures forall i :: 0 <= i < |ops| && EffectiveWrite(ops, i, a) && UntouchedFrom(ops, i + 1, a)
                    ==> EeRun(f, ops).mem[a] == ops[i].data
  {
    KeptSince(f, ops, 0, a);
    forall i | 0 <= i < |ops| && EffectiveWrite(ops, i, a) && UntouchedFrom(ops, i + 1, a)
      ensures EeRun(f, ops).mem[a] == ops[i].data
    {
      KeptSince(f, ops, i + 1, a);
      LastEffect(f, ops[..i + 1], i, a);
      EffectivePrefix(ops, i + 1, i, a);
    }
  }

  lemma {:induction false} KeptSince(f: Flat, ops: seq<EeOp>, from: nat, a: uint8)
    requires !f.enabled && from <= |ops|
    ensures UntouchedFrom(ops, from, a) ==> EeRun(f, ops).mem[a] == EeRun(f, ops[..from]).mem[a]
    decreases |ops|
  {
    if from == |ops| {
      assert ops[..from] == ops;
    } else if UntouchedFrom(ops, from, a) {
      var n := |ops| - 1;
      UntouchedPrefix(ops, n, from, a);
      KeptSince(f, ops[..n], from, a);
      LastEffect(f, ops, n, a);
      assert ops[..n][..from] == ops[..from];
    }
  }

  lemma UntouchedPrefix(ops: seq<EeOp>, n: nat, from: nat, a: uint8)
    requires n <= |ops| && UntouchedFrom(ops, from, a)
    ensures UntouchedFrom(ops[..n], from, a)
  {
    forall k | from <= k < n ensures !EffectiveWrite(ops[..n], k, a) {
      EffectivePrefix(ops, n, k, a);
    }
  }

  /** In the terms of the chip: after an init that protects, and without an enable, no run changes any word. */
  lemma NothingWithoutEnable(c: Chip, ops: seq<EeOp>)
    requires Protectable(c) && ControlWrite(1) !in ops
    ensures OpsEdges(InitEdges(c), ops).mem == c.Deselect().mem
  {
    var f := FlatOf(c.Deselect()).(enabled := false);
    WriteProtectIff(c);
    assert FlatOf(OpsEdges(InitEdges(c), ops)) == EeRun(f, ops);
    forall a | 0 <= a < 0x100 ensures EeRun(f, ops).mem[a] == f.mem[a] {
      WriteProtected(f, ops, a);
    }
  }
}

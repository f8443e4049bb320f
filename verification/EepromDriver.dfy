/** The EEPROM driver (eeprom.c): the status machine of its one context, and its three data calls. */
module EepromDriver {
  import opened Machine
  import opened Bits
  import opened Seeprom
  import opened EepromEdges
  import opened EepromBits
  import opened FlatEeprom

  datatype Status = Uninitialised | Initialised | Open | Closed

  const NUM_EEPROMS := 1

  class Driver {
    const line: Line
    var status: Status

    constructor (line: Line)
      requires line.Valid()
      ensures Valid() && this.line == line && status == Uninitialised
    {
      this.line := line;
      status := Uninitialised;
    }

    /** Once initialised, the pins are known to work and the line is idle between calls. */
    ghost predicate Valid()
      reads this, line
    {
      && line.Valid()
      && (status != Uninitialised ==> line.present && line.Idle())
    }

    /**
     Reads one word. Nothing happens on the wire unless the driver is open; if it is, the edges are those of
     ReadEdges from whatever state the chip was in, and the line ends idle.
     */
    method ReadWord(ndx: nat, addr: uint8) returns (err: IosError, data: Option<uint16>)
      requires Valid()
      modifies line
      ensures Valid()
      ensures err == DataCallStatus(ndx, old(status))
      ensures err != Ok ==> data == None && unchanged(line)
      ensures err == Ok ==> (line.chip, data) == (ReadEdges(old(line.chip), addr).0,
                                                  Some(ReadEdges(old(line.chip), addr).1))
    {
      if !(ndx < NUM_EEPROMS) {
        return Max, None;
      }
      if status != Open {
        return NotReady, None;
      }
      var cmd := 0x600 + addr;
      err := SendBits(line, 11, cmd);
      if err == Ok {
        assert line.dout == (addr % 2 == 1);
        var read := ReceiveWord(line);
        data := Some(read);
      } else {
        data := None;
      }
      FinishCommand(line, 2);
    }

    /** Writes one word and waits for the chip to finish. */
    method WriteWord(ndx: nat, addr: uint8, data: uint16) returns (err: IosError)
      requires Valid()
      modifies line
      ensures Valid()
      ensures DataCallStatus(ndx, old(status)) != Ok ==> err == DataCallStatus(ndx, old(status)) && unchanged(line)
      ensures DataCallStatus(ndx, old(status)) == Ok ==> (line.chip, err) == WriteEdges(old(line.chip), addr, data)
    {
      if !(ndx < NUM_EEPROMS) {
        return Max;
      }
      if status != Open {
        return NotReady;
      }
      var cmd := 0x500 + addr;
      err := SendBits(line, 27, cmd * 0x1_0000 + data);
      FinishCommand(line, 2);
      if err != Ok {
        return;
      }
      err := WaitForReady(line);
    }

    /** Disables or enables programming, or erases the chip; any other control value is refused without an edge. */
    method SetWriteControl(ndx: nat, control: int) returns (err: IosError)
      requires Valid()
      modifies line
      ensures Valid()
      ensures DataCallStatus(ndx, old(status)) != Ok ==> err == DataCallStatus(ndx, old(status)) && unchanged(line)
      ensures DataCallStatus(ndx, old(status)) == Ok ==> (line.chip, err) == ControlEdges(old(line.chip), control)
      ensures !(1 <= control <= 3) ==> unchanged(line)
    {
      if !(ndx < NUM_EEPROMS) {
        return Max;
      }
      if status != Open {
        return NotReady;
      }
      if control == 3 {
        err := SendBits(line, 11, ControlCommand(control));
        FinishCommand(line, 2);
        if err != Ok {
          return;
        }
        err := WaitForReady(line);
        return;
      }
      if control != 1 && control != 2 {
        return Invalid;
      }
      err := SendBits(line, 11, ControlCommand(control));
      FinishCommand(line, 2);
    }

    /** Lowers all outputs from any state; CS falling ends whatever command the chip was in. */
    method Init(ndx: nat) returns (err: IosError)
      requires Valid()
      modifies this`status, line
      ensures Valid()
      ensures (status, err) == StatusStep(old(status), line.present, ndx, LifeInit)
      ensures err == Ok ==> line.Idle() && line.chip == old(line.chip).Deselect()
      ensures err != Ok ==> line.chip == old(line.chip)
    {
      if !(ndx < NUM_EEPROMS) {
        return Max;
      }
      status := Uninitialised;
      var e1 := line.SetCS(0);
      var e2 := line.SetSK(0);
      var e3 := line.SetDO(0);
      if e1 != Ok || e2 != Ok || e3 != Ok {
        return Exists;
      }
      status := Initialised;
      return Ok;
    }

    method OpenDevice(ndx: nat) returns (err: IosError)
      requires Valid()
      modifies this`status, line
      ensures Valid() && line.chip == old(line.chip)
      ensures (status, err) == StatusStep(old(status), line.present, ndx, LifeOpen)
      ensures err != Ok ==> unchanged(line)
    {
      if !(ndx < NUM_EEPROMS) {
        return Max;
      }
      if status != Closed && status != Initialised {
        return NotReady;
      }
      var e := line.SetCS(0);
      e := line.SetSK(0);
      e := line.SetDO(0);
      status := Open;
      return Ok;
    }

    method Shutdown(ndx: nat) returns (err: IosError)
      requires Valid()
      modifies this`status, line
      ensures Valid() && line.chip == old(line.chip)
      ensures (status, err) == StatusStep(old(status), line.present, ndx, LifeShutdown)
      ensures err != Ok ==> unchanged(line)
    {
      if !(ndx < NUM_EEPROMS) {
        return Max;
      }
      if status != Open {
        return NotReady;
      }
      var e := line.SetCS(0);
      e := line.SetSK(0);
      e := line.SetDO(0);
      status := Closed;
      return Ok;
    }
  }

  /** The receive loop of ReadWord: 16 bits, each put in its place in the word. */
  method ReceiveWord(line: Line) returns (read: uint16)
    requires line.Valid() && line.present
    modifies line
    ensures line.Valid() && line.chip == AfterReading(old(line.chip), old(line.dout), 16)
    ensures read == BitsRead(old(line.chip), old(line.dout), 16)
  {
    ghost var start, d := line.chip, line.dout;
    var word := 0;
    var offset := 15;
    while offset >= 0
      invariant -1 <= offset <= 15 && line.Valid() && line.dout == d
      invariant word + BitsRead(line.chip, d, offset + 1) == BitsRead(start, d, 16)
      invariant AfterReading(line.chip, d, offset + 1) == AfterReading(start, d, 16)
    {
      var bit := ReadBit(line);
      word := word + bit * Pow2(offset);
      offset := offset - 1;
    }
    Pow2Values();
    return word;
  }

  /** What the guards at the head of every data call decide; the one device there is has index 0. */
  function DataCallStatus(ndx: nat, status: Status): (err: IosError)
    ensures err == Max <==> ndx != 0
    ensures err == Ok <==> ndx == 0 && status == Open
    ensures err == NotReady <==> ndx == 0 && status != Open
  {
    if ndx >= NUM_EEPROMS then Max else if status != Open then NotReady else Ok
  }

  /**
   The centrepiece: any run of data calls on an open driver, pin write by pin write, is that run of edges, whatever
   state the chip is in; on a prompt chip at rest it is a run of the flat array.
   */
  method PerformCalls(drv: Driver, calls: seq<Call>) returns (replies: seq<Reply>)
    requires drv.Valid() && drv.status == Open
    modifies drv.line
    ensures drv.Valid() && drv.line.Idle()
    ensures (drv.line.chip, replies) == RunEdges(old(drv.line.chip), calls)
    ensures old(drv.line.chip.AtRest() && drv.line.chip.Prompt()) ==>
      && (FlatOf(drv.line.chip), replies) == FlatRun(FlatOf(old(drv.line.chip)), calls)
      && drv.line.chip.log == old(drv.line.chip.log) + CommandsOf(calls)
      && drv.line.chip.AtRest() && drv.line.chip.Prompt()
  {
    ghost var start := drv.line.chip;
    replies := [];
    var i := 0;
    assert calls[0..] == calls && [] + RunEdges(start, calls).1 == RunEdges(start, calls).1;
    while i < |calls|
      invariant 0 <= i <= |calls| && drv.Valid()
      invariant RunEdges(start, calls)
             == (RunEdges(drv.line.chip, calls[i..]).0, replies + RunEdges(drv.line.chip, calls[i..]).1)
    {
      ghost var before := drv.line.chip;
      var reply := PerformCall(drv, calls[i]);
      assert calls[i..][1..] == calls[i + 1..];
      ghost var (last, rest) := RunEdges(drv.line.chip, calls[i + 1..]);
      RunEdgesCons(before, calls[i..], drv.line.chip, reply, last, rest);
      assert replies + ([reply] + rest) == (replies + [reply]) + rest;
      replies := replies + [reply];
      i := i + 1;
    }
    assert calls[i..] == [] && replies + [] == replies;
    if start.AtRest() && start.Prompt() {
      RunRefines(start, calls);
    }
  }

  method PerformCall(drv: Driver, call: Call) returns (reply: Reply)
    requires drv.Valid() && drv.status == Open
    modifies drv.line
    ensures drv.Valid()
    ensures (drv.line.chip, reply) == CallEdges(old(drv.line.chip), call)
  {
    match call
    case Read(a) =>
      var err, data := drv.ReadWord(0, a);
      reply := Word(data.value);
    case Write(a, d) =>
      var err := drv.WriteWord(0, a, d);
      reply := Done(err);
    case Control(v) =>
      var err := drv.SetWriteControl(0, v);
      reply := Done(err);
  }

  // ---- the status machine over whole runs

  datatype Life = LifeInit | LifeOpen | LifeShutdown

  function StatusStep(s: Status, present: bool, ndx: nat, l: Life): (Status, IosError) {
    if ndx >= NUM_EEPROMS then (s, Max)
    else
      match l
      case LifeInit => if present then (Initialised, Ok) else (Uninitialised, Exists)
      case LifeOpen => if s == Closed || s == Initialised then (Open, Ok) else (s, NotReady)
      case LifeShutdown => if s == Open then (Closed, Ok) else (s, NotReady)
  }

  function StatusAfter(s: Status, present: bool, ls: seq<Life>): Status {
    if ls == [] then s
    else StatusStep(StatusAfter(s, present, ls[..|ls| - 1]), present, 0, ls[|ls| - 1]).0
  }

  lemma StatusAfterOneMore(s: Status, present: bool, front: seq<Life>, l: Life)
    ensures StatusAfter(s, present, front + [l]) == StatusStep(StatusAfter(s, present, front), present, 0, l).0
  {
  }

  lemma {:induction false} InitialisedIff(present: bool, ls: seq<Life>)
    ensures StatusAfter(Uninitialised, present, ls) != Uninitialised <==> present && LifeInit in ls
    decreases |ls|
  {
    if ls != [] {
      var front, l := ls[..|ls| - 1], ls[|ls| - 1];
      assert ls == front + [l];
      assert LifeInit in ls <==> LifeInit in front || l == LifeInit;
      InitialisedIff(present, front);
      StatusAfterOneMore(Uninitialised, present, front, l);
    }
  }

  /**
   From power-on, the driver is open exactly when the pins work, it has been initialised at some point, and the last
   of all its life-cycle calls is an open: a shutdown or a fresh init in between does not matter, an init or a
   shutdown after it does.
   */
  lemma {:induction false} OpenIff(present: bool, ls: seq<Life>)
    ensures StatusAfter(Uninitialised, present, ls) == Open
       <==> present && ls != [] && ls[|ls| - 1] == LifeOpen && LifeInit in ls
  {
    if ls != [] {
      var front, l := ls[..|ls| - 1], ls[|ls| - 1];
      assert ls == front + [l];
      InitialisedIff(present, front);
      StatusAfterOneMore(Uninitialised, present, front, l);
    }
  }

  /**
   What a life-cycle call answers after any others, from power-on: an init whether the pins work, an open whether there
   has been an init with working pins and the last call is not an open already, a shutdown whether the driver is open.
   */
  lemma LifeReplies(present: bool, ls: seq<Life>, ndx: nat)
    ensures var s := StatusAfter(Uninitialised, present, ls);
      var isOpen := ls != [] && ls[|ls| - 1] == LifeOpen;
      && StatusStep(s, present, ndx, LifeInit).1 == (if ndx != 0 then Max else if present then Ok else Exists)
      && StatusStep(s, present, ndx, LifeOpen).1
         == (if ndx != 0 then Max else if present && LifeInit in ls && !isOpen then Ok else NotReady)
      && StatusStep(s, present, ndx, LifeShutdown).1
         == (if ndx != 0 then Max else if present && LifeInit in ls && isOpen then Ok else NotReady)
      && (ndx != 0 ==> forall l :: StatusStep(s, present, ndx, l).0 == s)
  {
    InitialisedIff(present, ls);
    OpenIff(present, ls);
  }

  // ---- whole runs: data and life-cycle calls in any order

  datatype Device = Device(flat: Flat, status: Status)

  datatype AnyCall = LifeCall(life: Life) | DataCall(call: Call)

  function DeviceStep(d: Device, present: bool, c: AnyCall): (Device, Reply) {
    match c
    case LifeCall(l) =>
      var (s, e) := StatusStep(d.status, present, 0, l);
      (d.(status := s), Done(e))
    case DataCall(call) =>
      if d.status != Open then (d, Done(NotReady))
      else
        var (f, reply) := FlatStep(d.flat, call);
        (d.(flat := f), reply)
  }

  function DeviceRun(d: Device, present: bool, calls: seq<AnyCall>): (Device, seq<Reply>) {
    if calls == [] then (d, [])
    else
      var (d', replies) := DeviceRun(d, present, calls[..|calls| - 1]);
      var (d'', reply) := DeviceStep(d', present, calls[|calls| - 1]);
      (d'', replies + [reply])
  }

  /** The chip in whatever state, and the driver's status. */
  datatype Wired = Wired(chip: Chip, status: Status)

  /** What a call does to them: an init lowers the outputs, a data call on an open driver sends its edges. */
  function AnyEdges(w: Wired, present: bool, call: AnyCall): (Wired, Reply) {
    match call
    case LifeCall(l) =>
      var (s, e) := StatusStep(w.status, present, 0, l);
      (Wired(if l == LifeInit && present then w.chip.Deselect() else w.chip, s), Done(e))
    case DataCall(call) =>
      if w.status != Open then (w, Done(NotReady))
      else
        var (c, reply) := CallEdges(w.chip, call);
        (w.(chip := c), reply)
  }

  function AnyRunEdges(w: Wired, present: bool, calls: seq<AnyCall>): (Wired, seq<Reply>) {
    if calls == [] then (w, [])
    else
      var (w', replies) := AnyRunEdges(w, present, calls[..|calls| - 1]);
      var (w'', reply) := AnyEdges(w', present, calls[|calls| - 1]);
      (w'', replies + [reply])
  }

  function DeviceOf(w: Wired): Device {
    Device(FlatOf(w.chip), w.status)
  }

  /** On a prompt chip at rest the edges are the steps of the device. */
  lemma {:induction false} DeviceRefined(w: Wired, present: bool, calls: seq<AnyCall>)
    requires w.chip.AtRest() && w.chip.Prompt()
    ensures var (w', replies) := AnyRunEdges(w, present, calls);
      && w'.chip.AtRest() && w'.chip.Prompt()
      && (DeviceOf(w'), replies) == DeviceRun(DeviceOf(w), present, calls)
    decreases |calls|
  {
    if calls != [] {
      DeviceRefined(w, present, calls[..|calls| - 1]);
      var w' := AnyRunEdges(w, present, calls[..|calls| - 1]).0;
      var call := calls[|calls| - 1];
      if call.DataCall? {
        CallRefines(w'.chip, call.call);
      }
    }
  }

  method PerformAny(drv: Driver, call: AnyCall) returns (reply: Reply)
    requires drv.Valid()
    modifies drv`status, drv.line
    ensures drv.Valid()
    ensures (Wired(drv.line.chip, drv.status), reply)
         == AnyEdges(Wired(old(drv.line.chip), old(drv.status)), drv.line.present, call)
    ensures call.DataCall? && old(drv.status) != Open ==> unchanged(drv.line)
  {
    var err;
    match call
    case LifeCall(l) =>
      match l {
        case LifeInit => err := drv.Init(0);
        case LifeOpen => err := drv.OpenDevice(0);
        case LifeShutdown => err := drv.Shutdown(0);
      }
      reply := Done(err);
    case DataCall(c) =>
      if drv.status == Open {
        reply := PerformCall(drv, c);
      } else {
        reply := PerformClosed(drv, c);
      }
  }

  /** A data call on a driver that is not open: no pin is written. */
  method PerformClosed(drv: Driver, call: Call) returns (reply: Reply)
    requires drv.Valid() && drv.status != Open
    modifies drv.line
    ensures drv.Valid() && unchanged(drv.line) && reply == Done(NotReady)
  {
    var err;
    match call
    case Read(a) =>
      var data;
      err, data := drv.ReadWord(0, a);
      reply := Done(err);
    case Write(a, d) =>
      err := drv.WriteWord(0, a, d);
      reply := Done(err);
    case Control(v) =>
      err := drv.SetWriteControl(0, v);
      reply := Done(err);
  }

  /**
   Any calls in any order, from any status and any chip state: the edges are those of the calls, and the status
   depends on the life-cycle calls alone. On a prompt chip at rest, replies, memory, write latch and status are those
   of the device.
   */
  method PerformRun(drv: Driver, calls: seq<AnyCall>) returns (replies: seq<Reply>)
    requires drv.Valid()
    modifies drv`status, drv.line
    ensures drv.Valid()
    ensures (Wired(drv.line.chip, drv.status), replies)
         == AnyRunEdges(Wired(old(drv.line.chip), old(drv.status)), drv.line.present, calls)
    ensures drv.status == StatusAfter(old(drv.status), drv.line.present, LifeOf(calls))
    ensures old(drv.line.chip.AtRest() && drv.line.chip.Prompt()) ==>
      (Device(FlatOf(drv.line.chip), drv.status), replies)
      == DeviceRun(Device(FlatOf(old(drv.line.chip)), old(drv.status)), drv.line.present, calls)
  {
    ghost var start := Wired(drv.line.chip, drv.status);
    replies := [];
    var i := 0;
    while i < |calls|
      invariant 0 <= i <= |calls| && drv.Valid()
      invariant (Wired(drv.line.chip, drv.status), replies) == AnyRunEdges(start, drv.line.present, calls[..i])
    {
      var reply := PerformAny(drv, calls[i]);
      replies := replies + [reply];
      assert calls[..i + 1][..i] == calls[..i];
      i := i + 1;
    }
    assert calls[..i] == calls;
    StatusAfterRun(start, drv.line.present, calls);
    if start.chip.AtRest() && start.chip.Prompt() {
      DeviceRefined(start, drv.line.present, calls);
    }
  }

  /** The life-cycle calls of a run. */
  function LifeOf(calls: seq<AnyCall>): seq<Life> {
    if calls == [] then []
    else
      var front, c := LifeOf(calls[..|calls| - 1]), calls[|calls| - 1];
      if c.LifeCall? then front + [c.life] else front
  }

  /** Neither data calls nor the chip have a say in the status. */
  lemma {:induction false} StatusAfterRun(w: Wired, present: bool, calls: seq<AnyCall>)
    ensures AnyRunEdges(w, present, calls).0.status == StatusAfter(w.status, present, LifeOf(calls))
    decreases |calls|
  {
    if calls != [] {
      var c := calls[|calls| - 1];
      StatusAfterRun(w, present, calls[..|calls| - 1]);
      if c.LifeCall? {
        StatusAfterOneMore(w.status, present, LifeOf(calls[..|calls| - 1]), c.life);
      }
    }
  }

  /** Over any run from power-on the driver is open exactly as OpenIff says of its life-cycle calls. */
  lemma OpenAfterRun(chip: Chip, present: bool, calls: seq<AnyCall>)
    ensures AnyRunEdges(Wired(chip, Uninitialised), present, calls).0.status == Open
       <==> && present && LifeOf(calls) != [] && LifeInit in LifeOf(calls)
            && LifeOf(calls)[|LifeOf(calls)| - 1] == LifeOpen
  {
    StatusAfterRun(Wired(chip, Uninitialised), present, calls);
    OpenIff(present, LifeOf(calls));
  }
}

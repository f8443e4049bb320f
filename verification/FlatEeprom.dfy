/**
 The EEPROM as its users think of it, a plain array of words with a write-enable flag, and the proof that the edges
 which the driver puts on the wire refine it over every run of calls.
 */
module FlatEeprom {
  import opened Machine
  import opened Seeprom
  import opened EepromEdges

  datatype Flat = Flat(mem: Memory, enabled: bool)

  function FlatOf(c: Chip): Flat {
    Flat(c.mem, c.enabled)
  }

  function FlatStep(f: Flat, call: Call): (Flat, Reply) {
    match call
    case Read(a) => (f, Word(f.mem[a]))
    case Write(a, d) => (if f.enabled then f.(mem := f.mem[a := d]) else f, Done(Ok))
    case Control(v) =>
      if v == 1 then (f.(enabled := false), Done(Ok))
      else if v == 2 then (f.(enabled := true), Done(Ok))
      else if v == 3 then (if f.enabled then f.(mem := Erased()) else f, Done(Ok))
      else (f, Done(Invalid))
  }

  function FlatRun(f: Flat, calls: seq<Call>): (Flat, seq<Reply>)
    decreases |calls|
  {
    if calls == [] then (f, [])
    else
      var (f', reply) := FlatStep(f, calls[0]);
      var (f'', replies) := FlatRun(f', calls[1..]);
      (f'', [reply] + replies)
  }

  /** The one command that a call puts on the wire, if any. */
  function CommandOf(call: Call): seq<Op> {
    match call
    case Read(a) => [ReadOp(a)]
    case Write(a, d) => [WriteOp(a, d)]
    case Control(v) =>
      if v == 1 then [DisableOp] else if v == 2 then [EnableOp] else if v == 3 then [EraseAllOp] else []
  }

  function CommandsOf(calls: seq<Call>): seq<Op>
    decreases |calls|
  {
    if calls == [] then [] else CommandOf(calls[0]) + CommandsOf(calls[1..])
  }

  lemma CallRefines(c: Chip, call: Call)
    requires c.AtRest() && c.Prompt()
    ensures var (c', reply) := CallEdges(c, call);
      && (FlatOf(c'), reply) == FlatStep(FlatOf(c), call)
      && c'.AtRest() && c'.Prompt() && c'.log == c.log + CommandOf(call) && c'.delay == c.delay
  {
    match call
    case Read(a) => ReadEdgesRead(c, a);
    case Write(a, d) => WriteEdgesProgram(c, a, d);
    case Control(v) => ControlEdgesControl(c, v);
  }

  /**
   Refinement: every run of calls gives the same replies and the same memory as the flat array, and the chip has
   recognised exactly the commands that were meant, one per call.
   */
  lemma {:induction false} RunRefines(c: Chip, calls: seq<Call>)
    requires c.AtRest() && c.Prompt()
    ensures var (last, replies) := RunEdges(c, calls);
      && (FlatOf(last), replies) == FlatRun(FlatOf(c), calls)
      && last.AtRest() && last.Prompt() && last.log == c.log + CommandsOf(calls)
    decreases |calls|
  {
    if calls != [] {
      CallRefines(c, calls[0]);
      var (c', reply) := CallEdges(c, calls[0]);
      RunRefines(c', calls[1..]);
      var (last, replies) := RunEdges(c', calls[1..]);
      RunEdgesCons(c, calls, c', reply, last, replies);
      FlatRunCons(FlatOf(c), calls, FlatOf(c'), reply, FlatOf(last), replies);
      CommandsOfCons(c.log, calls);
    }
  }

  lemma FlatRunCons(f: Flat, calls: seq<Call>, f': Flat, reply: Reply, last: Flat, replies: seq<Reply>)
    requires calls != [] && FlatStep(f, calls[0]) == (f', reply) && FlatRun(f', calls[1..]) == (last, replies)
    ensures FlatRun(f, calls) == (last, [reply] + replies)
  {
  }

  lemma CommandsOfCons(log: seq<Op>, calls: seq<Call>)
    requires calls != []
    ensures log + CommandOf(calls[0]) + CommandsOf(calls[1..]) == log + CommandsOf(calls)
  {
  }

  /** Wire round trip: a write that was reported good is what a later read returns, at that address and no other. */
  lemma WriteThenRead(c: Chip, a: uint8, d: uint16, b: uint8)
    requires c.AtRest() && c.enabled
    ensures var (c', err) := WriteEdges(c, a, d);
      && (err == Ok <==> c.delay(c.cycles) <= POLLS)
      && (err == Ok ==> ReadEdges(c', b).1 == if b == a then d else c.mem[b])
  {
    WriteEdgesProgram(c, a, d);
    var (c', err) := WriteEdges(c, a, d);
    if err == Ok {
      ReadEdgesRead(c', b);
    }
  }

  // ---- where refinement ends

  /** Chip and flat array, started as given, do not give the same replies. */
  ghost predicate Differs(c: Chip, f: Flat, calls: seq<Call>) {
    RunEdges(c, calls).1 != FlatRun(f, calls).1
  }

  /** Replies differ if they do so at once, or after the first call. */
  lemma DiffersFrom(c: Chip, f: Flat, call: Call, c': Chip, reply: Reply, calls: seq<Call>)
    requires CallEdges(c, call) == (c', reply)
    requires reply != FlatStep(f, call).1 || Differs(c', FlatStep(f, call).0, calls)
    ensures Differs(c, f, [call] + calls)
  {
    var all := [call] + calls;
    assert all[1..] == calls;
    var (f', reply') := FlatStep(f, call);
    var (chip, chipReplies) := RunEdges(c', calls);
    var (flat, flatReplies) := FlatRun(f', calls);
    RunEdgesCons(c, all, c', reply, chip, chipReplies);
    FlatRunCons(f, all, f', reply', flat, flatReplies);
    assert ([reply] + chipReplies)[0] == reply && ([reply'] + flatReplies)[0] == reply';
    assert ([reply] + chipReplies)[1..] == chipReplies && ([reply'] + flatReplies)[1..] == flatReplies;
  }

  function Writes(n: nat): seq<Call> {
    if n == 0 then [] else [Write(0, 0)] + Writes(n - 1)
  }

  /** A cycle that outlasts the polling shows up in the reply to the write that starts it. */
  lemma {:induction false} SlowCycleShows(c: Chip, k: nat)
    requires c.AtRest() && c.enabled && c.cycles <= k && c.delay(k) > POLLS
    requires forall j :: c.cycles <= j < k ==> c.delay(j) <= POLLS
    ensures Differs(c, FlatOf(c), Writes(k - c.cycles + 1))
    decreases k - c.cycles
  {
    var call, rest := Write(0, 0), Writes(k - c.cycles);
    WriteEdgesProgram(c, 0, 0);
    var (c', reply) := CallEdges(c, call);
    if k != c.cycles {
      SlowCycleShows(c', k);
    }
    DiffersFrom(c, FlatOf(c), call, c', reply, rest);
  }

  lemma {:induction false} FirstSlowCycle(c: Chip, from: nat, k: nat) returns (first: nat)
    requires from <= k && c.delay(k) > POLLS
    ensures from <= first <= k && c.delay(first) > POLLS && forall j :: from <= j < first ==> c.delay(j) <= POLLS
    decreases k - from
  {
    if c.delay(from) > POLLS {
      first := from;
    } else {
      first := FirstSlowCycle(c, from + 1, k);
    }
  }

  lemma Enabling(c: Chip, enable: Call) returns (on: Chip)
    requires c.AtRest() && enable == Control(2)
    ensures CallEdges(c, enable) == (on, Done(Ok)) && on == c.(log := c.log + [EnableOp], enabled := true)
    ensures FlatStep(FlatOf(c), enable) == (FlatOf(on), Done(Ok))
  {
    ControlEdgesControl(c, enable.value);
    on := CallEdges(c, enable).0;
  }

  lemma SlowCycleFound(c: Chip, k: nat, enable: Call) returns (calls: seq<Call>)
    requires c.AtRest() && k >= c.cycles && c.delay(k) > POLLS && enable == Control(2)
    ensures Differs(c, FlatOf(c), calls)
  {
    var first := FirstSlowCycle(c, c.cycles, k);
    var on := Enabling(c, enable);
    SlowCycleShows(on, first);
    calls := [enable] + Writes(first - c.cycles + 1);
    DiffersFrom(c, FlatOf(c), enable, on, Done(Ok), Writes(first - c.cycles + 1));
  }

  /** A latch that is not as believed shows up in a write that changes a word, or in reading that word back. */
  lemma LatchShows(c: Chip, f: Flat, write: Call, read: Call)
    requires c.AtRest() && f == FlatOf(c).(enabled := !c.enabled)
    requires write.Write? && write.data != c.mem[write.addr] && read == Read(write.addr)
    ensures Differs(c, f, [write] + ([read] + []))
  {
    WriteEdgesProgram(c, write.addr, write.data);
    var (c', reply) := CallEdges(c, write);
    var f' := FlatStep(f, write).0;
    if reply == Done(Ok) {
      ReadEdgesRead(c', read.addr);
      var (c'', word) := CallEdges(c', read);
      DiffersFrom(c', f', read, c'', word, []);
    }
    DiffersFrom(c, f, write, c', reply, [read] + []);
  }

  /** A control that a busy chip misses, sent until the chip is at rest, leaves its latch other than believed. */
  lemma {:induction false} LeftoverShows(c: Chip, f: Flat, control: Call) returns (calls: seq<Call>)
    requires c.mode == Standby && c.busy >= 1 && f.mem == c.mem
    requires control == Control(if c.enabled then 1 else 2)
    ensures Differs(c, f, calls)
    decreases c.busy
  {
    ControlLost(c, control);
    var c', f' := Later(c), f.(enabled := !c.enabled);
    if c'.busy == 0 {
      var write, read := Write(0, if c.mem[0] == 0 then 1 else 0), Read(0);
      LatchShows(c', f', write, read);
      calls := [write] + ([read] + []);
    } else {
      calls := LeftoverShows(c', f', control);
    }
    DiffersFrom(c, f, control, c', Done(Ok), calls);
    calls := [control] + calls;
  }

  /**
   The replies of all runs are those of the flat array if and only if no program cycle is running and each of those to
   come ends within the 1000 polls.
   */
  lemma PromptIsExact(c: Chip)
    requires c.mode == Standby
    ensures c.AtRest() && c.Prompt() <==> forall calls :: RunEdges(c, calls).1 == FlatRun(FlatOf(c), calls).1
  {
    if c.busy != 0 {
      var calls := LeftoverShows(c, FlatOf(c), Control(if c.enabled then 1 else 2));
      assert RunEdges(c, calls).1 != FlatRun(FlatOf(c), calls).1;
    } else if c.Prompt() {
      forall calls ensures RunEdges(c, calls).1 == FlatRun(FlatOf(c), calls).1 {
        RunRefines(c, calls);
      }
    } else {
      var k :| k >= c.cycles && c.delay(k) > 1000;
      var calls := SlowCycleFound(c, k, Control(2));
      assert RunEdges(c, calls).1 != FlatRun(FlatOf(c), calls).1;
    }
  }
}

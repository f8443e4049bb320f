/**
 What becomes of the chip when a program cycle outlasts the polling. The driver reports the write as failed, but the
 chip is deaf for some clocks more, hears the next frames from the middle on, and takes them for other commands. For
 every excess there is a run of enables and writes, nothing else, that ends in an erase-all.
 */
module SlowCycles {
  import opened Machine
  import opened Bits
  import opened Seeprom
  import opened EepromEdges
  import opened FlatEeprom

  // ---- a chip that wakes up inside a frame

  lemma {:induction false} ArmedIgnores(c: Chip, s: seq<bool>)
    requires c.busy == 0 && c.mode.Armed?
    ensures Clocked(c, s) == c
    decreases |s|
  {
    if s != [] {
      ArmedIgnores(c, s[1..]);
    }
  }

  /** A chip that hears the 11 bits of ERAL from the rest of a frame is armed to erase, whatever follows them. */
  lemma HearsErase(c: Chip, x: nat, m: nat)
    requires c.AtRest() && Low(Shifted(x, m), 11) == 0x480
    ensures Clocked(c, MsbFirst(x, 11 + m)) == c.Recognise(EraseAllOp)
  {
    var heard, rest := MsbFirst(Shifted(x, m), 11), MsbFirst(x, m);
    MsbFirstSplit(x, 11, m);
    EraseHeard(c, Shifted(x, m), 2);
    ClockedConcat(c, heard, rest);
    ArmedIgnores(c.Recognise(EraseAllOp), rest);
  }

  lemma EraseHeard(c: Chip, y: nat, k: nat)
    requires c.AtRest() && Low(y, 11) == 0x480 && k == 2
    ensures Clocked(c, MsbFirst(y, 11)) == c.Recognise(EraseAllOp)
  {
    var cmd := 0x400 + 0x40 * k;
    EndsInErase(cmd, 0);
    MsbFirstSame(y, cmd, 11);
    ControlFrame(c, k);
  }

  lemma Pow2Eleven()
    ensures Pow2(11) == 0x800
  {
    Pow2Values();
  }

  /** The chip sleeps through the first n bits of a 27-bit frame. */
  lemma SleepsThrough(c: Chip, x: nat, n: nat)
    requires c.mode == Standby && n == c.busy <= 16
    ensures Clocked(c, MsbFirst(x, 27)) == Clocked(c.(busy := 0), MsbFirst(x, 27 - n))
  {
    var deaf, heard := MsbFirst(Shifted(x, 27 - n), n), MsbFirst(x, 27 - n);
    MsbFirstSplit(x, n, 27 - n);
    ClockedConcat(c, deaf, heard);
    DeafClocks(c, deaf);
  }

  // ---- the write that turns into an erase

  /** Address and data whose frame holds ERAL right after its first n bits (after its first two for n of 1 and 2). */
  function EraseAddr(n: nat): uint8
    requires 1 <= n <= 16
  {
    if n <= 2 then 0x20 else (EraseTailBelow(n); EraseTail(n) / 0x1_0000)
  }

  function EraseData(n: nat): uint16
    requires 1 <= n <= 16
  {
    if n <= 2 then 0 else EraseTail(n) % 0x1_0000
  }

  function EraseTail(n: nat): nat
    requires n <= 16
  {
    0x480 * Pow2(16 - n)
  }

  lemma {:induction false} Pow2Monotone(m: nat, n: nat)
    requires m <= n
    ensures Pow2(m) <= Pow2(n)
  {
    if m < n {
      Pow2Monotone(m, n - 1);
    }
  }

  lemma EraseTailBelow(n: nat)
    requires 3 <= n <= 16
    ensures EraseTail(n) < 0x100_0000
  {
    Pow2Monotone(16 - n, 13);
    Pow2Values();
  }

  function EraseFrame(n: nat): nat
    requires 1 <= n <= 16
  {
    (0x500 + EraseAddr(n)) * 0x1_0000 + EraseData(n)
  }

  /** A number that ends in the bits of ERAL. */
  lemma EndsInErase(y: nat, h: nat)
    requires y == 0x800 * h + 0x480
    ensures Low(y, 11) == 0x480
  {
    Pow2Eleven();
    ShiftedIsQuotient(y, 11);
  }

  lemma FrameQuotient(x: nat, p: nat, q: nat)
    requires p > 0 && p * (8 * q) == 0x1_0000 && x == 0x500 * 0x1_0000 + 0x480 * p
    ensures x / p == 0x800 * (5 * q) + 0x480
  {
    assert p * (0x2800 * q) == 0x500 * (p * (8 * q));
    DivModUnique(x, p, 0x800 * (5 * q) + 0x480, 0);
  }

  lemma Pow2Split(n: nat)
    requires 3 <= n <= 16
    ensures Pow2(16 - n) * (8 * Pow2(n - 3)) == 0x1_0000
  {
    Pow2Sum(16 - n, n);
    Pow2Values();
    assert Pow2(n) == 2 * (2 * (2 * Pow2(n - 3)));
  }

  /** Past the first n bits of its frame, n from 3 on, the write is an ERAL. */
  lemma LateFrame(n: nat)
    requires 3 <= n <= 16
    ensures Low(Shifted(EraseFrame(n), 16 - n), 11) == 0x480
  {
    var x, p, q := EraseFrame(n), Pow2(16 - n), Pow2(n - 3);
    EraseTailBelow(n);
    Pow2Split(n);
    FrameQuotient(x, p, q);
    ShiftedIsQuotient(x, 16 - n);
    EndsInErase(Shifted(x, 16 - n), 5 * q);
  }

  /** The frame of WRITE 0x20, 0 is an ERAL past its first two bits, of which the second is low. */
  lemma EarlyFrame(x: nat)
    requires x == 0x520_0000
    ensures Low(Shifted(x, 14), 11) == 0x480
    ensures MsbFirst(x, 26) == [false] + MsbFirst(x, 25)
  {
    assert Low(Shifted(x, 14), 11) == 0x480 by {
      EarlyPowers();
      ShiftedIsQuotient(x, 14);
      EndsInErase(Shifted(x, 14), 2);
    }
    assert MsbFirst(x, 26) == [false] + MsbFirst(x, 25) by {
      EarlyPowers();
      ClearBit(x, 25, 0x200_0000);
    }
  }

  lemma EarlyPowers()
    ensures Pow2(14) == 0x4000 && Pow2(25) == 0x200_0000
  {
    Pow2Values();
    Pow2Sum(10, 15);
  }

  lemma ClearBit(x: nat, n: nat, p: nat)
    requires p == Pow2(n) && x / p % 2 == 0
    ensures MsbFirst(x, n + 1) == [false] + MsbFirst(x, n)
  {
    ShiftedIsQuotient(x, n);
  }

  /** For every leftover of 1 to 16 clocks, the frame of one write arms an erase-all. */
  lemma LeftoverArmsErase(c: Chip)
    requires c.mode == Standby && 1 <= c.busy <= 16
    ensures Clocked(c, MsbFirst(EraseFrame(c.busy), 27)) == c.(busy := 0).Recognise(EraseAllOp)
  {
    var n, x, awake := c.busy, EraseFrame(c.busy), c.(busy := 0);
    SleepsThrough(c, x, n);
    if n <= 2 {
      EarlyFrame(x);
      HearsErase(awake, x, 14);
      SkipsLow(awake, MsbFirst(x, 25));
    } else {
      LateFrame(n);
      HearsErase(awake, x, 16 - n);
    }
  }

  lemma SkipsLow(c: Chip, s: seq<bool>)
    requires c.AtRest()
    ensures Clocked(c, [false] + s) == Clocked(c, s)
  {
    assert ([false] + s)[1..] == s;
  }

  /** That write, driven to its end: all words are erased, though no erase was asked for. */
  lemma LeftoverErases(c: Chip)
    requires c.mode == Standby && c.enabled && 1 <= c.busy <= 16
    ensures var c' := WriteEdges(c, EraseAddr(c.busy), EraseData(c.busy)).0;
      && c'.mem == Erased() && c'.log == c.log + [EraseAllOp]
      && Erased()[EraseAddr(c.busy)] != EraseData(c.busy)
  {
    LeftoverArmsErase(c);
    var x := EraseFrame(c.busy);
    WaitEdgesExactly(FrameEdges(c, x, 27));
    EraseDataEven(c.busy);
  }

  lemma EraseDataEven(n: nat)
    requires 1 <= n <= 16
    ensures EraseData(n) != 0xFFFF
  {
    assert EraseTail(n) == 2 * (0x240 * Pow2(16 - n));
  }

  // ---- getting there from any leftover

  /** Any number of calls of one kind. */
  function Repeated(call: Call, n: nat): seq<Call> {
    if n == 0 then [] else Repeated(call, n - 1) + [call]
  }

  lemma RepeatedAll(call: Call, n: nat)
    ensures forall i :: 0 <= i < |Repeated(call, n)| ==> Repeated(call, n)[i] == call
  {
  }

  lemma {:induction false} RunEdgesConcat(c: Chip, s: seq<Call>, t: seq<Call>)
    ensures RunEdges(c, s + t).0 == RunEdges(RunEdges(c, s).0, t).0
    decreases |s|
  {
    if s == [] {
      assert s + t == t;
    } else {
      var (c', reply) := CallEdges(c, s[0]);
      assert (s + t)[1..] == s[1..] + t;
      RunEdgesConcat(c', s[1..], t);
      RunEdgesCons(c, s, c', reply, RunEdges(c', s[1..]).0, RunEdges(c', s[1..]).1);
      RunEdgesCons(c, s + t, c', reply, RunEdges(c', s[1..] + t).0, RunEdges(c', s[1..] + t).1);
    }
  }

  lemma RunEdgesSnoc(c: Chip, s: seq<Call>, call: Call)
    ensures RunEdges(c, s + [call]).0 == CallEdges(RunEdges(c, s).0, call).0
  {
    RunEdgesConcat(c, s, [call]);
    var (c', reply) := CallEdges(RunEdges(c, s).0, call);
    RunEdgesCons(RunEdges(c, s).0, [call], c', reply, c', []);
  }

  /** Unheard enables bring any leftover down to one that a write can exploit. */
  lemma {:induction false} Drains(c: Chip, enable: Call) returns (n: nat)
    requires c.mode == Standby && c.busy >= 1 && enable == Control(2)
    ensures n * 11 < c.busy && c.busy - n * 11 <= 16
    ensures RunEdges(c, Repeated(enable, n)).0 == c.(busy := c.busy - n * 11)
    decreases c.busy
  {
    if c.busy <= 16 {
      n := 0;
    } else {
      ControlLost(c, enable);
      var c' := CallEdges(c, enable).0;
      n := Drains(c', enable);
      RepeatedFront(enable, n);
      RunEdgesConcat(c, [enable], Repeated(enable, n));
      RunEdgesSnoc(c, [], enable);
      assert [] + [enable] == [enable];
      n := n + 1;
    }
  }

  lemma {:induction false} RepeatedFront(call: Call, n: nat)
    ensures Repeated(call, n + 1) == [call] + Repeated(call, n)
  {
    if n != 0 {
      RepeatedFront(call, n - 1);
    }
  }

  /** Writes up to the first slow cycle leave the chip enabled, between commands and busy for the excess. */
  lemma {:induction false} SlowCycleLeaves(c: Chip, write: Call, k: nat)
    requires c.AtRest() && c.enabled && c.cycles <= k && c.delay(k) > POLLS && write == Write(0, 0)
    requires forall j :: c.cycles <= j < k ==> c.delay(j) <= POLLS
    ensures var c' := RunEdges(c, Repeated(write, k - c.cycles + 1)).0;
      c'.mode == Standby && c'.enabled && c'.busy == c.delay(k) - POLLS && |c'.log| >= |c.log|
    decreases k - c.cycles
  {
    WriteEdgesProgram(c, 0, 0);
    var (c', reply) := CallEdges(c, write);
    var rest := Repeated(write, k - c.cycles);
    RepeatedFront(write, k - c.cycles);
    RunEdgesConcat(c, [write], rest);
    RunEdgesSnoc(c, [], write);
    assert [] + [write] == [write];
    if k != c.cycles {
      SlowCycleLeaves(c', write, k);
    }
  }

  // ---- the run that erases

  /** A call that the EE entity can make: an enable or a write. */
  predicate EnableOrWrite(call: Call) {
    call == Control(2) || call.Write?
  }

  lemma {:induction false} FlatRunConcat(f: Flat, s: seq<Call>, t: seq<Call>)
    ensures FlatRun(f, s + t).0 == FlatRun(FlatRun(f, s).0, t).0
    decreases |s|
  {
    if s == [] {
      assert s + t == t;
    } else {
      assert (s + t)[1..] == s[1..] + t;
      FlatRunConcat(FlatStep(f, s[0]).0, s[1..], t);
    }
  }

  lemma {:induction false} StaysEnabled(f: Flat, calls: seq<Call>)
    requires f.enabled && forall i :: 0 <= i < |calls| ==> EnableOrWrite(calls[i])
    ensures FlatRun(f, calls).0.enabled
    decreases |calls|
  {
    if calls != [] {
      StaysEnabled(FlatStep(f, calls[0]).0, calls[1..]);
    }
  }

  /**
   From every chip at rest with a slow cycle to come there is a run of enables and writes after which all words are
   erased, an erase-all being the last command heard, although the flat array ends with another memory.
   */
  lemma SlowRunErases(c: Chip, slow: nat) returns (calls: seq<Call>)
    requires c.AtRest() && c.cycles <= slow && c.delay(slow) > POLLS
    ensures forall i :: 0 <= i < |calls| ==> EnableOrWrite(calls[i])
    ensures var c' := RunEdges(c, calls).0;
      c'.mem == Erased() && |c'.log| > |c.log| && c'.log[|c'.log| - 1] == EraseAllOp
    ensures FlatRun(FlatOf(c), calls).0.mem != Erased()
  {
    var enable, write := Control(2), Write(0, 0);
    var on, late, ripe, n, m := LeftoverRun(c, slow, enable, write);
    var warm := [enable] + Repeated(write, n) + Repeated(enable, m);
    var last := Write(EraseAddr(ripe.busy), EraseData(ripe.busy));
    LeftoverErases(ripe);
    RunEdgesSnoc(c, warm, last);
    RepeatedAll(write, n);
    RepeatedAll(enable, m);
    calls := warm + [last];
    FlatEndsWith(FlatOf(c), enable, Repeated(write, n) + Repeated(enable, m), last);
    assert warm == [enable] + (Repeated(write, n) + Repeated(enable, m));
  }

  lemma LeftoverRun(c: Chip, slow: nat, enable: Call, write: Call)
      returns (on: Chip, late: Chip, ripe: Chip, n: nat, m: nat)
    requires c.AtRest() && c.cycles <= slow && c.delay(slow) > POLLS && enable == Control(2) && write == Write(0, 0)
    ensures RunEdges(c, [enable] + Repeated(write, n) + Repeated(enable, m)).0 == ripe
    ensures ripe.mode == Standby && ripe.enabled && 1 <= ripe.busy <= 16 && |ripe.log| >= |c.log|
  {
    var first := FirstSlowCycle(c, c.cycles, slow);
    on := Enabling(c, enable);
    n := first - c.cycles + 1;
    SlowCycleLeaves(on, write, first);
    late := RunEdges(on, Repeated(write, n)).0;
    m := Drains(late, enable);
    ripe := RunEdges(late, Repeated(enable, m)).0;
    RunEdgesSnoc(c, [], enable);
    assert [] + [enable] == [enable];
    RunEdgesConcat(c, [enable], Repeated(write, n));
    RunEdgesConcat(c, [enable] + Repeated(write, n), Repeated(enable, m));
  }

  lemma FlatEndsWith(f: Flat, enable: Call, calls: seq<Call>, last: Call)
    requires enable == Control(2) && last.Write? && forall i :: 0 <= i < |calls| ==> EnableOrWrite(calls[i])
    ensures FlatRun(f, [enable] + calls + [last]).0.mem[last.addr] == last.data
  {
    var f' := FlatStep(f, enable).0;
    var all := [enable] + calls + [last];
    assert all[1..] == calls + [last];
    EnabledEndsWith(f', calls, last);
  }

  lemma EnabledEndsWith(f: Flat, calls: seq<Call>, last: Call)
    requires f.enabled && last.Write? && forall i :: 0 <= i < |calls| ==> EnableOrWrite(calls[i])
    ensures FlatRun(f, calls + [last]).0.mem[last.addr] == last.data
  {
    StaysEnabled(f, calls);
    FlatRunConcat(f, calls, [last]);
    assert [last][1..] == [];
  }

  /** The run ends with an erase-all heard; if that is carried out, the flat array ends with other words. */
  ghost predicate EndsErased(c: Chip, last: Chip, flat: Flat, carriedOut: bool) {
    && |last.log| > |c.log| && last.log[|last.log| - 1] == EraseAllOp
    && (carriedOut ==> last.mem == Erased() && flat.mem != Erased())
  }

  /** From every leftover there is a run of enables and one write in which the chip hears an erase-all. */
  lemma LeftoverHearsErase(c: Chip, enable: Call) returns (calls: seq<Call>)
    requires c.mode == Standby && c.busy >= 1 && enable == Control(2)
    ensures forall i :: 0 <= i < |calls| ==> EnableOrWrite(calls[i])
    ensures EndsErased(c, RunEdges(c, calls).0, FlatRun(FlatOf(c), calls).0, c.enabled)
  {
    var n := Drains(c, enable);
    var ripe := c.(busy := c.busy - n * 11);
    var last := Write(EraseAddr(ripe.busy), EraseData(ripe.busy));
    RepeatedAll(enable, n);
    calls := Repeated(enable, n) + [last];
    RunEdgesSnoc(c, Repeated(enable, n), last);
    LeftoverHeard(ripe);
    if c.enabled {
      LeftoverErases(ripe);
      EnabledEndsWith(FlatOf(c), Repeated(enable, n), last);
    }
  }

  lemma LeftoverHeard(c: Chip)
    requires c.mode == Standby && 1 <= c.busy <= 16
    ensures WriteEdges(c, EraseAddr(c.busy), EraseData(c.busy)).0.log == c.log + [EraseAllOp]
  {
    LeftoverArmsErase(c);
    WaitEdgesExactly(FrameEdges(c, EraseFrame(c.busy), 27));
  }

  /** Whatever is wrong with a chip, a running cycle or a slow one to come, there is a run that erases. */
  lemma EraseRun(c: Chip) returns (calls: seq<Call>, last: Chip, flat: Flat)
    requires c.mode == Standby && !(c.busy == 0 && c.Prompt())
    ensures forall i :: 0 <= i < |calls| ==> EnableOrWrite(calls[i])
    ensures RunEdges(c, calls).0 == last && FlatRun(FlatOf(c), calls).0 == flat
    ensures EndsErased(c, last, flat, c.busy == 0 || c.enabled)
  {
    if c.busy != 0 {
      calls := LeftoverHearsErase(c, Control(2));
    } else {
      var slow :| slow >= c.cycles && c.delay(slow) > 1000;
      calls := SlowRunErases(c, slow);
    }
    last, flat := RunEdges(c, calls).0, FlatRun(FlatOf(c), calls).0;
  }

  /** A control that a busy chip misses leaves the latch other than the flat array's. */
  lemma LeftoverLosesControl(c: Chip, control: Call)
    requires c.mode == Standby && c.busy >= 1 && control == Control(if c.enabled then 1 else 2)
    ensures FlatOf(RunEdges(c, [control]).0) != FlatRun(FlatOf(c), [control]).0
  {
    ControlLost(c, control);
    assert [control][1..] == [];
    RunEdgesCons(c, [control], Later(c), Done(Ok), Later(c), []);
  }

  /**
   The same bound is exact for memory: over all runs that never ask for an erase, the memory and the latch are those of
   the flat array if and only if no program cycle is running and all to come are prompt.
   */
  lemma MemoryIsExact(c: Chip)
    requires c.mode == Standby
    ensures c.AtRest() && c.Prompt() <==>
      forall calls :: Control(3) !in calls ==> FlatOf(RunEdges(c, calls).0) == FlatRun(FlatOf(c), calls).0
  {
    if c.busy != 0 {
      var control := Control(if c.enabled then 1 else 2);
      LeftoverLosesControl(c, control);
      assert Control(3) !in [control];
    } else if c.Prompt() {
      forall calls | Control(3) !in calls ensures FlatOf(RunEdges(c, calls).0) == FlatRun(FlatOf(c), calls).0 {
        RunRefines(c, calls);
      }
    } else {
      var slow :| slow >= c.cycles && c.delay(slow) > 1000;
      var calls := SlowRunErases(c, slow);
      assert Control(3) !in calls && FlatOf(RunEdges(c, calls).0) != FlatRun(FlatOf(c), calls).0;
    }
  }

  /** And so it is for erasing: exactly then the chip hears an erase-all in none of those runs. */
  lemma NoEraseIsExact(c: Chip)
    requires c.mode == Standby
    ensures c.AtRest() && c.Prompt() <==>
      forall calls :: Control(3) !in calls ==> NoErase(c.log, RunEdges(c, calls).0.log)
  {
    if c.AtRest() && c.Prompt() {
      forall calls | Control(3) !in calls ensures NoErase(c.log, RunEdges(c, calls).0.log) {
        RunRefines(c, calls);
        CommandsWithoutErase(calls);
      }
    } else {
      var calls, last, flat := EraseRun(c);
      assert Control(3) !in calls && !NoErase(c.log, last.log);
    }
  }

  /** The log has grown, and by no erase-all command. */
  ghost predicate NoErase(before: seq<Op>, after: seq<Op>) {
    && |before| <= |after| && after[..|before|] == before
    && forall i :: |before| <= i < |after| ==> after[i] != EraseAllOp
  }

  lemma {:induction false} CommandsWithoutErase(calls: seq<Call>)
    requires Control(3) !in calls
    ensures EraseAllOp !in CommandsOf(calls)
    decreases |calls|
  {
    if calls != [] {
      CommandsWithoutErase(calls[1..]);
    }
  }
}

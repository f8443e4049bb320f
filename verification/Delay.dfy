/** Busy waiting on a 32-bit clock (delay.c). */
module Delay {
  import opened Machine

  const WRAP := 0x1_0000_0000

  /** usec_to_timer_ticks at the given timer frequency. The product is computed in 64 bits. */
  function TimerTicks(frequency: uint32, usec: uint32): (ticks: uint32)
  {
    var ticks64 := frequency * usec / 1_000_000;
    if ticks64 >= WRAP then 0xFFFF_FFFF
    else if usec != 0 && ticks64 == 0 then 1
    else ticks64
  }

  lemma ProductFits(frequency: uint32, usec: uint32)
    ensures frequency * usec < 0x1_0000_0000_0000_0000
  {
    MulMonotone(frequency, WRAP - 1, usec, WRAP - 1);
  }

  lemma MulMonotone(a: nat, b: nat, c: nat, d: nat)
    requires a <= b && c <= d
    ensures a * c <= b * d
  {
  }

  /** Longer delays and faster timers never take fewer ticks. */
  lemma TicksMonotone(f1: uint32, f2: uint32, u1: uint32, u2: uint32)
    requires f1 <= f2 && u1 <= u2
    ensures TimerTicks(f1, u1) <= TimerTicks(f2, u2)
  {
    MulMonotone(f1, f2, u1, u2);
    DivMonotone(f1 * u1, f2 * u2);
  }

  lemma DivMonotone(x: nat, y: nat)
    requires x <= y
    ensures x / 1_000_000 <= y / 1_000_000
  {
  }

  /** A nonzero delay takes at least one tick, and unless it saturates the ticks are the delay to within one tick. */
  lemma TicksAccurate(frequency: uint32, usec: uint32)
    ensures usec != 0 ==> TimerTicks(frequency, usec) >= 1
    ensures TimerTicks(frequency, usec) == 0 <==> usec == 0
    ensures TimerTicks(frequency, usec) < 0xFFFF_FFFF ==>
      frequency * usec < (TimerTicks(frequency, usec) + 1) * 1_000_000
    ensures TimerTicks(frequency, usec) > 1 ==> TimerTicks(frequency, usec) * 1_000_000 <= frequency * usec
  {
  }

  /** The clock as it is read: the true time cut to 32 bits. */
  function Sample(time: nat): uint32 {
    time % WRAP
  }

  /** now - start in 32-bit arithmetic */
  function Elapsed(start: uint32, now: uint32): uint32 {
    (now - start + WRAP) % WRAP
  }

  lemma ElapsedIsTrueModWrap(t0: nat, t: nat)
    requires t0 <= t
    ensures Elapsed(Sample(t0), Sample(t)) == (t - t0) % 0x1_0000_0000
  {
  }

  ghost predicate Ascending(times: seq<nat>) {
    forall i, j :: 0 <= i <= j < |times| ==> times[i] <= times[j]
  }

  /** At sample k the true time has reached the target, and at none before. */
  ghost predicate FirstReached(times: seq<nat>, ticks: nat, k: nat) {
    && 0 < k < |times| && times[k] - times[0] >= ticks
    && forall i :: 0 < i < k ==> times[i] - times[0] < ticks
  }

  /** Never more than gap ticks between two samples. */
  ghost predicate Frequent(times: seq<nat>, gap: int) {
    forall i :: 0 <= i < |times| - 1 ==> times[i + 1] - times[i] <= gap
  }

  /** The wait sees at sample k that it is over. */
  ghost predicate Seen(times: seq<nat>, ticks: nat, k: nat)
    requires 0 <= k < |times|
  {
    Elapsed(Sample(times[0]), Sample(times[k])) >= ticks
  }

  /**
   The wait, over a clock that is sampled at the given true times: the result is the sample at which it ends, if any.
   It never ends early, even though the clock wraps. It ends at the first sample that could do, exactly if the clock
   has not by then gone around and past the start again; see GapIsExact for what rules that out.
   */
  method Udelay(frequency: uint32, usec: uint32, times: seq<nat>) returns (exit: Option<nat>)
    requires |times| > 0 && Ascending(times)
    ensures exit.Some? ==> 0 < exit.value < |times|
    ensures exit.Some? ==> times[exit.value] - times[0] >= TimerTicks(frequency, usec)
    ensures forall k: nat :: FirstReached(times, TimerTicks(frequency, usec), k) ==>
      (exit == Some(k) <==> Seen(times, TimerTicks(frequency, usec), k))
    ensures Frequent(times, 0x1_0000_0000 - TimerTicks(frequency, usec)) ==>
      forall k: nat :: FirstReached(times, TimerTicks(frequency, usec), k) ==> exit == Some(k)
  {
    var ticks := TimerTicks(frequency, usec);
    forall k: nat | FirstReached(times, ticks, k) && Frequent(times, WRAP - ticks) ensures Seen(times, ticks, k) {
      NotSkipped(times, ticks, k);
    }
    var start := Sample(times[0]);
    var i := 1;
    while i < |times|
      invariant 1 <= i <= |times|
      invariant forall k: nat :: FirstReached(times, ticks, k) && Seen(times, ticks, k) ==> i <= k
    {
      var now := Sample(times[i]);
      ElapsedIsTrueModWrap(times[0], times[i]);
      if !(Elapsed(start, now) < ticks) {
        ModAtMost(times[i] - times[0]);
        return Some(i);
      }
      i := i + 1;
    }
    return None;
  }

  lemma ModAtMost(x: nat)
    ensures x % WRAP <= x
  {
  }

  lemma NotSkipped(times: seq<nat>, ticks: uint32, k: nat)
    requires Ascending(times) && FirstReached(times, ticks, k) && Frequent(times, WRAP - ticks)
    ensures Seen(times, ticks, k)
  {
    ElapsedIsTrueModWrap(times[0], times[k]);
    assert times[k - 1 + 1] - times[k - 1] <= WRAP - ticks;
    if ticks != 0 {
      assert times[k - 1] - times[0] < ticks;
    }
  }

  /**
   The bound on the time between samples is exact: waits of the given length are always seen to be over at the first
   sample that could do if and only if no two samples are more than 2^32 - ticks apart.
   */
  lemma GapIsExact(ticks: uint32, gap: nat)
    requires ticks > 0
    ensures gap <= 0x1_0000_0000 - ticks
       <==> forall times: seq<nat>, k: nat ::
              Ascending(times) && Frequent(times, gap) && FirstReached(times, ticks, k) ==> Seen(times, ticks, k)
  {
    if gap <= WRAP - ticks {
      forall times: seq<nat>, k: nat | Ascending(times) && Frequent(times, gap) && FirstReached(times, ticks, k)
        ensures Seen(times, ticks, k)
      {
        NotSkipped(times, ticks, k);
      }
    } else {
      var times := SlipsPast(ticks);
      assert Frequent(times, gap) && FirstReached(times, ticks, ticks);
      assert !Seen(times, ticks, ticks);
    }
  }

  /** Samples at every tick up to the last before the target, and then one when the clock is back at its start. */
  lemma SlipsPast(ticks: uint32) returns (times: seq<nat>)
    requires ticks > 0
    ensures |times| == ticks + 1 && Ascending(times) && Frequent(times, WRAP - ticks + 1)
    ensures FirstReached(times, ticks, ticks) && !Seen(times, ticks, ticks)
  {
    times := seq(ticks, i requires 0 <= i < ticks => i) + [WRAP];
    ElapsedIsTrueModWrap(0, WRAP);
  }
}

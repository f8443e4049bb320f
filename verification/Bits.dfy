/** Powers of two and the most-significant-bit-first order in which words travel over the serial line. */
module Bits {

  function Pow2(n: nat): (p: nat)
    ensures p >= 1
  {
    if n == 0 then 1 else 2 * Pow2(n - 1)
  }

  /** x >> i */
  function Shifted(x: nat, i: nat): nat
    decreases i, x
  {
    if i == 0 then x else Shifted(x / 2, i - 1)
  }

  /** (x >> i) & 1 */
  predicate Bit(x: nat, i: nat) {
    Shifted(x, i) % 2 == 1
  }

  /** The low n bits of x, as a number. */
  function Low(x: nat, n: nat): nat
    decreases n, x
  {
    if n == 0 then 0 else 2 * Low(x / 2, n - 1) + x % 2
  }

  function BitValue(b: bool): nat {
    if b then 1 else 0
  }

  /** The low n bits of x, most significant first. */
  function MsbFirst(x: nat, n: nat): (s: seq<bool>)
    ensures |s| == n
  {
    if n == 0 then [] else [Bit(x, n - 1)] + MsbFirst(x, n - 1)
  }

  /** What a shift register holding r holds after the bits of s have been shifted in at its low end. */
  function ShiftIn(r: nat, s: seq<bool>): nat
    decreases |s|
  {
    if s == [] then r else ShiftIn(2 * r + BitValue(s[0]), s[1..])
  }

  lemma Pow2Values()
    ensures Pow2(0) == 1 && Pow2(1) == 2 && Pow2(8) == 0x100 && Pow2(10) == 0x400
    ensures Pow2(15) == 0x8000 && Pow2(16) == 0x1_0000
  {
  }

  lemma {:induction false} Pow2Sum(m: nat, n: nat)
    ensures Pow2(m + n) == Pow2(m) * Pow2(n)
  {
    if m != 0 {
      Pow2Sum(m - 1, n);
      assert 2 * Pow2(m - 1) * Pow2(n) == 2 * (Pow2(m - 1) * Pow2(n));
    }
  }

  lemma DivModUnique(x: nat, d: nat, q: nat, r: nat)
    requires d > 0 && r < d && x == d * q + r
    ensures x / d == q && x % d == r
  {
    var q', r' := x / d, x % d;
    assert x == d * q' + r';
    MulApart(d, q - q');
    assert d * (q - q') == d * q - d * q' == r' - r;
  }

  lemma MulApart(d: int, k: int)
    requires d >= 0
    ensures k >= 1 ==> d * k >= d
    ensures k <= -1 ==> d * k <= -d
  {
  }

  /** Halving first: quotient and remainder by 2p. */
  lemma HalfDivMod(x: nat, p: nat)
    requires p > 0
    ensures x / (2 * p) == x / 2 / p && x % (2 * p) == 2 * (x / 2 % p) + x % 2
  {
    var h, b := x / 2, x % 2;
    var q, r := h / p, h % p;
    assert h == p * q + r;
    assert (2 * p) * q == 2 * (p * q);
    DivModUnique(x, 2 * p, q, 2 * r + b);
  }

  lemma {:induction false} ShiftedIsQuotient(x: nat, n: nat)
    ensures Shifted(x, n) == x / Pow2(n) && Low(x, n) == x % Pow2(n)
    decreases n
  {
    if n != 0 {
      ShiftedIsQuotient(x / 2, n - 1);
      HalfDivMod(x, Pow2(n - 1));
    }
  }

  lemma {:induction false} ShiftedTwice(x: nat, m: nat, i: nat)
    ensures Shifted(Shifted(x, m), i) == Shifted(x, m + i)
    decreases m
  {
    if m != 0 {
      ShiftedTwice(x / 2, m - 1, i);
    }
  }

  lemma {:induction false} LowTop(x: nat, n: nat)
    requires n > 0
    ensures Low(x, n) == (if Bit(x, n - 1) then Pow2(n - 1) else 0) + Low(x, n - 1)
    decreases n
  {
    if n > 1 {
      LowTop(x / 2, n - 1);
    }
  }

  lemma {:induction false} LowBelow(x: nat, n: nat)
    ensures Low(x, n) < Pow2(n)
    decreases n
  {
    if n != 0 {
      LowBelow(x / 2, n - 1);
    }
  }

  /** The low n bits are all that is sent. */
  lemma {:induction false} MsbFirstSame(x: nat, y: nat, n: nat)
    requires Low(x, n) == Low(y, n)
    ensures MsbFirst(x, n) == MsbFirst(y, n)
    decreases n
  {
    if n != 0 {
      LowTop(x, n);
      LowTop(y, n);
      LowBelow(x, n - 1);
      LowBelow(y, n - 1);
      MsbFirstSame(x, y, n - 1);
    }
  }

  lemma Distribute(r: nat, b: bool, p: nat)
    ensures (2 * r + BitValue(b)) * p == r * (2 * p) + (if b then p else 0)
  {
  }

  /** A receiver that shifts in the bits of x recovers x: the two directions of the wire are inverse. */
  lemma {:induction false} ShiftInMsbFirst(r: nat, x: nat, n: nat)
    ensures ShiftIn(r, MsbFirst(x, n)) == r * Pow2(n) + Low(x, n)
    decreases n
  {
    if n != 0 {
      var b := Bit(x, n - 1);
      assert MsbFirst(x, n)[1..] == MsbFirst(x, n - 1);
      ShiftInMsbFirst(2 * r + BitValue(b), x, n - 1);
      LowTop(x, n);
      Distribute(r, b, Pow2(n - 1));
    }
  }

  /** Sending n + m bits is sending the high n, then the low m. */
  lemma {:induction false} MsbFirstSplit(x: nat, n: nat, m: nat)
    ensures MsbFirst(x, n + m) == MsbFirst(Shifted(x, m), n) + MsbFirst(x, m)
    decreases n
  {
    if n != 0 {
      ShiftedTwice(x, m, n - 1);
      MsbFirstSplit(x, n - 1, m);
    }
  }

  // ---- words as bit vectors, least significant bit first

  /** The low n bits of x, least significant first. */
  function LowBits(x: nat, n: nat): (s: seq<bool>)
    ensures |s| == n
    decreases n, x
  {
    if n == 0 then [] else [x % 2 == 1] + LowBits(x / 2, n - 1)
  }

  lemma {:induction false} LowBitsInjective(x: nat, y: nat, n: nat)
    requires x < Pow2(n) && y < Pow2(n) && LowBits(x, n) == LowBits(y, n)
    ensures x == y
    decreases n
  {
    if n != 0 {
      assert LowBits(x, n)[0] == LowBits(y, n)[0];
      assert LowBits(x, n)[1..] == LowBits(x / 2, n - 1) && LowBits(y, n)[1..] == LowBits(y / 2, n - 1);
      LowBitsInjective(x / 2, y / 2, n - 1);
    }
  }

  /** The bits of h above those of l. */
  lemma {:induction false} LowBitsConcat(l: nat, h: nat, n: nat, m: nat)
    requires l < Pow2(n)
    ensures LowBits(l + Pow2(n) * h, n + m) == LowBits(l, n) + LowBits(h, m)
    decreases n
  {
    if n == 0 {
      assert LowBits(l, 0) == [] && l + Pow2(0) * h == h;
    } else {
      var p := Pow2(n - 1);
      assert Pow2(n) * h == 2 * (p * h);
      LowBitsConcat(l / 2, h, n - 1, m);
    }
  }

  function Zeros(n: nat): (s: seq<bool>)
    ensures |s| == n && forall i :: 0 <= i < n ==> !s[i]
  {
    seq(n, _ => false)
  }

  function Xor(a: seq<bool>, b: seq<bool>): (s: seq<bool>)
    requires |a| == |b|
    ensures |s| == |a| && forall i :: 0 <= i < |a| ==> s[i] == (a[i] != b[i])
  {
    seq(|a|, i requires 0 <= i < |a| => a[i] != b[i])
  }

  function Not(a: seq<bool>): (s: seq<bool>)
    ensures |s| == |a| && forall i :: 0 <= i < |a| ==> s[i] == !a[i]
  {
    seq(|a|, i requires 0 <= i < |a| => !a[i])
  }

  /** a >> k */
  function ShiftRight(a: seq<bool>, k: nat): (s: seq<bool>)
    requires k <= |a|
    ensures |s| == |a|
  {
    a[k..] + Zeros(k)
  }

  /** The low k bits of a, zero-extended. */
  function LowPart(a: seq<bool>, k: nat): (s: seq<bool>)
    requires k <= |a|
    ensures |s| == |a|
  {
    a[..k] + Zeros(|a| - k)
  }
}

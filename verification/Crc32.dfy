/** The checksum of crc32.c, against the bit-serial CRC-32 register of section 8 of RFC 1952. */
module Crc32 {
  import opened Machine
  import opened Bits

  /** A uint32_t that is only ever shifted and xored: its 32 bits, least significant first. */
  type Register = s: seq<bool> | |s| == 32 witness Zeros(32)

  /** 0xedb88320; from the low end its nibbles are 0, 2, 3, 8, 8, b, d, e. */
  const POLYNOMIAL: Register := [
    false, false, false, false,   false, true, false, false,   true, true, false, false,   false, false, false, true,
    false, false, false, true,    true, true, false, true,     true, false, true, true,    false, true, true, true]

  /** One shift of the reflected register. */
  function Step(c: Register): Register {
    if c[0] then Xor(ShiftRight(c, 1), POLYNOMIAL) else ShiftRight(c, 1)
  }

  function Steps(c: Register, n: nat): Register
    decreases n, c
  {
    if n == 0 then c else Steps(Step(c), n - 1)
  }

  // ---- the reference: one message bit per shift

  function FeedBit(c: Register, b: bool): Register {
    Step(c[0 := c[0] != b])
  }

  function BitSerial(c: Register, bits: seq<bool>): Register
    decreases |bits|
  {
    if bits == [] then c else BitSerial(FeedBit(c, bits[0]), bits[1..])
  }

  function MessageBits(msg: seq<uint8>): (s: seq<bool>)
    ensures |s| == 8 * |msg|
  {
    if msg == [] then [] else LowBits(msg[0], 8) + MessageBits(msg[1..])
  }

  function Crc(msg: seq<uint8>): Register {
    Not(BitSerial(Not(Zeros(32)), MessageBits(msg)))
  }

  // ---- the code

  class Checksum {
    var value: Register

    constructor ()
    {
      value := Zeros(32);
    }

    method Reset()
      modifies this
      ensures value == Zeros(32)
    {
      value := Zeros(32);
    }

    /**
     One call adds msg to the register, eight shifts of the low byte at a time. The register is complemented on entry
     and left uncomplemented; straight after a reset the result is the CRC of msg, whatever was computed before.
     */
    method Input(msg: seq<uint8>) returns (crc: Register)
      modifies this
      ensures crc == Not(BitSerial(Not(old(value)), MessageBits(msg)))
      ensures value == Not(crc)
      ensures old(value) == Zeros(32) ==> crc == Crc(msg)
    {
      value := Not(value);
      var i := 0;
      assert msg[0..] == msg;
      while i < |msg|
        invariant 0 <= i <= |msg|
        invariant BitSerial(value, MessageBits(msg[i..])) == BitSerial(Not(old(value)), MessageBits(msg))
      {
        ghost var before := value;
        var index := LowPart(Xor(value, LowBits(msg[i], 8) + Zeros(24)), 8);
        var constant := ShiftedByte(index);
        value := Xor(constant, ShiftRight(value, 8));
        ByteUpdate(before, LowBits(msg[i], 8));
        BitSerialConcat(before, LowBits(msg[i], 8), MessageBits(msg[i..][1..]));
        assert msg[i..][1..] == msg[i + 1..];
        i := i + 1;
      }
      assert msg[i..] == [];
      crc := Not(value);
      assert Not(crc) == value;
    }
  }

  /** The inner loop: the table entry that a table-driven version would look up. */
  method ShiftedByte(index: Register) returns (constant: Register)
    ensures constant == Steps(index, 8)
  {
    constant := index;
    var j := 0;
    while j < 8
      invariant 0 <= j <= 8
      invariant Steps(constant, 8 - j) == Steps(index, 8)
    {
      if constant[0] {
        constant := ShiftRight(constant, 1);
        constant := Xor(constant, POLYNOMIAL);
      } else {
        constant := ShiftRight(constant, 1);
      }
      j := j + 1;
    }
  }

  // ---- a byte at a time is a bit at a time

  lemma {:induction false} BitSerialConcat(c: Register, s: seq<bool>, t: seq<bool>)
    ensures BitSerial(c, s + t) == BitSerial(BitSerial(c, s), t)
    decreases |s|
  {
    if s == [] {
      assert s + t == t;
    } else {
      assert (s + t)[1..] == s[1..] + t;
      BitSerialConcat(FeedBit(c, s[0]), s[1..], t);
    }
  }

  /** A shift is linear over xor: the bits above the lowest only move along. */
  lemma StepXor(c: Register, w: Register)
    ensures Step(Xor(c, w)) == Xor(FeedBit(c, w[0]), ShiftRight(w, 1))
  {
  }

  /** Xoring a word into the register ahead of n shifts is feeding its low n bits one by one. */
  lemma {:induction false} WordAtOnce(c: Register, w: Register, n: nat)
    requires n <= 32
    ensures Steps(Xor(c, w), n) == Xor(BitSerial(c, w[..n]), ShiftRight(w, n))
    decreases n
  {
    if n == 0 {
      assert ShiftRight(w, 0) == w;
    } else {
      var w' := ShiftRight(w, 1);
      StepXor(c, w);
      WordAtOnce(FeedBit(c, w[0]), w', n - 1);
      assert w[..n][1..] == w'[..n - 1];
      assert ShiftRight(w', n - 1) == ShiftRight(w, n);
    }
  }

  /** Up to 32 bits can be xored in at once. */
  lemma BitsAtOnce(c: Register, s: seq<bool>)
    requires |s| <= 32
    ensures BitSerial(c, s) == Steps(Xor(c, s + Zeros(32 - |s|)), |s|)
  {
    var w := s + Zeros(32 - |s|);
    WordAtOnce(c, w, |s|);
    assert w[..|s|] == s;
    var fed := BitSerial(c, s);
    assert Xor(fed, ShiftRight(w, |s|)) == fed;
  }

  lemma {:induction false} ZeroBits(c: Register, n: nat)
    ensures BitSerial(c, Zeros(n)) == Steps(c, n)
    decreases n
  {
    if n != 0 {
      assert Zeros(n)[1..] == Zeros(n - 1);
      assert c[0 := c[0] != false] == c;
      ZeroBits(Step(c), n - 1);
    }
  }

  /** The update that the code makes for one byte is the feeding of its eight bits. */
  lemma ByteUpdate(c: Register, byte: seq<bool>)
    requires |byte| == 8
    ensures var x := Xor(c, byte + Zeros(24));
      Xor(Steps(LowPart(x, 8), 8), ShiftRight(c, 8)) == BitSerial(c, byte)
  {
    var x := Xor(c, byte + Zeros(24));
    BitsAtOnce(c, byte);
    var low, high := LowPart(x, 8), Zeros(8) + x[8..];
    assert Xor(low, high) == x;
    WordAtOnce(low, high, 8);
    assert high[..8] == Zeros(8);
    ZeroBits(low, 8);
    assert ShiftRight(high, 8) == ShiftRight(c, 8);
  }

  // ---- what the checksum detects

  /** A shift can be undone: its top bit tells which way it went. */
  lemma StepInjective(a: Register, b: Register)
    requires Step(a) == Step(b)
    ensures a == b
  {
    assert POLYNOMIAL[31];
    assert Step(a)[31] == a[0] && Step(b)[31] == b[0];
    forall i | 0 < i < 32 ensures a[i] == b[i] {
      assert Step(a)[i - 1] == Step(b)[i - 1];
    }
  }

  lemma {:induction false} StepsInjective(a: Register, b: Register, n: nat)
    requires Steps(a, n) == Steps(b, n)
    ensures a == b
    decreases n
  {
    if n != 0 {
      StepsInjective(Step(a), Step(b), n - 1);
      StepInjective(a, b);
    }
  }

  lemma {:induction false} BitSerialInjective(a: Register, b: Register, s: seq<bool>)
    requires BitSerial(a, s) == BitSerial(b, s)
    ensures a == b
    decreases |s|
  {
    if s != [] {
      var a', b' := a[0 := a[0] != s[0]], b[0 := b[0] != s[0]];
      BitSerialInjective(Step(a'), Step(b'), s[1..]);
      StepInjective(a', b');
      forall i | 0 <= i < 32 ensures a[i] == b[i] {
        assert a'[i] == b'[i];
      }
    }
  }

  /** From one register, 32 bits or fewer lead to the same register only if they are the same bits. */
  lemma ShortBitsInjective(c: Register, u: seq<bool>, v: seq<bool>)
    requires |u| == |v| <= 32 && BitSerial(c, u) == BitSerial(c, v)
    ensures u == v
  {
    var wu, wv := u + Zeros(32 - |u|), v + Zeros(32 - |v|);
    BitsAtOnce(c, u);
    BitsAtOnce(c, v);
    StepsInjective(Xor(c, wu), Xor(c, wv), |u|);
    forall i | 0 <= i < |u| ensures u[i] == v[i] {
      assert Xor(c, wu)[i] == Xor(c, wv)[i];
    }
  }

  /** Two bit strings that differ only inside one window of 32 bits never leave the same register. */
  lemma BurstBits(c: Register, p: seq<bool>, u: seq<bool>, v: seq<bool>, s: seq<bool>)
    requires |u| == |v| <= 32 && u != v
    ensures BitSerial(c, p + u + s) != BitSerial(c, p + v + s)
  {
    BitSerialConcat(c, p + u, s);
    BitSerialConcat(c, p, u);
    BitSerialConcat(c, p + v, s);
    BitSerialConcat(c, p, v);
    var q := BitSerial(c, p);
    if BitSerial(q, u) == BitSerial(q, v) {
      ShortBitsInjective(q, u, v);
    } else if BitSerial(c, p + u + s) == BitSerial(c, p + v + s) {
      BitSerialInjective(BitSerial(q, u), BitSerial(q, v), s);
    }
  }

  lemma {:induction false} MessageBitsConcat(m: seq<uint8>, n: seq<uint8>)
    ensures MessageBits(m + n) == MessageBits(m) + MessageBits(n)
  {
    if m == [] {
      assert m + n == n;
    } else {
      assert (m + n)[1..] == m[1..] + n;
      MessageBitsConcat(m[1..], n);
    }
  }

  lemma {:induction false} MessageBitsInjective(m: seq<uint8>, n: seq<uint8>)
    requires |m| == |n| && MessageBits(m) == MessageBits(n)
    ensures m == n
  {
    if m != [] {
      var a, b := MessageBits(m), MessageBits(n);
      assert a[..8] == LowBits(m[0], 8) && b[..8] == LowBits(n[0], 8);
      assert a[8..] == MessageBits(m[1..]) && b[8..] == MessageBits(n[1..]);
      MessageBitsInjective(m[1..], n[1..]);
      Pow2Values();
      LowBitsInjective(m[0], n[0], 8);
      assert m == [m[0]] + m[1..] && n == [n[0]] + n[1..];
    }
  }

  lemma NotInjective(a: Register, b: Register)
    requires Not(a) == Not(b)
    ensures a == b
  {
  }

  /** Messages of one length that differ, but only inside a window of four bytes, have different checksums. */
  lemma BurstDetected(m: seq<uint8>, n: seq<uint8>, k: nat)
    requires |m| == |n| && k <= |m| && m != n
    requires forall i :: 0 <= i < |m| && !(k <= i < k + 4) ==> m[i] == n[i]
    ensures Crc(m) != Crc(n)
  {
    var e := if k + 4 <= |m| then k + 4 else |m|;
    var p, u, v, s := m[..k], m[k..e], n[k..e], m[e..];
    assert m == p + u + s;
    assert n == p + v + s;
    MessageBitsConcat(p + u, s);
    MessageBitsConcat(p, u);
    MessageBitsConcat(p + v, s);
    MessageBitsConcat(p, v);
    if MessageBits(u) == MessageBits(v) {
      MessageBitsInjective(u, v);
    }
    var c := Not(Zeros(32));
    BurstBits(c, MessageBits(p), MessageBits(u), MessageBits(v), MessageBits(s));
    if Crc(m) == Crc(n) {
      NotInjective(BitSerial(c, MessageBits(m)), BitSerial(c, MessageBits(n)));
    }
  }

  /** What two calls of Input, with no reset in between, return the second time. */
  function ChunkedCrc(m: seq<uint8>, n: seq<uint8>): Register {
    Not(BitSerial(Not(Not(Crc(m))), MessageBits(n)))
  }

  method InputTwice(sum: Checksum, m: seq<uint8>, n: seq<uint8>) returns (crc: Register)
    modifies sum
    ensures crc == ChunkedCrc(m, n)
  {
    sum.Reset();
    crc := sum.Input(m);
    crc := sum.Input(n);
  }

  /** The checksum cannot be computed in pieces: the result is wrong for every way of cutting every message. */
  lemma ChunkingAlwaysDiffers(m: seq<uint8>, n: seq<uint8>)
    ensures ChunkedCrc(m, n) != Crc(m + n)
  {
    var start := Not(Zeros(32));
    var kept := BitSerial(start, MessageBits(m));
    assert Not(Not(Crc(m))) == Not(kept) && Not(kept)[0] != kept[0];
    MessageBitsConcat(m, n);
    BitSerialConcat(start, MessageBits(m), MessageBits(n));
    if ChunkedCrc(m, n) == Crc(m + n) {
      NotInjective(BitSerial(Not(kept), MessageBits(n)), BitSerial(kept, MessageBits(n)));
      BitSerialInjective(Not(kept), kept, MessageBits(n));
    }
  }
}

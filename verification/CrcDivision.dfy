/**
 What the checksum is, without the register: the remainder of the message, read as a polynomial over GF(2), by the
 generator of CRC-32. Polynomials are lists of coefficients, the highest power first. The register lists its bits from
 the least significant one, which is the highest power, so that it needs no reversing.
 */
module CrcDivision {
  import opened Machine
  import opened Bits
  import opened Crc32

  type Poly = seq<bool>

  /** Polynomials of degree 32. */
  type Divisor = g: Poly | |g| == 33 && g[0] witness [true] + Zeros(32)

  /** x^32 + x^26 + x^23 + x^22 + x^16 + x^12 + x^11 + x^10 + x^8 + x^7 + x^5 + x^4 + x^2 + x + 1 */
  function Generator(): Divisor {
    seq(33, i => (32 - i) in {32, 26, 23, 22, 16, 12, 11, 10, 8, 7, 5, 4, 2, 1, 0})
  }

  /** g times x^n, or zero. */
  function Term(g: Divisor, b: bool, n: nat): (t: Poly)
    ensures |t| == n + 33 && forall i :: 0 <= i < n + 33 ==> t[i] == (b && i <= 32 && g[i])
  {
    if b then g + Zeros(n) else Zeros(n + 33)
  }

  /** The product of q and g: one copy of g, shifted, for each power in q. */
  function Product(g: Divisor, q: Poly): (p: Poly)
    ensures |p| == |q| + 32
  {
    if q == [] then Zeros(32) else Xor(Term(g, q[0], |q| - 1), [false] + Product(g, q[1..]))
  }

  /** p == q * g + r, with r of lower degree than g. */
  ghost predicate Divides(g: Divisor, p: Poly, q: Poly, r: Poly) {
    |r| == 32 && |p| == |q| + 32 && Xor(p, Zeros(|q|) + r) == Product(g, q)
  }

  ghost predicate IsRemainder(g: Divisor, p: Poly, r: Poly) {
    exists q :: Divides(g, p, q, r)
  }

  // ---- there is at most one remainder

  /** The highest power of q shows up in its product. */
  lemma {:induction false} TopOfProduct(g: Divisor, q: Poly, i: nat)
    requires i < |q| && q[i] && forall k :: 0 <= k < i ==> !q[k]
    ensures Product(g, q)[i]
  {
    if i != 0 {
      TopOfProduct(g, q[1..], i - 1);
      assert Product(g, q)[i] == Product(g, q[1..])[i - 1];
    }
  }

  lemma {:induction false} FirstSet(q: Poly, from: nat) returns (i: nat)
    requires from <= |q| && forall k :: 0 <= k < from ==> !q[k]
    ensures i <= |q| && (i < |q| ==> q[i]) && forall k :: 0 <= k < i ==> !q[k]
    decreases |q| - from
  {
    if from == |q| || q[from] {
      i := from;
    } else {
      i := FirstSet(q, from + 1);
    }
  }

  lemma {:induction false} ProductXor(g: Divisor, q: Poly, s: Poly)
    requires |q| == |s|
    ensures Product(g, Xor(q, s)) == Xor(Product(g, q), Product(g, s))
  {
    if q == [] {
      assert Xor(q, s) == [] && Xor(Zeros(32), Zeros(32)) == Zeros(32);
    } else {
      var x := Xor(q, s);
      ProductXor(g, q[1..], s[1..]);
      assert x[1..] == Xor(q[1..], s[1..]);
      assert x[0] == (q[0] != s[0]);
      TermXor(g, q[0], s[0], |q| - 1);
      XorShuffle(Term(g, q[0], |q| - 1), Product(g, q[1..]), Term(g, s[0], |q| - 1), Product(g, s[1..]));
    }
  }

  lemma TermXor(g: Divisor, a: bool, b: bool, n: nat)
    ensures Term(g, a != b, n) == Xor(Term(g, a, n), Term(g, b, n))
  {
  }

  lemma XorShuffle(t: Poly, p: Poly, t': Poly, p': Poly)
    requires |t| == |t'| == |p| + 1 == |p'| + 1
    ensures Xor(Xor(t, t'), [false] + Xor(p, p')) == Xor(Xor(t, [false] + p), Xor(t', [false] + p'))
  {
  }

  /** Two remainders of one polynomial are the same: their difference would be a product of too low a degree. */
  lemma RemainderUnique(g: Divisor, p: Poly, q: Poly, r: Poly, q': Poly, r': Poly)
    requires Divides(g, p, q, r) && Divides(g, p, q', r')
    ensures r == r'
  {
    var n, d := |q|, Xor(q, q');
    ProductXor(g, q, q');
    assert Product(g, d) == Zeros(n) + Xor(r, r') by {
      assert Xor(Xor(p, Zeros(n) + r), Xor(p, Zeros(n) + r')) == Zeros(n) + Xor(r, r');
    }
    var i := FirstSet(d, 0);
    if i < n {
      TopOfProduct(g, d, i);
      assert false;
    }
    ProductOfZeros(g, d);
    forall k | 0 <= k < 32 ensures r[k] == r'[k] {
      assert (Zeros(n) + Xor(r, r'))[n + k] == Xor(r, r')[k];
    }
  }

  lemma {:induction false} ProductOfZeros(g: Divisor, q: Poly)
    requires forall k :: 0 <= k < |q| ==> !q[k]
    ensures Product(g, q) == Zeros(|q| + 32)
  {
    if q != [] {
      ProductOfZeros(g, q[1..]);
    }
  }

  // ---- the register holds it

  /** The bits of the message times x^32, with the register's start added at the top. */
  function Dividend(c: Register, bits: seq<bool>): (p: Poly)
    ensures |p| == |bits| + 32
  {
    Xor(bits + Zeros(32), c + Zeros(|bits|))
  }

  /** 0xedb88320 is the generator without its highest power, in the order of the register. */
  lemma PolynomialIsGenerator()
    ensures Generator()[1..] == POLYNOMIAL
  {
    forall i | 0 <= i < 32 ensures POLYNOMIAL[i] == Generator()[1..][i] {
    }
  }

  /** Feeding one bit takes off one power: what is left is the dividend of the next register. */
  lemma OneDivision(g: Divisor, c: Register, bits: seq<bool>)
    requires bits != [] && g[1..] == POLYNOMIAL
    ensures var p := Dividend(c, bits);
      p == Xor(Term(g, p[0], |bits| - 1), [false] + Dividend(FeedBit(c, bits[0]), bits[1..]))
  {
    var p, c' := Dividend(c, bits), FeedBit(c, bits[0]);
    var p' := Dividend(c', bits[1..]);
    var t := Term(g, p[0], |bits| - 1);
    forall i | 0 <= i < 32 ensures c'[i] == ((i < 31 && c[i + 1]) != (p[0] && g[i + 1])) {
      assert g[1..][i] == g[i + 1];
    }
    forall i | 0 <= i < |p| ensures p[i] == (t[i] != ([false] + p')[i]) {
    }
  }

  lemma Regroup(p: Poly, t: Poly, p': Poly, r: Poly, n: nat)
    requires |p| == |t| == |p'| + 1 == n + 33 && |r| == 32 && p == Xor(t, [false] + p')
    ensures Xor(p, Zeros(n + 1) + r) == Xor(t, [false] + Xor(p', Zeros(n) + r))
  {
  }

  /** The quotient is the list of the bits that the register puts out. */
  lemma {:induction false} RegisterDivides(g: Divisor, c: Register, bits: seq<bool>) returns (q: Poly)
    requires g[1..] == POLYNOMIAL
    ensures Divides(g, Dividend(c, bits), q, BitSerial(c, bits))
    decreases |bits|
  {
    var p := Dividend(c, bits);
    if bits == [] {
      q := [];
      assert Xor(p, Zeros(0) + c) == Zeros(32);
    } else {
      var c' := FeedBit(c, bits[0]);
      var q' := RegisterDivides(g, c', bits[1..]);
      q := [p[0]] + q';
      assert q[1..] == q';
      OneDivision(g, c, bits);
      Regroup(p, Term(g, p[0], |bits| - 1), Dividend(c', bits[1..]), BitSerial(c', bits[1..]), |bits| - 1);
    }
  }

  /** Bit j of byte i comes at place 8 * i + j: the least significant bit of each byte is sent first. */
  lemma {:induction false} MessageBitsAt(msg: seq<uint8>, i: nat, j: nat)
    requires i < |msg| && j < 8
    ensures MessageBits(msg)[8 * i + j] <==> msg[i] / Pow2(j) % 2 == 1
  {
    if i == 0 {
      LowBitsAt(msg[0], 8, j);
    } else {
      MessageBitsAt(msg[1..], i - 1, j);
    }
  }

  lemma {:induction false} LowBitsAt(x: nat, n: nat, j: nat)
    requires j < n
    ensures LowBits(x, n)[j] <==> x / Pow2(j) % 2 == 1
    decreases n
  {
    if j != 0 {
      LowBitsAt(x / 2, n - 1, j - 1);
      HalfPower(x, Pow2(j - 1));
    }
  }

  lemma HalfPower(x: nat, p: nat)
    requires p > 0
    ensures x / (2 * p) == x / 2 / p
  {
    var q, r := x / 2 / p, x / 2 % p;
    assert x / 2 == p * q + r;
    assert p * q * 2 == (2 * p) * q;
    DivModUnique(x, 2 * p, q, 2 * r + x % 2);
  }

  /**
   The checksum is CRC-32: r is returned for a message exactly if its complement is the remainder of the message,
   times x^32 and with its first 32 coefficients complemented, by the generator.
   */
  lemma CrcIsRemainder(msg: seq<uint8>, r: Register)
    ensures var bits := MessageBits(msg);
      var p := Xor(bits + Zeros(32), Not(Zeros(32)) + Zeros(|bits|));
      r == Crc(msg) <==> IsRemainder(Generator(), p, Not(r))
  {
    PolynomialIsGenerator();
    RemainderIs(Generator(), Not(Zeros(32)), MessageBits(msg), Not(r));
    assert Not(Not(r)) == r && Not(Crc(msg)) == BitSerial(Not(Zeros(32)), MessageBits(msg));
  }

  lemma RemainderIs(g: Divisor, c: Register, bits: seq<bool>, r: Register)
    requires g[1..] == POLYNOMIAL
    ensures r == BitSerial(c, bits) <==> IsRemainder(g, Dividend(c, bits), r)
  {
    var p := Dividend(c, bits);
    var q := RegisterDivides(g, c, bits);
    if IsRemainder(g, p, r) {
      var q' :| Divides(g, p, q', r);
      RemainderUnique(g, p, q, BitSerial(c, bits), q', r);
    }
  }
}

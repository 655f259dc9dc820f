/** Bytes and 16-bit words as the C sources store them, and the operators they apply to them. */
module Bytes {
  type byte = x: int | 0 <= x < 0x100
  type word = x: int | 0 <= x < 0x1_0000
  type bit = x: int | 0 <= x <= 1

  /** `(uint8_t)(x >> 8)`: arithmetic shift, then truncation. */
  function Hi(x: int): (b: byte) {
    (x / 256) % 256
  }

  /** `x & 0xff`. */
  function Lo(x: int): (b: byte) {
    x % 256
  }

  /** What is left of a number in 16 bits. */
  function U16(x: int): (w: word) { x % 65536 }

  /** `(h << 8) | l`. */
  function Word(h: byte, l: byte): (w: word) {
    h * 256 + l
  }

  /** Splitting any C integer in two bytes and joining them again truncates it to 16 bits. */
  lemma WordHiLo(x: int)
    ensures Word(Hi(x), Lo(x)) == U16(x)
    ensures 0 <= x < 65536 ==> Word(Hi(x), Lo(x)) == x
  {
    assert x == (x / 256) * 256 + x % 256;
  }

  /** The two bytes of a word determine it. */
  lemma HiLoWord(h: byte, l: byte)
    ensures Hi(Word(h, l)) == h && Lo(Word(h, l)) == l
  {
  }

  /** Big-endian image of a register block. */
  function RegisterBytes(regs: seq<word>): (bs: seq<byte>)
    ensures |bs| == 2 * |regs|
    ensures forall i :: 0 <= i < |regs| ==> bs[2 * i] == Hi(regs[i]) && bs[2 * i + 1] == Lo(regs[i])
  {
    if regs == [] then []
    else
      var n := |regs| - 1;
      RegisterBytes(regs[..n]) + [Hi(regs[n]), Lo(regs[n])]
  }

  /** The first n registers stored big-endian in bs. */
  function Registers(bs: seq<byte>, n: nat): (regs: seq<word>)
    requires 2 * n <= |bs|
    ensures |regs| == n
  {
    seq(n, i requires 0 <= i < n => Word(bs[2 * i], bs[2 * i + 1]))
  }

  /** Register blocks survive the trip over the wire, whatever follows them. */
  lemma {:induction false} RegistersRoundTrip(regs: seq<word>, rest: seq<byte>)
    ensures Registers(RegisterBytes(regs) + rest, |regs|) == regs
  {
    hide RegisterBytes, Word, Hi, Lo;
    var bs := RegisterBytes(regs);
    forall i | 0 <= i < |regs|
      ensures Word((bs + rest)[2 * i], (bs + rest)[2 * i + 1]) == regs[i]
    {
      assert (bs + rest)[2 * i] == bs[2 * i] && (bs + rest)[2 * i + 1] == bs[2 * i + 1];
      WordHiLo(regs[i]);
    }
  }
}

/** The bit operators of the C sources, and the arithmetic they stand for. */
module Bits {
  import opened Bytes

  /** `c << k`, before any truncation. */
  function Shl(c: nat, k: nat): (r: nat)
    ensures c == 0 <==> r == 0
  {
    if k == 0 then c else 2 * Shl(c, k - 1)
  }

  /** `1 << k`. */
  function Pow2(k: nat): (p: nat)
    ensures p > 0
  {
    Shl(1, k)
  }

  lemma Pow2Of16()
    ensures Pow2(16) == 65536
  {
    assert Shl(1, 8) == 256;
    assert Shl(1, 12) == 4096;
  }

  /** Bit k of b, counted from the least significant. */
  function BitAt(b: nat, k: nat): (x: bit) {
    if k == 0 then b % 2 else BitAt(b / 2, k - 1)
  }

  /** The number whose binary digits, least significant first, are s. */
  function FromBits(s: seq<bit>): (n: nat) {
    if s == [] then 0 else s[0] + 2 * FromBits(s[1..])
  }

  lemma {:induction false} FromBitsBound(s: seq<bit>)
    ensures FromBits(s) < Pow2(|s|)
  {
    if s != [] { FromBitsBound(s[1..]); }
  }

  /** FromBits is the inverse of reading the bits off, and its upper bits are zero. */
  lemma {:induction false} BitAtFromBits(s: seq<bit>, k: nat)
    ensures BitAt(FromBits(s), k) == if k < |s| then s[k] else 0
  {
    if s == [] {
      if k > 0 { BitAtFromBits(s, k - 1); }
    } else if k > 0 {
      BitAtFromBits(s[1..], k - 1);
      assert FromBits(s) / 2 == FromBits(s[1..]);
    }
  }

  lemma {:induction false} FromBitsSnoc(s: seq<bit>, c: bit)
    ensures FromBits(s + [c]) == FromBits(s) + Shl(c, |s|)
  {
    if s == [] {
      assert s + [c] == [c];
    } else {
      assert (s + [c])[1..] == s[1..] + [c];
      FromBitsSnoc(s[1..], c);
    }
  }

  function OrBit(x: bit, y: bit): bit { if x == 1 then 1 else y }
  function AndBit(x: bit, y: bit): bit { if x == 1 then y else 0 }
  function XorBit(x: bit, y: bit): bit { if x == y then 0 else 1 }

  /** The low n bits of the C operator that applies op to each pair of bits. */
  function Bitwise(op: (bit, bit) -> bit, a: nat, b: nat, n: nat): (r: nat)
    ensures r < Pow2(n)
  {
    if n == 0 then 0 else op(a % 2, b % 2) + 2 * Bitwise(op, a / 2, b / 2, n - 1)
  }

  lemma {:induction false} BitAtBitwise(op: (bit, bit) -> bit, a: nat, b: nat, n: nat, k: nat)
    requires k < n
    ensures BitAt(Bitwise(op, a, b, n), k) == op(BitAt(a, k), BitAt(b, k))
  {
    if k > 0 { BitAtBitwise(op, a / 2, b / 2, n - 1, k - 1); }
  }

  /** Numbers below 2^n are determined by their low n bits. */
  lemma {:induction false} BitsDetermine(a: nat, b: nat, n: nat)
    requires a < Pow2(n) && b < Pow2(n)
    requires forall k: nat :: k < n ==> BitAt(a, k) == BitAt(b, k)
    ensures a == b
  {
    if n > 0 {
      assert BitAt(a, 0) == BitAt(b, 0);
      forall k: nat | k < n - 1
        ensures BitAt(a / 2, k) == BitAt(b / 2, k)
      {
        assert BitAt(a, k + 1) == BitAt(b, k + 1);
      }
      BitsDetermine(a / 2, b / 2, n - 1);
    }
  }

  /** `a | (c << k)` stored in a byte. */
  function OrShift(a: byte, c: byte, k: nat): (r: byte) {
    assert Pow2(8) == 256;
    Bitwise(OrBit, a, Shl(c, k), 8)
  }

  /** `b & (1 << k)` used as a condition. */
  predicate TestBit(b: byte, k: nat) {
    Bitwise(AndBit, b, Pow2(k), 8) != 0
  }

  /** `a ^ b`. */
  function Xor(a: byte, b: byte): (r: byte) {
    assert Pow2(8) == 256;
    Bitwise(XorBit, a, b, 8)
  }

  /** `(d & m) | (o & ~m)` on 16 bits. */
  function MaskMerge(d: word, m: word, o: word): (r: word) {
    Pow2Of16();
    Bitwise(OrBit, Bitwise(AndBit, d, m, 16), Bitwise(AndBit, o, 65535 - m, 16), 16)
  }

  lemma {:induction false} OrAboveAdds(a: nat, c: bit, k: nat, n: nat)
    requires k < n && a < Pow2(k)
    ensures Bitwise(OrBit, a, Shl(c, k), n) == a + Shl(c, k)
  {
    if k == 0 {
      OrZero(0, n - 1);
    } else {
      OrAboveAdds(a / 2, c, k - 1, n - 1);
    }
  }

  lemma {:induction false} OrZero(a: nat, n: nat)
    requires a < Pow2(n)
    ensures Bitwise(OrBit, a, 0, n) == a
  {
    if n > 0 { OrZero(a / 2, n - 1); }
  }

  lemma {:induction false} AndSingle(a: nat, k: nat, n: nat)
    requires k < n
    ensures Bitwise(AndBit, a, Pow2(k), n) == if BitAt(a, k) == 1 then Pow2(k) else 0
  {
    if k == 0 {
      AndZero(a / 2, n - 1);
    } else {
      AndSingle(a / 2, k - 1, n - 1);
    }
  }

  lemma {:induction false} AndZero(a: nat, n: nat)
    ensures Bitwise(AndBit, a, 0, n) == 0
  {
    if n > 0 { AndZero(a / 2, n - 1); }
  }

  lemma TestBitIsBitAt(b: byte, k: nat)
    requires k < 8
    ensures TestBit(b, k) <==> BitAt(b, k) == 1
  {
    AndSingle(b, k, 8);
  }

  /** Masking twice with the same key gives the byte back. */
  lemma XorInvolution(a: byte, m: byte)
    ensures Xor(Xor(a, m), m) == a
  {
    assert Pow2(8) == 256;
    forall k: nat | k < 8
      ensures BitAt(Xor(Xor(a, m), m), k) == BitAt(a, k)
    {
      BitAtBitwise(XorBit, Xor(a, m), m, 8, k);
      BitAtBitwise(XorBit, a, m, 8, k);
    }
    BitsDetermine(Xor(Xor(a, m), m), a, 8);
  }

  lemma {:induction false} ComplementBit(m: nat, n: nat, k: nat)
    requires k < n && m < Pow2(n)
    ensures BitAt(Pow2(n) - 1 - m, k) == 1 - BitAt(m, k)
  {
    if k > 0 {
      assert (Pow2(n) - 1 - m) / 2 == Pow2(n - 1) - 1 - m / 2;
      ComplementBit(m / 2, n - 1, k - 1);
    }
  }

  /** Mask write takes each bit from the old register where the AND mask has a one, from the OR mask elsewhere. */
  lemma MaskMergeBit(d: word, m: word, o: word, k: nat)
    requires k < 16
    ensures BitAt(MaskMerge(d, m, o), k) == if BitAt(m, k) == 1 then BitAt(d, k) else BitAt(o, k)
  {
    Pow2Of16();
    hide Bitwise;
    BitAtBitwise(OrBit, Bitwise(AndBit, d, m, 16), Bitwise(AndBit, o, 65535 - m, 16), 16, k);
    BitAtBitwise(AndBit, d, m, 16, k);
    BitAtBitwise(AndBit, o, 65535 - m, 16, k);
    ComplementBit(m, 16, k);
  }
}

/**
  The deterministic 64-bit mixing function `hash_me` of libafl_qemu's helper
  module: two rounds of "xor the value with itself shifted right by 16, then
  multiply by 0x45d9f3b" and a final step, all in wrapping u64 arithmetic.

  A u64 is a natural number below 2^64. Its logical right shift is repeated
  halving, its xor is defined bit by bit, and wrapping multiplication is the
  product reduced modulo 2^64; properties are proved through the bit view
  `Bit(x, i)`.

  The source writes its final step as `(x >> 16 ^ x) ^ x`, which cancels the
  xor and leaves `x >> 16`. `HashMeAsWritten` models that text; `HashMe` is the
  xorshift finaliser evidently intended (the same step as in each round), and is
  proved to be a bijection on u64 by exhibiting its inverse `UnhashMe`.
*/
module Hash {

  /** 2^64: the number of u64 values. */
  const WORD: nat := 0x1_0000_0000_0000_0000

  type U64 = x: nat | x < WORD

  /** The multiplier of both rounds. */
  const MULTIPLIER: nat := 0x45d9f3b

  /** The inverse of MULTIPLIER modulo 2^64 (MULTIPLIER is odd, so it has one). */
  const MULTIPLIER_INVERSE: nat := 0xf9e122f8119de1f3

  /** MULTIPLIER * MULTIPLIER_INVERSE == PRODUCT_QUOTIENT * 2^64 + 1. */
  const PRODUCT_QUOTIENT: nat := 0x442e6c2

  function Pow2(n: nat): (p: nat)
    ensures p >= 1
  {
    if n == 0 then 1 else 2 * Pow2(n - 1)
  }

  /** Logical right shift by `k`: `k` halvings. */
  function Shr(x: nat, k: nat): nat {
    if k == 0 then x else Shr(x / 2, k - 1)
  }

  /** Bitwise exclusive or: the low bits are xored, the rest recursively. */
  function Xor(a: nat, b: nat): nat
    decreases a + b
  {
    if a == 0 && b == 0 then 0 else 2 * Xor(a / 2, b / 2) + (a + b) % 2
  }

  /** `overflowing_mul(..).0`: the product wrapped to 64 bits. */
  function WrappingMul(a: nat, b: nat): U64 {
    (a * b) % WORD
  }

  /** Bit `i` of `x`. */
  predicate Bit(x: nat, i: nat) {
    Shr(x, i) % 2 == 1
  }

  // ---------------------------------------------------------------------------
  // The hash

  /** `x >> 16 ^ x`: the xorshift step that opens each round. */
  function XorShift(x: nat): nat {
    Xor(Shr(x, 16), x)
  }

  /** One round: xorshift, then wrapping multiply by 0x45d9f3b. */
  function Round(x: U64): U64 {
    WrappingMul(XorShift(x), MULTIPLIER)
  }

  /** `hash_me` exactly as written: the third line xors `x` back in. */
  function HashMeAsWritten(x: U64): (r: nat)
    ensures r == Shr(Round(Round(x)), 16)
    ensures r < 0x1_0000_0000_0000
  {
    var x2 := Round(Round(x));
    HashMeAsWrittenIsShift(x);
    ShrWordBelow48Bits(x2);
    Xor(Xor(Shr(x2, 16), x2), x2)
  }

  /** The mixer the source evidently intends: the third line is a plain xorshift. */
  function HashMe(x: U64): U64 {
    var x2 := Round(Round(x));
    XorShiftBound(x2);
    XorShift(x2)
  }

  /** Undoes XorShift on u64 values: `y ^ y >> 16 ^ y >> 32 ^ y >> 48`. */
  function UnXorShift(y: nat): nat {
    Xor(Xor(Xor(y, Shr(y, 16)), Shr(y, 32)), Shr(y, 48))
  }

  function UnRound(y: U64): U64 {
    var z := WrappingMul(y, MULTIPLIER_INVERSE);
    UnXorShiftBound(z);
    UnXorShift(z)
  }

  /** Inverse of HashMe. */
  function UnhashMe(y: U64): U64 {
    UnXorShiftBound(y);
    UnRound(UnRound(UnXorShift(y)))
  }

  // ---------------------------------------------------------------------------
  // Arithmetic and bit facts

  lemma {:induction false} Pow2Add(m: nat, n: nat)
    ensures Pow2(m + n) == Pow2(m) * Pow2(n)
  {
    if n > 0 {
      Pow2Add(m, n - 1);
      assert Pow2(m + n) == 2 * Pow2(m + n - 1);
    }
  }

  lemma Pow2Of4()
    ensures Pow2(4) == 0x10
  {
    assert Pow2(2) == 4;
    Pow2Add(2, 2);
  }

  lemma Pow2Of16()
    ensures Pow2(16) == 0x1_0000
  {
    Pow2Of4();
    Pow2Add(4, 4);
    Pow2Add(8, 8);
  }

  lemma Pow2Of32()
    ensures Pow2(32) == 0x1_0000_0000
  {
    Pow2Of16();
    Pow2Add(16, 16);
  }

  lemma Pow2Of48()
    ensures Pow2(48) == 0x1_0000_0000_0000
  {
    Pow2Of16();
    Pow2Of32();
    Pow2Add(32, 16);
  }

  lemma Pow2Of64()
    ensures Pow2(64) == WORD
  {
    Pow2Of32();
    Pow2Add(32, 32);
  }

  lemma {:induction false} ShrAtMost(x: nat, k: nat)
    ensures Shr(x, k) <= x
  {
    if k > 0 {
      ShrAtMost(x / 2, k - 1);
    }
  }

  lemma {:induction false} ShrBound(x: nat, n: nat, k: nat)
    requires k <= n && x < Pow2(n)
    ensures Shr(x, k) < Pow2(n - k)
  {
    if k > 0 {
      ShrBound(x / 2, n - 1, k - 1);
    }
  }

  lemma {:induction false} XorBound(a: nat, b: nat, n: nat)
    requires a < Pow2(n) && b < Pow2(n)
    ensures Xor(a, b) < Pow2(n)
    decreases n
  {
    if n > 0 && !(a == 0 && b == 0) {
      XorBound(a / 2, b / 2, n - 1);
    }
  }

  lemma {:induction false} ShrShr(x: nat, a: nat, b: nat)
    ensures Shr(Shr(x, a), b) == Shr(x, a + b)
  {
    if a > 0 {
      ShrShr(x / 2, a - 1, b);
    }
  }

  lemma {:induction false} ShrZero(k: nat)
    ensures Shr(0, k) == 0
  {
    if k > 0 {
      ShrZero(k - 1);
    }
  }

  lemma BitShr(x: nat, k: nat, i: nat)
    ensures Bit(Shr(x, k), i) == Bit(x, k + i)
  {
    ShrShr(x, k, i);
  }

  lemma XorHalves(a: nat, b: nat)
    ensures Xor(a, b) / 2 == Xor(a / 2, b / 2)
    ensures Xor(a, b) % 2 == (a + b) % 2
  {
  }

  lemma {:induction false} ShrXor(a: nat, b: nat, k: nat)
    ensures Shr(Xor(a, b), k) == Xor(Shr(a, k), Shr(b, k))
  {
    if k > 0 {
      XorHalves(a, b);
      ShrXor(a / 2, b / 2, k - 1);
    }
  }

  lemma ParityOfSum(s: nat, t: nat)
    ensures ((s + t) % 2 == 1) == ((s % 2 == 1) != (t % 2 == 1))
  {
    assert s == 2 * (s / 2) + s % 2;
    assert t == 2 * (t / 2) + t % 2;
  }

  lemma BitXor(a: nat, b: nat, i: nat)
    ensures Bit(Xor(a, b), i) == (Bit(a, i) != Bit(b, i))
  {
    ShrXor(a, b, i);
    XorHalves(Shr(a, i), Shr(b, i));
    ParityOfSum(Shr(a, i), Shr(b, i));
  }

  /** Bits at or above n of a number below 2^n are clear. */
  lemma BitAbove(x: nat, n: nat, j: nat)
    requires x < Pow2(n) && n <= j
    ensures !Bit(x, j)
  {
    ShrBound(x, n, n);
    ShrShr(x, n, j - n);
    ShrZero(j - n);
  }

  /** Two numbers with the same bits are equal. */
  lemma {:induction false} BitsEqual(a: nat, b: nat)
    requires forall i: nat :: Bit(a, i) == Bit(b, i)
    ensures a == b
    decreases a + b
  {
    assert Bit(a, 0) == Bit(b, 0);
    if a + b > 0 {
      forall i: nat
        ensures Bit(a / 2, i) == Bit(b / 2, i)
      {
        assert Bit(a, i + 1) == Bit(b, i + 1);
      }
      BitsEqual(a / 2, b / 2);
    }
  }

  lemma BitXorShift(x: nat, i: nat)
    ensures Bit(XorShift(x), i) == (Bit(x, i + 16) != Bit(x, i))
  {
    BitXor(Shr(x, 16), x, i);
    BitShr(x, 16, i);
  }

  lemma BitUnXorShift(y: nat, i: nat)
    ensures Bit(UnXorShift(y), i)
         == (((Bit(y, i) != Bit(y, i + 16)) != Bit(y, i + 32)) != Bit(y, i + 48))
  {
    BitXor(Xor(Xor(y, Shr(y, 16)), Shr(y, 32)), Shr(y, 48), i);
    BitXor(Xor(y, Shr(y, 16)), Shr(y, 32), i);
    BitXor(y, Shr(y, 16), i);
    BitShr(y, 16, i);
    BitShr(y, 32, i);
    BitShr(y, 48, i);
  }

  lemma XorWordBound(a: nat, b: nat)
    requires a < WORD && b < WORD
    ensures Xor(a, b) < WORD
  {
    Pow2Of64();
    XorBound(a, b, 64);
  }

  /** A u64 has no bit at or above 64. */
  lemma BitAboveWord(x: nat, j: nat)
    requires x < WORD && 64 <= j
    ensures !Bit(x, j)
  {
    Pow2Of64();
    BitAbove(x, 64, j);
  }

  /** A u64 shifted right by 16 fits in 48 bits. */
  lemma ShrWordBelow48Bits(x: nat)
    requires x < WORD
    ensures Shr(x, 16) < 0x1_0000_0000_0000
  {
    Pow2Of64();
    Pow2Of48();
    ShrBound(x, 64, 16);
  }

  lemma XorShiftBound(x: nat)
    requires x < WORD
    ensures XorShift(x) < WORD
  {
    ShrAtMost(x, 16);
    XorWordBound(Shr(x, 16), x);
  }

  lemma UnXorShiftBound(y: nat)
    requires y < WORD
    ensures UnXorShift(y) < WORD
  {
    ShrAtMost(y, 16);
    ShrAtMost(y, 32);
    ShrAtMost(y, 48);
    XorWordBound(y, Shr(y, 16));
    XorWordBound(Xor(y, Shr(y, 16)), Shr(y, 32));
    XorWordBound(Xor(Xor(y, Shr(y, 16)), Shr(y, 32)), Shr(y, 48));
  }

  /** UnXorShift undoes XorShift on u64 values. */
  lemma UnXorShiftAfterXorShift(x: nat)
    requires x < WORD
    ensures UnXorShift(XorShift(x)) == x
  {
    forall i: nat
      ensures Bit(UnXorShift(XorShift(x)), i) == Bit(x, i)
    {
      BitUnXorShift(XorShift(x), i);
      BitXorShift(x, i);
      BitXorShift(x, i + 16);
      BitXorShift(x, i + 32);
      BitXorShift(x, i + 48);
      BitAboveWord(x, i + 64);
    }
    BitsEqual(UnXorShift(XorShift(x)), x);
  }

  /** XorShift undoes UnXorShift on u64 values. */
  lemma XorShiftAfterUnXorShift(y: nat)
    requires y < WORD
    ensures XorShift(UnXorShift(y)) == y
  {
    forall i: nat
      ensures Bit(XorShift(UnXorShift(y)), i) == Bit(y, i)
    {
      BitXorShift(UnXorShift(y), i);
      BitUnXorShift(y, i);
      BitUnXorShift(y, i + 16);
      BitAboveWord(y, i + 64);
    }
    BitsEqual(XorShift(UnXorShift(y)), y);
  }

  /** `(m * 2^64 + x) % 2^64 == x` for a u64 `x`. */
  lemma ModOfMultiplePlus(m: int, x: nat)
    requires x < WORD
    ensures (m * WORD + x) % WORD == x
  {
  }

  /** Wrapping multiplication by `a` is undone by wrapping multiplication by
      `b` when `a * b` is 1 modulo 2^64. */
  lemma {:induction false} MulModInverse(x: nat, a: nat, b: nat, k: nat)
    requires x < WORD && a * b == k * WORD + 1
    ensures WrappingMul(WrappingMul(x, a), b) == x
  {
    var p := x * a;
    var q := p / WORD;
    var r := p % WORD;
    assert p == q * WORD + r;
    calc {
      r * b;
      (p - q * WORD) * b;
      x * (a * b) - q * b * WORD;
      x * (k * WORD + 1) - q * b * WORD;
      (x * k - q * b) * WORD + x;
    }
    ModOfMultiplePlus(x * k - q * b, x);
  }

  /** Wrapping multiplication by MULTIPLIER is undone by MULTIPLIER_INVERSE. */
  lemma MultiplierCancels(x: U64)
    ensures WrappingMul(WrappingMul(x, MULTIPLIER), MULTIPLIER_INVERSE) == x
  {
    MulModInverse(x, MULTIPLIER, MULTIPLIER_INVERSE, PRODUCT_QUOTIENT);
  }

  /** Wrapping multiplication by MULTIPLIER_INVERSE is undone by MULTIPLIER. */
  lemma MultiplierInverseCancels(x: U64)
    ensures WrappingMul(WrappingMul(x, MULTIPLIER_INVERSE), MULTIPLIER) == x
  {
    MulModInverse(x, MULTIPLIER_INVERSE, MULTIPLIER, PRODUCT_QUOTIENT);
  }

  lemma UnRoundAfterRound(x: U64)
    ensures UnRound(Round(x)) == x
  {
    XorShiftBound(x);
    MultiplierCancels(XorShift(x));
    UnXorShiftAfterXorShift(x);
  }

  lemma RoundAfterUnRound(y: U64)
    ensures Round(UnRound(y)) == y
  {
    var z := WrappingMul(y, MULTIPLIER_INVERSE);
    XorShiftAfterUnXorShift(z);
    MultiplierInverseCancels(y);
  }

  // ---------------------------------------------------------------------------
  // Properties of the hash

  /** As written, the last line reduces to a plain shift of the second-round
      value, so its low 16 bits never reach the output. */
  lemma HashMeAsWrittenIsShift(x: U64)
    ensures Xor(Xor(Shr(Round(Round(x)), 16), Round(Round(x))), Round(Round(x)))
         == Shr(Round(Round(x)), 16)
  {
    var x2 := Round(Round(x));
    forall i: nat
      ensures Bit(Xor(Xor(Shr(x2, 16), x2), x2), i) == Bit(Shr(x2, 16), i)
    {
      BitXor(Xor(Shr(x2, 16), x2), x2, i);
      BitXor(Shr(x2, 16), x2, i);
    }
    BitsEqual(Xor(Xor(Shr(x2, 16), x2), x2), Shr(x2, 16));
  }

  /** The intended mixer loses no information: UnhashMe recovers the input. */
  lemma HashMeRoundTrip(x: U64)
    ensures UnhashMe(HashMe(x)) == x
  {
    var x2 := Round(Round(x));
    UnXorShiftAfterXorShift(x2);
    UnRoundAfterRound(Round(x));
    UnRoundAfterRound(x);
  }

  /** UnhashMe is also a right inverse, so the intended mixer is onto the u64
      values and, with HashMeRoundTrip, a bijection. */
  lemma UnhashMeRoundTrip(y: U64)
    ensures HashMe(UnhashMe(y)) == y
  {
    UnXorShiftBound(y);
    var z := UnXorShift(y);
    RoundAfterUnRound(UnRound(z));
    RoundAfterUnRound(z);
    XorShiftAfterUnXorShift(y);
  }

  lemma HashMeInjective(x: U64, y: U64)
    requires HashMe(x) == HashMe(y)
    ensures x == y
  {
    HashMeRoundTrip(x);
    HashMeRoundTrip(y);
  }

  /** Flips bit 0 of a u64. */
  function FlipLowBit(z: U64): U64 {
    XorWordBound(z, 1);
    Xor(z, 1)
  }

  lemma FlipLowBitKeepsHighBits(z: U64)
    ensures FlipLowBit(z) != z
    ensures Shr(FlipLowBit(z), 16) == Shr(z, 16)
  {
    BitXor(z, 1, 0);
    forall i: nat
      ensures Bit(Shr(Xor(z, 1), 16), i) == Bit(Shr(z, 16), i)
    {
      BitShr(Xor(z, 1), 16, i);
      BitShr(z, 16, i);
      BitXor(z, 1, 16 + i);
      BitAbove(1, 1, 16 + i);
    }
    BitsEqual(Shr(Xor(z, 1), 16), Shr(z, 16));
  }

  /** As written, every input has a partner that hashes alike: the input whose
      second-round value differs only in bit 0. */
  lemma HashMeAsWrittenCollides(x: U64)
    ensures var y := UnRound(UnRound(FlipLowBit(Round(Round(x)))));
            y != x && HashMeAsWritten(y) == HashMeAsWritten(x)
  {
    var z := FlipLowBit(Round(Round(x)));
    var y := UnRound(UnRound(z));
    RoundAfterUnRound(UnRound(z));
    RoundAfterUnRound(z);
    assert Round(Round(y)) == z;
    FlipLowBitKeepsHighBits(Round(Round(x)));
    HashMeAsWrittenIsShift(x);
    HashMeAsWrittenIsShift(y);
  }

  /** Zero is a fixed point of both versions. */
  lemma HashMeZero()
    ensures HashMeAsWritten(0) == 0 && HashMe(0) == 0
  {
    ShrZero(16);
    assert XorShift(0) == 0;
    assert Round(0) == 0;
    HashMeAsWrittenIsShift(0);
  }
}

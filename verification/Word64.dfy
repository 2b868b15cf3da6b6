/** Signed 64-bit words: arithmetic shift, and the bitwise operations on two's complement. */
module Word64 {
  import opened BitOps
  import opened ModArith

  newtype I64 = x: int | -0x8000_0000_0000_0000 <= x < 0x8000_0000_0000_0000

  const WORD_64 := 0x1_0000_0000_0000_0000

  /** Arithmetic shift right: floor division by `2^n`, given as `p`. */
  function ShiftRight(x: I64, p: I64): (r: I64)
    requires 1 <= p <= 65536 && -0x4000_0000_0000_0000 < x < 0x4000_0000_0000_0000
    ensures r as int == x as int / p as int
  {
    if x >= 0 then x / p else
      NegativeShift(x as int, p as int);
      -((-x + p - 1) / p)
  }

  lemma NegativeShift(x: int, p: int)
    requires x < 0 < p
    ensures -((-x + p - 1) / p) == x / p
  {
    var q, r := x / p, x % p;
    assert x == p * q + r && 0 <= r < p;
    var y := -x + p - 1;
    assert y == p * (-q) + (p - 1 - r);
    DivUnique(y, p, -q, p - 1 - r);
  }

  /** The bit pattern of a signed word, as an unsigned word. */
  function ToUnsigned(x: I64): (u: nat)
    ensures u < WORD_64
  {
    if x >= 0 then x as int else x as int + WORD_64
  }

  function ToSigned(u: nat): (x: I64)
    requires u < WORD_64
    ensures ToUnsigned(x) == u
  {
    if u < 0x8000_0000_0000_0000 then u as I64 else (u - WORD_64) as I64
  }

  lemma Pow2Of64()
    ensures Pow2(64) == WORD_64
  {
    hide Pow2;
    Pow2Values();
    Pow2Divides(16, 32);
    Pow2Divides(32, 64);
  }

  function Band(x: I64, y: I64): I64 {
    AndBound(ToUnsigned(x), ToUnsigned(y));
    ToSigned(And(ToUnsigned(x), ToUnsigned(y)))
  }

  function Bxor(x: I64, y: I64): I64 {
    Pow2Of64();
    XorBound(ToUnsigned(x), ToUnsigned(y), 64);
    ToSigned(Xor(ToUnsigned(x), ToUnsigned(y)))
  }

  lemma {:induction false} AndBound(a: nat, b: nat)
    ensures And(a, b) <= a
    decreases a + b
  {
    if a != 0 && b != 0 {
      AndBound(a / 2, b / 2);
    }
  }

  lemma {:induction false} Pow2Divides(n: nat, m: nat)
    requires n <= m
    ensures Pow2(m) == Pow2(n) * Pow2(m - n)
    decreases m - n
  {
    if n < m {
      Pow2Divides(n, m - 1);
      assert Pow2(n) * Pow2(m - n) == 2 * (Pow2(n) * Pow2(m - 1 - n));
    }
  }

  /** Masking with 2^n - 1 is the remainder modulo 2^n, for negative words too. */
  lemma BandMask(x: I64, n: nat, mask: I64)
    requires n <= 62 && mask as int == Pow2(n) - 1
    ensures Band(x, mask) as int == x as int % Pow2(n)
  {
    hide And, Pow2;
    var u := ToUnsigned(x);
    AndMask(u, n);
    LowBitsRemainder(u, n);
    Pow2Of64();
    Pow2Divides(n, 64);
    if x < 0 {
      Offset(u, x as int, Pow2(64 - n), Pow2(n));
    }
    AndBound(u, mask as int);
  }

  lemma BandAll(x: I64)
    ensures Band(-1, x) == x && Band(0, x) == 0
  {
    var u := ToUnsigned(x);
    assert ToUnsigned(-1) == WORD_64 - 1;
    assert And(0, u) == 0;
    hide And, Pow2;
    Pow2Of64();
    AndMask(u, 64);
    ValueOfLowBits(u, 64);
    AndCommutative(WORD_64 - 1, u);
    SignedOfUnsigned(x);
  }

  lemma SignedOfUnsigned(x: I64)
    ensures ToSigned(ToUnsigned(x)) == x
  {}

  /** The exclusive-or swap. */
  lemma BxorCancels(p: I64, q: I64)
    ensures Bxor(p, Bxor(p, q)) == q && Bxor(q, Bxor(p, q)) == p && Bxor(p, 0) == p
  {
    hide Xor;
    var a, b := ToUnsigned(p), ToUnsigned(q);
    XorAssociative(a, a, b);
    XorSelf(a);
    XorZero(b);
    XorZero(a);
    XorCommutative(a, b);
    XorAssociative(b, b, a);
    XorSelf(b);
    SignedOfUnsigned(p);
    SignedOfUnsigned(q);
  }
}

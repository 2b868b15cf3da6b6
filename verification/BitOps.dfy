/** Unsigned machine words as natural numbers, bit by bit.  A word's width is stated where the
    word is used; everything here is exact. */
module BitOps {
  import opened ModArith

  type Byte = x: nat | x < 256

  /** Least significant bit first. */
  type Bits = seq<bool>

  /** The modulus of 32-bit words. */
  const WORD_32 := 0x1_0000_0000

  function Pow2(n: nat): (r: nat)
    ensures r >= 1
  {
    if n == 0 then 1 else 2 * Pow2(n - 1)
  }

  function Shl(v: nat, n: nat): nat {
    if n == 0 then v else 2 * Shl(v, n - 1)
  }

  function Shr(v: nat, n: nat): nat {
    if n == 0 then v else Shr(v, n - 1) / 2
  }

  function Or(a: nat, b: nat): nat
    decreases a + b
  {
    if a == 0 && b == 0 then 0
    else 2 * Or(a / 2, b / 2) + if a % 2 == 1 || b % 2 == 1 then 1 else 0
  }

  function And(a: nat, b: nat): nat
    decreases a + b
  {
    if a == 0 || b == 0 then 0
    else 2 * And(a / 2, b / 2) + if a % 2 == 1 && b % 2 == 1 then 1 else 0
  }

  /** Bitwise exclusive or. */
  function Xor(a: nat, b: nat): nat
    decreases a + b
  {
    if a == 0 && b == 0 then 0 else 2 * Xor(a / 2, b / 2) + (a % 2 + b % 2) % 2
  }

  /** The `n` low bits of `v`. */
  function LowBits(v: nat, n: nat): (bits: Bits)
    ensures |bits| == n
    decreases n, v
  {
    if n == 0 then [] else [v % 2 == 1] + LowBits(v / 2, n - 1)
  }

  function BitValue(b: bool): nat {
    if b then 1 else 0
  }

  /** The number whose bits are `bits`. */
  function Value(bits: Bits): nat {
    if |bits| == 0 then 0 else BitValue(bits[0]) + 2 * Value(bits[1..])
  }

  /** The `n` low bits of `v`, most significant first: how Huffman codes are written. */
  function CodeBits(v: nat, n: nat): (bits: Bits)
    ensures |bits| == n
    decreases n, v
  {
    if n == 0 then [] else [Shr(v, n - 1) % 2 == 1] + CodeBits(v, n - 1)
  }

  /** The bits of a byte string, each byte least significant bit first. */
  function Unpacked(bytes: seq<Byte>): (bits: Bits)
    ensures |bits| == 8 * |bytes|
  {
    if |bytes| == 0 then [] else LowBits(bytes[0], 8) + Unpacked(bytes[1..])
  }

  lemma Pow2Values()
    ensures Pow2(1) == 2 && Pow2(2) == 4 && Pow2(3) == 8 && Pow2(4) == 16 && Pow2(5) == 32
    ensures Pow2(7) == 128 && Pow2(8) == 256 && Pow2(16) == 65536 && Pow2(20) == 1048576
  {}

  lemma UnpackedHead(bytes: seq<Byte>)
    requires |bytes| > 0
    ensures Unpacked(bytes) == LowBits(bytes[0], 8) + Unpacked(bytes[1..])
  {}

  lemma {:induction false} UnpackedAppend(a: seq<Byte>, b: seq<Byte>)
    ensures Unpacked(a + b) == Unpacked(a) + Unpacked(b)
  {
    hide LowBits;
    if |a| == 0 {
      assert a + b == b;
    } else {
      UnpackedAppend(a[1..], b);
      assert (a + b)[1..] == a[1..] + b;
    }
  }

  lemma {:induction false} ValueOfLowBits(v: nat, n: nat)
    requires v < Pow2(n)
    ensures Value(LowBits(v, n)) == v
    decreases n
  {
    if n > 0 {
      ValueOfLowBits(v / 2, n - 1);
    }
  }

  lemma {:induction false} LowBitsOfValue(bits: Bits)
    ensures LowBits(Value(bits), |bits|) == bits
    ensures Value(bits) < Pow2(|bits|)
  {
    if |bits| > 0 {
      LowBitsOfValue(bits[1..]);
    }
  }

  lemma {:induction false} ValueAppend(a: Bits, b: Bits)
    ensures Value(a + b) == Value(a) + Shl(Value(b), |a|)
  {
    if |a| == 0 {
      assert a + b == b;
    } else {
      ValueAppend(a[1..], b);
      assert (a + b)[1..] == a[1..] + b;
    }
  }

  lemma {:induction false} ShlTimes(v: nat, n: nat)
    ensures Shl(v, n) == v * Pow2(n)
  {
    if n > 0 {
      ShlTimes(v, n - 1);
    }
  }

  lemma {:induction false} ShlBound(v: nat, n: nat, c: nat)
    requires v < Pow2(c)
    ensures Shl(v, n) < Pow2(n + c)
    decreases n
  {
    if n > 0 {
      ShlBound(v, n - 1, c);
      assert Pow2(n + c) == 2 * Pow2(n - 1 + c);
    }
  }

  lemma {:induction false} Pow2Monotone(m: nat, n: nat)
    requires m <= n
    ensures Pow2(m) <= Pow2(n)
    decreases n
  {
    if m < n {
      Pow2Monotone(m, n - 1);
    }
  }

  lemma {:induction false} OrZero(v: nat)
    ensures Or(0, v) == v == Or(v, 0)
  {
    if v != 0 {
      OrZero(v / 2);
    }
  }

  lemma OrHalves(a: nat, b: nat)
    ensures Or(a, b) / 2 == Or(a / 2, b / 2)
    ensures Or(a, b) % 2 == if a % 2 == 1 || b % 2 == 1 then 1 else 0
  {}

  /** Or-ing in a shifted value above the bits in use appends its bits. */
  lemma {:induction false} OrAppends(a: nat, n: nat, v: nat, c: nat)
    requires a < Pow2(n)
    ensures LowBits(Or(a, Shl(v, n)), n + c) == LowBits(a, n) + LowBits(v, c)
    decreases n
  {
    if n == 0 {
      OrZero(v);
      assert LowBits(a, 0) + LowBits(v, c) == LowBits(v, c);
    } else {
      OrAppends(a / 2, n - 1, v, c);
      OrHalves(a, Shl(v, n));
      assert Shl(v, n) / 2 == Shl(v, n - 1) && Shl(v, n) % 2 == 0;
      hide Or;
      assert LowBits(a, n) + LowBits(v, c) == [a % 2 == 1] + (LowBits(a / 2, n - 1) + LowBits(v, c));
    }
  }

  lemma {:induction false} OrBound(a: nat, b: nat, n: nat)
    requires a < Pow2(n) && b < Pow2(n)
    ensures Or(a, b) < Pow2(n)
    decreases n
  {
    if n > 0 {
      OrBound(a / 2, b / 2, n - 1);
    }
  }

  /** Masking with 2^n - 1 keeps the `n` low bits. */
  lemma {:induction false} AndMask(v: nat, n: nat)
    ensures And(v, Pow2(n) - 1) == Value(LowBits(v, n))
    decreases n
  {
    if n > 0 {
      AndMask(v / 2, n - 1);
      assert (Pow2(n) - 1) / 2 == Pow2(n - 1) - 1 && (Pow2(n) - 1) % 2 == 1;
      hide Pow2;
      assert LowBits(v, n)[1..] == LowBits(v / 2, n - 1);
      AndStep(v, Pow2(n) - 1);
    }
  }

  lemma AndStep(a: nat, b: nat)
    ensures And(a, b) == 2 * And(a / 2, b / 2) + if a % 2 == 1 && b % 2 == 1 then 1 else 0
  {}

  lemma {:induction false} ShrBound(v: nat, i: nat, n: nat)
    requires i <= n && v < Pow2(n)
    ensures Shr(v, i) < Pow2(n - i)
    decreases i
  {
    if i > 0 {
      ShrBound(v, i - 1, n);
    }
  }

  lemma {:induction false} LowBitsPrefix(v: nat, n: nat, m: nat)
    requires n <= m
    ensures LowBits(v, m)[..n] == LowBits(v, n)
    decreases n
  {
    if n > 0 {
      LowBitsPrefix(v / 2, n - 1, m - 1);
      assert LowBits(v, m)[..n] == [v % 2 == 1] + LowBits(v / 2, m - 1)[..n - 1];
    }
  }

  lemma SmallMod(v: nat)
    requires v < 1048576
    ensures v % WORD_32 == v
  {}

  /** Shifting right drops low bits. */
  lemma {:induction false} ShrDrops(v: nat, i: nat, n: nat)
    requires i <= n
    ensures LowBits(Shr(v, i), n - i) == LowBits(v, n)[i..]
    decreases i
  {
    if i > 0 {
      ShrDrops(v, i - 1, n);
      assert LowBits(Shr(v, i - 1), n - (i - 1))[1..] == LowBits(Shr(v, i), n - i);
      assert LowBits(v, n)[i - 1..][1..] == LowBits(v, n)[i..];
    }
  }

  // ---- And, exclusive or ----

  lemma {:induction false} AndCommutative(a: nat, b: nat)
    ensures And(a, b) == And(b, a)
    decreases a + b
  {
    if a != 0 && b != 0 {
      AndCommutative(a / 2, b / 2);
    }
  }

  lemma {:induction false} XorCommutative(a: nat, b: nat)
    ensures Xor(a, b) == Xor(b, a)
    decreases a + b
  {
    if a != 0 || b != 0 {
      XorCommutative(a / 2, b / 2);
    }
  }

  lemma {:induction false} XorZero(a: nat)
    ensures Xor(a, 0) == a && Xor(0, a) == a
  {
    if a != 0 {
      XorZero(a / 2);
    }
  }

  lemma {:induction false} XorSelf(a: nat)
    ensures Xor(a, a) == 0
  {
    if a != 0 {
      XorSelf(a / 2);
    }
  }

  lemma XorHalves(a: nat, b: nat)
    ensures Xor(a, b) / 2 == Xor(a / 2, b / 2)
    ensures Xor(a, b) % 2 == (a % 2 + b % 2) % 2
  {}

  lemma {:induction false} XorAssociative(a: nat, b: nat, c: nat)
    ensures Xor(Xor(a, b), c) == Xor(a, Xor(b, c))
    decreases a
  {
    hide Xor;
    if a == 0 {
      XorZero(b);
      XorZero(Xor(b, c));
    } else {
      XorHalves(a, b);
      XorHalves(b, c);
      XorHalves(Xor(a, b), c);
      XorHalves(a, Xor(b, c));
      XorAssociative(a / 2, b / 2, c / 2);
      ParityAssociative(a % 2, b % 2, c % 2);
      SameHalves(Xor(Xor(a, b), c), Xor(a, Xor(b, c)));
    }
  }

  lemma SameHalves(x: nat, y: nat)
    requires x / 2 == y / 2 && x % 2 == y % 2
    ensures x == y
  {}

  lemma ParityAssociative(a: nat, b: nat, c: nat)
    ensures ((a + b) % 2 + c) % 2 == (a + (b + c) % 2) % 2
  {}

  lemma {:induction false} XorBound(a: nat, b: nat, n: nat)
    requires a < Pow2(n) && b < Pow2(n)
    ensures Xor(a, b) < Pow2(n)
    decreases n
  {
    if n > 0 {
      XorBound(a / 2, b / 2, n - 1);
    }
  }

  /** The low bits as a remainder. */
  lemma {:induction false} LowBitsRemainder(v: nat, n: nat)
    ensures Value(LowBits(v, n)) == v % Pow2(n)
    decreases n
  {
    if n > 0 {
      LowBitsRemainder(v / 2, n - 1);
      assert LowBits(v, n)[1..] == LowBits(v / 2, n - 1);
      HalfRemainder(v, Pow2(n - 1));
    }
  }

  lemma HalfRemainder(v: nat, p: nat)
    requires p > 0
    ensures v % (2 * p) == v % 2 + 2 * ((v / 2) % p)
  {
    var q, r := (v / 2) / p, (v / 2) % p;
    assert v == 2 * (p * q + r) + v % 2;
    assert v == (2 * p) * q + (2 * r + v % 2);
    DivUnique(v, 2 * p, q, 2 * r + v % 2);
  }
}

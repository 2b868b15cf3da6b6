/** Points as 32 bytes: packing, and unpacking the negative of a point by a square root. */
module PointCode {
  import opened ModArith
  import opened Word64
  import opened BitOps
  import opened Field25519
  import opened Scalar25519
  import opened Edwards
  import opened Curve25519

  const TWO_255 := 0x80000000_00000000_00000000_00000000_00000000_00000000_00000000_00000000

  // ---- Little-endian bytes ----

  /** The `k` little-endian bytes of a number. */
  function ToBytes(n: nat, k: nat): (b: seq<Byte>)
    ensures |b| == k
    decreases k, n
  {
    if k == 0 then [] else ToBytes(n % ByteWeight(k - 1), k - 1) + [n / ByteWeight(k - 1) % 256]
  }

  lemma ToBytesStep(n: nat, k: nat, q: Byte, r: nat)
    requires n == ByteWeight(k) * q + r && r < ByteWeight(k)
    ensures ToBytes(n, k + 1) == ToBytes(r, k) + [q]
  {
    DivUnique(n, ByteWeight(k), q, r);
  }

  lemma {:induction false} BytesOfNumber(b: seq<Byte>)
    ensures ToBytes(LittleEndian(b, |b|), |b|) == b
  {
    hide LittleEndian, ByteWeight, ToBytes;
    if |b| == 0 {
      NoBytes(LittleEndian(b, 0));
    } else {
      var k, c := |b| - 1, b[..|b| - 1];
      BytesOfNumber(c);
      LittleEndianFrame(b, c, k);
      LittleEndianBound(c, k);
      LittleEndianStep(b, k);
      ToBytesStep(LittleEndian(b, |b|), k, b[k], LittleEndian(c, k));
      assert b == c + [b[k]];
    }
  }

  lemma NoBytes(n: nat)
    ensures ToBytes(n, 0) == []
  {}

  lemma BytesAre(b: seq<Byte>, n: nat)
    requires LittleEndian(b, |b|) == n
    ensures b == ToBytes(n, |b|)
  {
    BytesOfNumber(b);
  }

  lemma {:induction false} NumberOfBytes(n: nat, k: nat)
    requires n < ByteWeight(k)
    ensures LittleEndian(ToBytes(n, k), k) == n
    decreases k, 1
  {
    if k == 0 {
      LittleEndianStart(ToBytes(n, 0));
    } else {
      hide *;
      var w := ByteWeight(k - 1);
      ByteWeightStep(k - 1);
      QuotientBound(n, w);
      SplitNumber(n, k - 1, n / w, n % w);
    }
  }

  lemma SplitNumber(n: nat, k: nat, q: Byte, r: nat)
    requires n == ByteWeight(k) * q + r && r < ByteWeight(k)
    ensures LittleEndian(ToBytes(n, k + 1), k + 1) == n
    decreases k + 1, 0
  {
    hide *;
    NumberOfBytes(r, k);
    LittleEndianAppend(ToBytes(r, k), q);
    ToBytesStep(n, k, q, r);
  }

  lemma QuotientBound(n: nat, w: nat)
    requires w > 0 && n < 256 * w
    ensures 0 <= n / w < 256 && n == w * (n / w) + n % w && n % w < w
  {
    var q := n / w;
    assert n == w * q + n % w;
    if q >= 256 {
      Scaled(q, w, 256, q);
    }
  }

  lemma {:induction false} LowestByte(b: seq<Byte>, n: nat)
    requires 1 <= n <= |b|
    ensures LittleEndian(b, n) % 2 == b[0] % 2
  {
    hide LittleEndian, ByteWeight;
    LittleEndianStep(b, n - 1);
    if n > 1 {
      LowestByte(b, n - 1);
      ByteWeightStep(n - 2);
      EvenTerm(LittleEndian(b, n - 1), b[n - 1], ByteWeight(n - 2));
    } else {
      LittleEndianStart(b);
      assert ByteWeight(0) == 1 by {
        NeutralWeight();
      }
    }
  }

  lemma NeutralWeight()
    ensures ByteWeight(0) == 1
  {}

  lemma EvenTerm(a: nat, b: nat, w: nat)
    ensures (a + b * (256 * w)) % 2 == a % 2
  {
    assert b * (256 * w) == 2 * (128 * (b * w));
    AddMultiple(a, 128 * (b * w), 2);
  }

  lemma TopByteOf(b: seq<Byte>)
    requires |b| == 32
    ensures LittleEndian(b, 32) == LittleEndian(b, 31) + b[31] * ByteWeight(31)
    ensures LittleEndian(b, 31) < ByteWeight(31) && TWO_255 == 128 * ByteWeight(31)
  {
    hide LittleEndian, ByteWeight;
    LittleEndianStep(b, 31);
    LittleEndianBound(b, 31);
    ByteWeightValues();
  }

  // ---- Field elements ----

  /** The field element in the low 255 bits. */
  method Unpack25519(n: seq<Byte>) returns (o: Limbs)
    requires |n| == 32
    ensures Reduced(o) && LimbValue(o) == LittleEndian(n, 32) % TWO_255
  {
    hide LittleEndian, Number, Band;
    var a := new I64[16](_ => 0);
    for i := 0 to 16
      invariant forall j :: 0 <= j < i ==> a[j] as int == LimbOfBytes(n[2 * j], n[2 * j + 1])
    {
      a[i] := n[2 * i] as I64 + n[2 * i + 1] as I64 * 256;
    }
    ghost var t := a[..];
    BytesOfLimbs(t, n, 16);
    ghost var x := a[15];
    LowFifteen(a[15]);
    a[15] := Band(a[15], 0x7fff);
    o := a[..];
    assert o == t[15 := o[15]];
    MaskTop(t, o[15]);
  }

  lemma LowFifteen(x: I64)
    requires 0 <= x
    ensures Band(x, 0x7fff) as int == x as int % 0x8000
  {
    hide Band, Pow2;
    Pow2Values();
    Pow2Step(14);
    Pow2Step(15);
    BandMask(x, 15, 0x7fff);
  }

  lemma MaskTop(t: Limbs, x: I64)
    requires AreDigits(t, 0, 16) && x as int == t[15] as int % 0x8000
    ensures LimbValue(t[15 := x]) == LimbValue(t) % TWO_255
  {
    hide Number, Weight;
    var o := t[15 := x];
    NumberUpdate(t, 15, x, 16);
    NumberStep(o, 15);
    DigitsBound(o, 15);
    WeightSixteen();
    WeightStep(15);
    var w, q := Weight(15), t[15] as int / 0x8000;
    Scaled(x as int, w, 0, 0x7fff);
    assert t[15] as int - x as int == 0x8000 * q;
    assert (x as int - t[15] as int) * w == -(TWO_255 * q);
    DivUnique(LimbValue(t), TWO_255, q, LimbValue(o));
  }

  /** Packed elements are equal exactly when they are congruent. */
  method Differ(a: Limbs, b: Limbs) returns (differ: bool)
    requires Bounded(a, 0x3ffff) && Bounded(b, 0x3ffff)
    ensures differ <==> !Zero(LimbValue(a) - LimbValue(b))
  {
    hide LittleEndian, LimbValue;
    var c := Pack25519(a);
    var d := Pack25519(b);
    BytesAre(c, LimbValue(a) % P);
    BytesAre(d, LimbValue(b) % P);
    ZeroIsCongruent(LimbValue(a), LimbValue(b));
    differ := c != d;
  }

  method Par25519(a: Limbs) returns (b: Byte)
    requires Bounded(a, 0x3ffff)
    ensures b == LimbValue(a) % P % 2
  {
    hide LittleEndian, LimbValue;
    var d := Pack25519(a);
    LowestByte(d, 32);
    AndOne(d[0]);
    b := And(d[0], 1);
  }

  lemma AndOne(x: nat)
    ensures And(x, 1) == x % 2
  {
    assert And(x / 2, 0) == 0;
  }

  // ---- Packing points ----

  /** The encoding of a point: its ordinate, and the low bit of its abscissa on top. */
  function Code(a: Affine): nat {
    a.y % P + TWO_255 * (a.x % P % 2)
  }

  lemma CodeIs(a: Affine)
    requires InField(a)
    ensures Code(a) == a.y + TWO_255 * (a.x % 2) && 0 <= a.y < P
  {}

  lemma {:induction false} XorAbove(a: nat, b: nat, n: nat)
    requires a < Pow2(n)
    ensures Xor(a, Shl(b, n)) == a + Pow2(n) * b
    decreases n, a
  {
    hide Xor, Shl, Pow2;
    ShiftSteps(b, n);
    if n == 0 {
      XorZero(b);
    } else {
      Pow2Step(n - 1);
      XorAbove(a / 2, b, n - 1);
      var s := Shl(b, n - 1);
      XorHalves(a, 2 * s);
      DoubleProduct(Pow2(n - 1), b);
    }
  }

  lemma ShiftSteps(b: nat, n: nat)
    ensures n == 0 ==> Shl(b, n) == b && Pow2(n) == 1
    ensures n > 0 ==> Shl(b, n) == 2 * Shl(b, n - 1)
  {}

  method PackPoint(p: Point, ghost a: Affine) returns (r: seq<Byte>)
    requires InRange(p)
    ensures |r| == 32
    ensures PrimeModulus() && OnCurve(a) && Stands(Values(p), a) ==> r == ToBytes(Code(a), 32)
  {
    hide LittleEndian, LimbValue, IsPower, Reduced, Bounded, ToBytes, Xor, Shl, PrimeModulus, OnCurve, Stands, Code;
    PointBounds(p);
    var zi := Inv25519(p.z);
    ReducedBounded(zi);
    var tx := MulF(p.x, zi);
    var ty := MulF(p.y, zi);
    ReducedBounded(tx);
    ReducedBounded(ty);
    r := Pack25519(ty);
    var sign := Par25519(tx);
    ghost var low := r;
    TopByteOf(low);
    PackedTop(low, sign);
    r := r[31 := Xor(r[31], Shl(sign, 7))];
    SignedBytesAre(low, r, sign);
    if PrimeModulus() && OnCurve(a) && Stands(Values(p), a) {
      CurveInField(a);
      AffineOf(p, zi, tx, ty, a);
      CodeIs(a);
      BytesAre(r, Code(a));
    }
  }

  lemma PackedTop(b: seq<Byte>, sign: nat)
    requires |b| == 32 && LittleEndian(b, 32) < TWO_255 && sign <= 1
    ensures b[31] < 128 && Xor(b[31], Shl(sign, 7)) == b[31] + 128 * sign
  {
    hide LittleEndian, ByteWeight, Xor, Shl, Pow2;
    TopByteOf(b);
    if b[31] >= 128 {
      Scaled(b[31], ByteWeight(31), 128, 255);
    }
    Pow2Values();
    XorAbove(b[31], sign, 7);
  }

  lemma SignedBytesAre(b: seq<Byte>, r: seq<Byte>, sign: nat)
    requires |b| == 32 && b[31] < 128 && sign <= 1 && r == b[31 := b[31] + 128 * sign]
    ensures LittleEndian(r, 32) == LittleEndian(b, 32) + TWO_255 * sign
  {
    hide LittleEndian, ByteWeight;
    TopByteOf(b);
    TopByteOf(r);
    LittleEndianFrame(r, b, 31);
    assert (b[31] + 128 * sign) * ByteWeight(31) == b[31] * ByteWeight(31) + (128 * ByteWeight(31)) * sign;
  }

  /** Dividing by Z gives the affine coordinates. */
  lemma AffineOf(p: Point, zi: Limbs, tx: Limbs, ty: Limbs, a: Affine)
    requires PrimeModulus() && InField(a) && Stands(Values(p), a) && IsPower(zi, p.z, P - 2)
    requires Congruent(LimbValue(tx), LimbValue(p.x) * LimbValue(zi))
    requires Congruent(LimbValue(ty), LimbValue(p.y) * LimbValue(zi))
    ensures LimbValue(tx) % P == a.x && LimbValue(ty) % P == a.y
  {
    hide LimbValue, Zero, IntPower;
    var z, i := LimbValue(p.z), LimbValue(zi);
    assert Invertible(z);
    ZeroIsCongruent(i, Inverse(z));
    assert Zero(z * i - 1) by {
      Combination(z * i - 1, z, i - Inverse(z), 1, z * Inverse(z) - 1);
    }
    DivideOut(LimbValue(tx), LimbValue(p.x), i, a.x, z);
    DivideOut(LimbValue(ty), LimbValue(p.y), i, a.y, z);
  }

  lemma DivideOut(t: int, x: int, i: int, a: int, z: int)
    requires Congruent(t, x * i) && Zero(x - a * z) && Zero(z * i - 1) && 0 <= a < P
    ensures t % P == a
  {
    hide Zero, Congruent;
    ZeroIsCongruent(t, x * i);
    assert x * i - a == i * (x - a * z) + a * (z * i - 1);
    Combination(x * i - a, i, x - a * z, a, z * i - 1);
    ZeroPlus(t - x * i, x * i - a);
    Canonical(t, a);
  }

  lemma Canonical(t: int, a: int)
    requires Zero(t - a) && 0 <= a < P
    ensures t % P == a
  {
    ZeroIsCongruent(t, a);
  }

  // ---- Square roots ----

  /** `x` and `y` satisfy the curve equation. */
  ghost predicate IsRoot(x: int, y: int) {
    Zero(Defect(x, y))
  }

  function Numerator(y: int): int {
    y * y - 1
  }

  ghost function Denominator(y: int): int {
    1 + D * (y * y)
  }

  /** The equation, solved for the square of `x`. */
  lemma RootMeans(x: int, y: int)
    ensures IsRoot(x, y) <==> Zero(Denominator(y) * (x * x) - Numerator(y))
  {
    hide Zero;
    var d := Defect(x, y);
    assert Denominator(y) * (x * x) - Numerator(y) == -d by {
      DefectIs(x, y);
      RootAlgebra(D, x, y);
    }
    hide Denominator, Numerator;
    if Zero(d) {
      ZeroTimes(-1, d);
    }
    if Zero(-d) {
      ZeroTimes(-1, -d);
    }
  }

  lemma RootAlgebra(k: int, x: int, y: int)
    ensures (1 + k * (y * y)) * (x * x) - (y * y - 1) == -(-x * x + y * y - 1 - k * ((x * y) * (x * y)))
  {
    SquareProduct(x, y);
    var m, n := x * x, y * y;
    assert (1 + k * n) * m == m + k * (m * n);
  }

  /** The denominator vanishes for no ordinate of the curve. */
  lemma DenominatorNonzero(x: int, y: int)
    requires IsRoot(x, y)
    ensures !Zero(Denominator(y))
  {
    hide Zero, IsRoot;
    RootMeans(x, y);
    var u, v := Numerator(y), Denominator(y);
    if Zero(v) {
      Combination(u, x * x, v, -1, v * (x * x) - u);
      assert 1 + D == 1 * v + (-D) * u;
      Combination(1 + D, 1, v, -D, u);
      NoSuchDenominator();
    }
  }

  lemma NoSuchDenominator()
    ensures !Zero(1 + D)
  {
    DValue();
    ZeroMeans(1 + D);
  }

  lemma {:induction false} PowerCongruent(a: int, b: int, n: nat)
    requires Zero(a - b)
    ensures Zero(IntPower(a, n) - IntPower(b, n))
  {
    hide Zero;
    if n == 0 {
      ZeroTimes(0, a - b);
    } else {
      PowerCongruent(a, b, n - 1);
      ZeroProduct(a, b, IntPower(a, n - 1), IntPower(b, n - 1));
    }
  }

  lemma {:induction false} PowerOfSquare(s: int, n: nat)
    ensures IntPower(s * s, n) == IntPower(s, 2 * n)
  {
    if n > 0 {
      PowerOfSquare(s, n - 1);
      PowerSum(s, 2, 2 * n - 2);
      assert IntPower(s, 2) == s * s by {
        PowerOne(s);
      }
    }
  }

  /** A square root of 1 is 1 or -1. */
  lemma RootOfOne(e: int)
    requires PrimeModulus() && Zero(e * e - 1)
    ensures Zero(e - 1) || Zero(e + 1)
  {
    hide Zero, PrimeModulus;
    assert e * e - 1 == (e - 1) * (e + 1);
    if !Zero(e - 1) {
      Cancel(e - 1, e + 1);
    }
  }

  /** Raising a nonzero number to (P - 1) / 2 gives 1 or -1. */
  lemma Euler(s: int)
    requires PrimeModulus() && !Zero(s)
    ensures var e := IntPower(s, (P - 1) / 2); Zero(e - 1) || Zero(e + 1)
  {
    hide Zero, IntPower;
    var e := IntPower(s, (P - 1) / 2);
    PowerSum(s, (P - 1) / 2, (P - 1) / 2);
    PowerSum(s, 1, P - 2);
    PowerOne(s);
    assert Invertible(s);
    RootOfOne(e);
  }

  const ROOT_EXPONENT := (P - 5) / 8

  /** The fourth power, as the code builds it. */
  function Fourth(v: int): int {
    (v * v) * (v * v)
  }

  function Cube(v: int): int {
    v * (v * v)
  }

  lemma FourthIs(v: int)
    ensures v * Cube(v) == Fourth(v)
  {}

  /** On a point of the curve, `u v^7` is the square of `x v^4`. */
  lemma SquareUnderRoot(x: int, u: int, v: int, w: int)
    requires Zero(v * (x * x) - u) && Zero(w - u * (Fourth(v) * Cube(v)))
    ensures Zero(w - (x * Fourth(v)) * (x * Fourth(v)))
  {
    var q, c := Fourth(v), Cube(v);
    FourthIs(v);
    hide Zero, Fourth, Cube;
    SquareProduct(x, q);
    assert (v * (x * x)) * (q * c) == (x * x) * (q * (v * c));
    assert w - (x * x) * (q * q) == 1 * (w - u * (q * c)) + (-(q * c)) * (v * (x * x) - u) by {
      assert (-(q * c)) * (v * (x * x) - u) == -((v * (x * x)) * (q * c)) + u * (q * c);
    }
    Combination(w - (x * x) * (q * q), 1, w - u * (q * c), -(q * c), v * (x * x) - u);
  }

  /** The candidate times `v^4`. */
  lemma ScaledCandidate(x: int, u: int, v: int, f: int, f': int, c: int)
    requires Zero(v * (x * x) - u) && Zero(c - f' * (u * Cube(v))) && Zero(f' - f)
    ensures Zero(c - (f * (x * x)) * Fourth(v))
  {
    var q, k := Fourth(v), Cube(v);
    FourthIs(v);
    hide Zero, Fourth, Cube;
    ZeroTimes(u * k, f' - f);
    assert (u * k) * (f' - f) == f' * (u * k) - f * (u * k);
    ZeroPlus(c - f' * (u * k), f' * (u * k) - f * (u * k));
    ZeroTimes(-(f * k), v * (x * x) - u);
    ZeroPlus(c - f * (u * k), -(f * k) * (v * (x * x) - u));
    Candidate(x, u, v, f, k, c);
  }

  lemma Candidate(x: int, u: int, v: int, f: int, k: int, c: int)
    ensures c - f * (u * k) + -(f * k) * (v * (x * x) - u) == c - (f * (x * x)) * (v * k)
  {
    var m := x * x;
    assert -(f * k) * (v * m - u) == -((f * k) * (v * m)) + (f * k) * u;
    assert (f * k) * (v * m) == (f * m) * (v * k);
    assert (f * k) * u == f * (u * k);
  }

  /** So the candidate squared is `x` squared times the Euler power. */
  lemma CandidateSquared(x: int, q: int, f: int, c: int, e: int)
    requires Zero(c - (f * (x * x)) * q)
    requires (f * f) * ((x * q) * (x * q)) == e
    ensures Zero(c * c - e * (x * x))
  {
    var m := x * x;
    SquareProduct(x, q);
    SquareProduct(f * m, q);
    SquareProduct(f, m);
    hide Zero;
    ZeroProduct(c, (f * m) * q, c, (f * m) * q);
    Euler4(f, m, q);
  }

  lemma Euler4(f: int, m: int, q: int)
    ensures ((f * m) * (f * m)) * (q * q) == ((f * f) * (m * (q * q))) * m
  {
    SquareProduct(f, m);
    var a, b, n := f * f, q * q, m * m;
    assert (a * n) * b == (a * (m * b)) * m;
  }

  /** For an ordinate of the curve the candidate `(u v^7)^((P-5)/8) u v^3` solves the equation,
      for `u` or for `-u`. */
  lemma CandidateIsRoot(x: int, u: int, v: int, w: int, f: int, c: int)
    requires PrimeModulus() && !Zero(v) && Zero(v * (x * x) - u)
    requires Zero(w - u * (Fourth(v) * Cube(v))) && Zero(f - IntPower(w, ROOT_EXPONENT))
    requires Zero(c - f * (u * Cube(v)))
    ensures Zero(v * (c * c) - u) || Zero(v * (c * c) + u)
  {
    hide Zero, PrimeModulus, IntPower, Fourth, Cube;
    var q := Fourth(v);
    FourthNonzero(v);
    var s := x * q;
    if Zero(s) {
      Cancel(q, x);
      assert f * (u * Cube(v)) == (f * Cube(v)) * u;
      ZeroRoot(x, u, v, f * Cube(v), c);
    } else {
      SquareUnderRoot(x, u, v, w);
      PowerCongruent(w, s * s, ROOT_EXPONENT);
      PowerOfSquare(s, ROOT_EXPONENT);
      var g := IntPower(s, 2 * ROOT_EXPONENT);
      ZeroPlus(f - IntPower(w, ROOT_EXPONENT), IntPower(w, ROOT_EXPONENT) - g);
      ScaledCandidate(x, u, v, g, f, c);
      EulerExponent(s);
      var e := IntPower(s, (P - 1) / 2);
      CandidateSquared(x, q, g, c, e);
      Euler(s);
      SignOfRoot(v, c, x, u, e);
    }
  }

  lemma FourthNonzero(v: int)
    requires PrimeModulus() && !Zero(v)
    ensures !Zero(Fourth(v))
  {
    hide Zero, PrimeModulus;
    NonzeroProduct(v, v);
    NonzeroProduct(v * v, v * v);
  }

  /** When the abscissa is zero, so are both sides. */
  lemma ZeroRoot(x: int, u: int, v: int, f: int, c: int)
    requires Zero(x) && Zero(v * (x * x) - u) && Zero(c - f * u)
    ensures Zero(v * (c * c) - u)
  {
    hide Zero;
    ZeroTimes(x, x);
    Combination(u, v, x * x, -1, v * (x * x) - u);
    ZeroTimes(f, u);
    ZeroPlus(c - f * u, f * u);
    ZeroTimes(v * c, c);
    assert (v * c) * c == v * (c * c);
    ZeroPlus(v * (c * c), u);
  }

  lemma EulerExponent(s: int)
    ensures var g := IntPower(s, 2 * ROOT_EXPONENT); (g * g) * (s * s) == IntPower(s, (P - 1) / 2)
  {
    hide IntPower;
    PowerSum(s, 2 * ROOT_EXPONENT, 2 * ROOT_EXPONENT);
    PowerSum(s, 4 * ROOT_EXPONENT, 2);
    PowerSum(s, 1, 1);
    PowerOne(s);
  }

  lemma SignOfRoot(v: int, c: int, x: int, u: int, e: int)
    requires Zero(c * c - e * (x * x)) && Zero(v * (x * x) - u) && (Zero(e - 1) || Zero(e + 1))
    ensures Zero(v * (c * c) - u) || Zero(v * (c * c) + u)
  {
    hide Zero;
    var m, t := x * x, c * c;
    Combination(v * t - e * u, v, t - e * m, e, v * m - u);
    if Zero(e - 1) {
      Combination(v * t - u, 1, v * t - e * u, u, e - 1);
    } else {
      Combination(v * t + u, 1, v * t - e * u, u, e + 1);
    }
  }

  /** Two roots differ in sign at most. */
  lemma RootsAgree(x: int, c: int, y: int)
    requires PrimeModulus() && IsRoot(x, y) && IsRoot(c, y)
    ensures Zero(c - x) || Zero(c + x)
  {
    hide Zero, PrimeModulus, Numerator, Denominator, IsRoot;
    DenominatorNonzero(x, y);
    RootMeans(x, y);
    RootMeans(c, y);
    var u, v := Numerator(y), Denominator(y);
    ZeroPlus(v * (c * c) - u, v * (x * x) - u);
    assert v * (c * c) - u - (v * (x * x) - u) == v * ((c - x) * (c + x));
    Cancel(v, (c - x) * (c + x));
    if !Zero(c - x) {
      Cancel(c - x, c + x);
    }
  }

  lemma RootSquare()
    ensures Zero(ROOT * ROOT + 1)
  {
    ZeroMeans(ROOT * ROOT + 1);
  }

  /** Multiplying by the root of -1 turns a solution for `-u` into one for `u`. */
  lemma TurnedRoot(v: int, c: int, u: int, c': int)
    requires Zero(v * (c * c) + u) && Zero(c' - c * ROOT)
    ensures Zero(v * (c' * c') - u)
  {
    RootSquare();
    hide Zero;
    ZeroProduct(c', c * ROOT, c', c * ROOT);
    SquareProduct(c, ROOT);
    var t, i := c * c, ROOT * ROOT;
    ZeroTimes(v, c' * c' - t * i);
    Combination(v * (t * i) - u, v * t, i + 1, -1, v * t + u);
    ZeroPlus(v * (c' * c' - t * i), v * (t * i) - u);
    assert v * (c' * c' - t * i) + (v * (t * i) - u) == v * (c' * c') - u;
  }

  // ---- Unpacking ----

  /** The two sides of the curve equation solved for the square of the abscissa. */
  method Sides(y: Limbs) returns (num: Limbs, den: Limbs)
    requires Bounded(y, 0x3ffff)
    ensures Bounded(num, 0x3ffff) && Bounded(den, 0x3ffff)
    ensures Zero(LimbValue(num) - Numerator(LimbValue(y))) && Zero(LimbValue(den) - Denominator(LimbValue(y)))
  {
    hide LimbValue, Zero, Congruent, Reduced, Bounded;
    num := MulF(y, y);
    ghost var v, s := LimbValue(y), LimbValue(num);
    ZeroIsCongruent(s, v * v);
    ReducedBounded(num);
    DLimbsValue();
    ReducedBounded(D_LIMBS);
    den := MulF(num, D_LIMBS);
    ghost var t := LimbValue(den);
    ZeroIsCongruent(t, s * D);
    ReducedBounded(den);
    UnitValues();
    ReducedBounded(ONE_LIMBS);
    num := SubF(num, ONE_LIMBS, LIMB_MAX, LIMB_MAX);
    den := AddF(ONE_LIMBS, den, LIMB_MAX, LIMB_MAX);
    Widen(num, 2 * LIMB_MAX);
    Widen(den, 2 * LIMB_MAX);
    Combination(t - D * (v * v), 1, t - s * D, D, s - v * v);
  }

  /** The product, as a difference that is zero. */
  method Product(a: Limbs, b: Limbs) returns (r: Limbs)
    requires Bounded(a, 0x3ffff) && Bounded(b, 0x3ffff)
    ensures Reduced(r) && Bounded(r, 0x3ffff) && Zero(LimbValue(r) - LimbValue(a) * LimbValue(b))
  {
    hide LimbValue, Zero, Congruent, Reduced, Bounded;
    r := MulF(a, b);
    ReducedBounded(r);
    ZeroIsCongruent(LimbValue(r), LimbValue(a) * LimbValue(b));
  }

  lemma ProductOf(r: int, a: int, a': int, b: int, b': int)
    requires Zero(r - a * b) && Zero(a - a') && Zero(b - b')
    ensures Zero(r - a' * b')
  {
    hide Zero;
    ZeroProduct(a, a', b, b');
    ZeroPlus(r - a * b, a * b - a' * b');
  }

  /** `(u v^7)^((P-5)/8) u v^3`. */
  method CandidateRoot(num: Limbs, den: Limbs) returns (c: Limbs, ghost w: int, ghost f: int)
    requires Bounded(num, 0x3ffff) && Bounded(den, 0x3ffff)
    ensures Reduced(c)
    ensures Zero(w - LimbValue(num) * (Fourth(LimbValue(den)) * Cube(LimbValue(den))))
    ensures Zero(f - IntPower(w, ROOT_EXPONENT)) && Zero(LimbValue(c) - f * (LimbValue(num) * Cube(LimbValue(den))))
  {
    hide LimbValue, Zero, Reduced, Bounded, IntPower, Congruent;
    ghost var u, v := LimbValue(num), LimbValue(den);
    var den2 := Product(den, den);
    var den4 := Product(den2, den2);
    ProductOf(LimbValue(den4), LimbValue(den2), v * v, LimbValue(den2), v * v);
    var den6 := Product(den4, den2);
    ProductOf(LimbValue(den6), LimbValue(den4), Fourth(v), LimbValue(den2), v * v);
    var t := Product(den6, num);
    SelfZero(u);
    SelfZero(v);
    ProductOf(LimbValue(t), LimbValue(den6), Fourth(v) * (v * v), u, u);
    ghost var t0 := LimbValue(t);
    t := Product(t, den);
    ProductOf(LimbValue(t), t0, Fourth(v) * (v * v) * u, v, v);
    w := LimbValue(t);
    assert Fourth(v) * (v * v) * u * v == u * (Fourth(v) * Cube(v)) by {
      SeventhPower(Fourth(v), v, u);
    }
    t := Pow2523(t);
    ReducedBounded(t);
    f := LimbValue(t);
    ZeroIsCongruent(f, IntPower(w, ROOT_EXPONENT));
    c := TimesCube(t, num, den);
  }

  lemma SeventhPower(q: int, v: int, u: int)
    ensures q * (v * v) * u * v == u * (q * (v * (v * v)))
  {
    var m := v * v;
    assert q * m * u * v == u * (q * m * v);
    assert q * m * v == q * (v * m);
  }

  /** `t u v^3`, factor by factor. */
  method TimesCube(t: Limbs, num: Limbs, den: Limbs) returns (c: Limbs)
    requires Bounded(t, 0x3ffff) && Bounded(num, 0x3ffff) && Bounded(den, 0x3ffff)
    ensures Reduced(c) && Zero(LimbValue(c) - LimbValue(t) * (LimbValue(num) * Cube(LimbValue(den))))
  {
    hide LimbValue, Zero, Reduced, Bounded;
    ghost var u, v, f := LimbValue(num), LimbValue(den), LimbValue(t);
    SelfZero(v);
    c := Product(t, num);
    ghost var c1 := LimbValue(c);
    c := Product(c, den);
    ghost var c2 := LimbValue(c);
    ProductOf(c2, c1, f * u, v, v);
    c := Product(c, den);
    ghost var c3 := LimbValue(c);
    ProductOf(c3, c2, f * u * v, v, v);
    c := Product(c, den);
    ProductOf(LimbValue(c), c3, f * u * v * v, v, v);
    assert f * u * v * v * v == f * (u * Cube(v)) by {
      Regrouped(f * u, v);
      assert (f * u) * Cube(v) == f * (u * Cube(v));
    }
  }

  lemma Regrouped(a: int, v: int)
    ensures a * v * v * v == a * Cube(v)
  {
    var m := v * v;
    assert a * v * v == a * m;
    assert a * m * v == a * (v * m);
  }

  /** Whether `den x^2 = num`. */
  method Solves(x: Limbs, num: Limbs, den: Limbs) returns (ok: bool)
    requires Bounded(x, 0x3ffff) && Bounded(num, 0x3ffff) && Bounded(den, 0x3ffff)
    ensures ok <==> Zero(LimbValue(den) * (LimbValue(x) * LimbValue(x)) - LimbValue(num))
  {
    hide LimbValue, Zero, Reduced, Bounded;
    var chk := Product(x, x);
    ghost var s := LimbValue(chk);
    chk := Product(chk, den);
    ghost var a, v, m, u := LimbValue(chk), LimbValue(den), LimbValue(x) * LimbValue(x), LimbValue(num);
    SelfZero(v);
    ProductOf(a, s, m, v, v);
    var differ := Differ(chk, num);
    ok := !differ;
    assert m * v == v * m;
    if ok {
      ZeroPlus(a - u, a - v * m);
    }
    if Zero(v * m - u) {
      ZeroPlus(a - v * m, v * m - u);
    }
  }

  /** The root, if there is one: the candidate, or the candidate times the root of -1. */
  method SquareRoot(num: Limbs, den: Limbs) returns (x: Limbs, ok: bool)
    requires Bounded(num, 0x3ffff) && Bounded(den, 0x3ffff)
    ensures Reduced(x)
    ensures ok <==> Zero(LimbValue(den) * (LimbValue(x) * LimbValue(x)) - LimbValue(num))
    ensures PrimeModulus() && !Zero(LimbValue(den)) ==>
              forall r :: Solution(r, LimbValue(num), LimbValue(den)) ==> ok
  {
    hide LimbValue, Zero, Reduced, Bounded, PrimeModulus, IntPower, Fourth, Cube;
    ghost var u, v := LimbValue(num), LimbValue(den);
    ghost var w, f;
    x, w, f := CandidateRoot(num, den);
    ReducedBounded(x);
    ghost var c := LimbValue(x);
    var direct := Solves(x, num, den);
    if !direct {
      RootValue();
      ReducedBounded(ROOT_LIMBS);
      x := Product(x, ROOT_LIMBS);
    }
    ok := Solves(x, num, den);
    if PrimeModulus() && !Zero(v) {
      forall r | Solution(r, u, v)
        ensures ok
      {
        CandidateIsRoot(r, u, v, w, f, c);
        if !direct {
          TurnedRoot(v, c, u, LimbValue(x));
        }
      }
    }
  }

  ghost predicate Solution(r: int, u: int, v: int) {
    Zero(v * (r * r) - u)
  }

  lemma SolutionTransfers(r: int, y: int, u: int, v: int)
    requires Zero(u - Numerator(y)) && Zero(v - Denominator(y))
    ensures Solution(r, u, v) <==> IsRoot(r, y)
    ensures Zero(v) <==> Zero(Denominator(y))
  {
    hide Zero, Numerator, Denominator, IsRoot;
    RootMeans(r, y);
    var u', v', m := Numerator(y), Denominator(y), r * r;
    var d := (v - v') * m - (u - u');
    Combination(d, m, v - v', -1, u - u');
    assert v * m - u - (v' * m - u') == d;
    if Zero(v * m - u) {
      ZeroPlus(v * m - u, d);
    }
    if Zero(v' * m - u') {
      ZeroPlus(v' * m - u', d);
    }
    if Zero(v) {
      ZeroPlus(v, v - v');
    }
    if Zero(v') {
      ZeroPlus(v - v', v');
    }
  }

  /** The top bit and the other bits of an encoding. */
  lemma CodeParts(p: seq<Byte>, a: Affine)
    requires OnCurve(a) && p == ToBytes(Code(a), 32)
    ensures LittleEndian(p, 32) % TWO_255 == a.y && p[31] / 128 == a.x % 2
  {
    CodeIs(a);
    hide *;
    ByteWeightValues();
    NumberOfBytes(Code(a), 32);
    TopByteOf(p);
    SplitTop(Code(a), a.y, a.x % 2, LittleEndian(p, 31), p[31], ByteWeight(31));
  }

  lemma SplitTop(n: int, y: int, bit: int, low: int, b: Byte, w: int)
    requires n == y + TWO_255 * bit && 0 <= y < TWO_255
    requires n == low + b * w && 0 <= low < w && TWO_255 == 128 * w
    ensures n % TWO_255 == y && b / 128 == bit
  {
    DivUnique(n, TWO_255, bit, y);
    var s, t := b / 128, b % 128;
    Scaled(t, w, 0, 127);
    assert (128 * s + t) * w == (128 * w) * s + t * w;
    DivUnique(n, TWO_255, s, t * w + low);
  }

  // ---- The point that 32 bytes name ----

  /** The bytes name the point: it has their ordinate, not necessarily reduced, and their sign bit
      unless its abscissa is 0. */
  ghost predicate Names(p: seq<Byte>, a: Affine)
    requires |p| == 32
  {
    OnCurve(a) && a.y == LittleEndian(p, 32) % TWO_255 % P && (a.x == 0 || a.x % 2 == p[31] / 128)
  }

  /** The encoding of a point names it. */
  lemma EncodingNames(a: Affine)
    requires OnCurve(a)
    ensures Names(ToBytes(Code(a), 32), a)
  {
    hide LittleEndian, ToBytes, Code, Zero, Defect;
    CodeParts(ToBytes(Code(a), 32), a);
  }

  /** Being a root depends only on residues, and not on the sign of the root. */
  lemma RootMoves(x: int, r: int, y: int, y': int)
    requires IsRoot(x, y) && Zero(y - y') && (Zero(x - r) || Zero(x + r))
    ensures IsRoot(r, y')
  {
    hide Zero, IsRoot;
    RootMeans(x, y);
    RootMeans(r, y');
    var q, q', m, n := x * x, r * r, y * y, y' * y';
    SquareGap(x, r);
    SquareGap(y, y');
    var gap := (1 + D * n) * (q - q') + (D * q - 1) * (m - n);
    Combination(gap, 1 + D * n, q - q', D * q - 1, m - n);
    RootGap(D, q, q', m, n);
    ZeroPlus((1 + D * m) * q - (m - 1), gap);
  }

  lemma RootGap(k: int, q: int, q': int, m: int, n: int)
    ensures (1 + k * n) * q' - (n - 1)
         == (1 + k * m) * q - (m - 1) - ((1 + k * n) * (q - q') + (k * q - 1) * (m - n))
  {}

  lemma SquareGap(x: int, r: int)
    requires Zero(x - r) || Zero(x + r)
    ensures Zero(x * x - r * r)
  {
    hide Zero;
    assert x * x - r * r == (x + r) * (x - r) == (x - r) * (x + r);
    if Zero(x - r) {
      ZeroTimes(x + r, x - r);
    } else {
      ZeroTimes(x - r, x + r);
    }
  }

  lemma NamedIsRoot(p: seq<Byte>, a: Affine)
    requires |p| == 32 && Names(p, a)
    ensures IsRoot(a.x, LittleEndian(p, 32) % TWO_255)
  {
    hide LittleEndian, Zero;
    var v := LittleEndian(p, 32) % TWO_255;
    ResidueZero(v);
    SelfZero(a.x);
    RootMoves(a.x, a.x, a.y, v);
  }

  lemma SelfZero(x: int)
    ensures Zero(x - x)
  {
    ZeroMeans(0);
  }

  /** A root for the ordinate gives a point that the bytes name. */
  lemma RootIsNamed(p: seq<Byte>, x: int) returns (a: Affine)
    requires |p| == 32 && IsRoot(x, LittleEndian(p, 32) % TWO_255)
    ensures Names(p, a)
  {
    hide LittleEndian, Zero;
    var v, r := LittleEndian(p, 32) % TWO_255, x % P;
    ResidueZero(x);
    ResidueZero(v);
    var c := if r == 0 || r % 2 == p[31] / 128 then r else P - r;
    if c != r {
      ModulusIsZero();
      ZeroPlus(x - r, P);
      assert x - r + P == x + c;
    }
    RootMoves(x, c, v, v % P);
    OtherParity(r);
    a := Affine(c, v % P);
  }

  lemma OtherParity(r: int)
    ensures (P - r) % 2 != r % 2
  {}

  /** The bytes name at most one point. */
  lemma NamesOnce(p: seq<Byte>, a: Affine, b: Affine)
    requires PrimeModulus() && |p| == 32 && Names(p, a) && Names(p, b)
    ensures a == b
  {
    hide LittleEndian, Zero, IsRoot, PrimeModulus, Defect;
    NamedIsRoot(p, a);
    NamedIsRoot(p, b);
    RootsAgree(a.x, b.x, LittleEndian(p, 32) % TWO_255);
    SameSign(a.x, b.x);
  }

  lemma SameSign(x: int, r: int)
    requires 0 <= r < P && 0 <= x < P && (Zero(r - x) || Zero(r + x)) && (x == 0 || r == 0 || x % 2 == r % 2)
    ensures x == r
  {
    if Zero(r - x) {
      Canonical(r, x);
    } else if x > 0 {
      OtherParity(x);
      ModulusIsZero();
      hide Zero;
      ZeroPlus(r + x, P);
      Canonical(r, P - x);
    } else {
      Canonical(r, 0);
    }
  }

  /** Choosing the sign that differs from the encoded one gives the negative. */
  lemma SignPicksNegative(p: seq<Byte>, x: int, x': int, a: Affine)
    requires PrimeModulus() && |p| == 32 && Names(p, a) && IsRoot(x, LittleEndian(p, 32) % TWO_255)
    requires x' == if x % P % 2 == p[31] / 128 then -x else x
    ensures Zero(x' + a.x)
  {
    hide LittleEndian, Zero, PrimeModulus, IsRoot, Defect;
    NamedIsRoot(p, a);
    RootsAgree(a.x, x, LittleEndian(p, 32) % TWO_255);
    SignChoice(x, x', a.x, p[31] / 128);
  }

  lemma SignChoice(x: int, x': int, r: int, bit: int)
    requires 0 <= r < P && (Zero(x - r) || Zero(x + r)) && (r == 0 || r % 2 == bit)
    requires x' == if x % P % 2 == bit then -x else x
    ensures Zero(x' + r)
  {
    hide Zero;
    if r == 0 {
      ZeroTimes(-1, x);
    } else if Zero(x - r) {
      Canonical(x, r);
      ZeroTimes(-1, x - r);
      assert -1 * (x - r) == -x + r;
    } else {
      ModulusIsZero();
      ZeroPlus(x + r, P);
      Canonical(x, P - r);
    }
  }

  lemma ModulusIsZero()
    ensures Zero(P)
  {
    ZeroMeans(P);
  }

  lemma StandsForNegative(c: Coordinates, a: Affine)
    requires InField(a) && c.z == 1 && Zero(c.y - a.y) && Zero(c.x + a.x) && Zero(c.t - c.x * c.y)
    ensures Stands(c, Negate(a))
  {
    var n := -a.x % P;
    ResidueZero(-a.x);
    hide Zero;
    ZeroPlus(c.x + a.x, n + a.x);
    assert c.x + a.x - (n + a.x) == c.x - n;
    ProductGap(c.x, c.y, n, a.y);
    ZeroPlus(c.t - c.x * c.y, c.x * c.y - n * a.y);
    assert !Zero(1) by {
      OneIsNotZero();
    }
  }

  lemma ProductGap(x: int, y: int, x': int, y': int)
    requires Zero(x - x') && Zero(y - y')
    ensures Zero(x * y - x' * y')
  {
    hide Zero;
    Combination(x * y - x' * y', y, x - x', x', y - y');
  }

  lemma OneIsNotZero()
    ensures !Zero(1)
  {
    ZeroMeans(1);
  }

  /** The negative of the point that the bytes name, if they name one. */
  method Unpackneg(p: seq<Byte>) returns (r: Point, ok: bool)
    requires |p| == 32
    ensures InRange(r)
    ensures PrimeModulus() ==> (ok <==> exists a :: Names(p, a))
    ensures PrimeModulus() && ok ==> forall a :: Names(p, a) ==> Stands(Values(r), Negate(a))
  {
    hide LimbValue, Zero, Reduced, Bounded, PrimeModulus, LittleEndian, IsRoot, Stands, Names;
    UnitValues();
    ReducedBounded(ZERO_LIMBS);
    ReducedBounded(ONE_LIMBS);
    var y := Unpack25519(p);
    ReducedBounded(y);
    ghost var v := LimbValue(y);
    var num, den := Sides(y);
    var x;
    x, ok := SquareRoot(num, den);
    ReducedBounded(x);
    ghost var root := LimbValue(x);
    SolutionTransfers(root, v, LimbValue(num), LimbValue(den));
    assert ok <==> IsRoot(root, v);
    if !ok {
      r := Point(x, y, ONE_LIMBS, ZERO_LIMBS);
      if PrimeModulus() {
        forall a
          ensures !Names(p, a)
        {
          if Names(p, a) {
            NamedIsRoot(p, a);
            DenominatorNonzero(a.x, v);
            SolutionTransfers(a.x, v, LimbValue(num), LimbValue(den));
          }
        }
      }
      return;
    }
    ghost var named := RootIsNamed(p, root);
    var parity := Par25519(x);
    if parity == p[31] / 128 {
      x := SubF(ZERO_LIMBS, x, 0, LIMB_MAX);
      Widen(x, LIMB_MAX);
    }
    var t := Product(x, y);
    ReducedBounded(t);
    r := Point(x, y, ONE_LIMBS, t);
    if PrimeModulus() {
      forall a | Names(p, a)
        ensures Stands(Values(r), Negate(a))
      {
        SignPicksNegative(p, root, LimbValue(x), a);
        NamedOrdinate(p, a);
        StandsForNegative(Values(r), a);
      }
    }
  }

  lemma NamedOrdinate(p: seq<Byte>, a: Affine)
    requires |p| == 32 && Names(p, a)
    ensures OnCurve(a) && Zero(LittleEndian(p, 32) % TWO_255 - a.y)
  {
    hide LittleEndian, Zero, Defect;
    ResidueZero(LittleEndian(p, 32) % TWO_255);
  }
}

/** Arithmetic of GF(256) with reduction polynomial 0x11D, as used by the erasure code.

    `Product`, `Power` and `Inverse` are the mathematical operations; the methods `Mul`, `Pow`
    and `Inv` are the shift-and-add and square-and-multiply loops that compute them.  The lemmas
    establish that the operations form a field of characteristic two, in which addition is
    exclusive or. */
module GaloisField {
  import opened BitOps

  /** One byte, read as an element of GF(256). */
  type Symbol = bv8

  /** Addition of the field. */
  function Sum(a: Symbol, b: Symbol): Symbol {
    a ^ b
  }

  predicate LowBit(x: Symbol) {
    x & 1 != 0
  }

  predicate HighBit(x: Symbol) {
    x & 0x80 != 0
  }

  function ShiftRight(x: Symbol): Symbol {
    x >> 1
  }

  function ShiftLeft(x: Symbol): Symbol {
    x << 1
  }

  /** Multiplication by x modulo the reduction polynomial. */
  function Double(x: Symbol): Symbol {
    if HighBit(x) then Sum(ShiftLeft(x), 0x1D) else ShiftLeft(x)
  }

  /** The contribution of the low `n` bits of `b` to the product of `a` and `b`. */
  function PartialProduct(a: Symbol, b: Symbol, n: nat): Symbol
    decreases n, a
  {
    if n == 0 then 0
    else Sum(if LowBit(b) then a else 0, PartialProduct(Double(a), ShiftRight(b), n - 1))
  }

  function Product(a: Symbol, b: Symbol): Symbol {
    PartialProduct(a, b, 8)
  }

  function Power(a: Symbol, n: nat): Symbol
    decreases n, a
  {
    if n == 0 then 1 else Product(a, Power(a, n - 1))
  }

  /** Total inverse: zero is sent to zero. */
  function Inverse(a: Symbol): Symbol {
    if a == 0 then 0 else Power(a, 254)
  }

  // ---- The loops ----

  method Mul(a: Symbol, b: Symbol) returns (p: Symbol)
    ensures p == Product(a, b)
  {
    hide LowBit, HighBit, ShiftLeft, ShiftRight, Sum;
    p := 0;
    var x, y := a, b;
    SumLaws(Product(a, b), 0, 0);
    for i := 0 to 8
      invariant Sum(p, PartialProduct(x, y, 8 - i)) == Product(a, b)
    {
      SumLaws(p, if LowBit(y) then x else 0, PartialProduct(Double(x), ShiftRight(y), 7 - i));
      if LowBit(y) {
        p := Sum(p, x);
      }
      var high := HighBit(x);
      x := ShiftLeft(x);
      if high {
        x := Sum(x, 0x1D);
      }
      y := ShiftRight(y);
    }
    SumLaws(p, 0, 0);
  }

  method Pow(a: Symbol, n: nat) returns (r: Symbol)
    ensures r == Power(a, n)
  {
    hide Product;
    r := 1;
    var base, e := a, n;
    ProductOne(Power(a, n));
    while e > 0
      invariant Product(r, Power(base, e)) == Power(a, n)
    {
      ghost var r0, base0 := r, base;
      PowerHalving(base0, e);
      if e % 2 == 1 {
        r := Mul(r, base);
        ProductAssociative(r0, base0, Power(Product(base0, base0), e / 2));
      }
      base := Mul(base, base);
      e := e / 2;
    }
    ProductOne(r);
  }

  method Inv(a: Symbol) returns (r: Symbol)
    ensures r == Inverse(a)
  {
    hide Power;
    if a == 0 {
      r := 0;
    } else {
      r := Pow(a, 254);
    }
  }

  // ---- Addition ----

  lemma SumLaws(a: Symbol, b: Symbol, c: Symbol)
    ensures Sum(a, b) == Sum(b, a)
    ensures Sum(Sum(a, b), c) == Sum(a, Sum(b, c))
    ensures Sum(a, 0) == a == Sum(0, a)
    ensures Sum(a, a) == 0
  {}

  lemma SumInterchange(a: Symbol, b: Symbol, c: Symbol, d: Symbol)
    ensures Sum(Sum(a, b), Sum(c, d)) == Sum(Sum(a, c), Sum(b, d))
  {
    hide Sum;
    SumLaws(a, b, Sum(c, d));
    SumLaws(b, c, d);
    SumLaws(c, b, d);
    SumLaws(a, c, Sum(b, d));
  }

  // ---- Multiplication ----

  lemma ShiftLeftAdditive(x: Symbol, y: Symbol)
    ensures ShiftLeft(Sum(x, y)) == Sum(ShiftLeft(x), ShiftLeft(y))
    ensures HighBit(Sum(x, y)) <==> HighBit(x) != HighBit(y)
    ensures ShiftLeft(0) == 0 && !HighBit(0)
  {}

  lemma DoubleAdditive(x: Symbol, y: Symbol)
    ensures Double(Sum(x, y)) == Sum(Double(x), Double(y))
    ensures Double(0) == 0
  {
    hide HighBit, ShiftLeft, Sum;
    ShiftLeftAdditive(x, y);
    var s, t, r: Symbol := ShiftLeft(x), ShiftLeft(y), 0x1D;
    SumInterchange(s, r, t, r);
    SumInterchange(s, r, t, 0);
    SumInterchange(s, 0, t, r);
    SumLaws(s, t, r);
    SumLaws(t, r, r);
    SumLaws(r, 0, 0);
    SumLaws(Sum(s, t), 0, 0);
  }

  lemma {:induction false} PartialProductAdditive(a: Symbol, a': Symbol, b: Symbol, n: nat)
    ensures PartialProduct(Sum(a, a'), b, n) == Sum(PartialProduct(a, b, n), PartialProduct(a', b, n))
    decreases n
  {
    hide Double, Sum, LowBit, ShiftRight;
    SumLaws(0, 0, 0);
    if n > 0 {
      var b' := ShiftRight(b);
      DoubleAdditive(a, a');
      PartialProductAdditive(Double(a), Double(a'), b', n - 1);
      SumInterchange(if LowBit(b) then a else 0, if LowBit(b) then a' else 0,
                     PartialProduct(Double(a), b', n - 1), PartialProduct(Double(a'), b', n - 1));
    }
  }

  lemma {:induction false} PartialProductDouble(a: Symbol, b: Symbol, n: nat)
    ensures PartialProduct(Double(a), b, n) == Double(PartialProduct(a, b, n))
    decreases n
  {
    hide Double, Sum, LowBit, ShiftRight;
    DoubleAdditive(0, 0);
    if n > 0 {
      var b' := ShiftRight(b);
      PartialProductDouble(Double(a), b', n - 1);
      DoubleAdditive(if LowBit(b) then a else 0, PartialProduct(Double(a), b', n - 1));
    }
  }

  lemma {:induction false} PartialProductZero(b: Symbol, n: nat)
    ensures PartialProduct(0, b, n) == 0
    decreases n
  {
    hide Double, Sum, LowBit, ShiftRight;
    DoubleAdditive(0, 0);
    SumLaws(0, 0, 0);
    if n > 0 {
      PartialProductZero(ShiftRight(b), n - 1);
    }
  }

  /** Multiplications by two symbols commute, since both are polynomials in `Double`. */
  lemma {:induction false} MultiplicationsCommute(z: Symbol, a: Symbol, b: Symbol, n: nat)
    ensures Product(PartialProduct(z, a, n), b) == PartialProduct(Product(z, b), a, n)
    decreases n
  {
    hide Double, Sum, LowBit, ShiftRight;
    PartialProductZero(b, 8);
    if n > 0 {
      var a' := ShiftRight(a);
      PartialProductAdditive(if LowBit(a) then z else 0, PartialProduct(Double(z), a', n - 1), b, 8);
      MultiplicationsCommute(Double(z), a', b, n - 1);
      PartialProductDouble(z, b, 8);
    }
  }

  lemma ShiftRightAdditive(x: Symbol, y: Symbol)
    ensures ShiftRight(Sum(x, y)) == Sum(ShiftRight(x), ShiftRight(y))
    ensures LowBit(Sum(x, y)) <==> LowBit(x) != LowBit(y)
  {}

  lemma {:induction false} PartialProductAdditiveRight(a: Symbol, b: Symbol, b': Symbol, n: nat)
    ensures PartialProduct(a, Sum(b, b'), n) == Sum(PartialProduct(a, b, n), PartialProduct(a, b', n))
    decreases n
  {
    hide Double, Sum, LowBit, ShiftRight;
    SumLaws(0, 0, 0);
    if n > 0 {
      ShiftRightAdditive(b, b');
      PartialProductAdditiveRight(Double(a), ShiftRight(b), ShiftRight(b'), n - 1);
      SumLaws(a, 0, 0);
      SumInterchange(if LowBit(b) then a else 0, if LowBit(b') then a else 0,
                     PartialProduct(Double(a), ShiftRight(b), n - 1),
                     PartialProduct(Double(a), ShiftRight(b'), n - 1));
    }
  }

  ghost predicate Additive(f: Symbol -> Symbol) {
    forall x, y {:trigger f(Sum(x, y))} :: f(Sum(x, y)) == Sum(f(x), f(y))
  }

  function Select(u: Symbol, bit: Symbol, c: Symbol): Symbol {
    if u & bit != 0 then c else 0
  }

  /** An additive map is determined by its values on the powers of x. */
  lemma AdditiveExpansion(f: Symbol -> Symbol, u: Symbol)
    requires Additive(f)
    ensures f(u) == Sum(Sum(Sum(Sum(Sum(Sum(Sum(
                        Select(u, 1, f(1)), Select(u, 2, f(2))), Select(u, 4, f(4))), Select(u, 8, f(8))),
                        Select(u, 16, f(16))), Select(u, 32, f(32))), Select(u, 64, f(64))), Select(u, 128, f(128)))
  {
    hide Sum;
    AdditiveAtZero(f);
    MaskSplits(u);
    hide Select;
    ExpansionStep(f, u, 1, 0, u & 1);
    ExpansionStep(f, u, 2, u & 1, u & 3);
    ExpansionStep(f, u, 4, u & 3, u & 7);
    ExpansionStep(f, u, 8, u & 7, u & 15);
    ExpansionStep(f, u, 16, u & 15, u & 31);
    ExpansionStep(f, u, 32, u & 31, u & 63);
    ExpansionStep(f, u, 64, u & 63, u & 127);
    ExpansionStep(f, u, 128, u & 127, u);
    SumLaws(Select(u, 1, f(1)), 0, 0);
  }

  lemma ExpansionStep(f: Symbol -> Symbol, u: Symbol, bit: Symbol, low: Symbol, whole: Symbol)
    requires Additive(f) && f(0) == 0
    requires whole == Sum(low, u & bit) && (u & bit == 0 || u & bit == bit)
    ensures f(whole) == Sum(f(low), Select(u, bit, f(bit)))
  {
    hide Sum;
  }

  lemma AdditiveAtZero(f: Symbol -> Symbol)
    requires Additive(f)
    ensures f(0) == 0
  {
    hide Sum;
    SumLaws(0, 0, 0);
    SumLaws(f(0), 0, 0);
    assert f(Sum(0, 0)) == Sum(f(0), f(0));
  }

  lemma MaskSplits(u: Symbol)
    ensures (u & 1 == 0 || u & 1 == 1) && (u & 2 == 0 || u & 2 == 2)
    ensures (u & 4 == 0 || u & 4 == 4) && (u & 8 == 0 || u & 8 == 8)
    ensures (u & 16 == 0 || u & 16 == 16) && (u & 32 == 0 || u & 32 == 32)
    ensures (u & 64 == 0 || u & 64 == 64) && (u & 128 == 0 || u & 128 == 128)
    ensures u & 1 == Sum(0, u & 1) && u & 3 == Sum(u & 1, u & 2) && u & 7 == Sum(u & 3, u & 4)
    ensures u & 15 == Sum(u & 7, u & 8) && u & 31 == Sum(u & 15, u & 16)
    ensures u & 63 == Sum(u & 31, u & 32) && u & 127 == Sum(u & 63, u & 64)
    ensures u == Sum(u & 127, u & 128)
  {}

  lemma ProductsOfPowers()
    ensures Product(1, 1) == 1 && Product(1, 2) == 2 && Product(1, 4) == 4 && Product(1, 8) == 8
    ensures Product(1, 16) == 16 && Product(1, 32) == 32 && Product(1, 64) == 64 && Product(1, 128) == 128
  {
    hide PartialProduct, Doubled;
    ProductByPower(1, 1, 0, 8); ProductByPower(1, 2, 1, 8);
    ProductByPower(1, 4, 2, 8); ProductByPower(1, 8, 3, 8);
    ProductByPower(1, 16, 4, 8); ProductByPower(1, 32, 5, 8);
    ProductByPower(1, 64, 6, 8); ProductByPower(1, 128, 7, 8);
    DoubledOne();
  }

  lemma DoubledOne()
    ensures Doubled(1, 0) == 1 && Doubled(1, 1) == 2 && Doubled(1, 2) == 4 && Doubled(1, 3) == 8
    ensures Doubled(1, 4) == 16 && Doubled(1, 5) == 32 && Doubled(1, 6) == 64 && Doubled(1, 7) == 128
  {
    hide Doubled;
    DoubledLast(1, 0); DoubledLast(1, 1); DoubledLast(1, 2); DoubledLast(1, 3);
    DoubledLast(1, 4); DoubledLast(1, 5); DoubledLast(1, 6);
  }

  lemma {:induction false} DoubledLast(a: Symbol, k: nat)
    ensures Doubled(a, 0) == a && Doubled(a, k + 1) == Double(Doubled(a, k))
    decreases k
  {
    hide Double;
    if k > 0 {
      DoubledLast(Double(a), k - 1);
    }
  }

  lemma ProductOfOne(a: Symbol)
    ensures Product(1, a) == a
  {
    hide PartialProduct, Sum, Select;
    var f, g := (x: Symbol) => Product(1, x), (x: Symbol) => x;
    assert Additive(f) by {
      forall x, y ensures f(Sum(x, y)) == Sum(f(x), f(y)) {
        PartialProductAdditiveRight(1, x, y, 8);
      }
    }
    ProductsOfPowers();
    AdditiveExpansion(f, a);
    AdditiveExpansion(g, a);
  }

  lemma ProductOne(a: Symbol)
    ensures Product(1, a) == a == Product(a, 1)
  {
    hide PartialProduct;
    ProductOfOne(a);
    MultiplicationsCommute(1, a, 1, 8);
    ProductOfOne(1);
  }

  lemma ProductCommutative(a: Symbol, b: Symbol)
    ensures Product(a, b) == Product(b, a)
  {
    hide PartialProduct;
    MultiplicationsCommute(1, a, b, 8);
    ProductOne(a);
    ProductOne(b);
  }

  lemma ProductAssociative(a: Symbol, b: Symbol, c: Symbol)
    ensures Product(Product(a, b), c) == Product(a, Product(b, c))
  {
    hide PartialProduct;
    ProductCommutative(a, Product(b, c));
    MultiplicationsCommute(b, c, a, 8);
    ProductCommutative(a, b);
  }

  lemma ProductDistributes(a: Symbol, b: Symbol, c: Symbol)
    ensures Product(Sum(a, b), c) == Sum(Product(a, c), Product(b, c))
    ensures Product(c, Sum(a, b)) == Sum(Product(c, a), Product(c, b))
  {
    hide PartialProduct, Sum;
    PartialProductAdditive(a, b, c, 8);
    ProductCommutative(Sum(a, b), c);
    ProductCommutative(a, c);
    ProductCommutative(b, c);
  }

  lemma ProductZero(a: Symbol)
    ensures Product(0, a) == 0 == Product(a, 0)
  {
    hide PartialProduct;
    PartialProductZero(a, 8);
    ProductCommutative(0, a);
  }

  // ---- Powers and the inverse ----

  lemma {:induction false} PowerSum(a: Symbol, m: nat, n: nat)
    ensures Power(a, m + n) == Product(Power(a, m), Power(a, n))
  {
    hide Product;
    if m == 0 {
      ProductOne(Power(a, n));
    } else {
      PowerSum(a, m - 1, n);
      ProductAssociative(a, Power(a, m - 1), Power(a, n));
    }
  }

  lemma {:induction false} PowerOfSquare(a: Symbol, n: nat)
    ensures Power(Product(a, a), n) == Power(a, 2 * n)
  {
    hide Product;
    if n > 0 {
      PowerOfSquare(a, n - 1);
      assert Power(a, 2 * n) == Product(a, Product(a, Power(a, 2 * n - 2)));
      ProductAssociative(a, a, Power(a, 2 * n - 2));
    }
  }

  lemma PowerHalving(a: Symbol, n: nat)
    requires n > 0
    ensures var half := Power(Product(a, a), n / 2);
            Power(a, n) == if n % 2 == 1 then Product(a, half) else half
  {
    hide Product;
    PowerOfSquare(a, n / 2);
  }

  lemma SquareAdditive(a: Symbol, b: Symbol)
    ensures Product(Sum(a, b), Sum(a, b)) == Sum(Product(a, a), Product(b, b))
  {
    hide Product, Sum;
    var ab := Product(a, b);
    ProductDistributes(a, b, Sum(a, b));
    ProductDistributes(a, b, a);
    ProductDistributes(a, b, b);
    ProductCommutative(a, b);
    SumInterchange(Product(a, a), ab, Product(b, b), ab);
    SumLaws(ab, Product(b, b), 0);
    SumLaws(Sum(Product(a, a), Product(b, b)), 0, 0);
  }

  /** The square of a symbol, bit by bit: squaring is linear in characteristic two. */
  function SquareBits(u: Symbol): Symbol {
    Sum(Sum(Sum(Sum(Sum(Sum(Sum(
        Select(u, 1, 0x01), Select(u, 2, 0x04)), Select(u, 4, 0x10)), Select(u, 8, 0x40)),
        Select(u, 16, 0x1D)), Select(u, 32, 0x74)), Select(u, 64, 0xCD)), Select(u, 128, 0x13))
  }

  /** `k` successive multiplications by x. */
  function Doubled(a: Symbol, k: nat): Symbol
    decreases k, a
  {
    if k == 0 then a else Doubled(Double(a), k - 1)
  }

  lemma {:induction false} ProductByPower(a: Symbol, b: Symbol, k: nat, n: nat)
    requires k < n && b == if k == 0 then 1 else if k == 1 then 2 else if k == 2 then 4 else if k == 3 then 8
                         else if k == 4 then 16 else if k == 5 then 32 else if k == 6 then 64 else 128
    requires k < 8
    ensures PartialProduct(a, b, n) == Doubled(a, k)
    decreases k
  {
    hide Double;
    if k == 0 {
      PartialProductByZero(Double(a), n - 1);
    } else {
      ProductByPower(Double(a), ShiftRight(b), k - 1, n - 1);
    }
  }

  lemma {:induction false} PartialProductByZero(a: Symbol, n: nat)
    ensures PartialProduct(a, 0, n) == 0
    decreases n
  {
    hide Double;
    if n > 0 {
      PartialProductByZero(Double(a), n - 1);
    }
  }

  /** Multiplying by x: a shift, and a reduction by x^8 + x^4 + x^3 + x^2 + 1. */
  lemma ProductByX(a: Symbol)
    ensures Product(a, 2) == (a << 1) ^ (if a & 0x80 == 0 then 0 else 0x1D)
  {
    hide PartialProduct;
    ProductByPower(a, 2, 1, 8);
    assert Doubled(a, 1) == Double(a);
  }

  lemma SquaresOfPowers()
    ensures Product(1, 1) == 1 && Product(2, 2) == 4 && Product(4, 4) == 16 && Product(8, 8) == 64
    ensures Product(16, 16) == 0x1D && Product(32, 32) == 0x74
    ensures Product(64, 64) == 0xCD && Product(128, 128) == 0x13
  {
    hide PartialProduct;
    ProductByPower(1, 1, 0, 8); ProductByPower(2, 2, 1, 8);
    ProductByPower(4, 4, 2, 8); ProductByPower(8, 8, 3, 8);
    ProductByPower(16, 16, 4, 8); ProductByPower(32, 32, 5, 8);
    ProductByPower(64, 64, 6, 8); ProductByPower(128, 128, 7, 8);
    assert Doubled(128, 7) == 0x13;
    assert Doubled(64, 6) == 0xCD;
    assert Doubled(32, 5) == 0x74;
  }

  lemma SquareIsSquareBits(u: Symbol)
    ensures Product(u, u) == SquareBits(u)
  {
    hide PartialProduct, Sum, Select;
    var f := (x: Symbol) => Product(x, x);
    assert Additive(f) by {
      forall x, y ensures f(Sum(x, y)) == Sum(f(x), f(y)) {
        SquareAdditive(x, y);
      }
    }
    SquaresOfPowers();
    AdditiveExpansion(f, u);
  }

  lemma SquareBitsFixpoints(u: Symbol)
    requires SquareBits(u) == u
    ensures u == 0 || u == 1
  {}

  /** Squaring applied `k` times. */
  function Frobenius(u: Symbol, k: nat): Symbol
    decreases k, u
  {
    if k == 0 then u else SquareBits(Frobenius(u, k - 1))
  }

  lemma {:induction false} FrobeniusAdditive(x: Symbol, y: Symbol, k: nat)
    ensures Frobenius(Sum(x, y), k) == Sum(Frobenius(x, k), Frobenius(y, k))
    decreases k
  {
    hide Product, Sum, SquareBits;
    if k > 0 {
      FrobeniusAdditive(x, y, k - 1);
      SquareAdditive(Frobenius(x, k - 1), Frobenius(y, k - 1));
      SquareIsSquareBits(Frobenius(x, k - 1));
      SquareIsSquareBits(Frobenius(y, k - 1));
      SquareIsSquareBits(Frobenius(Sum(x, y), k - 1));
    }
  }

  lemma {:induction false} FrobeniusMultiplicative(x: Symbol, y: Symbol, k: nat)
    ensures Frobenius(Product(x, y), k) == Product(Frobenius(x, k), Frobenius(y, k))
    decreases k
  {
    hide Product, SquareBits;
    if k > 0 {
      FrobeniusMultiplicative(x, y, k - 1);
      var u, v := Frobenius(x, k - 1), Frobenius(y, k - 1);
      SquareIsSquareBits(u);
      SquareIsSquareBits(v);
      SquareIsSquareBits(Product(u, v));
      ProductAssociative(u, v, Product(u, v));
      ProductAssociative(v, u, v);
      ProductCommutative(u, v);
      ProductAssociative(u, v, v);
      ProductAssociative(u, u, Product(v, v));
    }
  }

  lemma SquaresOfTwo()
    ensures SquareBits(2) == 4 && SquareBits(4) == 16 && SquareBits(16) == 29 && SquareBits(29) == 76
    ensures SquareBits(76) == 157 && SquareBits(157) == 95 && SquareBits(95) == 133 && SquareBits(133) == 2
    ensures SquareBits(1) == 1
  {}

  lemma {:induction false} FrobeniusOfOne(k: nat)
    ensures Frobenius(1, k) == 1
  {
    hide SquareBits;
    SquaresOfTwo();
    if k > 0 {
      FrobeniusOfOne(k - 1);
    }
  }

  lemma FrobeniusOfTwo()
    ensures Frobenius(2, 8) == 2
  {
    hide SquareBits;
    SquaresOfTwo();
    assert Frobenius(2, 0) == 2 && Frobenius(2, 1) == 4 && Frobenius(2, 2) == 16 && Frobenius(2, 3) == 29;
    assert Frobenius(2, 4) == 76 && Frobenius(2, 5) == 157 && Frobenius(2, 6) == 95 && Frobenius(2, 7) == 133;
  }

  lemma PowersOfTwo()
    ensures Product(2, 2) == 4 && Product(4, 2) == 8 && Product(8, 2) == 16 && Product(16, 2) == 32
    ensures Product(32, 2) == 64 && Product(64, 2) == 128
  {
    hide PartialProduct;
    ProductByPower(2, 2, 1, 8); ProductByPower(4, 2, 1, 8); ProductByPower(8, 2, 1, 8);
    ProductByPower(16, 2, 1, 8); ProductByPower(32, 2, 1, 8); ProductByPower(64, 2, 1, 8);
  }

  lemma FrobeniusOfPowers()
    ensures Frobenius(1, 8) == 1 && Frobenius(2, 8) == 2 && Frobenius(4, 8) == 4 && Frobenius(8, 8) == 8
    ensures Frobenius(16, 8) == 16 && Frobenius(32, 8) == 32 && Frobenius(64, 8) == 64 && Frobenius(128, 8) == 128
  {
    hide Frobenius, Product;
    FrobeniusOfOne(8);
    FrobeniusOfTwo();
    PowersOfTwo();
    FrobeniusMultiplicative(2, 2, 8); FrobeniusMultiplicative(4, 2, 8); FrobeniusMultiplicative(8, 2, 8);
    FrobeniusMultiplicative(16, 2, 8); FrobeniusMultiplicative(32, 2, 8); FrobeniusMultiplicative(64, 2, 8);
  }

  lemma FrobeniusHasOrderEight(u: Symbol)
    ensures Frobenius(u, 8) == u
  {
    hide Sum, Select, Frobenius;
    var f, g := (x: Symbol) => Frobenius(x, 8), (x: Symbol) => x;
    assert Additive(f) by {
      forall x, y ensures f(Sum(x, y)) == Sum(f(x), f(y)) {
        FrobeniusAdditive(x, y, 8);
      }
    }
    FrobeniusOfPowers();
    AdditiveExpansion(f, u);
    AdditiveExpansion(g, u);
  }

  lemma {:induction false} FrobeniusIsPower(a: Symbol, k: nat, n: nat)
    requires n == Pow2(k)
    ensures Frobenius(a, k) == Power(a, n)
    decreases k
  {
    hide Product, SquareBits;
    if k == 0 {
      PowerOne(a);
    } else {
      FrobeniusIsPower(a, k - 1, n / 2);
      PowerDoubles(a, n / 2);
    }
  }

  lemma PowerDoubles(a: Symbol, n: nat)
    ensures Power(a, 2 * n) == SquareBits(Power(a, n))
  {
    hide Product, SquareBits;
    PowerSum(a, n, n);
    SquareIsSquareBits(Power(a, n));
  }

  /** Every symbol is its own 256-th power. */
  lemma PowerOfOrder(a: Symbol)
    ensures Power(a, 256) == a
  {
    hide Power, Frobenius;
    assert Pow2(8) == 256;
    FrobeniusIsPower(a, 8, 256);
    FrobeniusHasOrderEight(a);
  }

  /** Every non-zero symbol has a multiplicative inverse: a times its 254-th power is an
      idempotent, and zero and one are the only idempotents. */
  lemma InverseLaw(a: Symbol)
    requires a != 0
    ensures Product(a, Inverse(a)) == 1 && Inverse(a) != 0
  {
    hide Product, SquareBits, Power;
    var u := Power(a, 255);
    PowerSum(a, 1, 254);
    PowerSum(a, 1, 255);
    PowerSum(a, 254, 256);
    PowerSum(a, 254, 1);
    PowerOfOrder(a);
    PowerOne(a);
    PowerDoubles(a, 255);
    SquareBitsFixpoints(u);
    ProductZero(a);
  }

  lemma PowerOne(a: Symbol)
    ensures Power(a, 1) == a
  {
    hide Product;
    ProductOne(a);
    assert Power(a, 1) == Product(a, Power(a, 0));
  }

  lemma NoZeroDivisors(a: Symbol, b: Symbol)
    ensures Product(a, b) == 0 <==> a == 0 || b == 0
  {
    hide Product, Inverse;
    ProductZero(a);
    ProductZero(b);
    if a != 0 && b != 0 && Product(a, b) == 0 {
      InverseLaw(a);
      ProductCommutative(a, Inverse(a));
      ProductAssociative(Inverse(a), a, b);
      ProductOne(b);
      ProductZero(Inverse(a));
    }
  }

  lemma InverseNonZero(a: Symbol)
    ensures Inverse(a) == 0 <==> a == 0
  {
    if a != 0 {
      InverseLaw(a);
    }
  }
}

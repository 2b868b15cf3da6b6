/** Points of the curve in extended coordinates on limbs, as the signature code computes them. */
module Curve25519 {
  import opened ModArith
  import opened Word64
  import opened BitOps
  import opened Field25519
  import opened Scalar25519
  import opened Edwards

  const D2_LIMBS: seq<I64> :=
    [0xf159, 0x26b2, 0x9b94, 0xebd6, 0xb156, 0x8283, 0x149a, 0x00e0,
     0xd130, 0xeef3, 0x80f2, 0x198e, 0xfce7, 0x56df, 0xd9dc, 0x2406]
  const BASE_X_LIMBS: seq<I64> :=
    [0xd51a, 0x8f25, 0x2d60, 0xc956, 0xa7b2, 0x9525, 0xc760, 0x692c,
     0xdc5c, 0xfdd6, 0xe231, 0xc0a4, 0x53fe, 0xcd6e, 0x36d3, 0x2169]
  const BASE_Y_LIMBS: seq<I64> :=
    [0x6658, 0x6666, 0x6666, 0x6666, 0x6666, 0x6666, 0x6666, 0x6666,
     0x6666, 0x6666, 0x6666, 0x6666, 0x6666, 0x6666, 0x6666, 0x6666]
  const ROOT_LIMBS: seq<I64> :=
    [0xa0b0, 0x4a0e, 0x1b27, 0xc4ee, 0xe478, 0xad2f, 0x1806, 0x2f43,
     0xd7a7, 0x3dfb, 0x0099, 0x2b4d, 0xdf0b, 0x4fc1, 0x2480, 0x2b83]
  const ZERO_LIMBS: seq<I64> := seq(16, _ => 0)
  const ONE_LIMBS: seq<I64> := seq(16, i => if i == 0 then 1 else 0)

  /** A square root of -1. */
  const ROOT := 0x2b832480_4fc1df0b_2b4d0099_3dfbd7a7_2f431806_ad2fe478_c4ee1b27_4a0ea0b0

  lemma D2Value()
    ensures Reduced(D2_LIMBS) && Zero(LimbValue(D2_LIMBS) - 2 * D)
  {
    hide Number, Weight;
    FourLimbs(D2_LIMBS, 0);
    FourLimbs(D2_LIMBS, 4);
    FourLimbs(D2_LIMBS, 8);
    FourLimbs(D2_LIMBS, 12);
    NumberEmpty(D2_LIMBS);
    QuarterWeights();
    DValue();
    ZeroMeans(LimbValue(D2_LIMBS) - 2 * D);
  }

  lemma BaseXValue()
    ensures Reduced(BASE_X_LIMBS) && LimbValue(BASE_X_LIMBS) == BASE_X
  {
    hide Number, Weight;
    FourLimbs(BASE_X_LIMBS, 0);
    FourLimbs(BASE_X_LIMBS, 4);
    FourLimbs(BASE_X_LIMBS, 8);
    FourLimbs(BASE_X_LIMBS, 12);
    NumberEmpty(BASE_X_LIMBS);
    QuarterWeights();
  }

  lemma BaseYValue()
    ensures Reduced(BASE_Y_LIMBS) && LimbValue(BASE_Y_LIMBS) == BASE_Y
  {
    hide Number, Weight;
    FourLimbs(BASE_Y_LIMBS, 0);
    FourLimbs(BASE_Y_LIMBS, 4);
    FourLimbs(BASE_Y_LIMBS, 8);
    FourLimbs(BASE_Y_LIMBS, 12);
    NumberEmpty(BASE_Y_LIMBS);
    QuarterWeights();
  }

  lemma RootValue()
    ensures Reduced(ROOT_LIMBS) && LimbValue(ROOT_LIMBS) == ROOT
  {
    hide Number, Weight;
    FourLimbs(ROOT_LIMBS, 0);
    FourLimbs(ROOT_LIMBS, 4);
    FourLimbs(ROOT_LIMBS, 8);
    FourLimbs(ROOT_LIMBS, 12);
    NumberEmpty(ROOT_LIMBS);
    QuarterWeights();
  }

  lemma UnitValues()
    ensures Reduced(ZERO_LIMBS) && LimbValue(ZERO_LIMBS) == 0
    ensures Reduced(ONE_LIMBS) && LimbValue(ONE_LIMBS) == 1
    ensures Bounded(ZERO_LIMBS, 0)
  {
    ZeroNumber(ZERO_LIMBS, 16);
    NumberUpdate(ZERO_LIMBS, 0, 1, 16);
    assert ZERO_LIMBS[0 := 1] == ONE_LIMBS;
  }

  // ---- Addition ----

  datatype Coordinates = Coordinates(x: int, y: int, z: int, t: int)

  /** A point as limbs: X, Y, Z and T with x = X/Z, y = Y/Z and xy = T/Z. */
  datatype Point = Point(x: Limbs, y: Limbs, z: Limbs, t: Limbs)

  function Values(p: Point): Coordinates {
    Coordinates(LimbValue(p.x), LimbValue(p.y), LimbValue(p.z), LimbValue(p.t))
  }

  /** The range of coordinates, closed under addition and negation. */
  ghost predicate InRange(p: Point) {
    && Bounded(p.x, LIMB_MAX) && Bounded(p.y, LIMB_MAX)
    && Bounded(p.z, LIMB_MAX) && Bounded(p.t, LIMB_MAX)
  }

  ghost function CrossOf(p: Coordinates, q: Coordinates): int {
    Cross(Affine(p.x, p.y), Affine(q.x, q.y))
  }

  ghost function InnerOf(p: Coordinates, q: Coordinates): int {
    Inner(Affine(p.x, p.y), Affine(q.x, q.y))
  }

  ghost predicate IsTwist(t: int, p: Coordinates, q: Coordinates, k: int) {
    forall u: bool :: Open(u) ==> t == p.z * q.z + k * (p.t * q.t)
  }

  ghost function Twisted(p: Coordinates, q: Coordinates, k: int): int {
    assert IsTwist(p.z * q.z + k * (p.t * q.t), p, q, k);
    var t: int :| IsTwist(t, p, q, k); t
  }

  lemma TwistedIs(p: Coordinates, q: Coordinates, k: int)
    ensures Twisted(p, q, k) == p.z * q.z + k * (p.t * q.t)
  {
    assert Open(true);
  }

  ghost function TwistLess(p: Coordinates, q: Coordinates): int {
    Twisted(p, q, -D)
  }

  ghost function TwistMore(p: Coordinates, q: Coordinates): int {
    Twisted(p, q, D)
  }

  /** The unified addition in extended coordinates. */
  ghost predicate IsSum(r: Coordinates, p: Coordinates, q: Coordinates) {
    && Zero(r.x - 4 * (CrossOf(p, q) * TwistLess(p, q)))
    && Zero(r.y - 4 * (InnerOf(p, q) * TwistMore(p, q)))
    && Zero(r.z - 4 * (TwistMore(p, q) * TwistLess(p, q)))
    && Zero(r.t - 4 * (CrossOf(p, q) * InnerOf(p, q)))
  }

  lemma Widen(s: Limbs, m: int)
    requires Bounded(s, m) && m <= 0x3ffff
    ensures Bounded(s, 0x3ffff)
  {}

  method AddPt(p: Point, q: Point) returns (r: Point)
    requires InRange(p) && InRange(q)
    ensures InRange(r) && IsSum(Values(r), Values(p), Values(q))
  {
    hide LimbValue, IsSum, Zero, Congruent, Reduced, Bounded;
    PointBounds(p);
    PointBounds(q);
    var a := SubF(p.y, p.x, LIMB_MAX, LIMB_MAX);
    var t := SubF(q.y, q.x, LIMB_MAX, LIMB_MAX);
    Widen(a, 2 * LIMB_MAX);
    Widen(t, 2 * LIMB_MAX);
    a := MulF(a, t);
    var b := AddF(p.x, p.y, LIMB_MAX, LIMB_MAX);
    t := AddF(q.x, q.y, LIMB_MAX, LIMB_MAX);
    Widen(b, 2 * LIMB_MAX);
    Widen(t, 2 * LIMB_MAX);
    b := MulF(b, t);
    var c, d := Twist(p, q);
    ReducedBounded(a);
    ReducedBounded(b);
    CrossHalves(Values(p), Values(q), LimbValue(a), LimbValue(b));
    r := FromHalves(a, b, c, d, Values(p), Values(q));
  }

  lemma PointBounds(p: Point)
    requires InRange(p)
    ensures Bounded(p.x, 0x3ffff) && Bounded(p.y, 0x3ffff) && Bounded(p.z, 0x3ffff) && Bounded(p.t, 0x3ffff)
  {}

  /** The products 2d T T' and 2 Z Z'. */
  method Twist(p: Point, q: Point) returns (c: Limbs, d: Limbs)
    requires InRange(p) && InRange(q)
    ensures Reduced(c) && Bounded(d, 2 * LIMB_MAX)
    ensures Zero(LimbValue(d) - LimbValue(c) - 2 * TwistLess(Values(p), Values(q)))
    ensures Zero(LimbValue(d) + LimbValue(c) - 2 * TwistMore(Values(p), Values(q)))
  {
    hide LimbValue, Zero, Congruent, Reduced, Bounded;
    PointBounds(p);
    PointBounds(q);
    c := MulF(p.t, q.t);
    ghost var c0 := LimbValue(c);
    ReducedBounded(c);
    D2Value();
    ReducedBounded(D2_LIMBS);
    c := MulF(c, D2_LIMBS);
    d := MulF(p.z, q.z);
    ReducedBounded(d);
    ghost var d0 := LimbValue(d);
    d := AddF(d, d, LIMB_MAX, LIMB_MAX);
    TwistedIs(Values(p), Values(q), -D);
    TwistedIs(Values(p), Values(q), D);
    TwistHalves(LimbValue(p.z), LimbValue(q.z), LimbValue(p.t), LimbValue(q.t), c0, LimbValue(D2_LIMBS),
                LimbValue(c), d0);
  }

  method FromHalves(a: Limbs, b: Limbs, c: Limbs, d: Limbs, ghost p: Coordinates, ghost q: Coordinates)
    returns (r: Point)
    requires Bounded(a, LIMB_MAX) && Bounded(b, LIMB_MAX) && Reduced(c) && Bounded(d, 2 * LIMB_MAX)
    requires Zero(LimbValue(b) - LimbValue(a) - 2 * CrossOf(p, q))
               && Zero(LimbValue(b) + LimbValue(a) - 2 * InnerOf(p, q))
    requires Zero(LimbValue(d) - LimbValue(c) - 2 * TwistLess(p, q))
               && Zero(LimbValue(d) + LimbValue(c) - 2 * TwistMore(p, q))
    ensures InRange(r) && IsSum(Values(r), p, q)
  {
    hide LimbValue, IsSum, Zero, Congruent, Reduced, Bounded, CrossOf, InnerOf, TwistLess, TwistMore;
    ReducedBounded(c);
    var e := SubF(b, a, LIMB_MAX, LIMB_MAX);
    var f := SubF(d, c, 2 * LIMB_MAX, LIMB_MAX);
    var g := AddF(d, c, 2 * LIMB_MAX, LIMB_MAX);
    var h := AddF(b, a, LIMB_MAX, LIMB_MAX);
    Widen(e, 2 * LIMB_MAX);
    Widen(f, 3 * LIMB_MAX);
    Widen(g, 3 * LIMB_MAX);
    Widen(h, 2 * LIMB_MAX);
    var x := MulF(e, f);
    var y := MulF(h, g);
    var z := MulF(g, f);
    var t := MulF(e, h);
    ReducedBounded(x);
    ReducedBounded(y);
    ReducedBounded(z);
    ReducedBounded(t);
    r := Point(x, y, z, t);
    SumAlgebra(Values(r), p, q, LimbValue(e), LimbValue(f), LimbValue(g), LimbValue(h));
  }

  lemma CrossHalves(p: Coordinates, q: Coordinates, a: int, b: int)
    requires Congruent(a, (p.y - p.x) * (q.y - q.x)) && Congruent(b, (p.x + p.y) * (q.x + q.y))
    ensures Zero(b - a - 2 * CrossOf(p, q)) && Zero(b + a - 2 * InnerOf(p, q))
  {
    hide Zero, Congruent;
    CrossIs(Affine(p.x, p.y), Affine(q.x, q.y));
    InnerIs(Affine(p.x, p.y), Affine(q.x, q.y));
    ZeroIsCongruent(a, (p.y - p.x) * (q.y - q.x));
    ZeroIsCongruent(b, (p.x + p.y) * (q.x + q.y));
    ZeroPlus(b - (p.x + p.y) * (q.x + q.y), a - (p.y - p.x) * (q.y - q.x));
  }

  lemma TwistHalves(z: int, z': int, t: int, t': int, c: int, k: int, c': int, d: int)
    requires Congruent(c, t * t') && Zero(k - 2 * D) && Congruent(c', c * k) && Congruent(d, z * z')
    ensures Zero(d + d - c' - 2 * (z * z' - D * (t * t'))) && Zero(d + d + c' - 2 * (z * z' + D * (t * t')))
  {
    hide Zero;
    ZeroIsCongruent(c, t * t');
    ZeroIsCongruent(c', c * k);
    ZeroIsCongruent(d, z * z');
    ZeroProduct(c, t * t', k, 2 * D);
    ZeroPlus(c' - c * k, c * k - (t * t') * (2 * D));
    assert c' - c * k + (c * k - (t * t') * (2 * D)) == c' - 2 * (D * (t * t'));
    ZeroTimes(2, d - z * z');
    ZeroPlus(2 * (d - z * z'), c' - 2 * (D * (t * t')));
  }

  lemma HalvesMultiply(r: int, u: int, v: int, e: int, f: int)
    requires Congruent(r, u * v) && Zero(u - 2 * e) && Zero(v - 2 * f)
    ensures Zero(r - 4 * (e * f))
  {
    hide Zero, Congruent;
    ZeroIsCongruent(r, u * v);
    ZeroProduct(u, 2 * e, v, 2 * f);
    assert (2 * e) * (2 * f) == 4 * (e * f);
    ZeroPlus(r - u * v, u * v - (2 * e) * (2 * f));
  }

  lemma SumAlgebra(r: Coordinates, p: Coordinates, q: Coordinates, e: int, f: int, g: int, h: int)
    requires Zero(e - 2 * CrossOf(p, q)) && Zero(h - 2 * InnerOf(p, q))
    requires Zero(f - 2 * TwistLess(p, q)) && Zero(g - 2 * TwistMore(p, q))
    requires Congruent(r.x, e * f) && Congruent(r.y, h * g) && Congruent(r.z, g * f) && Congruent(r.t, e * h)
    ensures IsSum(r, p, q)
  {
    hide Zero, Congruent, CrossOf, InnerOf, TwistLess, TwistMore;
    HalvesMultiply(r.x, e, f, CrossOf(p, q), TwistLess(p, q));
    HalvesMultiply(r.y, h, g, InnerOf(p, q), TwistMore(p, q));
    HalvesMultiply(r.z, g, f, TwistMore(p, q), TwistLess(p, q));
    HalvesMultiply(r.t, e, h, CrossOf(p, q), InnerOf(p, q));
  }

  // ---- Points stand for points of the curve ----

  /** The coordinates are projective coordinates of `a`. */
  ghost predicate Stands(c: Coordinates, a: Affine) {
    !Zero(c.z) && Zero(c.x - a.x * c.z) && Zero(c.y - a.y * c.z) && Zero(c.t - (a.x * a.y) * c.z)
  }

  lemma ScaledProduct(u: int, a: int, z: int, v: int, b: int, z': int)
    requires Zero(u - a * z) && Zero(v - b * z')
    ensures Zero(u * v - (a * b) * (z * z'))
  {
    hide Zero;
    ZeroProduct(u, a * z, v, b * z');
    Regroup(z, a, b, z');
    assert (a * z) * (b * z') == (a * b) * (z * z');
  }

  /** The four intermediate values, for points that stand for `a` and `b`. */
  lemma ScaledParts(p: Coordinates, q: Coordinates, a: Affine, b: Affine)
    requires Stands(p, a) && Stands(q, b)
    ensures var z := p.z * q.z;
            && Zero(CrossOf(p, q) - Cross(a, b) * z) && Zero(InnerOf(p, q) - Inner(a, b) * z)
            && Zero(TwistLess(p, q) - (1 - Delta(a, b)) * z) && Zero(TwistMore(p, q) - (1 + Delta(a, b)) * z)
  {
    hide Zero, CrossOf, InnerOf, TwistLess, TwistMore, Cross, Inner, Delta;
    ScaledCross(p, q, a, b);
    ScaledInner(p, q, a, b);
    ScaledTwist(p, q, a, b);
  }

  lemma ScaledCross(p: Coordinates, q: Coordinates, a: Affine, b: Affine)
    requires Stands(p, a) && Stands(q, b)
    ensures Zero(CrossOf(p, q) - Cross(a, b) * (p.z * q.z))
  {
    hide Zero;
    CrossIs(a, b);
    CrossIs(Affine(p.x, p.y), Affine(q.x, q.y));
    ScaledProduct(p.x, a.x, p.z, q.y, b.y, q.z);
    ScaledProduct(p.y, a.y, p.z, q.x, b.x, q.z);
    ScaledSum(p.x * q.y, a.x * b.y, q.x * p.y, b.x * a.y, p.z * q.z);
  }

  lemma ScaledInner(p: Coordinates, q: Coordinates, a: Affine, b: Affine)
    requires Stands(p, a) && Stands(q, b)
    ensures Zero(InnerOf(p, q) - Inner(a, b) * (p.z * q.z))
  {
    hide Zero;
    InnerIs(a, b);
    InnerIs(Affine(p.x, p.y), Affine(q.x, q.y));
    ScaledProduct(p.y, a.y, p.z, q.y, b.y, q.z);
    ScaledProduct(p.x, a.x, p.z, q.x, b.x, q.z);
    ScaledSum(p.y * q.y, a.y * b.y, p.x * q.x, a.x * b.x, p.z * q.z);
  }

  lemma ScaledSum(u: int, c: int, u': int, c': int, z: int)
    requires Zero(u - c * z) && Zero(u' - c' * z)
    ensures Zero(u + u' - (c + c') * z)
  {
    hide Zero;
    ZeroPlus(u - c * z, u' - c' * z);
    SplitScale(c, c', z);
  }

  lemma ScaledTwist(p: Coordinates, q: Coordinates, a: Affine, b: Affine)
    requires Stands(p, a) && Stands(q, b)
    ensures Zero(TwistLess(p, q) - (1 - Delta(a, b)) * (p.z * q.z))
    ensures Zero(TwistMore(p, q) - (1 + Delta(a, b)) * (p.z * q.z))
  {
    hide Zero;
    var m := (a.x * a.y) * (b.x * b.y);
    ScaledProduct(p.t, a.x * a.y, p.z, q.t, b.x * b.y, q.z);
    DeltaRegroups(a, b);
    TwistedScale(p, q, D, m);
    TwistedScale(p, q, -D, m);
  }

  lemma DeltaRegroups(a: Affine, b: Affine)
    ensures Delta(a, b) == D * ((a.x * a.y) * (b.x * b.y)) && -Delta(a, b) == -D * ((a.x * a.y) * (b.x * b.y))
  {
    DeltaIs(a, b);
    Regroup(a.x, b.x, a.y, b.y);
    Regroup(a.x, a.y, b.x, b.y);
  }

  lemma TwistedScale(p: Coordinates, q: Coordinates, k: int, m: int)
    requires Zero(p.t * q.t - m * (p.z * q.z))
    ensures Zero(Twisted(p, q, k) - (1 + k * m) * (p.z * q.z))
  {
    hide Zero;
    TwistedIs(p, q, k);
    TwistScale(k, m, p.z * q.z, p.t * q.t);
    ZeroTimes(k, p.t * q.t - m * (p.z * q.z));
  }

  lemma SplitScale(a: int, b: int, z: int)
    ensures (a + b) * z == a * z + b * z
  {}

  lemma TwistScale(k: int, m: int, z: int, t: int)
    ensures z + k * t - (1 + k * m) * z == k * (t - m * z)
  {
    assert k * (t - m * z) == k * t - k * (m * z) && k * (m * z) == (k * m) * z;
  }

  /** Four times a product of two intermediate values. */
  lemma ScaledQuadruple(r: int, u: int, v: int, k: int, m: int)
    requires Zero(r - 4 * (u * v)) && Zero(u - k) && Zero(v - m)
    ensures Zero(r - 4 * (k * m))
  {
    hide Zero;
    ZeroProduct(u, k, v, m);
    ZeroTimes(4, u * v - k * m);
    ZeroPlus(r - 4 * (u * v), 4 * (u * v - k * m));
  }

  /** `r` is `4 k m` times a quantity. */
  lemma ScaledCoordinates(r: Coordinates, e: int, h: int, f: int, g: int, k: int, m: int, s: Affine)
    requires Zero(r.x - 4 * (e * f)) && Zero(r.y - 4 * (h * g)) && Zero(r.z - 4 * (g * f)) && Zero(r.t - 4 * (e * h))
    requires Zero(e - k * s.x) && Zero(h - m * s.y) && Zero(f - m) && Zero(g - k)
    ensures Zero(r.x - s.x * r.z) && Zero(r.y - s.y * r.z) && Zero(r.t - (s.x * s.y) * r.z)
    ensures Zero(r.z - 4 * (k * m))
  {
    hide Zero;
    ScaledQuadruple(r.x, e, f, k * s.x, m);
    ScaledQuadruple(r.y, h, g, m * s.y, k);
    ScaledQuadruple(r.z, g, f, k, m);
    ScaledQuadruple(r.t, e, h, k * s.x, m * s.y);
    ByDenominator(r.x, s.x, r.z, k, m, (k * s.x) * m);
    ByDenominator(r.y, s.y, r.z, k, m, (m * s.y) * k);
    Regroup(k, s.x, m, s.y);
    ByDenominator(r.t, s.x * s.y, r.z, k, m, (k * s.x) * (m * s.y));
  }

  lemma ByDenominator(r: int, s: int, z: int, k: int, m: int, v: int)
    requires Zero(r - 4 * v) && Zero(z - 4 * (k * m)) && v == (m * k) * s
    ensures Zero(r - s * z)
  {
    hide Zero;
    ZeroTimes(s, z - 4 * (k * m));
    assert 4 * v == s * (4 * (k * m));
    ZeroPlus(r - 4 * v, s * (z - 4 * (k * m)));
    assert s * (z - 4 * (k * m)) == s * z - s * (4 * (k * m));
  }

  lemma NonzeroDenominator(z: int, k: int, m: int)
    requires PrimeModulus() && !Zero(k) && !Zero(m) && Zero(z - 4 * (k * m))
    ensures !Zero(z)
  {
    hide Zero;
    NonzeroProduct(k, m);
    ZeroMeans(4);
    NonzeroProduct(4, k * m);
    if Zero(z) {
      ZeroPlus(z, z - 4 * (k * m));
    }
  }

  /** The limb addition computes the addition of the curve. */
  lemma SumStands(r: Coordinates, p: Coordinates, q: Coordinates, a: Affine, b: Affine)
    requires PrimeModulus() && Complete() && OnCurve(a) && OnCurve(b)
    requires Stands(p, a) && Stands(q, b) && IsSum(r, p, q)
    ensures Stands(r, Add(a, b))
  {
    hide Zero, Add, PrimeModulus, Complete, OnCurve, Cross, Inner, Delta, CrossOf, InnerOf, TwistLess, TwistMore;
    var s, w, z := Add(a, b), Delta(a, b), p.z * q.z;
    SumEquations(a, b);
    ScaledParts(p, q, a, b);
    NonzeroProduct(p.z, q.z);
    NonzeroProduct(1 + w, z);
    NonzeroProduct(1 - w, z);
    var k, m := (1 + w) * z, (1 - w) * z;
    Rescale(CrossOf(p, q), Cross(a, b), 1 + w, s.x, z);
    Rescale(InnerOf(p, q), Inner(a, b), 1 - w, s.y, z);
    ScaledCoordinates(r, CrossOf(p, q), InnerOf(p, q), TwistLess(p, q), TwistMore(p, q), k, m, s);
    NonzeroDenominator(r.z, k, m);
  }

  lemma Rescale(e: int, c: int, w: int, s: int, z: int)
    requires Zero(e - c * z) && Zero(w * s - c)
    ensures Zero(e - (w * z) * s)
  {
    hide Zero;
    Combination(e - (w * z) * s, 1, e - c * z, -z, w * s - c);
  }

  // ---- The ladder ----

  /** Swaps two points when `b` is 1. */
  method Cswap(p: Point, q: Point, b: I64) returns (p': Point, q': Point)
    requires 0 <= b <= 1
    ensures if b == 1 then p' == q && q' == p else p' == p && q' == q
  {
    var x, x' := Select(p.x, q.x, b);
    var y, y' := Select(p.y, q.y, b);
    var z, z' := Select(p.z, q.z, b);
    var t, t' := Select(p.t, q.t, b);
    p', q' := Point(x, y, z, t), Point(x', y', z', t');
  }

  method Select(p: Limbs, q: Limbs, b: I64) returns (p': Limbs, q': Limbs)
    requires 0 <= b <= 1
    ensures if b == 1 then p' == q && q' == p else p' == p && q' == q
  {
    var a := new I64[16](i requires 0 <= i < 16 => p[i]);
    var c := new I64[16](i requires 0 <= i < 16 => q[i]);
    assert a[..] == p && c[..] == q;
    Sel25519(a, c, b);
    p', q' := a[..], c[..];
  }

  /** Bit `i` of a 32-byte scalar. */
  function ScalarBit(s: seq<Byte>, i: nat): (b: I64)
    requires |s| == 32 && i < 256
    ensures 0 <= b <= 1 && b as int == s[i / 8] / Pow2(i % 8) % 2
  {
    Pow2Small(i % 8);
    ByteLowBit(ShiftRight(s[i / 8] as I64, Pow2(i % 8) as I64));
    Band(ShiftRight(s[i / 8] as I64, Pow2(i % 8) as I64), 1)
  }

  lemma Pow2Small(m: nat)
    requires m < 8
    ensures 1 <= Pow2(m) <= 128
  {
    Pow2Values();
    Pow2Monotone(m, 7);
    Pow2Monotone(0, m);
  }

  lemma ByteLowBit(x: I64)
    ensures Band(x, 1) as int == x as int % 2
  {
    hide Band;
    assert Pow2(1) == 2;
    BandMask(x, 1, 1);
  }

  /** The number made by the bits from `i` up. */
  function Top(s: seq<Byte>, i: nat): nat
    requires |s| == 32 && i <= 256
    decreases 256 - i
  {
    if i == 256 then 0 else 2 * Top(s, i + 1) + ScalarBit(s, i) as int
  }

  lemma Halve(b: nat, p: nat)
    requires p > 0
    ensures b / p == 2 * (b / (2 * p)) + b / p % 2
  {
    var q, r := b / (2 * p), b % (2 * p);
    var c := if r >= p then 1 else 0;
    assert b == (2 * p) * q + r;
    assert (2 * p) * q == p * (2 * q);
    Distribute(p, 2 * q, c);
    DivUnique(b, p, 2 * q + c, r - p * c);
  }

  lemma TopStep(s: seq<Byte>, i: nat, j: nat, m: nat)
    requires |s| == 32 && j < 32 && m < 8 && i == 8 * j + m
    ensures Top(s, i) == 2 * Top(s, i + 1) + s[j] / Pow2(m) % 2
  {
    hide ScalarBit;
    assert i / 8 == j && i % 8 == m;
  }

  lemma {:induction false} TopBits(s: seq<Byte>, j: nat, m: nat)
    requires |s| == 32 && j < 32 && m <= 8
    ensures Pow2(m) > 0 && Top(s, 8 * j + m) == Pow2(8 - m) * Top(s, 8 * j + 8) + s[j] / Pow2(m)
    decreases 8 - m
  {
    hide Top, Pow2;
    Pow2Values();
    Pow2Zero();
    Pow2Monotone(0, m);
    if m < 8 {
      TopBits(s, j, m + 1);
      TopStep(s, 8 * j + m, j, m);
      Pow2Step(m);
      Pow2Step(7 - m);
      hide *;
      Halve(s[j], Pow2(m));
      DoubleProduct(Pow2(7 - m), Top(s, 8 * j + 8));
    }
  }

  lemma Pow2Zero()
    ensures Pow2(0) == 1
  {}

  lemma DoubleProduct(w: int, t: int)
    ensures (2 * w) * t == 2 * (w * t)
  {}

  lemma TopByte(s: seq<Byte>, j: nat)
    requires |s| == 32 && j < 32
    ensures Top(s, 8 * j) == 256 * Top(s, 8 * j + 8) + s[j]
  {
    hide Top, Pow2;
    Pow2Values();
    Pow2Zero();
    TopBits(s, j, 0);
  }

  /** All the bits together are the little-endian number. */
  lemma {:induction false} TopIsNumber(s: seq<Byte>, j: nat)
    requires |s| == 32 && j <= 32
    ensures LittleEndian(s, 32) == LittleEndian(s, j) + ByteWeight(j) * Top(s, 8 * j)
    decreases 32 - j
  {
    hide LittleEndian, ByteWeight, Top;
    if j == 32 {
      TopEnd(s);
    } else {
      TopIsNumber(s, j + 1);
      TopByte(s, j);
      ByteWeightStep(j);
      LittleEndianStep(s, j);
      ShiftIn(ByteWeight(j), Top(s, 8 * j + 8), s[j]);
    }
  }

  lemma TopEnd(s: seq<Byte>)
    requires |s| == 32
    ensures Top(s, 256) == 0
  {}

  lemma ShiftIn(w: nat, t: nat, b: nat)
    ensures w * (256 * t + b) == (256 * w) * t + b * w
  {}

  lemma LittleEndianStep(b: seq<Byte>, n: nat)
    requires n < |b|
    ensures LittleEndian(b, n + 1) == LittleEndian(b, n) + b[n] * ByteWeight(n)
  {}

  lemma TopZero(s: seq<Byte>)
    requires |s| == 32
    ensures Top(s, 0) == LittleEndian(s, 32)
  {
    hide Top;
    TopIsNumber(s, 0);
    assert ByteWeight(0) == 1;
  }

  const NEUTRAL := Point(ZERO_LIMBS, ONE_LIMBS, ONE_LIMBS, ZERO_LIMBS)

  lemma NeutralStands()
    ensures InRange(NEUTRAL) && Stands(Values(NEUTRAL), IDENTITY)
  {
    hide LimbValue, Reduced, Bounded;
    UnitValues();
    ReducedBounded(ZERO_LIMBS);
    ReducedBounded(ONE_LIMBS);
    ZeroMeans(0);
    ZeroMeans(1);
  }

  /** `p` and `q` stand for the `k`-th and the next multiple of `a`. */
  ghost predicate Rungs(p: Point, q: Point, k: nat, a: Affine) {
    Stands(Values(p), Times(k, a)) && Stands(Values(q), Times(k + 1, a))
  }

  ghost predicate Usable(q: Point, a: Affine) {
    CurveFacts() && OnCurve(a) && Stands(Values(q), a)
  }

  /** One rung: from `k` and `k + 1` to `2k + b` and `2k + b + 1`. */
  method Rung(p: Point, q: Point, b: I64, ghost k: nat, ghost a: Affine) returns (p': Point, q': Point)
    requires InRange(p) && InRange(q) && 0 <= b <= 1
    ensures InRange(p') && InRange(q')
    ensures CurveFacts() && OnCurve(a) && Rungs(p, q, k, a) ==> Rungs(p', q', 2 * k + b as int, a)
  {
    hide *;
    var u, v := Cswap(p, q, b);
    var sum := AddPt(v, u);
    var double := AddPt(u, u);
    if CurveFacts() && OnCurve(a) && Rungs(p, q, k, a) {
      RungDoubles(p, q, u, v, sum, double, k, b as int, a);
    }
    p', q' := Cswap(double, sum, b);
  }

  lemma RungDoubles(p: Point, q: Point, u: Point, v: Point, sum: Point, double: Point, k: nat, b: int, a: Affine)
    requires CurveFacts() && OnCurve(a) && Rungs(p, q, k, a)
    requires 0 <= b <= 1 && (if b == 1 then u == q && v == p else u == p && v == q)
    requires IsSum(Values(sum), Values(v), Values(u)) && IsSum(Values(double), Values(u), Values(u))
    ensures if b == 1 then Rungs(sum, double, 2 * k + 1, a) else Rungs(double, sum, 2 * k, a)
  {
    hide IsSum, Times, Stands, Values, CurveFacts, OnCurve;
    FactsGive();
    TimesOnCurve(k, a);
    TimesOnCurve(k + 1, a);
    var m, n := if b == 1 then k + 1 else k, if b == 1 then k else k + 1;
    SumStands(Values(sum), Values(v), Values(u), Times(n, a), Times(m, a));
    TimesSum(n, m, a);
    SumStands(Values(double), Values(u), Values(u), Times(m, a), Times(m, a));
    TimesSum(m, m, a);
  }

  /** The scalar multiple of a point, by a ladder that keeps the two rungs one apart. */
  method Scalarmult(q: Point, s: seq<Byte>, ghost a: Affine) returns (p: Point)
    requires InRange(q) && |s| == 32
    ensures InRange(p)
    ensures Usable(q, a) ==> Stands(Values(p), Times(LittleEndian(s, 32), a))
  {
    hide Stands, Times, OnCurve, CurveFacts, ScalarBit, LittleEndian, LimbValue, Reduced;
    NeutralStands();
    p := NEUTRAL;
    var qq := q;
    ghost var usable := Usable(q, a);
    if usable {
      LadderStarts(q, a);
    }
    for i := 256 downto 0
      invariant InRange(p) && InRange(qq)
      invariant usable ==> Rungs(p, qq, Top(s, i), a)
    {
      p, qq := Rung(p, qq, ScalarBit(s, i), Top(s, i + 1), a);
    }
    TopZero(s);
  }

  lemma LadderStarts(q: Point, a: Affine)
    requires Usable(q, a)
    ensures Rungs(NEUTRAL, q, 0, a)
  {
    hide Stands, OnCurve, Values, Times, PrimeModulus, Complete;
    FactsGive();
    NeutralStands();
    TimesStep(0, a);
    AddIdentity(a);
  }
}
